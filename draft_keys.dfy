/*
  The older, stand-alone key handler of `src/keybindings.js`: three modes, a
  command-line buffer, a fixed set of Normal-mode keys and no trie.  It posts
  messages over IPC and reports whether it called `preventDefault`.

  `Step` is the handler on values; `DraftHandler.KeyDown` is the handler on
  the `appState` object, proved equal to `Step`.
*/
module DraftKeys {
  import opened Wrappers
  import KeyHandlers

  type KeyEvent = KeyHandlers.KeyEvent

  datatype DraftMode = Normal | Insert | Command

  /** `appState` plus the messages posted so far. */
  datatype Draft = Draft(mode: DraftMode, commandBuffer: string, outbox: seq<string>)

  /** The message a Normal-mode key posts without changing mode. */
  function NormalMessage(key: string): (r: Option<string>)
    ensures r.Some? <==> key in {"h", "l", "j", "k"}
  {
    match key
    case "h" => Some("go-back")
    case "l" => Some("go-forward")
    case "j" => Some("scroll-down")
    case "k" => Some("scroll-up")
    case _ => None
  }

  /** One `keydown`: the new state and whether the default action was prevented. */
  function Step(d: Draft, e: KeyEvent): (Draft, bool)
  {
    if e.key == "Escape" then
      if d.mode != Normal then (Draft(Normal, "", d.outbox + ["mode-normal"]), true)
      else (d, false)
    else
      match d.mode
      case Normal =>
        if NormalMessage(e.key).Some? then (d.(outbox := d.outbox + [NormalMessage(e.key).value]), true)
        else if e.key == "i" then (d.(mode := Insert, outbox := d.outbox + ["mode-insert"]), true)
        else if e.key == ":" then (Draft(Command, "", d.outbox + ["mode-command"]), true)
        else (d, false)
      case Insert => (d, false)
      case Command =>
        if e.key == "Enter" then (d.(commandBuffer := "", outbox := d.outbox + ["command:" + d.commandBuffer]), true)
        else if |e.key| == 1 && !e.ctrl && !e.meta then (d.(commandBuffer := d.commandBuffer + e.key), true)
        else (d, false)
  }

  /** The state after a sequence of key events. */
  function Run(d: Draft, events: seq<KeyEvent>): Draft
    decreases |events|
  {
    if events == [] then d else Step(Run(d, events[..|events| - 1]), events[|events| - 1]).0
  }

  // ---------------------------------------------------------------------
  // Properties.

  /** Escape outside Normal returns to Normal, posts `mode-normal` and clears the
      buffer; in Normal it does nothing. */
  lemma EscapeReturnsToNormal(d: Draft, e: KeyEvent)
    requires e.key == "Escape"
    ensures d.mode != Normal ==> Step(d, e) == (Draft(Normal, "", d.outbox + ["mode-normal"]), true)
    ensures d.mode == Normal ==> Step(d, e) == (d, false)
  {
  }

  /** In Normal mode, h, l, j and k post their message and nothing else changes;
      i and : switch mode; every other key is ignored. */
  lemma NormalModeKeys(d: Draft, e: KeyEvent)
    requires d.mode == Normal
    ensures e.key == "h" ==> Step(d, e) == (d.(outbox := d.outbox + ["go-back"]), true)
    ensures e.key == "l" ==> Step(d, e) == (d.(outbox := d.outbox + ["go-forward"]), true)
    ensures e.key == "j" ==> Step(d, e) == (d.(outbox := d.outbox + ["scroll-down"]), true)
    ensures e.key == "k" ==> Step(d, e) == (d.(outbox := d.outbox + ["scroll-up"]), true)
    ensures e.key == "i" ==> Step(d, e) == (d.(mode := Insert, outbox := d.outbox + ["mode-insert"]), true)
    ensures e.key == ":" ==> Step(d, e) == (Draft(Command, "", d.outbox + ["mode-command"]), true)
    ensures e.key !in {"h", "l", "j", "k", "i", ":", "Escape"} ==> Step(d, e) == (d, false)
  {
  }

  /** Insert mode ignores every key but Escape, which the shared test handles
      before the mode is looked at. */
  lemma InsertModeIgnoresKeys(d: Draft, e: KeyEvent)
    requires d.mode == Insert && e.key != "Escape"
    ensures Step(d, e) == (d, false)
  {
  }

  /** In Command mode, Enter posts the command line and clears it without leaving
      Command mode; there is no Backspace, so it is ignored like any other
      key longer than one character. */
  lemma CommandModeKeys(d: Draft, e: KeyEvent)
    requires d.mode == Command
    ensures e.key == "Enter" ==>
      Step(d, e) == (Draft(Command, "", d.outbox + ["command:" + d.commandBuffer]), true)
    ensures e.key == "Backspace" ==> Step(d, e) == (d, false)
    ensures |e.key| == 1 && !e.ctrl && !e.meta ==> Step(d, e) == (d.(commandBuffer := d.commandBuffer + e.key), true)
  {
  }

  /** Typing in Command mode appends to the command line and posts nothing. */
  lemma {:induction false} TypingAppends(d: Draft, text: string)
    requires d.mode == Command
    ensures Run(d, KeyHandlers.Typing(text)) == d.(commandBuffer := d.commandBuffer + text)
  {
    if text != [] {
      var n := |text| - 1;
      assert KeyHandlers.Typing(text)[..n] == KeyHandlers.Typing(text[..n]);
      TypingAppends(d, text[..n]);
      assert d.commandBuffer + text[..n] + [text[n]] == d.commandBuffer + text;
    } else {
      assert d.commandBuffer + text == d.commandBuffer;
    }
  }

  /** From Normal mode, ':' then a command line then Enter posts `mode-command`
      and the command line, and stays in Command mode with an empty buffer. */
  lemma CommandLineFlow(d: Draft, text: string)
    requires d.mode == Normal
    ensures Run(d, [KeyHandlers.KeyEvent(":", false, false)] + KeyHandlers.Typing(text) + [KeyHandlers.Enter]) ==
      Draft(Command, "", d.outbox + ["mode-command", "command:" + text])
  {
    var colon := [KeyHandlers.KeyEvent(":", false, false)];
    var d1 := Draft(Command, "", d.outbox + ["mode-command"]);
    assert Run(d, colon) == d1;
    RunAppend(d, colon, KeyHandlers.Typing(text));
    TypingAppends(d1, text);
    assert "" + text == text;
    var events := colon + KeyHandlers.Typing(text) + [KeyHandlers.Enter];
    assert events[..|events| - 1] == colon + KeyHandlers.Typing(text);
  }

  lemma {:induction false} RunAppend(d: Draft, a: seq<KeyEvent>, b: seq<KeyEvent>)
    ensures Run(d, a + b) == Run(Run(d, a), b)
    decreases |b|
  {
    if b == [] {
      assert a + b == a;
    } else {
      assert (a + b)[..|a + b| - 1] == a + b[..|b| - 1];
      RunAppend(d, a, b[..|b| - 1]);
    }
  }

  /** `window.appState` and the IPC channel. */
  class DraftHandler {
    var mode: DraftMode
    var commandBuffer: string
    var outbox: seq<string>

    function State(): Draft
      reads this
    {
      Draft(mode, commandBuffer, outbox)
    }

    constructor ()
      ensures State() == Draft(Normal, "", [])
    {
      mode := Normal;
      commandBuffer := "";
      outbox := [];
    }

    /** The `keydown` listener; returns whether `preventDefault` was called. */
    method KeyDown(e: KeyEvent) returns (prevented: bool)
      modifies this
      ensures (State(), prevented) == Step(old(State()), e)
    {
      prevented := false;
      if e.key == "Escape" {
        if mode != Normal {
          mode := Normal;
          outbox := outbox + ["mode-normal"];
          commandBuffer := "";
          prevented := true;
        }
        return;
      }
      if mode == Normal {
        var message := NormalMessage(e.key);
        if message.Some? {
          outbox := outbox + [message.value];
          prevented := true;
        } else if e.key == "i" {
          mode := Insert;
          outbox := outbox + ["mode-insert"];
          prevented := true;
        } else if e.key == ":" {
          mode := Command;
          commandBuffer := "";
          outbox := outbox + ["mode-command"];
          prevented := true;
        }
      } else if mode == Insert {
      } else if mode == Command {
        if e.key == "Enter" {
          outbox := outbox + ["command:" + commandBuffer];
          commandBuffer := "";
          prevented := true;
        } else if |e.key| == 1 && !e.ctrl && !e.meta {
          commandBuffer := commandBuffer + e.key;
          prevented := true;
        }
      }
    }
  }
}
