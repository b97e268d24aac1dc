/**
  Properties of the `keydown` listener, stated over `Next` and runs of
  key events.
 */
module KeyHandlerProperties {
  import opened Wrappers
  import opened KeyModes
  import opened KeySequences
  import opened Keybindings
  import opened KeyTries
  import opened KeyTrieProperties
  import opened KeyHandlers
  import KeybindingProperties
  import Sequences

  /** The listener applied to each event in turn. */
  function Run(s: Snapshot, events: seq<KeyEvent>): Snapshot
    decreases |events|
  {
    if events == [] then s else Next(Run(s, events[..|events| - 1]), events[|events| - 1])
  }

  /** Every event posts at most two messages and never withdraws one. */
  lemma OutboxOnlyGrows(s: Snapshot, e: KeyEvent)
    ensures s.outbox <= Next(s, e).outbox
    ensures |Next(s, e).outbox| <= |s.outbox| + 2
  {
  }

  /** Every cursor is on a node of its trie. */
  ghost predicate CursorsOnNodes(tries: map<KeyMode, TrieView>)
  {
    forall m :: m in tries ==> [] in tries[m].nodes && tries[m].current in tries[m].nodes
  }

  /** The tries' nodes are the same in `a` and `b`. */
  ghost predicate SameNodes(a: map<KeyMode, TrieView>, b: map<KeyMode, TrieView>)
  {
    a.Keys == b.Keys && forall m :: m in a ==> a[m].nodes == b[m].nodes
  }

  lemma DispatchKeepsNodes(s: Snapshot, cmd: string)
    ensures SameNodes(Dispatch(s, cmd).tries, s.tries)
    ensures CursorsOnNodes(s.tries) ==> CursorsOnNodes(Dispatch(s, cmd).tries)
  {
  }

  lemma TrieKeyKeepsNodes(s: Snapshot, key: string)
    requires s.mode in s.tries
    ensures SameNodes(TrieKey(s, key).tries, s.tries)
    ensures CursorsOnNodes(s.tries) ==> CursorsOnNodes(TrieKey(s, key).tries)
  {
    var t := s.tries[s.mode];
    var step := Step(t.nodes, t.current, key);
    var s1 := WithCursor(s, step.0);
    if step.1.Resolved? {
      DispatchKeepsNodes(s1.(outbox := s1.outbox + [step.1.command]), step.1.command);
    }
  }

  /** No event adds, removes or changes a trie's nodes, and every cursor stays
      on a node: only cursors move. */
  lemma NodesNeverChange(s: Snapshot, e: KeyEvent)
    ensures SameNodes(Next(s, e).tries, s.tries)
    ensures CursorsOnNodes(s.tries) ==> CursorsOnNodes(Next(s, e).tries)
  {
    if !(e.key == "Escape" && s.mode != Normal) && s.mode != Cmd && s.mode != KeyMode.Search && s.mode in s.tries {
      TrieKeyKeepsNodes(s, KeyName(e));
    }
  }

  /** Escape outside Normal mode returns to Normal and posts `normal-mode`;
      the buffers are left as they were. */
  lemma EscapeReturnsToNormal(s: Snapshot)
    requires s.mode != Normal
    ensures var r := Next(s, KeyEvent("Escape", false, false));
      r.mode == Normal && r.outbox == s.outbox + ["normal-mode"] &&
      r.commandBuffer == s.commandBuffer && r.searchBuffer == s.searchBuffer &&
      (Normal in s.tries ==> r.tries[Normal].current == [])
  {
  }

  /** In Cmd mode, typing a character and pressing Backspace restores the state. */
  lemma CommandLineBackspaceUndoesTyping(s: Snapshot, c: char)
    requires s.mode == Cmd
    ensures Next(Next(s, KeyEvent([c], false, false)), Backspace) == s
  {
    var s1 := Next(s, KeyEvent([c], false, false));
    assert s1.commandBuffer == s.commandBuffer + [c];
    assert (s.commandBuffer + [c])[..|s.commandBuffer|] == s.commandBuffer;
  }

  /** The same in Search mode. */
  lemma SearchLineBackspaceUndoesTyping(s: Snapshot, c: char)
    requires s.mode == KeyMode.Search
    ensures Next(Next(s, KeyEvent([c], false, false)), Backspace) == s
  {
    var s1 := Next(s, KeyEvent([c], false, false));
    assert s1.searchBuffer == s.searchBuffer + [c];
    assert (s.searchBuffer + [c])[..|s.searchBuffer|] == s.searchBuffer;
  }

  /** A ctrl or meta chord is never typed into the command line. */
  lemma ChordsAreNotTyped(s: Snapshot, e: KeyEvent)
    requires s.mode == Cmd && (e.ctrl || e.meta) && e.key != "Escape"
    requires KeyName(e) != "Enter" && KeyName(e) != "Backspace"
    ensures Next(s, e) == s
  {
  }

  lemma {:induction false} TypingAppends(s: Snapshot, text: string)
    requires s.mode == Cmd
    ensures Run(s, Typing(text)) == s.(commandBuffer := s.commandBuffer + text)
    decreases |text|
  {
    if text != [] {
      var init := text[..|text| - 1];
      assert Typing(text)[..|text| - 1] == Typing(init);
      TypingAppends(s, init);
      assert s.commandBuffer + init + [text[|text| - 1]] == s.commandBuffer + text;
    }
  }

  /** A command line typed after entering Cmd mode reaches the host intact,
      followed by `normal-mode`, and the buffer is emptied. */
  lemma CommandLineSubmits(s: Snapshot, text: string)
    requires s.mode == Cmd && s.commandBuffer == ""
    ensures Run(s, Typing(text) + [Enter]) ==
      s.(outbox := s.outbox + ["command:" + text, "normal-mode"], mode := Normal)
  {
    var events := Typing(text) + [Enter];
    assert events[..|events| - 1] == Typing(text);
    TypingAppends(s, text);
    assert "" + text == text;
  }

  /** Enter in Search mode posts the needle and returns to Normal, keeping the
      needle in the buffer. */
  lemma SearchSubmitKeepsNeedle(s: Snapshot)
    requires s.mode == KeyMode.Search
    ensures Next(s, Enter) ==
      s.(outbox := s.outbox + ["search:" + s.searchBuffer, "normal-mode"], mode := Normal)
  {
  }

  /** A mode with a trie (Normal or Insert) that `keys` do not leave by Escape. */
  predicate TrieModeFor(s: Snapshot, keys: seq<string>)
  {
    s.mode != Cmd && s.mode != KeyMode.Search && s.mode in s.tries &&
    (s.mode == Normal || forall i :: 0 <= i < |keys| ==> keys[i] != "Escape")
  }

  lemma CursorUnmoved(s: Snapshot)
    requires s.mode in s.tries
    ensures WithCursor(s, s.tries[s.mode].current) == s
  {
    var t := s.tries[s.mode];
    assert TrieView(t.nodes, t.current) == t;
    assert s.tries[s.mode := t] == s.tries;
  }

  /** Outside Cmd and Search mode, an event other than a leaving Escape goes to the mode's trie. */
  lemma NextInTrieMode(s: Snapshot, e: KeyEvent)
    requires s.mode != Cmd && s.mode != KeyMode.Search && s.mode in s.tries
    requires s.mode == Normal || e.key != "Escape"
    ensures Next(s, e) == TrieKey(s, KeyName(e))
  {
  }

  lemma TrieKeyPending(s: Snapshot, key: string)
    requires s.mode in s.tries
    requires !Step(s.tries[s.mode].nodes, s.tries[s.mode].current, key).1.Resolved?
    ensures TrieKey(s, key) == WithCursor(s, Step(s.tries[s.mode].nodes, s.tries[s.mode].current, key).0)
  {
  }

  lemma TrieKeyResolved(s: Snapshot, key: string, cmd: string)
    requires s.mode in s.tries
    requires Step(s.tries[s.mode].nodes, s.tries[s.mode].current, key).1 == Resolved(cmd)
    ensures TrieKey(s, key) == Dispatch(WithCursor(s, []).(outbox := s.outbox + [cmd]), cmd)
  {
  }

  lemma FeedOutcomesPrefix(nodes: Nodes, current: KeySequence, keys: seq<string>)
    requires keys != []
    ensures Feed(nodes, current, keys).1[..|keys| - 1] == Feed(nodes, current, keys[..|keys| - 1]).1
  {
  }

  /** While the trie stays pending, keys only move the cursor: nothing is
      posted and the mode does not change. */
  lemma {:induction false} PendingKeysOnlyMoveCursor(s: Snapshot, keys: seq<string>)
    requires TrieModeFor(s, keys)
    requires Feed(s.tries[s.mode].nodes, s.tries[s.mode].current, keys).1 == Pendings(|keys|)
    ensures Run(s, Presses(keys)) == WithCursor(s, Feed(s.tries[s.mode].nodes, s.tries[s.mode].current, keys).0)
    decreases |keys|
  {
    var t := s.tries[s.mode];
    if keys == [] {
      assert s.tries[s.mode := t] == s.tries;
    } else {
      var n := |keys|;
      var init := keys[..n - 1];
      assert Presses(keys)[..n - 1] == Presses(init);
      FeedOutcomesPrefix(t.nodes, t.current, keys);
      assert Pendings(n)[..n - 1] == Pendings(n - 1);
      PendingKeysOnlyMoveCursor(s, init);
      var before := Feed(t.nodes, t.current, init).0;
      var s1 := WithCursor(s, before);
      assert Run(s, Presses(keys)) == Next(s1, KeyEvent(keys[n - 1], false, false));
      assert Feed(t.nodes, t.current, keys).1[n - 1] == Pending;
      NextInTrieMode(s1, KeyEvent(keys[n - 1], false, false));
      TrieKeyPending(s1, keys[n - 1]);
      assert WithCursor(s1, Feed(t.nodes, t.current, keys).0) == WithCursor(s, Feed(t.nodes, t.current, keys).0);
    }
  }

  /** Typing a sequence that the trie resolves on its last key posts the command
      once and dispatches it, with the cursor back at the root. */
  lemma ResolvingKeysPostCommand(s: Snapshot, keys: seq<string>, cmd: string)
    requires TrieModeFor(s, keys) && keys != []
    requires Feed(s.tries[s.mode].nodes, s.tries[s.mode].current, keys) == ([], Pendings(|keys| - 1) + [Resolved(cmd)])
    ensures Run(s, Presses(keys)) == Dispatch(WithCursor(s, []).(outbox := s.outbox + [cmd]), cmd)
  {
    var t := s.tries[s.mode];
    var n := |keys|;
    var init := keys[..n - 1];
    assert Presses(keys)[..n - 1] == Presses(init);
    FeedOutcomesPrefix(t.nodes, t.current, keys);
    assert (Pendings(n - 1) + [Resolved(cmd)])[..n - 1] == Pendings(n - 1);
    PendingKeysOnlyMoveCursor(s, init);
    var s1 := WithCursor(s, Feed(t.nodes, t.current, init).0);
    assert Run(s, Presses(keys)) == Next(s1, KeyEvent(keys[n - 1], false, false));
    NextInTrieMode(s1, KeyEvent(keys[n - 1], false, false));
    TrieKeyResolved(s1, keys[n - 1], cmd);
    assert WithCursor(s1, []) == WithCursor(s, []);
  }

  /** With the emitted trie of a prefix-free table, typing a bound sequence in
      its mode from the root posts exactly its command. */
  lemma TypingBoundSequencePostsCommand(s: Snapshot, m: ModeTable, order: seq<string>, c: string)
    requires PrefixFree(m) && Enumerates(order, m)
    requires forall d :: d in m ==> d != ""
    requires c in m && m[c] != []
    requires forall d :: d in m && m[d] == m[c] ==> d == c
    requires TrieModeFor(s, m[c]) && s.tries[s.mode] == EmittedTrie(m, order)
    ensures Run(s, Presses(m[c])) == Dispatch(s.(outbox := s.outbox + [c]), c)
  {
    BoundSequenceResolvesToItself(m, order, c);
    ResolvingKeysPostCommand(s, m[c], c);
    CursorUnmoved(s);
  }

  /** A ctrl chord in a trie mode built from `from_str` sequences posts nothing,
      keeps the mode and sends the cursor back to the root. */
  lemma CtrlChordPostsNothing(s: Snapshot, m: ModeTable, order: seq<string>, key: string)
    requires SingleCharacterKeys(m) && Enumerates(order, m)
    requires s.mode != Cmd && s.mode != KeyMode.Search && s.mode in s.tries
    requires s.mode == Normal || key != "Escape"
    requires s.tries[s.mode].nodes == Build(Emit(m, order)) && s.tries[s.mode].current in s.tries[s.mode].nodes
    ensures Next(s, KeyEvent(key, true, false)) == WithCursor(s, [])
  {
    CtrlChordIsInvalid(m, order, s.tries[s.mode].current, key);
  }

  lemma {:induction false} RunAppend(s: Snapshot, a: seq<KeyEvent>, b: seq<KeyEvent>)
    ensures Run(s, a + b) == Run(Run(s, a), b)
    decreases |b|
  {
    if b == [] {
      assert a + b == a;
    } else {
      assert (a + b)[..|a + b| - 1] == a + b[..|b| - 1];
      RunAppend(s, a, b[..|b| - 1]);
    }
  }

  lemma DefaultCommandModeOwner()
    ensures DefaultNormal()["cmd-mode"] == [":"]
    ensures forall d :: d in DefaultNormal() ==> d != ""
    ensures forall d :: d in DefaultNormal() && DefaultNormal()[d] == [":"] ==> d == "cmd-mode"
  {
    var m := DefaultNormal();
    forall d | d in m ensures d != "" && (m[d] == [":"] ==> d == "cmd-mode") {
    }
  }

  /** Outside the line editors, an event prevents the default exactly when it
      posts a message: a leaving Escape or a resolved trie command. */
  lemma PreventedIffPosts(s: Snapshot, e: KeyEvent)
    requires s.mode != Cmd && s.mode != KeyMode.Search
    ensures Prevented(s, e) <==> |Next(s, e).outbox| > |s.outbox|
  {
    if !(e.key == "Escape" && s.mode != Normal) && s.mode in s.tries {
      var t := s.tries[s.mode];
      var step := Step(t.nodes, t.current, KeyName(e));
      if !step.1.Resolved? {
        TrieKeyPending(s, KeyName(e));
      }
    }
  }

  /** In the Cmd and Search line editors, an event prevents the default exactly
      when it is Backspace or changes the page state; every other key is
      ignored and left to the page. */
  lemma LinePreventedIffHandled(s: Snapshot, e: KeyEvent)
    requires s.mode == Cmd || s.mode == KeyMode.Search
    ensures Prevented(s, e) <==> KeyName(e) == "Backspace" || Next(s, e) != s
  {
    if !(e.key == "Escape" && s.mode != Normal) && KeyName(e) != "Enter" && KeyName(e) != "Backspace" {
      var key := KeyName(e);
      if |key| == 1 && !e.ctrl && !e.meta {
        var buffer := if s.mode == Cmd then s.commandBuffer else s.searchBuffer;
        assert |Edit(buffer, key, e)| == |buffer| + 1;
      }
    }
  }

  /** In a mode without a trie, such as Insert mode, every key but a leaving
      Escape is left to the page: nothing is prevented and nothing changes. */
  lemma NoTrieNeverPrevents(s: Snapshot, e: KeyEvent)
    requires s.mode != Cmd && s.mode != KeyMode.Search && s.mode !in s.tries
    requires s.mode == Normal || e.key != "Escape"
    ensures !Prevented(s, e) && Next(s, e) == s
  {
  }

  /** With the default Normal trie, `g` (the start of `gg`) and then `x` are
      left to the page, while `:` is prevented. */
  lemma DefaultPrevention(s: Snapshot, order: seq<string>)
    requires Enumerates(order, DefaultNormal())
    requires s.mode == Normal && s.tries == map[Normal := EmittedTrie(DefaultNormal(), order)]
    ensures !Prevented(s, KeyEvent("g", false, false))
    ensures !Prevented(Next(s, KeyEvent("g", false, false)), KeyEvent("x", false, false))
    ensures Prevented(s, KeyEvent(":", false, false))
  {
    var nodes := Build(Emit(DefaultNormal(), order));
    DefaultGThenXIsInvalid(order);
    var g := Step(nodes, [], "g");
    assert Feed(nodes, [], ["g", "x"]).1[0] == g.1 by {
      FeedOutcomesPrefix(nodes, [], ["g", "x"]);
      assert ["g", "x"][..1] == ["g"];
    }
    var s1 := Next(s, KeyEvent("g", false, false));
    TrieKeyPending(s, "g");
    assert s1.tries[Normal].current == g.0;
    assert Feed(nodes, [], ["g", "x"]).1[1] == Step(nodes, g.0, "x").1;
    DefaultColonOpensCommandLine(s, order);
    assert Run(s, Presses([":"])) == Next(s, KeyEvent(":", false, false));
    PreventedIffPosts(s, KeyEvent(":", false, false));
  }

  /** With the default Normal trie, ':' enters Command mode with an empty
      command line and posts `cmd-mode`. */
  lemma DefaultColonOpensCommandLine(s: Snapshot, order: seq<string>)
    requires Enumerates(order, DefaultNormal())
    requires s.mode == Normal && s.tries == map[Normal := EmittedTrie(DefaultNormal(), order)]
    ensures var r := Run(s, Presses([":"]));
      r.mode == Cmd && r.commandBuffer == "" && r.outbox == s.outbox + ["cmd-mode"]
  {
    var m := DefaultNormal();
    assert Run(s, Presses([":"])) == Dispatch(s.(outbox := s.outbox + ["cmd-mode"]), "cmd-mode") by {
      KeybindingProperties.DefaultsPrefixFree();
      assert PrefixFree(WithDefaults()[Normal]);
      DefaultCommandModeOwner();
      assert TrieModeFor(s, m["cmd-mode"]);
      TypingBoundSequencePostsCommand(s, m, order, "cmd-mode");
    }
  }

  /** With the default Normal trie, ':' then a command line then Enter posts
      `cmd-mode`, the command line, then `normal-mode`, and ends in Normal mode. */
  lemma DefaultCommandLineFlow(s: Snapshot, order: seq<string>, text: string)
    requires Enumerates(order, DefaultNormal())
    requires s.mode == Normal && s.tries == map[Normal := EmittedTrie(DefaultNormal(), order)]
    ensures var r := Run(s, Presses([":"]) + Typing(text) + [Enter]);
      r.outbox == s.outbox + ["cmd-mode", "command:" + text, "normal-mode"] &&
      r.mode == Normal && r.commandBuffer == ""
  {
    var s1 := Run(s, Presses([":"]));
    DefaultColonOpensCommandLine(s, order);
    RunAppend(s, Presses([":"]), Typing(text) + [Enter]);
    Sequences.AppendAssoc(Presses([":"]), Typing(text), [Enter]);
    CommandLineSubmits(s1, text);
  }

  /** The default table's commands and keys need no escaping. */
  lemma DefaultsAreEmittable()
    ensures Emittable(WithDefaults())
  {
    var m := DefaultNormal();
    DefaultCommandsAreSafe();
    DefaultKeysAreSafe();
  }

  /** Lower-case letters and hyphens only, as the kebab-case action names are. */
  predicate KebabCase(s: string)
  {
    forall k :: 0 <= k < |s| ==> 'a' <= s[k] <= 'z' || s[k] == '-'
  }

  lemma KebabCaseIsSafe(s: string)
    requires KebabCase(s)
    ensures JsLiteralSafe(s)
  {
  }

  lemma DefaultCommandsAreSafe()
    ensures forall c :: c in DefaultNormal() ==> JsLiteralSafe(c)
  {
    var m := DefaultNormal();
    forall c | c in m ensures JsLiteralSafe(c) {
      assert KebabCase(c) by {
        forall d | d in m ensures KebabCase(d) {
        }
      }
      KebabCaseIsSafe(c);
    }
  }

  lemma DefaultKeysAreSafe()
    ensures forall c, j :: c in DefaultNormal() && 0 <= j < |DefaultNormal()[c]| ==> JsLiteralSafe(DefaultNormal()[c][j])
  {
    var m := DefaultNormal();
    forall c, j | c in m && 0 <= j < |m[c]| ensures JsLiteralSafe(m[c][j]) {
    }
  }

  /** With the mode parse as written, `new` either fails or returns the
      defaults, so every table that reaches the script is `Emittable`. */
  lemma AsWrittenEmitsOnlyDefaults(config: Option<Config>)
    ensures Configure(config, ParseModeAsWritten).Ok? ==>
      Configure(config, ParseModeAsWritten).value == WithDefaults() && Emittable(WithDefaults())
  {
    if config.Some? && config.value != [] {
      KeybindingProperties.NewAsWrittenRejectsEveryConfig(config.value);
    }
    DefaultsAreEmittable();
  }

  /** With the mode parse corrected, a backslash key is accepted, and the
      table it gives is not `Emittable`: the script would hold `["\"]`. */
  lemma UnescapedKeyIsAccepted()
    ensures var r := Configure(Some([ModeConfig("insert", [Binding("\\", "normal-mode")])]), ParseModeIgnoringCase);
      r == Ok(WithDefaults()[Insert := map["normal-mode" := ["\\"]]]) && !Emittable(r.value)
  {
    assert Lower("insert") == "insert";
    assert FromStr("\\") == ["\\"];
    assert !ConflictsWithBound(["\\"], map[]);
    var t := WithDefaults()[Insert := map["normal-mode" := ["\\"]]];
    assert !JsLiteralSafe(t[Insert]["normal-mode"][0]);
  }
}
