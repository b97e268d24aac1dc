/**
  The `keydown` listener of the script emitted by src/key.rs:240-345 and the
  setup before it (src/key.rs:156-169, 217-236): the page state
  `window.appState`, one `KeyTrie` per bound mode except Cmd, and the
  messages posted to the host with `sendAction`, collected in `outbox`.
 */
module KeyHandlers {
  import opened Wrappers
  import opened KeyModes
  import opened KeySequences
  import opened Keybindings
  import opened KeyTries
  import opened KeyTrieProperties

  /** The fields of a `keydown` event the listener reads. */
  datatype KeyEvent = KeyEvent(key: string, ctrl: bool, meta: bool)

  /** Plain key presses, no modifier held. */
  function Presses(keys: seq<string>): (r: seq<KeyEvent>)
    ensures |r| == |keys|
    ensures forall i :: 0 <= i < |keys| ==> r[i] == KeyEvent(keys[i], false, false)
  {
    seq(|keys|, i requires 0 <= i < |keys| => KeyEvent(keys[i], false, false))
  }

  /** Typing `text` one character at a time. */
  function Typing(text: string): (r: seq<KeyEvent>)
    ensures |r| == |text|
    ensures forall i :: 0 <= i < |text| ==> r[i] == KeyEvent([text[i]], false, false)
  {
    seq(|text|, i requires 0 <= i < |text| => KeyEvent([text[i]], false, false))
  }

  const Enter := KeyEvent("Enter", false, false)
  const Backspace := KeyEvent("Backspace", false, false)

  /** A trie's state: its nodes and its cursor. */
  datatype TrieView = TrieView(nodes: Nodes, current: KeySequence)

  /** The handler's whole state as a value. */
  datatype Snapshot = Snapshot(
    mode: KeyMode,
    commandBuffer: string,
    searchBuffer: string,
    tries: map<KeyMode, TrieView>,
    outbox: seq<string>)

  /** The key name handed to the trie: a ctrl chord becomes "C-" + key. */
  function KeyName(e: KeyEvent): (r: string)
    ensures e.ctrl ==> |r| == |e.key| + 2 && r[..2] == "C-" && r[2..] == e.key
    ensures !e.ctrl ==> r == e.key
  {
    if e.ctrl then "C-" + e.key else e.key
  }

  /** The four mode-switching commands and the mode each displays. */
  function ModeCommandTarget(cmd: string): (r: Option<KeyMode>)
    ensures r.Some? <==> cmd in {"normal-mode", "insert-mode", "cmd-mode", "search-mode"}
  {
    match cmd
    case "normal-mode" => Some(Normal)
    case "insert-mode" => Some(Insert)
    case "cmd-mode" => Some(Cmd)
    case "search-mode" => Some(KeyMode.Search)
    case _ => None
  }

  /** The line editor shared by Cmd and Search mode (other than Enter):
      Backspace drops the last character of a non-empty buffer, a
      one-character key without ctrl or meta is appended, anything else is ignored. */
  function Edit(buffer: string, key: string, e: KeyEvent): (r: string)
    ensures key == "Backspace" ==> r == if buffer == "" then "" else buffer[..|buffer| - 1]
    ensures key != "Backspace" && |key| == 1 && !e.ctrl && !e.meta ==> r == buffer + key
    ensures key != "Backspace" && !(|key| == 1 && !e.ctrl && !e.meta) ==> r == buffer
  {
    if key == "Backspace" then
      if |buffer| > 0 then buffer[..|buffer| - 1] else buffer
    else if |key| == 1 && !e.ctrl && !e.meta then buffer + key
    else buffer
  }

  /** `newTrie.reset()` for the trie of `m`, if there is one. */
  function ResetIn(tries: map<KeyMode, TrieView>, m: KeyMode): (r: map<KeyMode, TrieView>)
    ensures r.Keys == tries.Keys
    ensures m in r ==> r[m] == TrieView(tries[m].nodes, [])
    ensures forall n :: n in r && n != m ==> r[n] == tries[n]
  {
    if m in tries then tries[m := TrieView(tries[m].nodes, [])] else tries
  }

  /** What follows a resolved command `cmd`: a mode command switches the mode,
      clears the buffer of Cmd or Search when entering it, and resets the new mode's trie. */
  function Dispatch(s: Snapshot, cmd: string): Snapshot
  {
    match ModeCommandTarget(cmd)
    case None => s
    case Some(m) =>
      s.(commandBuffer := if m == Cmd then "" else s.commandBuffer,
         searchBuffer := if m == KeyMode.Search then "" else s.searchBuffer,
         mode := m,
         tries := ResetIn(s.tries, m))
  }

  /** Escape outside Normal mode: back to Normal, buffers kept. */
  function Escaped(s: Snapshot): Snapshot
  {
    s.(mode := Normal, outbox := s.outbox + ["normal-mode"], tries := ResetIn(s.tries, Normal))
  }

  /** A key in Cmd mode: Enter posts the command line and returns to Normal. */
  function CmdKey(s: Snapshot, e: KeyEvent): Snapshot
  {
    var key := KeyName(e);
    if key == "Enter" then
      s.(outbox := s.outbox + ["command:" + s.commandBuffer, "normal-mode"], commandBuffer := "", mode := Normal)
    else s.(commandBuffer := Edit(s.commandBuffer, key, e))
  }

  /** A key in Search mode: Enter posts the needle and returns to Normal, keeping the buffer. */
  function SearchKey(s: Snapshot, e: KeyEvent): Snapshot
  {
    var key := KeyName(e);
    if key == "Enter" then
      s.(outbox := s.outbox + ["search:" + s.searchBuffer, "normal-mode"], mode := Normal)
    else s.(searchBuffer := Edit(s.searchBuffer, key, e))
  }

  /** The snapshot with the current mode's cursor moved to `p`. */
  function WithCursor(s: Snapshot, p: KeySequence): Snapshot
    requires s.mode in s.tries
  {
    s.(tries := s.tries[s.mode := TrieView(s.tries[s.mode].nodes, p)])
  }

  /** A key in a mode with a trie: one `processKey`, then the resolved command, if any, is posted and dispatched. */
  function TrieKey(s: Snapshot, key: string): Snapshot
    requires s.mode in s.tries
  {
    var t := s.tries[s.mode];
    var step := Step(t.nodes, t.current, key);
    var s1 := WithCursor(s, step.0);
    match step.1
    case Resolved(cmd) => Dispatch(s1.(outbox := s1.outbox + [cmd]), cmd)
    case _ => s1
  }

  /** A key other than Escape outside Normal mode. */
  function OtherKey(s: Snapshot, e: KeyEvent): Snapshot
  {
    if s.mode == Cmd then CmdKey(s, e)
    else if s.mode == KeyMode.Search then SearchKey(s, e)
    else if s.mode !in s.tries then s
    else TrieKey(s, KeyName(e))
  }

  /** One `keydown` event. */
  function Next(s: Snapshot, e: KeyEvent): Snapshot
  {
    if e.key == "Escape" && s.mode != Normal then Escaped(s) else OtherKey(s, e)
  }

  /** Whether the Cmd or Search line editor calls `preventDefault`: on Enter,
      on Backspace (even with an empty buffer) and on a typed character. */
  predicate LineKeyPrevented(e: KeyEvent)
  {
    var key := KeyName(e);
    key == "Enter" || key == "Backspace" || (|key| == 1 && !e.ctrl && !e.meta)
  }

  /** Whether one `keydown` event calls `preventDefault`: a leaving Escape,
      the line editor's keys, or a key that resolves a trie command; never a
      pending or invalid key, and never a key in a mode without a trie. */
  predicate Prevented(s: Snapshot, e: KeyEvent)
  {
    if e.key == "Escape" && s.mode != Normal then true
    else if s.mode == Cmd || s.mode == KeyMode.Search then LineKeyPrevented(e)
    else if s.mode !in s.tries then false
    else
      var t := s.tries[s.mode];
      Step(t.nodes, t.current, KeyName(e)).1.Resolved?
  }

  /** Every mode the script emits a trie for has an iteration order of its commands. */
  predicate HasOrders(t: Table, orders: map<KeyMode, seq<string>>)
  {
    forall m :: m in t && m != Cmd ==> m in orders && Enumerates(orders[m], t[m])
  }

  /** A trie emitted for one mode: its pairs inserted in `order`, the cursor at the root. */
  function EmittedTrie(mt: ModeTable, order: seq<string>): TrieView
    requires Enumerates(order, mt)
  {
    TrieView(Build(Emit(mt, order)), [])
  }

  /** A string the script can put between double quotes unescaped: no quote,
      backslash, carriage return or line feed. */
  predicate JsLiteralSafe(s: string)
  {
    '"' !in s && '\\' !in s && '\r' !in s && '\n' !in s
  }

  /** Every command and key of `t` is `JsLiteralSafe`, so the emitted script parses. */
  ghost predicate Emittable(t: Table)
  {
    forall m, c :: m in t && c in t[m] ==>
      JsLiteralSafe(c) && forall j :: 0 <= j < |t[m][c]| ==> JsLiteralSafe(t[m][c][j])
  }

  /** The tries the script creates for table `t`: one per bound mode but Cmd,
      with the mode's pairs inserted in the iteration order `orders[m]`.  This
      is what the script does when it parses, that is for an `Emittable` table. */
  function EmittedTries(t: Table, orders: map<KeyMode, seq<string>>): (r: map<KeyMode, TrieView>)
    requires HasOrders(t, orders)
    ensures r.Keys == t.Keys - {Cmd}
  {
    map m | m in t.Keys - {Cmd} :: EmittedTrie(t[m], orders[m])
  }

  lemma EmittedTriesAt(t: Table, orders: map<KeyMode, seq<string>>, m: KeyMode)
    requires HasOrders(t, orders) && m in t && m != Cmd
    ensures EmittedTries(t, orders)[m] == EmittedTrie(t[m], orders[m])
  {
  }

  /** `m` restricted to the keys in `keys`. */
  function Restrict(m: map<KeyMode, TrieView>, keys: set<KeyMode>): (r: map<KeyMode, TrieView>)
    ensures r.Keys == m.Keys * keys
  {
    map k | k in m.Keys * keys :: m[k]
  }

  lemma RestrictAdd(m: map<KeyMode, TrieView>, keys: set<KeyMode>, k: KeyMode)
    requires k in m
    ensures Restrict(m, keys)[k := m[k]] == Restrict(m, keys + {k})
  {
  }

  /** The loop of src/key.rs:226-234 for one mode. */
  method NewTrie(mt: ModeTable, order: seq<string>) returns (trie: KeyTrie)
    requires Enumerates(order, mt)
    ensures fresh(trie) && trie.Valid()
    ensures TrieView(trie.nodes, trie.current) == EmittedTrie(mt, order)
  {
    trie := new KeyTrie();
    var i := 0;
    while i < |order|
      invariant 0 <= i <= |order|
      invariant trie.Valid() && trie.current == []
      invariant trie.nodes == Build(Emit(mt, order[..i]))
      modifies trie
    {
      assert Emit(mt, order[..i + 1])[..i] == Emit(mt, order[..i]);
      trie.Insert(mt[order[i]], order[i]);
      i := i + 1;
    }
    assert order[..i] == order;
  }

  class KeyHandler {
    var mode: KeyMode
    var commandBuffer: string
    var searchBuffer: string
    var tries: map<KeyMode, KeyTrie>
    var outbox: seq<string>

    /** The state of every trie, as values. */
    ghost var views: map<KeyMode, TrieView>

    /** The tries, as a set of objects. */
    ghost var repr: set<KeyTrie>

    /** Every trie is well formed, no two modes share one, and `views` is their state. */
    ghost predicate Valid()
      reads this`tries, this`views, this`repr, repr
    {
      views.Keys == tries.Keys &&
      (forall m :: m in tries ==> tries[m] in repr && tries[m].Valid() && views[m] == TrieView(tries[m].nodes, tries[m].current)) &&
      (forall m1, m2 :: m1 in tries && m2 in tries && tries[m1] == tries[m2] ==> m1 == m2)
    }

    ghost function Abstract(): Snapshot
      reads this
    {
      Snapshot(mode, commandBuffer, searchBuffer, views, outbox)
    }

    /** `window.keyTries[m].reset()` when that trie exists. */
    method ResetTrie(m: KeyMode)
      requires Valid()
      modifies this`views, repr
      ensures Valid()
      ensures views == ResetIn(old(views), m)
    {
      if m in tries {
        tries[m].Reset();
        views := views[m := TrieView(tries[m].nodes, [])];
      }
    }

    /** `trie.processKey(key)` on the trie of the current mode. */
    method ProcessKey(key: string) returns (outcome: Outcome)
      requires Valid() && mode in tries
      modifies this`views, repr
      ensures Valid()
      ensures var old_t := old(views)[mode];
        var step := Step(old_t.nodes, old_t.current, key);
        outcome == step.1 && views == old(views)[mode := TrieView(old_t.nodes, step.0)]
    {
      outcome := tries[mode].ProcessKey(key);
      views := views[mode := TrieView(tries[mode].nodes, tries[mode].current)];
    }

    /** The initial `appState` and the tries emitted for `table`. */
    constructor (table: Table, orders: map<KeyMode, seq<string>>)
      requires HasOrders(table, orders)
      ensures Valid()
      ensures Abstract() == Snapshot(Normal, "", "", EmittedTries(table, orders), [])
    {
      mode := Normal;
      commandBuffer := "";
      searchBuffer := "";
      tries := map[];
      outbox := [];
      views := map[];
      repr := {};
      new;
      EmitTries(table, orders);
      assert Restrict(EmittedTries(table, orders), table.Keys - {Cmd}) == EmittedTries(table, orders);
    }

    /** The loop of src/key.rs:217-236 over the table's modes, skipping Cmd. */
    method EmitTries(table: Table, orders: map<KeyMode, seq<string>>)
      requires HasOrders(table, orders)
      requires Valid() && tries == map[]
      modifies this`tries, this`views, this`repr
      ensures Valid()
      ensures views == Restrict(EmittedTries(table, orders), table.Keys - {Cmd})
    {
      ghost var emitted := EmittedTries(table, orders);
      var done: set<KeyMode> := {};
      while done != table.Keys - {Cmd}
        invariant done <= table.Keys - {Cmd}
        invariant Valid()
        invariant views == Restrict(emitted, done)
        decreases table.Keys - {Cmd} - done
      {
        var m :| m in table.Keys - {Cmd} - done;
        EmitNext(m, table, orders, done);
        done := done + {m};
      }
    }

    /** One iteration of the loop of `EmitTries`. */
    method EmitNext(m: KeyMode, table: Table, orders: map<KeyMode, seq<string>>, ghost done: set<KeyMode>)
      requires HasOrders(table, orders) && m in table && m != Cmd && m !in done
      requires Valid() && views == Restrict(EmittedTries(table, orders), done)
      modifies this`tries, this`views, this`repr
      ensures Valid()
      ensures views == Restrict(EmittedTries(table, orders), done + {m})
    {
      RestrictAdd(EmittedTries(table, orders), done, m);
      EmitMode(m, table, orders);
    }

    /** `window.keyTries['m'] = new KeyTrie()` and its inserts, for a mode without a trie. */
    method EmitMode(m: KeyMode, table: Table, orders: map<KeyMode, seq<string>>)
      requires HasOrders(table, orders) && m in table && m != Cmd
      requires Valid() && m !in tries
      modifies this`tries, this`views, this`repr
      ensures Valid()
      ensures tries.Keys == old(tries).Keys + {m}
      ensures views == old(views)[m := EmittedTries(table, orders)[m]]
    {
      var trie := NewTrie(table[m], orders[m]);
      EmittedTriesAt(table, orders, m);
      AddTrie(m, trie);
    }

    /** `window.keyTries['m'] = trie`. */
    method AddTrie(m: KeyMode, trie: KeyTrie)
      requires Valid() && m !in tries && trie !in repr && trie.Valid()
      modifies this`tries, this`views, this`repr
      ensures Valid()
      ensures tries.Keys == old(tries).Keys + {m}
      ensures views == old(views)[m := TrieView(trie.nodes, trie.current)]
    {
      tries := tries[m := trie];
      views := views[m := TrieView(trie.nodes, trie.current)];
      repr := repr + {trie};
    }

    /** The `keydown` listener; `prevented` tells whether it called `preventDefault`. */
    method KeyDown(e: KeyEvent) returns (prevented: bool)
      requires Valid()
      modifies this, repr
      ensures Valid() && tries == old(tries) && repr == old(repr)
      ensures Abstract() == Next(old(Abstract()), e)
      ensures prevented == Prevented(old(Abstract()), e)
    {
      if e.key == "Escape" && mode != Normal {
        EscapeKey();
        prevented := true;
      } else {
        prevented := AnyOtherKey(e);
      }
    }

    /** The listener past the Escape test. */
    method AnyOtherKey(e: KeyEvent) returns (prevented: bool)
      requires Valid()
      requires !(e.key == "Escape" && mode != Normal)
      modifies this`mode, this`commandBuffer, this`searchBuffer, this`outbox, this`views, repr
      ensures Valid()
      ensures Abstract() == OtherKey(old(Abstract()), e)
      ensures prevented == Prevented(old(Abstract()), e)
    {
      if mode == Cmd || mode == KeyMode.Search {
        prevented := LineKey(e);
      } else if mode in tries {
        prevented := TrieModeKey(if e.ctrl then "C-" + e.key else e.key);
      } else {
        prevented := false;
      }
    }

    /** The Cmd and Search branches of the listener. */
    method LineKey(e: KeyEvent) returns (prevented: bool)
      requires mode == Cmd || mode == KeyMode.Search
      modifies this`mode, this`commandBuffer, this`searchBuffer, this`outbox
      ensures Abstract() == OtherKey(old(Abstract()), e)
      ensures prevented == LineKeyPrevented(e)
    {
      if mode == Cmd {
        prevented := CommandLineKey(e);
      } else {
        prevented := SearchLineKey(e);
      }
    }

    /** The Escape branch of the listener. */
    method EscapeKey()
      requires Valid()
      modifies this`mode, this`outbox, this`views, repr
      ensures Valid()
      ensures Abstract() == Escaped(old(Abstract()))
    {
      mode := Normal;
      outbox := outbox + ["normal-mode"];
      ResetTrie(Normal);
    }

    /** The Cmd-mode branch of the listener. */
    method CommandLineKey(e: KeyEvent) returns (prevented: bool)
      modifies this`mode, this`commandBuffer, this`outbox
      ensures Abstract() == CmdKey(old(Abstract()), e)
      ensures prevented == LineKeyPrevented(e)
    {
      var key := if e.ctrl then "C-" + e.key else e.key;
      prevented := false;
      if key == "Enter" {
        outbox := outbox + ["command:" + commandBuffer];
        commandBuffer := "";
        mode := Normal;
        outbox := outbox + ["normal-mode"];
        prevented := true;
      } else if key == "Backspace" {
        if |commandBuffer| > 0 {
          commandBuffer := commandBuffer[..|commandBuffer| - 1];
        }
        prevented := true;
      } else if |key| == 1 && !e.ctrl && !e.meta {
        commandBuffer := commandBuffer + key;
        prevented := true;
      }
    }

    /** The Search-mode branch of the listener. */
    method SearchLineKey(e: KeyEvent) returns (prevented: bool)
      modifies this`mode, this`searchBuffer, this`outbox
      ensures Abstract() == SearchKey(old(Abstract()), e)
      ensures prevented == LineKeyPrevented(e)
    {
      var key := if e.ctrl then "C-" + e.key else e.key;
      prevented := false;
      if key == "Enter" {
        mode := Normal;
        outbox := outbox + ["search:" + searchBuffer];
        outbox := outbox + ["normal-mode"];
        prevented := true;
      } else if key == "Backspace" {
        if |searchBuffer| > 0 {
          searchBuffer := searchBuffer[..|searchBuffer| - 1];
        }
        prevented := true;
      } else if |key| == 1 && !e.ctrl && !e.meta {
        searchBuffer := searchBuffer + key;
        prevented := true;
      }
    }

    /** The trie branch of the listener, for a mode that has a trie. */
    method TrieModeKey(key: string) returns (prevented: bool)
      requires Valid() && mode in tries
      modifies this`mode, this`commandBuffer, this`searchBuffer, this`outbox, this`views, repr
      ensures Valid()
      ensures Abstract() == TrieKey(old(Abstract()), key)
      ensures prevented == Step(old(views)[old(mode)].nodes, old(views)[old(mode)].current, key).1.Resolved?
    {
      ghost var s0 := Abstract();
      ghost var t := s0.tries[s0.mode];
      ghost var step := Step(t.nodes, t.current, key);
      ghost var s1 := WithCursor(s0, step.0);
      var outcome := ProcessKey(key);
      assert Abstract() == s1;
      match outcome {
        case Resolved(cmd) =>
          assert TrieKey(s0, key) == Dispatch(s1.(outbox := s1.outbox + [cmd]), cmd);
          PostAndResolve(cmd);
          prevented := true;
        case Invalid =>
          assert TrieKey(s0, key) == s1;
          ResetTrie(mode);
          prevented := false;
        case Pending =>
          assert TrieKey(s0, key) == s1;
          prevented := false;
      }
    }

    /** `sendAction(cmd)` for a resolved command, then its dispatch. */
    method PostAndResolve(cmd: string)
      requires Valid()
      modifies this`mode, this`commandBuffer, this`searchBuffer, this`outbox, this`views, repr
      ensures Valid()
      ensures Abstract() == Dispatch(old(Abstract()).(outbox := old(outbox) + [cmd]), cmd)
    {
      outbox := outbox + [cmd];
      Resolve(cmd);
    }

    /** The dispatch of a resolved command. */
    method Resolve(cmd: string)
      requires Valid()
      modifies this`mode, this`commandBuffer, this`searchBuffer, this`views, repr
      ensures Valid()
      ensures Abstract() == Dispatch(old(Abstract()), cmd)
    {
      var target := ModeCommandTarget(cmd);
      if target.Some? {
        if cmd == "cmd-mode" {
          commandBuffer := "";
        }
        if cmd == "search-mode" {
          searchBuffer := "";
        }
        mode := target.value;
        ResetTrie(mode);
      }
    }
  }
}
