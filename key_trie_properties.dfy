/**
  What the emitted script's tries do with the binding table: the per-mode
  emission of src/key.rs:217-236 inserts every (sequence, command) pair of a
  mode's map in iteration order, and a bound sequence typed key by key is
  then pending on each strict prefix and resolves on its last key.
 */
module KeyTrieProperties {
  import opened Wrappers
  import opened KeyModes
  import opened KeySequences
  import opened Keybindings
  import opened KeyTries
  import KeybindingProperties

  /** One `trie.insert(sequence, command)` of the emitted script. */
  datatype Entry = Entry(sequence: KeySequence, command: string)

  /** The nodes of a fresh trie after inserting `entries` in order. */
  function Build(entries: seq<Entry>): Nodes
    decreases |entries|
  {
    if entries == [] then map[[] := None]
    else
      var last := entries[|entries| - 1];
      Inserted(Build(entries[..|entries| - 1]), last.sequence, last.command)
  }

  /** The command of the last entry inserted at path `p`, if any. */
  function LastCommand(entries: seq<Entry>, p: KeySequence): (r: Option<string>)
    ensures r.None? <==> forall i :: 0 <= i < |entries| ==> entries[i].sequence != p
    ensures r.Some? ==> exists i :: 0 <= i < |entries| && entries[i] == Entry(p, r.value)
    decreases |entries|
  {
    if entries == [] then None
    else if entries[|entries| - 1].sequence == p then Some(entries[|entries| - 1].command)
    else
      var r := LastCommand(entries[..|entries| - 1], p);
      assert forall i :: 0 <= i < |entries| - 1 ==> entries[..|entries| - 1][i] == entries[i];
      r
  }

  /** `p` is the root or lies on the path of some inserted sequence. */
  ghost predicate Covered(entries: seq<Entry>, p: KeySequence)
  {
    p == [] || exists i :: 0 <= i < |entries| && p in Prefixes(entries[i].sequence)
  }

  lemma {:induction false} BuildNodes(entries: seq<Entry>, p: KeySequence)
    ensures p in Build(entries) <==> Covered(entries, p)
    decreases |entries|
  {
    if entries != [] {
      var init := entries[..|entries| - 1];
      var last := entries[|entries| - 1];
      BuildNodes(init, p);
      if Covered(entries, p) && p != [] && p !in Prefixes(last.sequence) {
        var i :| 0 <= i < |entries| && p in Prefixes(entries[i].sequence);
        assert init[i] == entries[i];
      }
      if Covered(init, p) && p != [] {
        var i :| 0 <= i < |init| && p in Prefixes(init[i].sequence);
        assert init[i] == entries[i];
      }
    }
  }

  /** The path of every inserted sequence is a node. */
  lemma EntryIsNode(entries: seq<Entry>, i: int, j: int)
    requires 0 <= i < |entries| && 0 <= j <= |entries[i].sequence|
    ensures entries[i].sequence[..j] in Build(entries)
  {
    BuildNodes(entries, entries[i].sequence[..j]);
  }

  /** Each node's command is that of the last insert at its path, or `null`. */
  lemma {:induction false} BuildCommand(entries: seq<Entry>, p: KeySequence)
    requires p in Build(entries)
    ensures Build(entries)[p] == LastCommand(entries, p)
    decreases |entries|
  {
    if entries != [] {
      var init := entries[..|entries| - 1];
      var last := entries[|entries| - 1];
      if p != last.sequence && p in Build(init) {
        BuildCommand(init, p);
      } else if p != last.sequence {
        forall i | 0 <= i < |init| ensures init[i].sequence in Build(init) {
          EntryIsNode(init, i, |init[i].sequence|);
          assert init[i].sequence[..|init[i].sequence|] == init[i].sequence;
        }
      }
    }
  }

  lemma {:induction false} BuildWellFormed(entries: seq<Entry>)
    ensures WellFormed(Build(entries))
    decreases |entries|
  {
    if entries != [] {
      BuildWellFormed(entries[..|entries| - 1]);
      var last := entries[|entries| - 1];
      InsertedWellFormed(Build(entries[..|entries| - 1]), last.sequence, last.command);
    }
  }

  /** Inserting the same sequence twice leaves the second command, as if the first insert had not happened. */
  lemma InsertOverwrites(nodes: Nodes, s: KeySequence, first: string, second: string)
    ensures Inserted(Inserted(nodes, s, first), s, second) == Inserted(nodes, s, second)
  {
    var a, b := Inserted(Inserted(nodes, s, first), s, second), Inserted(nodes, s, second);
    assert a.Keys == b.Keys;
    forall p | p in a ensures a[p] == b[p] { }
  }

  /** `processKey` called on each of `keys` in turn: the final cursor and the outcomes. */
  function Feed(nodes: Nodes, current: KeySequence, keys: seq<string>): (r: (KeySequence, seq<Outcome>))
    ensures |r.1| == |keys|
    decreases |keys|
  {
    if keys == [] then (current, [])
    else
      var before := Feed(nodes, current, keys[..|keys| - 1]);
      var after := Step(nodes, before.0, keys[|keys| - 1]);
      (after.0, before.1 + [after.1])
  }

  function Pendings(n: nat): (r: seq<Outcome>)
    ensures |r| == n && forall i :: 0 <= i < n ==> r[i] == Pending
  {
    seq(n, _ => Pending)
  }

  /** The pairs the emitted script inserts for one mode, in the map's iteration order. */
  function Emit(m: ModeTable, order: seq<string>): (r: seq<Entry>)
    requires forall i :: 0 <= i < |order| ==> order[i] in m
    ensures |r| == |order|
    ensures forall i :: 0 <= i < |order| ==> r[i] == Entry(m[order[i]], order[i])
  {
    seq(|order|, i requires 0 <= i < |order| => Entry(m[order[i]], order[i]))
  }

  /** `order` is an iteration order of `m`: each command exactly once. */
  predicate Enumerates(order: seq<string>, m: ModeTable)
  {
    (forall i :: 0 <= i < |order| ==> order[i] in m) &&
    (forall c :: c in m ==> c in order) &&
    (forall i, j :: 0 <= i < j < |order| ==> order[i] != order[j])
  }

  /** Typing the keys of `s` from the root stays pending up to every strict
      prefix when those are nodes without a truthy command. */
  lemma {:induction false} FeedAlongPath(nodes: Nodes, s: KeySequence, k: nat)
    requires k < |s|
    requires forall j :: 1 <= j <= k ==> s[..j] in nodes && !Truthy(nodes[s[..j]])
    ensures Feed(nodes, [], s[..k]) == (s[..k], Pendings(k))
  {
    if k > 0 {
      FeedAlongPath(nodes, s, k - 1);
      assert s[..k][..k - 1] == s[..k - 1];
      assert s[..k - 1] + [s[k - 1]] == s[..k];
      assert Pendings(k - 1) + [Pending] == Pendings(k);
    }
  }

  /** Typing `s` from the root along node paths until the first key whose path
      is not a node: pending on every key before it, then invalid with the
      cursor back at the root. */
  lemma FeedDivergentIsInvalid(nodes: Nodes, s: KeySequence, k: nat)
    requires k < |s|
    requires forall j :: 1 <= j <= k ==> s[..j] in nodes && !Truthy(nodes[s[..j]])
    requires s[..k + 1] !in nodes
    ensures Feed(nodes, [], s[..k + 1]) == ([], Pendings(k) + [Invalid])
  {
    FeedAlongPath(nodes, s, k);
    assert s[..k + 1][..k] == s[..k];
    assert s[..k] + [s[k]] == s[..k + 1];
  }

  /** No inserted sequence is a strict prefix of a sequence bound in a prefix-free table. */
  lemma NothingBoundOnTheWay(m: ModeTable, order: seq<string>, c: string, j: int)
    requires PrefixFree(m) && Enumerates(order, m)
    requires c in m && 0 <= j < |m[c]|
    ensures LastCommand(Emit(m, order), m[c][..j]) == None
  {
    var entries := Emit(m, order);
    assert IsPrefixOf(m[c][..j], m[c]);
    forall k | 0 <= k < |entries| ensures entries[k].sequence != m[c][..j] {
      assert !IsPrefixOf(m[order[k]], m[c]);
    }
  }

  /** The last key of a path whose node has a truthy command resolves it. */
  lemma FeedLastKey(nodes: Nodes, s: KeySequence)
    requires s != [] && s in nodes && Truthy(nodes[s])
    requires Feed(nodes, [], s[..|s| - 1]) == (s[..|s| - 1], Pendings(|s| - 1))
    ensures Feed(nodes, [], s) == ([], Pendings(|s| - 1) + [Resolved(nodes[s].value)])
  {
    assert s[..|s| - 1] + [s[|s| - 1]] == s;
  }

  /** A sequence bound in a prefix-free mode table, typed key by key into the
      trie emitted for that mode, is pending on every key but the last and
      then resolves to a command bound to that same sequence, leaving the
      cursor at the root. */
  lemma BoundSequenceResolves(m: ModeTable, order: seq<string>, c: string)
    requires PrefixFree(m) && Enumerates(order, m)
    requires forall d :: d in m ==> d != ""
    requires c in m && m[c] != []
    ensures var entries := Emit(m, order);
      var r := LastCommand(entries, m[c]);
      r.Some? && r.value in m && m[r.value] == m[c] &&
      Feed(Build(entries), [], m[c]) == ([], Pendings(|m[c]| - 1) + [Resolved(r.value)])
  {
    var entries := Emit(m, order);
    var s := m[c];
    LastCommandOfBound(m, order, c);
    PendingAlongBound(m, order, c);
    BoundIsNode(m, order, c);
    FeedLastKey(Build(entries), s);
  }

  /** The last insert of a bound sequence is a command bound to that sequence. */
  lemma LastCommandOfBound(m: ModeTable, order: seq<string>, c: string)
    requires Enumerates(order, m) && c in m
    ensures var r := LastCommand(Emit(m, order), m[c]);
      r.Some? && r.value in m && m[r.value] == m[c]
  {
    var entries := Emit(m, order);
    var i :| 0 <= i < |order| && order[i] == c;
    assert entries[i] == Entry(m[c], c);
    var r := LastCommand(entries, m[c]);
    var k :| 0 <= k < |entries| && entries[k] == Entry(m[c], r.value);
    assert entries[k] == Entry(m[order[k]], order[k]);
  }

  /** Every key of a bound sequence but the last leaves the trie pending. */
  lemma PendingAlongBound(m: ModeTable, order: seq<string>, c: string)
    requires PrefixFree(m) && Enumerates(order, m)
    requires c in m && m[c] != []
    ensures var s := m[c];
      Feed(Build(Emit(m, order)), [], s[..|s| - 1]) == (s[..|s| - 1], Pendings(|s| - 1))
  {
    var entries := Emit(m, order);
    var nodes := Build(entries);
    var s := m[c];
    var i :| 0 <= i < |order| && order[i] == c;
    assert entries[i].sequence == s;
    forall j | 1 <= j <= |s| - 1 ensures s[..j] in nodes && !Truthy(nodes[s[..j]]) {
      EntryIsNode(entries, i, j);
      BuildCommand(entries, s[..j]);
      NothingBoundOnTheWay(m, order, c, j);
    }
    FeedAlongPath(nodes, s, |s| - 1);
  }

  /** A bound sequence is a node of the trie, holding a non-empty command. */
  lemma BoundIsNode(m: ModeTable, order: seq<string>, c: string)
    requires Enumerates(order, m) && c in m
    requires forall d :: d in m ==> d != ""
    ensures m[c] in Build(Emit(m, order))
    ensures Build(Emit(m, order))[m[c]] == LastCommand(Emit(m, order), m[c])
    ensures Truthy(Build(Emit(m, order))[m[c]])
  {
    var entries := Emit(m, order);
    var s := m[c];
    var i :| 0 <= i < |order| && order[i] == c;
    assert entries[i].sequence == s;
    EntryIsNode(entries, i, |s|);
    assert s[..|s|] == s;
    BuildCommand(entries, s);
    LastCommandOfBound(m, order, c);
  }

  /** When no other command shares the sequence, it resolves to its own command. */
  lemma BoundSequenceResolvesToItself(m: ModeTable, order: seq<string>, c: string)
    requires PrefixFree(m) && Enumerates(order, m)
    requires forall d :: d in m ==> d != ""
    requires c in m && m[c] != []
    requires forall d :: d in m && m[d] == m[c] ==> d == c
    ensures Feed(Build(Emit(m, order)), [], m[c]) == ([], Pendings(|m[c]| - 1) + [Resolved(c)])
  {
    BoundSequenceResolves(m, order, c);
  }

  /** Every key of every bound sequence is one character, as `from_str` makes them. */
  ghost predicate SingleCharacterKeys(m: ModeTable)
  {
    forall c, i :: c in m && 0 <= i < |m[c]| ==> |m[c][i]| == 1
  }

  lemma {:induction false} InsertAllKeepsSingleCharacterKeys(m: ModeTable, bs: seq<Binding>)
    requires SingleCharacterKeys(m)
    requires InsertAll(m, bs).Ok?
    ensures SingleCharacterKeys(InsertAll(m, bs).value)
    decreases |bs|
  {
    if bs != [] {
      InsertAllKeepsSingleCharacterKeys(m[bs[0].command := FromStr(bs[0].sequence)], bs[1..]);
    }
  }

  lemma {:induction false} OverlayKeepsSingleCharacterKeys(t: Table, cfg: Config, parseMode: string -> Option<KeyMode>)
    requires forall mode :: mode in t ==> SingleCharacterKeys(t[mode])
    requires Overlay(t, cfg, parseMode).Ok?
    ensures forall mode :: mode in Overlay(t, cfg, parseMode).value ==> SingleCharacterKeys(Overlay(t, cfg, parseMode).value[mode])
    decreases |cfg|
  {
    if cfg != [] {
      var mode := parseMode(cfg[0].mode).value;
      var base: ModeTable := if mode in t then t[mode] else map[];
      InsertAllKeepsSingleCharacterKeys(base, cfg[0].bindings);
      OverlayKeepsSingleCharacterKeys(t[mode := InsertAll(base, cfg[0].bindings).value], cfg[1..], parseMode);
    }
  }

  /** Every table `new` can return binds only one-character keys. */
  lemma ConfiguredKeysAreSingleCharacters(config: Option<Config>, parseMode: string -> Option<KeyMode>)
    requires Configure(config, parseMode).Ok?
    ensures forall mode :: mode in Configure(config, parseMode).value ==> SingleCharacterKeys(Configure(config, parseMode).value[mode])
  {
    assert SingleCharacterKeys(DefaultNormal());
    if config.Some? {
      OverlayKeepsSingleCharacterKeys(WithDefaults(), config.value, parseMode);
    }
  }

  lemma {:induction false} BuildPathsUseBoundKeys(entries: seq<Entry>, p: KeySequence, j: int)
    requires forall i, k :: 0 <= i < |entries| && 0 <= k < |entries[i].sequence| ==> |entries[i].sequence[k]| == 1
    requires p in Build(entries) && 0 <= j < |p|
    ensures |p[j]| == 1
  {
    BuildNodes(entries, p);
    var i :| 0 <= i < |entries| && p in Prefixes(entries[i].sequence);
    var n :| 0 <= n <= |entries[i].sequence| && p == entries[i].sequence[..n];
    assert p[j] == entries[i].sequence[j];
  }

  /** The key handler turns a ctrl key into the one key "C-" + key, but the
      table binds "C-d" as the three keys "C", "-", "d": in a trie built from
      such sequences the chord has no child anywhere, so it is invalid and
      resets the cursor. */
  lemma CtrlChordIsInvalid(m: ModeTable, order: seq<string>, current: KeySequence, key: string)
    requires SingleCharacterKeys(m) && Enumerates(order, m)
    requires current in Build(Emit(m, order))
    ensures Step(Build(Emit(m, order)), current, "C-" + key) == ([], Invalid)
  {
    var entries := Emit(m, order);
    var next := current + ["C-" + key];
    if next in Build(entries) {
      BuildPathsUseBoundKeys(entries, next, |current|);
    }
  }

  lemma DefaultHalfPageOwner()
    ensures DefaultNormal()["scroll-half-down"] == ["C", "-", "d"]
    ensures forall d :: d in DefaultNormal() ==> d != ""
    ensures forall d :: d in DefaultNormal() && DefaultNormal()[d] == ["C", "-", "d"] ==> d == "scroll-half-down"
  {
    var m := DefaultNormal();
    forall d | d in m ensures d != "" && (m[d] == ["C", "-", "d"] ==> d == "scroll-half-down") {
    }
  }

  /** With the default table, "C-d" is three keys: "C" then "-" then "d" scrolls half down. */
  lemma DefaultHalfPageIsThreeKeys(order: seq<string>)
    requires Enumerates(order, DefaultNormal())
    ensures Feed(Build(Emit(DefaultNormal(), order)), [], ["C", "-", "d"]) == ([], [Pending, Pending, Resolved("scroll-half-down")])
  {
    KeybindingProperties.DefaultsPrefixFree();
    assert PrefixFree(WithDefaults()[Normal]);
    DefaultHalfPageOwner();
    BoundSequenceResolvesToItself(DefaultNormal(), order, "scroll-half-down");
    assert Pendings(2) + [Resolved("scroll-half-down")] == [Pending, Pending, Resolved("scroll-half-down")];
  }

  /** A non-empty path that starts no inserted sequence is not a node. */
  lemma NotANode(entries: seq<Entry>, s: KeySequence)
    requires s != []
    requires forall j :: 0 <= j < |entries| ==> |entries[j].sequence| < |s| || entries[j].sequence[..|s|] != s
    ensures s !in Build(entries)
  {
    BuildNodes(entries, s);
    forall j | 0 <= j < |entries| ensures s !in Prefixes(entries[j].sequence) {
      if s in Prefixes(entries[j].sequence) {
        assert false;
      }
    }
  }

  /** In the default trie `g` is a node without a command. */
  lemma DefaultGIsPending(order: seq<string>)
    requires Enumerates(order, DefaultNormal())
    ensures var nodes := Build(Emit(DefaultNormal(), order));
      ["g"] in nodes && !Truthy(nodes[["g"]])
  {
    var m := DefaultNormal();
    var entries := Emit(m, order);
    KeybindingProperties.DefaultsPrefixFree();
    assert PrefixFree(WithDefaults()[Normal]);
    assert "scroll-top" in m;
    var i :| 0 <= i < |order| && order[i] == "scroll-top";
    assert entries[i].sequence[..1] == ["g"];
    EntryIsNode(entries, i, 1);
    NothingBoundOnTheWay(m, order, "scroll-top", 1);
    assert m["scroll-top"][..1] == ["g"];
    BuildCommand(entries, ["g"]);
  }

  /** No default sequence starts with `g`, `x`. */
  lemma DefaultGXIsNoNode(order: seq<string>)
    requires Enumerates(order, DefaultNormal())
    ensures ["g", "x"] !in Build(Emit(DefaultNormal(), order))
  {
    var m := DefaultNormal();
    var entries := Emit(m, order);
    var s: KeySequence := ["g", "x"];
    forall d | d in m ensures |m[d]| < 2 || m[d][1] != "x" {
    }
    forall j | 0 <= j < |entries| ensures |entries[j].sequence| < |s| || entries[j].sequence[..|s|] != s {
      assert entries[j].sequence == m[order[j]];
      if |entries[j].sequence| >= 2 {
        assert entries[j].sequence[..2][1] == entries[j].sequence[1];
      }
    }
    NotANode(entries, s);
  }

  /** By default `g` starts `gt`, `gb` and `go`, but nothing is bound to `gx`:
      g is pending, then x is invalid and the cursor returns to the root. */
  lemma DefaultGThenXIsInvalid(order: seq<string>)
    requires Enumerates(order, DefaultNormal())
    ensures Feed(Build(Emit(DefaultNormal(), order)), [], ["g", "x"]) == ([], [Pending, Invalid])
  {
    var nodes := Build(Emit(DefaultNormal(), order));
    var s: KeySequence := ["g", "x"];
    DefaultGIsPending(order);
    DefaultGXIsNoNode(order);
    assert s[..1] == ["g"] && s[..2] == s;
    FeedDivergentIsInvalid(nodes, s, 1);
    assert Pendings(1) + [Invalid] == [Pending, Invalid];
  }
}
