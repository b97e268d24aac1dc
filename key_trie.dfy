/**
  The `KeyTrie` class of the script emitted by src/key.rs:173-213. A node is
  identified by its path (the keys from the root), so the child map of the
  node at `p` is the set of paths `p + [k]` present; a node's command is
  `null` until `insert` sets it. The cursor `currentNode` is the path of the
  node it points to.
 */
module KeyTries {
  import opened Wrappers
  import opened KeySequences

  /** `processKey` returns `null` (invalid), `undefined` (pending) or a command. */
  datatype Outcome = Invalid | Pending | Resolved(command: string)

  /** Every node, by path, with its command (`None` for `null`). */
  type Nodes = map<KeySequence, Option<string>>

  /** JavaScript truthiness of `node.command`: set and not the empty string. */
  predicate Truthy(c: Option<string>)
  {
    c.Some? && c.value != ""
  }

  /** The nodes form a tree: the root exists and so does every node on the path to a node. */
  ghost predicate WellFormed(nodes: Nodes)
  {
    [] in nodes && forall p :: p in nodes ==> Prefixes(p) <= nodes.Keys
  }

  /** The paths from the root to the node of `s`, both ends included. */
  function Prefixes(s: KeySequence): set<KeySequence>
  {
    set k | 0 <= k <= |s| :: s[..k]
  }

  lemma PrefixesOfRoot()
    ensures Prefixes([]) == {[]}
  {
    var e: KeySequence := [];
    assert e[..0] in Prefixes(e);
  }

  lemma PrefixesOfExtension(s: KeySequence, key: string)
    ensures Prefixes(s + [key]) == Prefixes(s) + {s + [key]}
  {
    var t := s + [key];
    forall q | q in Prefixes(t) ensures q in Prefixes(s) + {t} {
      var k :| 0 <= k <= |t| && q == t[..k];
      if k < |t| {
        assert q == s[..k];
      } else {
        assert q == t;
      }
    }
    forall q | q in Prefixes(s) ensures q in Prefixes(t) {
      var k :| 0 <= k <= |s| && q == s[..k];
      assert q == t[..k];
    }
    assert t == t[..|t|];
  }

  /** `insert(sequence, command)`: creates the missing nodes along `sequence`
      with no command and sets the command of its last node, overwriting. */
  function Inserted(nodes: Nodes, s: KeySequence, command: string): (r: Nodes)
    ensures r.Keys == nodes.Keys + Prefixes(s)
    ensures s in r && r[s] == Some(command)
    ensures forall p :: p in nodes && p != s ==> r[p] == nodes[p]
    ensures forall p :: p in r && p !in nodes && p != s ==> r[p] == None
  {
    assert s == s[..|s|];
    map p | p in nodes.Keys + Prefixes(s) :: if p == s then Some(command) else if p in nodes then nodes[p] else None
  }

  /** The nodes after the walk of `insert`, before the command is set. */
  function Extended(nodes: Nodes, s: KeySequence): Nodes
  {
    map p | p in nodes.Keys + Prefixes(s) :: if p in nodes then nodes[p] else None
  }

  lemma ExtendedByOne(nodes: Nodes, s: KeySequence, key: string)
    requires [] in nodes
    ensures var e := Extended(nodes, s);
      Extended(nodes, s + [key]) == if s + [key] in e then e else e[s + [key] := None]
  {
    PrefixesOfExtension(s, key);
  }

  lemma InsertedIsExtendedThenSet(nodes: Nodes, s: KeySequence, command: string)
    ensures Inserted(nodes, s, command) == Extended(nodes, s)[s := Some(command)]
  {
    assert s == s[..|s|];
  }

  /** A prefix of a prefix of `s` is a prefix of `s`. */
  lemma PrefixesOfPrefix(s: KeySequence, k: int)
    requires 0 <= k <= |s|
    ensures Prefixes(s[..k]) <= Prefixes(s)
  {
    forall q | q in Prefixes(s[..k]) ensures q in Prefixes(s) {
      var j :| 0 <= j <= k && q == s[..k][..j];
      assert q == s[..j];
    }
  }

  lemma InsertedWellFormed(nodes: Nodes, s: KeySequence, command: string)
    requires WellFormed(nodes)
    ensures WellFormed(Inserted(nodes, s, command))
  {
    var r := Inserted(nodes, s, command);
    forall p | p in r ensures Prefixes(p) <= r.Keys {
      if p !in nodes {
        var k :| 0 <= k <= |s| && p == s[..k];
        PrefixesOfPrefix(s, k);
      }
    }
  }

  /** `processKey(key)` from cursor `current`: no child resets to the root and is
      invalid; a child with a truthy command resets to the root and resolves;
      any other child becomes the cursor and the result is pending. */
  function Step(nodes: Nodes, current: KeySequence, key: string): (r: (KeySequence, Outcome))
    ensures r.1 == Invalid <==> current + [key] !in nodes
    ensures r.1 == Pending ==> r.0 == current + [key] && !Truthy(nodes[r.0])
    ensures r.1.Resolved? ==> current + [key] in nodes && nodes[current + [key]] == Some(r.1.command) && r.1.command != ""
    ensures r.1 != Pending ==> r.0 == []
  {
    var next := current + [key];
    if next !in nodes then ([], Invalid)
    else if Truthy(nodes[next]) then ([], Resolved(nodes[next].value))
    else (next, Pending)
  }

  class KeyTrie {
    var nodes: Nodes
    var current: KeySequence

    /** The root and the cursor are nodes (`WellFormed` is kept by `Inserted`, see `InsertedWellFormed`). */
    ghost predicate Valid()
      reads this
    {
      [] in nodes && current in nodes
    }

    /** A root with no command and no children; the cursor at the root. */
    constructor ()
      ensures Valid()
      ensures nodes == map[[] := None] && current == []
    {
      nodes := map[[] := None];
      current := [];
    }

    /** `insert`: walks from the root, creating each missing child, then sets the command. */
    method Insert(sequence: KeySequence, command: string)
      requires Valid()
      modifies this
      ensures Valid()
      ensures nodes == Inserted(old(nodes), sequence, command)
      ensures current == old(current)
    {
      ghost var start := nodes;
      var node: KeySequence := [];
      var i := 0;
      PrefixesOfRoot();
      assert nodes == Extended(start, []);
      while i < |sequence|
        invariant 0 <= i <= |sequence|
        invariant node == sequence[..i]
        invariant nodes == Extended(start, node)
        invariant current == old(current)
      {
        var child := node + [sequence[i]];
        ExtendedByOne(start, node, sequence[i]);
        if child !in nodes {
          nodes := nodes[child := None];
        }
        node := child;
        i := i + 1;
        assert node == sequence[..i];
      }
      assert node == sequence;
      InsertedIsExtendedThenSet(start, sequence, command);
      nodes := nodes[node := Some(command)];
    }

    /** `processKey`. */
    method ProcessKey(key: string) returns (r: Outcome)
      requires Valid()
      modifies this
      ensures Valid()
      ensures nodes == old(nodes)
      ensures (current, r) == Step(old(nodes), old(current), key)
    {
      var next := current + [key];
      if next !in nodes {
        current := [];
        return Invalid;
      }
      current := next;
      if Truthy(nodes[next]) {
        var cmd := nodes[next].value;
        current := [];
        return Resolved(cmd);
      }
      return Pending;
    }

    /** `reset`. */
    method Reset()
      requires Valid()
      modifies this
      ensures Valid()
      ensures nodes == old(nodes) && current == []
    {
      current := [];
    }
  }
}
