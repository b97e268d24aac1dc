/**
  Key sequences of the binding table (src/key.rs:40-54): a list of key
  names, parsed from a string one character per key, compared by the strict
  prefix relation that the configuration check uses.
 */
module KeySequences {

  /** `KeySequence(pub Vec<String>)`: one string per key. */
  type KeySequence = seq<string>

  /** `from_str`: every character of `s` becomes a one-character key. */
  function FromStr(s: string): (r: KeySequence)
    ensures |r| == |s|
    ensures forall i :: 0 <= i < |s| ==> r[i] == [s[i]]
  {
    if s == [] then [] else [[s[0]]] + FromStr(s[1..])
  }

  /** `is_prefix_of`: false unless `a` is strictly shorter, then element-wise agreement. */
  predicate IsPrefixOf(a: KeySequence, b: KeySequence)
  {
    if |a| >= |b| then false else forall i :: 0 <= i < |a| ==> a[i] == b[i]
  }

  /** The test `new` applies to a new sequence against every bound one. */
  predicate Conflicts(a: KeySequence, b: KeySequence)
  {
    IsPrefixOf(a, b) || IsPrefixOf(b, a)
  }

  /** `seq.0.join("")`, as `get_help_map` renders a sequence. */
  function Join(k: KeySequence): string
  {
    if k == [] then "" else k[0] + Join(k[1..])
  }

  /** The strict prefix test is exactly "shorter and an initial segment". */
  lemma IsPrefixOfMeaning(a: KeySequence, b: KeySequence)
    ensures IsPrefixOf(a, b) <==> |a| < |b| && b[..|a|] == a
  {
    if |a| < |b| && (forall i :: 0 <= i < |a| ==> a[i] == b[i]) {
      assert b[..|a|] == a;
    }
  }

  /** Strictness: no sequence is a prefix of itself, the relation is asymmetric
      and the empty sequence is a prefix of exactly the non-empty ones. */
  lemma IsPrefixOfStrict(a: KeySequence, b: KeySequence)
    ensures !IsPrefixOf(a, a)
    ensures IsPrefixOf(a, b) ==> !IsPrefixOf(b, a)
    ensures IsPrefixOf([], b) <==> b != []
  {
  }

  /** Equal sequences never conflict: the check is strict-prefix only. */
  lemma EqualSequencesDoNotConflict(a: KeySequence)
    ensures !Conflicts(a, a)
  {
  }

  /** Joining the keys of a parsed string gives the string back. */
  lemma {:induction false} JoinFromStr(s: string)
    ensures Join(FromStr(s)) == s
  {
    if s != [] {
      JoinFromStr(s[1..]);
      assert FromStr(s)[1..] == FromStr(s[1..]);
    }
  }

  /** Hence parsing is injective: distinct strings give distinct sequences. */
  lemma FromStrInjective(s: string, t: string)
    ensures FromStr(s) == FromStr(t) ==> s == t
  {
    JoinFromStr(s);
    JoinFromStr(t);
  }

  /** "C-d" is three keys, not one "C-d" key. */
  lemma FromStrExamples()
    ensures FromStr("gt") == ["g", "t"]
    ensures FromStr("C-d") == ["C", "-", "d"]
  {
  }
}
