/** Facts about sequences and maps shared by the other modules. */
module Sequences {

  /** Concatenation is associative. */
  lemma AppendAssoc<T>(a: seq<T>, b: seq<T>, c: seq<T>)
    ensures (a + b) + c == a + (b + c)
  {
  }

  /** Updating one key and then merging is merging the update first. */
  lemma UpdateThenMerge<K, V>(m: map<K, V>, k: K, v: V, o: map<K, V>)
    ensures m[k := v] + o == m + (map[k := v] + o)
  {
    var lhs, rhs := m[k := v] + o, m + (map[k := v] + o);
    assert lhs.Keys == rhs.Keys;
    forall x | x in lhs ensures lhs[x] == rhs[x] {
    }
  }
}
