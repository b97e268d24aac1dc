/*
  In-page search: the needle is escaped into a literal regular expression,
  every text node is split into the text between matches and the matches
  themselves (each match becomes a highlight mark), and `searchNext` /
  `searchPrev` cycle an index through the marks.

  The document is a parameter: the text nodes the tree walker accepts, in
  document order.  The marks are identified by their text; document order of
  the marks is text-node order, then order within a node.  Case-insensitive
  matching is ASCII-only.
*/
module Search {
  import Sequences

  // ---------------------------------------------------------------------
  // escapeRegExp

  /** The characters `escapeRegExp` puts a backslash before. */
  predicate IsSpecial(c: char) {
    c in {'.', '*', '+', '?', '^', '$', '{', '}', '(', ')', '|', '[', ']', '\\'}
  }

  /** `escapeRegExp`: every special character gets a backslash before it, every
      other character is kept. */
  function EscapeRegExp(s: string): (r: string)
    ensures |r| >= |s|
    ensures s == [] ==> r == []
  {
    if s == [] then []
    else (if IsSpecial(s[0]) then ['\\', s[0]] else [s[0]]) + EscapeRegExp(s[1..])
  }

  /** A pattern built only of single literal atoms: plain characters that are
      not special, and escaped special characters. */
  predicate IsLiteralPattern(p: string)
    decreases |p|
  {
    if p == [] then true
    else if p[0] == '\\' then |p| >= 2 && IsSpecial(p[1]) && IsLiteralPattern(p[2..])
    else !IsSpecial(p[0]) && IsLiteralPattern(p[1..])
  }

  /** The text a literal pattern matches: each escaped character stands for itself. */
  function Unescape(p: string): (s: string)
    requires IsLiteralPattern(p)
    ensures |s| <= |p|
    decreases |p|
  {
    if p == [] then []
    else if p[0] == '\\' then [p[1]] + Unescape(p[2..])
    else [p[0]] + Unescape(p[1..])
  }

  /** The escaped needle is a literal pattern, and it stands for the needle itself. */
  lemma {:induction false} EscapeIsLiteral(s: string)
    ensures IsLiteralPattern(EscapeRegExp(s))
    ensures Unescape(EscapeRegExp(s)) == s
  {
    if s != [] {
      EscapeIsLiteral(s[1..]);
      var head := if IsSpecial(s[0]) then ['\\', s[0]] else [s[0]];
      var p := EscapeRegExp(s);
      assert p == head + EscapeRegExp(s[1..]);
      assert p[|head|..] == EscapeRegExp(s[1..]);
    }
  }

  /** Escaping adds exactly one character for each special character. */
  lemma {:induction false} EscapeLength(s: string)
    ensures |EscapeRegExp(s)| == |s| + |SpecialsIn(s)|
  {
    if s != [] {
      EscapeLength(s[1..]);
    }
  }

  function SpecialsIn(s: string): (r: string)
    ensures |r| <= |s|
  {
    if s == [] then []
    else (if IsSpecial(s[0]) then [s[0]] else []) + SpecialsIn(s[1..])
  }

  // ---------------------------------------------------------------------
  // Matching the escaped needle with the `gi` flags.

  function Lower(c: char): char {
    if 'A' <= c <= 'Z' then (c as int + 32) as char else c
  }

  /** Equal up to ASCII letter case, character by character. */
  predicate EqualIgnoringCase(a: string, b: string)
    decreases |a|
  {
    |a| == |b| && (a == [] || (Lower(a[0]) == Lower(b[0]) && EqualIgnoringCase(a[1..], b[1..])))
  }

  /** The literal pattern for `needle` matches `text` at position `p`. */
  predicate MatchesAt(text: string, needle: string, p: nat) {
    p + |needle| <= |text| && EqualIgnoringCase(text[p..p + |needle|], needle)
  }

  predicate NoMatchIn(text: string, needle: string, lo: nat, hi: nat) {
    forall p: nat :: lo <= p < hi ==> !MatchesAt(text, needle, p)
  }

  /** One piece of a split text node: plain text between matches, or a highlight mark. */
  datatype Piece = Gap(text: string) | Highlight(text: string)

  function Concat(pieces: seq<Piece>): string {
    if pieces == [] then [] else pieces[0].text + Concat(pieces[1..])
  }

  /** The marks among the pieces, in order. */
  function Marks(pieces: seq<Piece>): (r: seq<string>)
    ensures |r| <= |pieces|
  {
    if pieces == [] then []
    else (if pieces[0].Highlight? then [pieces[0].text] else []) + Marks(pieces[1..])
  }

  /** Where in `text` the needle matches. */
  function Hits(text: string, needle: string): (r: seq<bool>)
    ensures |r| == |text|
    ensures forall p :: 0 <= p < |text| ==> r[p] == MatchesAt(text, needle, p)
  {
    seq(|text|, p requires 0 <= p < |text| => MatchesAt(text, needle, p))
  }

  /** Every position marked in `hits` is a match. */
  predicate HitsMatch(text: string, needle: string, hits: seq<bool>) {
    forall p :: 0 <= p < |hits| && hits[p] ==> MatchesAt(text, needle, p)
  }

  /** `hits` marks exactly the matches. */
  predicate HitsExact(text: string, needle: string, hits: seq<bool>) {
    forall p :: 0 <= p < |hits| ==> (hits[p] <==> MatchesAt(text, needle, p))
  }

  /** The pieces `text.replace(re, …)` emits when the scan is at `i` and the text
      before `last` has been emitted already: matches, the positions `hits`
      marks, are taken leftmost first and do not overlap; text left between
      them becomes a gap. */
  function SplitFrom(text: string, needle: string, hits: seq<bool>, last: nat, i: nat): seq<Piece>
    requires |needle| > 0 && |hits| == |text| && last <= i <= |text|
    decreases |text| - i
  {
    if i + |needle| > |text| then
      if last < |text| then [Gap(text[last..])] else []
    else if hits[i] then
      GapBefore(text, last, i) + [Highlight(text[i..i + |needle|])]
        + SplitFrom(text, needle, hits, i + |needle|, i + |needle|)
    else SplitFrom(text, needle, hits, last, i + 1)
  }

  lemma SplitFromAtMatch(text: string, needle: string, hits: seq<bool>, last: nat, i: nat)
    requires |needle| > 0 && |hits| == |text| && last <= i && i + |needle| <= |text| && hits[i]
    ensures SplitFrom(text, needle, hits, last, i) ==
      GapBefore(text, last, i) + [Highlight(text[i..i + |needle|])]
        + SplitFrom(text, needle, hits, i + |needle|, i + |needle|)
  {
  }

  lemma SplitFromAtMiss(text: string, needle: string, hits: seq<bool>, last: nat, i: nat)
    requires |needle| > 0 && |hits| == |text| && last <= i && i + |needle| <= |text| && !hits[i]
    ensures SplitFrom(text, needle, hits, last, i) == SplitFrom(text, needle, hits, last, i + 1)
  {
  }

  function Split(text: string, needle: string): seq<Piece>
    requires |needle| > 0
  {
    SplitFrom(text, needle, Hits(text, needle), 0, 0)
  }

  /** Every gap is non-empty, and no two gaps are next to each other. */
  predicate GapsSeparated(pieces: seq<Piece>) {
    (forall k :: 0 <= k < |pieces| && pieces[k].Gap? ==> pieces[k].text != [])
    && (forall k :: 0 <= k < |pieces| - 1 && pieces[k].Gap? ==> pieces[k + 1].Highlight?)
  }

  /** No match of the needle starts inside any gap, `offset` being where the pieces begin. */
  ghost predicate GapsHoldNoMatch(text: string, needle: string, pieces: seq<Piece>, offset: nat)
    decreases |pieces|
  {
    pieces != [] ==>
      (pieces[0].Gap? ==> NoMatchIn(text, needle, offset, offset + |pieces[0].text|))
      && GapsHoldNoMatch(text, needle, pieces[1..], offset + |pieces[0].text|)
  }

  lemma ConcatAppend(a: seq<Piece>, b: seq<Piece>)
    ensures Concat(a + b) == Concat(a) + Concat(b)
  {
    if a != [] {
      assert (a + b)[1..] == a[1..] + b;
      ConcatAppend(a[1..], b);
    } else {
      assert a + b == b;
    }
  }

  lemma MarksAppend(a: seq<Piece>, b: seq<Piece>)
    ensures Marks(a + b) == Marks(a) + Marks(b)
  {
    if a != [] {
      assert (a + b)[1..] == a[1..] + b;
      MarksAppend(a[1..], b);
    } else {
      assert a + b == b;
    }
  }

  /** The pieces put back together are the text. */
  lemma SlicesJoin(s: string, a: nat, b: nat, c: nat)
    requires a <= b <= c <= |s|
    ensures s[a..b] + s[b..c] == s[a..c]
  {
  }

  lemma ConcatSingle(p: Piece)
    ensures Concat([p]) == p.text
  {
    assert [p][1..] == [];
  }

  /** The gap a match closes, if any text was skipped before it. */
  function GapBefore(text: string, last: nat, i: nat): (r: seq<Piece>)
    requires last <= i <= |text|
    ensures |r| <= 1 && (r != [] ==> r[0].Gap? && r[0].text != [])
  {
    if i > last then [Gap(text[last..i])] else []
  }

  /** The gap before a match holds the text skipped since the previous one. */
  lemma GapBeforeConcat(text: string, last: nat, i: nat)
    requires last <= i <= |text|
    ensures Concat(GapBefore(text, last, i)) == text[last..i]
  {
    if i > last {
      ConcatSingle(Gap(text[last..i]));
    }
  }

  /** The match step of `SplitFromConcat`: a gap and a mark cover the text up to the end of the match. */
  lemma ConcatAtMatch(text: string, last: nat, i: nat, j: nat, rest: seq<Piece>)
    requires last <= i <= j <= |text| && Concat(rest) == text[j..]
    ensures Concat(GapBefore(text, last, i) + [Highlight(text[i..j])] + rest) == text[last..]
  {
    var gap := GapBefore(text, last, i);
    var mark := [Highlight(text[i..j])];
    GapBeforeConcat(text, last, i);
    ConcatAppend(gap + mark, rest);
    ConcatAppend(gap, mark);
    ConcatSingle(mark[0]);
    SlicesJoin(text, last, i, j);
    SlicesJoin(text, last, j, |text|);
    assert text[j..|text|] == text[j..] && text[last..|text|] == text[last..];
  }

  /** The pieces put back together are the text. */
  lemma {:induction false} SplitFromConcat(text: string, needle: string, hits: seq<bool>, last: nat, i: nat)
    requires |needle| > 0 && |hits| == |text| && last <= i <= |text|
    ensures Concat(SplitFrom(text, needle, hits, last, i)) == text[last..]
    decreases |text| - i, 1
  {
    if i + |needle| > |text| {
      if last < |text| {
        ConcatSingle(Gap(text[last..]));
      }
    } else if hits[i] {
      SplitFromConcatAtHit(text, needle, hits, last, i);
    } else {
      SplitFromAtMiss(text, needle, hits, last, i);
      SplitFromConcat(text, needle, hits, last, i + 1);
    }
  }

  /** The match case of `SplitFromConcat`. */
  lemma {:induction false} SplitFromConcatAtHit(text: string, needle: string, hits: seq<bool>, last: nat, i: nat)
    requires |needle| > 0 && |hits| == |text| && last <= i && i + |needle| <= |text| && hits[i]
    ensures Concat(SplitFrom(text, needle, hits, last, i)) == text[last..]
    decreases |text| - i, 0
  {
    var j := i + |needle|;
    SplitFromAtMatch(text, needle, hits, last, i);
    SplitFromConcat(text, needle, hits, j, j);
    ConcatAtMatch(text, last, i, j, SplitFrom(text, needle, hits, j, j));
  }

  /** The match step of `SplitFromMarksMatch`: the one new mark is the match itself. */
  lemma MarksAtMatch(text: string, needle: string, last: nat, i: nat, j: nat, rest: seq<Piece>)
    requires last <= i <= j <= |text| && EqualIgnoringCase(text[i..j], needle)
    requires forall m :: m in Marks(rest) ==> EqualIgnoringCase(m, needle)
    ensures forall m :: m in Marks(GapBefore(text, last, i) + [Highlight(text[i..j])] + rest) ==> EqualIgnoringCase(m, needle)
  {
    var gap := GapBefore(text, last, i);
    var mark := [Highlight(text[i..j])];
    MarksAppend(gap + mark, rest);
    MarksAppend(gap, mark);
    assert Marks(mark) == [text[i..j]];
    if gap != [] {
      assert gap == [gap[0]];
      assert Marks(gap) == [];
    }
  }

  /** Every mark is a case-insensitive occurrence of the needle. */
  lemma {:induction false} SplitFromMarksMatch(text: string, needle: string, hits: seq<bool>, last: nat, i: nat)
    requires |needle| > 0 && |hits| == |text| && last <= i <= |text|
    requires HitsMatch(text, needle, hits)
    ensures forall m :: m in Marks(SplitFrom(text, needle, hits, last, i)) ==> EqualIgnoringCase(m, needle)
    decreases |text| - i, 1
  {
    if i + |needle| > |text| {
    } else if hits[i] {
      SplitFromMarksMatchAtHit(text, needle, hits, last, i);
    } else {
      SplitFromAtMiss(text, needle, hits, last, i);
      SplitFromMarksMatch(text, needle, hits, last, i + 1);
    }
  }

  /** The match case of `SplitFromMarksMatch`. */
  lemma {:induction false} SplitFromMarksMatchAtHit(text: string, needle: string, hits: seq<bool>, last: nat, i: nat)
    requires |needle| > 0 && |hits| == |text| && last <= i && i + |needle| <= |text| && hits[i]
    requires HitsMatch(text, needle, hits)
    ensures forall m :: m in Marks(SplitFrom(text, needle, hits, last, i)) ==> EqualIgnoringCase(m, needle)
    decreases |text| - i, 0
  {
    var j := i + |needle|;
    SplitFromAtMatch(text, needle, hits, last, i);
    SplitFromMarksMatch(text, needle, hits, j, j);
    assert MatchesAt(text, needle, i);
    MarksAtMatch(text, needle, last, i, j, SplitFrom(text, needle, hits, j, j));
  }

  lemma GapsSeparatedAppend(head: seq<Piece>, tail: seq<Piece>)
    requires GapsSeparated(head) && GapsSeparated(tail)
    requires head != [] && head[|head| - 1].Highlight?
    ensures GapsSeparated(head + tail)
  {
  }

  /** The match step of `SplitFromGapsSeparated`: a gap before a mark is separated. */
  lemma GapsSeparatedAtMatch(text: string, last: nat, i: nat, j: nat, rest: seq<Piece>)
    requires last <= i <= j <= |text| && GapsSeparated(rest)
    ensures GapsSeparated(GapBefore(text, last, i) + [Highlight(text[i..j])] + rest)
  {
    var head := GapBefore(text, last, i) + [Highlight(text[i..j])];
    assert GapsSeparated(head);
    GapsSeparatedAppend(head, rest);
  }

  /** Gaps are never empty and a gap is always followed by a mark. */
  lemma {:induction false} SplitFromGapsSeparated(text: string, needle: string, hits: seq<bool>, last: nat, i: nat)
    requires |needle| > 0 && |hits| == |text| && last <= i <= |text|
    ensures GapsSeparated(SplitFrom(text, needle, hits, last, i))
    decreases |text| - i, 1
  {
    if i + |needle| > |text| {
    } else if hits[i] {
      SplitFromGapsSeparatedAtHit(text, needle, hits, last, i);
    } else {
      SplitFromAtMiss(text, needle, hits, last, i);
      SplitFromGapsSeparated(text, needle, hits, last, i + 1);
    }
  }

  /** The match case of `SplitFromGapsSeparated`. */
  lemma {:induction false} SplitFromGapsSeparatedAtHit(text: string, needle: string, hits: seq<bool>, last: nat, i: nat)
    requires |needle| > 0 && |hits| == |text| && last <= i && i + |needle| <= |text| && hits[i]
    ensures GapsSeparated(SplitFrom(text, needle, hits, last, i))
    decreases |text| - i, 0
  {
    var j := i + |needle|;
    SplitFromAtMatch(text, needle, hits, last, i);
    SplitFromGapsSeparated(text, needle, hits, j, j);
    GapsSeparatedAtMatch(text, last, i, j, SplitFrom(text, needle, hits, j, j));
  }

  lemma GapsHoldNoMatchAppend(text: string, needle: string, a: seq<Piece>, b: seq<Piece>, offset: nat)
    requires GapsHoldNoMatch(text, needle, a, offset)
    requires GapsHoldNoMatch(text, needle, b, offset + |Concat(a)|)
    ensures GapsHoldNoMatch(text, needle, a + b, offset)
    decreases |a|
  {
    if a != [] {
      assert (a + b)[1..] == a[1..] + b;
      GapsHoldNoMatchAppend(text, needle, a[1..], b, offset + |a[0].text|);
    } else {
      assert a + b == b;
    }
  }

  /** The match step of `SplitFromLeftmost`: the gap before the match holds no match. */
  lemma LeftmostAtMatch(text: string, needle: string, last: nat, i: nat, j: nat, rest: seq<Piece>)
    requires last <= i <= j <= |text| && NoMatchIn(text, needle, last, i)
    requires GapsHoldNoMatch(text, needle, rest, j)
    ensures GapsHoldNoMatch(text, needle, GapBefore(text, last, i) + [Highlight(text[i..j])] + rest, last)
  {
    var gap := GapBefore(text, last, i);
    var mark := [Highlight(text[i..j])];
    assert GapsHoldNoMatch(text, needle, [], j);
    assert GapsHoldNoMatch(text, needle, mark, i);
    GapsHoldNoMatchAppend(text, needle, mark, rest, i);
    if gap != [] {
      assert gap == [Gap(text[last..i])];
      assert GapsHoldNoMatch(text, needle, [], i);
      assert GapsHoldNoMatch(text, needle, gap, last);
      GapsHoldNoMatchAppend(text, needle, gap, mark + rest, last);
      assert gap + (mark + rest) == gap + mark + rest;
    } else {
      assert gap + mark + rest == mark + rest;
    }
  }

  /** Near the end no match can start: a gap that runs to the end holds none. */
  lemma NoMatchToEnd(text: string, needle: string, last: nat, i: nat)
    requires |needle| > 0 && last <= i <= |text| && i + |needle| > |text|
    requires NoMatchIn(text, needle, last, i)
    ensures NoMatchIn(text, needle, last, |text|)
  {
    forall p: nat | last <= p < |text|
      ensures !MatchesAt(text, needle, p)
    {
      if p >= i {
        assert p + |needle| > |text|;
      }
    }
  }

  /** A position that is not a match extends a stretch without matches. */
  lemma NoMatchExtend(text: string, needle: string, last: nat, i: nat)
    requires last <= i && NoMatchIn(text, needle, last, i) && !MatchesAt(text, needle, i)
    ensures NoMatchIn(text, needle, last, i + 1)
  {
    forall p: nat | last <= p < i + 1
      ensures !MatchesAt(text, needle, p)
    {
    }
  }

  /** The end step of `SplitFromLeftmost`: the final gap, if any, holds no match. */
  lemma LeftmostAtEnd(text: string, needle: string, last: nat)
    requires last <= |text| && NoMatchIn(text, needle, last, |text|)
    ensures GapsHoldNoMatch(text, needle, if last < |text| then [Gap(text[last..])] else [], last)
  {
    if last < |text| {
      assert GapsHoldNoMatch(text, needle, [], |text|);
    }
  }

  /** Matches are taken leftmost first: no match of the needle starts inside a gap. */
  lemma {:induction false} SplitFromLeftmost(text: string, needle: string, hits: seq<bool>, last: nat, i: nat)
    requires |needle| > 0 && |hits| == |text| && last <= i <= |text|
    requires HitsExact(text, needle, hits)
    requires NoMatchIn(text, needle, last, i)
    ensures GapsHoldNoMatch(text, needle, SplitFrom(text, needle, hits, last, i), last)
    decreases |text| - i, 1
  {
    if i + |needle| > |text| {
      NoMatchToEnd(text, needle, last, i);
      LeftmostAtEnd(text, needle, last);
    } else if hits[i] {
      SplitFromLeftmostAtHit(text, needle, hits, last, i);
    } else {
      SplitFromLeftmostAtMiss(text, needle, hits, last, i);
    }
  }

  /** The match case of `SplitFromLeftmost`. */
  lemma {:induction false} SplitFromLeftmostAtHit(text: string, needle: string, hits: seq<bool>, last: nat, i: nat)
    requires |needle| > 0 && |hits| == |text| && last <= i && i + |needle| <= |text| && hits[i]
    requires HitsExact(text, needle, hits)
    requires NoMatchIn(text, needle, last, i)
    ensures GapsHoldNoMatch(text, needle, SplitFrom(text, needle, hits, last, i), last)
    decreases |text| - i, 0
  {
    var j := i + |needle|;
    SplitFromAtMatch(text, needle, hits, last, i);
    SplitFromLeftmost(text, needle, hits, j, j);
    LeftmostAtMatch(text, needle, last, i, j, SplitFrom(text, needle, hits, j, j));
  }

  /** The case of `SplitFromLeftmost` where no match starts at `i`. */
  lemma {:induction false} SplitFromLeftmostAtMiss(text: string, needle: string, hits: seq<bool>, last: nat, i: nat)
    requires |needle| > 0 && |hits| == |text| && last <= i && i + |needle| <= |text| && !hits[i]
    requires HitsExact(text, needle, hits)
    requires NoMatchIn(text, needle, last, i)
    ensures GapsHoldNoMatch(text, needle, SplitFrom(text, needle, hits, last, i), last)
    decreases |text| - i, 0
  {
    assert !MatchesAt(text, needle, i);
    NoMatchExtend(text, needle, last, i);
    SplitFromAtMiss(text, needle, hits, last, i);
    SplitFromLeftmost(text, needle, hits, last, i + 1);
  }

  /** The split of a text node: it concatenates back to the text, marks are
      occurrences of the needle, gaps are non-empty and separated by marks, and
      no occurrence starts inside a gap. */
  lemma SplitProperties(text: string, needle: string)
    requires |needle| > 0
    ensures Concat(Split(text, needle)) == text
    ensures forall m :: m in Marks(Split(text, needle)) ==> EqualIgnoringCase(m, needle)
    ensures GapsSeparated(Split(text, needle))
    ensures GapsHoldNoMatch(text, needle, Split(text, needle), 0)
  {
    var hits := Hits(text, needle);
    SplitFromConcat(text, needle, hits, 0, 0);
    SplitFromMarksMatch(text, needle, hits, 0, 0);
    SplitFromGapsSeparated(text, needle, hits, 0, 0);
    SplitFromLeftmost(text, needle, hits, 0, 0);
  }

  /** The replace callback over one text node: `lastIndex` follows the end of
      the previous match, text before a match becomes a gap, the match a mark,
      and the rest of the text after the last match a final gap. */
  method SplitText(text: string, needle: string) returns (pieces: seq<Piece>)
    requires |needle| > 0
    ensures pieces == Split(text, needle)
  {
    ghost var hits := Hits(text, needle);
    ghost var whole := Split(text, needle);
    pieces := [];
    var lastIndex := 0;
    var offset := 0;
    while offset + |needle| <= |text|
      invariant lastIndex <= offset <= |text|
      invariant pieces + SplitFrom(text, needle, hits, lastIndex, offset) == whole
      decreases |text| - offset
    {
      if MatchesAt(text, needle, offset) {
        var gap := GapBefore(text, lastIndex, offset);
        var next := offset + |needle|;
        var mark := [Highlight(text[offset..next])];
        SplitFromAtMatch(text, needle, hits, lastIndex, offset);
        Sequences.AppendAssoc(pieces, gap + mark, SplitFrom(text, needle, hits, next, next));
        pieces := pieces + (gap + mark);
        lastIndex := next;
        offset := next;
      } else {
        SplitFromAtMiss(text, needle, hits, lastIndex, offset);
        offset := offset + 1;
      }
    }
    if lastIndex < |text| {
      pieces := pieces + [Gap(text[lastIndex..])];
    }
  }

  /** The marks of every text node, in document order. */
  function MarksOf(texts: seq<string>, needle: string): seq<string>
    requires |needle| > 0
  {
    if texts == [] then []
    else MarksOf(texts[..|texts| - 1], needle) + Marks(Split(texts[|texts| - 1], needle))
  }

  /** Every collected mark is an occurrence of the needle. */
  lemma {:induction false} MarksOfMatch(texts: seq<string>, needle: string)
    requires |needle| > 0
    ensures forall m :: m in MarksOf(texts, needle) ==> EqualIgnoringCase(m, needle)
  {
    if texts != [] {
      MarksOfMatch(texts[..|texts| - 1], needle);
      SplitProperties(texts[|texts| - 1], needle);
    }
  }

  // ---------------------------------------------------------------------
  // The match index.

  lemma MulAtLeast(b: int, t: int)
    requires b > 0 && t >= 1
    ensures b * t >= b
  {
  }

  /** A multiple of `b` leaves no remainder. */
  lemma MultipleMod(b: int, k: int)
    requires b > 0
    ensures (b * k) % b == 0
  {
    var x := b * k;
    var t := k - x / b;
    assert b * t == x % b;
    if t >= 1 {
      MulAtLeast(b, t);
      assert false;
    } else if t <= -1 {
      MulAtLeast(b, -t);
      assert false;
    }
  }

  /** JavaScript `%`: the remainder takes the sign of the dividend, and the
      dividend minus the remainder is a multiple of the divisor. */
  function JsRem(a: int, b: int): (r: int)
    requires b > 0
    ensures a >= 0 ==> r == a % b
    ensures a < 0 ==> r <= 0 && (a - r) % b == 0
    ensures -b < r < b
  {
    if a >= 0 then a % b
    else
      var r := -((-a) % b);
      assert a - r == b * (-((-a) / b)) by {
        assert -a == b * ((-a) / b) + (-a) % b;
      }
      MultipleMod(b, -((-a) / b));
      r
  }

  /** The index `searchNext` moves to. */
  function NextIndex(index: int, len: nat): int
    requires len > 0
  {
    JsRem(index + 1, len)
  }

  /** The index `searchPrev` moves to. */
  function PrevIndex(index: int, len: nat): int
    requires len > 0
  {
    JsRem(index - 1 + len, len)
  }

  /** From any index in range, or from the initial -1, both moves land in range. */
  lemma MovesStayInRange(index: int, len: nat)
    requires len > 0 && -1 <= index < len
    ensures 0 <= NextIndex(index, len) < len
    ensures 0 <= PrevIndex(index, len) < len
  {
  }

  /** `searchNext` steps to the following mark and wraps from the last to the
      first; from the initial -1 it lands on the first. */
  lemma NextWraps(index: int, len: nat)
    requires len > 0 && -1 <= index < len
    ensures NextIndex(index, len) == if index == len - 1 then 0 else index + 1
  {
  }

  /** `searchPrev` steps to the preceding mark and wraps from the first to the
      last; from the initial -1 it lands on the second-to-last mark, or on the
      only one. */
  lemma PrevWraps(index: int, len: nat)
    requires len > 0 && -1 <= index < len
    ensures 0 <= index ==> PrevIndex(index, len) == if index == 0 then len - 1 else index - 1
    ensures index == -1 ==> PrevIndex(index, len) == if len >= 2 then len - 2 else 0
  {
    if index == -1 && len == 1 {
      assert JsRem(-1, 1) == 0;
    }
  }

  /** Next then previous, or previous then next, gives back an index in range. */
  lemma NextPrevInverse(index: int, len: nat)
    requires len > 0 && 0 <= index < len
    ensures PrevIndex(NextIndex(index, len), len) == index
    ensures NextIndex(PrevIndex(index, len), len) == index
  {
    NextWraps(index, len);
    PrevWraps(index, len);
    NextWraps(PrevIndex(index, len), len);
    PrevWraps(NextIndex(index, len), len);
  }

  /** `window.searchState`: the highlight marks and the index of the current one. */
  class SearchState {
    var matches: seq<string>
    var index: int

    ghost predicate Valid()
      reads this
    {
      -1 <= index < |matches|
    }

    constructor ()
      ensures Valid() && matches == [] && index == -1
    {
      matches := [];
      index := -1;
    }

    /** `clearHighlights`, as far as the state goes: no marks, no current one. */
    method ClearHighlights()
      modifies this
      ensures Valid() && matches == [] && index == -1
    {
      matches := [];
      index := -1;
    }

    /** `searchHighlight`: clear, stop for an empty needle or a document with no
        root, otherwise split every text node and collect the marks. */
    method SearchHighlight(needle: string, hasRoot: bool, texts: seq<string>)
      modifies this
      ensures Valid() && index == -1
      ensures needle == [] || !hasRoot ==> matches == []
      ensures needle != [] && hasRoot ==> matches == MarksOf(texts, needle)
    {
      ClearHighlights();
      if needle == [] || !hasRoot {
        return;
      }
      var marks := [];
      var n := 0;
      while n < |texts|
        invariant 0 <= n <= |texts|
        invariant marks == MarksOf(texts[..n], needle)
      {
        assert texts[..n + 1][..n] == texts[..n];
        var pieces := SplitText(texts[n], needle);
        marks := marks + Marks(pieces);
        n := n + 1;
      }
      assert texts[..n] == texts;
      matches := marks;
      index := -1;
    }

    /** `searchNext`: nothing without marks, otherwise the next index, wrapping. */
    method SearchNext()
      requires Valid()
      modifies this`index
      ensures Valid()
      ensures matches == [] ==> index == old(index)
      ensures matches != [] ==> index == NextIndex(old(index), |matches|)
    {
      if |matches| == 0 {
        return;
      }
      index := JsRem(index + 1, |matches|);
    }

    /** `searchPrev`: nothing without marks, otherwise the previous index, wrapping. */
    method SearchPrev()
      requires Valid()
      modifies this`index
      ensures Valid()
      ensures matches == [] ==> index == old(index)
      ensures matches != [] ==> index == PrevIndex(old(index), |matches|)
    {
      if |matches| == 0 {
        return;
      }
      index := JsRem(index - 1 + |matches|, |matches|);
    }
  }
}
