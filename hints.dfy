/*
  Link hints: every link, button and ARIA link on the page gets a numbered
  label, the base-36 spelling of its position in the query result, upper
  cased.  Links with no size on screen are skipped but still use up their
  number, so labels follow positions, not the count of shown hints.

  The page is a parameter: the query result, in document order, with each
  element's on-screen size.  Drawing and removing the hint elements is not
  modelled.
*/
module Hints {

  /** An element the hint query returns, with its bounding-box size. */
  datatype Link = Link(id: nat, width: real, height: real)

  /** One entry of `hintState.hints`: the label and the element it opens. */
  datatype HintEntry = HintEntry(hintLabel: string, link: Link)

  /** A link is hinted unless its width and height are both zero. */
  predicate Visible(l: Link) {
    !(l.width == 0.0 && l.height == 0.0)
  }

  // ---------------------------------------------------------------------
  // Labels: `index.toString(36)`, then `toUpperCase()`.

  /** The base-36 digit `d`: `0`-`9`, then `a`-`z`. */
  function DigitChar(d: nat): (c: char)
    requires d < 36
    ensures IsDigitChar(c)
  {
    if d < 10 then ('0' as int + d) as char else ('a' as int + d - 10) as char
  }

  predicate IsDigitChar(c: char) {
    '0' <= c <= '9' || 'a' <= c <= 'z'
  }

  /** `Number.prototype.toString(36)` of a non-negative integer: no leading zeros. */
  function ToBase36(n: nat): (r: string)
    ensures |r| >= 1
    ensures forall k :: 0 <= k < |r| ==> IsDigitChar(r[k])
    ensures |r| > 1 ==> r[0] != '0'
  {
    if n < 36 then [DigitChar(n)] else ToBase36(n / 36) + [DigitChar(n % 36)]
  }

  function UpperChar(c: char): (r: char)
    ensures !('a' <= r <= 'z')
    ensures 'a' <= c <= 'z' ==> r as int == c as int - 32
    ensures !('a' <= c <= 'z') ==> r == c
  {
    if 'a' <= c <= 'z' then (c as int - 32) as char else c
  }

  /** `toUpperCase` on the characters a base-36 numeral can hold: no
      lower-case letter is left, and a string without one comes back unchanged. */
  function ToUpper(s: string): (r: string)
    ensures |r| == |s|
    ensures forall k :: 0 <= k < |r| ==> !('a' <= r[k] <= 'z')
    ensures (forall k :: 0 <= k < |s| ==> !('a' <= s[k] <= 'z')) ==> r == s
    ensures forall k :: 0 <= k < |s| ==> r[k] == UpperChar(s[k])
  {
    seq(|s|, k requires 0 <= k < |s| => UpperChar(s[k]))
  }

  /** The label of the link at position `n` of the query result. */
  function Label(n: nat): string {
    ToUpper(ToBase36(n))
  }

  /** The value of an upper-case base-36 digit. */
  function DigitValue(c: char): nat {
    if '0' <= c <= '9' then c as int - '0' as int
    else if 'A' <= c <= 'Z' then c as int - 'A' as int + 10
    else 0
  }

  /** Reading an upper-case base-36 numeral back. */
  function FromBase36(s: string): nat {
    if s == [] then 0 else FromBase36(s[..|s| - 1]) * 36 + DigitValue(s[|s| - 1])
  }

  lemma DigitRoundTrip(d: nat)
    requires d < 36
    ensures DigitValue(UpperChar(DigitChar(d))) == d
  {
  }

  /** Labels read back as the position they were made from. */
  lemma {:induction false} LabelRoundTrip(n: nat)
    ensures FromBase36(Label(n)) == n
  {
    if n < 36 {
      DigitRoundTrip(n);
    } else {
      LabelRoundTrip(n / 36);
      DigitRoundTrip(n % 36);
      var s := Label(n);
      assert s[..|s| - 1] == Label(n / 36);
    }
  }

  /** Different positions get different labels. */
  lemma LabelInjective(m: nat, n: nat)
    requires Label(m) == Label(n)
    ensures m == n
  {
    LabelRoundTrip(m);
    LabelRoundTrip(n);
  }

  // ---------------------------------------------------------------------
  // The hint list.

  /** The entries `showHints` builds: one per visible link, in query order,
      labelled with the link's position. */
  function HintsFor(links: seq<Link>): (r: seq<HintEntry>)
    ensures |r| <= |links|
  {
    if links == [] then []
    else
      var n := |links| - 1;
      HintsFor(links[..n]) + if Visible(links[n]) then [HintEntry(Label(n), links[n])] else []
  }

  /** The positions of the visible links, in order. */
  function VisiblePositions(links: seq<Link>): (r: seq<nat>)
    ensures forall k :: 0 <= k < |r| ==> r[k] < |links| && Visible(links[r[k]])
    ensures forall j, k :: 0 <= j < k < |r| ==> r[j] < r[k]
  {
    if links == [] then []
    else
      var n := |links| - 1;
      VisiblePositions(links[..n]) + if Visible(links[n]) then [n] else []
  }

  /** The hint list is the visible links, each labelled with its position. */
  lemma {:induction false} HintsArePositioned(links: seq<Link>)
    ensures |HintsFor(links)| == |VisiblePositions(links)|
    ensures forall k :: 0 <= k < |HintsFor(links)| ==>
      HintsFor(links)[k] == HintEntry(Label(VisiblePositions(links)[k]), links[VisiblePositions(links)[k]])
  {
    if links != [] {
      var n := |links| - 1;
      var pre := links[..n];
      HintsArePositioned(pre);
      var h, v := HintsFor(pre), VisiblePositions(pre);
      var hs, vs := HintsFor(links), VisiblePositions(links);
      assert hs == h + if Visible(links[n]) then [HintEntry(Label(n), links[n])] else [];
      assert vs == v + if Visible(links[n]) then [n] else [];
      forall k | 0 <= k < |hs|
        ensures hs[k] == HintEntry(Label(vs[k]), links[vs[k]])
      {
        if k < |h| {
          assert hs[k] == h[k] && vs[k] == v[k];
          assert pre[v[k]] == links[v[k]];
        }
      }
    }
  }

  /** A link gets a hint exactly when it is visible. */
  lemma VisibleLinksAreHinted(links: seq<Link>, p: nat)
    requires p < |links|
    ensures Visible(links[p]) <==> p in VisiblePositions(links)
  {
    if links != [] && p < |links| - 1 {
      VisibleLinksAreHinted(links[..|links| - 1], p);
    }
  }

  /** No two hints share a label. */
  lemma HintLabelsDistinct(links: seq<Link>)
    ensures forall j, k :: 0 <= j < k < |HintsFor(links)| ==> HintsFor(links)[j].hintLabel != HintsFor(links)[k].hintLabel
  {
    HintsArePositioned(links);
    var hs, ps := HintsFor(links), VisiblePositions(links);
    forall j, k | 0 <= j < k < |hs|
      ensures hs[j].hintLabel != hs[k].hintLabel
    {
      if hs[j].hintLabel == hs[k].hintLabel {
        LabelInjective(ps[j], ps[k]);
      }
    }
  }

  /** `window.hintState`. */
  class HintState {
    var active: bool
    var hints: seq<HintEntry>
    var buffer: string

    constructor ()
      ensures !active && hints == [] && buffer == ""
    {
      active := false;
      hints := [];
      buffer := "";
    }

    /** `clearHints`: no hints, inactive, empty buffer. */
    method ClearHints()
      modifies this
      ensures !active && hints == [] && buffer == ""
    {
      hints := [];
      active := false;
      buffer := "";
    }

    /** `showHints`: clear, activate, then walk the query result numbering every
        link and keeping an entry for each visible one. */
    method ShowHints(links: seq<Link>)
      modifies this
      ensures active && buffer == ""
      ensures hints == HintsFor(links)
    {
      ClearHints();
      active := true;
      buffer := "";
      var index := 0;
      while index < |links|
        invariant 0 <= index <= |links|
        invariant active && buffer == ""
        invariant hints == HintsFor(links[..index])
      {
        var link := links[index];
        var numeral := ToBase36(index);
        assert links[..index + 1][..index] == links[..index];
        index := index + 1;
        if Visible(link) {
          hints := hints + [HintEntry(ToUpper(numeral), link)];
        }
      }
      assert links[..index] == links;
    }
  }
}
