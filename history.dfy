/*
  The browser-style navigation history: a stack of visited URLs and the index
  of the page being shown.  `push` drops every entry after the index before
  appending, `back` and `forward` move the index within the stack.

  `Trail` is an independent description of the same thing as a zipper: the
  pages behind the current one, the current page and the pages ahead.  The
  class methods are proved against the zipper operations, and the navigation
  laws are proved on the zipper.
*/
module Histories {
  import opened Wrappers

  /** The URL a default history starts on. */
  const HomePage: string := "https://mr.katebzadeh.xyz"

  datatype Trail = Trail(behind: seq<string>, here: string, ahead: seq<string>)

  /** The stack a trail is laid out as; the current page sits at index |behind|. */
  function Entries(t: Trail): (r: seq<string>)
    ensures |r| == |t.behind| + 1 + |t.ahead|
    ensures r[|t.behind|] == t.here
  {
    t.behind + [t.here] + t.ahead
  }

  /** The trail of a stack whose current index is `i`. */
  function TrailAt(stack: seq<string>, i: nat): (t: Trail)
    requires i < |stack|
    ensures |t.behind| == i && t.here == stack[i]
    ensures Entries(t) == stack
  {
    assert stack[..i] + [stack[i]] + stack[i + 1..] == stack;
    Trail(stack[..i], stack[i], stack[i + 1..])
  }

  /** Visiting a page: the current page goes behind, the pages ahead are dropped. */
  function Visit(t: Trail, url: string): Trail {
    Trail(t.behind + [t.here], url, [])
  }

  /** Going back: the page returned, if any, and the trail afterwards. */
  function Retreat(t: Trail): (Trail, Option<string>) {
    if t.behind == [] then (t, None)
    else
      var n := |t.behind| - 1;
      (Trail(t.behind[..n], t.behind[n], [t.here] + t.ahead), Some(t.behind[n]))
  }

  /** Going forward: the page returned, if any, and the trail afterwards. */
  function Advance(t: Trail): (Trail, Option<string>) {
    if t.ahead == [] then (t, None)
    else (Trail(t.behind + [t.here], t.ahead[0], t.ahead[1..]), Some(t.ahead[0]))
  }

  class History {
    var stack: seq<string>
    var currentIndex: nat

    ghost predicate Valid()
      reads this
    {
      currentIndex < |stack|
    }

    /** The zipper view of this history. */
    ghost function View(): Trail
      reads this
      requires Valid()
    {
      TrailAt(stack, currentIndex)
    }

    /** A history holding only `initialUrl`. */
    constructor (initialUrl: string)
      ensures Valid()
      ensures stack == [initialUrl] && currentIndex == 0
      ensures View() == Trail([], initialUrl, [])
    {
      stack := [initialUrl];
      currentIndex := 0;
    }

    /** The `Default` history, holding only the home page. */
    constructor Default()
      ensures Valid()
      ensures stack == [HomePage] && currentIndex == 0
      ensures View() == Trail([], HomePage, [])
    {
      stack := [HomePage];
      currentIndex := 0;
    }

    /** Keep the entries up to the current one, append `url` and move onto it. */
    method Push(url: string)
      requires Valid()
      modifies this
      ensures Valid()
      ensures stack == old(stack[..currentIndex + 1]) + [url]
      ensures currentIndex == old(currentIndex) + 1
      ensures View() == Visit(old(View()), url)
    {
      stack := stack[..currentIndex + 1];
      stack := stack + [url];
      currentIndex := currentIndex + 1;
    }

    /** Step back one entry, returning it; at the first entry nothing changes. */
    method Back() returns (r: Option<string>)
      requires Valid()
      modifies this`currentIndex
      ensures Valid()
      ensures old(currentIndex) > 0 ==> currentIndex == old(currentIndex) - 1 && r == Some(stack[currentIndex])
      ensures old(currentIndex) == 0 ==> currentIndex == 0 && r == None
      ensures (View(), r) == Retreat(old(View()))
    {
      if currentIndex > 0 {
        currentIndex := currentIndex - 1;
        r := Some(stack[currentIndex]);
        assert stack[..currentIndex + 1][..currentIndex] == stack[..currentIndex];
        assert [stack[currentIndex + 1]] + stack[currentIndex + 2..] == stack[currentIndex + 1..];
      } else {
        r := None;
      }
    }

    /** Step forward one entry, returning it; at the last entry nothing changes. */
    method Forward() returns (r: Option<string>)
      requires Valid()
      modifies this`currentIndex
      ensures Valid()
      ensures old(currentIndex) + 1 < |stack| ==> currentIndex == old(currentIndex) + 1 && r == Some(stack[currentIndex])
      ensures old(currentIndex) + 1 == |stack| ==> currentIndex == old(currentIndex) && r == None
      ensures (View(), r) == Advance(old(View()))
    {
      if currentIndex + 1 < |stack| {
        currentIndex := currentIndex + 1;
        r := Some(stack[currentIndex]);
        assert stack[..currentIndex - 1] + [stack[currentIndex - 1]] == stack[..currentIndex];
        assert stack[currentIndex..][1..] == stack[currentIndex + 1..];
      } else {
        r := None;
      }
    }

    /** The page being shown; in bounds by the invariant. */
    function Current(): (r: string)
      reads this
      requires Valid()
      ensures r == View().here && r in stack
    {
      stack[currentIndex]
    }
  }

  /** `back` fails exactly at the first entry, and then changes nothing. */
  lemma RetreatFailsOnlyAtStart(t: Trail)
    ensures Retreat(t).1.None? <==> t.behind == []
    ensures Retreat(t).1.None? ==> Retreat(t).0 == t
    ensures Retreat(t).1.Some? ==> Retreat(t).1.value == Retreat(t).0.here
  {
  }

  /** `forward` fails exactly at the last entry, and then changes nothing. */
  lemma AdvanceFailsOnlyAtEnd(t: Trail)
    ensures Advance(t).1.None? <==> t.ahead == []
    ensures Advance(t).1.None? ==> Advance(t).0 == t
    ensures Advance(t).1.Some? ==> Advance(t).1.value == Advance(t).0.here
  {
  }

  /** Moving back or forward never changes the stack, only where the index points. */
  lemma NavigationKeepsEntries(t: Trail)
    ensures Entries(Retreat(t).0) == Entries(t)
    ensures |Retreat(t).0.behind| == if t.behind == [] then 0 else |t.behind| - 1
    ensures Entries(Advance(t).0) == Entries(t)
    ensures |Advance(t).0.behind| == if t.ahead == [] then |t.behind| else |t.behind| + 1
  {
    if t.behind != [] {
      var n := |t.behind| - 1;
      assert t.behind == t.behind[..n] + [t.behind[n]];
      assert Entries(Retreat(t).0) == t.behind[..n] + [t.behind[n]] + ([t.here] + t.ahead);
    }
    if t.ahead != [] {
      assert t.ahead == [t.ahead[0]] + t.ahead[1..];
      assert Entries(Advance(t).0) == (t.behind + [t.here]) + [t.ahead[0]] + t.ahead[1..];
    }
  }

  /** A successful back followed by forward restores the trail and returns the page left. */
  lemma RetreatThenAdvance(t: Trail)
    requires t.behind != []
    ensures Advance(Retreat(t).0) == (t, Some(t.here))
  {
    var n := |t.behind| - 1;
    assert t.behind[..n] + [t.behind[n]] == t.behind;
    assert ([t.here] + t.ahead)[1..] == t.ahead;
  }

  /** A successful forward followed by back restores the trail and returns the page left. */
  lemma AdvanceThenRetreat(t: Trail)
    requires t.ahead != []
    ensures Retreat(Advance(t).0) == (t, Some(t.here))
  {
    var b := t.behind + [t.here];
    assert b[..|b| - 1] == t.behind;
    assert [t.ahead[0]] + t.ahead[1..] == t.ahead;
  }

  /** `back` called `n` times in a row. */
  function RetreatN(t: Trail, n: nat): Trail
    decreases n
  {
    if n == 0 then t else RetreatN(Retreat(t).0, n - 1)
  }

  /** Going back `n` times, within the pages behind, keeps the stack and moves
      the index down by `n`: the page shown is the entry `n` places back. */
  lemma {:induction false} RetreatNSteps(t: Trail, n: nat)
    requires n <= |t.behind|
    ensures Entries(RetreatN(t, n)) == Entries(t)
    ensures |RetreatN(t, n).behind| == |t.behind| - n
    ensures RetreatN(t, n).here == Entries(t)[|t.behind| - n]
    decreases n
  {
    if n > 0 {
      NavigationKeepsEntries(t);
      RetreatNSteps(Retreat(t).0, n - 1);
    }
  }

  /** Going back as often as there are pages behind reaches the first entry,
      and one more `back` then fails and changes nothing. */
  lemma RetreatToStart(t: Trail)
    ensures RetreatN(t, |t.behind|).behind == []
    ensures RetreatN(t, |t.behind|).here == Entries(t)[0]
    ensures Entries(RetreatN(t, |t.behind|)) == Entries(t)
    ensures Retreat(RetreatN(t, |t.behind|)) == (RetreatN(t, |t.behind|), None)
  {
    RetreatNSteps(t, |t.behind|);
  }

  /** Visiting keeps the entries up to the current one, appends the page and
      leaves nothing to go forward to. */
  lemma VisitTruncates(t: Trail, url: string)
    ensures Entries(Visit(t, url)) == Entries(t)[..|t.behind| + 1] + [url]
    ensures Visit(t, url).here == url && |Visit(t, url).behind| == |t.behind| + 1
    ensures Advance(Visit(t, url)) == (Visit(t, url), None)
  {
    assert Entries(t)[..|t.behind| + 1] == t.behind + [t.here];
  }

  /** Pushing after going back discards the page that was ahead:
      push(a); push(b); back(); push(c) leaves [seed, a, c] with nothing ahead. */
  method PushAfterBackDiscardsAhead(seed: string, a: string, b: string, c: string)
    returns (entries: seq<string>, current: string, ahead: Option<string>)
    ensures entries == [seed, a, c]
    ensures current == c
    ensures ahead == None
  {
    var h := new History(seed);
    h.Push(a);
    h.Push(b);
    var back := h.Back();
    assert back == Some(a);
    h.Push(c);
    current := h.Current();
    ahead := h.Forward();
    entries := h.stack;
  }

  /** A successful back followed by forward leaves the history as it was. */
  method BackThenForward(h: History) returns (back: Option<string>, forward: Option<string>)
    requires h.Valid()
    modifies h
    ensures h.Valid()
    ensures back.Some? <==> old(h.currentIndex) > 0
    ensures back.Some? ==> forward == Some(old(h.Current())) && h.currentIndex == old(h.currentIndex)
    ensures h.stack == old(h.stack)
  {
    ghost var t := h.View();
    back := h.Back();
    forward := None;
    if back.Some? {
      RetreatThenAdvance(t);
      forward := h.Forward();
    }
  }
}
