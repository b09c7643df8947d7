// elfio.hpp:630-689: the order in which segments are laid out, containing segments first.
module ElfSegments {

  /** The part of a segment that layout depends on. */
  datatype Segment = Segment(ptype: nat, align: nat, vaddr: nat, memsize: nat, filesize: nat,
                             offset: nat, offsetSet: bool, sections: seq<nat>)

  predicate Ascending(s: seq<nat>) {
    forall i, j :: 0 <= i < j < |s| ==> s[i] <= s[j]
  }

  /** std::includes(b, a): whether the range b includes the range a. */
  function Includes(b: seq<nat>, a: seq<nat>): bool {
    if a == [] then true
    else if b == [] then false
    else if a[0] < b[0] then false
    else if b[0] < a[0] then Includes(b[1..], a)
    else Includes(b[1..], a[1..])
  }

  lemma HeadTail<T>(s: seq<T>)
    requires s != []
    ensures multiset(s) == multiset{s[0]} + multiset(s[1..])
  {
    assert s == [s[0]] + s[1..];
  }

  /** On sorted lists the scan decides inclusion of multisets. */
  lemma {:induction false} IncludesSorted(b: seq<nat>, a: seq<nat>)
    requires Ascending(a) && Ascending(b)
    ensures Includes(b, a) <==> multiset(a) <= multiset(b)
  {
    if a == [] {
    } else if b == [] {
      assert a[0] in multiset(a);
    } else if a[0] < b[0] {
      assert a[0] in multiset(a) && a[0] !in b;
    } else {
      HeadTail(a);
      HeadTail(b);
      if b[0] < a[0] {
        IncludesSorted(b[1..], a);
        assert b[0] !in a;
        WithoutOther(multiset(a), multiset(b[1..]), b[0]);
      } else {
        IncludesSorted(b[1..], a[1..]);
        WithCommon(multiset(a[1..]), multiset(b[1..]), b[0]);
      }
    }
  }

  lemma WithoutOther(a: multiset<nat>, b: multiset<nat>, x: nat)
    requires x !in a
    ensures a <= multiset{x} + b <==> a <= b
  {
    if a <= multiset{x} + b {
      forall y: nat
        ensures a[y] <= b[y]
      {
        assert a[y] <= (multiset{x} + b)[y];
      }
    }
  }

  lemma WithCommon(a: multiset<nat>, b: multiset<nat>, x: nat)
    ensures multiset{x} + a <= multiset{x} + b <==> a <= b
  {
    if multiset{x} + a <= multiset{x} + b {
      forall y: nat
        ensures a[y] <= b[y]
      {
        assert (multiset{x} + a)[y] <= (multiset{x} + b)[y];
      }
    }
  }

  /** elfio.hpp:631-644 */
  predicate IsSubsequenceOf(a: seq<nat>, b: seq<nat>) {
    |a| < |b| && Includes(b, a)
  }

  /** The first position of a largest number. */
  function FirstLongest(l: seq<nat>): (i: nat)
    requires l != []
    ensures i < |l| && (forall j :: 0 <= j < |l| ==> l[j] <= l[i]) && (forall j :: 0 <= j < i ==> l[j] < l[i])
  {
    if |l| == 1 then 0
    else
      var i := FirstLongest(l[..|l| - 1]);
      if l[|l| - 1] > l[i] then |l| - 1 else i
  }

  /** Moving an element that is not the longest from front to back brings the first longest one forward. */
  lemma RequeueAdvances(l: seq<nat>, k: nat)
    requires 0 < k < |l| && l[0] < l[k]
    ensures FirstLongest(l[1..] + [l[0]]) == FirstLongest(l) - 1
  {
    var i, m := FirstLongest(l), l[1..] + [l[0]];
    assert i > 0 && l[0] < l[i];
    forall x | 0 <= x < |m|
      ensures m[x] <= m[i - 1] && (x < i - 1 ==> m[x] < m[i - 1])
    {
      assert m[x] == if x < |l| - 1 then l[x + 1] else l[0];
    }
    FirstLongestIs(m, i - 1);
  }

  lemma FirstLongestIs(m: seq<nat>, i: nat)
    requires i < |m| && forall x :: 0 <= x < |m| ==> m[x] <= m[i] && (x < i ==> m[x] < m[i])
    ensures FirstLongest(m) == i
  {
    var j := FirstLongest(m);
    assert m[j] == m[i];
  }

  function Lengths(segments: seq<Segment>, w: seq<nat>): (l: seq<nat>)
    requires forall i :: 0 <= i < |w| ==> w[i] < |segments|
    ensures |l| == |w| && forall i :: 0 <= i < |w| ==> l[i] == |segments[w[i]].sections|
  {
    seq(|w|, i requires 0 <= i < |w| => |segments[w[i]].sections|)
  }

  function Count(n: nat): (s: seq<nat>)
    ensures |s| == n && forall i :: 0 <= i < n ==> s[i] == i
  {
    seq(n, i => i)
  }

  /** A rearrangement of 0, ..., n - 1. */
  ghost predicate IsOrdering(w: seq<nat>, n: nat) {
    multiset(w) == multiset(Count(n))
  }

  lemma OrderingElements(w: seq<nat>, n: nat)
    requires IsOrdering(w, n)
    ensures |w| == n && (forall i :: 0 <= i < |w| ==> w[i] < n) && (forall i: nat :: i < n ==> i in w)
  {
    assert |multiset(w)| == |multiset(Count(n))|;
    forall i | 0 <= i < |w|
      ensures w[i] < n
    {
      assert w[i] in multiset(w);
      assert w[i] in Count(n);
    }
    forall i: nat | i < n
      ensures i in w
    {
      assert Count(n)[i] in multiset(Count(n));
    }
  }

  function Exchange(s: seq<nat>, i: nat, j: nat): (t: seq<nat>)
    requires i < |s| && j < |s|
    ensures |t| == |s|
  {
    s[i := s[j]][j := s[i]]
  }

  /** A segment known to start at file offset 0. */
  predicate StartsAtZero(s: Segment) {
    s.offsetSet && s.offset == 0
  }

  predicate NoneAtZero(segments: seq<Segment>) {
    forall s :: 0 <= s < |segments| ==> !StartsAtZero(segments[s])
  }

  /** elfio.hpp:652-667: in the initial worklist every segment known to start at offset 0 comes before every
      segment with another offset. */
  method InitialWorklist(segments: seq<Segment>) returns (w: seq<nat>)
    ensures IsOrdering(w, |segments|) && (forall i :: 0 <= i < |w| ==> w[i] < |segments|)
    ensures forall i, j :: 0 <= i < |w| && 0 <= j < |w| ==>
              StartsAtZero(segments[w[i]]) && segments[w[j]].offset != 0 ==> i < j
    ensures NoneAtZero(segments) ==> w == Count(|segments|)
  {
    hide Sifted, NoneAtZero, IsOrdering;
    w := Count(|segments|);
    SiftStart(segments);
    var nextSlot := 0;
    var i := 0;
    while i < |w|
      invariant 0 <= nextSlot <= i <= |w| == |segments| && InRange(w, |segments|)
      invariant Sifted(segments, w, nextSlot, i)
    {
      if i != nextSlot && segments[w[i]].offsetSet && segments[w[i]].offset == 0 {
        SiftSwap(segments, w, nextSlot, i);
        if segments[w[nextSlot]].offset == 0 {
          nextSlot := nextSlot + 1;
        }
        w := Exchange(w, i, nextSlot);
        nextSlot := nextSlot + 1;
      } else {
        SiftSkip(segments, w, nextSlot, i);
      }
      i := i + 1;
    }
    SiftDone(segments, w, nextSlot);
  }

  predicate InRange(w: seq<nat>, n: nat) {
    forall k :: 0 <= k < |w| ==> w[k] < n
  }

  /** After i steps: the slots before `next` hold segments at offset 0, and behind it none is known to start there. */
  ghost predicate Sifted(segments: seq<Segment>, w: seq<nat>, next: nat, i: nat) {
    && next <= i <= |w| == |segments| && InRange(w, |segments|) && IsOrdering(w, |segments|)
    && (forall k :: 0 <= k < next ==> segments[w[k]].offset == 0)
    && (forall k :: next < k < i ==> !StartsAtZero(segments[w[k]]))
    && (NoneAtZero(segments) ==> w == Count(|segments|))
  }

  lemma SiftStart(segments: seq<Segment>)
    ensures Sifted(segments, Count(|segments|), 0, 0)
  {
  }

  lemma SiftSkip(segments: seq<Segment>, w: seq<nat>, next: nat, i: nat)
    requires Sifted(segments, w, next, i) && i < |w| && (i == next || !StartsAtZero(segments[w[i]]))
    ensures Sifted(segments, w, next, i + 1)
  {
    hide IsOrdering, NoneAtZero;
  }

  lemma SiftSwap(segments: seq<Segment>, w: seq<nat>, next: nat, i: nat)
    requires Sifted(segments, w, next, i) && i < |w| && i != next && StartsAtZero(segments[w[i]])
    ensures var n := if segments[w[next]].offset == 0 then next + 1 else next;
            n <= i && InRange(Exchange(w, i, n), |segments|) && Sifted(segments, Exchange(w, i, n), n + 1, i + 1)
  {
    var n := if segments[w[next]].offset == 0 then next + 1 else next;
    SomeAtZero(segments, w[i]);
    ExchangeKeeps(w, i, n);
    hide NoneAtZero, StartsAtZero;
  }

  lemma SiftDone(segments: seq<Segment>, w: seq<nat>, next: nat)
    requires Sifted(segments, w, next, |w|)
    ensures IsOrdering(w, |segments|) && InRange(w, |segments|) && (NoneAtZero(segments) ==> w == Count(|segments|))
    ensures forall i, j :: 0 <= i < |w| && 0 <= j < |w| ==>
              StartsAtZero(segments[w[i]]) && segments[w[j]].offset != 0 ==> i < j
  {
    hide IsOrdering, NoneAtZero;
  }

  lemma ExchangeKeeps(s: seq<nat>, i: nat, j: nat)
    requires i < |s| && j < |s|
    ensures multiset(Exchange(s, i, j)) == multiset(s)
  {
  }

  lemma SomeAtZero(segments: seq<Segment>, s: nat)
    requires s < |segments| && StartsAtZero(segments[s])
    ensures !NoneAtZero(segments)
  {
  }

  /** elfio.hpp:674-678: the first worklist entry that contains the segment, or the length. */
  method FindContainer(segments: seq<Segment>, seg: nat, w: seq<nat>) returns (i: nat)
    requires seg < |segments| && forall k :: 0 <= k < |w| ==> w[k] < |segments|
    ensures i <= |w|
    ensures i < |w| ==> IsSubsequenceOf(segments[seg].sections, segments[w[i]].sections)
    ensures forall k :: 0 <= k < i ==> !IsSubsequenceOf(segments[seg].sections, segments[w[k]].sections)
  {
    i := 0;
    while i < |w|
      invariant 0 <= i <= |w|
      invariant forall k :: 0 <= k < i ==> !IsSubsequenceOf(segments[seg].sections, segments[w[k]].sections)
    {
      if IsSubsequenceOf(segments[seg].sections, segments[w[i]].sections) {
        break;
      }
      i := i + 1;
    }
  }

  /** Every segment in `res` is behind all those, in `res` or still in `w`, that contain it. */
  predicate ContainersFirst(segments: seq<Segment>, res: seq<nat>, w: seq<nat>)
    requires InRange(res, |segments|) && InRange(w, |segments|)
  {
    && (forall i, j :: 0 <= i < |res| && 0 <= j < |w| ==>
          !IsSubsequenceOf(segments[res[i]].sections, segments[w[j]].sections))
    && (forall i, j :: 0 <= i < j < |res| ==>
          !IsSubsequenceOf(segments[res[i]].sections, segments[res[j]].sections))
  }

  /** No other segment has all the sections of this one and more. */
  predicate Uncontained(segments: seq<Segment>, s: nat)
    requires s < |segments|
  {
    forall t :: 0 <= t < |segments| ==> !IsSubsequenceOf(segments[s].sections, segments[t].sections)
  }

  /** A segment known to start at offset 0 that no other contains comes before every segment with another offset. */
  predicate ZeroFirst(segments: seq<Segment>, w: seq<nat>)
    requires InRange(w, |segments|)
  {
    forall i, j :: 0 <= i < |w| && 0 <= j < |w| ==>
      StartsAtZero(segments[w[i]]) && Uncontained(segments, w[i]) && segments[w[j]].offset != 0 ==> i < j
  }

  /** If no segment is known to start at offset 0, those that no other contains stay in their order. */
  predicate KeepsOrder(segments: seq<Segment>, w: seq<nat>)
    requires InRange(w, |segments|)
  {
    NoneAtZero(segments) ==>
      forall i, j :: 0 <= i < j < |w| && Uncontained(segments, w[i]) && Uncontained(segments, w[j]) ==> w[i] < w[j]
  }

  lemma OrderStays(segments: seq<Segment>, res: seq<nat>, w: seq<nat>, k: nat)
    requires InRange(res, |segments|) && InRange(w, |segments|) && 0 < k < |w| && KeepsOrder(segments, res + w)
    requires IsSubsequenceOf(segments[w[0]].sections, segments[w[k]].sections)
    ensures KeepsOrder(segments, res + (w[1..] + [w[0]]))
  {
    hide IsSubsequenceOf, NoneAtZero;
    var n, t, u := |res|, res + w, res + (w[1..] + [w[0]]);
    assert !Uncontained(segments, w[0]);
    hide Uncontained;
    forall i, j | 0 <= i < j < |u| && Uncontained(segments, u[i]) && Uncontained(segments, u[j]) && NoneAtZero(segments)
      ensures u[i] < u[j]
    {
      var x, y := if i < n then i else i + 1, if j < n then j else j + 1;
      assert u[|u| - 1] == w[0];
      assert t[x] == u[i] && t[y] == u[j];
    }
  }

  /** A segment moved to the back is contained in another one. */
  lemma ZeroStaysFirst(segments: seq<Segment>, res: seq<nat>, w: seq<nat>, k: nat)
    requires InRange(res, |segments|) && InRange(w, |segments|) && 0 < k < |w| && ZeroFirst(segments, res + w)
    requires IsSubsequenceOf(segments[w[0]].sections, segments[w[k]].sections)
    ensures ZeroFirst(segments, res + (w[1..] + [w[0]]))
  {
    hide IsSubsequenceOf, StartsAtZero;
    var n, t, u := |res|, res + w, res + (w[1..] + [w[0]]);
    assert !Uncontained(segments, w[0]);
    hide Uncontained;
    assert t[n] == w[0];
    forall i, j | 0 <= i < |u| && 0 <= j < |u| && StartsAtZero(segments[u[i]]) && Uncontained(segments, u[i])
                  && segments[u[j]].offset != 0
      ensures i < j
    {
      var x := if i < n then i else i + 1;
      var y := if j < n then j else if j + 1 < |u| then j + 1 else n;
      assert i < |u| - 1 && t[x] == u[i] && t[y] == u[j] && x < y;
    }
  }

  /** Each segment once, containers first, and otherwise the order of the initial worklist. */
  ghost predicate Ordered(segments: seq<Segment>, w: seq<nat>) {
    && IsOrdering(w, |segments|) && InRange(w, |segments|) && ZeroFirst(segments, w) && KeepsOrder(segments, w)
    && forall i, j :: 0 <= i < j < |w| ==> !IsSubsequenceOf(segments[w[i]].sections, segments[w[j]].sections)
  }

  ghost function Progress(segments: seq<Segment>, w: seq<nat>): nat
    requires InRange(w, |segments|)
  {
    if w == [] then 0 else FirstLongest(Lengths(segments, w))
  }

  lemma Accepted(segments: seq<Segment>, res: seq<nat>, w: seq<nat>)
    requires InRange(res, |segments|) && InRange(w, |segments|) && w != [] && ContainersFirst(segments, res, w)
    requires forall k :: 1 <= k < |w| ==> !IsSubsequenceOf(segments[w[0]].sections, segments[w[k]].sections)
    ensures InRange(res + [w[0]], |segments|) && InRange(w[1..], |segments|)
    ensures ContainersFirst(segments, res + [w[0]], w[1..])
    ensures IsOrdering(res + w, |segments|) ==> IsOrdering(res + [w[0]] + w[1..], |segments|)
  {
    hide IsSubsequenceOf;
    assert res + [w[0]] + w[1..] == res + w;
  }

  lemma Requeued(segments: seq<Segment>, res: seq<nat>, w: seq<nat>, k: nat)
    requires InRange(res, |segments|) && InRange(w, |segments|) && ContainersFirst(segments, res, w) && 0 < k < |w|
    requires IsSubsequenceOf(segments[w[0]].sections, segments[w[k]].sections)
    ensures InRange(w[1..] + [w[0]], |segments|) && ContainersFirst(segments, res, w[1..] + [w[0]])
    ensures IsOrdering(res + w, |segments|) ==> IsOrdering(res + (w[1..] + [w[0]]), |segments|)
    ensures Progress(segments, w[1..] + [w[0]]) < Progress(segments, w)
  {
    hide FirstLongest, Includes, IsOrdering, ContainersFirst;
    RequeueKeeps(segments, res, w);
    var l := Lengths(segments, w);
    assert Lengths(segments, w[1..] + [w[0]]) == l[1..] + [l[0]];
    RequeueAdvances(l, k);
  }

  lemma RequeueKeeps(segments: seq<Segment>, res: seq<nat>, w: seq<nat>)
    requires InRange(res, |segments|) && InRange(w, |segments|) && ContainersFirst(segments, res, w) && w != []
    ensures InRange(w[1..] + [w[0]], |segments|) && ContainersFirst(segments, res, w[1..] + [w[0]])
    ensures IsOrdering(res + w, |segments|) ==> IsOrdering(res + (w[1..] + [w[0]]), |segments|)
  {
    hide IsSubsequenceOf;
    HeadTail(w);
  }

  /** elfio.hpp:647-689: terminates, lists every segment once, and puts no segment before one that contains it. */
  method GetOrderedSegments(segments: seq<Segment>) returns (res: seq<nat>)
    ensures IsOrdering(res, |segments|) && InRange(res, |segments|)
    ensures forall i, j :: 0 <= i < j < |res| ==> !IsSubsequenceOf(segments[res[i]].sections, segments[res[j]].sections)
    ensures ZeroFirst(segments, res) && KeepsOrder(segments, res)
  {
    hide IsSubsequenceOf, Progress, IsOrdering, ContainersFirst, ZeroFirst, KeepsOrder;
    res := [];
    var worklist: seq<nat> := InitialWorklist(segments);
    assert res + worklist == worklist;
    NothingPlaced(segments, worklist);
    ZeroFirstAtStart(segments, worklist);
    OrderAtStart(segments, worklist);
    while worklist != []
      invariant InRange(worklist, |segments|) && InRange(res, |segments|)
      invariant IsOrdering(res + worklist, |segments|) && ContainersFirst(segments, res, worklist)
      invariant ZeroFirst(segments, res + worklist) && KeepsOrder(segments, res + worklist)
      decreases |worklist|, Progress(segments, worklist)
    {
      ghost var before := worklist;
      var seg: nat := worklist[0];
      worklist := worklist[1..];
      var i := FindContainer(segments, seg, worklist);
      if i < |worklist| {
        Requeued(segments, res, before, i + 1);
        ZeroStaysFirst(segments, res, before, i + 1);
        OrderStays(segments, res, before, i + 1);
        worklist := worklist + [seg];
      } else {
        Accepted(segments, res, before);
        assert res + [seg] + worklist == res + before;
        res := res + [seg];
      }
    }
    assert res + [] == res;
    EverythingPlaced(segments, res);
  }

  lemma ZeroFirstAtStart(segments: seq<Segment>, w: seq<nat>)
    requires InRange(w, |segments|)
    requires forall i, j :: 0 <= i < |w| && 0 <= j < |w| ==>
               StartsAtZero(segments[w[i]]) && segments[w[j]].offset != 0 ==> i < j
    ensures ZeroFirst(segments, w)
  {
    hide StartsAtZero, Uncontained;
  }

  lemma OrderAtStart(segments: seq<Segment>, w: seq<nat>)
    requires InRange(w, |segments|) && (NoneAtZero(segments) ==> w == Count(|segments|))
    ensures KeepsOrder(segments, w)
  {
    hide NoneAtZero, Uncontained;
  }

  lemma NothingPlaced(segments: seq<Segment>, w: seq<nat>)
    requires InRange(w, |segments|)
    ensures ContainersFirst(segments, [], w)
  {
  }

  lemma EverythingPlaced(segments: seq<Segment>, res: seq<nat>)
    requires InRange(res, |segments|) && ContainersFirst(segments, res, [])
    ensures forall i, j :: 0 <= i < j < |res| ==> !IsSubsequenceOf(segments[res[i]].sections, segments[res[j]].sections)
  {
    hide IsSubsequenceOf;
  }
}
