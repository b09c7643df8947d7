// Bottom-up merging of sequences: what one pass over a list does, and why repeating it sorts stably.
module StableSort {

  /** A total preorder on the elements of S. */
  predicate Preorder<T>(le: (T, T) -> bool, S: set<T>) {
    && (forall a, b :: a in S && b in S ==> le(a, b) || le(b, a))
    && (forall a, b, c :: a in S && b in S && c in S && le(a, b) && le(b, c) ==> le(a, c))
  }

  predicate From<T>(s: seq<T>, S: set<T>) {
    forall x :: x in s ==> x in S
  }

  predicate Sorted<T>(le: (T, T) -> bool, s: seq<T>) {
    forall i, j :: 0 <= i < j < |s| ==> le(s[i], s[j])
  }

  /** Merging, with a preference for `a` among equals. */
  function Merge<T>(le: (T, T) -> bool, a: seq<T>, b: seq<T>): (m: seq<T>)
    ensures |m| == |a| + |b|
    decreases |a| + |b|
  {
    if a == [] then b
    else if b == [] then a
    else if le(a[0], b[0]) then [a[0]] + Merge(le, a[1..], b)
    else [b[0]] + Merge(le, a, b[1..])
  }

  function Min(x: nat, y: nat): nat {
    if x < y then x else y
  }

  /** One pass: neighbouring runs of n elements are merged in pairs. */
  function Pass<T>(le: (T, T) -> bool, s: seq<T>, n: nat): (t: seq<T>)
    requires n > 0
    ensures |t| == |s|
    decreases |s|
  {
    if s == [] then []
    else
      var i, j := Min(n, |s|), Min(2 * n, |s|);
      Merge(le, s[..i], s[i..j]) + Pass(le, s[j..], n)
  }

  /** Cut into runs of n elements, the last one possibly shorter, every run is sorted. */
  predicate RunsSorted<T>(le: (T, T) -> bool, s: seq<T>, n: nat)
    requires n > 0
    decreases |s|
  {
    if |s| <= n then Sorted(le, s) else Sorted(le, s[..n]) && RunsSorted(le, s[n..], n)
  }

  /** The elements equivalent to x, in order. */
  function Class<T>(le: (T, T) -> bool, x: T, s: seq<T>): seq<T> {
    if s == [] then []
    else (if le(x, s[0]) && le(s[0], x) then [s[0]] else []) + Class(le, x, s[1..])
  }

  /** The result of a stable sort: sorted, and equivalent elements keep their order. */
  ghost predicate StablySorted<T>(le: (T, T) -> bool, s: seq<T>, t: seq<T>) {
    && Sorted(le, t) && multiset(t) == multiset(s)
    && forall x :: x in s ==> Class(le, x, t) == Class(le, x, s)
  }

  // Merging.

  lemma MergeStep<T>(le: (T, T) -> bool, a: seq<T>, b: seq<T>)
    ensures a == [] ==> Merge(le, a, b) == b
    ensures b == [] ==> Merge(le, a, b) == a
    ensures a != [] && b != [] && le(a[0], b[0]) ==> Merge(le, a, b) == [a[0]] + Merge(le, a[1..], b)
    ensures a != [] && b != [] && !le(a[0], b[0]) ==> Merge(le, a, b) == [b[0]] + Merge(le, a, b[1..])
  {
  }

  lemma {:induction false} MergeElements<T>(le: (T, T) -> bool, a: seq<T>, b: seq<T>)
    ensures multiset(Merge(le, a, b)) == multiset(a) + multiset(b)
    decreases |a| + |b|
  {
    hide Merge;
    MergeStep(le, a, b);
    if a != [] && b != [] {
      if le(a[0], b[0]) {
        MergeElements(le, a[1..], b);
        HeadElement(a);
      } else {
        MergeElements(le, a, b[1..]);
        HeadElement(b);
      }
    }
  }

  lemma HeadElement<T>(s: seq<T>)
    requires s != []
    ensures multiset(s) == multiset([s[0]]) + multiset(s[1..])
  {
    assert s == [s[0]] + s[1..];
  }

  lemma SortedTail<T>(le: (T, T) -> bool, s: seq<T>, i: nat)
    requires Sorted(le, s) && i <= |s|
    ensures Sorted(le, s[i..]) && Sorted(le, s[..i])
  {
  }

  /** Putting a lower bound in front of a sorted sequence. */
  lemma SortedCons<T>(le: (T, T) -> bool, x: T, s: seq<T>)
    requires Sorted(le, s) && forall y :: y in s ==> le(x, y)
    ensures Sorted(le, [x] + s)
  {
  }

  /** The head of a sorted sequence is a lower bound. */
  lemma HeadIsLeast<T>(le: (T, T) -> bool, S: set<T>, a: seq<T>, x: T, y: T)
    requires Preorder(le, S) && From(a, S) && x in S && Sorted(le, a) && a != [] && le(x, a[0]) && y in a
    ensures le(x, y)
  {
    var i :| 0 <= i < |a| && a[i] == y;
    assert a[0] in S && y in S;
  }

  /** A lower bound of a sorted sequence's head is a lower bound of all of it. */
  lemma BoundsAll<T>(le: (T, T) -> bool, S: set<T>, a: seq<T>, x: T)
    requires Preorder(le, S) && From(a, S) && x in S && Sorted(le, a) && (a != [] ==> le(x, a[0]))
    ensures forall y :: y in a ==> le(x, y)
  {
    forall y | y in a
      ensures le(x, y)
    {
      HeadIsLeast(le, S, a, x, y);
    }
  }

  lemma MergeBound<T>(le: (T, T) -> bool, a: seq<T>, b: seq<T>, x: T)
    requires (forall y :: y in a ==> le(x, y)) && (forall y :: y in b ==> le(x, y))
    ensures forall y :: y in Merge(le, a, b) ==> le(x, y)
  {
    hide Merge;
    MergeElements(le, a, b);
    forall y | y in Merge(le, a, b)
      ensures le(x, y)
    {
      assert y in multiset(Merge(le, a, b));
      assert y in multiset(a) || y in multiset(b);
    }
  }

  lemma {:induction false} MergeSorted<T>(le: (T, T) -> bool, S: set<T>, a: seq<T>, b: seq<T>)
    requires Preorder(le, S) && From(a, S) && From(b, S) && Sorted(le, a) && Sorted(le, b)
    ensures Sorted(le, Merge(le, a, b))
    decreases |a| + |b|
  {
    if a != [] && b != [] {
      assert a[0] in a && b[0] in b;
      if le(a[0], b[0]) {
        SortedTail(le, a, 1);
        MergeSorted(le, S, a[1..], b);
        BoundsAll(le, S, a, a[0]);
        BoundsAll(le, S, b, a[0]);
        MergeBound(le, a[1..], b, a[0]);
        SortedCons(le, a[0], Merge(le, a[1..], b));
      } else {
        SortedTail(le, b, 1);
        MergeSorted(le, S, a, b[1..]);
        BoundsAll(le, S, a, b[0]);
        BoundsAll(le, S, b, b[0]);
        MergeBound(le, a, b[1..], b[0]);
        SortedCons(le, b[0], Merge(le, a, b[1..]));
      }
    }
  }

  lemma ClassStep<T>(le: (T, T) -> bool, x: T, s: seq<T>)
    ensures s == [] ==> Class(le, x, s) == []
    ensures s != [] ==>
              Class(le, x, s) == (if le(x, s[0]) && le(s[0], x) then [s[0]] else []) + Class(le, x, s[1..])
  {
  }

  lemma {:induction false} ClassConcat<T>(le: (T, T) -> bool, x: T, a: seq<T>, b: seq<T>)
    ensures Class(le, x, a + b) == Class(le, x, a) + Class(le, x, b)
  {
    hide Class;
    ClassStep(le, x, a);
    ClassStep(le, x, a + b);
    if a == [] {
      assert a + b == b;
    } else {
      ClassConcat(le, x, a[1..], b);
      assert (a + b)[1..] == a[1..] + b;
    }
  }

  /** Nothing above y is equivalent to x when y is not below x. */
  lemma {:induction false} ClassAbove<T>(le: (T, T) -> bool, S: set<T>, x: T, y: T, a: seq<T>)
    requires Preorder(le, S) && From(a, S) && x in S && y in S && !le(y, x)
    requires forall z :: z in a ==> le(y, z)
    ensures Class(le, x, a) == []
  {
    if a != [] {
      assert a[0] in a;
      ClassAbove(le, S, x, y, a[1..]);
    }
  }

  /** A merge of sorted sequences keeps every class: first the members from `a`, then those from `b`. */
  lemma {:induction false} MergeClass<T>(le: (T, T) -> bool, S: set<T>, x: T, a: seq<T>, b: seq<T>)
    requires Preorder(le, S) && From(a, S) && From(b, S) && x in S && Sorted(le, a) && Sorted(le, b)
    ensures Class(le, x, Merge(le, a, b)) == Class(le, x, a) + Class(le, x, b)
    decreases |a| + |b|
  {
    hide Merge, Class, Preorder, Sorted;
    MergeStep(le, a, b);
    ClassStep(le, x, a);
    ClassStep(le, x, b);
    if a != [] && b != [] {
      if le(a[0], b[0]) {
        SortedTail(le, a, 1);
        MergeClass(le, S, x, a[1..], b);
        ClassCons(le, x, a[0], Merge(le, a[1..], b));
      } else {
        SortedTail(le, b, 1);
        MergeClass(le, S, x, a, b[1..]);
        ClassCons(le, x, b[0], Merge(le, a, b[1..]));
        assert a[0] in a && b[0] in b;
        if le(x, b[0]) && le(b[0], x) {
          LateEquals(le, S, x, a, b[0]);
        }
      }
    }
  }

  lemma ClassCons<T>(le: (T, T) -> bool, x: T, y: T, s: seq<T>)
    ensures Class(le, x, [y] + s) == (if le(x, y) && le(y, x) then [y] else []) + Class(le, x, s)
  {
    hide Class;
    ClassStep(le, x, [y] + s);
    assert ([y] + s)[1..] == s;
  }

  /** If y, equivalent to x, goes before the head of a, then a has no member equivalent to x. */
  lemma LateEquals<T>(le: (T, T) -> bool, S: set<T>, x: T, a: seq<T>, y: T)
    requires Preorder(le, S) && From(a, S) && x in S && y in S && Sorted(le, a) && a != []
    requires le(x, y) && le(y, x) && !le(a[0], y)
    ensures Class(le, x, a) == []
  {
    assert a[0] in a && le(a[0], a[0]);
    BoundsAll(le, S, a, a[0]);
    ClassAbove(le, S, x, a[0], a);
  }

  // One pass.

  lemma {:induction false} PassElements<T>(le: (T, T) -> bool, s: seq<T>, n: nat)
    requires n > 0
    ensures multiset(Pass(le, s, n)) == multiset(s)
    decreases |s|
  {
    hide Merge;
    if s != [] {
      var i, j := Min(n, |s|), Min(2 * n, |s|);
      PassElements(le, s[j..], n);
      MergeElements(le, s[..i], s[i..j]);
      PartElements(s, i, j);
      ConcatElements(Merge(le, s[..i], s[i..j]), Pass(le, s[j..], n));
    }
  }

  lemma PartElements<T>(s: seq<T>, i: nat, j: nat)
    requires i <= j <= |s|
    ensures multiset(s) == multiset(s[..i]) + multiset(s[i..j]) + multiset(s[j..])
  {
    assert s == s[..i] + s[i..j] + s[j..];
  }

  lemma ConcatElements<T>(s: seq<T>, t: seq<T>)
    ensures multiset(s + t) == multiset(s) + multiset(t)
  {
  }

  lemma FirstRun<T>(le: (T, T) -> bool, s: seq<T>, n: nat)
    requires n > 0 && RunsSorted(le, s, n)
    ensures var i := Min(n, |s|); Sorted(le, s[..i]) && RunsSorted(le, s[i..], n)
  {
    if |s| <= n {
      assert s[..|s|] == s;
    }
  }

  /** The first two runs, and the runs after them. */
  lemma FirstRuns<T>(le: (T, T) -> bool, s: seq<T>, n: nat)
    requires n > 0 && RunsSorted(le, s, n)
    ensures var i, j := Min(n, |s|), Min(2 * n, |s|);
            Sorted(le, s[..i]) && Sorted(le, s[i..j]) && RunsSorted(le, s[j..], n)
  {
    hide RunsSorted, Sorted;
    var i, j := Min(n, |s|), Min(2 * n, |s|);
    FirstRun(le, s, n);
    FirstRun(le, s[i..], n);
    Slices(s, i, j);
  }

  lemma Slices<T>(s: seq<T>, i: nat, j: nat)
    requires i <= j <= |s|
    ensures s[i..][..j - i] == s[i..j] && s[i..][j - i..] == s[j..]
  {
  }

  lemma {:induction false} PassClass<T>(le: (T, T) -> bool, S: set<T>, x: T, s: seq<T>, n: nat)
    requires n > 0 && Preorder(le, S) && From(s, S) && x in S && RunsSorted(le, s, n)
    ensures Class(le, x, Pass(le, s, n)) == Class(le, x, s)
    decreases |s|
  {
    hide Class, Merge, RunsSorted, Sorted, Preorder;
    if s != [] {
      var i, j := Min(n, |s|), Min(2 * n, |s|);
      FirstRuns(le, s, n);
      PassClass(le, S, x, s[j..], n);
      MergeClass(le, S, x, s[..i], s[i..j]);
      ThreeParts(le, x, s, i, j);
      ClassConcat(le, x, Merge(le, s[..i], s[i..j]), Pass(le, s[j..], n));
    }
  }

  lemma ThreeParts<T>(le: (T, T) -> bool, x: T, s: seq<T>, i: nat, j: nat)
    requires i <= j <= |s|
    ensures Class(le, x, s) == Class(le, x, s[..i]) + Class(le, x, s[i..j]) + Class(le, x, s[j..])
  {
    hide Class;
    ThreeSlices(s, i, j);
    ThreeConcat(le, x, s[..i], s[i..j], s[j..]);
  }

  lemma ThreeSlices<T>(s: seq<T>, i: nat, j: nat)
    requires i <= j <= |s|
    ensures s == s[..i] + s[i..j] + s[j..]
  {
  }

  lemma ThreeConcat<T>(le: (T, T) -> bool, x: T, a: seq<T>, b: seq<T>, c: seq<T>)
    ensures Class(le, x, a + b + c) == Class(le, x, a) + Class(le, x, b) + Class(le, x, c)
  {
    hide Class;
    ClassConcat(le, x, a + b, c);
    ClassConcat(le, x, a, b);
  }

  lemma {:induction false} PassRuns<T>(le: (T, T) -> bool, S: set<T>, s: seq<T>, n: nat)
    requires n > 0 && Preorder(le, S) && From(s, S) && RunsSorted(le, s, n)
    ensures RunsSorted(le, Pass(le, s, n), 2 * n)
    decreases |s|
  {
    if s != [] {
      var i, j := Min(n, |s|), Min(2 * n, |s|);
      var m, rest := Merge(le, s[..i], s[i..j]), Pass(le, s[j..], n);
      FirstRuns(le, s, n);
      PassRuns(le, S, s[j..], n);
      MergeSorted(le, S, s[..i], s[i..j]);
      if |s| <= 2 * n {
        assert m + rest == m;
      } else {
        assert (m + rest)[..2 * n] == m && (m + rest)[2 * n..] == rest;
      }
    }
  }

  lemma {:induction false} SingletonRuns<T>(le: (T, T) -> bool, s: seq<T>)
    ensures RunsSorted(le, s, 1)
  {
    if |s| > 1 {
      SingletonRuns(le, s[1..]);
    }
  }

  /** A state on the way from s to its stable sort: a rearrangement that keeps classes, with runs of n sorted. */
  ghost predicate Halfway<T>(le: (T, T) -> bool, s: seq<T>, t: seq<T>, n: nat)
    requires n > 0
  {
    && RunsSorted(le, t, n) && multiset(t) == multiset(s)
    && forall x :: x in s ==> Class(le, x, t) == Class(le, x, s)
  }

  lemma HalfwayStart<T>(le: (T, T) -> bool, s: seq<T>)
    ensures Halfway(le, s, s, 1)
  {
    SingletonRuns(le, s);
  }

  lemma HalfwayCells<T>(le: (T, T) -> bool, s: seq<T>, t: seq<T>, n: nat)
    requires n > 0 && Halfway(le, s, t, n)
    ensures multiset(s) == multiset(t)
  {
  }

  lemma HalfwayStep<T>(le: (T, T) -> bool, S: set<T>, s: seq<T>, t: seq<T>, n: nat)
    requires n > 0 && Preorder(le, S) && From(s, S) && Halfway(le, s, t, n)
    ensures Halfway(le, s, Pass(le, t, n), 2 * n) && From(t, S)
  {
    forall x | x in t
      ensures x in s
    {
      assert x in multiset(t);
    }
    PassElements(le, t, n);
    PassRuns(le, S, t, n);
    forall x | x in s
      ensures Class(le, x, Pass(le, t, n)) == Class(le, x, s)
    {
      PassClass(le, S, x, t, n);
    }
  }

  /** A stable sort is determined by what it must satisfy. */
  lemma {:induction false} StableSortUnique<T>(le: (T, T) -> bool, S: set<T>, s: seq<T>, t: seq<T>, u: seq<T>)
    requires Preorder(le, S) && From(s, S) && StablySorted(le, s, t) && StablySorted(le, s, u)
    ensures t == u
  {
    SameClasses(le, S, t, u) by {
      forall x | x in t || x in u
        ensures x in s
      {
        assert x in multiset(t) || x in multiset(u);
      }
    }
  }

  lemma {:induction false} SameClasses<T>(le: (T, T) -> bool, S: set<T>, t: seq<T>, u: seq<T>)
    requires Preorder(le, S) && From(t, S) && From(u, S) && Sorted(le, t) && Sorted(le, u) && |t| == |u|
    requires forall x :: x in t || x in u ==> Class(le, x, t) == Class(le, x, u)
    ensures t == u
  {
    if t != [] {
      var a, b := t[0], u[0];
      assert a in t && b in u;
      HeadBelow(le, S, t, b);
      HeadBelow(le, S, u, a);
      assert Class(le, a, t)[0] == a && Class(le, a, u)[0] == b;
      assert a == b;
      SortedTail(le, t, 1);
      SortedTail(le, u, 1);
      forall x | x in t[1..] || x in u[1..]
        ensures Class(le, x, t[1..]) == Class(le, x, u[1..])
      {
        assert x in t || x in u;
        var p := if le(x, a) && le(a, x) then [a] else [];
        assert Class(le, x, t) == p + Class(le, x, t[1..]) && Class(le, x, u) == p + Class(le, x, u[1..]);
        assert Class(le, x, t)[|p|..] == Class(le, x, t[1..]) && Class(le, x, u)[|p|..] == Class(le, x, u[1..]);
      }
      SameClasses(le, S, t[1..], u[1..]);
      assert t == [a] + t[1..] && u == [a] + u[1..];
    }
  }

  /** If t has a member equivalent to x, its head is below x. */
  lemma HeadBelow<T>(le: (T, T) -> bool, S: set<T>, t: seq<T>, x: T)
    requires Preorder(le, S) && From(t, S) && Sorted(le, t) && x in S && Class(le, x, t) != []
    ensures t != [] && le(t[0], x)
  {
    var y := ClassMember(le, x, t);
    assert t[0] in t;
    HeadIsLeast(le, S, t, t[0], y);
  }

  lemma {:induction false} ClassMember<T>(le: (T, T) -> bool, x: T, t: seq<T>) returns (y: T)
    requires Class(le, x, t) != []
    ensures y in t && le(x, y) && le(y, x)
  {
    if le(x, t[0]) && le(t[0], x) {
      y := t[0];
    } else {
      y := ClassMember(le, x, t[1..]);
    }
  }

  ghost predicate NoRepeats<T>(s: seq<T>) {
    forall i, j :: 0 <= i < j < |s| ==> s[i] != s[j]
  }

  ghost predicate Antisymmetric<T>(le: (T, T) -> bool, S: set<T>) {
    forall a, b :: a in S && b in S && le(a, b) && le(b, a) ==> a == b
  }

  lemma {:induction false} ClassOfStrict<T>(le: (T, T) -> bool, S: set<T>, x: T, s: seq<T>)
    requires Preorder(le, S) && Antisymmetric(le, S) && From(s, S) && x in S && NoRepeats(s)
    ensures Class(le, x, s) == if x in s then [x] else []
  {
    if s != [] {
      assert s[0] in s && le(x, x);
      ClassOfStrict(le, S, x, s[1..]);
      assert x in s <==> x == s[0] || x in s[1..];
    }
  }

  /** When no two elements compare equal, sorting any rearrangement brings back the sorted original. */
  lemma SortRestores<T>(le: (T, T) -> bool, S: set<T>, u: seq<T>, s: seq<T>, t: seq<T>)
    requires Preorder(le, S) && Antisymmetric(le, S) && From(u, S) && NoRepeats(u) && NoRepeats(s) && Sorted(le, u)
    requires multiset(s) == multiset(u) && StablySorted(le, s, t)
    ensures t == u
  {
    forall x | x in s
      ensures x in u && x in S
    {
      assert x in multiset(s);
    }
    forall x | x in s
      ensures Class(le, x, u) == Class(le, x, s)
    {
      ClassOfStrict(le, S, x, u);
      ClassOfStrict(le, S, x, s);
    }
    StableSortUnique(le, S, s, t, u);
  }
}
