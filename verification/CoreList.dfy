// core_list_join.c: the linked list of the CoreMark benchmark, sorted and changed in place.
module CoreList {
  import opened MachineInts
  import opened IntFacts
  import opened StableSort
  import opened CoreCells

  /** core_list_join.c:441-447: `n` places along, or to the end. */
  method StepAlong(p: ListHead, n: nat, ghost s: seq<ListHead>, ghost start: nat) returns (q: ListHead?, psize: nat)
    requires n > 0 && start < |s| && p == s[start] && LinkedFrom(s, start)
    ensures psize == Min(n, |s| - start) && q == At(s, start + psize)
  {
    q := p;
    psize := 0;
    var i := 0;
    while i < n
      invariant 0 <= i <= n && psize == i && start + i < |s| && q == s[start + i]
    {
      psize := psize + 1;
      q := q.next;
      if q == null {
        break;
      }
      i := i + 1;
    }
  }

  /** The cells of `out` come from s[..a] or from s[b..c]. */
  ghost predicate TakenFrom(out: seq<ListHead>, s: seq<ListHead>, a: nat, b: nat, c: nat)
    requires a <= b <= c <= |s|
  {
    forall x :: x in out ==> x in s[..a] || x in s[b..c]
  }

  lemma TakeFirst(out: seq<ListHead>, s: seq<ListHead>, a: nat, b: nat, c: nat)
    requires a < b <= c <= |s| && Distinct(s) && TakenFrom(out, s, a, b, c)
    ensures s[a] !in out && TakenFrom(out + [s[a]], s, a + 1, b, c)
  {
    assert s[..a + 1] == s[..a] + [s[a]];
  }

  lemma TakeSecond(out: seq<ListHead>, s: seq<ListHead>, a: nat, b: nat, c: nat)
    requires a <= b <= c < |s| && Distinct(s) && TakenFrom(out, s, a, b, c)
    ensures s[c] !in out && TakenFrom(out + [s[c]], s, a, b, c + 1)
  {
    assert s[b..c + 1] == s[b..c] + [s[c]];
  }

  /** core_list_join.c:471-476: the next cell of the merged list. */
  method Append(list: ListHead?, tail: ListHead?, e: ListHead, ghost out: seq<ListHead>) returns (list': ListHead)
    requires Chain(list, tail, out) && e !in out
    modifies (if tail == null then {} else {tail})`next
    ensures Chain(list', e, out + [e])
  {
    if tail != null {
      tail.next := e;
      list' := list;
    } else {
      list' := e;
    }
  }

  /** The cells not yet taken are linked as they were. */
  ghost predicate Intact(s: seq<ListHead>, a: nat, b: nat, c: nat)
    requires b <= |s|
    reads s
  {
    forall i :: a <= i < b || c <= i < |s| ==> s[i].next == At(s, i + 1)
  }

  method AppendFirst(list: ListHead?, tail: ListHead?, ghost out: seq<ListHead>, e: ListHead,
                     ghost s: seq<ListHead>, ghost a: nat, ghost b: nat, ghost c: nat, ghost g: Setting) returns (list': ListHead)
    requires a < b <= c <= |s| && Distinct(s) && e == s[a]
    requires Chain(list, tail, out) && TakenFrom(out, s, a, b, c) && Intact(s, a, b, c)
    requires Holds(g)
    modifies s`next
    ensures Holds(g) && Words(g) == old(Words(g))
    ensures Chain(list', e, out + [e]) && TakenFrom(out + [e], s, a + 1, b, c) && Intact(s, a + 1, b, c)
  {
    TakeFirst(out, s, a, b, c);
    assert tail != null ==> tail in out && tail in s;
    list' := Append(list, tail, e, out);
  }

  method AppendSecond(list: ListHead?, tail: ListHead?, ghost out: seq<ListHead>, e: ListHead,
                      ghost s: seq<ListHead>, ghost a: nat, ghost b: nat, ghost c: nat, ghost g: Setting) returns (list': ListHead)
    requires a <= b <= c < |s| && Distinct(s) && e == s[c]
    requires Chain(list, tail, out) && TakenFrom(out, s, a, b, c) && Intact(s, a, b, c)
    requires Holds(g)
    modifies s`next
    ensures Holds(g) && Words(g) == old(Words(g))
    ensures Chain(list', e, out + [e]) && TakenFrom(out + [e], s, a, b, c + 1) && Intact(s, a, b, c + 1)
  {
    TakeSecond(out, s, a, b, c);
    assert tail != null ==> tail in out && tail in s;
    list' := Append(list, tail, e, out);
  }

  /** What is still to come: the merge of the untaken parts of two runs. */
  ghost function Remaining(le: (ListHead, ListHead) -> bool, s: seq<ListHead>, a: nat, b: nat, c: nat, d: nat): seq<ListHead>
    requires a <= b <= c <= d <= |s|
  {
    Merge(le, s[a..b], s[c..d])
  }

  lemma RemainingNothing(le: (ListHead, ListHead) -> bool, s: seq<ListHead>, b: nat, d: nat)
    requires b <= d <= |s|
    ensures Remaining(le, s, b, b, d, d) == []
  {
  }

  /** Taking the cell that the code takes leaves the rest of the merge to be appended. */
  lemma MergeTakes(le: (ListHead, ListHead) -> bool, s: seq<ListHead>, a: nat, b: nat, c: nat, d: nat,
                   first: bool, out: seq<ListHead>)
    requires a <= b <= c <= d <= |s| && (a < b || c < d)
    requires first <==> a < b && (c == d || le(s[a], s[c]))
    ensures first ==> out + Remaining(le, s, a, b, c, d) == out + [s[a]] + Remaining(le, s, a + 1, b, c, d)
    ensures !first ==> out + Remaining(le, s, a, b, c, d) == out + [s[c]] + Remaining(le, s, a, b, c + 1, d)
  {
    hide Merge;
    MergeStep(le, s[a..b], s[c..d]);
    if first {
      assert s[a..b][1..] == s[a + 1..b];
      MergeStep(le, s[a + 1..b], s[c..d]);
    } else {
      assert s[c..d][1..] == s[c + 1..d];
      MergeStep(le, s[a..b], s[c + 1..d]);
    }
  }

  lemma NextIntact(s: seq<ListHead>, a: nat, b: nat, c: nat)
    requires b <= |s| && Intact(s, a, b, c)
    ensures a < b ==> s[a].next == At(s, a + 1)
    ensures c < |s| ==> s[c].next == At(s, c + 1)
  {
  }

  /** The two cells that a merge of non-empty runs certainly compares. */
  ghost predicate BothTouched(g: Setting, w: map<ListData, int16>, w': map<ListData, int16>, x: ListHead, y: ListHead) {
    && x in g.info && y in g.info && g.info[x] in w && g.info[y] in w && w.Keys == w'.Keys
    && Touched(g.c, w[g.info[x]], w'[g.info[x]]) && Touched(g.c, w[g.info[y]], w'[g.info[y]])
  }

  /** What a comparison has answered, in terms of the words afterwards. */
  ghost predicate Answered(g: Setting, w: map<ListData, int16>, a: ListData, b: ListData, r: int) {
    && (g.c.Fixed? && a in g.index && b in g.index && a in g.words && b in g.words ==> r == g.c.order(Seen(g, a), Seen(g, b)))
    && (g.c.ByIdx? && a in g.index && b in g.index ==> r == (g.index[a] as int) - (g.index[b] as int))
    && a in g.index && b in g.index
    && (g.c.ByValue? ==> a in w && b in w && Cached(w[a]) && Cached(w[b]) && r == Value(w[a]) - Value(w[b]))
  }

  lemma KeyOf(g: Setting, w: map<ListData, int16>, v: seq<int>, i: nat)
    requires Allowed(g, w, v) && i < |g.cells| && g.cells[i] in g.info && g.info[g.cells[i]] in w
    ensures |v| == |g.cells|
    ensures g.c.ByIdx? && g.info[g.cells[i]] in g.index ==> v[i] == g.index[g.info[g.cells[i]]]
    ensures g.c.ByValue? && g.info[g.cells[i]] in g.index && Cached(w[g.info[g.cells[i]]]) ==> v[i] == Value(w[g.info[g.cells[i]]])
  {
  }

  lemma AnswerIsOrder(g: Setting, w: map<ListData, int16>, x: ListHead, y: ListHead, r: int)
    requires x in g.cells && y in g.cells && Holds(g) && w == Words(g)
    requires Answered(g, w, x.info, y.info, r)
    ensures forall v: seq<int> :: Allowed(g, w, v) ==> (Order(g, v)(x, y) <==> r <= 0)
  {
    hide Cached, Value, Allowed;
    var i, j :| 0 <= i < |g.cells| && 0 <= j < |g.cells| && g.cells[i] == x && g.cells[j] == y;
    forall v: seq<int> | Allowed(g, w, v)
      ensures Order(g, v)(x, y) <==> r <= 0
    {
      assert g.place[x] == i && g.place[y] == j;
      KeyCount(g, w, v);
      assert !g.c.Fixed? ==> r == v[i] - v[j] by {
        KeyOf(g, w, v, i);
        KeyOf(g, w, v, j);
      }
    }
  }

  method CompareCells(c: Comparison, x: ListHead, y: ListHead, ghost g: Setting) returns (r: int)
    requires g.c == c && Holds(g) && x in g.cells && y in g.cells
    modifies g.info.Values`data16, Scratch(c)
    ensures Holds(g) && Later(g, old(Words(g)), Words(g)) && BothTouched(g, old(Words(g)), Words(g), x, y)
    ensures Answered(g, Words(g), x.info, y.info, r)
  {
    hide Touched, Cached, Value, Later, Answered, BothTouched, Holds, Words, Seen;
    ghost var w := Words(g);
    CellData(g, x);
    CellData(g, y);
    r := CompareData(c, x.info, y.info, g);
    TwoTouched(g, w, Words(g), x, y);
    AnswerKept(g, Words(g), x.info, y.info, r);
  }

  /** The comparison itself, in terms of the setting. */
  method CompareData(c: Comparison, a: ListData, b: ListData, ghost g: Setting) returns (r: int)
    requires g.c == c && Holds(g) && a in g.info.Values && b in g.info.Values
    requires a in g.index && b in g.index && g.index[a] == a.idx && g.index[b] == b.idx
    requires c.Fixed? ==> a in g.words && b in g.words && ItemOf(a) == Seen(g, a) && ItemOf(b) == Seen(g, b)
    modifies g.info.Values`data16, Scratch(c)
    ensures Holds(g)
    ensures c.Fixed? ==> r == c.order(Seen(g, a), Seen(g, b))
    ensures c.ByIdx? ==> r == (g.index[a] as int) - (g.index[b] as int)
    ensures c.ByValue? ==> Cached(a.data16) && Cached(b.data16) && r == Value(a.data16) - Value(b.data16)
    ensures Touched(c, old(a.data16), a.data16) && Touched(c, old(b.data16), b.data16)
    ensures forall d :: d in g.info.Values && d != a && d != b ==> d.data16 == old(d.data16)
  {
    hide Touched, Cached, Value;
    r := Compare(c, a, b);
  }

  lemma CellData(g: Setting, x: ListHead)
    requires Holds(g) && x in g.cells
    ensures x in g.info && x.info == g.info[x] && x.info in g.info.Values && x.info in Words(g)
    ensures x.info in g.index && g.index[x.info] == x.info.idx
    ensures g.c.Fixed? ==> x.info in g.words && ItemOf(x.info) == Seen(g, x.info)
  {
  }

  /** One comparison: the words afterwards, and what every set of keys that is still allowed says. */
  method Ask(c: Comparison, x: ListHead, y: ListHead, ghost g: Setting) returns (first: bool)
    requires g.c == c && Holds(g) && x in g.cells && y in g.cells
    modifies g.info.Values`data16, Scratch(c)
    ensures Holds(g) && Later(g, old(Words(g)), Words(g)) && BothTouched(g, old(Words(g)), Words(g), x, y)
    ensures forall v: seq<int> :: Allowed(g, Words(g), v) ==> (Order(g, v)(x, y) <==> first)
  {
    hide Allowed, Order, Later, Answered, BothTouched, Holds, Words;
    var r := CompareCells(c, x, y, g);
    first := r <= 0;
    AnswerIsOrder(g, Words(g), x, y, r);
  }

  lemma TwoTouched(g: Setting, w: map<ListData, int16>, w': map<ListData, int16>, x: ListHead, y: ListHead)
    requires w.Keys == w'.Keys && x in g.info && y in g.info && g.info[x] in w && g.info[y] in w
    requires forall d :: d in w && d != g.info[x] && d != g.info[y] ==> w'[d] == w[d]
    requires Touched(g.c, w[g.info[x]], w'[g.info[x]]) && Touched(g.c, w[g.info[y]], w'[g.info[y]])
    ensures Later(g, w, w') && BothTouched(g, w, w', x, y)
  {
    hide Touched;
  }

  lemma AnswerKept(g: Setting, w: map<ListData, int16>, a: ListData, b: ListData, r: int)
    requires a in g.index && b in g.index && a in w && b in w
    requires g.c.Fixed? ==> a in g.words && b in g.words && r == g.c.order(Seen(g, a), Seen(g, b))
    requires g.c.ByIdx? ==> r == (g.index[a] as int) - (g.index[b] as int)
    requires g.c.ByValue? ==> Cached(w[a]) && Cached(w[b]) && r == Value(w[a]) - Value(w[b])
    ensures Answered(g, w, a, b, r)
  {
  }

  /** The outcome of merging the rest of two runs, whichever keys turn out to be right. */
  ghost predicate Merges(g: Setting, w: map<ListData, int16>, s: seq<ListHead>, start: nat, a: nat, b: nat, c: nat, d: nat,
                         out0: seq<ListHead>, out: seq<ListHead>)
    requires start <= a <= b <= c <= d <= |s|
  {
    forall v: seq<int> :: Allowed(g, w, v) ==>
      out + Remaining(Order(g, v), s, a, b, c, d) == out0 + Remaining(Order(g, v), s, start, b, b, d)
  }

  lemma MergesStart(g: Setting, w: map<ListData, int16>, s: seq<ListHead>, start: nat, b: nat, d: nat, out: seq<ListHead>)
    requires start <= b <= d <= |s|
    ensures Merges(g, w, s, start, start, b, b, d, out, out)
  {
  }

  /** Whatever the comparison answers, the cell taken is the right one for all keys that are still allowed. */
  lemma MergesStep(g: Setting, w: map<ListData, int16>, w': map<ListData, int16>, s: seq<ListHead>, start: nat, a: nat,
                   b: nat, c: nat, d: nat, out0: seq<ListHead>, out: seq<ListHead>, first: bool)
    requires start <= a <= b <= c <= d <= |s| && (a < b || c < d)
    requires Later(g, w, w') && Merges(g, w, s, start, a, b, c, d, out0, out)
    requires if a == b then !first else if c == d then first
             else forall v: seq<int> :: Allowed(g, w', v) ==> (Order(g, v)(s[a], s[c]) <==> first)
    ensures first ==> a < b && Merges(g, w', s, start, a + 1, b, c, d, out0, out + [s[a]])
    ensures !first ==> c < d && Merges(g, w', s, start, a, b, c + 1, d, out0, out + [s[c]])
  {
    hide Allowed, Remaining, Order, Later;
    forall v: seq<int> | Allowed(g, w', v)
      ensures first ==> out + [s[a]] + Remaining(Order(g, v), s, a + 1, b, c, d) == out0 + Remaining(Order(g, v), s, start, b, b, d)
      ensures !first ==> out + [s[c]] + Remaining(Order(g, v), s, a, b, c + 1, d) == out0 + Remaining(Order(g, v), s, start, b, b, d)
    {
      AllowedEarlier(g, w, w', v);
      MergeTakes(Order(g, v), s, a, b, c, d, first, out);
    }
  }

  lemma MergesDone(g: Setting, w: map<ListData, int16>, s: seq<ListHead>, start: nat, b: nat, d: nat,
                   out0: seq<ListHead>, out: seq<ListHead>)
    requires start <= b <= d <= |s| && Merges(g, w, s, start, b, b, d, d, out0, out)
    ensures forall v: seq<int> :: Allowed(g, w, v) ==> out == out0 + Merge(Order(g, v), s[start..b], s[b..d])
  {
    hide Allowed, Order;
    forall v: seq<int> | Allowed(g, w, v)
      ensures out == out0 + Merge(Order(g, v), s[start..b], s[b..d])
    {
      RemainingNothing(Order(g, v), s, b, d);
      assert out + [] == out;
    }
  }

  /** core_list_join.c:462: both runs have cells left, and the comparison decides. */
  method AskNext(p: ListHead, q: ListHead, c: Comparison, ghost g: Setting, ghost s: seq<ListHead>,
                 ghost start: nat, ghost a: nat, ghost b: nat, ghost e: nat, ghost d: nat, ghost out0: seq<ListHead>,
                 ghost out: seq<ListHead>, ghost w0: map<ListData, int16>, ghost w: map<ListData, int16>)
    returns (first: bool)
    requires g.c == c && Holds(g) && forall x :: x in s <==> x in g.cells
    requires start <= a < b <= e < d <= |s| && p == s[a] && q == s[e]
    requires w == Words(g) && Later(g, w0, w) && Merges(g, w, s, start, a, b, e, d, out0, out)
    requires (a == start && e == b) || BothTouched(g, w0, w, s[start], s[b])
    modifies g.info.Values`data16, Scratch(c)
    ensures Holds(g) && Later(g, w0, Words(g)) && BothTouched(g, w0, Words(g), s[start], s[b])
    ensures if first then Merges(g, Words(g), s, start, a + 1, b, e, d, out0, out + [s[a]])
            else Merges(g, Words(g), s, start, a, b, e + 1, d, out0, out + [s[e]])
  {
    hide Remaining, Order, Merges, Allowed, Touched, Later, Words, Holds, BothTouched;
    InCells(g, s, a);
    InCells(g, s, e);
    InCells(g, s, start);
    InCells(g, s, b);
    first := Ask(c, p, q, g);
    TouchedSince(g, w0, w, Words(g), s[start], s[b], s[a], s[e]);
    MergesStep(g, w, Words(g), s, start, a, b, e, d, out0, out, first);
  }

  /** core_list_join.c:452-466: which run the next cell comes from. */
  method Decide(p: ListHead?, q: ListHead?, psize: nat, qsize: nat, c: Comparison, ghost g: Setting, ghost s: seq<ListHead>,
                ghost start: nat, ghost a: nat, ghost b: nat, ghost e: nat, ghost d: nat,
                ghost list: ListHead?, ghost tail: ListHead?, ghost out0: seq<ListHead>, ghost out: seq<ListHead>,
                ghost w0: map<ListData, int16>, ghost w: map<ListData, int16>)
    returns (first: bool, ghost w': map<ListData, int16>)
    requires b <= |s| && Intact(s, a, b, e) && Chain(list, tail, out)
    requires g.c == c && Holds(g) && forall x :: x in s <==> x in g.cells
    requires start < b && start <= a <= b <= e <= d <= |s| && psize == b - a && (psize > 0 ==> p == s[a])
    requires (qsize == 0 || q == null <==> e == d) && (e < d ==> q == s[e]) && (a < b || e < d)
    requires w == Words(g) && Later(g, w0, w) && Merges(g, w, s, start, a, b, e, d, out0, out)
    requires if b == d then w == w0 else (a == start && e == b) || BothTouched(g, w0, w, s[start], s[b])
    modifies g.info.Values`data16, Scratch(c)
    ensures Intact(s, a, b, e) && Chain(list, tail, out)
    ensures Holds(g) && w' == Words(g) && Later(g, w0, w')
    ensures if first then a < b && Merges(g, w', s, start, a + 1, b, e, d, out0, out + [s[a]])
            else e < d && Merges(g, w', s, start, a, b, e + 1, d, out0, out + [s[e]])
    ensures if b == d then w' == w0 else BothTouched(g, w0, w', s[start], s[b])
  {
    hide Remaining, Order, Merges, Allowed, Touched, Later, Words, Holds, BothTouched, Intact, Chain;
    w' := w;
    if psize == 0 {
      first := false;
      Forced(g, w, s, start, a, b, e, d, out0, out, first);
    } else if qsize == 0 || q == null {
      first := true;
      Forced(g, w, s, start, a, b, e, d, out0, out, first);
    } else {
      first := AskNext(p, q, c, g, s, start, a, b, e, d, out0, out, w0, w);
      w' := Words(g);
    }
  }

  lemma InCells(g: Setting, s: seq<ListHead>, i: nat)
    requires Holds(g) && i < |s| && forall x :: x in s <==> x in g.cells
    ensures s[i] in g.cells && s[i] in g.info && g.info[s[i]] in Words(g) && s[i].info == g.info[s[i]]
  {
    assert s[i] in g.cells;
  }

  /** If one of the runs is used up nothing needs to be asked. */
  lemma Forced(g: Setting, w: map<ListData, int16>, s: seq<ListHead>, start: nat, a: nat, b: nat, e: nat, d: nat,
               out0: seq<ListHead>, out: seq<ListHead>, first: bool)
    requires start <= a <= b <= e <= d <= |s| && (a < b || e < d) && Merges(g, w, s, start, a, b, e, d, out0, out)
    requires if a == b then !first else first && e == d
    ensures first ==> a < b && Merges(g, w, s, start, a + 1, b, e, d, out0, out + [s[a]])
    ensures !first ==> e < d && Merges(g, w, s, start, a, b, e + 1, d, out0, out + [s[e]])
  {
    hide Merges;
    NothingLater(g, w);
    MergesStep(g, w, w, s, start, a, b, e, d, out0, out, first);
  }

  /** core_list_join.c:455-476: the next cell is taken from its run and added to the merged list. */
  method TakeNext(first: bool, p: ListHead?, q: ListHead?, psize: nat, qsize: nat, list: ListHead?, tail: ListHead?,
                  ghost out: seq<ListHead>, ghost s: seq<ListHead>, ghost a: nat, ghost b: nat, ghost e: nat, ghost g: Setting)
    returns (p': ListHead?, q': ListHead?, psize': nat, qsize': nat, list': ListHead, tail': ListHead,
             ghost a': nat, ghost e': nat)
    requires a <= b <= e <= |s| && psize == b - a && (psize > 0 ==> p == s[a]) && q == At(s, e)
    requires if first then a < b else e < |s| && qsize > 0
    requires Distinct(s) && Intact(s, a, b, e) && Chain(list, tail, out) && TakenFrom(out, s, a, b, e) && Holds(g)
    modifies s`next
    ensures a' == (if first then a + 1 else a) && e' == if first then e else e + 1
    ensures psize' == b - a' && qsize' == qsize - (e' - e) && (psize' > 0 ==> p' == s[a']) && q' == At(s, e')
    ensures tail' == if first then s[a] else s[e]
    ensures Intact(s, a', b, e') && Chain(list', tail', out + [tail']) && TakenFrom(out + [tail'], s, a', b, e')
    ensures Holds(g) && Words(g) == old(Words(g))
  {
    hide Chain, TakenFrom, Distinct, Intact, Words, Holds;
    p', q', psize', qsize', a', e' := p, q, psize, qsize, a, e;
    NextIntact(s, a, b, e);
    if first {
      tail' := p;
      p' := p.next;
      psize' := psize - 1;
      list' := AppendFirst(list, tail, out, tail', s, a, b, e, g);
      a' := a + 1;
    } else {
      tail' := q;
      q' := q.next;
      qsize' := qsize - 1;
      list' := AppendSecond(list, tail, out, tail', s, a, b, e, g);
      e' := e + 1;
    }
  }

  /** core_list_join.c:450-477: merges the run of psize cells at p with the run of up to n cells at q. */
  method MergeRuns(p0: ListHead, q0: ListHead?, psize0: nat, n: nat, list0: ListHead?, tail0: ListHead?, c: Comparison,
                   ghost g: Setting, ghost s: seq<ListHead>, ghost start: nat, ghost out0: seq<ListHead>)
    returns (q: ListHead?, list: ListHead?, tail: ListHead?, ghost out: seq<ListHead>)
    requires n > 0 && start < |s| && Distinct(s) && LinkedFrom(s, start) && psize0 == Min(n, |s| - start)
    requires p0 == s[start] && q0 == At(s, start + psize0)
    requires Chain(list0, tail0, out0) && TakenFrom(out0, s, start, start, start)
    requires g.c == c && Holds(g) && forall x :: x in s <==> x in g.cells
    modifies s`next, g.info.Values`data16, Scratch(c)
    ensures Holds(g) && Later(g, old(Words(g)), Words(g))
    ensures var i, j := start + Min(n, |s| - start), start + Min(2 * n, |s| - start);
            && q == At(s, j) && LinkedFrom(s, j)
            && Chain(list, tail, out) && TakenFrom(out, s, j, j, j)
            && (if i == j then Words(g) == old(Words(g)) else BothTouched(g, old(Words(g)), Words(g), s[start], s[i]))
            && forall v: seq<int> :: Allowed(g, Words(g), v) ==> out == out0 + Merge(Order(g, v), s[start..i], s[i..j])
  {
    hide Chain, TakenFrom, Remaining, Distinct, Order, Intact, Merge, LinkedFrom, Merges, Allowed, Touched, Later, Words,
         Holds, BothTouched;
    ghost var b, d := start + psize0, start + Min(2 * n, |s| - start);
    ghost var a, e, w0 := start, b, Words(g);
    ghost var w := w0;
    var p: ListHead?, psize, qsize := p0, psize0, n;
    q, list, tail, out := q0, list0, tail0, out0;
    StartTaking(out0, s, start, b);
    MergesStart(g, w0, s, start, b, d, out0);
    NothingLater(g, w0);
    while psize > 0 || (qsize > 0 && q != null)
      invariant start <= a <= b <= e <= d && psize == b - a && qsize == n - (e - b)
      invariant (psize > 0 ==> p == s[a]) && q == At(s, e)
      invariant Intact(s, a, b, e) && Chain(list, tail, out) && TakenFrom(out, s, a, b, e)
      invariant Holds(g) && w == Words(g) && Later(g, w0, w) && Merges(g, w, s, start, a, b, e, d, out0, out)
      invariant if b == d then w == w0 else (a == start && e == b) || BothTouched(g, w0, w, s[start], s[b])
      decreases psize + d - e
    {
      var first;
      first, w := Decide(p, q, psize, qsize, c, g, s, start, a, b, e, d, list, tail, out0, out, w0, w);
      p, q, psize, qsize, list, tail, a, e := TakeNext(first, p, q, psize, qsize, list, tail, out, s, a, b, e, g);
      out := out + [tail];
    }
    StopTaking(out, s, b, d);
    MergesDone(g, w, s, start, b, d, out0, out);
  }

  lemma CellsHold(g: Setting, s: seq<ListHead>, a: nat, c: nat)
    requires Holds(g) && forall x :: x in s <==> x in g.cells
    ensures forall i :: 0 <= i < |s| ==> s[i] in g.info && g.info[s[i]] in Words(g) && s[i].info == g.info[s[i]]
    ensures a < |s| ==> s[a] in g.cells
    ensures c < |s| ==> s[c] in g.cells
  {
    forall i | 0 <= i < |s|
      ensures s[i] in g.info && g.info[s[i]] in Words(g) && s[i].info == g.info[s[i]]
    {
      assert s[i] in g.cells;
    }
  }

  lemma NothingLater(g: Setting, w: map<ListData, int16>)
    ensures Later(g, w, w)
  {
  }

  /** After one more comparison: what was touched stays so, and the first one touches both. */
  lemma TouchedSince(g: Setting, w0: map<ListData, int16>, w: map<ListData, int16>, w': map<ListData, int16>,
                     x: ListHead, y: ListHead, x': ListHead, y': ListHead)
    requires Later(g, w0, w) && Later(g, w, w') && x in g.info && g.info[x] in w && y in g.info && g.info[y] in w
    requires (x == x' && y == y') || BothTouched(g, w0, w, x, y)
    requires BothTouched(g, w, w', x', y')
    ensures Later(g, w0, w') && BothTouched(g, w0, w', x, y)
  {
    hide Touched;
    LaterTwice(g, w0, w, w');
  }

  lemma StartTaking(out: seq<ListHead>, s: seq<ListHead>, a: nat, b: nat)
    requires a <= b <= |s| && TakenFrom(out, s, a, a, a) && LinkedFrom(s, a)
    ensures TakenFrom(out, s, a, b, b) && Intact(s, a, b, b)
  {
  }

  lemma StopTaking(out: seq<ListHead>, s: seq<ListHead>, b: nat, d: nat)
    requires b <= d <= |s| && TakenFrom(out, s, b, b, d) && Intact(s, b, b, d)
    ensures TakenFrom(out, s, d, d, d) && LinkedFrom(s, d)
  {
    assert s[..d] == s[..b] + s[b..d];
  }

  lemma SliceOfRest<T>(s: seq<T>, start: nat, i: nat, j: nat)
    requires start <= |s| && i <= j <= |s| - start
    ensures s[start..][i..j] == s[start + i..start + j]
  {
    var t := s[start..];
    var x, y := t[i..j], s[start + i..start + j];
    forall k | 0 <= k < |x|
      ensures x[k] == y[k]
    {
      assert t[i + k] == s[start + i + k];
    }
  }

  /** One pass over the rest of the list adds its first two runs, merged, and goes on behind them. */
  lemma PassStep(le: (ListHead, ListHead) -> bool, s: seq<ListHead>, n: nat, start: nat)
    requires n > 0 && start < |s|
    ensures var i, j := start + Min(n, |s| - start), start + Min(2 * n, |s| - start);
            Pass(le, s[start..], n) == Merge(le, s[start..i], s[i..j]) + Pass(le, s[j..], n)
  {
    hide Merge;
    var t, i, j := s[start..], Min(n, |s| - start), Min(2 * n, |s| - start);
    SliceOfRest(s, start, 0, i);
    SliceOfRest(s, start, i, j);
    SliceOfRest(s, start, j, |t|);
    assert t[..i] == t[0..i] && t[j..] == t[j..|t|];
  }

  /** What one pass has done so far, whichever keys turn out to be right. */
  ghost predicate Passes(g: Setting, w: map<ListData, int16>, s: seq<ListHead>, n: nat, start: nat, out: seq<ListHead>)
    requires n > 0 && start <= |s|
  {
    forall v: seq<int> :: Allowed(g, w, v) ==> out + Pass(Order(g, v), s[start..], n) == Pass(Order(g, v), s, n)
  }

  lemma PassesStart(g: Setting, w: map<ListData, int16>, s: seq<ListHead>, n: nat)
    requires n > 0
    ensures Passes(g, w, s, n, 0, [])
  {
    hide Pass, Order, Allowed;
    assert s[0..] == s;
  }

  lemma PassesStep(g: Setting, w: map<ListData, int16>, w': map<ListData, int16>, s: seq<ListHead>, n: nat, start: nat,
                   out0: seq<ListHead>, out: seq<ListHead>)
    requires n > 0 && start < |s| && Later(g, w, w') && Passes(g, w, s, n, start, out0)
    requires var i, j := start + Min(n, |s| - start), start + Min(2 * n, |s| - start);
             forall v: seq<int> :: Allowed(g, w', v) ==> out == out0 + Merge(Order(g, v), s[start..i], s[i..j])
    ensures Passes(g, w', s, n, start + Min(2 * n, |s| - start), out)
  {
    hide Allowed, Order, Pass, Merge, Later;
    forall v: seq<int> | Allowed(g, w', v)
      ensures out + Pass(Order(g, v), s[start + Min(2 * n, |s| - start)..], n) == Pass(Order(g, v), s, n)
    {
      AllowedEarlier(g, w, w', v);
      PassGrows(Order(g, v), s, n, start, out0, out);
    }
  }

  lemma PassesDone(g: Setting, w: map<ListData, int16>, s: seq<ListHead>, n: nat, out: seq<ListHead>)
    requires n > 0 && Passes(g, w, s, n, |s|, out)
    ensures forall v: seq<int> :: Allowed(g, w, v) ==> out == Pass(Order(g, v), s, n)
  {
    hide Allowed, Order, Pass;
    forall v: seq<int> | Allowed(g, w, v)
      ensures out == Pass(Order(g, v), s, n)
    {
      PassDone(Order(g, v), s, n, out);
    }
  }

  /** The data of the cell are as a comparison has left them. */
  ghost predicate CellTouched(g: Setting, w: map<ListData, int16>, x: ListHead) {
    x in g.info && g.info[x] in g.words && g.info[x] in w && Touched(g.c, g.words[g.info[x]], w[g.info[x]])
  }

  /** Position i is the last one, and a run of its own. */
  predicate LastAlone(n: nat, i: nat, size: nat)
    requires n > 0
  {
    i + 1 == size && i % n == 0
  }

  /** In a list of sorted runs of n cells every cell has been compared, but perhaps a last one that is a run of its own.
      Runs of one are the beginning: nothing has been compared then. */
  ghost predicate RunsTouched(g: Setting, w: map<ListData, int16>, s: seq<ListHead>, n: nat)
    requires n > 0
  {
    n == 1 || forall i :: 0 <= i < |s| ==> CellTouched(g, w, s[i]) || LastAlone(n, i, |s|)
  }

  lemma CellStaysTouched(g: Setting, w: map<ListData, int16>, w': map<ListData, int16>)
    requires Later(g, g.words, w) && Later(g, w, w')
    ensures forall x :: x in g.info && CellTouched(g, w, x) ==> CellTouched(g, w', x)
    ensures forall x :: x in g.info && g.info[x] in w && Touched(g.c, w[g.info[x]], w'[g.info[x]]) ==> CellTouched(g, w', x)
  {
    LaterTwice(g, g.words, w, w');
  }

  lemma MultipleOfTwice(n: nat, i: nat)
    requires n > 0 && i % n == 0
    ensures i % (2 * n) == 0 || i % (2 * n) == n
  {
    var q := i / n;
    DivMod(i, n);
    if q % 2 == 0 {
      assert i == 2 * n * (q / 2) by { assert n * q == n * (2 * (q / 2)); }
      DivUnique(i, 2 * n, q / 2, 0);
    } else {
      assert i == 2 * n * (q / 2) + n by { assert n * q == n * (2 * (q / 2) + 1); }
      DivUnique(i, 2 * n, q / 2, n);
    }
  }

  lemma RunStart(n: nat, start: nat, i: nat)
    requires n > 0 && start % (2 * n) == 0 && start <= i < start + 2 * n
    ensures i % (2 * n) == i - start
  {
    DivMod(start, 2 * n);
    DivUnique(i, 2 * n, start / (2 * n), i - start);
  }

  /** Every cell of the two runs merged at `start` has been compared afterwards, but a last one without a partner. */
  lemma MergedTouched(g: Setting, w: map<ListData, int16>, w': map<ListData, int16>, s: seq<ListHead>, n: nat, start: nat)
    requires n > 0 && start < |s| && start % (2 * n) == 0 && Later(g, g.words, w) && Later(g, w, w')
    requires forall i :: 0 <= i < |s| ==> s[i] in g.info && g.info[s[i]] in w
    requires RunsTouched(g, w, s, n)
    requires var b := start + Min(n, |s| - start); b < start + Min(2 * n, |s| - start) ==> BothTouched(g, w, w', s[start], s[b])
    ensures forall i :: start <= i < start + Min(2 * n, |s| - start) ==> CellTouched(g, w', s[i]) || LastAlone(2 * n, i, |s|)
  {
    hide Touched;
    CellStaysTouched(g, w, w');
    forall i | start <= i < start + Min(2 * n, |s| - start)
      ensures CellTouched(g, w', s[i]) || LastAlone(2 * n, i, |s|)
    {
      RunStart(n, start, i);
      if n > 1 && !CellTouched(g, w, s[i]) {
        MultipleOfTwice(n, i);
      }
    }
  }

  /** core_list_join.c:435-480: the next two runs are merged behind what has been merged so far. */
  method MergeNext(p: ListHead, n: nat, l: ListHead?, tail: ListHead?, c: Comparison, ghost g: Setting,
                   ghost s: seq<ListHead>, ghost start: nat, ghost out: seq<ListHead>, ghost w0: map<ListData, int16>)
    returns (q: ListHead?, l': ListHead?, tail': ListHead?, ghost out': seq<ListHead>)
    requires n > 0 && start < |s| && p == s[start] && LinkedFrom(s, start) && Distinct(s) && start % (2 * n) == 0
    requires Chain(l, tail, out) && TakenFrom(out, s, start, start, start)
    requires g.c == c && Holds(g) && (forall x :: x in s <==> x in g.cells)
    requires Later(g, g.words, w0) && Later(g, w0, Words(g)) && Passes(g, Words(g), s, n, start, out)
    requires RunsTouched(g, Words(g), s, n)
    requires forall i :: 0 <= i < start ==> CellTouched(g, Words(g), s[i]) || LastAlone(2 * n, i, |s|)
    modifies s`next, g.info.Values`data16, Scratch(c)
    ensures var j := start + Min(2 * n, |s| - start);
            && q == At(s, j) && LinkedFrom(s, j) && Chain(l', tail', out') && TakenFrom(out', s, j, j, j)
            && Passes(g, Words(g), s, n, j, out')
            && forall i :: 0 <= i < j ==> CellTouched(g, Words(g), s[i]) || LastAlone(2 * n, i, |s|)
    ensures Holds(g) && Later(g, w0, Words(g)) && RunsTouched(g, Words(g), s, n)
    ensures |s| == 1 ==> Words(g) == old(Words(g))
  {
    hide Chain, TakenFrom, Merge, Distinct, Order, LinkedFrom, Pass, Passes, Allowed, Later, Words, Holds, CellTouched,
         LastAlone, RunsTouched, BothTouched, Touched;
    ghost var w := Words(g);
    CellsHold(g, s, 0, 0);
    var q0, psize := StepAlong(p, n, s, start);
    q, l', tail', out' := MergeRuns(p, q0, psize, n, l, tail, c, g, s, start, out);
    LaterTwice(g, w0, w, Words(g));
    LaterTwice(g, g.words, w0, w);
    MergedTouched(g, w, Words(g), s, n, start);
    StillTouched(g, w, Words(g), s, n, start);
    PassesStep(g, w, Words(g), s, n, start, out, out');
  }

  /** core_list_join.c:432-483: one pass, and the number of merges it took. */
  method OnePass(list0: ListHead, n: nat, c: Comparison, ghost g: Setting, ghost s: seq<ListHead>)
    returns (list: ListHead, nmerges: nat, ghost t: seq<ListHead>)
    requires n > 0 && IsList(list0, s) && s != []
    requires g.c == c && Holds(g) && (forall x :: x in s <==> x in g.cells)
    requires Later(g, g.words, Words(g)) && RunsTouched(g, Words(g), s, n)
    modifies s`next, g.info.Values`data16, Scratch(c)
    ensures Holds(g) && Later(g, old(Words(g)), Words(g)) && IsList(list, t)
    ensures forall v: seq<int> :: Allowed(g, Words(g), v) ==> t == Pass(Order(g, v), s, n)
    ensures forall i :: 0 <= i < |s| ==> CellTouched(g, Words(g), s[i]) || LastAlone(2 * n, i, |s|)
    ensures |s| == 1 ==> Words(g) == old(Words(g))
    ensures nmerges <= 1 <==> |s| <= 2 * n
  {
    hide Chain, TakenFrom, Merge, Distinct, Order, LinkedFrom, Pass, At, Passes, Allowed, Later, Words, Holds, CellTouched,
         LastAlone, RunsTouched, BothTouched, Touched;
    ghost var w0 := Words(g);
    var p: ListHead?, l: ListHead?, tail: ListHead? := list0, null, null;
    ghost var out: seq<ListHead>, start := [], 0;
    nmerges := 0;
    NothingTaken(s);
    AtEnd(s);
    PassesStart(g, w0, s, n);
    NothingLater(g, w0);
    while p != null
      invariant 0 <= start <= |s| && p == At(s, start) && LinkedFrom(s, start) && Distinct(s)
      invariant Chain(l, tail, out) && TakenFrom(out, s, start, start, start)
      invariant Holds(g) && Later(g, w0, Words(g)) && Passes(g, Words(g), s, n, start, out)
      invariant start == |s| || start % (2 * n) == 0
      invariant RunsTouched(g, Words(g), s, n)
      invariant forall i :: 0 <= i < start ==> CellTouched(g, Words(g), s[i]) || LastAlone(2 * n, i, |s|)
      invariant |s| == 1 ==> Words(g) == w0
      invariant nmerges == 0 <==> start == 0
      invariant nmerges == 1 ==> start == Min(2 * n, |s|)
      invariant nmerges > 1 ==> start > 2 * n
      decreases |s| - start
    {
      nmerges := nmerges + 1;
      p, l, tail, out := MergeNext(p, n, l, tail, c, g, s, start, out, w0);
      NextStart(n, start, |s|);
      start := start + Min(2 * n, |s| - start);
    }
    PassesDone(g, Words(g), s, n, out);
    AsLong(g, Words(g), s, n, out);
    Close(l, tail, out, s, g);
    list, t := l, out;
  }

  lemma NextStart(n: nat, start: nat, size: nat)
    requires n > 0 && start % (2 * n) == 0
    ensures (start + 2 * n) % (2 * n) == 0
  {
    DivMod(start, 2 * n);
    assert 2 * n * (start / (2 * n) + 1) == 2 * n * (start / (2 * n)) + 2 * n;
    DivUnique(start + 2 * n, 2 * n, start / (2 * n) + 1, 0);
  }

  lemma StillTouched(g: Setting, w: map<ListData, int16>, w': map<ListData, int16>, s: seq<ListHead>, n: nat, start: nat)
    requires n > 0 && start <= |s| && Later(g, g.words, w) && Later(g, w, w')
    requires RunsTouched(g, w, s, n) && forall i :: 0 <= i < |s| ==> s[i] in g.info
    requires forall i :: 0 <= i < start ==> CellTouched(g, w, s[i]) || LastAlone(2 * n, i, |s|)
    ensures RunsTouched(g, w', s, n)
    ensures forall i :: 0 <= i < start ==> CellTouched(g, w', s[i]) || LastAlone(2 * n, i, |s|)
  {
    hide Later, Touched, CellTouched, LastAlone;
    CellStaysTouched(g, w, w');
  }

  lemma AsLong(g: Setting, w: map<ListData, int16>, s: seq<ListHead>, n: nat, out: seq<ListHead>)
    requires n > 0 && Holds(g) && w == Words(g)
    requires forall v: seq<int> :: Allowed(g, w, v) ==> out == Pass(Order(g, v), s, n)
    ensures |out| == |s|
  {
    hide Allowed, Order, Pass;
    var v := SomeKeys(g, w);
    assert |Pass(Order(g, v), s, n)| == |s|;
  }

  /** core_list_join.c:483 */
  method Close(list: ListHead?, tail: ListHead?, ghost out: seq<ListHead>, ghost s: seq<ListHead>, ghost g: Setting)
    requires s != [] && |out| == |s| && Chain(list, tail, out) && TakenFrom(out, s, |s|, |s|, |s|)
    requires Holds(g)
    modifies s`next
    ensures Holds(g) && Words(g) == old(Words(g))
    ensures list != null && IsList(list, out)
  {
    assert tail in out && tail in s;
    tail.next := null;
  }

  lemma AtEnd(s: seq<ListHead>)
    ensures forall i: nat :: (At(s, i) == null <==> i >= |s|) && (i < |s| ==> At(s, i) == s[i])
  {
  }

  lemma NothingTaken(s: seq<ListHead>)
    ensures Chain(null, null, []) && TakenFrom([], s, 0, 0, 0)
  {
  }

  lemma PassGrows(le: (ListHead, ListHead) -> bool, s: seq<ListHead>, n: nat, start: nat,
                  out0: seq<ListHead>, out: seq<ListHead>)
    requires n > 0 && start < |s|
    requires var i, j := start + Min(n, |s| - start), start + Min(2 * n, |s| - start);
             out == out0 + Merge(le, s[start..i], s[i..j])
    ensures var j := start + Min(2 * n, |s| - start); out + Pass(le, s[j..], n) == out0 + Pass(le, s[start..], n)
  {
    hide Merge, Pass;
    PassStep(le, s, n, start);
    var i, j := start + Min(n, |s| - start), start + Min(2 * n, |s| - start);
    Reassociate(out0, Merge(le, s[start..i], s[i..j]), Pass(le, s[j..], n));
  }

  lemma Reassociate<T>(a: seq<T>, b: seq<T>, c: seq<T>)
    ensures a + (b + c) == a + b + c
  {
  }

  lemma PassDone(le: (ListHead, ListHead) -> bool, s: seq<ListHead>, n: nat, out: seq<ListHead>)
    requires n > 0 && out + Pass(le, s[|s|..], n) == Pass(le, s, n)
    ensures out == Pass(le, s, n)
  {
    assert s[|s|..] == [] && out + [] == out;
  }

  /** The last cell stays last when it is a run of its own without a partner. */
  lemma {:induction false} LastStays(le: (ListHead, ListHead) -> bool, s: seq<ListHead>, n: nat)
    requires n > 0 && s != [] && (|s| - 1) % (2 * n) == 0
    ensures Pass(le, s, n)[|s| - 1] == s[|s| - 1]
    decreases |s|
  {
    hide Merge;
    if |s| == 1 {
      MergeStep(le, s[..1], s[1..1]);
      assert Pass(le, s, n) == Merge(le, s[..1], s[1..1]) + Pass(le, s[1..], n);
    } else {
      var j := 2 * n;
      if |s| - 1 < j {
        DivUnique(|s| - 1, j, 0, |s| - 1);
        assert false;
      }
      DivMod(|s| - 1, j);
      assert j * ((|s| - 1) / j - 1) == j * ((|s| - 1) / j) - j;
      DivUnique(|s| - 1 - j, j, (|s| - 1) / j - 1, 0);
      LastStays(le, s[j..], n);
      assert Pass(le, s, n) == Merge(le, s[..n], s[n..j]) + Pass(le, s[j..], n);
    }
  }

  /** The cells compared, seen in the order after the pass. */
  lemma TouchedAfter(g: Setting, w: map<ListData, int16>, le: (ListHead, ListHead) -> bool, s: seq<ListHead>,
                     t: seq<ListHead>, n: nat)
    requires n > 0 && t == Pass(le, s, n) && Distinct(t) && forall x :: x in t ==> x in s
    requires forall i :: 0 <= i < |s| ==> CellTouched(g, w, s[i]) || LastAlone(2 * n, i, |s|)
    ensures RunsTouched(g, w, t, 2 * n)
  {
    hide Pass, CellTouched;
    forall i | 0 <= i < |t|
      ensures CellTouched(g, w, t[i]) || LastAlone(2 * n, i, |t|)
    {
      assert t[i] in s;
      var k :| 0 <= k < |s| && s[k] == t[i];
      if LastAlone(2 * n, k, |s|) {
        LastStays(le, s, n);
      }
    }
  }

  /** The list after some passes: half sorted, whichever keys turn out to be right. */
  ghost predicate SortedSoFar(g: Setting, w: map<ListData, int16>, t: seq<ListHead>, n: nat)
    requires n > 0
  {
    && multiset(t) == multiset(g.cells)
    && forall v: seq<int> :: Allowed(g, w, v) ==> Halfway(Order(g, v), g.cells, t, n)
  }

  lemma SortedStep(g: Setting, w: map<ListData, int16>, w': map<ListData, int16>, s: seq<ListHead>, t: seq<ListHead>, n: nat)
    requires n > 0 && Holds(g) && Words(g) == w' && Later(g, w, w') && SortedSoFar(g, w, s, n)
    requires forall v: seq<int> :: Allowed(g, w', v) ==> t == Pass(Order(g, v), s, n)
    requires g.c.Fixed? ==> forall v: seq<int> :: Preorder(Order(g, v), set x | x in g.cells)
    ensures SortedSoFar(g, w', t, 2 * n)
  {
    hide Allowed, Order, Pass, Halfway, Preorder, Later;
    var S := set x | x in g.cells;
    forall v: seq<int> | Allowed(g, w', v)
      ensures Halfway(Order(g, v), g.cells, t, 2 * n) && multiset(t) == multiset(g.cells)
    {
      AllowedEarlier(g, w, w', v);
      KeyCount(g, w', v);
      if !g.c.Fixed? {
        KeysArePreorder(g, v);
      }
      HalfwayStep(Order(g, v), S, g.cells, s, n);
      HalfwayCells(Order(g, v), g.cells, t, 2 * n);
    }
    var v := SomeKeys(g, w');
  }

  lemma KeyCount(g: Setting, w: map<ListData, int16>, v: seq<int>)
    requires Allowed(g, w, v)
    ensures |v| == |g.cells|
  {
  }

  /** core_list_join.c:425-495: the list sorted in place. The result has the same cells, is sorted, and keeps the order
      of cells that compare equal, for all keys that agree with what the comparison has computed by then. Every data
      word is as the comparison leaves it, unless there is only one cell. The empty list is excluded: line 483
      dereferences `tail`. */
  method MergeSort(list0: ListHead, c: Comparison, ghost g: Setting) returns (list: ListHead, ghost t: seq<ListHead>)
    requires g.cells != [] && IsList(list0, g.cells) && g.c == c && Holds(g) && g.words == Words(g)
    requires g.info.Keys == set x | x in g.cells
    requires c.Fixed? ==> forall v: seq<int> :: Preorder(Order(g, v), set x | x in g.cells)
    modifies g.cells`next, g.info.Values`data16, Scratch(c)
    ensures Holds(g) && IsList(list, t)
    ensures forall v: seq<int> :: Allowed(g, Words(g), v) ==> StablySorted(Order(g, v), g.cells, t)
    ensures if |g.cells| == 1 then Words(g) == g.words else forall x :: x in g.cells ==> CellTouched(g, Words(g), x)
  {
    hide IsList, Order, Halfway, Pass, StablySorted, Preorder, Allowed, Later, Words, Holds, CellTouched, LastAlone,
         RunsTouched, SortedSoFar, Touched;
    var insize := 1;
    list, t := list0, g.cells;
    ghost var w := Words(g);
    SortedStart(g, w);
    while true
      invariant insize > 0 && SortedSoFar(g, w, t, insize) && IsList(list, t)
      invariant insize == 1 || insize < |g.cells|
      invariant Holds(g) && w == Words(g) && Later(g, g.words, w) && RunsTouched(g, w, t, insize)
      invariant |g.cells| == 1 ==> w == g.words
      decreases |g.cells| - insize
    {
      var nmerges;
      ghost var s, w0 := t, w;
      SortedCells(g, w0, s, insize);
      assert forall i :: 0 <= i < |s| ==> s[i] in g.cells;
      list, nmerges, t := OnePass(list, insize, c, g, s);
      w := Words(g);
      LaterTwice(g, g.words, w0, w);
      SortedStep(g, w0, w, s, t, insize);
      SortedCells(g, w, t, 2 * insize);
      PassTouched(g, w, s, t, insize, list);
      if nmerges <= 1 {
        SortedDone(g, w, t, 2 * insize);
        return;
      }
      insize := insize * 2;
    }
  }

  lemma SortedStart(g: Setting, w: map<ListData, int16>)
    ensures SortedSoFar(g, w, g.cells, 1) && RunsTouched(g, w, g.cells, 1) && Later(g, w, w)
  {
    hide Allowed, Order, Halfway;
    forall v: seq<int> | Allowed(g, w, v)
      ensures Halfway(Order(g, v), g.cells, g.cells, 1)
    {
      HalfwayStart(Order(g, v), g.cells);
    }
  }

  lemma SortedCells(g: Setting, w: map<ListData, int16>, t: seq<ListHead>, n: nat)
    requires n > 0 && SortedSoFar(g, w, t, n)
    ensures |t| == |g.cells| && forall x :: x in t <==> x in g.cells
  {
    SameCells(g.cells, t);
  }

  lemma PassTouched(g: Setting, w: map<ListData, int16>, s: seq<ListHead>, t: seq<ListHead>, n: nat, list: ListHead)
    requires n > 0 && Holds(g) && w == Words(g) && IsList(list, t) && forall x :: x in t ==> x in s
    requires forall v: seq<int> :: Allowed(g, w, v) ==> t == Pass(Order(g, v), s, n)
    requires forall i :: 0 <= i < |s| ==> CellTouched(g, w, s[i]) || LastAlone(2 * n, i, |s|)
    ensures RunsTouched(g, w, t, 2 * n)
  {
    hide Allowed, Order, Pass, CellTouched, LastAlone, RunsTouched;
    TouchedAfter(g, w, Order(g, SomeKeys(g, w)), s, t, n);
  }

  lemma SortedDone(g: Setting, w: map<ListData, int16>, t: seq<ListHead>, n: nat)
    requires n > 1 && SortedSoFar(g, w, t, n) && |t| == |g.cells| <= n && RunsTouched(g, w, t, n)
    requires forall x :: x in t <==> x in g.cells
    ensures forall v: seq<int> :: Allowed(g, w, v) ==> StablySorted(Order(g, v), g.cells, t)
    ensures |g.cells| != 1 ==> forall x :: x in g.cells ==> CellTouched(g, w, x)
  {
    hide Allowed, Order, CellTouched;
    forall v: seq<int> | Allowed(g, w, v)
      ensures StablySorted(Order(g, v), g.cells, t)
    {
      OneRun(Order(g, v), g.cells, t, n);
    }
    forall i | 0 <= i < |t| && |t| != 1
      ensures CellTouched(g, w, t[i])
    {
      if LastAlone(n, i, |t|) {
        DivUnique(i, n, 0, i);
      }
    }
  }

  lemma SameCells(s: seq<ListHead>, t: seq<ListHead>)
    requires multiset(s) == multiset(t)
    ensures |s| == |t| && forall x :: x in t <==> x in s
  {
    assert |multiset(s)| == |multiset(t)|;
    forall x
      ensures x in t <==> x in s
    {
      assert x in t <==> x in multiset(t);
    }
  }

  lemma OneRun(le: (ListHead, ListHead) -> bool, s: seq<ListHead>, t: seq<ListHead>, n: nat)
    requires n > 0 && Halfway(le, s, t, n) && |t| <= n
    ensures StablySorted(le, s, t)
  {
  }

  // The other operations.

  function Reversed<T>(s: seq<T>): (r: seq<T>)
    ensures |r| == |s|
    ensures forall i :: 0 <= i < |s| ==> r[i] == s[|s| - 1 - i]
  {
    seq(|s|, i requires 0 <= i < |s| => s[|s| - 1 - i])
  }

  /** core_list_join.c:394-403 */
  method Reverse(list0: ListHead?, ghost s: seq<ListHead>) returns (next: ListHead?)
    requires IsList(list0, s)
    modifies s`next
    ensures IsList(next, Reversed(s))
  {
    hide Distinct, Reversed;
    var list := list0;
    next := null;
    ghost var i := 0;
    while list != null
      invariant 0 <= i <= |s| && LinkedFrom(s, i) && list == At(s, i)
      invariant next == Before(s, i) && LinkedBack(s, i)
      decreases |s| - i
    {
      OthersDiffer(s, i);
      var tmp := list.next;
      list.next := next;
      next := list;
      list := tmp;
      i := i + 1;
    }
    BackwardsIsList(s);
  }

  function Before(s: seq<ListHead>, i: nat): ListHead? {
    if 0 < i <= |s| then s[i - 1] else null
  }

  /** The links of s[..i] point backwards. */
  ghost predicate LinkedBack(s: seq<ListHead>, i: nat)
    requires i <= |s|
    reads s
  {
    forall j :: 0 <= j < i ==> s[j].next == Before(s, j)
  }

  lemma OthersDiffer(s: seq<ListHead>, i: nat)
    requires Distinct(s) && i < |s|
    ensures forall j :: 0 <= j < |s| && j != i ==> s[j] != s[i]
  {
  }

  lemma BackwardsIsList(s: seq<ListHead>)
    requires Distinct(s) && LinkedBack(s, |s|)
    ensures IsList(Before(s, |s|), Reversed(s))
  {
    var r := Reversed(s);
    forall i | 0 <= i < |r|
      ensures r[i].next == At(r, i + 1)
    {
      assert r[i] == s[|s| - 1 - i];
    }
  }

  /** The list without its cell i + 1. */
  function Without(s: seq<ListHead>, i: nat): (r: seq<ListHead>)
    requires i + 1 < |s|
    ensures |r| == |s| - 1
  {
    s[..i + 1] + s[i + 2..]
  }

  /** core_list_join.c:315-326: the data of `item` leaves the list, in the cell that followed `item`. The cell
      that stays takes over the data of the one that goes. */
  method Remove(item: ListHead, ghost head: ListHead, ghost s: seq<ListHead>, ghost i: nat) returns (ret: ListHead)
    requires IsList(head, s) && i + 1 < |s| && item == s[i]
    modifies item, s[i + 1]
    ensures IsList(head, Without(s, i)) && ret == s[i + 1] && ret.next == null
    ensures item.info == old(s[i + 1].info) && ret.info == old(item.info)
    ensures item.next == old(s[i + 1].next)
  {
    ret := item.next;
    var tmp := item.info;
    item.info := ret.info;
    ret.info := tmp;
    item.next := item.next.next;
    ret.next := null;
  }

  /** core_list_join.c:344-354 */
  method UndoRemove(removed: ListHead, modified: ListHead, ghost head: ListHead, ghost s: seq<ListHead>, ghost i: nat)
    returns (r: ListHead)
    requires IsList(head, s) && i < |s| && modified == s[i] && removed !in s
    modifies removed, modified
    ensures IsList(head, s[..i + 1] + [removed] + s[i + 1..]) && r == removed
    ensures removed.info == old(modified.info) && modified.info == old(removed.info)
    ensures removed.next == old(modified.next) && modified.next == removed
  {
    var tmp := removed.info;
    removed.info := modified.info;
    modified.info := tmp;
    removed.next := modified.next;
    modified.next := removed;
    r := removed;
    InsertedIsList(head, s, i, removed);
  }

  lemma InsertedIsList(head: ListHead, s: seq<ListHead>, i: nat, x: ListHead)
    requires Distinct(s) && i < |s| && head == s[0] && x !in s
    requires s[i].next == x && x.next == At(s, i + 1)
    requires forall j :: 0 <= j < |s| && j != i ==> s[j].next == At(s, j + 1)
    ensures IsList(head, s[..i + 1] + [x] + s[i + 1..])
  {
    var t := s[..i + 1] + [x] + s[i + 1..];
    assert forall j :: 0 <= j < |t| ==> t[j] == if j <= i then s[j] else if j == i + 1 then x else s[j - 1];
    InsertedDistinct(s, i, x);
    forall j | 0 <= j < |t|
      ensures t[j].next == At(t, j + 1)
    {
      assert At(t, j + 1) == if j < i then At(s, j + 1) else if j == i then x else At(s, j);
    }
  }

  lemma InsertedDistinct(s: seq<ListHead>, i: nat, x: ListHead)
    requires Distinct(s) && i < |s| && x !in s
    ensures Distinct(s[..i + 1] + [x] + s[i + 1..])
  {
    var t := s[..i + 1] + [x] + s[i + 1..];
    assert forall j :: 0 <= j < |t| ==> t[j] == if j <= i then s[j] else if j == i + 1 then x else s[j - 1];
    forall j, k | 0 <= j < k < |t|
      ensures t[j] != t[k]
    {
      assert j <= i ==> t[j] in s;
      assert k > i + 1 ==> t[k] in s;
    }
  }

  /** core_list_join.c:173-185: after the removal is undone every cell has its link and its data again. */
  method RemoveThenUndo(item: ListHead, ghost head: ListHead, ghost s: seq<ListHead>, ghost i: nat)
    requires IsList(head, s) && Distinct(s) && i + 1 < |s| && item == s[i]
    modifies item, s[i + 1]
    ensures IsList(head, s)
    ensures forall c :: c in s ==> c.next == old(c.next) && c.info == old(c.info)
  {
    hide IsList, Without, Distinct;
    WithoutAndBack(s, i);
    LinkAt(head, s, i);
    var remover := Remove(item, head, s, i);
    remover := UndoRemove(remover, item, head, Without(s, i), i);
  }

  lemma LinkAt(head: ListHead, s: seq<ListHead>, i: nat)
    requires IsList(head, s) && i < |s|
    ensures s[i].next == At(s, i + 1)
  {
  }

  lemma WithoutAndBack(s: seq<ListHead>, i: nat)
    requires Distinct(s) && i + 1 < |s|
    ensures s[i + 1] !in Without(s, i) && Without(s, i)[i] == s[i]
    ensures Without(s, i)[..i + 1] + [s[i + 1]] + Without(s, i)[i + 1..] == s
  {
  }

  // The sorts that the benchmark asks for.

  ghost function Infos(s: seq<ListHead>): set<ListData>
    reads s
  {
    set x | x in s :: x.info
  }

  /** The setting of a list about to be sorted. */
  ghost function SettingOf(c: Comparison, s: seq<ListHead>): (g: Setting)
    requires Distinct(s)
    reads s, Infos(s)
  {
    Setting(c, s, map i | 0 <= i < |s| :: s[i] := i, map x | x in s :: x.info, map d | d in Infos(s) :: d.idx,
            map d | d in Infos(s) :: d.data16)
  }

  lemma SettingHolds(c: Comparison, s: seq<ListHead>)
    requires Distinct(s)
    ensures var g := SettingOf(c, s);
            && g.c == c && g.cells == s && g.info.Keys == (set x | x in s) && g.info.Values == Infos(s)
            && g.info == (map x | x in s :: x.info) && Holds(g) && g.words == Words(g)
  {
    var g := SettingOf(c, s);
    InfoValues(s);
    assert g.info.Values == Infos(s);
    assert g.words.Keys == Infos(s);
    forall i | 0 <= i < |s|
      ensures s[i] in g.info && s[i] in g.place && g.place[s[i]] == i && s[i].info in g.words
    {
      assert s[i] in s && s[i].info in Infos(s);
    }
  }

  lemma InfoValues(s: seq<ListHead>)
    ensures (map x | x in s :: x.info).Values == Infos(s)
  {
    var m := map x | x in s :: x.info;
    forall d | d in Infos(s)
      ensures d in m.Values
    {
      var x :| x in s && x.info == d;
      assert m[x] == d;
    }
  }

  /** Orders that agree on the elements sort them alike. */
  lemma SameSort<T>(le: (T, T) -> bool, le': (T, T) -> bool, s: seq<T>, t: seq<T>)
    requires StablySorted(le, s, t)
    requires forall a, b :: a in s && b in s ==> le(a, b) == le'(a, b)
    ensures StablySorted(le', s, t)
  {
    forall x
      ensures x in t <==> x in s
    {
      assert x in t <==> x in multiset(t);
    }
    assert forall i :: 0 <= i < |t| ==> t[i] in s;
    forall x | x in s
      ensures Class(le', x, t) == Class(le', x, s)
    {
      SameClass(le, le', x, s);
      SameClass(le, le', x, t);
    }
  }

  lemma {:induction false} SameClass<T>(le: (T, T) -> bool, le': (T, T) -> bool, x: T, s: seq<T>)
    requires forall i :: 0 <= i < |s| ==> le(x, s[i]) == le'(x, s[i]) && le(s[i], x) == le'(s[i], x)
    ensures Class(le, x, s) == Class(le', x, s)
  {
    if s != [] {
      SameClass(le, le', x, s[1..]);
    }
  }

  /** Cells by keys. */
  ghost function ByKey(key: map<ListHead, int>): (ListHead, ListHead) -> bool {
    (a, b) => a in key && b in key && key[a] <= key[b]
  }

  /** Cells by a fixed order of their items. */
  ghost function ByOrder(order: (Item, Item) -> int, items: map<ListHead, Item>): (ListHead, ListHead) -> bool {
    (a, b) => a in items && b in items && order(items[a], items[b]) <= 0
  }

  ghost function Items(s: seq<ListHead>): map<ListHead, Item>
    reads s, Infos(s)
  {
    map x | x in s :: ItemOf(x.info)
  }

  /** Under a comparison that only reads, the items are those of the setting. */
  lemma ItemsSeen(g: Setting)
    requires g.c.Fixed? && Holds(g)
    ensures forall x :: x in g.cells ==>
              && x in g.info && x.info == g.info[x] && x.info in g.words && x.info in g.index
              && ItemOf(x.info) == Seen(g, x.info)
  {
    forall x | x in g.cells
      ensures x in g.info && x.info == g.info[x] && x.info in g.words && x.info in g.index && ItemOf(x.info) == Seen(g, x.info)
    {
      CellData(g, x);
    }
  }

  lemma OrderOfItems(g: Setting)
    requires g.c.Fixed? && Holds(g)
    ensures forall v: seq<int>, a, b :: a in g.cells && b in g.cells ==>
              Order(g, v)(a, b) == ByOrder(g.c.order, Items(g.cells))(a, b)
  {
    ItemsSeen(g);
    forall v: seq<int>, a, b | a in g.cells && b in g.cells
      ensures Order(g, v)(a, b) == ByOrder(g.c.order, Items(g.cells))(a, b)
    {
      assert a in g.place && b in g.place;
    }
  }

  lemma OrderIsByKey(g: Setting, v: seq<int>, key: map<ListHead, int>, t: seq<ListHead>)
    requires Holds(g) && !g.c.Fixed? && |v| == |g.cells| && StablySorted(Order(g, v), g.cells, t)
    requires forall i :: 0 <= i < |v| ==> g.cells[i] in key && v[i] == key[g.cells[i]]
    ensures StablySorted(ByKey(key), g.cells, t)
  {
    hide StablySorted;
    forall a, b | a in g.cells && b in g.cells
      ensures Order(g, v)(a, b) == ByKey(key)(a, b)
    {
      var i, j :| 0 <= i < |v| && 0 <= j < |v| && g.cells[i] == a && g.cells[j] == b;
    }
    SameSort(Order(g, v), ByKey(key), g.cells, t);
  }

  /** After a sort by value: the keys are the values that the data hold now. */
  lemma SortedByValue(g: Setting, t: seq<ListHead>)
    requires Holds(g) && g.c.ByValue?
    requires forall v: seq<int> :: Allowed(g, Words(g), v) ==> StablySorted(Order(g, v), g.cells, t)
    ensures StablySorted(ByKey(map x | x in g.cells :: Value(x.info.data16)), g.cells, t)
  {
    hide StablySorted, Order, Value, Cached, ByKey;
    var key := map x | x in g.cells :: Value(x.info.data16);
    var v := seq(|g.cells|, i requires 0 <= i < |g.cells| reads g.cells, Infos(g.cells) => key[g.cells[i]]);
    CellsHold(g, g.cells, 0, 0);
    assert Allowed(g, Words(g), v);
    OrderIsByKey(g, v, key, t);
  }

  /** After a sort by index. */
  lemma SortedByIndex(g: Setting, u: seq<ListHead>, t: seq<ListHead>)
    requires Holds(g) && g.c.ByIdx? && Distinct(g.cells) && multiset(u) == multiset(g.cells)
    requires forall i, j :: 0 <= i < j < |u| ==> u[i].info.idx < u[j].info.idx
    requires forall v: seq<int> :: Allowed(g, Words(g), v) ==> StablySorted(Order(g, v), g.cells, t)
    ensures t == u
  {
    hide StablySorted, Order, Value, Cached, ByKey;
    var key := map x | x in g.cells :: x.info.idx as int;
    var v := seq(|g.cells|, i requires 0 <= i < |g.cells| => key[g.cells[i]]);
    CellsHold(g, g.cells, 0, 0);
    assert Allowed(g, Words(g), v);
    OrderIsByKey(g, v, key, t);
    SameCells(g.cells, u);
    assert forall i :: 0 <= i < |u| ==> u[i] in g.cells;
    SortRestoresOrder(key, u, g.cells, t);
  }

  lemma SortedByOrder(g: Setting, le: (ListHead, ListHead) -> bool, t: seq<ListHead>)
    requires Holds(g)
    requires forall v: seq<int>, a, b :: a in g.cells && b in g.cells ==> Order(g, v)(a, b) == le(a, b)
    requires forall v: seq<int> :: Allowed(g, Words(g), v) ==> StablySorted(Order(g, v), g.cells, t)
    ensures StablySorted(le, g.cells, t)
  {
    hide StablySorted, Allowed, Order;
    CellsHold(g, g.cells, 0, 0);
    var v := SomeKeys(g, Words(g));
    SameSort(Order(g, v), le, g.cells, t);
  }

  /** What the comparisons have made of a cell's data. */
  lemma TouchedData(g: Setting)
    requires Holds(g)
    requires if |g.cells| == 1 then Words(g) == g.words else forall x :: x in g.cells ==> CellTouched(g, Words(g), x)
    ensures forall x :: x in g.cells ==>
              x in g.info && x.info == g.info[x] && x.info in g.words
              && if |g.cells| == 1 then x.info.data16 == g.words[x.info] else Touched(g.c, g.words[x.info], x.info.data16)
  {
    hide Touched;
    CellsHold(g, g.cells, 0, 0);
  }

  /** With a comparison that only reads the items it is given, any total preorder of them: only links change. */
  method SortByOrder(list0: ListHead, order: (Item, Item) -> int, ghost s: seq<ListHead>)
    returns (list: ListHead, ghost t: seq<ListHead>)
    requires s != [] && IsList(list0, s)
    requires Preorder(ByOrder(order, Items(s)), set x | x in s)
    modifies s`next, Infos(s)`data16
    ensures IsList(list, t) && StablySorted(ByOrder(order, old(Items(s))), s, t)
    ensures forall x :: x in s ==> x.info == old(x.info) && ItemOf(x.info) == old(ItemOf(x.info))
  {
    hide LinkedFrom, StablySorted, Preorder, ByOrder, SettingOf, Holds, Allowed, Order, CellTouched, Items, ItemOf, Seen;
    ghost var c := Fixed(order);
    ghost var g, le := SettingOf(c, s), ByOrder(order, Items(s));
    SettingHolds(c, s);
    ItemsSeen(g);
    OrderOfItems(g);
    FixedPreorder(g, le);
    list, t := MergeSort(list0, Fixed(order), g);
    SortedByOrder(g, le, t);
    ItemsSeen(g);
  }

  /** core_list_join.c:172 with cmp_complex, whatever the values turn out to be: the list is sorted by the values that
      its data hold afterwards, equal ones in their old order; every value is computed, once, and the upper halves of
      the data stay. */
  method SortByValue(list0: ListHead, res: Results, ghost s: seq<ListHead>) returns (list: ListHead, ghost t: seq<ListHead>)
    requires s != [] && IsList(list0, s)
    modifies s`next, Infos(s)`data16, res
    ensures IsList(list, t) && (forall x :: x in s ==> x.info == old(x.info))
    ensures StablySorted(ByKey(map x | x in s :: Value(x.info.data16)), s, t)
    ensures |s| > 1 ==> forall x :: x in s ==>
              var d := x.info;
              && Cached(d.data16) && High(d.data16) == High(old(d.data16)) && ValueKept(res, old(d.data16), d.data16)
              && (Cached(old(d.data16)) ==> d.data16 == old(d.data16))
  {
    hide LinkedFrom, StablySorted, ByKey, SettingOf, Holds, Allowed, Order, CellTouched, Cached, High, Value, ValueKept;
    ghost var c := ByValue(res);
    ghost var g := SettingOf(c, s);
    SettingHolds(c, s);
    list, t := MergeSort(list0, ByValue(res), g);
    SortedByValue(g, t);
    TouchedData(g);
  }

  /** core_list_join.c:187: sorting by index returns the list to its original order u, whatever happened to its order in
      between, if the indices increase strictly along u. On the way every data word is rebuilt, except in a list of
      one cell. */
  method SortByIndex(list0: ListHead, ghost s: seq<ListHead>, ghost u: seq<ListHead>) returns (list: ListHead)
    requires s != [] && IsList(list0, s) && multiset(u) == multiset(s)
    requires forall i, j :: 0 <= i < j < |u| ==> u[i].info.idx < u[j].info.idx
    modifies s`next, Infos(s)`data16
    ensures IsList(list, u) && (forall x :: x in s ==> x.info == old(x.info))
    ensures forall x :: x in s ==>
              x.info.data16 == if |s| == 1 then old(x.info.data16) else Regenerated(old(x.info.data16))
  {
    hide StablySorted, SettingOf, Holds, Allowed, Order, CellTouched, Regenerated, LinkedFrom;
    ghost var c := ByIdx(true);
    ghost var g := SettingOf(c, s);
    SettingHolds(c, s);
    ghost var t;
    list, t := MergeSort(list0, ByIdx(true), g);
    SortedByIndex(g, u, t);
    TouchedData(g);
  }

  /** core_list_join.c:172-187 without the removal in between, which is undone: whatever the values were, the list is
      back in its original order, and every data word is rebuilt from its upper half. */
  method SortAndRestore(list0: ListHead, res: Results, ghost s: seq<ListHead>) returns (list: ListHead)
    requires |s| > 1 && IsList(list0, s)
    requires forall i, j :: 0 <= i < j < |s| ==> s[i].info.idx < s[j].info.idx
    modifies s`next, Infos(s)`data16, res
    ensures IsList(list, s)
    ensures forall x :: x in s ==> x.info == old(x.info) && x.info.data16 == Regenerated(old(x.info.data16))
  {
    hide IsList, StablySorted, ByKey, Regenerated, High, Value, Cached;
    ghost var t;
    list, t := SortByValue(list0, res, s);
    SortedIsPermutation(ByKey(map x | x in s :: Value(x.info.data16)), s, t);
    assert forall i :: 0 <= i < |t| ==> t[i] in s;
    ghost var words := map x | x in s :: x.info.data16;
    list := SortByIndex(list, t, s);
    forall x | x in s
      ensures Regenerated(words[x]) == Regenerated(old(x.info.data16))
    {
      RegeneratedFromHigh(words[x], old(x.info.data16));
    }
  }

  lemma SortedIsPermutation(le: (ListHead, ListHead) -> bool, s: seq<ListHead>, t: seq<ListHead>)
    requires StablySorted(le, s, t)
    ensures multiset(s) == multiset(t) && |s| == |t| && forall x :: x in t <==> x in s
  {
    SameCells(s, t);
  }

  lemma SortRestoresOrder(key: map<ListHead, int>, u: seq<ListHead>, s: seq<ListHead>, t: seq<ListHead>)
    requires multiset(u) == multiset(s) && Distinct(s) && forall x :: x in s ==> x in key
    requires forall i, j :: 0 <= i < j < |u| ==> u[i] in key && u[j] in key && key[u[i]] < key[u[j]]
    requires StablySorted(ByKey(key), s, t)
    ensures t == u
  {
    var le, S := ByKey(key), set x | x in s;
    SameCells(s, u);
    forall a, b | a in S && b in S && le(a, b) && le(b, a)
      ensures a == b
    {
      assert a in u && b in u;
      var i, j :| 0 <= i < |u| && 0 <= j < |u| && u[i] == a && u[j] == b;
    }
    SortRestores(le, S, u, s, t);
  }

  lemma FixedPreorder(g: Setting, le: (ListHead, ListHead) -> bool)
    requires forall v: seq<int>, a, b :: a in g.cells && b in g.cells ==> Order(g, v)(a, b) == le(a, b)
    requires Preorder(le, set x | x in g.cells)
    ensures forall v: seq<int> :: Preorder(Order(g, v), set x | x in g.cells)
  {
    hide Order;
    forall v: seq<int>
      ensures Preorder(Order(g, v), set x | x in g.cells)
    {
      assert forall a, b :: a in g.cells && b in g.cells ==> Order(g, v)(a, b) == le(a, b);
    }
  }
}
