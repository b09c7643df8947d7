// core_list_join.c: list cells, their data, and the comparison functions, which change what they compare.
module CoreCells {
  import opened MachineInts
  import opened IntFacts
  import opened StableSort

  class ListData {
    var data16: int16
    var idx: int16
  }

  class ListHead {
    var next: ListHead?
    var info: ListData

    constructor (info: ListData)
      ensures next == null && this.info == info
    {
      this.next := null;
      this.info := info;
    }
  }

  function At(s: seq<ListHead>, i: nat): ListHead? {
    if i < |s| then s[i] else null
  }

  ghost predicate Distinct(s: seq<ListHead>) {
    forall i, j :: 0 <= i < j < |s| ==> s[i] != s[j]
  }

  /** The links of s[from..] are those of a list. */
  ghost predicate LinkedFrom(s: seq<ListHead>, from: nat)
    reads s
  {
    forall i :: from <= i < |s| ==> s[i].next == At(s, i + 1)
  }

  /** `head` is an acyclic list with exactly the cells s, in this order. */
  ghost predicate IsList(head: ListHead?, s: seq<ListHead>)
    reads s
  {
    Distinct(s) && LinkedFrom(s, 0) && head == At(s, 0)
  }

  /** The list under construction: linked up to its last cell, whose link is still to be set. */
  ghost predicate Chain(list: ListHead?, tail: ListHead?, out: seq<ListHead>)
    reads out
  {
    && Distinct(out) && (forall i :: 0 <= i < |out| - 1 ==> out[i].next == out[i + 1])
    && list == At(out, 0) && tail == if out == [] then null else out[|out| - 1]
  }

  // Comparisons, which may write to the data they compare.

  /** The low byte rebuilt from the high byte, on the 16-bit pattern. */
  function Regenerated(x: int16): int16 {
    ToInt16(x % 0x1_0000 / 0x100 * 0x101)
  }

  lemma RegeneratedTwice(x: int16)
    ensures Regenerated(Regenerated(x)) == Regenerated(x)
  {
    RegeneratedWord(x);
    SameByteTwice(x % 0x1_0000 / 0x100);
  }

  /** The upper byte stays, and the lower byte becomes a copy of it. */
  lemma RegeneratedBytes(x: int16)
    ensures Regenerated(x) == x - x % 0x100 + x / 0x100 % 0x100
  {
    var q := x / 0x100;
    if q >= 0 {
      DivUnique(x, 0x1_0000, 0, x);
      DivUnique(q, 0x100, 0, q);
    } else {
      DivUnique(x, 0x1_0000, -1, x + 0x1_0000);
      DivUnique(x + 0x1_0000, 0x100, q + 0x100, x % 0x100);
      DivUnique(q, 0x100, -1, q + 0x100);
    }
  }

  lemma RegeneratedWord(x: int16)
    ensures Regenerated(x) % 0x1_0000 == x % 0x1_0000 / 0x100 * 0x101
  {
  }

  lemma SameByteTwice(h: int)
    requires 0 <= h < 0x100
    ensures h * 0x101 / 0x100 == h
  {
  }

  /** core_list_join.c:111-117. Called without results it also rebuilds the data; the order is by index alone. */
  method CmpIdx(a: ListData, b: ListData, regenerate: bool) returns (r: int)
    modifies a`data16, b`data16
    ensures r == a.idx - b.idx
    ensures a.data16 == old(if regenerate then Regenerated(a.data16) else a.data16)
    ensures b.data16 == old(if regenerate then Regenerated(b.data16) else b.data16)
    ensures regenerate ==>
              && a.data16 == old(a.data16 - a.data16 % 0x100 + a.data16 / 0x100 % 0x100)
              && b.data16 == old(b.data16 - b.data16 % 0x100 + b.data16 / 0x100 % 0x100)
  {
    RegeneratedBytes(a.data16);
    RegeneratedBytes(b.data16);
    if regenerate {
      RegeneratedTwice(a.data16);
      a.data16 := Regenerated(a.data16);
      b.data16 := Regenerated(b.data16);
    }
    r := a.idx - b.idx;
  }

  /** Bit 7: the value is cached. */
  predicate Cached(x: int16) {
    x % 0x100 >= 0x80
  }

  /** The lower seven bits. */
  function Value(x: int16): (v: int)
    ensures 0 <= v < 0x80
  {
    x % 0x80
  }

  function High(x: int16): (h: int)
    ensures 0 <= h < 0x100
  {
    x % 0x1_0000 / 0x100
  }

  /** What is rebuilt depends on the upper half alone. */
  lemma RegeneratedFromHigh(x: int16, y: int16)
    requires High(x) == High(y)
    ensures Regenerated(x) == Regenerated(y)
  {
  }

  /** core_list_join.c:91 */
  function CacheIn(x: int16, v: int): int16
    requires 0 <= v < 0x80
  {
    ToInt16(High(x) * 0x100 + 0x80 + v)
  }

  lemma CacheHolds(x: int16, v: int)
    requires 0 <= v < 0x80
    ensures Cached(CacheIn(x, v)) && Value(CacheIn(x, v)) == v && High(CacheIn(x, v)) == High(x)
  {
    var h := High(x);
    hide High;
    Int16Parts(h, v);
    hide ToInt16;
    WordParts(CacheIn(x, v), h, v);
  }

  lemma Int16Parts(h: int, v: int)
    requires 0 <= h < 0x100 && 0 <= v < 0x80
    ensures ToInt16(h * 0x100 + 0x80 + v) == (if h < 0x80 then h else h - 0x100) * 0x100 + 0x80 + v
  {
  }

  lemma WordParts(y: int16, h: int, v: int)
    requires 0 <= h < 0x100 && 0 <= v < 0x80 && y == (if h < 0x80 then h else h - 0x100) * 0x100 + 0x80 + v
    ensures Cached(y) && Value(y) == v && High(y) == h
  {
    var g := if h < 0x80 then h else h - 0x100;
    DivUnique(y, 0x100, g, 0x80 + v);
    DivUnique(y, 0x80, 2 * g + 1, v);
    if h < 0x80 {
      DivUnique(y, 0x1_0000, 0, y);
    } else {
      DivUnique(y, 0x1_0000, -1, y + 0x1_0000);
    }
    DivUnique(y % 0x1_0000, 0x100, h, 0x80 + v);
  }

  lemma BitSeven(x: int16)
    ensures Cached(x) <==> x / 0x80 % 2 == 1
  {
    var q := x / 0x100;
    if Cached(x) {
      DivUnique(x, 0x80, 2 * q + 1, x % 0x100 - 0x80);
    } else {
      DivUnique(x, 0x80, 2 * q, x % 0x100);
    }
  }

  /** The word that is stored keeps its upper half. */
  lemma CacheInWord(x: int16, v: int)
    requires 0 <= v < 0x80
    ensures CacheIn(x, v) == x - x % 0x100 + 0x80 + v
  {
    var q := x / 0x100;
    Int16Parts(High(x), v);
    if q >= 0 {
      DivUnique(x, 0x1_0000, 0, x);
    } else {
      DivUnique(x, 0x1_0000, -1, x + 0x1_0000);
      DivUnique(x + 0x1_0000, 0x100, q + 0x100, x % 0x100);
    }
  }

  /** The results that calc_func computes with: what the state and matrix benchmarks return for some data depends on
      everything computed before. */
  class Results {
    const compute: (nat, int16) -> int16
    var calls: nat
  }

  /** core_list_join.c:62-94: the value of a data item, computed once and then kept in it. A word with bit 7 set holds
      its value in bits 0 to 6. Of any other, types 0 and 1 run a benchmark; every other type is its own value. The
      value replaces the low byte. */
  method CalcFunc(d: ListData, res: Results) returns (v: int)
    modifies d`data16, res
    ensures v == Value(d.data16) && Cached(d.data16) && High(d.data16) == High(old(d.data16))
    ensures Cached(old(d.data16)) ==> d.data16 == old(d.data16)
    ensures var x := old(d.data16);
            if x / 0x80 % 2 == 1 then
              v == x % 0x80 && d.data16 == x && res.calls == old(res.calls)
            else
              && v == (if x % 8 > 1 then x else res.compute(old(res.calls), x)) % 0x80
              && d.data16 == x - x % 0x100 + 0x80 + v && res.calls == old(res.calls) + 1
  {
    var data := d.data16;
    BitSeven(data);
    if Cached(data) {
      v := Value(data);
    } else {
      var retval := data;
      if data % 8 == 0 || data % 8 == 1 {
        retval := res.compute(res.calls, data);
      }
      res.calls := res.calls + 1;
      v := Value(retval);
      CacheHolds(data, v);
      CacheInWord(data, v);
      d.data16 := CacheIn(data, v);
    }
  }

  /** What a comparison function can read: which item it is given, and what is in it. */
  datatype Item = Item(data: ListData, word: int16, index: int16)

  function ItemOf(d: ListData): Item
    reads d
  {
    Item(d, d.data16, d.idx)
  }

  /** The comparison functions: any that only reads its arguments, by index, and by computed value. */
  datatype Comparison =
    | Fixed(order: (Item, Item) -> int)
    | ByIdx(regenerate: bool)
    | ByValue(res: Results)

  function Scratch(c: Comparison): set<Results> {
    if c.ByValue? then {c.res} else {}
  }

  /** What a comparison makes of a data word. */
  ghost predicate Touched(c: Comparison, x: int16, y: int16) {
    match c
    case Fixed(_) => y == x
    case ByIdx(regenerate) => y == if regenerate then Regenerated(x) else x
    case ByValue(res) => Cached(y) && High(y) == High(x) && (Cached(x) ==> y == x) && ValueKept(res, x, y)
  }

  /** The low seven bits of y come from x: they are those of x itself or, if no value is cached and the type is 0 or 1,
      those of a benchmark's result. */
  ghost predicate ValueKept(res: Results, x: int16, y: int16) {
    if x / 0x80 % 2 == 1 || x % 8 > 1 then y % 0x80 == x % 0x80 else exists n: nat :: y % 0x80 == res.compute(n, x) % 0x80
  }

  lemma TouchedTwice(c: Comparison, x: int16, y: int16, z: int16)
    requires y == x || Touched(c, x, y)
    requires z == y || Touched(c, y, z)
    ensures z == x || Touched(c, x, z)
    ensures Touched(c, x, y) || Touched(c, y, z) ==> Touched(c, x, z)
  {
    RegeneratedTwice(x);
    hide Regenerated, Cached, High, ValueKept;
  }

  /** core_list_join.c:100-117 */
  method Compare(c: Comparison, a: ListData, b: ListData) returns (r: int)
    modifies a`data16, b`data16, Scratch(c)
    ensures c.Fixed? ==> r == c.order(ItemOf(a), ItemOf(b)) && ItemOf(a) == old(ItemOf(a)) && ItemOf(b) == old(ItemOf(b))
    ensures c.ByIdx? ==> r == a.idx - b.idx
    ensures c.ByValue? ==> Cached(a.data16) && Cached(b.data16) && r == Value(a.data16) - Value(b.data16)
    ensures Touched(c, old(a.data16), a.data16) && Touched(c, old(b.data16), b.data16)
  {
    match c
    case Fixed(order) =>
      r := order(ItemOf(a), ItemOf(b));
    case ByIdx(regenerate) =>
      r := CmpIdx(a, b, regenerate);
    case ByValue(res) =>
      var val1 := CalcFunc(a, res);
      var val2 := CalcFunc(b, res);
      r := val1 - val2;
  }

  // What a comparison that has answered some questions says about the order of the cells.

  /** A list to be sorted: its cells in their original order, their places in it, their data, and what the data
      contain: indices, which stay, and words. */
  datatype Setting = Setting(c: Comparison, cells: seq<ListHead>, place: map<ListHead, nat>,
                             info: map<ListHead, ListData>, index: map<ListData, int16>, words: map<ListData, int16>)

  /** The data have the indices of the setting, and under a comparison that only reads them also its words. */
  ghost predicate Holds(g: Setting)
    reads g.cells, g.info.Values
  {
    && (forall i :: 0 <= i < |g.cells| ==>
          var x := g.cells[i];
          x in g.place && x in g.info && x.info == g.info[x] && g.place[x] == i && g.info[x] in g.words)
    && forall d :: d in g.info.Values ==>
         d in g.index && g.index[d] == d.idx && (g.c.Fixed? ==> d in g.words && g.words[d] == d.data16)
  }

  /** The items as a comparison that only reads them always finds them. */
  ghost function Seen(g: Setting, d: ListData): Item
    requires d in g.words && d in g.index
  {
    Item(d, g.words[d], g.index[d])
  }

  /** The data words as they are. */
  ghost function Words(g: Setting): (w: map<ListData, int16>)
    reads g.info.Values
    ensures w.Keys == g.info.Values && forall d :: d in g.info.Values ==> w[d] == d.data16
  {
    map d | d in g.info.Values :: d.data16
  }

  /** The order of the cells when cell i has key v[i]. A fixed comparison needs no keys. */
  ghost function Order(g: Setting, v: seq<int>): (ListHead, ListHead) -> bool {
    (a, b) =>
      && a in g.place && b in g.place && a in g.info && b in g.info
      && if g.c.Fixed? then
           var d, e := g.info[a], g.info[b];
           d in g.words && d in g.index && e in g.words && e in g.index && g.c.order(Seen(g, d), Seen(g, e)) <= 0
         else g.place[a] < |v| && g.place[b] < |v| && v[g.place[a]] <= v[g.place[b]]
  }

  /** The keys that agree with the answers given so far: indices are known from the start, values once cached. */
  ghost predicate Allowed(g: Setting, w: map<ListData, int16>, v: seq<int>)
  {
    |v| == |g.cells|
    && forall i :: 0 <= i < |v| && g.cells[i] in g.info && g.info[g.cells[i]] in w && g.info[g.cells[i]] in g.index ==>
         var d := g.info[g.cells[i]];
         match g.c
         case Fixed(_) => true
         case ByIdx(_) => v[i] == g.index[d]
         case ByValue(_) => Cached(w[d]) ==> v[i] == Value(w[d])
  }

  /** Every data word is as it was or as a comparison leaves it. */
  ghost predicate Later(g: Setting, w: map<ListData, int16>, w': map<ListData, int16>) {
    && w.Keys == w'.Keys
    && forall d :: d in w ==> w'[d] == w[d] || Touched(g.c, w[d], w'[d])
  }

  lemma LaterTwice(g: Setting, w: map<ListData, int16>, w': map<ListData, int16>, w'': map<ListData, int16>)
    requires Later(g, w, w') && Later(g, w', w'')
    ensures Later(g, w, w'')
    ensures forall d :: d in w && (Touched(g.c, w[d], w'[d]) || Touched(g.c, w'[d], w''[d])) ==> Touched(g.c, w[d], w''[d])
  {
    forall d | d in w
      ensures w''[d] == w[d] || Touched(g.c, w[d], w''[d])
      ensures Touched(g.c, w[d], w'[d]) || Touched(g.c, w'[d], w''[d]) ==> Touched(g.c, w[d], w''[d])
    {
      TouchedTwice(g.c, w[d], w'[d], w''[d]);
    }
  }

  /** Later answers only rule out keys. */
  lemma AllowedEarlier(g: Setting, w: map<ListData, int16>, w': map<ListData, int16>, v: seq<int>)
    requires Later(g, w, w') && Allowed(g, w', v)
    ensures Allowed(g, w, v)
  {
    hide Cached, Value, High, Regenerated;
  }

  /** Some keys always remain. */
  ghost function SomeKeys(g: Setting, w: map<ListData, int16>): (v: seq<int>)
    requires forall i :: 0 <= i < |g.cells| ==>
               g.cells[i] in g.info && g.info[g.cells[i]] in w && g.info[g.cells[i]] in g.index
    ensures Allowed(g, w, v)
  {
    hide Cached, Value;
    seq(|g.cells|, i requires 0 <= i < |g.cells| =>
      var d := g.info[g.cells[i]]; if g.c.ByIdx? then g.index[d] as int else Value(w[d]))
  }

  /** Keys order cells totally. */
  lemma KeysArePreorder(g: Setting, v: seq<int>)
    requires !g.c.Fixed? && |v| == |g.cells|
    requires forall i :: 0 <= i < |g.cells| ==> g.cells[i] in g.info && g.cells[i] in g.place && g.place[g.cells[i]] == i
    ensures Preorder(Order(g, v), set x | x in g.cells)
  {
  }
}
