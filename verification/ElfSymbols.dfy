// elfio_symbols.hpp and elfio_relocation.hpp: local symbols first, with the relocations kept in step.
module ElfSymbols {
  import opened MachineInts
  import opened IntFacts

  datatype Symbol = Symbol(name: nat, value: nat, size: nat, info: byte, other: byte, shndx: nat)

  const STB_LOCAL := 0

  /** ELF_ST_BIND(st_info) == STB_LOCAL */
  predicate IsLocal(s: Symbol) {
    s.info / 16 == STB_LOCAL
  }

  /** The binding is the upper half of the byte. */
  lemma LocalByInfo()
    ensures forall s: Symbol :: IsLocal(s) <==> s.info < 0x10
  {
  }

  // Relocation entries. The symbol index and the type share one word.

  datatype Entry = Entry(offset: int, info: nat, addend: int)

  /** elfio_relocation.hpp:28-60: the upper 32 bits of a 64-bit word, or the upper 24 of a 32-bit word. */
  function SymbolOf(is64: bool, info: nat): (s: nat)
    ensures s < 0x1_0000_0000
  {
    if is64 then info / 0x1_0000_0000 % 0x1_0000_0000 else info % 0x1_0000_0000 / 0x100
  }

  /** The type as get_entry returns it, an unsigned char. */
  function TypeOf(info: nat): byte {
    info % 0x100
  }

  /** The whole type field: 32 bits of a 64-bit word, 8 of a 32-bit word. */
  function FullType(is64: bool, info: nat): nat {
    if is64 then info % 0x1_0000_0000 else info % 0x100
  }

  /** r_info as set_entry stores it. */
  function MakeInfo(is64: bool, symbol: nat, rtype: byte): nat {
    if is64 then symbol % 0x1_0000_0000 * 0x1_0000_0000 + rtype
    else (symbol % 0x1_0000_0000 * 0x100 + rtype) % 0x1_0000_0000
  }

  /** The word is the index followed by the type: 32 and 32 bits, or 24 and 8. */
  lemma FieldsOfWord(is64: bool, info: nat)
    requires info < if is64 then 0x1_0000_0000_0000_0000 else 0x1_0000_0000
    ensures info == SymbolOf(is64, info) * (if is64 then 0x1_0000_0000 else 0x100) + FullType(is64, info)
    ensures TypeOf(info) == info % 0x100
  {
  }

  /** The indices that an entry can hold. */
  function Capacity(is64: bool): nat {
    if is64 then 0x1_0000_0000 else 0x100_0000
  }

  /** An index survives being stored exactly when it fits its field. */
  lemma StoredIndex(is64: bool, symbol: nat, rtype: byte)
    requires symbol < 0x1_0000_0000
    ensures SymbolOf(is64, MakeInfo(is64, symbol, rtype)) == symbol <==> symbol < Capacity(is64)
    ensures FullType(is64, MakeInfo(is64, symbol, rtype)) == rtype
  {
    if is64 {
      StoredIndex64(symbol, rtype);
    } else {
      StoredIndex32(symbol, rtype);
    }
  }

  lemma StoredIndex64(symbol: nat, rtype: byte)
    requires symbol < 0x1_0000_0000
    ensures SymbolOf(true, MakeInfo(true, symbol, rtype)) == symbol
    ensures FullType(true, MakeInfo(true, symbol, rtype)) == rtype
  {
    var x := symbol * 0x1_0000_0000 + rtype;
    DivUnique(x, 0x1_0000_0000, symbol, rtype);
  }

  lemma StoredIndex32(symbol: nat, rtype: byte)
    requires symbol < 0x1_0000_0000
    ensures SymbolOf(false, MakeInfo(false, symbol, rtype)) == symbol % 0x100_0000
    ensures FullType(false, MakeInfo(false, symbol, rtype)) == rtype
  {
    var h := symbol / 0x100_0000;
    assert symbol * 0x100 + rtype == 0x1_0000_0000 * h + (symbol % 0x100_0000 * 0x100 + rtype);
    assert MakeInfo(false, symbol, rtype) == symbol % 0x100_0000 * 0x100 + rtype;
  }

  class RelocationSection {
    const is64: bool
    const rela: bool
    const entries: array<Entry>

    constructor (is64: bool, rela: bool, entries: array<Entry>)
      ensures this.is64 == is64 && this.rela == rela && this.entries == entries
    {
      this.is64, this.rela, this.entries := is64, rela, entries;
    }

    /** elfio_relocation.hpp:86-118 */
    method GetEntry(index: nat) returns (ok: bool, offset: int, symbol: nat, rtype: byte, addend: int)
      ensures ok <==> index < entries.Length
      ensures ok ==> offset == entries[index].offset && symbol == SymbolOf(is64, entries[index].info)
      ensures ok ==> rtype == TypeOf(entries[index].info) && addend == if rela then entries[index].addend else 0
    {
      ok, offset, symbol, rtype, addend := false, 0, 0, 0, 0;
      if index < entries.Length {
        var e := entries[index];
        ok, offset, symbol, rtype := true, e.offset, SymbolOf(is64, e.info), TypeOf(e.info);
        addend := if rela then e.addend else 0;
      }
    }

    /** elfio_relocation.hpp:188-220 */
    method SetEntry(index: nat, offset: int, symbol: nat, rtype: byte, addend: int) returns (ok: bool)
      modifies entries
      ensures ok <==> index < entries.Length
      ensures forall i :: 0 <= i < entries.Length && i != index ==> entries[i] == old(entries[i])
      ensures ok ==> entries[index] == Entry(offset, MakeInfo(is64, symbol, rtype),
                                             if rela then addend else old(entries[index].addend))
    {
      ok := index < entries.Length;
      if ok {
        entries[index] := Entry(offset, MakeInfo(is64, symbol, rtype), if rela then addend else entries[index].addend);
      }
    }

    /** elfio_relocation.hpp:294-309 */
    method SwapSymbols(first: nat, second: nat)
      modifies entries
      ensures forall i :: 0 <= i < entries.Length ==> entries[i] == Redirected(is64, old(entries[i]), first, second)
      ensures first < 0x1_0000_0000 && second < 0x1_0000_0000 ==> forall i :: 0 <= i < entries.Length ==>
                (FullType(is64, entries[i].info) == FullType(is64, old(entries[i].info))
                 <==> Keeps(is64, old(entries[i]), first, second))
    {
      var i := 0;
      while i < entries.Length
        invariant 0 <= i <= entries.Length
        invariant forall j :: 0 <= j < i ==> entries[j] == Redirected(is64, old(entries[j]), first, second)
        invariant forall j :: i <= j < entries.Length ==> entries[j] == old(entries[j])
      {
        var ok, offset, symbol, rtype, addend := GetEntry(i);
        if symbol == first {
          ok := SetEntry(i, offset, second, rtype, addend);
        }
        if symbol == second {
          ok := SetEntry(i, offset, first, rtype, addend);
        }
        i := i + 1;
      }
      if first < 0x1_0000_0000 && second < 0x1_0000_0000 {
        forall j | 0 <= j < entries.Length
          ensures FullType(is64, entries[j].info) == FullType(is64, old(entries[j].info))
                  <==> Keeps(is64, old(entries[j]), first, second)
        {
          TypeOfRedirected(is64, old(entries[j]), first, second);
        }
      }
    }
  }

  /** The entry after two symbols have changed places. */
  function Redirected(is64: bool, e: Entry, first: nat, second: nat): Entry {
    var s := SymbolOf(is64, e.info);
    if s == first then e.(info := MakeInfo(is64, second, TypeOf(e.info)))
    else if s == second then e.(info := MakeInfo(is64, first, TypeOf(e.info)))
    else e
  }

  /** What a relocation refers to: the contents of its symbol, if the index is in the table. */
  datatype Target = Found(symbol: Symbol) | Dangling(index: nat)

  function Resolve(is64: bool, symbols: seq<Symbol>, e: Entry): Target {
    var s := SymbolOf(is64, e.info);
    if s < |symbols| then Found(symbols[s]) else Dangling(s)
  }

  function Exchange<T>(s: seq<T>, i: nat, j: nat): (t: seq<T>)
    requires i < |s| && j < |s|
    ensures |t| == |s|
  {
    s[i := s[j]][j := s[i]]
  }

  lemma ExchangeElements<T>(s: seq<T>, i: nat, j: nat)
    requires i < j < |s|
    ensures multiset(Exchange(s, i, j)) == multiset(s)
  {
    var a, b, c, x, y := s[..i], s[i + 1..j], s[j + 1..], [s[i]], [s[j]];
    assert s == a + x + b + y + c;
    assert Exchange(s, i, j) == a + y + b + x + c;
    hide Exchange;
    FiveParts(a, x, b, y, c);
    FiveParts(a, y, b, x, c);
  }

  lemma FiveParts<T>(a: seq<T>, b: seq<T>, c: seq<T>, d: seq<T>, e: seq<T>)
    ensures multiset(a + b + c + d + e) == multiset(a) + multiset(b) + multiset(c) + multiset(d) + multiset(e)
  {
  }

  /** The whole type field survives being stored exactly when it fits the byte that carries it. */
  lemma StoredType(is64: bool, info: nat, symbol: nat)
    requires symbol < 0x1_0000_0000
    ensures FullType(is64, MakeInfo(is64, symbol, TypeOf(info))) == TypeOf(info)
    ensures FullType(is64, MakeInfo(is64, symbol, TypeOf(info))) == FullType(is64, info) <==> FullType(is64, info) < 0x100
  {
    StoredIndex(is64, symbol, TypeOf(info));
    hide MakeInfo;
    LowByte(info);
  }

  lemma LowByte(info: nat)
    ensures info % 0x1_0000_0000 % 0x100 == info % 0x100
  {
    var h, t := info / 0x1_0000_0000, info % 0x1_0000_0000;
    assert info == 0x100 * (0x100_0000 * h + t / 0x100) + t % 0x100;
    DivUnique(info, 0x100, 0x100_0000 * h + t / 0x100, t % 0x100);
  }

  /** Redirecting between these two symbols leaves the whole type: the entry is not concerned, or its type is small. */
  predicate Keeps(is64: bool, e: Entry, first: nat, second: nat) {
    (SymbolOf(is64, e.info) != first && SymbolOf(is64, e.info) != second) || FullType(is64, e.info) < 0x100
  }

  lemma TypeOfRedirected(is64: bool, e: Entry, first: nat, second: nat)
    requires first < 0x1_0000_0000 && second < 0x1_0000_0000
    ensures FullType(is64, Redirected(is64, e, first, second).info) == FullType(is64, e.info)
            <==> Keeps(is64, e, first, second)
  {
    StoredType(is64, e.info, first);
    StoredType(is64, e.info, second);
    hide MakeInfo, FullType, TypeOf, SymbolOf;
  }

  /** Exchanging two symbols and redirecting leaves the target, the place and the addend as they were, and the type
      if and only if the entry refers to another symbol or its type is below 256. */
  lemma RedirectionKeepsTarget(is64: bool, symbols: seq<Symbol>, e: Entry, i: nat, j: nat)
    requires i < j < |symbols| <= Capacity(is64)
    ensures var e' := Redirected(is64, e, i, j);
            && Resolve(is64, Exchange(symbols, i, j), e') == Resolve(is64, symbols, e)
            && e'.offset == e.offset && e'.addend == e.addend
            && (FullType(is64, e'.info) == FullType(is64, e.info) <==> Keeps(is64, e, i, j))
  {
    StoredIndex(is64, i, TypeOf(e.info));
    StoredIndex(is64, j, TypeOf(e.info));
    TypeOfRedirected(is64, e, i, j);
    hide MakeInfo, FullType, TypeOf, SymbolOf, Keeps;
  }

  class SymbolSection {
    const symbols: array<Symbol>
    var info: nat

    constructor (symbols: array<Symbol>)
      ensures this.symbols == symbols && info == 0
    {
      this.symbols := symbols;
      info := 0;
    }

    /** elfio_symbols.hpp:501-507 */
    method SkipLocals(from: nat) returns (first: nat)
      ensures from <= first && (from <= symbols.Length ==> first <= symbols.Length) && (from > symbols.Length ==> first == from)
      ensures forall i :: from <= i < first ==> IsLocal(symbols[i])
      ensures first < symbols.Length ==> !IsLocal(symbols[first])
    {
      first := from;
      while first < symbols.Length
        invariant from <= first && (from <= symbols.Length ==> first <= symbols.Length)
        invariant from > symbols.Length ==> first == from
        invariant forall i :: from <= i < first ==> IsLocal(symbols[i])
      {
        if !IsLocal(symbols[first]) {
          break;
        }
        first := first + 1;
      }
    }

    /** elfio_symbols.hpp:509-515 */
    method NextLocal(from: nat) returns (current: nat)
      ensures from <= current && (from <= symbols.Length ==> current <= symbols.Length)
      ensures forall i :: from <= i < current && i < symbols.Length ==> !IsLocal(symbols[i])
      ensures current < symbols.Length ==> IsLocal(symbols[current])
    {
      current := from;
      while current < symbols.Length
        invariant from <= current && (from <= symbols.Length ==> current <= symbols.Length)
        invariant forall i :: from <= i < current && i < symbols.Length ==> !IsLocal(symbols[i])
      {
        if IsLocal(symbols[current]) {
          break;
        }
        current := current + 1;
      }
    }

    /** elfio_symbols.hpp:518-521: a symbol that is not local and a later one that is. */
    method SwapBoth(rel: RelocationSection?, i: nat, j: nat, ghost symbols0: seq<Symbol>, ghost entries0: seq<Entry>)
      requires i < j < symbols.Length && (rel != null ==> symbols.Length <= Capacity(rel.is64))
      requires !IsLocal(symbols[i]) && IsLocal(symbols[j])
      requires rel != null ==> AllFollowed(rel.is64, symbols0, entries0, symbols[..], rel.entries[..], i)
      modifies symbols
      modifies if rel == null then {} else {rel.entries}
      ensures symbols[..] == Exchange(old(symbols[..]), i, j)
      ensures rel != null ==> AllFollowed(rel.is64, symbols0, entries0, symbols[..], rel.entries[..], i)
    {
      hide Followed, Redirected, IsLocal;
      ghost var before := symbols[..];
      if rel != null {
        ghost var entries := rel.entries[..];
        rel.SwapSymbols(i, j);
        KeepReferences(rel.is64, symbols0, entries0, before, entries, rel.entries[..], i, j);
      }
      symbols[i], symbols[j] := symbols[j], symbols[i];
      assert symbols[..] == Exchange(before, i, j);
    }

    /** elfio_symbols.hpp:487-533, with swap_symbols of a relocation section as the callback. Entry 0 stays;
        the local symbols come before the others; the boundary is returned and recorded. */
    method ArrangeLocalSymbols(rel: RelocationSection?) returns (firstNotLocal: nat)
      requires rel != null ==> symbols.Length <= Capacity(rel.is64)
      modifies symbols, this
      modifies if rel == null then {} else {rel.entries}
      ensures 1 <= firstNotLocal && info == firstNotLocal && (symbols.Length > 0 ==> firstNotLocal <= symbols.Length)
      ensures multiset(symbols[..]) == multiset(old(symbols[..]))
      ensures symbols.Length > 0 ==> symbols[0] == old(symbols[0])
      ensures forall i :: 1 <= i < firstNotLocal && i < symbols.Length ==> IsLocal(symbols[i])
      ensures forall i :: firstNotLocal <= i < symbols.Length ==> !IsLocal(symbols[i])
      ensures forall i :: 1 <= i < symbols.Length ==> (symbols[i].info < 0x10 <==> i < firstNotLocal)
      ensures Locals(symbols[..]) == Locals(old(symbols[..]))
      ensures rel != null ==>
                AllReferencesKept(rel.is64, old(symbols[..]), old(rel.entries[..]), symbols[..], rel.entries[..])
    {
      hide AllReferencesKept, AllFollowed, IsLocal, Exchange, Locals;
      ghost var symbols0 := symbols[..];
      ghost var entries0 := if rel == null then [] else rel.entries[..];
      if rel != null {
        NothingChanged(rel.is64, symbols0, entries0, 1);
      }
      firstNotLocal := 1;
      var current := 0;
      var count := symbols.Length;
      while true
        invariant 1 <= firstNotLocal && (count > 0 ==> firstNotLocal <= count)
        invariant forall i :: 1 <= i < firstNotLocal && i < count ==> IsLocal(symbols[i])
        invariant multiset(symbols[..]) == multiset(symbols0) && (count > 0 ==> symbols[0] == symbols0[0])
        invariant Locals(symbols[..]) == Locals(symbols0)
        invariant rel != null ==>
                    AllFollowed(rel.is64, symbols0, entries0, symbols[..], rel.entries[..], firstNotLocal)
        decreases count - firstNotLocal,
                  if firstNotLocal < count && !IsLocal(symbols[firstNotLocal]) then 1 else 0
      {
        ghost var b := firstNotLocal;
        firstNotLocal := SkipLocals(firstNotLocal);
        if rel != null {
          LaterBoundary(rel.is64, symbols0, entries0, symbols[..], rel.entries[..], b, firstNotLocal);
        }
        current := NextLocal(firstNotLocal + 1);
        if firstNotLocal < count && current < count {
          ghost var before := symbols[..];
          SwapBoth(rel, firstNotLocal, current, symbols0, entries0);
          ExchangeElements(before, firstNotLocal, current);
          LocalsExchanged(before, firstNotLocal, current);
          ExchangeAt(before, firstNotLocal, current, symbols[..]);
        } else {
          info := firstNotLocal;
          LocalByInfo();
          if rel != null {
            AllKept(rel.is64, symbols0, entries0, symbols[..], rel.entries[..], firstNotLocal);
          }
          break;
        }
      }
    }
  }

  /** The local symbols, in order. */
  function Locals(s: seq<Symbol>): (l: seq<Symbol>) {
    if s == [] then [] else Locals(s[..|s| - 1]) + if IsLocal(s[|s| - 1]) then [s[|s| - 1]] else []
  }

  lemma {:induction false} LocalsConcat(s: seq<Symbol>, t: seq<Symbol>)
    ensures Locals(s + t) == Locals(s) + Locals(t)
  {
    if t == [] {
      assert s + t == s;
    } else {
      assert (s + t)[..|s + t| - 1] == s + t[..|t| - 1];
      LocalsConcat(s, t[..|t| - 1]);
    }
  }

  lemma {:induction false} NoLocals(s: seq<Symbol>)
    requires forall k :: 0 <= k < |s| ==> !IsLocal(s[k])
    ensures Locals(s) == []
  {
    if s != [] {
      NoLocals(s[..|s| - 1]);
    }
  }

  lemma LocalsAround(a: seq<Symbol>, m: seq<Symbol>, c: seq<Symbol>)
    requires forall k :: 0 <= k < |m| ==> !IsLocal(m[k])
    ensures Locals(a + m + c) == Locals(a) + Locals(c)
  {
    hide Locals, IsLocal;
    LocalsConcat(a + m, c);
    LocalsConcat(a, m);
    NoLocals(m);
    assert Locals(a) + [] == Locals(a);
  }

  lemma OneLocal(a: seq<Symbol>, m: seq<Symbol>, y: Symbol, n: seq<Symbol>, c: seq<Symbol>)
    requires IsLocal(y) && (forall k :: 0 <= k < |m| ==> !IsLocal(m[k])) && forall k :: 0 <= k < |n| ==> !IsLocal(n[k])
    ensures Locals(a + m + [y] + n + c) == Locals(a) + Locals([y]) + Locals(c)
  {
    hide Locals, IsLocal;
    LocalsAround(a + m + [y], n, c);
    LocalsAround(a, m, [y]);
  }

  /** Bringing forward the next local symbol does not change their order. */
  lemma LocalsExchanged(s: seq<Symbol>, i: nat, j: nat)
    requires i < j < |s| && IsLocal(s[j]) && forall k :: i <= k < j ==> !IsLocal(s[k])
    ensures Locals(Exchange(s, i, j)) == Locals(s)
  {
    hide Locals, IsLocal;
    OneLocal(s[..i], s[i..j], s[j], [], s[j + 1..]);
    OneLocal(s[..i], [], s[j], s[i + 1..j] + [s[i]], s[j + 1..]);
    Splits(s, i, j);
  }

  lemma Splits<T>(s: seq<T>, i: nat, j: nat)
    requires i < j < |s|
    ensures s == s[..i] + s[i..j] + [s[j]] + [] + s[j + 1..]
    ensures Exchange(s, i, j) == s[..i] + [] + [s[j]] + (s[i + 1..j] + [s[i]]) + s[j + 1..]
  {
  }

  lemma ExchangeAt<T>(s: seq<T>, i: nat, j: nat, t: seq<T>)
    requires i < j < |s| && t == Exchange(s, i, j)
    ensures forall k :: 0 <= k < |s| && k != i && k != j ==> t[k] == s[k]
    ensures t[i] == s[j] && t[j] == s[i]
  {
  }

  predicate AllReferencesKept(is64: bool, symbols0: seq<Symbol>, entries0: seq<Entry>, symbols: seq<Symbol>, entries: seq<Entry>) {
    |entries0| == |entries|
    && forall k :: 0 <= k < |entries| ==> SameReference(is64, symbols0, entries0[k], symbols, entries[k])
  }

  /** The same place is still patched, with the same addend, using the same symbol contents. The type is the same if
      and only if the symbol has kept its index or the type is below 256. */
  predicate SameReference(is64: bool, symbols: seq<Symbol>, e: Entry, symbols': seq<Symbol>, e': Entry) {
    && Resolve(is64, symbols', e') == Resolve(is64, symbols, e)
    && e'.offset == e.offset && e'.addend == e.addend
    && (FullType(is64, e'.info) == FullType(is64, e.info)
        <==> SymbolOf(is64, e'.info) == SymbolOf(is64, e.info) || FullType(is64, e.info) < 0x100)
  }

  /** What holds of an entry while the table is being arranged: it has not been touched; or its symbol, not local,
      has moved back; or its symbol, local, has moved forward to where it stays. */
  predicate Followed(is64: bool, symbols0: seq<Symbol>, e: Entry, symbols: seq<Symbol>, e': Entry, boundary: nat) {
    var p0, p := SymbolOf(is64, e.info), SymbolOf(is64, e'.info);
    && Resolve(is64, symbols, e') == Resolve(is64, symbols0, e)
    && e'.offset == e.offset && e'.addend == e.addend
    && if p == p0 then e'.info == e.info
       else
         && p < |symbols| && FullType(is64, e'.info) == TypeOf(e.info)
         && if p > p0 then !IsLocal(symbols[p]) else IsLocal(symbols[p]) && p <= boundary
  }

  predicate AllFollowed(is64: bool, symbols0: seq<Symbol>, entries0: seq<Entry>, symbols: seq<Symbol>,
                        entries: seq<Entry>, boundary: nat) {
    |entries0| == |entries|
    && forall k :: 0 <= k < |entries| ==> Followed(is64, symbols0, entries0[k], symbols, entries[k], boundary)
  }

  lemma NothingChanged(is64: bool, symbols: seq<Symbol>, entries: seq<Entry>, boundary: nat)
    ensures AllFollowed(is64, symbols, entries, symbols, entries, boundary)
  {
  }

  lemma LaterBoundary(is64: bool, symbols0: seq<Symbol>, entries0: seq<Entry>, symbols: seq<Symbol>,
                      entries: seq<Entry>, b: nat, b': nat)
    requires AllFollowed(is64, symbols0, entries0, symbols, entries, b) && b <= b'
    ensures AllFollowed(is64, symbols0, entries0, symbols, entries, b')
  {
    hide Resolve, SymbolOf, FullType, TypeOf, IsLocal;
  }

  lemma AllKept(is64: bool, symbols0: seq<Symbol>, entries0: seq<Entry>, symbols: seq<Symbol>,
                entries: seq<Entry>, boundary: nat)
    requires AllFollowed(is64, symbols0, entries0, symbols, entries, boundary)
    ensures AllReferencesKept(is64, symbols0, entries0, symbols, entries)
  {
    forall k | 0 <= k < |entries|
      ensures SameReference(is64, symbols0, entries0[k], symbols, entries[k])
    {
      hide Resolve, SymbolOf, IsLocal;
      LowByte(entries0[k].info);
    }
  }

  /** One exchange of a symbol that is not local with a later local one. */
  lemma OneExchange(is64: bool, symbols0: seq<Symbol>, e0: Entry, symbols: seq<Symbol>, e: Entry, i: nat, j: nat)
    requires i < j < |symbols| <= Capacity(is64) && !IsLocal(symbols[i]) && IsLocal(symbols[j])
    requires Followed(is64, symbols0, e0, symbols, e, i)
    ensures Followed(is64, symbols0, e0, Exchange(symbols, i, j), Redirected(is64, e, i, j), i)
  {
    RedirectionKeepsTarget(is64, symbols, e, i, j);
    StoredIndex(is64, i, TypeOf(e.info));
    StoredIndex(is64, j, TypeOf(e.info));
    LowByte(e0.info);
    hide Resolve, SymbolOf, IsLocal, MakeInfo, Keeps;
  }

  lemma KeepReferences(is64: bool, symbols0: seq<Symbol>, entries0: seq<Entry>, symbols: seq<Symbol>, entries: seq<Entry>,
                       entries': seq<Entry>, i: nat, j: nat)
    requires i < j < |symbols| <= Capacity(is64) && |entries| == |entries'|
    requires !IsLocal(symbols[i]) && IsLocal(symbols[j])
    requires AllFollowed(is64, symbols0, entries0, symbols, entries, i)
    requires forall k :: 0 <= k < |entries| ==> entries'[k] == Redirected(is64, entries[k], i, j)
    ensures AllFollowed(is64, symbols0, entries0, Exchange(symbols, i, j), entries', i)
  {
    hide Redirected, Followed, Exchange, IsLocal;
    forall k | 0 <= k < |entries|
      ensures Followed(is64, symbols0, entries0[k], Exchange(symbols, i, j), entries'[k], i)
    {
      OneExchange(is64, symbols0, entries0[k], symbols, entries[k], i, j);
    }
  }
}
