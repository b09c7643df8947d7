// elfio.hpp:615-887: sections, segments and their places in the file.
module ElfPlaces {
  import opened IntFacts
  import opened ElfSegments

  // Sizes and positions are 64-bit words and wrap around.

  const WORD := 0x1_0000_0000_0000_0000

  type Word64 = x: int | 0 <= x < WORD

  /** Elf_Half, the width of sizes and counts in the ELF header. */
  type Half = x: int | 0 <= x < 0x1_0000

  function Wrap(x: int): Word64 {
    x % WORD
  }

  const SHT_NULL := 0
  const SHT_NOBITS := 8
  const SHF_ALLOC := 2
  const SHF_TLS := 0x400
  const PT_PHDR := 6
  const PT_TLS := 7

  datatype Section = Section(stype: nat, flags: nat, size: Word64, align: Word64, address: Word64, addressSet: bool,
                             offset: Word64)

  predicate HasFlag(flags: nat, f: nat)
    requires f > 0
  {
    flags / f % 2 == 1
  }

  /** The bytes a section takes in the file. */
  function FileSize(s: Section): Word64 {
    if s.stype == SHT_NOBITS || s.stype == SHT_NULL then 0 else s.size
  }

  /** Sections of types 8 and 0, SHT_NOBITS and SHT_NULL, take none. */
  lemma BytesInFile(s: Section)
    ensures FileSize(s) == if s.stype == 0 || s.stype == 8 then 0 else s.size
    ensures HasContents(s) <==> s.stype != 8 && s.size != 0
  {
  }

  /** The segment that a section was laid out with: its number, its file offset, its address. */
  datatype Owner = Nobody | Owner(segment: nat, start: Word64, vaddr: Word64)

  /** A section that has been given its place. */
  datatype Placed = Placed(index: nat, offset: Word64, size: Word64, owner: Owner)

  /** A loader that maps the segment's file offset to its address finds the section at its own address. Only
      sections without file contents are exempt. */
  predicate MapsTo(s: Section, offset: Word64, owner: Owner) {
    owner.Owner? ==>
      s.stype == SHT_NOBITS || s.size == 0 || Wrap(offset - owner.start) == Wrap(s.address - owner.vaddr)
  }

  /** The places follow each other between `start` and `end`. */
  predicate InOrder(p: seq<Placed>, start: int, end: int) {
    && start <= end
    && (forall a :: 0 <= a < |p| ==> start <= p[a].offset && 0 <= p[a].size && p[a].offset + p[a].size <= end)
    && (forall a, b :: 0 <= a < b < |p| ==> p[a].offset + p[a].size <= p[b].offset)
  }

  lemma InOrderAppend(p: seq<Placed>, start: int, end: int, x: Placed, end': int)
    requires InOrder(p, start, end) && end <= x.offset && 0 <= x.size && x.offset + x.size <= end'
    ensures InOrder(p + [x], start, end')
  {
  }

  /** Setting the offset changes neither the size in the file nor where the section is found. */
  lemma OffsetIsFree(s: Section, o: Word64, offset: Word64, owner: Owner)
    ensures FileSize(s.(offset := o)) == FileSize(s)
    ensures MapsTo(s.(offset := o), offset, owner) <==> MapsTo(s, offset, owner)
  {
  }

  lemma NewPlace(p: seq<Placed>, start: int, pos: Word64, x: Placed)
    requires Once(p) && !Lists(p, x.index) && x.offset == pos
    ensures Once(p + [x])
    ensures InOrder(p, start, pos) && pos + x.size < WORD ==> InOrder(p + [x], start, Wrap(pos + x.size))
  {
    if InOrder(p, start, pos) && pos + x.size < WORD {
      InOrderAppend(p, start, pos, x, pos + x.size);
    }
  }

  predicate IsAligned(s: Section, x: Placed) {
    s.align > 0 ==> x.offset % s.align == 0
  }

  /** The section is placed at the first position behind `pos` that is a multiple of its alignment. */
  predicate NextMultipleAt(s: Section, pos: int, x: Placed) {
    IsAligned(s, x) && pos <= x.offset < pos + if s.align > 0 then s.align else 1
  }

  /** Where entry a can begin: behind the entry before it; entry n, at `from`. */
  function FreeFrom(p: seq<Placed>, n: nat, from: int, a: nat): int
    requires n <= a <= |p|
  {
    if a == n then from else p[a - 1].offset + p[a - 1].size
  }

  /** The entries from n on are sections in the order of their numbers, each at the first multiple of its alignment. */
  predicate PackedFrom(sections: seq<Section>, p: seq<Placed>, n: nat, from: int) {
    && (forall a :: n <= a < |p| ==> p[a].index < |sections| && NextMultipleAt(sections[p[a].index], FreeFrom(p, n, from, a), p[a]))
    && forall a, b :: n <= a < b < |p| ==> p[a].index < p[b].index
  }

  lemma FreeFromGrows(p: seq<Placed>, q: seq<Placed>, n: nat, from: int, a: nat)
    requires p <= q && n <= a <= |p|
    ensures FreeFrom(q, n, from, a) == FreeFrom(p, n, from, a)
  {
    assert a == n || q[a - 1] == p[a - 1];
  }

  lemma PackedStep(s: seq<Section>, t: seq<Section>, p: seq<Placed>, x: Placed, n: nat, from: int)
    requires n <= |p| && x.index < |s| == |t| && PackedFrom(s, p, n, from)
    requires forall j :: 0 <= j < |s| ==> t[j].align == s[j].align
    requires NextMultipleAt(t[x.index], FreeFrom(p, n, from, |p|), x)
    requires forall a :: n <= a < |p| ==> p[a].index < x.index
    ensures PackedFrom(t, p + [x], n, from) && FreeFrom(p + [x], n, from, |p| + 1) == x.offset + x.size
  {
    hide NextMultipleAt, FreeFrom;
    var q := p + [x];
    forall a | n <= a < |q|
      ensures q[a].index < |t| && NextMultipleAt(t[q[a].index], FreeFrom(q, n, from, a), q[a])
    {
      FreeFromGrows(p, q, n, from, a);
      if a < |p| {
        SameAlign(s[p[a].index], t[p[a].index], FreeFrom(p, n, from, a), p[a]);
      }
    }
    FreeFromLast(p, x, n, from);
  }

  lemma FreeFromLast(p: seq<Placed>, x: Placed, n: nat, from: int)
    requires n <= |p|
    ensures FreeFrom(p + [x], n, from, |p| + 1) == x.offset + x.size
  {
  }

  lemma SameAlign(s: Section, t: Section, pos: int, x: Placed)
    requires s.align == t.align && NextMultipleAt(s, pos, x)
    ensures NextMultipleAt(t, pos, x)
  {
  }

  lemma AlignedByPacking(s: seq<Section>, p: seq<Placed>, n: nat, from: int)
    requires n <= |p| && PackedFrom(s, p, n, from)
    ensures forall a :: n <= a < |p| ==> p[a].index < |s| && IsAligned(s[p[a].index], p[a])
  {
  }

  /** A section that came without an address, as s says, is aligned. */
  predicate FreeAligned(s: seq<Section>, x: Placed) {
    x.index < |s| && (s[x.index].addressSet || IsAligned(s[x.index], x))
  }

  predicate Once(p: seq<Placed>) {
    forall a, b :: 0 <= a < b < |p| ==> p[a].index != p[b].index
  }

  predicate Lists(p: seq<Placed>, i: nat) {
    exists a :: 0 <= a < |p| && p[a].index == i
  }

  /** The padding of elfio.hpp:765-771: afterwards the position is congruent to the address. */
  function SegmentPadding(align: Word64, vaddr: Word64, pos: Word64): Word64 {
    var a := if align > 0 then align else 1;
    Wrap(align + Wrap(vaddr % a - pos % a)) % a
  }

  /** Whether the wrapped subtraction comes out right: always for alignments up to 2^63. */
  predicate PaddingFits(align: Word64, vaddr: Word64, pos: Word64)
    requires align > 0
  {
    vaddr % align < pos % align || align + (vaddr % align - pos % align) < WORD
  }

  lemma PaddingValue(align: Word64, vaddr: Word64, pos: Word64)
    requires 0 < align
    ensures var d: int := vaddr % align - pos % align;
            SegmentPadding(align, vaddr, pos) == if d < 0 then align + d else if align + d < WORD then d else align + d - WORD
  {
    hide Wrap;
    var d: int := vaddr % align - pos % align;
    PaddingWrap(align, d);
    if d < 0 {
      DivUnique(align + d, align, 0, align + d);
    } else if align + d < WORD {
      DivUnique(align + d, align, 1, d);
    } else {
      DivUnique(align + d - WORD, align, 0, align + d - WORD);
    }
  }

  lemma PaddingWrap(align: int, d: int)
    requires 0 < align < WORD && -align < d < align
    ensures Wrap(align + Wrap(d)) == if align + d < WORD then align + d else align + d - WORD
  {
  }

  /** For every alignment, power of two or not, the padded position is congruent to the address exactly if it does. */
  lemma SegmentPaddingAligns(align: Word64, vaddr: Word64, pos: Word64)
    requires 0 < align
    ensures (pos + SegmentPadding(align, vaddr, pos)) % align == vaddr % align <==> PaddingFits(align, vaddr, pos)
    ensures align <= WORD / 2 ==> PaddingFits(align, vaddr, pos)
    ensures SegmentPadding(align, vaddr, pos) < align
  {
    var x, c, q := vaddr % align, pos % align, pos / align;
    PaddingValue(align, vaddr, pos);
    var p := SegmentPadding(align, vaddr, pos);
    hide SegmentPadding, Wrap;
    DivMod(vaddr, align);
    DivMod(pos, align);
    if x < c {
      assert align * (q + 1) == align * q + align;
      DivUnique(pos + p, align, q + 1, x);
    } else {
      DivUnique(pos + p, align, q, c + p);
    }
  }

  // The padding before a member that has not been placed yet.

  predicate HasContents(s: Section) {
    s.stype != SHT_NOBITS && s.size != 0
  }

  /** elfio.hpp:799-805: the member would have to lie before the current position. */
  predicate SeeksBack(s: Section, vaddr: Word64, segStart: Word64, pos: Word64) {
    s.stype != SHT_NULL && s.addressSet && HasContents(s) && Wrap(s.address - vaddr) < Wrap(pos - segStart)
  }

  /** elfio.hpp:790-818 */
  function MemberPadding(s: Section, vaddr: Word64, segStart: Word64, pos: Word64): Word64
    requires !SeeksBack(s, vaddr, segStart, pos)
  {
    if s.stype == SHT_NULL then 0
    else if !s.addressSet then Padding(s.align, pos)
    else if HasContents(s) then Wrap(s.address - vaddr) - Wrap(pos - segStart)
    else 0
  }

  /** The record of a section placed with a segment: an address if it had none, and the offset unless it is number 0. */
  function AsPlaced(s: Section, index: nat, offset: Word64, vaddr: Word64, segStart: Word64): Section {
    Section(s.stype, s.flags, s.size, s.align, if s.addressSet then s.address else Wrap(vaddr + offset - segStart), true,
            if index == 0 then s.offset else offset)
  }

  /** A member without an address goes to the next multiple of its alignment. */
  lemma MemberAligned(s: Section, vaddr: Word64, segStart: Word64, pos: Word64)
    requires s.stype != SHT_NULL && !s.addressSet && s.align > 0
    ensures (pos + MemberPadding(s, vaddr, segStart, pos)) % s.align == 0
    ensures MemberPadding(s, vaddr, segStart, pos) < s.align
  {
    var a, r, q := s.align, pos % s.align, pos / s.align;
    DivMod(pos, a);
    if r == 0 {
      DivUnique(a, a, 1, 0);
    } else {
      DivUnique(a - r, a, 0, a - r);
      assert a * (q + 1) == a * q + a;
      DivUnique(pos + (a - r), a, q + 1, 0);
    }
  }

  /** A member that passes the test for seeking back is nevertheless placed before the current position exactly if
      its distance from the segment's address, in 64-bit arithmetic, leads past the end of the file's addresses. */
  lemma PlacedBackwards(s: Section, vaddr: Word64, segStart: Word64, pos: Word64)
    requires s.stype != SHT_NULL && s.addressSet && HasContents(s) && segStart <= pos
    requires !SeeksBack(s, vaddr, segStart, pos)
    ensures Wrap(pos + MemberPadding(s, vaddr, segStart, pos)) < pos <==> segStart + Wrap(s.address - vaddr) >= WORD
  {
    hide Wrap;
    var d := Wrap(s.address - vaddr);
    WrapUnique(pos - segStart, pos - segStart, 0);
    if segStart + d >= WORD {
      WrapUnique(segStart + d, segStart + d - WORD, 1);
    } else {
      WrapUnique(segStart + d, segStart + d, 0);
    }
  }

  /** For instance a section one byte below the address of its segment, at the start of that segment: it is placed
      one byte before it, over whatever lies there. */
  lemma OneByteBelow(pos: Word64)
    requires pos > 0
    ensures var s := Section(1, SHF_ALLOC, 2, 1, 0xfff, true, 0);
            !SeeksBack(s, 0x1000, pos, pos) && Wrap(pos + MemberPadding(s, 0x1000, pos, pos)) == pos - 1
  {
  }

  /** Where that padding leads, a loader that maps the segment finds the section at its address, given or assigned. */
  lemma MemberMaps(s: Section, vaddr: Word64, segStart: Word64, pos: Word64)
    requires s.stype != SHT_NULL && !SeeksBack(s, vaddr, segStart, pos)
    ensures var offset := Wrap(pos + MemberPadding(s, vaddr, segStart, pos));
            var t := if s.addressSet then s else s.(address := Wrap(vaddr + offset - segStart), addressSet := true);
            forall segment: nat :: MapsTo(t, offset, Owner(segment, segStart, vaddr))
  {
    hide Wrap, Padding;
    if s.addressSet {
      if HasContents(s) {
        RequiredOffset(pos, segStart, Wrap(s.address - vaddr));
      }
    } else {
      AssignedAddress(vaddr, Wrap(pos + MemberPadding(s, vaddr, segStart, pos)), segStart);
    }
  }

  /** elfio.hpp:816-831: behind a member that has its place already, the segment ends where the member ends. */
  lemma EndsWith(segStart: Word64, fileSize: Word64, offset: Word64, size: Word64)
    ensures Wrap(segStart + Wrap(fileSize + size + Wrap(offset - segStart - fileSize))) == Wrap(offset + size)
  {
    var i := WrapQuotient(offset - segStart - fileSize);
    var j := WrapQuotient(fileSize + size + Wrap(offset - segStart - fileSize));
    var k := WrapQuotient(offset + size);
    hide Wrap;
    WrapUnique(segStart + Wrap(fileSize + size + Wrap(offset - segStart - fileSize)), Wrap(offset + size), k - i - j);
  }

  // Which part of the file a segment covers.

  /** Entry b lies where the entry before it ends; entry n, at `from`. */
  predicate Tight(p: seq<Placed>, n: nat, from: int, b: nat)
    requires n <= b < |p|
  {
    p[b].offset == if b == n then from else p[b - 1].offset + p[b - 1].size
  }

  predicate IsNoBits(sections: seq<Section>, x: Placed) {
    x.index < |sections| && sections[x.index].stype == SHT_NOBITS
  }

  /** The sections without contents among the entries from n to c have not been padded. */
  predicate NoBitsTight(sections: seq<Section>, p: seq<Placed>, n: nat, from: int, c: nat)
    requires c <= |p|
  {
    forall b :: n <= b < c && IsNoBits(sections, p[b]) ==> Tight(p, n, from, b)
  }

  /** Entry c is the last one with contents. */
  predicate LastContents(sections: seq<Section>, p: seq<Placed>, n: nat, c: nat) {
    n <= c < |p| && !IsNoBits(sections, p[c]) && forall d :: c < d < |p| ==> IsNoBits(sections, p[d])
  }

  /** How the size of a segment in the file relates to the entries from n on, which are its sections, laid out from
      position `from`: it falls behind by the padding before sections without contents. */
  ghost predicate Sized(sections: seq<Section>, p: seq<Placed>, n: nat, from: int, start: int, fileSize: int, pos: int) {
    && n <= |p| && 0 <= start <= from <= start + fileSize <= pos && (forall b :: n <= b < |p| ==> from <= p[b].offset)
    && pos == (if |p| == n then from else p[|p| - 1].offset + p[|p| - 1].size)
    && (start + fileSize == pos <==> NoBitsTight(sections, p, n, from, |p|))
    && forall c: nat :: LastContents(sections, p, n, c) ==>
         && start + fileSize <= p[c].offset + p[c].size
         && (start + fileSize == p[c].offset + p[c].size <==> NoBitsTight(sections, p, n, from, c))
  }

  lemma SizedStart(sections: seq<Section>, p: seq<Placed>, start: int, fileSize: int, pos: int)
    requires 0 <= start <= pos && start + fileSize == pos
    ensures Sized(sections, p, |p|, pos, start, fileSize, pos)
  {
  }

  /** Entries before c do not see what is appended. */
  lemma TightKept(sections: seq<Section>, p: seq<Placed>, n: nat, from: int, x: Placed, c: nat)
    requires n <= |p| && c <= |p|
    ensures NoBitsTight(sections, p + [x], n, from, c) <==> NoBitsTight(sections, p, n, from, c)
  {
    var q := p + [x];
    assert forall b :: n <= b < c ==> q[b] == p[b] && Tight(q, n, from, b) == Tight(p, n, from, b);
  }

  lemma TightStep(sections: seq<Section>, p: seq<Placed>, n: nat, from: int, x: Placed)
    requires n <= |p|
    ensures NoBitsTight(sections, p + [x], n, from, |p| + 1) <==>
              NoBitsTight(sections, p, n, from, |p|) && (IsNoBits(sections, x) ==> Tight(p + [x], n, from, |p|))
  {
    TightKept(sections, p, n, from, x, |p|);
    assert (p + [x])[|p|] == x;
  }

  lemma LastStep(sections: seq<Section>, p: seq<Placed>, n: nat, x: Placed, c: nat)
    requires n <= |p| && LastContents(sections, p + [x], n, c)
    ensures if IsNoBits(sections, x) then c < |p| && LastContents(sections, p, n, c) else c == |p|
  {
    var q := p + [x];
    assert q[|p|] == x && forall b :: 0 <= b < |p| ==> q[b] == p[b];
  }

  /** One more section: only contents, and the padding before them, count. */
  lemma SizedStep(sections: seq<Section>, p: seq<Placed>, n: nat, from: int, start: int, fileSize: int, pos: int,
                  x: Placed, fileSize': int)
    requires Sized(sections, p, n, from, start, fileSize, pos) && pos <= x.offset && 0 <= x.size
    requires IsNoBits(sections, x) ==> x.size == 0
    requires fileSize' == fileSize + if IsNoBits(sections, x) then 0 else x.offset + x.size - pos
    ensures Sized(sections, p + [x], n, from, start, fileSize', x.offset + x.size)
  {
    hide NoBitsTight, LastContents, IsNoBits;
    var q := p + [x];
    TightStep(sections, p, n, from, x);
    assert Tight(q, n, from, |p|) <==> x.offset == pos;
    forall c: nat | LastContents(sections, q, n, c)
      ensures c < |q| && start + fileSize' <= q[c].offset + q[c].size
      ensures start + fileSize' == q[c].offset + q[c].size <==> NoBitsTight(sections, q, n, from, c)
    {
      LastStep(sections, p, n, x, c);
      TightKept(sections, p, n, from, x, c);
      assert if c < |p| then q[c] == p[c] else q[c] == x;
    }
  }

  /** None of the members has a place yet, and none is listed twice. */
  predicate Fresh(generated: seq<bool>, members: seq<nat>) {
    && (forall j :: 0 <= j < |members| ==> members[j] < |generated| && !generated[members[j]])
    && forall i, j :: 0 <= i < j < |members| ==> members[i] != members[j]
  }

  /** The step of the code: a new member, not empty. */
  lemma NextSized(sections: seq<Section>, p: seq<Placed>, n: nat, from: int, start: int, fileSize: Word64, pos: Word64,
                  sec: Section, padding: Word64, x: Placed, fileSize': Word64, pos': Word64)
    requires Sized(sections, p, n, from, start, fileSize, pos) && x.index < |sections| && SameKind(sec, sections[x.index])
    requires sec.stype != SHT_NULL && x.size == FileSize(sec) && x.offset == pos + padding && pos' == x.offset + x.size
    requires fileSize' == if sec.stype == SHT_NOBITS then fileSize else Wrap(fileSize + sec.size + padding)
    ensures Sized(sections, p + [x], n, from, start, fileSize', pos')
  {
    hide Sized, Wrap;
    SizedBelow(sections, p, n, from, start, fileSize, pos);
    NoWrap(fileSize + sec.size + padding);
    SizedStep(sections, p, n, from, start, fileSize, pos, x, fileSize');
  }

  lemma SizedBelow(sections: seq<Section>, p: seq<Placed>, n: nat, from: int, start: int, fileSize: int, pos: int)
    requires Sized(sections, p, n, from, start, fileSize, pos)
    ensures 0 <= start && start + fileSize <= pos
  {
  }

  lemma NotYetMarked(g0: seq<bool>, g: seq<bool>, members: seq<nat>, j: nat)
    requires |g0| == |g| && j < |members| && members[j] < |g|
    requires forall i :: 0 <= i < |g| && g[i] && !g0[i] ==> i in members[..j]
    ensures Fresh(g0, members) ==> !g[members[j]]
  {
  }

  /** The part of the file given to the segment takes in its sections. */
  predicate Covered(p: seq<Placed>, n: nat, start: int, fileSize: int) {
    forall b :: n <= b < |p| && p[b].size > 0 ==> start <= p[b].offset && p[b].offset + p[b].size <= start + fileSize
  }

  lemma LastEnds(sections: seq<Section>, p: seq<Placed>, n: nat, first: int, pos: int, c: nat, b: nat)
    requires InOrder(p, first, pos) && LastContents(sections, p, n, c) && n <= b < |p| && p[b].size > 0
    requires p[b].index < |sections| && p[b].size == FileSize(sections[p[b].index])
    ensures p[b].offset + p[b].size <= p[c].offset + p[c].size
  {
  }

  /** It does so exactly if no section without contents was padded before the last one with contents. */
  lemma CoveredIff(sections: seq<Section>, p: seq<Placed>, n: nat, from: int, start: int, fileSize: int, first: int,
                   pos: int, c: nat)
    requires Sized(sections, p, n, from, start, fileSize, pos) && InOrder(p, first, pos)
    requires LastContents(sections, p, n, c) && p[c].size > 0
    requires forall b :: n <= b < |p| ==> p[b].index < |sections| && p[b].size == FileSize(sections[p[b].index])
    ensures Covered(p, n, start, fileSize) <==> NoBitsTight(sections, p, n, from, c)
  {
    hide NoBitsTight, IsNoBits, InOrder, FileSize;
    forall b: nat | n <= b < |p| && p[b].size > 0
      ensures start <= p[b].offset && p[b].offset + p[b].size <= p[c].offset + p[c].size
    {
      LastEnds(sections, p, n, first, pos, c, b);
    }
    if Covered(p, n, start, fileSize) {
      assert p[c].offset + p[c].size <= start + fileSize;
    }
  }

  /** For instance a section of four bytes, then one without contents that is to be aligned to eight, then another of four
      bytes: the segment is given eight bytes of the file, and the last section lies behind them. */
  lemma LastSectionOutside(pos: Word64, vaddr: Word64)
    requires pos % 8 == 0 && pos + 12 < WORD
    ensures var data, bss := Section(1, SHF_ALLOC, 4, 4, 0, false, 0), Section(SHT_NOBITS, SHF_ALLOC, 64, 8, 0, false, 0);
            var p := [Placed(1, pos, 4, Nobody), Placed(2, pos + 8, 0, Nobody), Placed(3, pos + 8, 4, Nobody)];
            && MemberPadding(data, vaddr, pos, pos) == 0
            && MemberPadding(bss, vaddr, pos, pos + 4) == 4
            && MemberPadding(data, vaddr, pos, pos + 8) == 0
            && Sized([data, data, bss, data], p, 0, pos, pos, 8, pos + 12) && !Covered(p, 0, pos, 8)
  {
    var data, bss := Section(1, SHF_ALLOC, 4, 4, 0, false, 0), Section(SHT_NOBITS, SHF_ALLOC, 64, 8, 0, false, 0);
    var t, x, y, z := [data, data, bss, data], Placed(1, pos, 4, Nobody), Placed(2, pos + 8, 0, Nobody), Placed(3, pos + 8, 4, Nobody);
    NextMultiple(pos);
    hide Sized;
    SizedStart(t, [], pos, 0, pos);
    NextSized(t, [], 0, pos, pos, 0, pos, data, 0, x, 4, pos + 4);
    NextSized(t, [] + [x], 0, pos, pos, 4, pos + 4, bss, 4, y, 4, pos + 8);
    NextSized(t, [] + [x] + [y], 0, pos, pos, 4, pos + 8, data, 0, z, 8, pos + 12);
    assert [] + [x] + [y] + [z] == [x, y, z];
    assert [x, y, z][2] == z;
  }

  lemma NextMultiple(pos: Word64)
    requires pos % 8 == 0 && pos + 12 < WORD
    ensures Padding(4, pos) == 0 && Padding(8, pos + 4) == 4 && Padding(4, pos + 8) == 0
  {
    var q := pos / 8;
    DivUnique(pos, 4, 2 * q, 0);
    DivUnique(pos + 4, 8, q, 4);
    DivUnique(pos + 8, 4, 2 * q + 2, 0);
  }

  /** When a segment covers the sections laid out for it, as long as the last one with contents is not empty. */
  ghost predicate CoverRule(sections: seq<Section>, p: seq<Placed>, n: nat, from: int, start: int, fileSize: int) {
    forall c: nat :: LastContents(sections, p, n, c) && p[c].size > 0 ==>
      (Covered(p, n, start, fileSize) <==> NoBitsTight(sections, p, n, from, c))
  }

  // How far a layout can move the position.

  /** Unless there is too little room before the end of the 64-bit positions, nothing wraps, and the position moves
      by the room at most. */
  predicate Moved(w: bool, p: int, room: int, w': bool, p': int) {
    !w && p + room < WORD ==> !w' && p' <= p + room
  }

  lemma MovedTwice(w: bool, p: int, a: nat, w': bool, p': int, b: nat, w'': bool, p'': int)
    requires Moved(w, p, a, w', p') && Moved(w', p', b, w'', p'')
    ensures Moved(w, p, a + b, w'', p'')
  {
  }

  lemma MovedFurther(w: bool, p: int, a: nat, b: nat, w': bool, p': int)
    requires Moved(w, p, a, w', p') && a <= b
    ensures Moved(w, p, b, w', p')
  {
  }

  /** The most that a member can need: a padding below its alignment, or the distance of its address from that of
      the segment, and its contents. */
  function MemberRoom(s: Section, vaddr: Word64): nat {
    if s.stype == SHT_NULL then 0
    else (if !s.addressSet then s.align else if HasContents(s) then Wrap(s.address - vaddr) else 0) + FileSize(s)
  }

  lemma PaddingRoom(s: Section, vaddr: Word64, segStart: Word64, pos: Word64)
    requires s.stype != SHT_NULL && !SeeksBack(s, vaddr, segStart, pos)
    ensures MemberPadding(s, vaddr, segStart, pos) + FileSize(s) <= MemberRoom(s, vaddr)
  {
    hide Wrap, FileSize;
  }

  lemma SameFileSize(s: Section, t: Section)
    requires SameKind(s, t)
    ensures FileSize(s) == FileSize(t)
  {
  }

  /** Two advances, each modulo 2^64. */
  lemma MemberMoved(w: bool, p: Word64, a: Word64, b: Word64, room: nat)
    requires a + b <= room
    ensures Moved(w, p, room, w || p + a >= WORD || Wrap(p + a) + b >= WORD, Wrap(Wrap(p + a) + b))
  {
  }

  function MembersRoom(sections: seq<Section>, vaddr: Word64, members: seq<nat>): nat
    requires forall j :: 0 <= j < |members| ==> members[j] < |sections|
  {
    if members == [] then 0
    else
      MembersRoom(sections, vaddr, members[..|members| - 1]) + MemberRoom(sections[members[|members| - 1]], vaddr)
  }

  lemma MembersRoomNothing(sections: seq<Section>, vaddr: Word64, members: seq<nat>, w: bool, p: int)
    requires forall j :: 0 <= j < |members| ==> members[j] < |sections|
    ensures MembersRoom(sections, vaddr, members[..0]) == 0 && Moved(w, p, 0, w, p)
  {
  }

  lemma {:induction false} MembersRoomOfPrefix(sections: seq<Section>, vaddr: Word64, members: seq<nat>, j: nat)
    requires j <= |members| && forall j :: 0 <= j < |members| ==> members[j] < |sections|
    ensures MembersRoom(sections, vaddr, members[..j]) <= MembersRoom(sections, vaddr, members)
    decreases |members|
  {
    hide MemberRoom;
    if j == |members| {
      assert members[..j] == members;
    } else {
      MembersRoomOfPrefix(sections, vaddr, members[..|members| - 1], j);
      assert members[..|members| - 1][..j] == members[..j];
    }
  }

  /** The position after one more member: either nothing moved, or the member was still as it was given. */
  lemma NextMember(sections: seq<Section>, vaddr: Word64, members: seq<nat>, j: nat, g: bool, s: Section,
                   w0: bool, p0: int, w: bool, p: int, w': bool, p': int)
    requires j < |members| && forall j :: 0 <= j < |members| ==> members[j] < |sections|
    requires Moved(w0, p0, MembersRoom(sections, vaddr, members[..j]), w, p)
    requires if g then w' == w && p' == p else s == sections[members[j]] && Moved(w, p, MemberRoom(s, vaddr), w', p')
    ensures Moved(w0, p0, MembersRoom(sections, vaddr, members[..j + 1]), w', p')
  {
    hide MemberRoom, Moved;
    var a, b := MembersRoom(sections, vaddr, members[..j]), MemberRoom(sections[members[j]], vaddr);
    assert members[..j + 1][..j] == members[..j];
    assert MembersRoom(sections, vaddr, members[..j + 1]) == a + b;
    if g {
      MovedFurther(w0, p0, a, a + b, w', p');
    } else {
      MovedTwice(w0, p0, a, w, p, b, w', p');
    }
  }

  function SegmentRoom(sections: seq<Section>, seg: Segment): nat
    requires WellFormed(seg, |sections|)
  {
    (if seg.align > 0 then seg.align else 1) + MembersRoom(sections, seg.vaddr, seg.sections)
  }

  /** The room of the first n segments, of those in `done` only. */
  function SegmentsRoom(sections: seq<Section>, segments: seq<Segment>, done: seq<nat>, n: nat): nat
    requires n <= |segments| && forall s :: 0 <= s < |segments| ==> WellFormed(segments[s], |sections|)
  {
    if n == 0 then 0
    else
      SegmentsRoom(sections, segments, done, n - 1)
      + if n - 1 in done then SegmentRoom(sections, segments[n - 1]) else 0
  }

  lemma {:induction false} OneMoreSegment(sections: seq<Section>, segments: seq<Segment>, done: seq<nat>, s: nat, n: nat)
    requires n <= |segments| && forall s :: 0 <= s < |segments| ==> WellFormed(segments[s], |sections|)
    requires s < |segments| && s !in done
    ensures SegmentsRoom(sections, segments, done + [s], n)
         == SegmentsRoom(sections, segments, done, n) + if s < n then SegmentRoom(sections, segments[s]) else 0
  {
    hide SegmentRoom, WellFormed;
    if n != 0 {
      OneMoreSegment(sections, segments, done, s, n - 1);
      assert n - 1 in done + [s] <==> n - 1 in done || n - 1 == s;
    }
  }

  lemma {:induction false} NoSegments(sections: seq<Section>, segments: seq<Segment>, n: nat)
    requires n <= |segments| && forall s :: 0 <= s < |segments| ==> WellFormed(segments[s], |sections|)
    ensures SegmentsRoom(sections, segments, [], n) == 0
  {
    hide SegmentRoom, WellFormed;
    if n != 0 {
      NoSegments(sections, segments, n - 1);
    }
  }

  lemma {:induction false} SameSegments(sections: seq<Section>, segments: seq<Segment>, a: seq<nat>, b: seq<nat>, n: nat)
    requires n <= |segments| && forall s :: 0 <= s < |segments| ==> WellFormed(segments[s], |sections|)
    requires forall s: nat :: s < n ==> (s in a <==> s in b)
    ensures SegmentsRoom(sections, segments, a, n) == SegmentsRoom(sections, segments, b, n)
  {
    hide SegmentRoom, WellFormed;
    if n != 0 {
      SameSegments(sections, segments, a, b, n - 1);
    }
  }

  lemma NoSegmentsYet(sections: seq<Section>, segments: seq<Segment>, w: bool, p: int)
    requires forall s :: 0 <= s < |segments| ==> WellFormed(segments[s], |sections|)
    ensures forall o: seq<nat> :: o == [] ==> Moved(w, p, SegmentsRoom(sections, segments, o, |segments|), w, p)
  {
    hide WellFormed;
    NoSegments(sections, segments, |segments|);
  }

  lemma NextSegment(sections: seq<Section>, segments: seq<Segment>, done: seq<nat>, s: nat,
                    w0: bool, p0: int, w: bool, p: int, w': bool, p': int)
    requires forall s :: 0 <= s < |segments| ==> WellFormed(segments[s], |sections|)
    requires s < |segments| && s !in done
    requires Moved(w0, p0, SegmentsRoom(sections, segments, done, |segments|), w, p)
    requires Moved(w, p, SegmentRoom(sections, segments[s]), w', p')
    ensures Moved(w0, p0, SegmentsRoom(sections, segments, done + [s], |segments|), w', p')
  {
    hide WellFormed, SegmentRoom, Moved;
    OneMoreSegment(sections, segments, done, s, |segments|);
    MovedTwice(w0, p0, SegmentsRoom(sections, segments, done, |segments|), w, p, SegmentRoom(sections, segments[s]), w', p');
  }

  /** The room of the sections before n that no segment contains. */
  ghost function OutsideRoom(sections: seq<Section>, m: seq<seq<nat>>, n: nat): nat
    requires n <= |sections|
  {
    if n == 0 then 0
    else
      OutsideRoom(sections, m, n - 1)
      + if InSegment(m, n - 1) then 0 else sections[n - 1].align + FileSize(sections[n - 1])
  }

  lemma NothingOutside(sections: seq<Section>, m: seq<seq<nat>>, w: bool, p: int)
    ensures Moved(w, p, OutsideRoom(sections, m, 0), w, p)
  {
  }

  lemma SameRoom(s: Section, t: Section)
    requires SameKind(t, s)
    ensures t.align + FileSize(t) == s.align + FileSize(s)
  {
  }

  lemma OutsidePlaced(s: Section, t: Section, w: bool, p: int, w': bool, p': Word64, w'': bool, p'': int)
    requires SameKind(s, t) && Moved(w, p, s.align, w', p')
    requires w'' == (w' || p' + FileSize(t) >= WORD) && p'' == Wrap(p' + FileSize(t))
    ensures Moved(w, p, s.align + FileSize(s), w'', p'')
  {
    SameFileSize(s, t);
    hide FileSize;
  }

  lemma NextOutside(sections: seq<Section>, m: seq<seq<nat>>, i: nat, w0: bool, p0: int, w: bool, p: int, w': bool, p': int)
    requires i < |sections| && Moved(w0, p0, OutsideRoom(sections, m, i), w, p)
    requires if InSegment(m, i) then w' == w && p' == p else Moved(w, p, sections[i].align + FileSize(sections[i]), w', p')
    ensures Moved(w0, p0, OutsideRoom(sections, m, i + 1), w', p')
  {
    hide Moved, InSegment, FileSize;
    if !InSegment(m, i) {
      MovedTwice(w0, p0, OutsideRoom(sections, m, i), w, p, sections[i].align + FileSize(sections[i]), w', p');
    }
  }

  lemma {:induction false} SameOutside(s: seq<Section>, t: seq<Section>, m: seq<seq<nat>>, n: nat)
    requires n <= |s| == |t| && forall i :: 0 <= i < |s| ==> SameKind(t[i], s[i])
    ensures OutsideRoom(s, m, n) == OutsideRoom(t, m, n)
  {
    hide InSegment, FileSize;
    if n != 0 {
      SameOutside(s, t, m, n - 1);
      SameFileSize(t[n - 1], s[n - 1]);
    }
  }

  /** A segment with the alignment that calc_segment_alignment gives it. */
  function WithAlignment(sections: seq<Section>, seg: Segment): (r: Segment)
    requires WellFormed(seg, |sections|)
    ensures WellFormed(r, |sections|)
  {
    seg.(align := LargestAlign(sections, seg.align, seg.sections))
  }

  function AllWithAlignment(sections: seq<Section>, segments: seq<Segment>): (r: seq<Segment>)
    requires forall s :: 0 <= s < |segments| ==> WellFormed(segments[s], |sections|)
    ensures |r| == |segments|
    ensures forall s :: 0 <= s < |r| ==> r[s] == WithAlignment(sections, segments[s]) && WellFormed(r[s], |sections|)
  {
    seq(|segments|, s requires 0 <= s < |segments| => WithAlignment(sections, segments[s]))
  }

  /** Segment s begins with a section that was laid out with it. */
  predicate Begins(p: seq<Placed>, s: nat, seg: Segment) {
    seg.sections != []
    && exists a :: 0 <= a < |p| && p[a].index == seg.sections[0] && p[a].owner.Owner? && p[a].owner.segment == s
  }

  /** The file offset of the segment is congruent to its address, if it begins with a section that was laid out with
      it, was not asked to start at offset 0, and has an alignment of 2^63 at most. */
  predicate Congruent(p: seq<Placed>, s: nat, seg: Segment, seg0: Segment) {
    Begins(p, s, seg) && !(seg0.offsetSet && seg0.offset == 0) && 0 < seg.align <= WORD / 2 ==>
      seg.offset % seg.align == seg.vaddr % seg.align
  }

  predicate AllCongruent(p: seq<Placed>, segments: seq<Segment>, segments0: seq<Segment>) {
    |segments| == |segments0| && forall s :: 0 <= s < |segments| ==> Congruent(p, s, segments[s], segments0[s])
  }

  /** Laying out segment s leaves this for the others. */
  lemma CongruentKept(p: seq<Placed>, p': seq<Placed>, s: nat, t: nat, seg: Segment, seg0: Segment)
    requires p <= p' && s != t && Congruent(p, t, seg, seg0)
    requires forall a :: |p| <= a < |p'| ==> p'[a].owner.Owner? && p'[a].owner.segment == s
    ensures Congruent(p', t, seg, seg0)
  {
    if Begins(p', t, seg) {
      var a :| 0 <= a < |p'| && p'[a].index == seg.sections[0] && p'[a].owner.Owner? && p'[a].owner.segment == t;
      assert p[a] == p'[a];
    }
  }

  /** Sections outside the segments do not matter, nor do the alignments computed before. */
  lemma CongruentAfter(p: seq<Placed>, p': seq<Placed>, segments: seq<Segment>, segments1: seq<Segment>,
                       segments0: seq<Segment>)
    requires p <= p' && AllCongruent(p, segments, segments1) && |segments0| == |segments1|
    requires forall s :: 0 <= s < |segments0| ==> segments1[s] == segments0[s].(align := segments1[s].align)
    requires forall a :: |p| <= a < |p'| ==> p'[a].owner == Nobody
    ensures AllCongruent(p', segments, segments0)
  {
    forall s | 0 <= s < |segments|
      ensures Congruent(p', s, segments[s], segments0[s])
    {
      assert Congruent(p, s, segments[s], segments1[s]);
      if Begins(p', s, segments[s]) {
        var a :| 0 <= a < |p'| && p'[a].index == segments[s].sections[0] && p'[a].owner.Owner? && p'[a].owner.segment == s;
        assert p[a] == p'[a];
      }
    }
  }

  /** A section placed by a segment that had not been laid out before was not marked then. */
  lemma NewBegin(p: seq<Placed>, p': seq<Placed>, index: nat, s: nat, g: seq<bool>, finished: seq<nat>)
    requires p <= p' && s !in finished
    requires forall a :: 0 <= a < |p| && p'[a].owner.Owner? ==> p'[a].owner.segment in finished
    requires forall a :: |p| <= a < |p'| ==> p'[a].index < |g| && !g[p'[a].index]
    requires exists a :: 0 <= a < |p'| && p'[a].index == index && p'[a].owner.Owner? && p'[a].owner.segment == s
    ensures index < |g| && !g[index]
  {
    var a :| 0 <= a < |p'| && p'[a].index == index && p'[a].owner.Owner? && p'[a].owner.segment == s;
  }

  lemma CongruentStart(p: seq<Placed>, p': seq<Placed>, s: nat, seg: Segment, seg0: Segment, g: seq<bool>,
                       finished: seq<nat>, pos: Word64)
    requires p <= p' && s !in finished
    requires forall a :: 0 <= a < |p| && p'[a].owner.Owner? ==> p'[a].owner.segment in finished
    requires forall a :: |p| <= a < |p'| ==> p'[a].index < |g| && !g[p'[a].index]
    requires seg.sections == seg0.sections && seg.align == seg0.align < WORD && seg.vaddr == seg0.vaddr < WORD
    requires seg.sections != [] && seg.sections[0] < |g| && !g[seg.sections[0]] && !(seg0.offsetSet && seg0.offset == 0)
             && seg.align > 0 ==>
               (seg.offset % seg.align == seg.vaddr % seg.align <==> PaddingFits(seg.align, seg.vaddr, pos))
    ensures Congruent(p', s, seg, seg0)
  {
    hide PaddingFits;
    if Begins(p', s, seg) && 0 < seg.align <= WORD / 2 {
      NewBegin(p, p', seg.sections[0], s, g, finished);
      PaddingAlwaysFits(seg.align, seg.vaddr, pos);
    }
  }

  lemma PaddingAlwaysFits(align: Word64, vaddr: Word64, pos: Word64)
    requires 0 < align <= WORD / 2
    ensures PaddingFits(align, vaddr, pos)
  {
    hide *;
    SegmentPaddingAligns(align, vaddr, pos);
  }

  predicate WellFormed(s: Segment, sections: nat) {
    && |s.sections| < 0x1_0000 && s.align < WORD && s.vaddr < WORD && s.offset < WORD && s.memsize < WORD
    && forall j :: 0 <= j < |s.sections| ==> s.sections[j] < sections
  }

  /** What changes while the members of a segment are laid out. */
  datatype State = State(sections: seq<Section>, generated: seq<bool>, placed: seq<Placed>, pos: Word64, wrapped: bool)

  /** From b to c, the first j members of segment number s have been laid out; its size in the file was f before. */
  ghost predicate FirstMembers(j: nat, s: nat, seg: Segment, segStart: Word64, f: Word64, fileSize: Word64,
                           sections0: seq<Section>, b: State, c: State)
  {
    && j <= |seg.sections| && |sections0| == |b.sections| == |c.sections| == |b.generated| == |c.generated|
    && (forall i :: 0 <= i < |seg.sections| ==> seg.sections[i] < |sections0|) && seg.vaddr < WORD
    && (forall i :: 0 <= i < |c.sections| ==> SameKind(c.sections[i], b.sections[i]) && (b.generated[i] ==> c.generated[i]))
    && (forall i :: 0 <= i < j ==> c.generated[seg.sections[i]])
    && (forall i :: 0 <= i < |c.generated| && c.generated[i] && !b.generated[i] ==> i in seg.sections[..j])
    && GrowsBy(b.placed, c.placed, seg.sections, Owner(s, segStart, seg.vaddr))
    && (forall a :: |b.placed| <= a < |c.placed| ==> c.placed[a].index < |b.generated| && !b.generated[c.placed[a].index])
    && (b.wrapped ==> c.wrapped)
    && (!c.wrapped ==> forall a :: |b.placed| <= a < |c.placed| ==> FreeAligned(sections0, c.placed[a]))
    && (!c.wrapped && Fresh(b.generated, seg.sections) && segStart + f == b.pos ==>
          Sized(b.sections, c.placed, |b.placed|, b.pos, segStart, fileSize, c.pos))
    && Moved(b.wrapped, b.pos, MembersRoom(sections0, seg.vaddr, seg.sections[..j]), c.wrapped, c.pos)
  }

  lemma MemberKnown(j: nat, s: nat, seg: Segment, segStart: Word64, f: Word64, fileSize: Word64, sections0: seq<Section>,
                    b: State, c: State)
    requires FirstMembers(j, s, seg, segStart, f, fileSize, sections0, b, c) && j < |seg.sections|
    ensures seg.sections[j] < |c.sections| == |c.generated| == |sections0| && seg.vaddr < WORD
  {
  }

  /** What LayoutMember does to the state. */
  ghost predicate MemberLaidOut(index: nat, s: nat, seg: Segment, segStart: Word64, fileSize: Word64, fileSize': Word64,
                                c: State, d: State)
    requires index < |c.sections| && index < |c.generated|
  {
    var sec := c.sections[index];
    && |d.sections| == |c.sections| && |d.generated| == |c.generated| && seg.vaddr < WORD && (c.wrapped ==> d.wrapped)
    && (forall i :: 0 <= i < |c.sections| && i != index ==> d.sections[i] == c.sections[i])
    && SameKind(d.sections[index], sec)
    && (forall i :: 0 <= i < |c.generated| && i != index ==> d.generated[i] == c.generated[i]) && d.generated[index]
    && if c.generated[index] || sec.stype == SHT_NULL then
         d.placed == c.placed && d.pos == c.pos && d.wrapped == c.wrapped && (sec.stype == SHT_NULL ==> fileSize' == fileSize)
       else
         && !SeeksBack(sec, seg.vaddr, segStart, c.pos)
         && var padding := MemberPadding(sec, seg.vaddr, segStart, c.pos);
         && d.placed == c.placed + [Placed(index, Wrap(c.pos + padding), FileSize(sec), Owner(s, segStart, seg.vaddr))]
         && fileSize' == (if sec.stype == SHT_NOBITS then fileSize else Wrap(fileSize + sec.size + padding))
         && (!d.wrapped ==> Wrap(c.pos + padding) == c.pos + padding && d.pos == c.pos + padding + FileSize(sec))
         && Moved(c.wrapped, c.pos, MemberRoom(sec, seg.vaddr), d.wrapped, d.pos)
  }

  lemma MemberStep(j: nat, s: nat, seg: Segment, segStart: Word64, f: Word64, fileSize: Word64, fileSize': Word64,
                   sections0: seq<Section>, b: State, c: State, d: State)
    requires FirstMembers(j, s, seg, segStart, f, fileSize, sections0, b, c) && j < |seg.sections|
    requires !c.generated[seg.sections[j]] ==> c.sections[seg.sections[j]] == sections0[seg.sections[j]]
    requires MemberLaidOut(seg.sections[j], s, seg, segStart, fileSize, fileSize', c, d)
    ensures FirstMembers(j + 1, s, seg, segStart, f, fileSize', sections0, b, d)
  {
    hide FileSize, Wrap, SeeksBack, MemberPadding, MemberRoom, Moved, MembersRoom, Sized, Fresh, HasContents;
    var index := seg.sections[j];
    var sec, g := c.sections[index], c.generated[index];
    assert seg.sections[..j + 1] == seg.sections[..j] + [index];
    NextMember(sections0, seg.vaddr, seg.sections, j, g || sec.stype == SHT_NULL, sec, b.wrapped, b.pos, c.wrapped, c.pos,
               d.wrapped, d.pos);
    NotYetMarked(b.generated, c.generated, seg.sections, j);
    if !g && !d.wrapped && sec.stype != SHT_NULL && !sec.addressSet && sec.align > 0 {
      MemberAligned(sec, seg.vaddr, segStart, c.pos);
    }
    if !g && !d.wrapped && sec.stype != SHT_NULL && Sized(b.sections, c.placed, |b.placed|, b.pos, segStart, fileSize, c.pos) {
      NextSized(b.sections, c.placed, |b.placed|, b.pos, segStart, fileSize, c.pos, sec,
                MemberPadding(sec, seg.vaddr, segStart, c.pos), d.placed[|c.placed|], fileSize', d.pos);
    }
  }

  /** The first k segments of the worklist have been laid out; c is the state then. */
  ghost predicate FirstSegments(k: nat, worklist: seq<nat>, m: seq<seq<nat>>, sections0: seq<Section>,
                                segments0: seq<Segment>, segments: seq<Segment>, c: State)
  {
    && |m| == |worklist| == |segments0| == |segments| && |sections0| == |c.sections| == |c.generated|
    && k <= |worklist|
    && (forall l :: 0 <= l < |worklist| ==> worklist[l] < |worklist|)
    && (forall l, l' :: 0 <= l < l' < |worklist| ==> worklist[l] != worklist[l'])
    && (forall i :: 0 <= i < |sections0| ==> SameKind(c.sections[i], sections0[i]))
    && (forall l :: 0 <= l < k ==> AllMarked(c.generated, m[worklist[l]]))
    && (forall a :: 0 <= a < |c.placed| ==> InSegment(m, c.placed[a].index))
    && (forall l :: k <= l < |worklist| ==> segments[worklist[l]] == segments0[worklist[l]])
    && (!c.wrapped ==> forall a :: 0 <= a < |c.placed| ==> FreeAligned(sections0, c.placed[a]))
    && (!c.wrapped ==> forall l :: 0 <= l < k ==>
          Congruent(c.placed, worklist[l], segments[worklist[l]], segments0[worklist[l]]))
  }

  lemma KnownAlways(k: nat, worklist: seq<nat>, m: seq<seq<nat>>, sections0: seq<Section>, segments0: seq<Segment>,
                    segments: seq<Segment>, c: State)
    requires FirstSegments(k, worklist, m, sections0, segments0, segments, c)
    ensures |m| == |segments0| == |segments| && |sections0| == |c.sections|
    ensures forall i :: 0 <= i < |sections0| ==> SameKind(c.sections[i], sections0[i])
    ensures forall a :: 0 <= a < |c.placed| ==> InSegment(m, c.placed[a].index)
  {
    hide Congruent, AllMarked, FreeAligned, InSegment, SameKind;
  }

  lemma NextKnown(k: nat, worklist: seq<nat>, m: seq<seq<nat>>, sections0: seq<Section>, segments0: seq<Segment>,
                  segments: seq<Segment>, c: State)
    requires FirstSegments(k, worklist, m, sections0, segments0, segments, c) && k < |worklist|
    ensures |m| == |worklist| == |segments0| == |segments| && |sections0| == |c.sections| == |c.generated|
    ensures worklist[k] < |worklist| && segments[worklist[k]] == segments0[worklist[k]] && worklist[k] !in worklist[..k]
  {
    hide Congruent, AllMarked, FreeAligned, InSegment, SameKind;
  }

  /** What laying out segment number s does to the rest, whether it is completed or not. */
  ghost predicate SegmentLaidOut(s: nat, members: seq<nat>, before: seq<Segment>, c: State, after: seq<Segment>, d: State) {
    && |after| == |before| && |d.sections| == |c.sections| && |d.generated| == |c.generated|
    && c.placed <= d.placed && (c.wrapped ==> d.wrapped)
    && (forall t :: 0 <= t < |before| && t != s ==> after[t] == before[t])
    && (forall a :: |c.placed| <= a < |d.placed| ==>
          d.placed[a].index in members && d.placed[a].owner.Owner? && d.placed[a].owner.segment == s)
    && (forall i :: 0 <= i < |c.sections| ==> SameKind(d.sections[i], c.sections[i]))
    && (forall i :: 0 <= i < |c.generated| && c.generated[i] ==> d.generated[i])
  }

  lemma KeptAnyway(k: nat, worklist: seq<nat>, m: seq<seq<nat>>, sections0: seq<Section>, segments0: seq<Segment>,
                   before: seq<Segment>, c: State, after: seq<Segment>, d: State)
    requires FirstSegments(k, worklist, m, sections0, segments0, before, c) && k < |worklist|
    requires SegmentLaidOut(worklist[k], m[worklist[k]], before, c, after, d)
    ensures forall i :: 0 <= i < |sections0| ==> SameKind(d.sections[i], sections0[i])
    ensures forall a :: 0 <= a < |d.placed| ==> InSegment(m, d.placed[a].index)
  {
    hide InSegment, Congruent, AllMarked, FreeAligned;
    NewMembers(m, worklist[k], c.placed, d.placed);
  }

  lemma SegmentStep(k: nat, worklist: seq<nat>, m: seq<seq<nat>>, sections0: seq<Section>, segments0: seq<Segment>,
                    before: seq<Segment>, c: State, after: seq<Segment>, d: State)
    requires FirstSegments(k, worklist, m, sections0, segments0, before, c) && k < |worklist|
    requires SegmentLaidOut(worklist[k], m[worklist[k]], before, c, after, d) && AllMarked(d.generated, m[worklist[k]])
    requires !d.wrapped ==>
               && (forall a :: |c.placed| <= a < |d.placed| ==> FreeAligned(sections0, d.placed[a]))
               && Congruent(d.placed, worklist[k], after[worklist[k]], before[worklist[k]])
    ensures FirstSegments(k + 1, worklist, m, sections0, segments0, after, d)
  {
    hide InSegment, Congruent, AllMarked, FreeAligned;
    var s := worklist[k];
    KeptAnyway(k, worklist, m, sections0, segments0, before, c, after, d);
    forall l | 0 <= l < k
      ensures AllMarked(d.generated, m[worklist[l]])
    {
      MarkedKept(c.generated, d.generated, m[worklist[l]]);
    }
    forall l | 0 <= l < k && !d.wrapped
      ensures Congruent(d.placed, worklist[l], after[worklist[l]], segments0[worklist[l]])
    {
      CongruentKept(c.placed, d.placed, s, worklist[l], after[worklist[l]], segments0[worklist[l]]);
    }
  }

  /** From b to c, the sections before number i that are outside the segments have been placed. */
  ghost predicate OutsideDone(i: nat, m: seq<seq<nat>>, b: State, c: State) {
    && i <= |b.sections| == |c.sections| && b.placed <= c.placed && (b.wrapped ==> c.wrapped)
    && (forall j :: 0 <= j < |b.sections| ==> c.sections[j] == b.sections[j].(offset := c.sections[j].offset))
    && (forall j :: 0 <= j < |b.sections| && (InSegment(m, j) || j >= i) ==> c.sections[j] == b.sections[j])
    && (forall j :: 0 <= j < i && !InSegment(m, j) ==> Lists(c.placed, j))
    && (forall a :: 0 <= a < |b.placed| ==> InSegment(m, b.placed[a].index))
    && (forall a :: |b.placed| <= a < |c.placed| ==>
          !InSegment(m, c.placed[a].index) && c.placed[a].owner == Nobody && c.placed[a].index < i)
    && (!c.wrapped ==>
          && PackedFrom(c.sections, c.placed, |b.placed|, b.pos)
          && c.pos == FreeFrom(c.placed, |b.placed|, b.pos, |c.placed|))
    && Moved(b.wrapped, b.pos, OutsideRoom(b.sections, m, i), c.wrapped, c.pos)
  }

  lemma NoneOutsideDone(m: seq<seq<nat>>, b: State)
    requires forall a :: 0 <= a < |b.placed| ==> InSegment(m, b.placed[a].index)
    ensures OutsideDone(0, m, b, b)
  {
    hide InSegment, Moved, Lists;
    NothingOutside(b.sections, m, b.wrapped, b.pos);
  }

  lemma NotYetOutside(i: nat, m: seq<seq<nat>>, b: State, c: State)
    requires OutsideDone(i, m, b, c) && !InSegment(m, i)
    ensures !Lists(c.placed, i)
  {
    hide PackedFrom, FreeFrom, Moved, OutsideRoom;
    NotYetListed(b.placed, c.placed, m, i);
  }

  lemma AllOutsideDone(m: seq<seq<nat>>, b: State, c: State)
    requires OutsideDone(|c.sections|, m, b, c)
    ensures b.placed <= c.placed && (b.wrapped ==> c.wrapped) && |b.sections| == |c.sections|
    ensures forall j :: 0 <= j < |c.sections| ==>
              && SameKind(c.sections[j], b.sections[j]) && c.sections[j] == b.sections[j].(offset := c.sections[j].offset)
              && if InSegment(m, j) then c.sections[j] == b.sections[j] else Lists(c.placed, j)
    ensures forall a :: |b.placed| <= a < |c.placed| ==> !InSegment(m, c.placed[a].index) && c.placed[a].owner == Nobody
    ensures !c.wrapped ==>
              && PackedFrom(c.sections, c.placed, |b.placed|, b.pos)
              && c.pos == FreeFrom(c.placed, |b.placed|, b.pos, |c.placed|)
    ensures Moved(b.wrapped, b.pos, OutsideRoom(b.sections, m, |c.sections|), c.wrapped, c.pos)
  {
    hide PackedFrom, FreeFrom, Moved, OutsideRoom, InSegment, Lists;
  }

  /** One more section, which stays as it is or goes to the next place. */
  lemma OutsideStep(i: nat, m: seq<seq<nat>>, b: State, c: State, d: State)
    requires OutsideDone(i, m, b, c) && i < |c.sections| == |d.sections| && (c.wrapped ==> d.wrapped)
    requires if InSegment(m, i) then d == c else
               && |d.placed| == |c.placed| + 1 && c.placed <= d.placed
               && d.placed[|c.placed|].index == i && d.placed[|c.placed|].owner == Nobody
               && (forall j: nat :: Lists(d.placed, j) <==> Lists(c.placed, j) || j == i)
               && (forall j :: 0 <= j < |c.sections| ==> d.sections[j] == c.sections[j].(offset := d.sections[j].offset))
               && (forall j :: 0 <= j < |c.sections| && j != i ==> d.sections[j] == c.sections[j])
               && (!d.wrapped ==>
                     && NextMultipleAt(d.sections[i], c.pos, d.placed[|c.placed|])
                     && d.pos == d.placed[|c.placed|].offset + d.placed[|c.placed|].size)
               && Moved(c.wrapped, c.pos, c.sections[i].align + FileSize(c.sections[i]), d.wrapped, d.pos)
    ensures OutsideDone(i + 1, m, b, d)
  {
    hide InSegment, Lists, NextMultipleAt, PackedFrom, FreeFrom, Moved, OutsideRoom, FileSize;
    NextOutside(b.sections, m, i, b.wrapped, b.pos, c.wrapped, c.pos, d.wrapped, d.pos);
    if !InSegment(m, i) && !d.wrapped {
      PackedStep(c.sections, d.sections, c.placed, d.placed[|c.placed|], |b.placed|, b.pos);
      assert d.placed == c.placed + [d.placed[|c.placed|]];
    }
  }

  /** Where a padded segment starts, if its position did not wrap. */
  lemma PaddedStart(align: Word64, vaddr: Word64, pos: Word64)
    ensures SegmentPadding(align, vaddr, pos) < if align > 0 then align else 1
    ensures align > 0 && pos + SegmentPadding(align, vaddr, pos) < WORD ==>
              (Wrap(pos + SegmentPadding(align, vaddr, pos)) % align == vaddr % align <==> PaddingFits(align, vaddr, pos))
    ensures align == 0 ==> Wrap(pos + SegmentPadding(align, vaddr, pos)) == pos
  {
    if align > 0 {
      hide SegmentPadding, Wrap, PaddingFits;
      SegmentPaddingAligns(align, vaddr, pos);
      NoWrap(pos + SegmentPadding(align, vaddr, pos));
    } else {
      NoWrap(pos);
    }
  }

  lemma MultipleOfFour(pos: Word64)
    ensures (pos + (4 - pos % 4) % 4) % 4 == 0 && 0 <= (4 - pos % 4) % 4 <= 3
  {
  }

  lemma NoWrap(x: int)
    ensures 0 <= x < WORD ==> Wrap(x) == x
  {
  }

  lemma PaddingToMultiple(pos: Word64, align: Word64)
    ensures align == 1 ==> pos % align == 0
    ensures align > 1 && pos % align != 0 ==> (pos + (align - pos % align)) % align == 0
  {
    if align > 1 {
      DivMod(pos, align);
      assert align * (pos / align + 1) == align * (pos / align) + align;
      DivUnique(pos + (align - pos % align), align, pos / align + 1, 0);
    }
  }

  lemma NobodyMaps(s: Section, offset: Word64)
    ensures MapsTo(s, offset, Nobody)
  {
  }

  /** At most one place was added, for this section and this owner. */
  predicate Extends(p: seq<Placed>, p': seq<Placed>, index: nat, owner: Owner) {
    p' == p || (|p'| == |p| + 1 && p'[..|p|] == p && p'[|p|].index == index && p'[|p|].owner == owner)
  }

  lemma NotListed(p: seq<Placed>, i: nat)
    requires !Lists(p, i)
    ensures forall a :: 0 <= a < |p| ==> p[a].index != i
  {
  }

  lemma NotYetListed(p: seq<Placed>, p': seq<Placed>, m: seq<seq<nat>>, i: nat)
    requires p <= p' && (forall a :: 0 <= a < |p| ==> InSegment(m, p[a].index)) && !InSegment(m, i)
    requires forall a :: |p| <= a < |p'| ==> p'[a].index < i
    ensures !Lists(p', i)
  {
  }

  lemma ListsAfter(p: seq<Placed>, x: Placed)
    ensures forall i: nat :: Lists(p + [x], i) <==> Lists(p, i) || i == x.index
  {
    var q := p + [x];
    forall i: nat
      ensures Lists(q, i) <==> Lists(p, i) || i == x.index
    {
      if Lists(p, i) {
        var a :| 0 <= a < |p| && p[a].index == i;
        assert q[a].index == i;
      }
      if i == x.index {
        assert q[|p|].index == i;
      }
      if Lists(q, i) && i != x.index {
        var a :| 0 <= a < |q| && q[a].index == i;
        assert p[a].index == i;
      }
    }
  }

  /** Whether section i is a member of some segment. */
  predicate InSegment(m: seq<seq<nat>>, i: nat) {
    exists t, j :: 0 <= t < |m| && 0 <= j < |m[t]| && m[t][j] == i
  }

  predicate AllMarked(g: seq<bool>, members: seq<nat>) {
    forall j :: 0 <= j < |members| ==> members[j] < |g| && g[members[j]]
  }

  lemma MarkedKept(g: seq<bool>, g': seq<bool>, members: seq<nat>)
    requires AllMarked(g, members) && |g| == |g'| && forall i :: 0 <= i < |g| && g[i] ==> g'[i]
    ensures AllMarked(g', members)
  {
  }

  lemma MarkedMembers(g: seq<bool>, m: seq<seq<nat>>, worklist: seq<nat>)
    requires forall t: nat :: t < |m| ==> t in worklist
    requires forall l :: 0 <= l < |worklist| ==> worklist[l] < |m| && AllMarked(g, m[worklist[l]])
    ensures forall i: nat :: InSegment(m, i) ==> i < |g| && g[i]
  {
    forall i: nat | InSegment(m, i)
      ensures i < |g| && g[i]
    {
      var t, j :| 0 <= t < |m| && 0 <= j < |m[t]| && m[t][j] == i;
      assert t in worklist;
      var l :| 0 <= l < |worklist| && worklist[l] == t;
    }
  }

  lemma NewMembers(m: seq<seq<nat>>, s: nat, p: seq<Placed>, p': seq<Placed>)
    requires s < |m| && p <= p' && forall a :: 0 <= a < |p| ==> InSegment(m, p[a].index)
    requires forall a :: |p| <= a < |p'| ==> p'[a].index in m[s]
    ensures forall a :: 0 <= a < |p'| ==> InSegment(m, p'[a].index)
  {
    forall a | 0 <= a < |p'|
      ensures InSegment(m, p'[a].index)
    {
      if a >= |p| {
        var j :| 0 <= j < |m[s]| && m[s][j] == p'[a].index;
      }
    }
  }

  /** An ordering of the segments names each of them once. */
  lemma OrderingOnce(w: seq<nat>, n: nat)
    requires IsOrdering(w, n)
    ensures |w| == n && (forall i :: 0 <= i < |w| ==> w[i] < n) && (forall i: nat :: i < n ==> i in w)
    ensures forall i, j :: 0 <= i < j < |w| ==> w[i] != w[j]
  {
    OrderingElements(w, n);
    forall i, j | 0 <= i < j < |w|
      ensures w[i] != w[j]
    {
      if w[i] == w[j] {
        Twice(w, i, j);
        CountOnce(n, w[i]);
      }
    }
  }

  lemma OrderingCounts(w: seq<nat>, n: nat)
    requires IsOrdering(w, n)
    ensures forall s: nat :: s < n ==> (s in w <==> s in Count(n))
  {
    OrderingOnce(w, n);
    forall s: nat | s < n
      ensures s in Count(n)
    {
      assert Count(n)[s] == s;
    }
  }

  lemma Twice(w: seq<nat>, i: nat, j: nat)
    requires i < j < |w| && w[i] == w[j]
    ensures multiset(w)[w[i]] >= 2
  {
    assert w == w[..i] + [w[i]] + w[i + 1..j] + [w[j]] + w[j + 1..];
  }

  lemma {:induction false} CountOnce(n: nat, x: nat)
    ensures multiset(Count(n))[x] == if x < n then 1 else 0
  {
    if n != 0 {
      CountOnce(n - 1, x);
      assert Count(n) == Count(n - 1) + [n - 1];
    }
  }

  /** The largest of a segment's own alignment and those of its sections. */
  function LargestAlign(sections: seq<Section>, align: nat, members: seq<nat>): (a: nat)
    requires forall j :: 0 <= j < |members| ==> members[j] < |sections|
    ensures align <= a && forall j :: 0 <= j < |members| ==> sections[members[j]].align <= a
    ensures align < WORD ==> a < WORD
  {
    if members == [] then align
    else
      var a, b := LargestAlign(sections, align, members[..|members| - 1]), sections[members[|members| - 1]].align;
      if b > a then b else a
  }

  predicate Separate(a: int, m: int, b: int, n: int) {
    a + m <= b || b + n <= a
  }

  lemma WholeMove(start: int, a: nat, w1: bool, p1: int, b: nat, w2: bool, p2: int)
    requires Moved(false, start, a, w1, p1) && Moved(w1, p1, b + 3, w2, p2)
    ensures start + a + b + 3 < WORD ==> !w2 && p2 <= start + a + b + 3
  {
  }

  lemma HeaderFits(h: Half, e: Half, n: nat)
    requires n < 0x1_0000
    ensures 0 <= e * n && h + e * n < WORD
  {
    NotNegative(e, n);
    NotNegative(0xffff - e, n);
    assert (0xffff - e) * n == 0xffff * n - e * n;
  }

  lemma NotNegative(x: nat, y: nat)
    ensures x * y >= 0
  {
  }

  lemma EmptyInOrder(start: int)
    ensures InOrder([], start, start)
  {
  }

  lemma StillListed(p: seq<Placed>, p': seq<Placed>)
    requires p <= p'
    ensures forall i: nat :: Lists(p, i) ==> Lists(p', i)
  {
    forall i: nat | Lists(p, i)
      ensures Lists(p', i)
    {
      var a :| 0 <= a < |p| && p[a].index == i;
      assert p'[a].index == i;
    }
  }

  /** The places added belong to members of this owner. */
  ghost predicate GrowsBy(p: seq<Placed>, p': seq<Placed>, members: seq<nat>, owner: Owner) {
    && p <= p'
    && forall a :: |p| <= a < |p'| ==> p'[a].index in members && p'[a].owner == owner
  }

  lemma GrowStep(p: seq<Placed>, q: seq<Placed>, r: seq<Placed>, members: seq<nat>, j: nat, owner: Owner)
    requires GrowsBy(p, q, members, owner) && j < |members| && Extends(q, r, members[j], owner)
    ensures GrowsBy(p, r, members, owner)
  {
  }

  lemma WrapUnique(x: int, r: int, k: int)
    requires x == WORD * k + r && 0 <= r < WORD
    ensures Wrap(x) == r
  {
  }

  lemma WrapQuotient(x: int) returns (k: int)
    ensures x == WORD * k + Wrap(x)
  {
    k := x / WORD;
  }

  /** Padding to the required distance from the segment start arrives there. */
  lemma RequiredOffset(pos: Word64, segStart: Word64, required: Word64)
    requires Wrap(pos - segStart) <= required
    ensures Wrap(Wrap(pos + (required - Wrap(pos - segStart))) - segStart) == required
  {
    var current := Wrap(pos - segStart);
    var i := WrapQuotient(pos - segStart);
    var j := WrapQuotient(pos + (required - current));
    WrapUnique(Wrap(pos + (required - current)) - segStart, required, i - j);
  }

  lemma AssignedAddress(vaddr: Word64, pos: Word64, segStart: Word64)
    ensures Wrap(Wrap(vaddr + pos - segStart) - vaddr) == Wrap(pos - segStart)
  {
    var i := WrapQuotient(vaddr + pos - segStart);
    var j := WrapQuotient(pos - segStart);
    WrapUnique(Wrap(vaddr + pos - segStart) - vaddr, Wrap(pos - segStart), j - i);
  }

  predicate SameKind(s: Section, t: Section) {
    s.stype == t.stype && s.flags == t.flags && s.size == t.size && s.align == t.align
  }

  /** elfio.hpp:813-818 */
  function Padding(align: Word64, pos: Word64): Word64 {
    var a := if align == 0 then 1 else align;
    (a - pos % a) % a
  }
}
