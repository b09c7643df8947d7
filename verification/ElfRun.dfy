// elfio.hpp:733-877: the layout of the segments as a function of the records.
module ElfRun {
  import opened ElfSegments
  import opened ElfPlaces

  /** The sizes of a segment, in the file and in memory. */
  datatype Extent = Extent(file: Word64, memory: Word64)

  /** How far the members of a segment have been laid out, and whether the layout goes on. */
  datatype Run = Run(ok: bool, state: State, extent: Extent)

  /** How far the segments have. */
  datatype Laid = Laid(ok: bool, state: State, segments: seq<Segment>)

  /** elfio.hpp:822-825: allocated sections, except thread-local ones without contents outside a TLS segment. */
  predicate InMemory(s: Section, ptype: nat) {
    HasFlag(s.flags, SHF_ALLOC) && !(HasFlag(s.flags, SHF_TLS) && ptype != PT_TLS && s.stype == SHT_NOBITS)
  }

  /** The sizes with one more section and the gap before it. */
  function Extended(e: Extent, s: Section, ptype: nat, gap: Word64): Extent {
    Extent(if s.stype == SHT_NOBITS then e.file else Wrap(e.file + s.size + gap),
           if InMemory(s, ptype) then Wrap(e.memory + s.size + gap) else e.memory)
  }

  function Advanced(c: State, d: Word64): State {
    c.(pos := Wrap(c.pos + d), wrapped := c.wrapped || c.pos + d >= WORD)
  }

  predicate HasMember(c: State, index: nat) {
    index < |c.sections| == |c.generated|
  }

  function AfterPlacing(c: State, index: nat, padding: Word64, owner: Owner): State
    requires HasMember(c, index) && owner.Owner?
  {
    var sec, a := c.sections[index], Advanced(c, padding);
    Advanced(a.(sections := c.sections[index := AsPlaced(sec, index, a.pos, owner.vaddr, owner.start)],
                generated := c.generated[index := true],
                placed := c.placed + [Placed(index, a.pos, FileSize(sec), owner)]),
             FileSize(sec))
  }

  /** elfio.hpp:782-860, for a segment of the given type and the owner's number, start and address. */
  function AfterMember(c: State, e: Extent, index: nat, ptype: nat, owner: Owner): (r: Run)
    requires HasMember(c, index) && owner.Owner?
    ensures |r.state.sections| == |c.sections| && |r.state.generated| == |c.generated|
  {
    var sec := c.sections[index];
    if sec.stype == SHT_NULL then
      Run(true, c.(generated := c.generated[index := true]), e)
    else if c.generated[index] then
      Run(true, c, Extended(e, sec, ptype, Wrap(sec.offset - owner.start - e.file)))
    else if SeeksBack(sec, owner.vaddr, owner.start, c.pos) then
      Run(false, c, e)
    else
      var padding := MemberPadding(sec, owner.vaddr, owner.start, c.pos);
      Run(true, AfterPlacing(c, index, padding, owner), Extended(e, sec, ptype, padding))
  }

  lemma InMemoryIs(s: Section, ptype: nat)
    ensures InMemory(s, ptype) <==>
              HasFlag(s.flags, SHF_ALLOC) && !(HasFlag(s.flags, SHF_TLS) && ptype != PT_TLS && s.stype == SHT_NOBITS)
    ensures InMemory(s, ptype) <==> s.flags / 2 % 2 == 1 && !(s.flags / 0x400 % 2 == 1 && ptype != 7 && s.stype == 8)
  {
  }

  lemma EmptyRun(c: State, e: Extent, index: nat, ptype: nat, owner: Owner)
    requires HasMember(c, index) && owner.Owner? && c.sections[index].stype == SHT_NULL
    ensures AfterMember(c, e, index, ptype, owner) == Run(true, c.(generated := c.generated[index := true]), e)
  {
  }

  lemma MarkedRun(c: State, e: Extent, index: nat, ptype: nat, owner: Owner)
    requires HasMember(c, index) && owner.Owner? && c.sections[index].stype != SHT_NULL && c.generated[index]
    ensures AfterMember(c, e, index, ptype, owner)
         == Run(true, c, Extended(e, c.sections[index], ptype, Wrap(c.sections[index].offset - owner.start - e.file)))
  {
  }

  lemma StoppedRun(c: State, e: Extent, index: nat, ptype: nat, owner: Owner)
    requires HasMember(c, index) && owner.Owner? && !c.generated[index]
    requires SeeksBack(c.sections[index], owner.vaddr, owner.start, c.pos)
    ensures AfterMember(c, e, index, ptype, owner) == Run(false, c, e)
  {
  }

  lemma PlacedRun(c: State, e: Extent, index: nat, ptype: nat, owner: Owner)
    requires HasMember(c, index) && owner.Owner? && c.sections[index].stype != SHT_NULL && !c.generated[index]
    requires !SeeksBack(c.sections[index], owner.vaddr, owner.start, c.pos)
    ensures AfterMember(c, e, index, ptype, owner)
         == var padding := MemberPadding(c.sections[index], owner.vaddr, owner.start, c.pos);
            Run(true, AfterPlacing(c, index, padding, owner), Extended(e, c.sections[index], ptype, padding))
  {
  }

  // The state, field by field.

  lemma MarkedNow(c: State, d: State, index: nat)
    requires HasMember(c, index) && |d.generated| == |c.generated| && d.generated[index]
    requires forall i :: 0 <= i < |c.generated| && i != index ==> d.generated[i] == c.generated[i]
    requires d.sections == c.sections && d.placed == c.placed && d.pos == c.pos && d.wrapped == c.wrapped
    ensures d == c.(generated := c.generated[index := true])
  {
  }

  lemma PlacedNow(c: State, d: State, index: nat, padding: Word64, owner: Owner)
    requires HasMember(c, index) && |d.generated| == |c.generated| && d.generated[index] && owner.Owner?
    requires forall i :: 0 <= i < |c.generated| && i != index ==> d.generated[i] == c.generated[i]
    requires |d.sections| == |c.sections|
    requires forall i :: 0 <= i < |c.sections| && i != index ==> d.sections[i] == c.sections[i]
    requires var offset := Wrap(c.pos + padding);
             && d.sections[index] == AsPlaced(c.sections[index], index, offset, owner.vaddr, owner.start)
             && d.placed == c.placed + [Placed(index, offset, FileSize(c.sections[index]), owner)]
             && d.pos == Wrap(offset + FileSize(c.sections[index]))
             && d.wrapped == (c.wrapped || c.pos + padding >= WORD || offset + FileSize(c.sections[index]) >= WORD)
    ensures d == AfterPlacing(c, index, padding, owner)
  {
    hide Wrap, FileSize, AsPlaced;
    assert d.sections == c.sections[index := d.sections[index]];
    assert d.generated == c.generated[index := true];
  }

  /** The layout stops exactly at a member that would have to go back; then nothing has changed. A section that has its place
      already only counts towards the sizes: the segment ends where it ends. An empty one is only marked. Every other member
      follows its padding. */
  lemma MemberOutcome(c: State, e: Extent, index: nat, ptype: nat, owner: Owner)
    requires HasMember(c, index) && owner.Owner?
    ensures var sec, r := c.sections[index], AfterMember(c, e, index, ptype, owner);
            && r.ok == (c.generated[index] || !SeeksBack(sec, owner.vaddr, owner.start, c.pos))
            && r.state.generated == (if r.ok then c.generated[index := true] else c.generated)
            && (if r.ok && !c.generated[index] && sec.stype != SHT_NULL then
                  var padding := MemberPadding(sec, owner.vaddr, owner.start, c.pos);
                  && r.state.placed == c.placed + [Placed(index, Wrap(c.pos + padding), FileSize(sec), owner)]
                  && r.state.pos == Wrap(Wrap(c.pos + padding) + FileSize(sec))
                  && r.state.sections
                     == c.sections[index := AsPlaced(sec, index, Wrap(c.pos + padding), owner.vaddr, owner.start)]
                  && (!r.state.wrapped ==>
                        !c.wrapped && Wrap(c.pos + padding) == c.pos + padding && r.state.pos == c.pos + padding + FileSize(sec))
                else
                  r.state.(generated := c.generated) == c)
            && (!r.ok ==> r.extent == e)
            && (r.ok ==>
                  if sec.stype == SHT_NULL || sec.stype == SHT_NOBITS then r.extent.file == e.file
                  else if c.generated[index] then Wrap(owner.start + r.extent.file) == Wrap(sec.offset + sec.size)
                  else r.extent.file == Wrap(e.file + sec.size + MemberPadding(sec, owner.vaddr, owner.start, c.pos)))
  {
    hide InMemory, SeeksBack, MemberPadding, AsPlaced, FileSize, Wrap;
    var sec := c.sections[index];
    EmptyStays(sec, owner.vaddr, owner.start, c.pos);
    EndsWith(owner.start, e.file, sec.offset, sec.size);
    if !c.generated[index] && !SeeksBack(sec, owner.vaddr, owner.start, c.pos) {
      NoWrap(c.pos + MemberPadding(sec, owner.vaddr, owner.start, c.pos));
      NoWrap(c.pos + MemberPadding(sec, owner.vaddr, owner.start, c.pos) + FileSize(sec));
    }
    assert !c.generated[index] || c.generated[index := true] == c.generated;
  }

  lemma EmptyStays(s: Section, vaddr: Word64, segStart: Word64, pos: Word64)
    ensures s.stype == SHT_NULL ==> !SeeksBack(s, vaddr, segStart, pos)
  {
  }

  predicate HasMembers(c: State, members: seq<nat>) {
    forall j :: 0 <= j < |members| ==> HasMember(c, members[j])
  }

  /** elfio.hpp:780-861 */
  function AfterMembers(c: State, e: Extent, members: seq<nat>, ptype: nat, owner: Owner): (r: Run)
    requires HasMembers(c, members) && owner.Owner?
    ensures |r.state.sections| == |c.sections| && |r.state.generated| == |c.generated|
  {
    if members == [] then Run(true, c, e)
    else
      var r := AfterMembers(c, e, members[..|members| - 1], ptype, owner);
      if r.ok then AfterMember(r.state, r.extent, members[|members| - 1], ptype, owner) else r
  }

  /** A layout that has stopped stays as it is. */
  lemma {:induction false} Stopped(c: State, e: Extent, members: seq<nat>, ptype: nat, owner: Owner, j: nat)
    requires HasMembers(c, members) && owner.Owner? && j <= |members| && !AfterMembers(c, e, members[..j], ptype, owner).ok
    ensures AfterMembers(c, e, members, ptype, owner) == AfterMembers(c, e, members[..j], ptype, owner)
    decreases |members|
  {
    hide AfterMember;
    if j == |members| {
      assert members[..j] == members;
    } else {
      assert members[..|members| - 1][..j] == members[..j];
      Stopped(c, e, members[..|members| - 1], ptype, owner, j);
    }
  }

  /** The next member; if it stops the layout, that is how it ends. */
  lemma AfterOneMore(c: State, e: Extent, members: seq<nat>, j: nat, ptype: nat, owner: Owner)
    requires HasMembers(c, members) && owner.Owner? && j < |members| && AfterMembers(c, e, members[..j], ptype, owner).ok
    ensures var r, m := AfterMembers(c, e, members[..j], ptype, owner), members[j];
            HasMember(r.state, m)
            && AfterMembers(c, e, members[..j + 1], ptype, owner) == AfterMember(r.state, r.extent, m, ptype, owner)
            && (!AfterMember(r.state, r.extent, m, ptype, owner).ok ==>
                  AfterMembers(c, e, members, ptype, owner) == AfterMember(r.state, r.extent, m, ptype, owner))
  {
    hide AfterMember;
    assert members[..j + 1][..j] == members[..j];
    if !AfterMembers(c, e, members[..j + 1], ptype, owner).ok {
      Stopped(c, e, members, ptype, owner, j + 1);
    }
  }

  /** Members that all have their places already are not moved, and nothing can stop the layout. If the last one has contents,
      the segment ends in the file where it does. */
  lemma {:induction false} NestedRun(c: State, e: Extent, members: seq<nat>, ptype: nat, owner: Owner)
    requires HasMembers(c, members) && owner.Owner?
    requires forall j :: 0 <= j < |members| ==> c.generated[members[j]]
    ensures var r := AfterMembers(c, e, members, ptype, owner);
            && r.ok && r.state == c
            && (members != [] ==>
                  var last := c.sections[members[|members| - 1]];
                  last.stype != SHT_NULL && last.stype != SHT_NOBITS ==>
                    Wrap(owner.start + r.extent.file) == Wrap(last.offset + last.size))
  {
    hide Wrap, InMemory;
    if members != [] {
      var last := members[|members| - 1];
      NestedRun(c, e, members[..|members| - 1], ptype, owner);
      var r := AfterMembers(c, e, members[..|members| - 1], ptype, owner);
      assert c.generated[last := true] == c.generated;
      EndsWith(owner.start, r.extent.file, c.sections[last].offset, c.sections[last].size);
    }
  }

  /** The sizes of the sections without contents. */
  function BytesOnlyInMemory(sections: seq<Section>, members: seq<nat>): nat
    requires forall j :: 0 <= j < |members| ==> members[j] < |sections|
  {
    if members == [] then 0
    else
      var last := sections[members[|members| - 1]];
      BytesOnlyInMemory(sections, members[..|members| - 1]) + if last.stype == SHT_NOBITS then last.size else 0
  }

  /** Sections that are not members stay as they are. */
  lemma {:induction false} OthersKept(c: State, e: Extent, members: seq<nat>, ptype: nat, owner: Owner, i: nat)
    requires HasMembers(c, members) && HasMember(c, i) && owner.Owner? && i !in members
    ensures var r := AfterMembers(c, e, members, ptype, owner);
            r.state.sections[i] == c.sections[i] && r.state.generated[i] == c.generated[i]
  {
    hide InMemory, SeeksBack, MemberPadding, AsPlaced, FileSize, Wrap, Extended;
    if members != [] {
      OthersKept(c, e, members[..|members| - 1], ptype, owner, i);
    }
  }

  /** One new member, in memory. */
  lemma NewInMemory(c: State, e: Extent, index: nat, ptype: nat, owner: Owner, m: Word64, pos: int, b: int)
    requires HasMember(c, index) && !c.generated[index] && owner.Owner? && pos <= c.pos
    requires var s := c.sections[index]; InMemory(s, ptype) && s.stype != SHT_NULL
    requires e.memory == Wrap(m + (c.pos - pos) + b)
    requires var r := AfterMember(c, e, index, ptype, owner); r.ok && !r.state.wrapped
    ensures var r := AfterMember(c, e, index, ptype, owner);
            && c.pos <= r.state.pos && !c.wrapped
            && r.extent.memory == Wrap(m + (r.state.pos - pos) + b
                                       + if c.sections[index].stype == SHT_NOBITS then c.sections[index].size else 0)
  {
    hide InMemory, SeeksBack, MemberPadding, AsPlaced, Wrap;
    var s := c.sections[index];
    var d := MemberPadding(s, owner.vaddr, owner.start, c.pos);
    NoWrap(c.pos + d);
    NoWrap(c.pos + d + FileSize(s));
    WrapSum(m + (c.pos - pos) + b, s.size + d);
  }

  lemma WrapSum(x: int, y: int)
    ensures Wrap(Wrap(x) + y) == Wrap(x + y)
  {
    var i := WrapQuotient(x);
    var k := WrapQuotient(x + y);
    hide Wrap;
    WrapUnique(Wrap(x) + y, Wrap(x + y), k - i);
  }

  /** In memory, a segment of new members that all belong there takes the room it takes in the file, with all padding, and
      that of its sections without contents. */
  lemma {:induction false} MemoryOfFresh(c: State, e: Extent, members: seq<nat>, ptype: nat, owner: Owner)
    requires HasMembers(c, members) && owner.Owner? && Fresh(c.generated, members)
    requires forall j :: 0 <= j < |members| ==>
               var s := c.sections[members[j]]; InMemory(s, ptype) && s.stype != SHT_NULL
    requires var r := AfterMembers(c, e, members, ptype, owner); r.ok && !r.state.wrapped
    ensures var r := AfterMembers(c, e, members, ptype, owner);
            && c.pos <= r.state.pos
            && r.extent.memory == Wrap(e.memory + (r.state.pos - c.pos) + BytesOnlyInMemory(c.sections, members))
  {
    hide InMemory, AfterMember, Wrap;
    if members == [] {
      NoWrap(e.memory);
    } else {
      var last, before := members[|members| - 1], members[..|members| - 1];
      var r := AfterMembers(c, e, before, ptype, owner);
      OthersKept(c, e, before, ptype, owner, last);
      StaysWrapped(r.state, r.extent, last, ptype, owner);
      MemoryOfFresh(c, e, before, ptype, owner);
      NewInMemory(r.state, r.extent, last, ptype, owner, e.memory, c.pos, BytesOnlyInMemory(c.sections, before));
    }
  }

  lemma StaysWrapped(c: State, e: Extent, index: nat, ptype: nat, owner: Owner)
    requires HasMember(c, index) && owner.Owner?
    ensures c.wrapped ==> AfterMember(c, e, index, ptype, owner).state.wrapped
  {
  }

  /** Where a segment starts, what its sizes start from, and the position then. */
  datatype Start = Start(state: State, offset: Word64, size: Word64)

  /** elfio.hpp:743-777, with the place and the size of the program header table. */
  function StartOf(c: State, seg: Segment, tableOffset: Word64, tableSize: Word64): Start
    requires HasMembers(c, seg.sections) && seg.align < WORD && seg.vaddr < WORD
  {
    if seg.ptype == PT_PHDR && seg.sections == [] then Start(c, tableOffset, tableSize)
    else if seg.offsetSet && seg.offset == 0 then Start(c, 0, if seg.sections == [] then 0 else c.pos)
    else if seg.sections == [] then Start(c, c.pos, 0)
    else if c.generated[seg.sections[0]] then Start(c, c.sections[seg.sections[0]].offset, 0)
    else
      var d := Advanced(c, SegmentPadding(seg.align, seg.vaddr, c.pos));
      Start(d, d.pos, 0)
  }

  predicate HasSegments(c: State, segments: seq<Segment>) {
    |c.generated| == |c.sections| && forall s :: 0 <= s < |segments| ==> WellFormed(segments[s], |c.sections|)
  }

  lemma AllInRange(c: State, segments: seq<Segment>)
    requires HasSegments(c, segments)
    ensures forall s :: 0 <= s < |segments| ==>
              HasMembers(c, segments[s].sections) && segments[s].align < WORD && segments[s].vaddr < WORD
  {
  }

  /** elfio.hpp:742-874. The size in memory does not shrink. */
  function AfterSegment(c: State, segments: seq<Segment>, s: nat, tableOffset: Word64, tableSize: Word64): (l: Laid)
    requires HasSegments(c, segments) && s < |segments|
    ensures HasSegments(l.state, l.segments) && |l.segments| == |segments|
  {
    AllInRange(c, segments);
    var seg := segments[s];
    var start := StartOf(c, seg, tableOffset, tableSize);
    var r := AfterMembers(start.state, Extent(start.size, start.size), seg.sections, seg.ptype,
                          Owner(s, start.offset, seg.vaddr));
    Laid(r.ok, r.state, if r.ok then segments[s := WithExtent(seg, start.offset, r.extent)] else segments)
  }

  function WithExtent(seg: Segment, offset: Word64, e: Extent): Segment {
    seg.(offset := offset, offsetSet := true, filesize := e.file,
         memsize := if seg.memsize < e.memory then e.memory else seg.memsize)
  }

  /** elfio.hpp:733-877, in the order of the worklist. */
  function AfterSegments(c: State, segments: seq<Segment>, worklist: seq<nat>, tableOffset: Word64, tableSize: Word64): (l: Laid)
    requires HasSegments(c, segments) && InRange(worklist, |segments|)
    ensures HasSegments(l.state, l.segments) && |l.segments| == |segments|
  {
    if worklist == [] then Laid(true, c, segments)
    else
      var l := AfterSegments(c, segments, worklist[..|worklist| - 1], tableOffset, tableSize);
      if l.ok then AfterSegment(l.state, l.segments, worklist[|worklist| - 1], tableOffset, tableSize) else l
  }

  lemma {:induction false} SegmentsStopped(c: State, segments: seq<Segment>, worklist: seq<nat>, tableOffset: Word64,
                                           tableSize: Word64, k: nat)
    requires HasSegments(c, segments) && InRange(worklist, |segments|) && k <= |worklist|
    requires !AfterSegments(c, segments, worklist[..k], tableOffset, tableSize).ok
    ensures AfterSegments(c, segments, worklist, tableOffset, tableSize)
         == AfterSegments(c, segments, worklist[..k], tableOffset, tableSize)
    decreases |worklist|
  {
    hide HasSegments, AfterSegment;
    if k == |worklist| {
      assert worklist[..k] == worklist;
    } else {
      assert worklist[..|worklist| - 1][..k] == worklist[..k];
      SegmentsStopped(c, segments, worklist[..|worklist| - 1], tableOffset, tableSize, k);
    }
  }

  /** No size in memory shrinks, and only offsets and sizes of segments change. */
  lemma {:induction false} MemoryNeverShrinks(c: State, segments: seq<Segment>, worklist: seq<nat>, tableOffset: Word64,
                                              tableSize: Word64, s: nat)
    requires HasSegments(c, segments) && InRange(worklist, |segments|) && s < |segments|
    ensures var seg := AfterSegments(c, segments, worklist, tableOffset, tableSize).segments[s];
            && segments[s].memsize <= seg.memsize
            && seg == segments[s].(offset := seg.offset, offsetSet := seg.offsetSet, filesize := seg.filesize,
                                   memsize := seg.memsize)
  {
    hide AfterMembers, StartOf, HasSegments;
    if worklist != [] {
      MemoryNeverShrinks(c, segments, worklist[..|worklist| - 1], tableOffset, tableSize, s);
    }
  }

  /** Nothing has its place yet. */
  function Unplaced(sections: seq<Section>, pos: Word64, wrapped: bool): (c: State)
    ensures |c.generated| == |sections| && forall i :: 0 <= i < |sections| ==> !c.generated[i]
  {
    State(sections, seq(|sections|, _ => false), [], pos, wrapped)
  }

  /** The next segment; if it stops the layout, that is how it ends. */
  lemma OneMoreLaid(c: State, segments: seq<Segment>, worklist: seq<nat>, k: nat, tableOffset: Word64, tableSize: Word64)
    requires HasSegments(c, segments) && InRange(worklist, |segments|) && k < |worklist|
    requires AfterSegments(c, segments, worklist[..k], tableOffset, tableSize).ok
    ensures var l, s := AfterSegments(c, segments, worklist[..k], tableOffset, tableSize), worklist[k];
            && AfterSegments(c, segments, worklist[..k + 1], tableOffset, tableSize)
               == AfterSegment(l.state, l.segments, s, tableOffset, tableSize)
            && (!AfterSegment(l.state, l.segments, s, tableOffset, tableSize).ok ==>
                  AfterSegments(c, segments, worklist, tableOffset, tableSize)
                  == AfterSegment(l.state, l.segments, s, tableOffset, tableSize))
  {
    hide HasSegments, AfterSegment;
    assert worklist[..k + 1][..k] == worklist[..k];
    if !AfterSegments(c, segments, worklist[..k + 1], tableOffset, tableSize).ok {
      SegmentsStopped(c, segments, worklist, tableOffset, tableSize, k + 1);
    }
  }

  /** No section that is still without a place has both an address and contents. */
  predicate FreeToPlace(c: State) {
    |c.generated| == |c.sections|
    && forall i :: 0 <= i < |c.sections| && !c.generated[i] ==> !(c.sections[i].addressSet && HasContents(c.sections[i]))
  }

  lemma {:induction false} FreeMembers(c: State, e: Extent, members: seq<nat>, ptype: nat, owner: Owner)
    requires HasMembers(c, members) && owner.Owner? && FreeToPlace(c)
    ensures var r := AfterMembers(c, e, members, ptype, owner); r.ok && FreeToPlace(r.state)
  {
    hide MemberPadding, AsPlaced, Extended, FileSize, Wrap, HasContents;
    if members != [] {
      FreeMembers(c, e, members[..|members| - 1], ptype, owner);
    }
  }

  /** Only addresses given to sections with contents can stop the layout. */
  lemma {:induction false} FreeLayout(c: State, segments: seq<Segment>, worklist: seq<nat>, tableOffset: Word64,
                                      tableSize: Word64)
    requires HasSegments(c, segments) && InRange(worklist, |segments|) && FreeToPlace(c)
    ensures var l := AfterSegments(c, segments, worklist, tableOffset, tableSize); l.ok && FreeToPlace(l.state)
  {
    hide AfterMembers, WithExtent, WellFormed, SegmentPadding;
    if worklist != [] {
      FreeLayout(c, segments, worklist[..|worklist| - 1], tableOffset, tableSize);
      var l := AfterSegments(c, segments, worklist[..|worklist| - 1], tableOffset, tableSize);
      var seg := l.segments[worklist[|worklist| - 1]];
      AllInRange(l.state, l.segments);
      var start := StartOf(l.state, seg, tableOffset, tableSize);
      FreeMembers(start.state, Extent(start.size, start.size), seg.sections, seg.ptype,
                  Owner(worklist[|worklist| - 1], start.offset, seg.vaddr));
    }
  }
}
