// elfio.hpp:193-226 and 615-887: where everything goes in the file.
module ElfLayout {
  import opened IntFacts
  import opened ElfSegments
  import opened ElfPlaces
  import opened ElfRun

  class Image {
    const headerSize: Half
    const phEntrySize: Half
    const sections: array<Section>
    const segments: array<Segment>
    var segmentsOffset: Word64
    var sectionsOffset: Word64
    var currentFilePos: Word64
    ghost var placed: seq<Placed>
    ghost var start: int
    ghost var wrapped: bool

    constructor (headerSize: Half, phEntrySize: Half, sections: array<Section>, segments: array<Segment>)
      requires 0 < sections.Length < 0x1_0000 && segments.Length < 0x1_0000
      requires forall s :: 0 <= s < segments.Length ==> WellFormed(segments[s], sections.Length)
      ensures Valid() && this.headerSize == headerSize && this.phEntrySize == phEntrySize
      ensures this.sections == sections && this.segments == segments
    {
      this.headerSize, this.phEntrySize, this.sections, this.segments := headerSize, phEntrySize, sections, segments;
      segmentsOffset, sectionsOffset, currentFilePos := 0, 0, 0;
      placed, start, wrapped := [], 0, false;
    }

    /** An explicit bound on the size of the file, from the input alone: the headers, an alignment for every segment,
        the room of every member and of every other section, and the padding before the last table. */
    ghost function Room(): nat
      requires Valid()
      reads this, sections, segments
    {
      HeaderFits(headerSize, phEntrySize, segments.Length);
      var segs := AllWithAlignment(sections[..], segments[..]);
      headerSize + phEntrySize * segments.Length
      + SegmentsRoom(sections[..], segs, Count(segments.Length), segments.Length)
      + OutsideRoom(sections[..], Members(), sections.Length) + 3
    }

    /** Sections are referred to by position, and there are at most 2^16 - 1 of each kind. */
    ghost predicate Valid()
      reads this, sections, segments
    {
      && 0 < sections.Length < 0x1_0000 && segments.Length < 0x1_0000
      && forall s :: 0 <= s < segments.Length ==> WellFormed(segments[s], sections.Length)
    }

    /** Unless a position has wrapped, the places so far are in order up to the current position, each
        section has one at most, and each section but number 0 carries the offset of its place. */
    ghost predicate Consistent()
      reads this, sections
    {
      && Once(placed)
      && (!wrapped ==> InOrder(placed, start, currentFilePos))
      && forall a :: 0 <= a < |placed| ==>
           var p := placed[a];
           && p.index < sections.Length && p.size == FileSize(sections[p.index])
           && (p.index != 0 ==> sections[p.index].offset == p.offset)
           && MapsTo(sections[p.index], p.offset, p.owner)
    }

    /** Moves the current position forward, modulo 2^64. */
    method Advance(d: Word64)
      requires Consistent()
      modifies this`currentFilePos, this`wrapped
      ensures currentFilePos == Wrap(old(currentFilePos) + d)
      ensures wrapped == (old(wrapped) || old(currentFilePos) + d >= WORD)
      ensures Consistent()
    {
      wrapped := wrapped || currentFilePos + d >= WORD;
      currentFilePos := Wrap(currentFilePos + d);
    }

    /** The offset of a section is set, and its bytes follow. */
    method Place(index: nat, ghost owner: Owner)
      requires Consistent() && index < sections.Length && !Lists(placed, index)
      requires MapsTo(sections[index], currentFilePos, owner)
      modifies this`currentFilePos, this`wrapped, this`placed, sections
      ensures wrapped == (old(wrapped) || old(currentFilePos) + FileSize(sections[index]) >= WORD)
      ensures currentFilePos == Wrap(old(currentFilePos) + FileSize(sections[index]))
      ensures Consistent() && placed == old(placed) + [Placed(index, old(currentFilePos), FileSize(sections[index]), owner)]
      ensures forall i :: 0 <= i < sections.Length && i != index ==> sections[i] == old(sections[i])
      ensures sections[index] ==
                if index == 0 then old(sections[index]) else old(sections[index]).(offset := old(currentFilePos))
    {
      hide InOrder, FileSize, MapsTo, Wrap;
      var size := FileSize(sections[index]);
      OffsetIsFree(sections[index], currentFilePos, currentFilePos, owner);
      NewPlace(placed, start, currentFilePos, Placed(index, currentFilePos, size, owner));
      if index != 0 {
        sections[index] := sections[index].(offset := currentFilePos);
      }
      placed := placed + [Placed(index, currentFilePos, size, owner)];
      wrapped := wrapped || currentFilePos + size >= WORD;
      currentFilePos := Wrap(currentFilePos + size);
    }

    /** The flags say which sections have their place, counting empty sections as placed. */
    ghost predicate Marks(generated: array<bool>)
      reads this, sections, generated
    {
      && generated.Length == sections.Length
      && forall i :: 0 <= i < sections.Length ==>
           (Lists(placed, i) ==> generated[i]) && (generated[i] ==> Lists(placed, i) || sections[i].stype == SHT_NULL)
    }

    /** elfio.hpp:838-858: a member that has no place yet gets the next one, and an address if it has none. */
    method PlaceMember(index: nat, vaddr: Word64, segStart: Word64, align: Word64, generated: array<bool>,
                       ghost segment: nat)
      requires Consistent() && index < sections.Length && Marks(generated) && !generated[index]
      requires sections[index].stype != SHT_NULL && !SeeksBack(sections[index], vaddr, segStart, currentFilePos)
      requires align == MemberPadding(sections[index], vaddr, segStart, currentFilePos)
      modifies this`currentFilePos, this`wrapped, this`placed, sections, generated
      ensures Consistent() && Marks(generated) && (old(wrapped) ==> wrapped)
      ensures forall i :: 0 <= i < sections.Length && i != index ==> sections[i] == old(sections[i])
      ensures SameKind(sections[index], old(sections[index]))
      ensures sections[index] == AsPlaced(old(sections[index]), index, Wrap(old(currentFilePos) + align), vaddr, segStart)
      ensures forall i :: 0 <= i < sections.Length && i != index ==> generated[i] == old(generated[i])
      ensures generated[index]
      ensures var offset := Wrap(old(currentFilePos) + align);
              && placed == old(placed) + [Placed(index, offset, FileSize(old(sections[index])), Owner(segment, segStart, vaddr))]
              && currentFilePos == Wrap(offset + FileSize(old(sections[index])))
              && wrapped == (old(wrapped) || old(currentFilePos) + align >= WORD || offset + FileSize(old(sections[index])) >= WORD)
              && (!wrapped ==> offset == old(currentFilePos) + align && currentFilePos == offset + FileSize(old(sections[index])))
      ensures Moved(old(wrapped), old(currentFilePos), MemberRoom(old(sections[index]), vaddr), wrapped, currentFilePos)
    {
      hide Wrap, FileSize, InOrder, Lists, MapsTo, SeeksBack, MemberPadding, MemberRoom, Moved;
      var sec := sections[index];
      ghost var pos := currentFilePos;
      NotListed(placed, index);
      PaddingRoom(sec, vaddr, segStart, pos);
      MemberMaps(sec, vaddr, segStart, pos);
      NoWrap(pos + align);
      NoWrap(Wrap(pos + align) + FileSize(sec));
      Advance(align);
      if !sec.addressSet {
        sections[index] := sec.(address := Wrap(vaddr + currentFilePos - segStart), addressSet := true);
      }
      SameFileSize(sec, sections[index]);
      Place(index, Owner(segment, segStart, vaddr));
      SameFileSize(sec, sections[index]);
      MemberMoved(old(wrapped), pos, align, FileSize(sec), MemberRoom(sec, vaddr));
      ListsAfter(old(placed), placed[|placed| - 1]);
      generated[index] := true;
    }

    /** elfio.hpp:782-860: one member of a segment that starts at segStart. `ElfRun.MemberOutcome` says what comes of it. */
    method LayoutMember(index: nat, vaddr: Word64, ptype: nat, segStart: Word64, fileSize: Word64, memSize: Word64,
                        generated: array<bool>, ghost segment: nat)
      returns (ok: bool, fileSize': Word64, memSize': Word64)
      requires Consistent() && index < sections.Length && Marks(generated)
      modifies this`currentFilePos, this`wrapped, this`placed, sections, generated
      ensures Consistent() && Marks(generated)
      ensures Run(ok, Now(generated), Extent(fileSize', memSize'))
           == old(AfterMember(Now(generated), Extent(fileSize, memSize), index, ptype, Owner(segment, segStart, vaddr)))
      ensures Moved(old(wrapped), old(currentFilePos), MemberRoom(old(sections[index]), vaddr), wrapped, currentFilePos)
    {
      hide Wrap, Padding, FileSize, InOrder, Lists, MapsTo, InMemory, AfterMember, HasFlag, AfterPlacing, Consistent, AsPlaced,
           SameKind;
      ghost var c, e, owner := Now(generated), Extent(fileSize, memSize), Owner(segment, segStart, vaddr);
      var sec := sections[index];
      ok, fileSize', memSize' := true, fileSize, memSize;
      if sec.stype == SHT_NULL {
        generated[index] := true;
        MarkedNow(c, Now(generated), index);
        EmptyRun(c, e, index, ptype, owner);
        return;
      }
      var align: Word64 := 0;
      if !generated[index] && sec.addressSet && sec.stype != SHT_NOBITS && sec.size != 0 {
        var required := Wrap(sec.address - vaddr);
        var current := Wrap(currentFilePos - segStart);
        if required < current {
          ok := false;
          StoppedRun(c, e, index, ptype, owner);
          return;
        }
        align := required - current;
      } else if !generated[index] && !sec.addressSet {
        align := Padding(sec.align, currentFilePos);
      } else if generated[index] {
        align := Wrap(sec.offset - segStart - fileSize);
      }
      InMemoryIs(sec, ptype);
      if HasFlag(sec.flags, SHF_ALLOC) && !(HasFlag(sec.flags, SHF_TLS) && ptype != PT_TLS && sec.stype == SHT_NOBITS) {
        memSize' := Wrap(memSize + sec.size + align);
      }
      if sec.stype != SHT_NOBITS {
        fileSize' := Wrap(fileSize + sec.size + align);
      }
      if generated[index] {
        MarkedRun(c, e, index, ptype, owner);
        return;
      }
      PlaceMember(index, vaddr, segStart, align, generated, segment);
      PlacedNow(c, Now(generated), index, align, owner);
      PlacedRun(c, e, index, ptype, owner);
    }

    /** The size of the program header table. */
    function TableSize(): Word64 {
      Wrap(phEntrySize * segments.Length)
    }

    /** elfio.hpp:743-777: where a segment starts, and what its sizes start from. A segment of program headers only
        covers their table. One that is to start at offset 0 covers all that has been laid out so far. One whose
        first section has no place yet is padded; one whose first section has, starts there. */
    method StartSegment(s: nat, generated: array<bool>) returns (segStart: Word64, fileSize: Word64, memSize: Word64)
      requires Valid() && Consistent() && s < segments.Length && generated.Length == sections.Length && Marks(generated)
      modifies this`currentFilePos, this`wrapped
      ensures Consistent() && Marks(generated) && (old(wrapped) ==> wrapped) && memSize == fileSize
      ensures Moved(old(wrapped), old(currentFilePos), if segments[s].align > 0 then segments[s].align else 1,
                    wrapped, currentFilePos)
      ensures Start(Now(generated), segStart, fileSize)
           == old(StartOf(Now(generated), segments[s], segmentsOffset, TableSize()))
      ensures var seg, pos := segments[s], old(currentFilePos);
              if seg.ptype == 6 && seg.sections == [] then
                segStart == segmentsOffset && fileSize == Wrap(phEntrySize * segments.Length) && currentFilePos == pos
              else if seg.offsetSet && seg.offset == 0 then
                segStart == 0 && fileSize == (if seg.sections == [] then 0 else pos) && currentFilePos == pos
              else if seg.sections == [] then
                segStart == pos && fileSize == 0 && currentFilePos == pos
              else if generated[seg.sections[0]] then
                segStart == sections[seg.sections[0]].offset && fileSize == 0 && currentFilePos == pos
              else
                && segStart == currentFilePos && fileSize == 0 && (seg.align == 0 ==> segStart == pos)
                && (!wrapped ==> pos <= segStart < pos + if seg.align > 0 then seg.align else 1)
                && (!wrapped && seg.align > 0 ==>
                      (segStart % seg.align == seg.vaddr % seg.align <==> PaddingFits(seg.align, seg.vaddr, pos)))
    {
      hide SegmentPadding, FileSize, InOrder, MapsTo, Lists, Wrap, Once, PaddingFits;
      var seg := segments[s];
      segStart, fileSize, memSize := currentFilePos, 0, 0;
      if seg.ptype == PT_PHDR && seg.sections == [] {
        segStart := segmentsOffset;
        fileSize := Wrap(phEntrySize * segments.Length);
        memSize := fileSize;
      } else if seg.offsetSet && seg.offset == 0 {
        segStart := 0;
        if seg.sections != [] {
          fileSize, memSize := currentFilePos, currentFilePos;
        }
      } else if seg.sections != [] && !generated[seg.sections[0]] {
        PaddedStart(seg.align, seg.vaddr, currentFilePos);
        NoWrap(currentFilePos + SegmentPadding(seg.align, seg.vaddr, currentFilePos));
        Advance(SegmentPadding(seg.align, seg.vaddr, currentFilePos));
        segStart := currentFilePos;
      } else if seg.sections != [] {
        segStart := sections[seg.sections[0]].offset;
      }
    }

    /** Sections without a place are still as they were. */
    ghost predicate Untouched(generated: array<bool>, sections0: seq<Section>)
      reads sections, generated
    {
      && generated.Length == sections.Length == |sections0|
      && forall i :: 0 <= i < sections.Length && !generated[i] ==> sections[i] == sections0[i]
    }

    ghost function Now(generated: array<bool>): State
      reads this, sections, generated
    {
      State(sections[..], generated[..], placed, currentFilePos, wrapped)
    }

    /** The state after the first j members of segment s, in terms of what it was before. */
    ghost predicate MembersDone(j: nat, s: nat, segStart: Word64, e0: Extent, e: Extent, generated: array<bool>,
                                sections0: seq<Section>, b: State)
      reads this, sections, segments, generated
    {
      && Valid() && Consistent() && Marks(generated) && Untouched(generated, sections0) && s < segments.Length
      && var seg := segments[s];
      && HasMembers(b, seg.sections) && j <= |seg.sections|
      && FirstMembers(j, s, seg, segStart, e0.file, e.file, sections0, b, Now(generated))
      && AfterMembers(b, e0, seg.sections[..j], seg.ptype, Owner(s, segStart, seg.vaddr)) == Run(true, Now(generated), e)
    }

    lemma NoMembersDone(s: nat, segStart: Word64, e: Extent, generated: array<bool>, sections0: seq<Section>)
      requires Valid() && Consistent() && s < segments.Length && Marks(generated) && Untouched(generated, sections0)
      ensures MembersDone(0, s, segStart, e, e, generated, sections0, Now(generated))
    {
      hide Consistent, Moved, MembersRoom, Sized, Fresh;
      var seg := segments[s];
      MembersRoomNothing(sections0, seg.vaddr, seg.sections, wrapped, currentFilePos);
      if segStart + e.file == currentFilePos {
        SizedStart(sections[..], placed, segStart, e.file, currentFilePos);
      }
    }

    /** The body of the loop. */
    method LayoutNextMember(j: nat, s: nat, segStart: Word64, fileSize: Word64, memSize: Word64, generated: array<bool>,
                            ghost sections0: seq<Section>, ghost e0: Extent, ghost b: State)
      returns (ok: bool, fileSize': Word64, memSize': Word64)
      requires MembersDone(j, s, segStart, e0, Extent(fileSize, memSize), generated, sections0, b) && j < |segments[s].sections|
      modifies this`currentFilePos, this`wrapped, this`placed, sections, generated
      ensures if ok then MembersDone(j + 1, s, segStart, e0, Extent(fileSize', memSize'), generated, sections0, b)
              else
                && MembersDone(j, s, segStart, e0, Extent(fileSize', memSize'), generated, sections0, b)
                && AfterMembers(b, e0, segments[s].sections, segments[s].ptype, Owner(s, segStart, segments[s].vaddr))
                   == Run(false, Now(generated), Extent(fileSize', memSize'))
    {
      hide FileSize, InOrder, MapsTo, Wrap, Lists, SeeksBack, MemberPadding, MemberRoom, Moved, FirstMembers, Consistent, Marks,
           AfterMember, AfterMembers;
      ghost var c := Now(generated);
      var seg := segments[s];
      ghost var owner := Owner(s, segStart, seg.vaddr);
      MemberKnown(j, s, seg, segStart, e0.file, fileSize, sections0, b, c);
      MemberOutcome(c, Extent(fileSize, memSize), seg.sections[j], seg.ptype, owner);
      ok, fileSize', memSize' := LayoutMember(seg.sections[j], seg.vaddr, seg.ptype, segStart, fileSize, memSize, generated, s);
      AfterOneMore(b, e0, seg.sections, j, seg.ptype, owner);
      if ok {
        assert MemberLaidOut(seg.sections[j], s, seg, segStart, fileSize, fileSize', c, Now(generated));
        MemberStep(j, s, seg, segStart, e0.file, fileSize, fileSize', sections0, b, c, Now(generated));
      } else {
        assert Now(generated) == c;
      }
    }

    /** elfio.hpp:780-861: the members of one segment, in order. */
    method LayoutMembers(s: nat, segStart: Word64, fileSize0: Word64, memSize0: Word64, generated: array<bool>,
                         ghost sections0: seq<Section>)
      returns (ok: bool, fileSize: Word64, memSize: Word64)
      requires Valid() && Consistent() && s < segments.Length && Marks(generated) && Untouched(generated, sections0)
      modifies this`currentFilePos, this`wrapped, this`placed, sections, generated
      ensures Run(ok, Now(generated), Extent(fileSize, memSize))
           == old(AfterMembers(Now(generated), Extent(fileSize0, memSize0), segments[s].sections, segments[s].ptype,
                               Owner(s, segStart, segments[s].vaddr)))
      ensures Consistent() && (old(wrapped) ==> wrapped) && Marks(generated) && Untouched(generated, sections0)
      ensures forall i :: 0 <= i < sections.Length ==> SameKind(sections[i], old(sections[i]))
      ensures forall i :: 0 <= i < sections.Length && old(generated[i]) ==> generated[i]
      ensures ok ==> AllMarked(generated[..], segments[s].sections)
      ensures GrowsBy(old(placed), placed, segments[s].sections, Owner(s, segStart, segments[s].vaddr))
      ensures forall a :: |old(placed)| <= a < |placed| ==> !old(generated[..])[placed[a].index]
      ensures !wrapped ==> forall a :: |old(placed)| <= a < |placed| ==> FreeAligned(sections0, placed[a])
      ensures ok && !wrapped && Fresh(old(generated[..]), segments[s].sections) && segStart + fileSize0 == old(currentFilePos) ==>
                Sized(old(sections[..]), placed, |old(placed)|, old(currentFilePos), segStart, fileSize, currentFilePos)
      ensures Moved(old(wrapped), old(currentFilePos), MembersRoom(sections0, segments[s].vaddr, segments[s].sections),
                    wrapped, currentFilePos)
    {
      hide Consistent, Marks, Moved, MembersRoom, Sized, Fresh, AfterMembers, HasMembers;
      ok, fileSize, memSize := true, fileSize0, memSize0;
      ghost var b, e0 := Now(generated), Extent(fileSize0, memSize0);
      ghost var seg := segments[s];
      NoMembersDone(s, segStart, e0, generated, sections0);
      var j := 0;
      while j < |segments[s].sections|
        invariant segments[s] == seg && 0 <= j <= |seg.sections|
        invariant MembersDone(j, s, segStart, e0, Extent(fileSize, memSize), generated, sections0, b)
      {
        ok, fileSize, memSize := LayoutNextMember(j, s, segStart, fileSize, memSize, generated, sections0, e0, b);
        if !ok {
          MembersRoomOfPrefix(sections0, seg.vaddr, seg.sections, j);
          MovedFurther(b.wrapped, b.pos, MembersRoom(sections0, seg.vaddr, seg.sections[..j]),
                       MembersRoom(sections0, seg.vaddr, seg.sections), wrapped, currentFilePos);
          return;
        }
        j := j + 1;
      }
      assert seg.sections[..j] == seg.sections;
    }

    lemma CoverRuleHolds(t: seq<Section>, n: nat, from: int, start: int, fileSize: int)
      requires Consistent() && !wrapped && Sized(t, placed, n, from, start, fileSize, currentFilePos)
      requires |t| == sections.Length && forall i :: 0 <= i < sections.Length ==> SameKind(sections[i], t[i])
      ensures CoverRule(t, placed, n, from, start, fileSize)
    {
      hide Sized, NoBitsTight, Covered, InOrder, Once, MapsTo, FileSize;
      forall b | n <= b < |placed|
        ensures placed[b].index < |t| && placed[b].size == FileSize(t[placed[b].index])
      {
        SameFileSize(sections[placed[b].index], t[placed[b].index]);
      }
      forall c: nat | LastContents(t, placed, n, c) && placed[c].size > 0
        ensures Covered(placed, n, start, fileSize) <==> NoBitsTight(t, placed, n, from, c)
      {
        CoveredIff(t, placed, n, from, start, fileSize, this.start, currentFilePos, c);
      }
    }

    /** The owners recorded so far are finished segments, with the offset and the address they still have. */
    ghost predicate OwnersRecorded(finished: seq<nat>)
      reads this, segments
    {
      forall a :: 0 <= a < |placed| && placed[a].owner.Owner? ==>
        var o := placed[a].owner;
        && o.segment in finished && o.segment < segments.Length
        && segments[o.segment].offset == o.start && segments[o.segment].vaddr == o.vaddr
    }

    /** elfio.hpp:743-861: where a segment starts, and its members. If they are all new, the part of the file given to
        the segment takes them in by `CoverRule`. */
    method FillSegment(s: nat, generated: array<bool>, ghost sections0: seq<Section>)
      returns (ok: bool, segStart: Word64, fileSize: Word64, memSize: Word64)
      requires Valid() && Consistent() && s < segments.Length && Marks(generated) && Untouched(generated, sections0)
      modifies this`currentFilePos, this`wrapped, this`placed, sections, generated
      ensures old(HasMembers(Now(generated), segments[s].sections)) && segments[s].align < WORD && segments[s].vaddr < WORD
      ensures var started := old(StartOf(Now(generated), segments[s], segmentsOffset, TableSize()));
              && segStart == started.offset
              && Run(ok, Now(generated), Extent(fileSize, memSize))
                 == AfterMembers(started.state, Extent(started.size, started.size), segments[s].sections, segments[s].ptype,
                                 Owner(s, segStart, segments[s].vaddr))
      ensures Consistent() && (old(wrapped) ==> wrapped) && Marks(generated) && Untouched(generated, sections0)
      ensures forall i :: 0 <= i < sections.Length ==> SameKind(sections[i], old(sections[i]))
      ensures forall i :: 0 <= i < sections.Length && old(generated[i]) ==> generated[i]
      ensures ok ==> AllMarked(generated[..], segments[s].sections)
      ensures GrowsBy(old(placed), placed, segments[s].sections, Owner(s, segStart, segments[s].vaddr))
      ensures forall a :: |old(placed)| <= a < |placed| ==> !old(generated[..])[placed[a].index]
      ensures var seg := segments[s];
              !wrapped && seg.sections != [] && !old(generated[..])[seg.sections[0]] && !(seg.offsetSet && seg.offset == 0)
              && seg.align > 0 ==>
                (segStart % seg.align == seg.vaddr % seg.align <==> PaddingFits(seg.align, seg.vaddr, old(currentFilePos)))
      ensures !wrapped ==> forall a :: |old(placed)| <= a < |placed| ==> FreeAligned(sections0, placed[a])
      ensures var seg := segments[s];
              ok && !wrapped && seg.sections != [] && Fresh(old(generated[..]), seg.sections) ==>
                CoverRule(old(sections[..]), placed, |old(placed)|,
                          if seg.offsetSet && seg.offset == 0 then old(currentFilePos) else segStart, segStart, fileSize)
      ensures Moved(old(wrapped), old(currentFilePos), SegmentRoom(sections0, segments[s]), wrapped, currentFilePos)
    {
      hide PaddingFits, Moved, MembersRoom, SegmentPadding, Consistent, Marks, AllMarked, Sized, CoverRule, GrowsBy, SameKind;
      ghost var seg, w, p, n, t := segments[s], wrapped, currentFilePos, |placed|, sections[..];
      segStart, fileSize, memSize := StartSegment(s, generated);
      ghost var w', p', f0 := wrapped, currentFilePos, fileSize;
      ghost var covers := seg.sections != [] && Fresh(generated[..], seg.sections);
      assert covers ==> segStart + f0 == p';
      ok, fileSize, memSize := LayoutMembers(s, segStart, fileSize, memSize, generated, sections0);
      MovedTwice(w, p, if seg.align > 0 then seg.align else 1, w', p', MembersRoom(sections0, seg.vaddr, seg.sections),
                 wrapped, currentFilePos);
      if ok && !wrapped && covers {
        CoverRuleHolds(t, n, p', segStart, fileSize);
      }
    }

    /** elfio.hpp:742-874, one segment. */
    method LayoutSegment(s: nat, generated: array<bool>, ghost finished: seq<nat>, ghost sections0: seq<Section>)
      returns (ok: bool)
      requires Valid() && Consistent() && s < segments.Length && Marks(generated) && Untouched(generated, sections0)
      requires OwnersRecorded(finished) && s !in finished
      requires generated.Length == sections.Length && WellFormed(segments[s], |sections0|)
      modifies this`currentFilePos, this`wrapped, this`placed, sections, generated, segments
      ensures Laid(ok, Now(generated), segments[..])
           == old(AfterSegment(Now(generated), segments[..], s, segmentsOffset, TableSize()))
      ensures Valid() && Consistent() && (old(wrapped) ==> wrapped) && Marks(generated) && Untouched(generated, sections0)
      ensures forall i :: 0 <= i < sections.Length ==> SameKind(sections[i], old(sections[i]))
      ensures forall i :: 0 <= i < sections.Length && old(generated[i]) ==> generated[i]
      ensures ok ==> AllMarked(generated[..], segments[s].sections)
      ensures segments[s].sections == old(segments[s].sections) && segments[s].align == old(segments[s].align)
      ensures segments[s].vaddr == old(segments[s].vaddr)
      ensures forall t :: 0 <= t < segments.Length && t != s ==> segments[t] == old(segments[t])
      ensures ok ==> OwnersRecorded(finished + [s])
      ensures forall a :: |old(placed)| <= a < |placed| ==> placed[a].index in segments[s].sections
      ensures forall a :: |old(placed)| <= a < |placed| ==> placed[a].owner.Owner? && placed[a].owner.segment == s
      ensures old(placed) <= placed
      ensures ok && !wrapped ==> Congruent(placed, s, segments[s], old(segments[s]))
      ensures !wrapped ==> forall a :: |old(placed)| <= a < |placed| ==> FreeAligned(sections0, placed[a])
      ensures ok && !wrapped && segments[s].sections != [] && Fresh(old(generated[..]), segments[s].sections) ==>
                var seg := old(segments[s]);
                CoverRule(old(sections[..]), placed, |old(placed)|,
                          if seg.offsetSet && seg.offset == 0 then old(currentFilePos) else segments[s].offset,
                          segments[s].offset, segments[s].filesize)
      ensures Moved(old(wrapped), old(currentFilePos), SegmentRoom(sections0, old(segments[s])), wrapped, currentFilePos)
    {
      hide PaddingFits, Moved, MembersRoom, SegmentRoom, SegmentPadding, Consistent, Marks, Untouched, Congruent, Begins,
           AllMarked, MapsTo, CoverRule, Fresh, SameKind, AfterMembers, StartOf, FreeAligned, FileSize, InOrder;
      ghost var seg0, p, before, g := segments[s], currentFilePos, placed, generated[..];
      var segStart, fileSize, memSize;
      ok, segStart, fileSize, memSize := FillSegment(s, generated, sections0);
      if ok {
        var seg := segments[s];
        segments[s] := seg.(filesize := fileSize, memsize := if seg.memsize < memSize then memSize else seg.memsize,
                            offset := segStart, offsetSet := true);
        if !wrapped {
          assert forall a :: 0 <= a < |before| ==> placed[a] == before[a];
          CongruentStart(before, placed, s, segments[s], seg0, g, finished, p);
        }
      }
    }

    ghost function Members(): (m: seq<seq<nat>>)
      reads segments
      ensures |m| == segments.Length && forall t :: 0 <= t < segments.Length ==> m[t] == segments[t].sections
    {
      seq(segments.Length, t requires 0 <= t < segments.Length reads segments => segments[t].sections)
    }

    lemma NothingMarked(generated: array<bool>)
      requires placed == [] && generated.Length == sections.Length && forall i :: 0 <= i < generated.Length ==> !generated[i]
      ensures Marks(generated) && Untouched(generated, sections[..])
    {
    }

    lemma MarkedIsListed(generated: array<bool>)
      requires Marks(generated)
      ensures forall i :: 0 <= i < sections.Length && generated[i] ==> Lists(placed, i) || sections[i].stype == SHT_NULL
    {
    }

    /** The state after the first k segments of the worklist. */
    ghost predicate Done(k: nat, worklist: seq<nat>, generated: array<bool>, m: seq<seq<nat>>,
                         b: State, segments0: seq<Segment>)
      reads this, sections, segments, generated
    {
      && Valid() && Consistent() && Marks(generated) && Untouched(generated, b.sections) && Members() == m
      && k <= |worklist| && OwnersRecorded(worklist[..k])
      && FirstSegments(k, worklist, m, b.sections, segments0, segments[..], Now(generated))
      && HasSegments(b, segments0) && InRange(worklist, |segments0|)
      && AfterSegments(b, segments0, worklist[..k], segmentsOffset, TableSize()) == Laid(true, Now(generated), segments[..])
    }

    /** The body of the loop. */
    method LayoutNext(k: nat, worklist: seq<nat>, generated: array<bool>, ghost m: seq<seq<nat>>,
                      ghost b: State, ghost segments0: seq<Segment>)
      returns (ok: bool)
      requires Done(k, worklist, generated, m, b, segments0) && k < |worklist|
      requires WellFormed(segments0[worklist[k]], |b.sections|)
      modifies this`currentFilePos, this`wrapped, this`placed, sections, generated, segments
      ensures Valid() && Consistent() && Members() == m && (old(wrapped) ==> wrapped)
      ensures forall i :: 0 <= i < sections.Length ==> SameKind(sections[i], b.sections[i])
      ensures forall a :: 0 <= a < |placed| ==> InSegment(m, placed[a].index)
      ensures if ok then Done(k + 1, worklist, generated, m, b, segments0)
              else
                && HasSegments(b, segments0) && InRange(worklist, |segments0|)
                && AfterSegments(b, segments0, worklist, segmentsOffset, TableSize()) == Laid(false, Now(generated), segments[..])
      ensures Moved(old(wrapped), old(currentFilePos), SegmentRoom(b.sections, segments0[worklist[k]]), wrapped, currentFilePos)
    {
      hide Consistent, Marks, Untouched, OwnersRecorded, WellFormed, Congruent, AllMarked, InSegment, Moved, SegmentRoom,
           AfterSegment, AfterSegments, HasSegments, FirstSegments;
      var s := worklist[k];
      ghost var before, c := segments[..], Now(generated);
      NextKnown(k, worklist, m, b.sections, segments0, before, c);
      ok := LayoutSegment(s, generated, worklist[..k], b.sections);
      OneMoreLaid(b, segments0, worklist, k, segmentsOffset, TableSize());
      KeptAnyway(k, worklist, m, b.sections, segments0, before, c, segments[..], Now(generated));
      if ok {
        SegmentStep(k, worklist, m, b.sections, segments0, before, c, segments[..], Now(generated));
        assert worklist[..k + 1] == worklist[..k] + [s];
      }
    }

    lemma NothingDone(worklist: seq<nat>, generated: array<bool>)
      requires Valid() && Consistent() && placed == [] && IsOrdering(worklist, segments.Length)
      requires generated.Length == sections.Length && forall i :: 0 <= i < generated.Length ==> !generated[i]
      ensures Done(0, worklist, generated, Members(), Unplaced(sections[..], currentFilePos, wrapped), segments[..])
    {
      OrderingOnce(worklist, segments.Length);
      NothingMarked(generated);
      assert generated[..] == Unplaced(sections[..], currentFilePos, wrapped).generated;
    }

    /** What remains to be known once every segment is done. */
    lemma AllDone(worklist: seq<nat>, generated: array<bool>, m: seq<seq<nat>>, b: State,
                  segments0: seq<Segment>)
      requires Done(|worklist|, worklist, generated, m, b, segments0) && IsOrdering(worklist, segments.Length)
      ensures forall i :: 0 <= i < sections.Length && InSegment(m, i) ==> Lists(placed, i) || sections[i].stype == SHT_NULL
      ensures OwnersRecorded(Count(segments.Length))
      ensures !wrapped ==> forall a :: 0 <= a < |placed| ==> FreeAligned(b.sections, placed[a])
      ensures !wrapped ==> AllCongruent(placed, segments[..], segments0)
    {
      hide Lists, InSegment, Consistent, Untouched, AllMarked, Congruent;
      OrderingOnce(worklist, segments.Length);
      assert worklist[..|worklist|] == worklist;
      MarkedMembers(generated[..], m, worklist);
      MarkedIsListed(generated);
      forall t: nat | t < segments.Length
        ensures t in Count(segments.Length) && t in worklist
      {
        assert Count(segments.Length)[t] == t;
      }
      forall t: nat | t < segments.Length && !wrapped
        ensures Congruent(placed, t, segments[t], segments0[t])
      {
        assert t in worklist;
        var l :| 0 <= l < |worklist| && worklist[l] == t;
      }
    }

    /** elfio.hpp:733-877 */
    method LayoutSegments() returns (ok: bool, ghost worklist: seq<nat>)
      requires Valid() && Consistent() && placed == []
      modifies this`currentFilePos, this`wrapped, this`placed, sections, segments
      ensures Ordered(old(segments[..]), worklist)
      ensures var b := Unplaced(old(sections[..]), old(currentFilePos), old(wrapped));
              && HasSegments(b, old(segments[..]))
              && var l := AfterSegments(b, old(segments[..]), worklist, segmentsOffset, TableSize());
              && ok == l.ok && segments[..] == l.segments && sections[..] == l.state.sections
              && placed == l.state.placed && currentFilePos == l.state.pos && wrapped == l.state.wrapped
      ensures Valid() && Consistent() && (old(wrapped) ==> wrapped)
      ensures forall i :: 0 <= i < sections.Length ==> SameKind(sections[i], old(sections[i]))
      ensures Members() == old(Members())
      ensures ok ==> forall i :: 0 <= i < sections.Length && InSegment(Members(), i) ==>
                       Lists(placed, i) || sections[i].stype == SHT_NULL
      ensures forall a :: 0 <= a < |placed| ==> InSegment(Members(), placed[a].index)
      ensures ok ==> OwnersRecorded(Count(segments.Length))
      ensures ok && !wrapped ==> AllCongruent(placed, segments[..], old(segments[..]))
      ensures ok && !wrapped ==> forall a :: 0 <= a < |placed| ==> FreeAligned(old(sections[..]), placed[a])
      ensures ok ==>
                Moved(old(wrapped), old(currentFilePos),
                      SegmentsRoom(old(sections[..]), old(segments[..]), Count(segments.Length), segments.Length),
                      wrapped, currentFilePos)
    {
      hide Lists, IsSubsequenceOf, Moved, SegmentsRoom, Consistent, InSegment, AllCongruent, OwnersRecorded, IsOrdering,
           WellFormed, AfterSegments, FreeAligned, Done, ZeroFirst, KeepsOrder;
      var order := GetOrderedSegments(segments[..]);
      worklist := order;
      var generated := new bool[sections.Length](_ => false);
      ghost var m, sections0, segments0 := Members(), sections[..], segments[..];
      ghost var b := Unplaced(sections0, currentFilePos, wrapped);
      NothingDone(order, generated);
      ok := LayoutAll(order, generated, m, b, segments0);
      if ok {
        AllDone(order, generated, m, b, segments0);
        OrderingCounts(order, segments.Length);
        SameSegments(sections0, segments0, order, Count(segments.Length), |segments0|);
      }
    }

    /** The loop. */
    method LayoutAll(worklist: seq<nat>, generated: array<bool>, ghost m: seq<seq<nat>>, ghost b: State,
                     ghost segments0: seq<Segment>)
      returns (ok: bool)
      requires Done(0, worklist, generated, m, b, segments0)
      requires forall s :: 0 <= s < |segments0| ==> WellFormed(segments0[s], |b.sections|)
      modifies this`currentFilePos, this`wrapped, this`placed, sections, generated, segments
      ensures Valid() && Consistent() && Members() == m && (old(wrapped) ==> wrapped)
      ensures forall i :: 0 <= i < sections.Length ==> SameKind(sections[i], b.sections[i])
      ensures forall a :: 0 <= a < |placed| ==> InSegment(m, placed[a].index)
      ensures HasSegments(b, segments0) && InRange(worklist, |segments0|)
      ensures AfterSegments(b, segments0, worklist, segmentsOffset, TableSize()) == Laid(ok, Now(generated), segments[..])
      ensures ok ==>
                && Done(|worklist|, worklist, generated, m, b, segments0)
                && Moved(old(wrapped), old(currentFilePos), SegmentsRoom(b.sections, segments0, worklist, |segments0|),
                         wrapped, currentFilePos)
    {
      hide Moved, SegmentRoom, SegmentsRoom, Consistent, Marks, Untouched, InSegment, OwnersRecorded, WellFormed, AfterSegments,
           FirstSegments, SameKind;
      NoSegmentsYet(b.sections, segments0, wrapped, currentFilePos);
      KnownAlways(0, worklist, m, b.sections, segments0, segments[..], Now(generated));
      ok := true;
      var k := 0;
      while k < |worklist|
        invariant ok && 0 <= k <= |worklist| && (old(wrapped) ==> wrapped)
        invariant Done(k, worklist, generated, m, b, segments0)
        invariant Moved(old(wrapped), old(currentFilePos),
                        SegmentsRoom(b.sections, segments0, worklist[..k], |segments0|), wrapped, currentFilePos)
      {
        ghost var w, p := wrapped, currentFilePos;
        NextKnown(k, worklist, m, b.sections, segments0, segments[..], Now(generated));
        ok := LayoutNext(k, worklist, generated, m, b, segments0);
        if !ok {
          return;
        }
        NextSegment(b.sections, segments0, worklist[..k], worklist[k], old(wrapped), old(currentFilePos), w, p,
                    wrapped, currentFilePos);
        assert worklist[..k + 1] == worklist[..k] + [worklist[k]];
        k := k + 1;
      }
      assert worklist[..k] == worklist;
      KnownAlways(k, worklist, m, b.sections, segments0, segments[..], Now(generated));
    }

    /** elfio.hpp:616-628 */
    method IsSectionWithoutSegment(i: nat) returns (without: bool)
      ensures without <==> !InSegment(Members(), i)
    {
      var found := false;
      var j := 0;
      while !found && j < segments.Length
        invariant 0 <= j <= segments.Length
        invariant found ==> InSegment(Members(), i)
        invariant !found ==> forall t, k :: 0 <= t < j && 0 <= k < |segments[t].sections| ==> segments[t].sections[k] != i
      {
        var k := 0;
        while !found && k < |segments[j].sections|
          invariant 0 <= k <= |segments[j].sections|
          invariant found ==> InSegment(Members(), i)
          invariant !found ==> forall l :: 0 <= l < k ==> segments[j].sections[l] != i
        {
          found := segments[j].sections[k] == i;
          assert Members()[j] == segments[j].sections;
          k := k + 1;
        }
        j := j + 1;
      }
      without := !found;
    }

    /** elfio.hpp:698-703 */
    method AlignPosition(align: Word64)
      requires Consistent()
      modifies this`currentFilePos, this`wrapped
      ensures Consistent() && (old(wrapped) ==> wrapped)
      ensures align > 0 && wrapped == old(wrapped) && !wrapped ==> currentFilePos % align == 0
      ensures !wrapped ==> old(currentFilePos) <= currentFilePos < old(currentFilePos) + if align > 0 then align else 1
      ensures Moved(old(wrapped), old(currentFilePos), align, wrapped, currentFilePos)
    {
      hide FileSize, InOrder, MapsTo, Once, Wrap;
      PaddingToMultiple(currentFilePos, align);
      if align > 0 {
        DivMod(currentFilePos, align);
      }
      if align > 1 && currentFilePos % align != 0 {
        NoWrap(currentFilePos + (align - currentFilePos % align));
        Advance(align - currentFilePos % align);
      }
    }

    /** elfio.hpp:697-713, the body of the loop. */
    method PlaceOutside(i: nat)
      requires Consistent() && i < sections.Length && !Lists(placed, i)
      modifies this`currentFilePos, this`wrapped, this`placed, sections
      ensures Consistent() && (old(wrapped) ==> wrapped)
      ensures |placed| == |old(placed)| + 1 && old(placed) <= placed
      ensures placed[|old(placed)|].index == i && placed[|old(placed)|].owner == Nobody
      ensures !wrapped ==>
                && NextMultipleAt(sections[i], old(currentFilePos), placed[|old(placed)|])
                && currentFilePos == placed[|old(placed)|].offset + placed[|old(placed)|].size
      ensures forall j :: 0 <= j < sections.Length ==> sections[j] == old(sections[j]).(offset := sections[j].offset)
      ensures forall j :: 0 <= j < sections.Length && j != i ==> sections[j] == old(sections[j])
      ensures forall j: nat :: Lists(placed, j) <==> old(Lists(placed, j)) || j == i
      ensures forall j :: 0 <= j < sections.Length ==> SameKind(sections[j], old(sections[j]))
      ensures Moved(old(wrapped), old(currentFilePos), old(sections[i]).align + FileSize(old(sections[i])),
                    wrapped, currentFilePos)
    {
      hide FileSize, InOrder, Wrap, Lists, MapsTo, Once, Moved;
      ghost var s, w, p := sections[i], wrapped, currentFilePos;
      AlignPosition(sections[i].align);
      ghost var w', p' := wrapped, currentFilePos;
      NobodyMaps(sections[i], currentFilePos);
      Place(i, Nobody);
      NoWrap(p' + FileSize(sections[i]));
      ListsAfter(placed[..|placed| - 1], placed[|placed| - 1]);
      assert placed[..|placed| - 1] == old(placed);
      OutsidePlaced(s, sections[i], w, p, w', p', wrapped, currentFilePos);
    }

    /** elfio.hpp:692-717 */
    method LayoutSectionsWithoutSegments()
      requires Valid() && Consistent()
      requires forall a :: 0 <= a < |placed| ==> InSegment(Members(), placed[a].index)
      modifies this`currentFilePos, this`wrapped, this`placed, sections
      ensures Consistent() && (old(wrapped) ==> wrapped) && old(placed) <= placed
      ensures forall i :: 0 <= i < sections.Length ==> SameKind(sections[i], old(sections[i]))
      ensures forall i :: 0 <= i < sections.Length && !InSegment(Members(), i) ==> Lists(placed, i)
      ensures forall a :: |old(placed)| <= a < |placed| ==> !InSegment(Members(), placed[a].index) && placed[a].owner == Nobody
      ensures !wrapped ==> OutsideAligned() && PackedFrom(sections[..], placed, |old(placed)|, old(currentFilePos))
      ensures !wrapped ==> currentFilePos == FreeFrom(placed, |old(placed)|, old(currentFilePos), |placed|)
      ensures forall j :: 0 <= j < sections.Length ==> sections[j] == old(sections[j]).(offset := sections[j].offset)
      ensures forall j :: 0 <= j < sections.Length && InSegment(Members(), j) ==> sections[j] == old(sections[j])
      ensures Moved(old(wrapped), old(currentFilePos), OutsideRoom(old(sections[..]), Members(), sections.Length),
                    wrapped, currentFilePos)
    {
      hide Consistent, Lists, InSegment, OutsideDone;
      ghost var m, b := Members(), State(sections[..], [], placed, currentFilePos, wrapped);
      var i := 0;
      NoneOutsideDone(m, b);
      while i < sections.Length
        invariant 0 <= i <= sections.Length && Members() == m && Consistent()
        invariant OutsideDone(i, m, b, State(sections[..], [], placed, currentFilePos, wrapped))
      {
        ghost var c := State(sections[..], [], placed, currentFilePos, wrapped);
        var without := IsSectionWithoutSegment(i);
        if without {
          NotYetOutside(i, m, b, c);
          PlaceOutside(i);
        }
        OutsideStep(i, m, b, c, State(sections[..], [], placed, currentFilePos, wrapped));
        i := i + 1;
      }
      AllOutsideDone(m, b, State(sections[..], [], placed, currentFilePos, wrapped));
      if !wrapped {
        AlignedByPacking(sections[..], placed, |old(placed)|, old(currentFilePos));
        AlignedByPlaces(|old(placed)|);
      }
    }

    /** Every section outside the segments lies at a multiple of its alignment. Section 0 has no offset of its own. */
    ghost predicate OutsideAligned()
      reads this, sections, segments
    {
      forall i :: 1 <= i < sections.Length && !InSegment(Members(), i) && sections[i].align > 0 ==>
        sections[i].offset % sections[i].align == 0
    }

    /** Every section that came without an address and has been placed lies at a multiple of its alignment. */
    ghost predicate FreeSectionsAligned(sections0: seq<Section>)
      reads this, sections
    {
      |sections0| == sections.Length
      && forall i :: 1 <= i < sections.Length && Lists(placed, i) && !sections0[i].addressSet && sections0[i].align > 0 ==>
           sections[i].offset % sections0[i].align == 0
    }

    lemma FreeAfter(sections0: seq<Section>, n: nat, from: int)
      requires Consistent() && |sections0| == sections.Length && n <= |placed|
      requires forall i :: 0 <= i < sections.Length ==> SameKind(sections[i], sections0[i])
      requires forall a :: 0 <= a < n ==> FreeAligned(sections0, placed[a])
      requires PackedFrom(sections[..], placed, n, from)
      ensures FreeSectionsAligned(sections0)
    {
      hide InOrder, Once, MapsTo, FileSize;
      forall i | 1 <= i < sections.Length && Lists(placed, i) && !sections0[i].addressSet && sections0[i].align > 0
        ensures sections[i].offset % sections0[i].align == 0
      {
        var a :| 0 <= a < |placed| && placed[a].index == i;
        if a < n {
          assert FreeAligned(sections0, placed[a]);
        } else {
          assert NextMultipleAt(sections[..][i], FreeFrom(placed, n, from, a), placed[a]);
        }
      }
    }

    lemma AlignedByPlaces(n: nat)
      requires Consistent() && forall i :: 0 <= i < sections.Length && !InSegment(Members(), i) ==> Lists(placed, i)
      requires n <= |placed| && forall a :: 0 <= a < n ==> InSegment(Members(), placed[a].index)
      requires forall a :: n <= a < |placed| ==> IsAligned(sections[placed[a].index], placed[a])
      ensures OutsideAligned()
    {
      hide InOrder, Once, MapsTo, InSegment, FileSize;
      forall i | 1 <= i < sections.Length && !InSegment(Members(), i) && sections[i].align > 0
        ensures sections[i].offset % sections[i].align == 0
      {
        assert Lists(placed, i);
        var a :| 0 <= a < |placed| && placed[a].index == i;
      }
    }

    /** elfio.hpp:880-887 */
    method LayoutSectionTable()
      requires Consistent()
      modifies this`currentFilePos, this`wrapped, this`sectionsOffset
      ensures Consistent() && (old(wrapped) ==> wrapped) && sectionsOffset == currentFilePos
      ensures !wrapped ==> sectionsOffset % 4 == 0 && old(currentFilePos) <= sectionsOffset < old(currentFilePos) + 4
      ensures Moved(old(wrapped), old(currentFilePos), 3, wrapped, currentFilePos)
    {
      hide InOrder, Once, MapsTo, FileSize, Wrap;
      var error := currentFilePos % 4;
      MultipleOfFour(currentFilePos);
      NoWrap(currentFilePos + (4 - error) % 4);
      Advance((4 - error) % 4);
      sectionsOffset := currentFilePos;
    }

    /** elfio.hpp:720-730 */
    method CalcSegmentAlignment()
      requires Valid()
      modifies segments
      ensures Valid() && Members() == old(Members())
      ensures forall s :: 0 <= s < segments.Length ==> segments[s] == old(segments[s]).(align := segments[s].align)
      ensures forall s :: 0 <= s < segments.Length ==>
                segments[s].align == LargestAlign(sections[..], old(segments[s]).align, segments[s].sections)
    {
      var s := 0;
      while s < segments.Length
        invariant 0 <= s <= segments.Length && Valid()
        invariant forall t :: s <= t < segments.Length ==> segments[t] == old(segments[t])
        invariant forall t :: 0 <= t < s ==> segments[t] == old(segments[t]).(align := segments[t].align)
        invariant forall t :: 0 <= t < s ==>
                    segments[t].align == LargestAlign(sections[..], old(segments[t]).align, segments[t].sections)
      {
        AlignOne(s);
        s := s + 1;
      }
    }

    /** The inner loop. */
    method AlignOne(s: nat)
      requires Valid() && s < segments.Length
      modifies segments
      ensures Valid() && forall t :: 0 <= t < segments.Length && t != s ==> segments[t] == old(segments[t])
      ensures segments[s] == old(segments[s]).(align := segments[s].align)
      ensures segments[s].align == LargestAlign(sections[..], old(segments[s]).align, segments[s].sections)
    {
      var i := 0;
      ghost var seg := segments[s];
      while i < |segments[s].sections|
        invariant 0 <= i <= |seg.sections| && Valid()
        invariant forall t :: 0 <= t < segments.Length && t != s ==> segments[t] == old(segments[t])
        invariant segments[s] == seg.(align := segments[s].align)
        invariant segments[s].align == LargestAlign(sections[..], seg.align, seg.sections[..i])
      {
        var sect := sections[segments[s].sections[i]];
        assert seg.sections[..i + 1][..i] == seg.sections[..i];
        if sect.align > segments[s].align {
          segments[s] := segments[s].(align := sect.align);
        }
        i := i + 1;
      }
      assert seg.sections[..i] == seg.sections;
    }

    /** The layout of the segments in the order of the worklist, as calculated from the records: behind the program header
        table, with their alignments raised to those of their sections. */
    ghost function SegmentsLaid(worklist: seq<nat>): Laid
      requires Valid() && InRange(worklist, segments.Length)
      reads this, sections, segments
    {
      HeaderFits(headerSize, phEntrySize, segments.Length);
      var c := Unplaced(sections[..], headerSize + phEntrySize * segments.Length, false);
      AfterSegments(c, AllWithAlignment(sections[..], segments[..]), worklist,
                    if segments.Length > 0 then headerSize else 0, TableSize())
    }

    /** Behind the places p and position pos, every section outside the segments has been given the next multiple of its
        alignment, in the order of their numbers; nothing else has changed in the sections s; and the section header table is
        at the next multiple of four. */
    ghost predicate RestLaid(s: seq<Section>, p: seq<Placed>, pos: Word64)
      reads this, sections, segments
    {
      && |s| == sections.Length && p <= placed
      && (forall i :: 0 <= i < |s| ==> sections[i] == s[i].(offset := sections[i].offset))
      && (forall i :: 0 <= i < |s| && InSegment(Members(), i) ==> sections[i] == s[i])
      && (!wrapped ==>
            && PackedFrom(sections[..], placed, |p|, pos)
            && FreeFrom(placed, |p|, pos, |placed|) <= sectionsOffset < FreeFrom(placed, |p|, pos, |placed|) + 4)
    }

    /** elfio.hpp:193-219: the header fields and the three layout passes. If the input is such that `Room` is below
        2^64, which a caller can check before, or if it happens that no position wraps, then everything the file
        consists of is apart from everything else, and segments are aligned. */
    method Layout() returns (ok: bool, ghost worklist: seq<nat>)
      requires Valid()
      modifies this, sections, segments
      ensures segmentsOffset == if segments.Length > 0 then headerSize else 0
      ensures old(Ordered(AllWithAlignment(sections[..], segments[..]), worklist))
      ensures var l := old(SegmentsLaid(worklist));
              && ok == l.ok && segments[..] == l.segments
              && (ok ==> RestLaid(l.state.sections, l.state.placed, l.state.pos))
      ensures ok ==> EachPlacedOnce() && OwnersRecorded(Count(segments.Length))
      ensures ok && old(Room()) < WORD ==> !wrapped && sectionsOffset <= old(Room())
      ensures ok && !wrapped ==> Apart()
      ensures ok && !wrapped ==> AllCongruent(placed, segments[..], old(segments[..]))
      ensures ok && !wrapped ==> OutsideAligned() && FreeSectionsAligned(old(sections[..])) && sectionsOffset % 4 == 0
    {
      hide FileSize, InOrder, MapsTo, Wrap, Lists, InSegment, Moved, SegmentsRoom, OutsideRoom, AllCongruent, AfterSegments,
           Ordered, FreeAligned, PackedFrom, FreeFrom, OutsideAligned, FreeSectionsAligned, RestLaid, Apart, EachPlacedOnce,
           HasSegments;
      ghost var sections0, segments0, m, room := sections[..], segments[..], Members(), Room();
      segmentsOffset := if segments.Length > 0 then headerSize else 0;
      sectionsOffset := 0;
      HeaderFits(headerSize, phEntrySize, segments.Length);
      currentFilePos := headerSize + phEntrySize * segments.Length;
      placed, start, wrapped := [], currentFilePos, false;
      EmptyInOrder(start);
      CalcSegmentAlignment();
      ghost var segments1 := segments[..];
      assert segments1 == AllWithAlignment(sections0, segments0);
      ok, worklist := LayoutSegments();
      if ok {
        ghost var w1, p1 := wrapped, currentFilePos;
        SameOutside(sections0, sections[..], m, |sections0|);
        LayoutRest(sections0, segments0, segments1);
        WholeMove(start, SegmentsRoom(sections0, segments1, Count(|segments1|), |segments1|), w1, p1,
                  OutsideRoom(sections0, m, |sections0|), wrapped, currentFilePos);
        if !wrapped {
          ApartFromOrder();
        }
      }
    }

    /** elfio.hpp:218-219: what follows the segments. */
    method LayoutRest(ghost sections0: seq<Section>, ghost segments0: seq<Segment>, ghost segments1: seq<Segment>)
      requires Valid() && Consistent() && OwnersRecorded(Count(segments.Length))
      requires forall i :: 0 <= i < sections.Length && InSegment(Members(), i) ==>
                 Lists(placed, i) || sections[i].stype == SHT_NULL
      requires forall a :: 0 <= a < |placed| ==> InSegment(Members(), placed[a].index)
      requires |segments0| == |segments1| && forall s :: 0 <= s < |segments0| ==>
                 segments1[s] == segments0[s].(align := segments1[s].align)
      requires !wrapped ==> AllCongruent(placed, segments[..], segments1)
      requires |sections0| == sections.Length && forall i :: 0 <= i < sections.Length ==> SameKind(sections[i], sections0[i])
      requires !wrapped ==> forall a :: 0 <= a < |placed| ==> FreeAligned(sections0, placed[a])
      modifies this`currentFilePos, this`wrapped, this`placed, this`sectionsOffset, sections
      ensures EachPlacedOnce() && OwnersRecorded(Count(segments.Length)) && sectionsOffset == currentFilePos
      ensures RestLaid(old(sections[..]), old(placed), old(currentFilePos))
      ensures !wrapped ==> AllCongruent(placed, segments[..], segments0)
      ensures !wrapped ==> OutsideAligned() && FreeSectionsAligned(sections0) && sectionsOffset % 4 == 0
      ensures Moved(old(wrapped), old(currentFilePos), OutsideRoom(old(sections[..]), Members(), sections.Length) + 3,
                    wrapped, currentFilePos)
    {
      hide FileSize, InOrder, MapsTo, Wrap, Lists, InSegment, Moved, OutsideRoom, AllCongruent, PackedFrom, FreeFrom;
      ghost var p, w, pos, room := placed, wrapped, currentFilePos, OutsideRoom(sections[..], Members(), sections.Length);
      LayoutSectionsWithoutSegments();
      ghost var w', pos' := wrapped, currentFilePos;
      StillListed(p, placed);
      if !wrapped {
        CongruentAfter(p, placed, segments[..], segments1, segments0);
        FreeAfter(sections0, |p|, pos);
      }
      LayoutSectionTable();
      MovedTwice(w, pos, room, w', pos', 3, wrapped, currentFilePos);
    }

    /** Every section is placed once, except empty members of segments, which are not placed at all. */
    ghost predicate EachPlacedOnce()
      reads this, sections, segments
    {
      && Consistent()
      && forall i :: 0 <= i < sections.Length ==>
           Lists(placed, i) || (sections[i].stype == SHT_NULL && InSegment(Members(), i))
    }

    /** The program header table follows the header; the sections follow the table and do not overlap; the
        section header table comes last. Section 0 has no offset of its own. */
    ghost predicate Apart()
      reads this, sections, segments
    {
      && (segments.Length > 0 ==> segmentsOffset == headerSize)
      && start == headerSize + phEntrySize * segments.Length
      && start <= sectionsOffset
      && (forall i :: 1 <= i < sections.Length && FileSize(sections[i]) > 0 ==>
            start <= sections[i].offset && sections[i].offset + FileSize(sections[i]) <= sectionsOffset)
      && (forall i, j :: (1 <= i < sections.Length && 1 <= j < sections.Length && i != j
                          && FileSize(sections[i]) > 0 && FileSize(sections[j]) > 0) ==>
            Separate(sections[i].offset, FileSize(sections[i]), sections[j].offset, FileSize(sections[j])))
    }

    lemma ApartFromOrder()
      requires EachPlacedOnce() && !wrapped && sectionsOffset == currentFilePos
      requires start == headerSize + phEntrySize * segments.Length
      requires segments.Length > 0 ==> segmentsOffset == headerSize
      ensures Apart()
    {
      forall i | 1 <= i < sections.Length && FileSize(sections[i]) > 0
        ensures start <= sections[i].offset && sections[i].offset + FileSize(sections[i]) <= sectionsOffset
      {
        var a := PlaceOf(i);
      }
      forall i, j | 1 <= i < sections.Length && 1 <= j < sections.Length && i != j
                    && FileSize(sections[i]) > 0 && FileSize(sections[j]) > 0
        ensures Separate(sections[i].offset, FileSize(sections[i]), sections[j].offset, FileSize(sections[j]))
      {
        var a := PlaceOf(i);
        var b := PlaceOf(j);
      }
    }

    lemma PlaceOf(i: nat) returns (a: nat)
      requires EachPlacedOnce() && 1 <= i < sections.Length && FileSize(sections[i]) > 0
      ensures a < |placed| && placed[a].index == i
      ensures sections[i].offset == placed[a].offset && FileSize(sections[i]) == placed[a].size
    {
      assert Lists(placed, i);
      a :| 0 <= a < |placed| && placed[a].index == i;
    }
  }
}
