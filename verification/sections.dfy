/**
 * Memory sections of the sgen collector (sgen-gc.c): the nursery section and
 * the old-generation sections that alloc_section puts at the head of
 * section_list.  In degraded mode small objects are bump-allocated in an
 * old-generation section (alloc_degraded) instead of the nursery.
 */
module GcSections {
  import opened GcDescriptors
  import opened GcHeap

  /** DEFAULT_NURSERY_SIZE */
  const DefaultNurserySize: nat := 1024 * 512 * 2
  /** DEFAULT_MAX_SECTION: next_section_size never grows past it. */
  const DefaultMaxSection: nat := DefaultNurserySize * 16

  /** The role of a section; the nursery section is the one of role GEN0. */
  datatype MemoryRole = Gen0 | Gen1 | Gen2 | Fixed | Internal

  /** A GCMemSection: [data, end_data) with its allocation cursor next_data. */
  datatype Section = Section(data: nat, size: nat, nextData: nat, endData: nat, numScanStart: nat, role: MemoryRole)

  /** `(size + pagesize - 1) & ~(pagesize - 1)`: size rounded up to whole pages. */
  function PageAligned(size: nat, pageSize: nat): (r: nat)
    requires pageSize > 0
    ensures r % pageSize == 0
    ensures size <= r < size + pageSize
  {
    var q := (size + pageSize - 1) / pageSize;
    MultipleMod(q, pageSize);
    q * pageSize
  }

  /** A whole number of pages leaves no remainder. */
  lemma {:induction false} MultipleMod(k: nat, d: nat)
    requires d > 0
    ensures (k * d) % d == 0
  {
    var q, m := (k * d) / d, (k * d) % d;
    assert d * (k - q) == m;
    if k - q >= 1 {
      MulAtLeast(d, k - q);
    } else if k - q <= -1 {
      MulAtLeast(d, q - k);
    }
  }

  /** d times a positive count is at least d. */
  lemma {:induction false} MulAtLeast(d: nat, t: int)
    requires t >= 1
    ensures d * t >= d
    decreases t
  {
    if t > 1 {
      assert d * t == d * (t - 1) + d;
      MulAtLeast(d, t - 1);
    }
  }

  /**
   * The size alloc_section gives a section asked for `size` bytes: the
   * current next_section_size, or the request in whole pages when larger.
   */
  function SectionSize(size: nat, nextSectionSize: nat, pageSize: nat): (r: nat)
    requires pageSize > 0
    ensures size <= r && nextSectionSize <= r
    ensures r == nextSectionSize || (r % pageSize == 0 && r < size + pageSize)
    ensures size <= nextSectionSize ==> r == nextSectionSize
  {
    if size > nextSectionSize then PageAligned(size, pageSize) else nextSectionSize
  }

  /** A section alloc_degraded may use for `size` bytes: not the nursery, and room after next_data. */
  predicate HasRoom(s: Section, size: nat)
  {
    s.role != Gen0 && s.endData - s.nextData >= size
  }

  /** The first section of the list alloc_degraded may use, if any. */
  function RoomFor(ss: seq<Section>, size: nat): (r: Option<nat>)
    ensures r.Some? ==> r.value < |ss| && HasRoom(ss[r.value], size)
    ensures r.Some? ==> forall j :: 0 <= j < r.value ==> !HasRoom(ss[j], size)
    ensures r.None? <==> forall j :: 0 <= j < |ss| ==> !HasRoom(ss[j], size)
  {
    if |ss| == 0 then None
    else if HasRoom(ss[0], size) then Some(0)
    else match RoomFor(ss[1..], size)
      case None => None
      case Some(i) => Some(i + 1)
  }

  /** section_list with the sizing state of alloc_section. */
  class SectionList {
    var sections: seq<Section>   // section_list, head first
    var nextSectionSize: nat     // next_section_size
    var sectionSizeUsed: nat     // section_size_used
    var totalAlloc: nat          // total_alloc
    var degradedMode: nat        // degraded_mode: bytes allocated in degraded mode
    const pageSize: nat          // pagesize: what mono_pagesize() returned when the collector started

    /** next_section_size stays within DEFAULT_MAX_SECTION; a new size is used at most four times. */
    ghost predicate Valid()
      reads this
    {
      pageSize > 0 && nextSectionSize <= DefaultMaxSection && sectionSizeUsed <= 3
    }

    /** The static initial values, with the page size mono_gc_base_init reads from the system. */
    constructor (systemPageSize: nat)
      requires systemPageSize > 0
      ensures Valid() && pageSize == systemPageSize
      ensures sections == [] && nextSectionSize == DefaultNurserySize * 4
      ensures sectionSizeUsed == 0 && totalAlloc == 0 && degradedMode == 0
    {
      pageSize := systemPageSize;
      sections := [];
      nextSectionSize := DefaultNurserySize * 4;
      sectionSizeUsed := 0;
      totalAlloc := 0;
      degradedMode := 0;
    }

    /**
     * alloc_section: a GEN1 section of SectionSize bytes at `data` (the
     * memory get_os_memory returned) goes to the head of the list.  Every
     * fourth section doubles next_section_size, up to DEFAULT_MAX_SECTION.
     */
    method AllocSection(size: nat, data: nat)
      requires Valid()
      modifies this
      ensures Valid()
      ensures var n := SectionSize(size, old(nextSectionSize), pageSize);
        && sections == [Section(data, n, data, data + n, n / ScanStartSize, Gen1)] + old(sections)
        && totalAlloc == old(totalAlloc) + n
      ensures old(sectionSizeUsed) < 3 ==> sectionSizeUsed == old(sectionSizeUsed) + 1 && nextSectionSize == old(nextSectionSize)
      ensures old(sectionSizeUsed) == 3 ==>
        && sectionSizeUsed == 0
        && nextSectionSize == if 2 * old(nextSectionSize) > DefaultMaxSection then DefaultMaxSection else 2 * old(nextSectionSize)
      ensures old(nextSectionSize) <= nextSectionSize
      ensures degradedMode == old(degradedMode)
    {
      var newSize := nextSectionSize;
      if size > nextSectionSize {
        newSize := PageAligned(size, pageSize);
      }
      sectionSizeUsed := sectionSizeUsed + 1;
      if sectionSizeUsed > 3 {
        sectionSizeUsed := 0;
        nextSectionSize := nextSectionSize * 2;
        if nextSectionSize > DefaultMaxSection {
          nextSectionSize := DefaultMaxSection;
        }
      }
      sections := [Section(data, newSize, data, data + newSize, newSize / ScanStartSize, Gen1)] + sections;
      totalAlloc := totalAlloc + newSize;
    }

    /**
     * alloc_degraded without the vtable store: the object goes at next_data
     * of the first section with room (RoomFor); when there is none, a new
     * section of four nursery sizes (`data` from get_os_memory) is made and
     * used.  The section's next_data moves past the object and
     * degraded_mode grows by its size.
     */
    method AllocDegraded(size: nat, nurserySize: nat, data: nat) returns (p: nat)
      requires Valid()
      modifies this
      ensures Valid()
      ensures match RoomFor(old(sections), size)
        case Some(i) =>
          && p == old(sections)[i].nextData && p + size <= old(sections)[i].endData
          && sections == old(sections)[i := old(sections)[i].(nextData := p + size)]
          && nextSectionSize == old(nextSectionSize) && sectionSizeUsed == old(sectionSizeUsed)
          && totalAlloc == old(totalAlloc)
        case None =>
          var n := SectionSize(nurserySize * 4, old(nextSectionSize), pageSize);
          && p == data && (size <= nurserySize * 4 ==> p + size <= data + n)
          && sections == [Section(data, n, data + size, data + n, n / ScanStartSize, Gen1)] + old(sections)
          && totalAlloc == old(totalAlloc) + n
          && (old(sectionSizeUsed) < 3 ==> sectionSizeUsed == old(sectionSizeUsed) + 1 && nextSectionSize == old(nextSectionSize))
          && (old(sectionSizeUsed) == 3 ==>
                && sectionSizeUsed == 0
                && nextSectionSize == if 2 * old(nextSectionSize) > DefaultMaxSection then DefaultMaxSection else 2 * old(nextSectionSize))
      ensures degradedMode == old(degradedMode) + size
    {
      var i := 0;
      while i < |sections| && !HasRoom(sections[i], size)
        invariant i <= |sections|
        invariant forall j :: 0 <= j < i ==> !HasRoom(sections[j], size)
      {
        i := i + 1;
      }
      if i == |sections| {
        AllocSection(nurserySize * 4, data);
        i := 0;
      }
      p := sections[i].nextData;
      sections := sections[i := sections[i].(nextData := p + size)];
      degradedMode := degradedMode + size;
    }
  }
}
