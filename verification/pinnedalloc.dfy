/**
 * The chunk lists of the pinned-chunk allocator (sgen-gc.c).
 * pinned_chunk_list serves objects that never move (alloc_from_freelist);
 * internal_chunk_list serves the collector's own structures
 * (get_internal_mem / free_internal_mem).  A request larger than the
 * biggest size class goes straight to the OS behind a LargeInternalMemHeader.
 * New chunks are put at the head of their list; min_pinned_chunk_addr and
 * max_pinned_chunk_addr bound every chunk made.
 *
 * get_os_memory is a parameter: the address it returns is passed in.
 */
module GcPinnedAlloc {
  import opened GcDescriptors
  import opened GcHeap
  import opened GcFreelist

  /** A LargeInternalMemHeader: the magic word and the size of the block with its header. */
  datatype LargeHeader = LargeHeader(magic: nat, size: nat)

  function Min(a: nat, b: nat): nat { if a <= b then a else b }
  function Max(a: nat, b: nat): nat { if a <= b then b else a }

  /**
   * Every chunk of the list keeps its invariant.  Stated chunk by chunk
   * down the list, so that only the chunks a proof names get unfolded.
   */
  ghost predicate ChunksValid(cs: seq<PinnedChunk>)
    reads cs
    decreases |cs|
  {
    |cs| == 0 || (cs[0].Valid() && ChunksValid(cs[1..]))
  }

  /** Each chunk of a valid list is valid. */
  lemma {:induction false} ChunksValidAt(cs: seq<PinnedChunk>, k: nat)
    requires ChunksValid(cs) && k < |cs|
    ensures cs[k].Valid()
    decreases k
  {
    if k > 0 {
      ChunksValidAt(cs[1..], k - 1);
    }
  }

  /** A valid chunk put at the head of a valid list gives a valid list. */
  lemma ChunksValidCons(c: PinnedChunk, cs: seq<PinnedChunk>)
    requires c.Valid() && ChunksValid(cs)
    ensures ChunksValid([c] + cs)
  {
    assert ([c] + cs)[1..] == cs;
  }

  /** No chunk of the list has changed since the previous state. */
  twostate predicate AllUnchanged(cs: seq<PinnedChunk>)
    reads cs
  {
    forall j :: 0 <= j < |cs| ==> unchanged(cs[j])
  }

  /** No chunk of the list but chunk k has changed since the previous state. */
  twostate predicate UnchangedBut(cs: seq<PinnedChunk>, k: nat)
    reads cs
  {
    forall j :: 0 <= j < |cs| && j != k ==> unchanged(cs[j])
  }

  /** Changing one chunk of a list of distinct chunks, and keeping it valid, keeps the list valid. */
  twostate lemma {:induction false} ChunksValidKept(cs: seq<PinnedChunk>, new k: nat)
    requires old(ChunksValid(cs)) && k < |cs| && cs[k].Valid() && UnchangedBut(cs, k)
    ensures ChunksValid(cs)
    decreases k
  {
    if k == 0 {
      ChunksValidSame(cs[1..]);
    } else {
      ChunksValidKept(cs[1..], k - 1);
    }
  }

  /** A list of chunks none of which changed stays valid. */
  twostate lemma {:induction false} ChunksValidSame(cs: seq<PinnedChunk>)
    requires old(ChunksValid(cs)) && AllUnchanged(cs)
    ensures ChunksValid(cs)
    decreases |cs|
  {
    if |cs| > 0 {
      ChunksValidSame(cs[1..]);
    }
  }

  /** No chunk is on the list twice: the head is not on the rest, which is itself distinct. */
  predicate Distinct(cs: seq<PinnedChunk>)
    decreases |cs|
  {
    |cs| == 0 || (cs[0] !in cs[1..] && Distinct(cs[1..]))
  }

  /** In a distinct list, every chunk but chunk i is another object than chunk i. */
  lemma {:induction false} DistinctApart(cs: seq<PinnedChunk>, i: nat)
    requires Distinct(cs) && i < |cs|
    ensures forall j :: 0 <= j < |cs| && j != i ==> cs[j] != cs[i]
    decreases |cs|
  {
    if i == 0 {
      assert forall j :: 1 <= j < |cs| ==> cs[j] == cs[1..][j - 1];
    } else {
      DistinctApart(cs[1..], i - 1);
      assert cs[i] == cs[1..][i - 1];
      assert forall j :: 1 <= j < |cs| ==> cs[j] == cs[1..][j - 1];
    }
  }

  /** The chunk's free list of the slot is not NULL. */
  predicate HasFree(c: PinnedChunk, slot: nat)
    reads c
  {
    slot < |c.freeList| && c.freeList[slot] != 0
  }

  /** The chunk has a page that is in no size class yet. */
  predicate HasUnused(c: PinnedChunk)
    reads c
  {
    FirstUnused(c.pageSizes).Some?
  }

  /** The first chunk of the list whose free list of the slot is not NULL: the first loop of alloc_from_freelist. */
  function FirstWithFree(cs: seq<PinnedChunk>, slot: nat): (r: Option<nat>)
    reads cs
    ensures r.Some? ==> r.value < |cs| && HasFree(cs[r.value], slot)
    ensures r.Some? ==> forall j :: 0 <= j < r.value ==> !HasFree(cs[j], slot)
    ensures r.None? <==> forall j :: 0 <= j < |cs| ==> !HasFree(cs[j], slot)
  {
    if |cs| == 0 then None
    else if HasFree(cs[0], slot) then Some(0)
    else match FirstWithFree(cs[1..], slot)
      case None => None
      case Some(i) => Some(i + 1)
  }

  /** The first chunk of the list with an unused page: where the second loop's get_chunk_freelist succeeds. */
  function FirstWithUnused(cs: seq<PinnedChunk>): (r: Option<nat>)
    reads cs
    ensures r.Some? ==> r.value < |cs| && HasUnused(cs[r.value])
    ensures r.Some? ==> forall j :: 0 <= j < r.value ==> !HasUnused(cs[j])
    ensures r.None? <==> forall j :: 0 <= j < |cs| ==> !HasUnused(cs[j])
  {
    if |cs| == 0 then None
    else if HasUnused(cs[0]) then Some(0)
    else match FirstWithUnused(cs[1..])
      case None => None
      case Some(i) => Some(i + 1)
  }

  /** The first chunk of the list whose pages [chunk, chunk + num_pages * FREELIST_PAGESIZE) hold addr. */
  function FirstHolding(cs: seq<PinnedChunk>, addr: nat): (r: Option<nat>)
    ensures r.Some? ==> r.value < |cs| && cs[r.value].base <= addr < cs[r.value].End()
    ensures r.Some? ==> forall j :: 0 <= j < r.value ==> !(cs[j].base <= addr < cs[j].End())
    ensures r.None? <==> forall j :: 0 <= j < |cs| ==> !(cs[j].base <= addr < cs[j].End())
  {
    if |cs| == 0 then None
    else if cs[0].base <= addr < cs[0].End() then Some(0)
    else match FirstHolding(cs[1..], addr)
      case None => None
      case Some(i) => Some(i + 1)
  }

  /**
   * obj_is_from_pinned_alloc: p lies between start_data and the end of some
   * chunk of the list.  copy_object calls it through GcHeap, which sees the
   * chunks only as spans; ObjIsFromPinnedAllocSpans ties the two.
   */
  function ObjIsFromPinnedAlloc(cs: seq<PinnedChunk>, p: nat): (r: bool)
    ensures r <==> exists k :: 0 <= k < |cs| && cs[k].startData <= p < cs[k].End()
  {
    if |cs| == 0 then false
    else if cs[0].startData <= p < cs[0].End() then true
    else
      var r := ObjIsFromPinnedAlloc(cs[1..], p);
      assert forall k :: 1 <= k < |cs| ==> cs[k] == cs[1..][k - 1];
      r
  }

  /** The [start_data, end) spans of the chunks, which is all copy_object's test sees of them. */
  function Spans(cs: seq<PinnedChunk>): (r: seq<ChunkSpan>)
    ensures |r| == |cs| && forall k :: 0 <= k < |cs| ==> r[k] == ChunkSpan(cs[k].startData, cs[k].End())
    decreases |cs|
  {
    if |cs| == 0 then [] else [ChunkSpan(cs[0].startData, cs[0].End())] + Spans(cs[1..])
  }

  /**
   * GcHeap.ObjIsFromPinnedAlloc is the loop of obj_is_from_pinned_alloc over
   * the spans of the chunks; this function asks the same of the chunks
   * themselves.  The two give the same answer.
   */
  lemma {:induction false} ObjIsFromPinnedAllocSpans(cs: seq<PinnedChunk>, p: nat)
    ensures ObjIsFromPinnedAlloc(cs, p) <==> InSomeChunk(Spans(cs), p)
  {
    var sp := Spans(cs);
    if ObjIsFromPinnedAlloc(cs, p) {
      var k :| 0 <= k < |cs| && cs[k].startData <= p < cs[k].End();
      assert sp[k].startData <= p < sp[k].end;
    }
  }

  /**
   * addr is a cell the chunk handed out: a cell of the size class of its
   * page that is not on a free list.  free_internal_mem takes the slot
   * from page_sizes, so only such an address can go back.
   */
  ghost predicate Allocated(c: PinnedChunk, addr: nat)
    reads c
  {
    && c.base <= addr < c.End() && c.PageOf(addr) < |c.pageSizes|
    && SlotForSize(c.pageSizes[c.PageOf(addr)]).Some?
    && var s := SlotForSize(c.pageSizes[c.PageOf(addr)]).value;
      s < |c.cells| && c.CellOk(c.pageSizes, s, addr) && addr !in c.cells[s]
  }

  /** A cell of a slot that is on no free list is one free_internal_mem takes back. */
  lemma HandedOutAllocated(c: PinnedChunk, slot: nat, p: nat)
    requires c.Valid() && slot < NumSlots && c.CellOk(c.pageSizes, slot, p) && p !in c.cells[slot]
    ensures Allocated(c, p)
  {
    SlotOfClass(slot);
    assert c.PageEnd(c.PageOf(p)) <= c.End();
  }

  /** A fresh chunk's page 1 is its first unused page: page 0 is the 32-byte class, the rest are unused. */
  lemma {:induction false} FreshPagesUnused(n: nat)
    requires 2 <= n
    ensures FirstUnused([PinnedFirstSlotSize] + seq(n - 1, _ => 0)) == Some(1)
  {
    var ps := [PinnedFirstSlotSize] + seq(n - 1, _ => 0);
    assert ps[1..][0] == 0;
  }

  /**
   * Cell p of chunk k was the head of the chunk's free list of the slot and
   * is popped off it; nothing else of the list has changed.
   */
  twostate predicate PoppedCell(cs: seq<PinnedChunk>, slot: nat, p: nat, k: nat)
    reads cs
  {
    && slot < NumSlots && k < |cs|
    && old(|cs[k].freeList|) == NumSlots && old(|cs[k].cells|) == NumSlots
    && |cs[k].freeList| == NumSlots && |cs[k].cells| == NumSlots
    && p != 0 && p == old(cs[k].freeList[slot])
    && cs[k].CellOk(cs[k].pageSizes, slot, p) && p !in cs[k].cells[slot]
    && old(cs[k].cells[slot]) == [p] + cs[k].cells[slot]
    && cs[k].cells == old(cs[k].cells)[slot := cs[k].cells[slot]]
    && cs[k].freeList[slot] == Head(cs[k].cells[slot])
    && cs[k].freeList == old(cs[k].freeList)[slot := cs[k].freeList[slot]]
    && cs[k].pageSizes == old(cs[k].pageSizes)
    && UnchangedBut(cs, k)
  }

  /**
   * Chunk k gave its first unused page to the slot and p is the first cell
   * of that page; the rest of the page's cells are the slot's free list and
   * nothing else of the list has changed.
   */
  twostate predicate ClaimedPage(cs: seq<PinnedChunk>, slot: nat, p: nat, k: nat)
    reads cs
  {
    && slot < NumSlots && k < |cs| && old(|cs[k].cells|) == NumSlots && |cs[k].cells| == NumSlots
    && old(FirstUnused(cs[k].pageSizes)).Some?
    && var page := old(FirstUnused(cs[k].pageSizes)).value;
    && 0 < page < cs[k].numPages && p != 0 && p == cs[k].PageStart(page)
    && cs[k].CellOk(cs[k].pageSizes, slot, p) && p !in cs[k].cells[slot]
    && cs[k].pageSizes == old(cs[k].pageSizes)[page := FreelistSize(slot)]
    && cs[k].cells == old(cs[k].cells)[slot := cs[k].StrideFrom(p, FreelistSize(slot), cs[k].PageEnd(page))[1..]]
    && UnchangedBut(cs, k)
  }

  /**
   * The first loop of alloc_from_freelist and get_internal_mem: the index
   * of the first chunk whose free list of the slot is not NULL, |cs| when
   * there is none.
   */
  method FindWithFree(cs: seq<PinnedChunk>, slot: nat) returns (i: nat)
    ensures i <= |cs|
    ensures i == |cs| <==> FirstWithFree(cs, slot).None?
    ensures i < |cs| ==> i == FirstWithFree(cs, slot).value
  {
    i := 0;
    while i < |cs| && !HasFree(cs[i], slot)
      invariant i <= |cs|
      invariant forall j :: 0 <= j < i ==> !HasFree(cs[j], slot)
    {
      i := i + 1;
    }
  }

  /**
   * The memory of chunk c is m with the `n` bytes from cell p zeroed, as
   * `memset (p, 0, n)` leaves it.
   */
  ghost predicate Zeroed(c: PinnedChunk, m: seq<Word>, p: nat, n: nat)
    reads c
  {
    && c.base <= p && c.WordOf(p) <= |m| && n <= 8 * (|m| - c.WordOf(p))
    && c.mem == MemsetZero(m, c.WordOf(p), n) && c.Cleared(c.mem, p, n)
  }

  /**
   * The body of the first loop once it has found chunk i: the head of its
   * list is popped, and its first `clear` bytes are zeroed.
   */
  method PopAt(cs: seq<PinnedChunk>, slot: nat, i: nat, clear: nat) returns (p: nat)
    requires ChunksValid(cs) && Distinct(cs) && slot < NumSlots && i < |cs| && HasFree(cs[i], slot)
    requires clear <= FreelistSize(slot)
    modifies cs[i]
    ensures ChunksValid(cs) && PoppedCell(cs, slot, p, i)
    ensures Zeroed(cs[i], old(cs[i].mem), p, clear)
  {
    ChunksValidAt(cs, i);
    DistinctApart(cs, i);
    cs[i].EmptyIffNull(slot);
    p := cs[i].PopFree(slot);
    cs[i].ZeroObject(p, clear, slot);
    ChunksValidKept(cs, i);
  }

  /** The first loop, when it succeeds: the first chunk with a free cell of the slot gives up its head cell. */
  method PopFirstFree(cs: seq<PinnedChunk>, slot: nat, clear: nat) returns (p: nat, k: nat)
    requires ChunksValid(cs) && Distinct(cs) && slot < NumSlots && FirstWithFree(cs, slot).Some?
    requires clear <= FreelistSize(slot)
    modifies cs
    ensures k == old(FirstWithFree(cs, slot)).value && ChunksValid(cs) && PoppedCell(cs, slot, p, k)
    ensures Zeroed(cs[k], old(cs[k].mem), p, clear)
  {
    k := FindWithFree(cs, slot);
    p := PopAt(cs, slot, k, clear);
  }

  /**
   * The second loop: get_chunk_freelist on each chunk in turn, every
   * chunk's list of the slot being empty.  A chunk without an unused page
   * gives NULL and is left as it was; the first chunk with one gives its
   * first unused page to the slot and hands out that page's first cell.
   */
  method ClaimFromChunks(cs: seq<PinnedChunk>, slot: nat, clear: nat) returns (p: nat, k: nat)
    requires ChunksValid(cs) && Distinct(cs) && slot < NumSlots && clear <= FreelistSize(slot)
    requires forall j :: 0 <= j < |cs| ==> !HasFree(cs[j], slot)
    modifies cs
    ensures ChunksValid(cs)
    ensures old(FirstWithUnused(cs)).None? ==> p == 0 && AllUnchanged(cs)
    ensures old(FirstWithUnused(cs)).Some? ==> k == old(FirstWithUnused(cs)).value && ClaimedPage(cs, slot, p, k)
    ensures old(FirstWithUnused(cs)).Some? ==>
      k < |cs| && old(FirstUnused(cs[k].pageSizes)).Some?
      && cs[k].MemKeptOutside(old(cs[k].mem), cs[k].mem, old(FirstUnused(cs[k].pageSizes)).value)
      && cs[k].Cleared(cs[k].mem, p, clear)
  {
    var i := 0;
    while i < |cs|
      invariant i <= |cs| && ChunksValid(cs)
      invariant forall j :: 0 <= j < i ==> !HasUnused(cs[j])
      invariant AllUnchanged(cs)
    {
      ChunksValidAt(cs, i);
      DistinctApart(cs, i);
      p := cs[i].GetChunkFreelist(slot);
      if p != 0 {
        k := i;
        ghost var m1 := cs[i].mem;
        cs[i].WordsAfter(p);
        cs[i].ZeroKeepsOutside(old(cs[i].mem), m1, old(FirstUnused(cs[i].pageSizes)).value, slot, p, clear);
        cs[i].ZeroObject(p, clear, slot);
        ChunksValidKept(cs, i);
        return;
      }
      ChunksValidSame(cs);
      i := i + 1;
    }
    p, k := 0, 0;
  }

  /**
   * A new valid chunk at chunkBase went to the head of the list cs0, now
   * cs, and p is a cell of it for the slot; the chunks of cs0 are as they were.
   */
  twostate predicate NewChunkAtHead(cs0: seq<PinnedChunk>, new cs: seq<PinnedChunk>, slot: nat, chunkBase: nat, p: nat, k: nat)
    reads cs
  {
    && slot < NumSlots && |cs| == |cs0| + 1 && cs[1..] == cs0 && k == 0
    && fresh(cs[0]) && cs[0].Valid() && cs[0].base == chunkBase
    && p != 0 && cs[0].CellOk(cs[0].pageSizes, slot, p) && p !in cs[0].cells[slot]
    && AllUnchanged(cs0)
  }

  /**
   * What alloc_from_freelist and get_internal_mem do to a chunk list cs0,
   * now cs, when they hand out cell p of chunk k for the slot: the head of
   * the first chunk with a free cell of the slot; else the first cell of a
   * newly claimed page of the first chunk with an unused page; else a cell
   * of a new chunk at chunkBase put at the head of the list.
   */
  twostate predicate TookCell(cs0: seq<PinnedChunk>, new cs: seq<PinnedChunk>, slot: nat, chunkBase: nat, p: nat, k: nat)
    reads cs
  {
    match old(FirstWithFree(cs0, slot))
    case Some(i) => cs == cs0 && k == i && PoppedCell(cs0, slot, p, k)
    case None =>
      match old(FirstWithUnused(cs0))
      case Some(i) => cs == cs0 && k == i && ClaimedPage(cs0, slot, p, k)
      case None => NewChunkAtHead(cs0, cs, slot, chunkBase, p, k)
  }

  /**
   * The memory of chunk k after TookCell's change and the zeroing of the
   * first `clear` bytes of cell p: only those bytes changed when the head
   * of a list was popped; only the claimed page, where build_freelist
   * writes the links, when a page was claimed.  A new chunk's memory is
   * what alloc_pinned_chunk made it.
   */
  twostate predicate TookMem(cs0: seq<PinnedChunk>, new cs: seq<PinnedChunk>, slot: nat, p: nat, k: nat, clear: nat)
    reads cs
  {
    match old(FirstWithFree(cs0, slot))
    case Some(_) => cs == cs0 && k < |cs0| && Zeroed(cs0[k], old(cs0[k].mem), p, clear)
    case None =>
      match old(FirstWithUnused(cs0))
      case Some(_) =>
        && cs == cs0 && k < |cs0| && old(FirstUnused(cs0[k].pageSizes)).Some?
        && cs0[k].MemKeptOutside(old(cs0[k].mem), cs0[k].mem, old(FirstUnused(cs0[k].pageSizes)).value)
      case None => true
  }

  /** No chunk of ys is on xs. */
  predicate Disjoint(xs: seq<PinnedChunk>, ys: seq<PinnedChunk>)
  {
    forall j :: 0 <= j < |ys| ==> ys[j] !in xs
  }

  /** Every chunk of the list lies between lo and hi. */
  predicate Within(cs: seq<PinnedChunk>, lo: nat, hi: nat)
  {
    forall i :: 0 <= i < |cs| ==> lo <= cs[i].startData && cs[i].End() <= hi
  }

  /** Every large header carries LARGE_INTERNAL_MEM_HEADER_MAGIC. */
  predicate MagicOk(m: map<nat, LargeHeader>)
  {
    forall a :: a in m ==> m[a].magic == LargeInternalMemHeaderMagic
  }

  /** Widening the bounds keeps every chunk within them. */
  /**
   * A valid chunk on neither list, inside widened bounds, put at the head
   * of one list keeps the lists distinct, disjoint, valid and within the bounds.
   */
  lemma NewHeadKeeps(c: PinnedChunk, cs: seq<PinnedChunk>, other: seq<PinnedChunk>, lo: nat, hi: nat, lo': nat, hi': nat)
    requires c.Valid() && ChunksValid(cs) && Distinct(cs) && Disjoint(cs, other) && Disjoint(other, cs) && c !in cs && c !in other
    requires Within(cs, lo, hi) && Within(other, lo, hi) && lo' <= lo && hi <= hi'
    requires lo' <= c.startData && c.End() <= hi'
    ensures ChunksValid([c] + cs) && Distinct([c] + cs)
    ensures Disjoint([c] + cs, other) && Disjoint(other, [c] + cs)
    ensures Within([c] + cs, lo', hi') && Within(other, lo', hi')
  {
    ChunksValidCons(c, cs);
  }

  /** Cell p of chunk k of the list is a cell of the slot that is on no free list. */
  ghost predicate HandedOut(cs: seq<PinnedChunk>, slot: nat, p: nat, k: nat)
    reads cs
  {
    && slot < NumSlots && k < |cs| && |cs[k].cells| == NumSlots
    && cs[k].CellOk(cs[k].pageSizes, slot, p) && p !in cs[k].cells[slot]
  }

  /**
   * Cell addr of chunk c, handed out before, went back on the free list of
   * the slot of its page's size class: its first word took the old head.
   */
  twostate predicate Freed(c: PinnedChunk, addr: nat)
    reads c
  {
    && old(c.Valid()) && old(Allocated(c, addr)) && c.Valid()
    && c.pageSizes == old(c.pageSizes) && c.WordOf(addr) < |old(c.mem)|
    && var s := SlotForSize(c.pageSizes[c.PageOf(addr)]).value;
      && c.cells == old(c.cells)[s := [addr] + old(c.cells[s])]
      && c.freeList == old(c.freeList)[s := addr]
      && c.mem == old(c.mem)[c.WordOf(addr) := old(c.freeList[s])]
  }

  /**
   * Chunk c was swept: each object of its used pages unpinned or freed, so
   * that its memory and lists are what SweepPages makes of their old values.
   */
  twostate predicate Swept(c: PinnedChunk)
    reads c
  {
    && old(c.Valid()) && c.Valid() && c.pageSizes == old(c.pageSizes)
    && (forall j :: 0 <= j < c.numPages ==> c.pageSizes[j] <= MaxFreelistSize)
    && c.base <= c.startData <= c.base + FreelistPageSize && c.End() < TwoTo64 && c.End() - c.base <= 8 * |old(c.mem)|
    && FreeState(c.mem, c.freeList, c.cells)
       == c.SweepPages(c.pageSizes, FreeState(old(c.mem), old(c.freeList), old(c.cells)), 0)
  }

  /** The allocator's global state: both chunk lists, the large blocks and the chunk address bounds. */
  class PinnedAllocator {
    var pinnedChunks: seq<PinnedChunk>     // pinned_chunk_list, head first
    var internalChunks: seq<PinnedChunk>   // internal_chunk_list, head first
    var largeBlocks: map<nat, LargeHeader> // header address -> header of each large internal block
    var totalAlloc: nat                    // total_alloc
    var minPinnedChunkAddr: nat            // min_pinned_chunk_addr
    var maxPinnedChunkAddr: nat            // max_pinned_chunk_addr

    /**
     * Both lists hold valid chunks, no chunk twice and none on both lists;
     * every chunk made lies between min_pinned_chunk_addr and
     * max_pinned_chunk_addr; every large header carries the magic.
     */
    ghost predicate Valid()
      reads this, pinnedChunks, internalChunks
    {
      && ChunksValid(pinnedChunks) && ChunksValid(internalChunks)
      && Distinct(pinnedChunks) && Distinct(internalChunks)
      && Disjoint(pinnedChunks, internalChunks) && Disjoint(internalChunks, pinnedChunks)
      && Within(pinnedChunks, minPinnedChunkAddr, maxPinnedChunkAddr)
      && Within(internalChunks, minPinnedChunkAddr, maxPinnedChunkAddr)
      && MagicOk(largeBlocks)
    }

    /** The static initial values: no chunks, min at (char*)-1 and max at NULL. */
    constructor ()
      ensures Valid()
      ensures pinnedChunks == [] && internalChunks == [] && largeBlocks == map[]
      ensures totalAlloc == 0 && minPinnedChunkAddr == TwoTo64 - 1 && maxPinnedChunkAddr == 0
    {
      pinnedChunks := [];
      internalChunks := [];
      largeBlocks := map[];
      totalAlloc := 0;
      minPinnedChunkAddr := TwoTo64 - 1;
      maxPinnedChunkAddr := 0;
    }

    /**
     * alloc_pinned_chunk: a new chunk at chunkBase (from get_os_memory);
     * total_alloc grows by its size and the bounds widen to take it in.
     */
    method AllocPinnedChunk(size: nat, chunkBase: nat) returns (c: PinnedChunk)
      requires size <= MaxFreelistSize
      requires 0 < chunkBase && chunkBase % FreelistPageSize == 0 && chunkBase + ChunkSize(size) < TwoTo64
      modifies this`totalAlloc, this`minPinnedChunkAddr, this`maxPinnedChunkAddr
      ensures fresh(c) && c.Valid()
      ensures c.base == chunkBase && c.numPages == ChunkSize(size) / FreelistPageSize
      ensures c.End() == chunkBase + ChunkSize(size)
      ensures c.pageSizes == [PinnedFirstSlotSize] + seq(c.numPages - 1, _ => 0)
      ensures c.freeList == seq(NumSlots, _ => 0)[PinnedFirstSlot := c.startData]
      ensures totalAlloc == old(totalAlloc) + ChunkSize(size)
      ensures minPinnedChunkAddr == Min(old(minPinnedChunkAddr), c.startData)
      ensures maxPinnedChunkAddr == Max(old(maxPinnedChunkAddr), c.End())
    {
      var chunkSize := ChunkSize(size);
      c := new PinnedChunk(chunkBase, size);
      totalAlloc := totalAlloc + chunkSize;
      minPinnedChunkAddr := Min(minPinnedChunkAddr, c.startData);
      maxPinnedChunkAddr := Max(maxPinnedChunkAddr, chunkBase + chunkSize);
    }

    /**
     * The last resort of alloc_from_freelist and get_internal_mem: a new
     * chunk goes to the head of the list and get_chunk_freelist on it never
     * gives NULL, from page 0 for the 32-byte class and from page 1 otherwise.
     */
    method NewChunkCell(slot: nat, size: nat, chunkBase: nat, clear: nat) returns (c: PinnedChunk, p: nat)
      requires slot < NumSlots && size <= MaxFreelistSize && clear <= FreelistSize(slot)
      requires 0 < chunkBase && chunkBase % FreelistPageSize == 0 && chunkBase + ChunkSize(size) < TwoTo64
      modifies this`totalAlloc, this`minPinnedChunkAddr, this`maxPinnedChunkAddr
      ensures fresh(c) && c.Valid() && c.base == chunkBase && c.End() == chunkBase + ChunkSize(size)
      ensures p != 0 && c.CellOk(c.pageSizes, slot, p) && p !in c.cells[slot]
      ensures p == if slot == PinnedFirstSlot then c.startData else c.PageStart(1)
      ensures c.Cleared(c.mem, p, clear)
      ensures totalAlloc == old(totalAlloc) + ChunkSize(size)
      ensures minPinnedChunkAddr == Min(old(minPinnedChunkAddr), c.startData)
      ensures maxPinnedChunkAddr == Max(old(maxPinnedChunkAddr), c.End())
    {
      SmallChunk(size);
      c := AllocPinnedChunk(size, chunkBase);
      FreshPagesUnused(c.numPages);
      p := c.GetChunkFreelist(slot);
      c.ZeroObject(p, clear, slot);
    }

    /** A new chunk at the head of the list widens the bounds; otherwise they and total_alloc stay. */
    twostate predicate Accounted(cs0: seq<PinnedChunk>, new cs: seq<PinnedChunk>, size: nat)
      reads this, cs
    {
      if cs != cs0 then
        && |cs| > 0
        && totalAlloc == old(totalAlloc) + ChunkSize(size)
        && minPinnedChunkAddr == Min(old(minPinnedChunkAddr), cs[0].startData)
        && maxPinnedChunkAddr == Max(old(maxPinnedChunkAddr), cs[0].End())
      else
        && totalAlloc == old(totalAlloc)
        && minPinnedChunkAddr == old(minPinnedChunkAddr) && maxPinnedChunkAddr == old(maxPinnedChunkAddr)
    }

    /** internal_chunk_list when `internal`, pinned_chunk_list otherwise. */
    function List(internal: bool): seq<PinnedChunk>
      reads this
    {
      if internal then internalChunks else pinnedChunks
    }

    /** The first loop of the list succeeds: its head cell of the slot is popped. */
    method TakeFromFreeList(internal: bool, slot: nat, clear: nat) returns (p: nat, k: nat)
      requires Valid() && slot < NumSlots && FirstWithFree(List(internal), slot).Some?
      requires clear <= FreelistSize(slot)
      modifies List(internal)
      ensures Valid()
      ensures k == old(FirstWithFree(List(internal), slot)).value && PoppedCell(List(internal), slot, p, k)
      ensures HandedOut(List(internal), slot, p, k)
      ensures Zeroed(List(internal)[k], old(List(internal)[k].mem), p, clear)
      ensures unchanged(this)
      ensures AllUnchanged(List(!internal))
    {
      ghost var other := List(!internal);
      p, k := PopFirstFree(List(internal), slot, clear);
      assert List(internal)[k] !in other;
      assert AllUnchanged(other);
      ChunksValidSame(other);
    }

    /** The first loop fails and the second succeeds: a chunk of the list claims a page for the slot. */
    method TakeFromUnusedPage(internal: bool, slot: nat, clear: nat) returns (p: nat, k: nat)
      requires Valid() && slot < NumSlots && FirstWithFree(List(internal), slot).None?
      requires clear <= FreelistSize(slot)
      requires FirstWithUnused(List(internal)).Some?
      modifies List(internal)
      ensures Valid()
      ensures k == old(FirstWithUnused(List(internal))).value && ClaimedPage(List(internal), slot, p, k)
      ensures HandedOut(List(internal), slot, p, k)
      ensures old(FirstUnused(List(internal)[k].pageSizes)).Some?
      ensures List(internal)[k].MemKeptOutside(old(List(internal)[k].mem), List(internal)[k].mem, old(FirstUnused(List(internal)[k].pageSizes)).value)
      ensures List(internal)[k].Cleared(List(internal)[k].mem, p, clear)
      ensures unchanged(this)
      ensures AllUnchanged(List(!internal))
    {
      ghost var objs: seq<object> := List(internal);
      assert this !in objs;
      p, k := ClaimFromChunks(List(internal), slot, clear);
    }

    /**
     * Puts chunk c, valid and on neither list, at the head of one list; the
     * lists were valid within [lo, hi], which the bounds now contain, and
     * so does c.
     */
    method PushChunk(internal: bool, c: PinnedChunk, ghost lo: nat, ghost hi: nat)
      requires ChunksValid(pinnedChunks) && ChunksValid(internalChunks) && Distinct(pinnedChunks) && Distinct(internalChunks)
      requires Disjoint(pinnedChunks, internalChunks) && Disjoint(internalChunks, pinnedChunks) && MagicOk(largeBlocks)
      requires Within(pinnedChunks, lo, hi) && Within(internalChunks, lo, hi)
      requires minPinnedChunkAddr <= lo && hi <= maxPinnedChunkAddr
      requires c.Valid() && c !in pinnedChunks && c !in internalChunks
      requires minPinnedChunkAddr <= c.startData && c.End() <= maxPinnedChunkAddr
      modifies this`pinnedChunks, this`internalChunks
      ensures Valid()
      ensures List(internal) == [c] + old(List(internal)) && List(!internal) == old(List(!internal))
    {
      NewHeadKeeps(c, List(internal), List(!internal), lo, hi, minPinnedChunkAddr, maxPinnedChunkAddr);
      if internal {
        internalChunks := [c] + internalChunks;
      } else {
        pinnedChunks := [c] + pinnedChunks;
      }
    }

    /** Both loops fail: a new chunk is put at the head of the list and gives the cell. */
    method TakeFromNewChunk(internal: bool, slot: nat, size: nat, chunkBase: nat, clear: nat) returns (p: nat, k: nat)
      requires Valid() && slot < NumSlots && size <= MaxFreelistSize && clear <= FreelistSize(slot)
      requires 0 < chunkBase && chunkBase % FreelistPageSize == 0 && chunkBase + ChunkSize(size) < TwoTo64
      modifies this
      ensures Valid()
      ensures NewChunkAtHead(old(List(internal)), List(internal), slot, chunkBase, p, k)
      ensures HandedOut(List(internal), slot, p, k)
      ensures List(internal)[k].Cleared(List(internal)[k].mem, p, clear)
      ensures Accounted(old(List(internal)), List(internal), size)
      ensures List(!internal) == old(List(!internal)) && largeBlocks == old(largeBlocks)
    {
      var c;
      ghost var lo, hi := minPinnedChunkAddr, maxPinnedChunkAddr;
      c, p := NewChunkCell(slot, size, chunkBase, clear);
      PushChunk(internal, c, lo, hi);
      k := 0;
      assert List(internal)[1..] == old(List(internal));
    }

    /**
     * The three tries alloc_from_freelist and get_internal_mem make on
     * their chunk list, as TookCell states them.  The other list and its
     * chunks are left alone.
     */
    method TakeCell(internal: bool, slot: nat, size: nat, chunkBase: nat, clear: nat) returns (p: nat, k: nat)
      requires Valid() && slot < NumSlots && size <= MaxFreelistSize && clear <= FreelistSize(slot)
      requires 0 < chunkBase && chunkBase % FreelistPageSize == 0 && chunkBase + ChunkSize(size) < TwoTo64
      modifies this, List(internal)
      ensures Valid()
      ensures TookCell(old(List(internal)), List(internal), slot, chunkBase, p, k)
      ensures TookMem(old(List(internal)), List(internal), slot, p, k, clear)
      ensures HandedOut(List(internal), slot, p, k)
      ensures List(internal)[k].Cleared(List(internal)[k].mem, p, clear)
      ensures Accounted(old(List(internal)), List(internal), size)
      ensures List(!internal) == old(List(!internal)) && largeBlocks == old(largeBlocks)
      ensures AllUnchanged(List(!internal))
    {
      if FirstWithFree(List(internal), slot).Some? {
        p, k := CellFromFreeList(internal, slot, size, chunkBase, clear);
      } else if FirstWithUnused(List(internal)).Some? {
        p, k := CellFromUnusedPage(internal, slot, size, chunkBase, clear);
      } else {
        p, k := CellFromNewChunk(internal, slot, size, chunkBase, clear);
      }
    }

    /** The first branch of TakeCell: a chunk of the list has a free cell of the slot. */
    method CellFromFreeList(internal: bool, slot: nat, size: nat, chunkBase: nat, clear: nat) returns (p: nat, k: nat)
      requires Valid() && slot < NumSlots && size <= MaxFreelistSize && clear <= FreelistSize(slot)
      requires 0 < chunkBase && chunkBase % FreelistPageSize == 0 && chunkBase + ChunkSize(size) < TwoTo64
      requires FirstWithFree(List(internal), slot).Some?
      modifies this, List(internal)
      ensures Valid()
      ensures TookCell(old(List(internal)), List(internal), slot, chunkBase, p, k)
      ensures TookMem(old(List(internal)), List(internal), slot, p, k, clear)
      ensures HandedOut(List(internal), slot, p, k)
      ensures List(internal)[k].Cleared(List(internal)[k].mem, p, clear)
      ensures Accounted(old(List(internal)), List(internal), size)
      ensures List(!internal) == old(List(!internal)) && largeBlocks == old(largeBlocks)
      ensures AllUnchanged(List(!internal))
    {
      p, k := TakeFromFreeList(internal, slot, clear);
    }

    /** The second branch of TakeCell: no free cell, but a chunk with an unused page. */
    method CellFromUnusedPage(internal: bool, slot: nat, size: nat, chunkBase: nat, clear: nat) returns (p: nat, k: nat)
      requires Valid() && slot < NumSlots && size <= MaxFreelistSize && clear <= FreelistSize(slot)
      requires 0 < chunkBase && chunkBase % FreelistPageSize == 0 && chunkBase + ChunkSize(size) < TwoTo64
      requires FirstWithFree(List(internal), slot).None? && FirstWithUnused(List(internal)).Some?
      modifies this, List(internal)
      ensures Valid()
      ensures TookCell(old(List(internal)), List(internal), slot, chunkBase, p, k)
      ensures TookMem(old(List(internal)), List(internal), slot, p, k, clear)
      ensures HandedOut(List(internal), slot, p, k)
      ensures List(internal)[k].Cleared(List(internal)[k].mem, p, clear)
      ensures Accounted(old(List(internal)), List(internal), size)
      ensures List(!internal) == old(List(!internal)) && largeBlocks == old(largeBlocks)
      ensures AllUnchanged(List(!internal))
    {
      p, k := TakeFromUnusedPage(internal, slot, clear);
    }

    /** The third branch of TakeCell: neither, so a new chunk. */
    method CellFromNewChunk(internal: bool, slot: nat, size: nat, chunkBase: nat, clear: nat) returns (p: nat, k: nat)
      requires Valid() && slot < NumSlots && size <= MaxFreelistSize && clear <= FreelistSize(slot)
      requires 0 < chunkBase && chunkBase % FreelistPageSize == 0 && chunkBase + ChunkSize(size) < TwoTo64
      requires FirstWithFree(List(internal), slot).None? && FirstWithUnused(List(internal)).None?
      modifies this, List(internal)
      ensures Valid()
      ensures TookCell(old(List(internal)), List(internal), slot, chunkBase, p, k)
      ensures TookMem(old(List(internal)), List(internal), slot, p, k, clear)
      ensures HandedOut(List(internal), slot, p, k)
      ensures List(internal)[k].Cleared(List(internal)[k].mem, p, clear)
      ensures Accounted(old(List(internal)), List(internal), size)
      ensures List(!internal) == old(List(!internal)) && largeBlocks == old(largeBlocks)
      ensures AllUnchanged(List(!internal))
    {
      p, k := TakeFromNewChunk(internal, slot, size, chunkBase, clear);
    }

    /**
     * alloc_from_freelist: a cell of the slot of `size` from pinned_chunk_list,
     * found as TookCell describes.  The callers only ask for sizes a size
     * class holds; chunkBase is the memory a new chunk would get.
     */
    method AllocFromFreelist(size: nat, chunkBase: nat) returns (p: nat, k: nat)
      requires Valid() && size <= MaxFreelistSize
      requires 0 < chunkBase && chunkBase % FreelistPageSize == 0 && chunkBase + ChunkSize(size) < TwoTo64
      modifies this, pinnedChunks
      ensures Valid()
      ensures var slot := SlotForSize(size).value;
        && size <= FreelistSize(slot)
        && TookCell(old(pinnedChunks), pinnedChunks, slot, chunkBase, p, k)
        && TookMem(old(pinnedChunks), pinnedChunks, slot, p, k, 0)
      ensures Accounted(old(pinnedChunks), pinnedChunks, size)
      ensures internalChunks == old(internalChunks) && largeBlocks == old(largeBlocks)
      ensures AllUnchanged(internalChunks)
    {
      p, k := TakeCell(false, SlotForSize(size).value, size, chunkBase, 0);
    }

    /**
     * The large path of get_internal_mem: the request and the header come
     * from the OS at osBase; the header carries the magic and the whole
     * size, and the caller gets the bytes after it.
     */
    method GetLargeInternalMem(size: nat, osBase: nat) returns (p: nat)
      requires Valid() && size > MaxFreelistSize
      modifies this`largeBlocks
      ensures Valid()
      ensures p == osBase + LargeHeaderSize && p >= LargeHeaderSize
      ensures largeBlocks == old(largeBlocks)[osBase := LargeHeader(LargeInternalMemHeaderMagic, size + LargeHeaderSize)]
    {
      largeBlocks := largeBlocks[osBase := LargeHeader(LargeInternalMemHeaderMagic, size + LargeHeaderSize)];
      p := osBase + LargeHeaderSize;
    }

    /**
     * The small path of get_internal_mem: a cell of the slot of `size` from
     * internal_chunk_list, found as TookCell describes, whose first `size`
     * bytes are zeroed.  The cell is one free_internal_mem takes back.
     */
    method GetSmallInternalMem(size: nat, chunkBase: nat) returns (p: nat, k: nat)
      requires Valid() && size <= MaxFreelistSize
      requires 0 < chunkBase && chunkBase % FreelistPageSize == 0 && chunkBase + ChunkSize(size) < TwoTo64
      modifies this, internalChunks
      ensures Valid()
      ensures var slot := SlotForSize(size).value;
        && size <= FreelistSize(slot)
        && TookCell(old(internalChunks), internalChunks, slot, chunkBase, p, k)
      ensures TookMem(old(internalChunks), internalChunks, SlotForSize(size).value, p, k, size)
      ensures k < |internalChunks| && Allocated(internalChunks[k], p)
      ensures internalChunks[k].Cleared(internalChunks[k].mem, p, size)
      ensures Accounted(old(internalChunks), internalChunks, size)
      ensures pinnedChunks == old(pinnedChunks) && largeBlocks == old(largeBlocks)
      ensures AllUnchanged(pinnedChunks)
    {
      var slot := SlotForSize(size).value;
      p, k := TakeCell(true, slot, size, chunkBase, size);
      ChunksValidAt(internalChunks, k);
      HandedOutAllocated(internalChunks[k], slot, p);
    }

    /**
     * get_internal_mem: the large path for a request above the biggest size
     * class, the small path otherwise.
     */
    method GetInternalMem(size: nat, chunkBase: nat, osBase: nat) returns (p: nat, k: nat)
      requires Valid()
      requires size <= MaxFreelistSize ==>
        0 < chunkBase && chunkBase % FreelistPageSize == 0 && chunkBase + ChunkSize(size) < TwoTo64
      modifies this, internalChunks
      ensures Valid()
      ensures pinnedChunks == old(pinnedChunks) && AllUnchanged(pinnedChunks)
      ensures size > MaxFreelistSize ==>
        && p == osBase + LargeHeaderSize
        && largeBlocks == old(largeBlocks)[osBase := LargeHeader(LargeInternalMemHeaderMagic, size + LargeHeaderSize)]
        && internalChunks == old(internalChunks) && AllUnchanged(internalChunks)
        && totalAlloc == old(totalAlloc)
      ensures size <= MaxFreelistSize ==>
        && largeBlocks == old(largeBlocks)
        && TookCell(old(internalChunks), internalChunks, SlotForSize(size).value, chunkBase, p, k)
        && TookMem(old(internalChunks), internalChunks, SlotForSize(size).value, p, k, size)
        && k < |internalChunks| && Allocated(internalChunks[k], p)
        && internalChunks[k].Cleared(internalChunks[k].mem, p, size)
    {
      if size > MaxFreelistSize {
        p := GetLargeInternalMem(size, osBase);
        k := 0;
      } else {
        p, k := GetSmallInternalMem(size, chunkBase);
      }
    }

    /** The push of free_internal_mem: cell addr goes back on the list of its page's slot in internal chunk k. */
    method FreeCell(k: nat, addr: nat)
      requires Valid() && k < |internalChunks| && Allocated(internalChunks[k], addr)
      modifies internalChunks[k]
      ensures Valid()
      ensures Freed(internalChunks[k], addr)
      ensures UnchangedBut(internalChunks, k) && AllUnchanged(pinnedChunks)
    {
      var c := internalChunks[k];
      ChunksValidAt(internalChunks, k);
      DistinctApart(internalChunks, k);
      var slot := SlotForSize(c.pageSizes[c.PageOf(addr)]).value;
      c.PushFree(slot, addr);
      ChunksValidKept(internalChunks, k);
      ChunksValidSame(pinnedChunks);
    }

    /**
     * free_internal_mem: NULL is ignored; an address inside an internal
     * chunk (the first one holding it) goes back on that chunk's free list;
     * any other must follow a large header, which is dropped, and ok is
     * false where the g_assert on the header's magic fails.
     */
    method FreeInternalMem(addr: nat) returns (ok: bool)
      requires Valid()
      requires addr != 0 && FirstHolding(internalChunks, addr).Some? ==>
        Allocated(internalChunks[FirstHolding(internalChunks, addr).value], addr)
      modifies this`largeBlocks, internalChunks
      ensures Valid()
      ensures AllUnchanged(pinnedChunks)
      ensures addr == 0 ==> ok && largeBlocks == old(largeBlocks) && AllUnchanged(internalChunks)
      ensures addr != 0 && old(FirstHolding(internalChunks, addr)).Some? ==>
        var k := old(FirstHolding(internalChunks, addr)).value;
        && ok && largeBlocks == old(largeBlocks)
        && Freed(internalChunks[k], addr) && UnchangedBut(internalChunks, k)
      ensures addr != 0 && old(FirstHolding(internalChunks, addr)).None? ==>
        && (ok <==> addr >= LargeHeaderSize && addr - LargeHeaderSize in old(largeBlocks))
        && largeBlocks == (if ok then old(largeBlocks) - {addr - LargeHeaderSize} else old(largeBlocks))
        && AllUnchanged(internalChunks)
    {
      if addr == 0 {
        return true;
      }
      var found := FirstHolding(internalChunks, addr);
      match found {
        case Some(k) =>
          FreeCell(k, addr);
          ok := true;
        case None =>
          ok := addr >= LargeHeaderSize && addr - LargeHeaderSize in largeBlocks;
          if ok {
            largeBlocks := largeBlocks - {addr - LargeHeaderSize};
          }
      }
    }

    /**
     * sweep_pinned_objects: scan_pinned_objects with the sweep callback on
     * every chunk of pinned_chunk_list in turn.
     */
    method SweepPinnedObjects()
      requires Valid()
      modifies pinnedChunks
      ensures Valid()
      ensures forall j :: 0 <= j < |pinnedChunks| ==> Swept(pinnedChunks[j])
      ensures AllUnchanged(internalChunks)
    {
      var cs := pinnedChunks;
      var i := 0;
      while i < |cs|
        invariant i <= |cs| && ChunksValid(cs)
        invariant forall j :: 0 <= j < i ==> Swept(cs[j])
        invariant forall j :: i <= j < |cs| ==> unchanged(cs[j])
      {
        ChunksValidAt(cs, i);
        DistinctApart(cs, i);
        label Before:
        cs[i].SweepChunk();
        ChunksValidKept@Before(cs, i);
        i := i + 1;
      }
      ChunksValidSame(internalChunks);
    }
  }
}
