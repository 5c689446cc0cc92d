/**
 * The pinned-chunk free-list allocator of the sgen collector (sgen-gc.c).
 *
 * A pinned chunk is a run of 4096-byte pages taken from the OS.  Its header
 * (the chunk record, the page_sizes array and the free_list array) sits at
 * the start of page 0; the objects start at start_data.  A page that is in
 * use holds cells of one size class (page_sizes[i]; 0 means unused), and the
 * free cells of each size class are threaded through their own first word
 * into a NULL-terminated list whose head is free_list[slot].  A live object
 * keeps its vtable in that first word, which points outside the chunk, so a
 * scan of the pages can tell objects from free cells.
 *
 * The memory of a chunk is `mem`: word k is the word at byte address
 * base + 8k.  The bookkeeping arrays are the fields pageSizes and freeList;
 * the ghost field cells lists the free cells of each slot in list order.
 */
module GcFreelist {
  import opened GcDescriptors
  import opened GcHeap

  /** FREELIST_PAGESIZE */
  const FreelistPageSize: nat := 4096
  const WordsPerPage: nat := 512
  /** FREELIST_NUM_SLOTS */
  const NumSlots: nat := 24
  /** freelist_sizes[slot]: the size classes, each a multiple of ALLOC_ALIGN. */
  function FreelistSize(slot: nat): nat
  {
    match slot
    case 0 => 8 case 1 => 16 case 2 => 24 case 3 => 32
    case 4 => 40 case 5 => 48 case 6 => 64 case 7 => 80
    case 8 => 96 case 9 => 128 case 10 => 160 case 11 => 192
    case 12 => 224 case 13 => 256 case 14 => 320 case 15 => 384
    case 16 => 448 case 17 => 512 case 18 => 584 case 19 => 680
    case 20 => 816 case 21 => 1024 case 22 => 1360 case _ => 2048
  }

  /** MAX_FREELIST_SIZE: larger pinned objects go to the large-object space. */
  const MaxFreelistSize: nat := 2048
  /** PINNED_FIRST_SLOT_SIZE: the size class of page 0 of every chunk. */
  const PinnedFirstSlotSize: nat := 32
  /** slot_for_size (PINNED_FIRST_SLOT_SIZE) */
  const PinnedFirstSlot: nat := 3
  /** PINNED_CHUNK_MIN_SIZE */
  const PinnedChunkMinSize: nat := 4096 * 8
  /** G_STRUCT_OFFSET (PinnedChunk, data) on a 64-bit target. */
  const ChunkHeaderSize: nat := 40
  /** LARGE_INTERNAL_MEM_HEADER_MAGIC */
  const LargeInternalMemHeaderMagic: nat := 0x7d289f3a
  /** G_STRUCT_OFFSET (LargeInternalMemHeader, data): magic, padding, size. */
  const LargeHeaderSize: nat := 16

  /** The size classes are ascending multiples of 8 and end at MAX_FREELIST_SIZE. */
  lemma FreelistSizesAscending()
    ensures FreelistSize(NumSlots - 1) == MaxFreelistSize
    ensures forall i :: 0 <= i < NumSlots ==> 0 < FreelistSize(i) && FreelistSize(i) % 8 == 0
    ensures forall i, j :: 0 <= i < j < NumSlots ==> FreelistSize(i) < FreelistSize(j)
  {
    forall i, j | 0 <= i < j < NumSlots
      ensures FreelistSize(i) < FreelistSize(j)
    {
      AscendingStep(i, j);
    }
  }

  lemma {:induction false} AscendingStep(i: nat, j: nat)
    requires i < j < NumSlots
    ensures FreelistSize(i) < FreelistSize(j)
    decreases j - i
  {
    if i + 1 < j {
      AscendingStep(i + 1, j);
    }
  }

  /** Two slots have two different size classes. */
  lemma FreelistSizesDistinct(s: nat, t: nat)
    requires s < NumSlots && t < NumSlots && s != t
    ensures FreelistSize(s) != FreelistSize(t)
  {
    if s < t {
      AscendingStep(s, t);
    } else {
      AscendingStep(t, s);
    }
  }

  /** The loop of slot_for_size from `slot` on. */
  function SlotFrom(size: nat, slot: nat): (r: Option<nat>)
    requires slot <= NumSlots
    ensures r.Some? ==> slot <= r.value < NumSlots && size <= FreelistSize(r.value)
    ensures r.Some? ==> forall j :: slot <= j < r.value ==> FreelistSize(j) < size
    ensures r.None? <==> forall j :: slot <= j < NumSlots ==> FreelistSize(j) < size
    decreases NumSlots - slot
  {
    if slot == NumSlots then None
    else if FreelistSize(slot) >= size then Some(slot)
    else SlotFrom(size, slot + 1)
  }

  /**
   * slot_for_size: the least slot whose size class holds `size`; None where
   * the source reaches g_assert_not_reached.
   */
  function SlotForSize(size: nat): (r: Option<nat>)
    ensures r.Some? ==> r.value < NumSlots && size <= FreelistSize(r.value)
    ensures r.Some? ==> forall j :: 0 <= j < r.value ==> FreelistSize(j) < size
    ensures r.None? <==> size > MaxFreelistSize
  {
    FreelistSizesAscending();
    SlotFrom(size, 0)
  }

  /** The slot of a size class is the class itself. */
  lemma SlotOfClass(s: nat)
    requires s < NumSlots
    ensures SlotForSize(FreelistSize(s)) == Some(s)
  {
    FreelistSizesAscending();
  }

  /**
   * The size alloc_pinned_chunk asks the OS for: one page more than the
   * request, in whole pages, and at least twice PINNED_CHUNK_MIN_SIZE.
   */
  function ChunkSize(size: nat): (r: nat)
    ensures r % FreelistPageSize == 0
    ensures size + FreelistPageSize <= r && 2 * PinnedChunkMinSize <= r
    ensures r == 2 * PinnedChunkMinSize || r < size + 2 * FreelistPageSize
  {
    var s := (size + FreelistPageSize + FreelistPageSize - 1) / FreelistPageSize * FreelistPageSize;
    if s < 2 * PinnedChunkMinSize then 2 * PinnedChunkMinSize else s
  }

  /** `(offset + ALLOC_ALIGN - 1) & ~(ALLOC_ALIGN - 1)` */
  function Align8(offset: nat): (r: nat)
    ensures r % 8 == 0 && offset <= r < offset + 8
  {
    (offset + 7) / 8 * 8
  }

  /**
   * The offset of start_data in a chunk of numPages pages: the chunk record,
   * page_sizes (one int per page) and free_list (one pointer per slot),
   * each array 8-aligned.
   */
  function StartDataOffset(numPages: nat): (r: nat)
    ensures r % 8 == 0
    ensures ChunkHeaderSize + 4 * numPages + 8 * NumSlots <= r < ChunkHeaderSize + 4 * numPages + 8 * NumSlots + 8
  {
    Align8(Align8(ChunkHeaderSize + 4 * numPages) + 8 * NumSlots)
  }

  /** The chunk alloc_pinned_chunk makes for any size class: 16 pages, objects from offset 296. */
  lemma SmallChunk(size: nat)
    requires size <= MaxFreelistSize
    ensures ChunkSize(size) == 2 * PinnedChunkMinSize && ChunkSize(size) / FreelistPageSize == 16
    ensures StartDataOffset(16) == 296
  {
  }

  /** The head of a free list holding `cells`: its first cell, or NULL. */
  function Head(cells: seq<nat>): (r: nat)
    ensures r == 0 <==> cells == [] || cells[0] == 0
  {
    if cells == [] then 0 else cells[0]
  }

  /** The link stored in the k-th free cell: the next cell, or NULL for the last. */
  function Link(cells: seq<nat>, k: nat): (r: nat)
    requires k < |cells|
    ensures k + 1 < |cells| ==> r == cells[k + 1]
    ensures k + 1 == |cells| ==> r == 0
  {
    if k + 1 < |cells| then cells[k + 1] else 0
  }

  /** The first unused page (page size 0), as get_chunk_freelist's scan finds it. */
  function FirstUnused(ps: seq<nat>): (r: Option<nat>)
    ensures r.Some? ==> r.value < |ps| && ps[r.value] == 0
    ensures r.Some? ==> forall j :: 0 <= j < r.value ==> ps[j] != 0
    ensures r.None? <==> forall j :: 0 <= j < |ps| ==> ps[j] != 0
  {
    if |ps| == 0 then None
    else if ps[0] == 0 then Some(0)
    else match FirstUnused(ps[1..])
      case None => None
      case Some(i) => Some(i + 1)
  }

  /** off is a whole number of `size`-byte cells. */
  predicate OnGrid(off: nat, size: nat)
    decreases off
  {
    off == 0 || (size > 0 && off >= size && OnGrid(off - size, size))
  }

  /** Two different offsets of one grid are a whole cell apart. */
  lemma {:induction false} GridApart(a: nat, b: nat, size: nat)
    requires OnGrid(a, size) && OnGrid(b, size) && a < b
    ensures a + size <= b
    decreases a
  {
    if a != 0 {
      GridApart(a - size, b - size, size);
    }
  }

  /** A whole number of cells is on the grid. */
  lemma {:induction false} OnGridMultiple(k: nat, size: nat)
    ensures OnGrid(k * size, size)
    decreases k
  {
    if k > 0 {
      assert k * size - size == (k - 1) * size;
      OnGridMultiple(k - 1, size);
    }
  }

  /** On a grid of a multiple of 8, offsets are multiples of 8. */
  lemma {:induction false} OnGridAligned(off: nat, size: nat)
    requires OnGrid(off, size) && size % 8 == 0
    ensures off % 8 == 0
    decreases off
  {
    if off != 0 {
      OnGridAligned(off - size, size);
    }
  }

  /** An offset within the chunk is its page's start plus its offset in the page. */
  lemma PageOffset(x: nat)
    ensures x == FreelistPageSize * (x / FreelistPageSize) + x % FreelistPageSize
    ensures x % FreelistPageSize < FreelistPageSize
  {
  }

  /** A page-aligned address is word-aligned. */
  lemma PageAlignedWord(x: nat)
    requires x % FreelistPageSize == 0
    ensures x % 8 == 0
  {
    PageOffset(x);
    var q := x / FreelistPageSize;
    assert x == 8 * (512 * q);
  }

  /** `off / size * size`: the offset rounded down to the grid of `size`. */
  lemma RoundDown(off: nat, size: nat)
    requires 0 < size
    ensures off / size * size <= off < off / size * size + size
    ensures OnGrid(off / size * size, size)
  {
    OnGridMultiple(off / size, size);
  }

  /** A size class is its own slot's class, and lies between 8 and MAX_FREELIST_SIZE. */
  lemma SizeClassSlot(size: nat)
    requires SizeClass(size)
    ensures SlotForSize(size).Some? && FreelistSize(SlotForSize(size).value) == size
    ensures 8 <= size <= MaxFreelistSize && size % 8 == 0
  {
    FreelistSizesAscending();
    var s :| 0 <= s < NumSlots && FreelistSize(s) == size;
    SlotOfClass(s);
  }

  /** The slot of a size class, with the bounds every class keeps. */
  lemma ClassIndex(size: nat) returns (slot: nat)
    requires SizeClass(size)
    ensures slot < NumSlots && FreelistSize(slot) == size
    ensures 8 <= size <= MaxFreelistSize && size % 8 == 0
  {
    FreelistSizesAscending();
    slot :| 0 <= slot < NumSlots && FreelistSize(slot) == size;
  }

  /** n is one of the size classes. */
  predicate SizeClass(n: nat)
  {
    exists slot :: 0 <= slot < NumSlots && FreelistSize(slot) == n
  }

  /** Every page size is 0, for an unused page, or a size class. */
  predicate PagesClassed(ps: seq<nat>)
  {
    |ps| == 0 || ((ps[0] == 0 || SizeClass(ps[0])) && PagesClassed(ps[1..]))
  }

  /** The size of page i is 0 or a size class. */
  lemma {:induction false} PageClass(ps: seq<nat>, i: nat)
    requires PagesClassed(ps) && i < |ps|
    ensures ps[i] == 0 || SizeClass(ps[i])
    decreases i
  {
    if i > 0 {
      PageClass(ps[1..], i - 1);
    }
  }

  /** Giving page i a size class keeps every page classed. */
  lemma {:induction false} ClaimClassed(ps: seq<nat>, i: nat, v: nat)
    requires PagesClassed(ps) && i < |ps| && SizeClass(v)
    ensures PagesClassed(ps[i := v])
    decreases i
  {
    if i > 0 {
      ClaimClassed(ps[1..], i - 1, v);
      assert ps[i := v][1..] == ps[1..][i - 1 := v];
    }
  }

  /** The page sizes of a new chunk: page 0 of the 32-byte class, the others unused. */
  lemma {:induction false} InitialPagesClassed(n: nat)
    ensures PagesClassed([PinnedFirstSlotSize] + seq(n, _ => 0))
  {
    ZerosClassed(n);
    assert FreelistSize(PinnedFirstSlot) == PinnedFirstSlotSize;
    assert ([PinnedFirstSlotSize] + seq(n, _ => 0))[1..] == seq(n, _ => 0);
  }

  lemma {:induction false} ZerosClassed(n: nat)
    ensures PagesClassed(seq(n, _ => 0))
  {
    if n > 0 {
      ZerosClassed(n - 1);
      assert seq(n, _ => 0)[1..] == seq(n - 1, _ => 0);
    }
  }

  /** A stride of positive step is strictly increasing. */
  lemma {:induction false} StrideIncreasing(cs: seq<nat>, size: nat)
    requires 0 < size && forall i :: 0 <= i < |cs| - 1 ==> cs[i + 1] == cs[i] + size
    ensures forall i, j :: 0 <= i < j < |cs| ==> cs[i] < cs[j]
    decreases |cs|
  {
    if |cs| > 1 {
      var tail := cs[1..];
      StrideIncreasing(tail, size);
      forall i, j | 0 <= i < j < |cs|
        ensures cs[i] < cs[j]
      {
        if i == 0 {
          if j > 1 {
            assert tail[0] < tail[j - 1];
          }
        } else {
          assert tail[i - 1] < tail[j - 1];
        }
      }
    }
  }

  /** A whole number of pages past an 8-aligned address is 8-aligned. */
  lemma AlignedPages(a: nat, k: nat)
    requires a % 8 == 0
    ensures (a + FreelistPageSize * k) % 8 == 0
  {
    assert a + FreelistPageSize * k == 8 * (a / 8 + 512 * k);
  }

  /** Two 8-aligned addresses above an 8-aligned base share a word only when they are equal. */
  lemma WordsDiffer(base: nat, a: nat, b: nat)
    requires base % 8 == 0 && base <= a && base <= b && a % 8 == 0 && b % 8 == 0 && a != b
    ensures (a - base) / 8 != (b - base) / 8
  {
  }

  // ---------------------------------------------------------------- bytes of little-endian words

  /** Byte b of word w, byte 0 at the lowest address (x86-64 is little-endian). */
  function ByteOf(w: nat, b: nat): nat
  {
    if b == 0 then w % 256 else ByteOf(w / 256, b - 1)
  }

  /**
   * w with its first k bytes cleared, as memset of k bytes leaves the
   * last, partly covered word of a range: the other bytes are kept.
   */
  function ClearLowBytes(w: Word, k: nat): (r: Word)
    ensures r <= w
    ensures forall b :: 0 <= b < k ==> ByteOf(r, b) == 0
    ensures forall b :: k <= b ==> ByteOf(r, b) == ByteOf(w, b)
  {
    if k == 0 then w
    else
      var c := ClearLowBytes(w / 256, k - 1);
      assert forall b :: 0 < b ==> ByteOf(256 * c, b) == ByteOf(c, b - 1);
      256 * c
  }

  /** The word of zeros has no nonzero byte. */
  lemma {:induction false} ZeroBytes(b: nat)
    ensures ByteOf(0, b) == 0
  {
    if b > 0 {
      ZeroBytes(b - 1);
    }
  }

  /**
   * memset (base + 8j, 0, n) on little-endian words: byte c of word k is
   * byte 8(k - j) + c of the range.  Whole words are cleared, then the low
   * bytes of a last, partly covered word.
   */
  function MemsetZero(m: seq<Word>, j: nat, n: nat): (r: seq<Word>)
    requires j <= |m| && n <= 8 * (|m| - j)
    ensures |r| == |m|
    ensures forall k, c :: j <= k < |m| && 0 <= c < 8 && 8 * (k - j) + c < n ==> ByteOf(r[k], c) == 0
    ensures forall k, c :: j <= k < |m| && 0 <= c < 8 && n <= 8 * (k - j) + c ==> ByteOf(r[k], c) == ByteOf(m[k], c)
    ensures forall k :: 0 <= k < |m| && (k < j || n <= 8 * (k - j)) ==> r[k] == m[k]
  {
    var r := seq(|m|, k requires 0 <= k < |m| =>
      if j <= k && 8 * (k - j) + 8 <= n then 0
      else if j <= k && 8 * (k - j) < n then ClearLowBytes(m[k], n - 8 * (k - j))
      else m[k]);
    assert forall k, c :: j <= k < |m| && 0 <= c < 8 && 8 * (k - j) + c < n ==> ByteOf(r[k], c) == 0 by {
      forall k, c | j <= k < |m| && 0 <= c < 8 && 8 * (k - j) + c < n
        ensures ByteOf(r[k], c) == 0
      {
        ZeroBytes(c);
      }
    }
    r
  }

  /** The memory and free lists of a chunk, as the sweep changes them. */
  datatype FreeState = FreeState(mem: seq<Word>, fl: seq<Word>, cs: seq<seq<nat>>)

  /** A pinned chunk with its page size classes and free lists. */
  class PinnedChunk {
    const base: nat          // the chunk's own address
    const numPages: nat      // num_pages
    const startData: nat     // start_data
    var pageSizes: seq<nat>  // page_sizes
    var freeList: seq<Word>  // free_list, one head per slot, 0 for NULL
    var mem: seq<Word>       // the chunk's words
    ghost var cells: seq<seq<nat>>

    /** One past the last byte of the chunk. */
    function End(): nat
    {
      base + FreelistPageSize * numPages
    }

    /** The first cell address of page i: start_data for page 0. */
    function PageStart(i: nat): nat
    {
      if i == 0 then startData else base + FreelistPageSize * i
    }

    function PageEnd(i: nat): nat
    {
      base + FreelistPageSize * (i + 1)
    }

    function PageOf(a: nat): nat
      requires base <= a
    {
      (a - base) / FreelistPageSize
    }

    function WordOf(a: nat): nat
      requires base <= a
    {
      (a - base) / 8
    }

    /** The layout alloc_pinned_chunk sets up, and the sizes of the bookkeeping arrays. */
    ghost predicate Shape()
      reads this
    {
      && 0 < base && base % FreelistPageSize == 0 && base % 8 == 0 && 0 < numPages
      && End() < TwoTo64
      && startData == base + StartDataOffset(numPages) && startData % 8 == 0
      && startData + PinnedFirstSlotSize <= base + FreelistPageSize
      && |pageSizes| == numPages && pageSizes[0] == PinnedFirstSlotSize
      && |mem| == numPages * WordsPerPage
      && |freeList| == NumSlots && |cells| == NumSlots
    }

    /**
     * c is a cell of slot s under page sizes ps: 8-aligned, in a page of
     * that size class, on the page's grid of cells, and wholly inside the page.
     */
    ghost predicate CellOk(ps: seq<nat>, s: nat, c: nat)
      requires s < NumSlots
    {
      && base <= c && c % 8 == 0 && PageOf(c) < |ps|
      && ps[PageOf(c)] == FreelistSize(s)
      && PageStart(PageOf(c)) <= c && c + FreelistSize(s) <= PageEnd(PageOf(c))
      && OnGrid(c - PageStart(PageOf(c)), FreelistSize(s))
    }

    /**
     * head heads a NULL-terminated list of the distinct cells cs of slot s,
     * linked through their first words in m.
     */
    ghost predicate ListOk(ps: seq<nat>, m: seq<Word>, s: nat, head: nat, cs: seq<nat>)
      requires s < NumSlots
    {
      && head == Head(cs)
      && (forall k :: 0 <= k < |cs| ==> CellOk(ps, s, cs[k]))
      && (forall i, j :: 0 <= i < j < |cs| ==> cs[i] != cs[j])
      && (forall k :: 0 <= k < |cs| ==> WordOf(cs[k]) < |m| && m[WordOf(cs[k])] == Link(cs, k))
    }

    ghost predicate Valid()
      reads this
    {
      && Shape()
      && PagesClassed(pageSizes)
      && ListsOk(pageSizes, mem, freeList, cells)
    }

    /** Every slot's free list is well formed. */
    ghost predicate ListsOk(ps: seq<nat>, m: seq<Word>, fl: seq<Word>, cs: seq<seq<nat>>)
    {
      && |fl| == NumSlots && |cs| == NumSlots
      && forall s :: 0 <= s < NumSlots ==> ListOk(ps, m, s, fl[s], cs[s])
    }

    /** Replacing one slot's list by a well-formed one keeps all lists well formed. */
    lemma ListsOkUpdate(ps: seq<nat>, m: seq<Word>, fl: seq<Word>, cs: seq<seq<nat>>, slot: nat, h: Word, c: seq<nat>)
      requires |fl| == NumSlots && |cs| == NumSlots && slot < NumSlots
      requires ListOk(ps, m, slot, h, c)
      requires forall t :: 0 <= t < NumSlots && t != slot ==> ListOk(ps, m, t, fl[t], cs[t])
      ensures ListsOk(ps, m, fl[slot := h], cs[slot := c])
    {
    }

    /** A cell lies in its page, so inside the chunk's memory. */
    lemma CellInChunk(ps: seq<nat>, s: nat, c: nat)
      requires Shape() && s < NumSlots && CellOk(ps, s, c) && |ps| == numPages
      ensures startData <= c && c + 8 <= End() && WordOf(c) < |mem|
    {
      FreelistSizesAscending();
    }

    /** Cells of two different slots lie in pages of two different size classes. */
    lemma CellsOfSlotsApart(ps: seq<nat>, s: nat, t: nat, c: nat, d: nat)
      requires s < NumSlots && t < NumSlots && s != t
      requires CellOk(ps, s, c) && CellOk(ps, t, d)
      ensures c != d
    {
      FreelistSizesDistinct(s, t);
    }

    /** An address between the start and the end of page i lies in page i. */
    lemma InPage(i: nat, c: nat)
      requires base + FreelistPageSize * i <= c < PageEnd(i)
      ensures PageOf(c) == i
    {
    }

    /** The word of a free cell is a link: NULL or another free cell of the chunk. */
    lemma LinkInChunk(s: nat, k: nat)
      requires Valid() && s < NumSlots && k < |cells[s]|
      ensures base <= cells[s][k] && WordOf(cells[s][k]) < |mem|
      ensures var w := mem[WordOf(cells[s][k])]; w == 0 || startData <= w < End()
    {
      assert ListOk(pageSizes, mem, s, freeList[s], cells[s]);
      if k + 1 < |cells[s]| {
        CellInChunk(pageSizes, s, cells[s][k + 1]);
      }
    }

    /** A write to a word that is no cell's keeps a list. */
    lemma ListOkWrite(ps: seq<nat>, m: seq<Word>, s: nat, h: nat, cs: seq<nat>, j: nat, v: Word)
      requires s < NumSlots && ListOk(ps, m, s, h, cs) && j < |m|
      requires forall k :: 0 <= k < |cs| ==> WordOf(cs[k]) != j
      ensures ListOk(ps, m[j := v], s, h, cs)
    {
    }

    /** Memory that agrees on every cell's word keeps a list. */
    lemma ListOkFrame(ps: seq<nat>, m: seq<Word>, m': seq<Word>, s: nat, h: nat, cs: seq<nat>)
      requires s < NumSlots && ListOk(ps, m, s, h, cs) && |m| == |m'|
      requires forall k :: 0 <= k < |cs| ==> m'[WordOf(cs[k])] == m[WordOf(cs[k])]
      ensures ListOk(ps, m', s, h, cs)
    {
    }

    /** Popping the head leaves the rest of the list, headed by the head's link. */
    lemma ListOkPop(ps: seq<nat>, m: seq<Word>, s: nat, h: nat, cs: seq<nat>)
      requires s < NumSlots && ListOk(ps, m, s, h, cs) && cs != []
      ensures ListOk(ps, m, s, m[WordOf(cs[0])], cs[1..])
      ensures cs[0] !in cs[1..]
    {
      forall k | 0 <= k < |cs| - 1
        ensures Link(cs[1..], k) == Link(cs, k + 1)
      {
      }
    }

    /** Two different cells never share a word. */
    lemma CellWordsDiffer(ps: seq<nat>, s: nat, t: nat, c: nat, d: nat)
      requires base % 8 == 0 && s < NumSlots && t < NumSlots
      requires CellOk(ps, s, c) && CellOk(ps, t, d) && c != d
      ensures WordOf(c) != WordOf(d)
    {
      WordsDiffer(base, c, d);
    }

    /** Pushing a free-standing cell of the slot, its word set to the old head, gives a list headed by it. */
    lemma ListOkPush(ps: seq<nat>, m: seq<Word>, s: nat, h: Word, cs: seq<nat>, p: nat)
      requires base % 8 == 0 && s < NumSlots && ListOk(ps, m, s, h, cs)
      requires CellOk(ps, s, p) && p !in cs && WordOf(p) < |m|
      ensures ListOk(ps, m[WordOf(p) := h], s, p, [p] + cs)
    {
      PushCells(ps, s, cs, p);
      PushLinks(ps, m, s, h, cs, p);
    }

    /** The pushed cell and the old cells are distinct cells of the slot. */
    lemma PushCells(ps: seq<nat>, s: nat, cs: seq<nat>, p: nat)
      requires s < NumSlots && CellOk(ps, s, p) && p !in cs
      requires forall k :: 0 <= k < |cs| ==> CellOk(ps, s, cs[k])
      requires forall i, j :: 0 <= i < j < |cs| ==> cs[i] != cs[j]
      ensures forall k :: 0 <= k < |[p] + cs| ==> CellOk(ps, s, ([p] + cs)[k])
      ensures forall i, j :: 0 <= i < j < |[p] + cs| ==> ([p] + cs)[i] != ([p] + cs)[j]
    {
      var cs' := [p] + cs;
      forall k | 0 <= k < |cs'|
        ensures CellOk(ps, s, cs'[k])
      {
        if k > 0 {
          assert cs'[k] == cs[k - 1];
        }
      }
      forall i, j | 0 <= i < j < |cs'|
        ensures cs'[i] != cs'[j]
      {
        assert cs'[j] == cs[j - 1];
      }
    }

    /** After the push every cell's word holds its link: the old head for p, the old links elsewhere. */
    lemma PushLinks(ps: seq<nat>, m: seq<Word>, s: nat, h: Word, cs: seq<nat>, p: nat)
      requires base % 8 == 0 && s < NumSlots && ListOk(ps, m, s, h, cs)
      requires CellOk(ps, s, p) && p !in cs && WordOf(p) < |m|
      ensures forall k :: 0 <= k < |[p] + cs| ==>
        WordOf(([p] + cs)[k]) < |m[WordOf(p) := h]| && m[WordOf(p) := h][WordOf(([p] + cs)[k])] == Link([p] + cs, k)
    {
      forall k | 0 <= k < |cs|
        ensures WordOf(cs[k]) != WordOf(p)
      {
        CellWordsDiffer(ps, s, s, cs[k], p);
      }
      var cs' := [p] + cs;
      var m' := m[WordOf(p) := h];
      forall k | 0 <= k < |cs'|
        ensures WordOf(cs'[k]) < |m'| && m'[WordOf(cs'[k])] == Link(cs', k)
      {
        if k > 0 {
          assert cs'[k] == cs[k - 1];
          assert Link(cs', k) == Link(cs, k - 1);
        }
      }
    }

    /**
     * The pop of a free-list head, `free_list[slot] = *p`: the first cell
     * leaves the list and the head becomes the link it held.
     */
    method PopFree(slot: nat) returns (p: nat)
      requires Valid() && slot < NumSlots && cells[slot] != []
      modifies this`freeList, this`cells
      ensures Valid()
      ensures p == old(cells[slot][0]) && CellOk(pageSizes, slot, p) && p !in cells[slot]
      ensures cells == old(cells)[slot := old(cells[slot])[1..]]
      ensures freeList == old(freeList)[slot := Head(cells[slot])]
    {
      assert ListOk(pageSizes, mem, slot, freeList[slot], cells[slot]);
      ListOkPop(pageSizes, mem, slot, freeList[slot], cells[slot]);
      p := freeList[slot];
      freeList := freeList[slot := mem[WordOf(p)]];
      cells := cells[slot := cells[slot][1..]];
    }

    /**
     * The push of free_pinned_object and free_internal_mem: the cell's first
     * word takes the old head and the cell becomes the head.
     */
    method PushFree(slot: nat, p: nat)
      requires Valid() && slot < NumSlots && CellOk(pageSizes, slot, p) && p !in cells[slot]
      modifies this`mem, this`freeList, this`cells
      ensures Valid()
      ensures cells == old(cells)[slot := [p] + old(cells[slot])]
      ensures freeList == old(freeList)[slot := p]
      ensures WordOf(p) < |mem| && mem == old(mem)[WordOf(p) := old(freeList[slot])]
    {
      CellInChunk(pageSizes, slot, p);
      ghost var m0 := mem;
      ghost var cs0 := cells;
      ListOkPush(pageSizes, mem, slot, freeList[slot], cells[slot], p);
      forall t | 0 <= t < NumSlots && t != slot
        ensures ListOk(pageSizes, m0[WordOf(p) := freeList[slot]], t, freeList[t], cells[t])
      {
        forall k | 0 <= k < |cells[t]|
          ensures WordOf(cells[t][k]) != WordOf(p)
        {
          CellsOfSlotsApart(pageSizes, t, slot, cells[t][k], p);
          CellWordsDiffer(pageSizes, t, slot, cells[t][k], p);
        }
        ListOkWrite(pageSizes, m0, t, freeList[t], cells[t], WordOf(p), freeList[slot]);
      }
      mem := mem[WordOf(p) := freeList[slot]];
      freeList := freeList[slot := p];
      cells := cells[slot := [p] + cells[slot]];
    }

    /**
     * free_pinned_object: the object goes back on the free list of the slot
     * of its size.  The object is a cell of that slot that is not free.
     */
    method FreePinnedObject(obj: nat, size: nat)
      requires Valid() && size <= MaxFreelistSize
      requires CellOk(pageSizes, SlotForSize(size).value, obj) && obj !in cells[SlotForSize(size).value]
      modifies this`mem, this`freeList, this`cells
      ensures Valid()
      ensures var slot := SlotForSize(size).value;
        && cells == old(cells)[slot := [obj] + old(cells[slot])]
        && freeList == old(freeList)[slot := obj]
        && mem == old(mem)[WordOf(obj) := old(freeList[slot])]
    {
      var slot := SlotForSize(size).value;
      PushFree(slot, obj);
    }

    /** Byte a of the chunk in memory m. */
    function ByteAt(m: seq<Word>, a: nat): nat
      requires base <= a && WordOf(a) < |m|
    {
      ByteOf(m[WordOf(a)], (a - base) % 8)
    }

    /** Two different cells do not overlap: one ends before the other starts. */
    lemma CellsApart(ps: seq<nat>, s: nat, t: nat, c: nat, d: nat)
      requires s < NumSlots && t < NumSlots && CellOk(ps, s, c) && CellOk(ps, t, d) && c < d
      ensures c + FreelistSize(s) <= d
    {
      if PageOf(c) == PageOf(d) {
        if s != t {
          FreelistSizesDistinct(s, t);
        }
        GridApart(c - PageStart(PageOf(c)), d - PageStart(PageOf(c)), FreelistSize(s));
      }
    }

    /** Zeroing the first `size` bytes of cell p keeps the word of any other cell d. */
    lemma MemsetKeepsCell(ps: seq<nat>, m: seq<Word>, p: nat, size: nat, s: nat, t: nat, d: nat)
      requires base % 8 == 0 && s < NumSlots && t < NumSlots
      requires CellOk(ps, s, p) && CellOk(ps, t, d) && p != d && size <= FreelistSize(s)
      requires WordOf(p) <= |m| && size <= 8 * (|m| - WordOf(p)) && WordOf(d) < |m|
      ensures MemsetZero(m, WordOf(p), size)[WordOf(d)] == m[WordOf(d)]
    {
      if p < d {
        CellsApart(ps, s, t, p, d);
        assert 8 * (WordOf(d) - WordOf(p)) == d - p;
      } else {
        CellWordsDiffer(ps, s, t, p, d);
      }
    }

    /** Zeroing the first `size` bytes of cell p writes no word of a free cell. */
    lemma ZeroKeepsLists(p: nat, size: nat, slot: nat)
      requires Valid() && slot < NumSlots && CellOk(pageSizes, slot, p) && p !in cells[slot]
      requires size <= FreelistSize(slot) && WordOf(p) <= |mem| && size <= 8 * (|mem| - WordOf(p))
      ensures ListsOk(pageSizes, MemsetZero(mem, WordOf(p), size), freeList, cells)
    {
      var m' := MemsetZero(mem, WordOf(p), size);
      forall t | 0 <= t < NumSlots
        ensures ListOk(pageSizes, m', t, freeList[t], cells[t])
      {
        assert ListOk(pageSizes, mem, t, freeList[t], cells[t]);
        forall k | 0 <= k < |cells[t]|
          ensures m'[WordOf(cells[t][k])] == mem[WordOf(cells[t][k])]
        {
          var d := cells[t][k];
          if t != slot {
            CellsOfSlotsApart(pageSizes, slot, t, p, d);
          }
          MemsetKeepsCell(pageSizes, mem, p, size, slot, t, d);
        }
        ListOkFrame(pageSizes, mem, m', t, freeList[t], cells[t]);
      }
    }

    /**
     * The `memset (res, 0, size)` of get_internal_mem on a cell the free
     * list handed out: its first `size` bytes read zero, every other byte
     * of the chunk is kept, and the lists stay well formed.
     */
    method ZeroObject(p: nat, size: nat, ghost slot: nat)
      requires Valid() && slot < NumSlots && CellOk(pageSizes, slot, p) && p !in cells[slot]
      requires size <= FreelistSize(slot)
      modifies this`mem
      ensures Valid()
      ensures WordOf(p) <= |mem| && size <= 8 * (|mem| - WordOf(p))
      ensures mem == MemsetZero(old(mem), WordOf(p), size)
      ensures Cleared(mem, p, size)
    {
      CellInChunk(pageSizes, slot, p);
      WordsAfter(p);
      ZeroKeepsLists(p, size, slot);
      ZeroedBytes(mem, p, size);
      mem := MemsetZero(mem, WordOf(p), size);
    }

    /** The words of the chunk from an 8-aligned address p on hold the bytes from p to the end. */
    lemma WordsAfter(p: nat)
      requires Shape() && base <= p <= End() && p % 8 == 0
      ensures WordOf(p) <= |mem| && 8 * (|mem| - WordOf(p)) == End() - p
    {
      assert FreelistPageSize == 4096 && WordsPerPage == 512;
      assert 8 * |mem| == End() - base;
      assert 8 * WordOf(p) == p - base;
    }

    /** The bytes MemsetZero clears from an 8-aligned address p are the `size` bytes from p. */
    lemma ZeroedBytes(m: seq<Word>, p: nat, size: nat)
      requires base % 8 == 0 && base <= p && p % 8 == 0
      requires WordOf(p) <= |m| && size <= 8 * (|m| - WordOf(p))
      ensures forall a :: p <= a < p + size ==> WordOf(a) < |m| && ByteAt(MemsetZero(m, WordOf(p), size), a) == 0
    {
      forall a | p <= a < p + size
        ensures WordOf(a) < |m| && ByteAt(MemsetZero(m, WordOf(p), size), a) == 0
      {
        assert 8 * (WordOf(a) - WordOf(p)) + (a - base) % 8 == a - p;
      }
    }

    /** The cells at stride `size` from `start`, as long as a whole cell fits before `end`. */
    ghost predicate Stride(cs: seq<nat>, start: nat, size: nat, end: nat)
    {
      && cs != [] && cs[0] == start
      && (forall k :: 0 <= k < |cs| - 1 ==> cs[k + 1] == cs[k] + size)
      && cs[|cs| - 1] + size <= end < cs[|cs| - 1] + 2 * size
    }

    /** The next cell of a stride through a page, when it fits, is a cell too. */
    lemma NextCell(ps: seq<nat>, slot: nat, page: nat, p: nat)
      requires slot < NumSlots && CellOk(ps, slot, p) && PageOf(p) == page
      requires p + 2 * FreelistSize(slot) <= PageEnd(page)
      ensures CellOk(ps, slot, p + FreelistSize(slot)) && PageOf(p + FreelistSize(slot)) == page
    {
      FreelistSizesAscending();
      InPage(page, p + FreelistSize(slot));
    }

    /** A cell of another size class has its word outside page `page` of this one. */
    lemma OtherPage(ps: seq<nat>, s: nat, slot: nat, c: nat, page: nat)
      requires s < NumSlots && slot < NumSlots && s != slot && base <= startData
      requires page < |ps| && ps[page] == FreelistSize(slot) && CellOk(ps, s, c)
      ensures WordOf(c) < WordOf(PageStart(page)) || WordOf(PageEnd(page) - 1) < WordOf(c)
    {
      FreelistSizesDistinct(s, slot);
    }

    /** Every cell of a stride that starts a page of the slot's class and stays in the page is a cell of the slot. */
    lemma {:induction false} StrideCellOk(ps: seq<nat>, slot: nat, page: nat, cs: seq<nat>, k: nat)
      requires slot < NumSlots && page < |ps| && ps[page] == FreelistSize(slot)
      requires base % 8 == 0 && PageStart(page) % 8 == 0
      requires base + FreelistPageSize * page <= PageStart(page)
      requires k < |cs| && cs[0] == PageStart(page)
      requires forall i :: 0 <= i < |cs| - 1 ==> cs[i + 1] == cs[i] + FreelistSize(slot)
      requires forall i :: 0 <= i < |cs| ==> cs[i] + FreelistSize(slot) <= PageEnd(page)
      ensures CellOk(ps, slot, cs[k]) && PageOf(cs[k]) == page
      decreases k
    {
      FreelistSizesAscending();
      if k == 0 {
        InPage(page, cs[0]);
      } else {
        StrideCellOk(ps, slot, page, cs, k - 1);
        assert cs[k] == cs[k - 1] + FreelistSize(slot);
        assert cs[k] + FreelistSize(slot) <= PageEnd(page);
        NextCell(ps, slot, page, cs[k - 1]);
      }
    }

    /** The first cell of every page is 8-aligned. */
    lemma PageStartAligned(page: nat)
      requires Shape()
      ensures PageStart(page) % 8 == 0 && base + FreelistPageSize * page <= PageStart(page)
    {
      if page > 0 {
        AlignedPages(base, page);
      }
    }

    /**
     * A stride through a page of the slot's class whose cells each hold the
     * address one cell further on, the last holding NULL, is a free list.
     */
    lemma ListOkStride(ps: seq<nat>, m: seq<Word>, slot: nat, page: nat, cs: seq<nat>)
      requires slot < NumSlots && page < |ps| && ps[page] == FreelistSize(slot)
      requires base % 8 == 0 && PageStart(page) % 8 == 0
      requires base + FreelistPageSize * page <= PageStart(page)
      requires cs != [] && cs[0] == PageStart(page)
      requires forall i :: 0 <= i < |cs| - 1 ==> cs[i + 1] == cs[i] + FreelistSize(slot)
      requires forall i :: 0 <= i < |cs| ==> cs[i] + FreelistSize(slot) <= PageEnd(page)
      requires forall i, j :: 0 <= i < j < |cs| ==> cs[i] < cs[j]
      requires forall i :: 0 <= i < |cs| ==> WordOf(cs[i]) < |m|
      requires forall i :: 0 <= i < |cs| - 1 ==> m[WordOf(cs[i])] == cs[i] + FreelistSize(slot)
      requires m[WordOf(cs[|cs| - 1])] == 0
      ensures ListOk(ps, m, slot, cs[0], cs)
    {
      forall k | 0 <= k < |cs|
        ensures CellOk(ps, slot, cs[k])
      {
        StrideCellOk(ps, slot, page, cs, k);
      }
    }

    /** The cells build_freelist threads from p on: p, and the ones after it while the next still fits before endPage. */
    ghost function StrideFrom(p: nat, size: nat, endPage: nat): (r: seq<nat>)
      decreases endPage - p
    {
      if 0 < size && p + 2 * size <= endPage then [p] + StrideFrom(p + size, size, endPage) else [p]
    }

    /** The memory build_freelist's loop leaves, started at cell p. */
    ghost function Threaded(m: seq<Word>, p: nat, size: nat, endPage: nat): (r: seq<Word>)
      requires 0 < size && base <= p && p + size <= endPage && endPage < TwoTo64 && WordOf(endPage - 1) < |m|
      decreases endPage - p
    {
      if p + 2 * size <= endPage then Threaded(m[WordOf(p) := p + size], p + size, size, endPage)
      else m[WordOf(p) := 0]
    }

    /** StrideFrom is a stride from p of cells that fit, ending at the last that fits. */
    lemma {:induction false} StrideFacts(p: nat, size: nat, endPage: nat)
      requires 0 < size && p + size <= endPage
      ensures var cs := StrideFrom(p, size, endPage);
        && cs != [] && cs[0] == p
        && (forall i :: 0 <= i < |cs| - 1 ==> cs[i + 1] == cs[i] + size)
        && (forall i :: 0 <= i < |cs| ==> p <= cs[i] && cs[i] + size <= endPage)
        && endPage < cs[|cs| - 1] + 2 * size
      decreases endPage - p
    {
      if p + 2 * size <= endPage {
        StrideFacts(p + size, size, endPage);
      }
    }

    /**
     * Threaded links every cell of StrideFrom to the next and the last to
     * NULL, and changes no word outside the cells' span.
     */
    lemma {:induction false} ThreadedFacts(m: seq<Word>, p: nat, size: nat, endPage: nat)
      requires 8 <= size && base <= p && p + size <= endPage && endPage < TwoTo64 && WordOf(endPage - 1) < |m|
      ensures var r := Threaded(m, p, size, endPage); var cs := StrideFrom(p, size, endPage);
        && |r| == |m| && cs != []
        && (forall i :: 0 <= i < |cs| ==> base <= cs[i] && WordOf(p) <= WordOf(cs[i]) < |m|)
        && (forall i :: 0 <= i < |cs| - 1 ==> r[WordOf(cs[i])] == cs[i] + size)
        && r[WordOf(cs[|cs| - 1])] == 0
        && (forall j :: 0 <= j < |m| && !(WordOf(p) <= j <= WordOf(endPage - 1)) ==> r[j] == m[j])
      decreases endPage - p
    {
      StrideFacts(p, size, endPage);
      var cs := StrideFrom(p, size, endPage);
      if p + 2 * size <= endPage {
        var m' := m[WordOf(p) := p + size];
        ThreadedFacts(m', p + size, size, endPage);
        var rest := StrideFrom(p + size, size, endPage);
        assert cs == [p] + rest;
        assert WordOf(p) < WordOf(p + size);
      }
    }

    /**
     * The loop of build_freelist: from startPage on, each cell of `size`
     * bytes whose successor still fits before endPage gets the successor's
     * address in its first word; the last cell gets NULL.
     */
    method ThreadPage(size: nat, startPage: nat, endPage: nat)
      requires 8 <= size && base <= startPage && startPage + size <= endPage
      requires endPage < TwoTo64 && WordOf(endPage - 1) < |mem|
      modifies this`mem
      ensures mem == Threaded(old(mem), startPage, size, endPage)
    {
      var p := startPage;
      var end := endPage - size;
      while p + size <= end
        invariant startPage <= p && p + size <= endPage && WordOf(endPage - 1) < |mem|
        invariant Threaded(mem, p, size, endPage) == Threaded(old(mem), startPage, size, endPage)
        decreases end - p
      {
        mem := mem[WordOf(p) := p + size];
        p := mem[WordOf(p)];
      }
      mem := mem[WordOf(p) := 0];
    }

    /** The list build_freelist threads through page `page` for `slot`, and what it leaves alone. */
    lemma BuiltList(ps: seq<nat>, m: seq<Word>, slot: nat, page: nat)
      requires slot < NumSlots && page < |ps| && ps[page] == FreelistSize(slot) && 8 <= FreelistSize(slot)
      requires base % 8 == 0 && PageStart(page) % 8 == 0 && base + FreelistPageSize * page <= PageStart(page)
      requires PageStart(page) + FreelistSize(slot) <= PageEnd(page)
      requires PageEnd(page) < TwoTo64 && WordOf(PageEnd(page) - 1) < |m|
      ensures var size := FreelistSize(slot);
        var cs := StrideFrom(PageStart(page), size, PageEnd(page));
        var r := Threaded(m, PageStart(page), size, PageEnd(page));
        && ListOk(ps, r, slot, PageStart(page), cs)
        && Stride(cs, PageStart(page), size, PageEnd(page))
        && |r| == |m|
        && forall j :: 0 <= j < |m| && !(WordOf(PageStart(page)) <= j <= WordOf(PageEnd(page) - 1)) ==> r[j] == m[j]
    {
      var size := FreelistSize(slot);
      ThreadedFacts(m, PageStart(page), size, PageEnd(page));
      StrideFacts(PageStart(page), size, PageEnd(page));
      var cs := StrideFrom(PageStart(page), size, PageEnd(page));
      StrideIncreasing(cs, size);
      ListOkStride(ps, Threaded(m, PageStart(page), size, PageEnd(page)), slot, page, cs);
    }

    /** A page of a chunk that satisfies Shape() holds a cell of any class, and its words are in `mem`. */
    lemma PageRoom(page: nat, size: nat)
      requires Shape() && page < numPages && 8 <= size <= MaxFreelistSize
      requires page == 0 ==> size == PinnedFirstSlotSize
      ensures base % 8 == 0 && PageStart(page) % 8 == 0 && base + FreelistPageSize * page <= PageStart(page)
      ensures PageStart(page) + size <= PageEnd(page)
      ensures PageEnd(page) < TwoTo64 && WordOf(PageEnd(page) - 1) < |mem|
    {
      PageStartAligned(page);
      assert PageEnd(page) - 1 - base == 8 * (WordsPerPage * page + 511) + 7;
    }

    /** Lists of the other slots keep when only the words of page `page` of this slot's class change. */
    lemma OthersFramed(ps: seq<nat>, m0: seq<Word>, m: seq<Word>, fl: seq<Word>, cs0: seq<seq<nat>>, slot: nat, page: nat)
      requires |fl| == NumSlots && |cs0| == NumSlots && slot < NumSlots && base <= startData
      requires page < |ps| && ps[page] == FreelistSize(slot)
      requires forall t :: 0 <= t < NumSlots ==> ListOk(ps, m0, t, fl[t], cs0[t])
      requires |m| == |m0|
      requires forall j :: 0 <= j < |m| && !(WordOf(PageStart(page)) <= j <= WordOf(PageEnd(page) - 1)) ==> m[j] == m0[j]
      ensures forall t :: 0 <= t < NumSlots && t != slot ==> ListOk(ps, m, t, fl[t], cs0[t])
    {
      forall t | 0 <= t < NumSlots && t != slot
        ensures ListOk(ps, m, t, fl[t], cs0[t])
      {
        assert ListOk(ps, m0, t, fl[t], cs0[t]);
        forall k | 0 <= k < |cs0[t]|
          ensures m[WordOf(cs0[t][k])] == m0[WordOf(cs0[t][k])]
        {
          OtherPage(ps, t, slot, cs0[t][k], page);
        }
        ListOkFrame(ps, m0, m, t, fl[t], cs0[t]);
      }
    }

    /** The lists after build_freelist of `slot` over page `page` (memory `m` threaded from `m0`) are well formed. */
    lemma BuildKeepsLists(ps: seq<nat>, m0: seq<Word>, m: seq<Word>, fl0: seq<Word>, cs0: seq<seq<nat>>, slot: nat, page: nat)
      requires ListsOk(ps, m0, fl0, cs0) && slot < NumSlots && page < |ps| && ps[page] == FreelistSize(slot)
      requires 8 <= FreelistSize(slot) && base <= startData
      requires base % 8 == 0 && PageStart(page) % 8 == 0 && base + FreelistPageSize * page <= PageStart(page)
      requires PageStart(page) + FreelistSize(slot) <= PageEnd(page)
      requires PageEnd(page) < TwoTo64 && WordOf(PageEnd(page) - 1) < |m0|
      requires m == Threaded(m0, PageStart(page), FreelistSize(slot), PageEnd(page))
      ensures ListsOk(ps, m, fl0[slot := PageStart(page)], cs0[slot := StrideFrom(PageStart(page), FreelistSize(slot), PageEnd(page))])
      ensures Stride(StrideFrom(PageStart(page), FreelistSize(slot), PageEnd(page)), PageStart(page), FreelistSize(slot), PageEnd(page))
      ensures |m| == |m0|
      ensures forall j :: 0 <= j < |m| && !(WordOf(PageStart(page)) <= j <= WordOf(PageEnd(page) - 1)) ==> m[j] == m0[j]
    {
      BuiltList(ps, m0, slot, page);
      OthersFramed(ps, m0, m, fl0, cs0, slot, page);
      ListsOkUpdate(ps, m, fl0, cs0, slot, PageStart(page), StrideFrom(PageStart(page), FreelistSize(slot), PageEnd(page)));
    }

    /**
     * build_freelist: every cell of [startPage, endPage) at stride `size`
     * is linked to the next and the last to NULL; the free list of the slot,
     * empty before, starts at startPage.  Nothing outside the page changes.
     */
    method BuildFreelist(slot: nat, size: nat, startPage: nat, endPage: nat, ghost page: nat)
      requires Valid() && slot < NumSlots && size == FreelistSize(slot)
      requires page < numPages && pageSizes[page] == size
      requires startPage == PageStart(page) && endPage == PageEnd(page)
      requires freeList[slot] == 0
      modifies this`mem, this`freeList, this`cells
      ensures Valid()
      ensures freeList == old(freeList)[slot := startPage]
      ensures cells == old(cells)[slot := StrideFrom(startPage, size, endPage)]
      ensures Stride(cells[slot], startPage, size, endPage)
      ensures MemKeptOutside(old(mem), mem, page)
    {
      assert 8 <= size <= MaxFreelistSize by {
        FreelistSizesAscending();
      }
      PageRoom(page, size);
      ghost var m0 := mem;
      freeList := freeList[slot := startPage];
      ThreadPage(size, startPage, endPage);
      BuildKeepsLists(pageSizes, m0, mem, old(freeList), cells, slot, page);
      cells := cells[slot := StrideFrom(startPage, size, endPage)];
    }

    /** m' agrees with m on every word outside page i. */
    ghost predicate MemKeptOutside(m: seq<Word>, m': seq<Word>, i: nat)
    {
      && base <= startData && |m'| == |m|
      && forall j :: 0 <= j < |m| && !(WordOf(PageStart(i)) <= j <= WordOf(PageEnd(i) - 1)) ==> m'[j] == m[j]
    }

    /** The `n` bytes from p read zero in memory m. */
    ghost predicate Cleared(m: seq<Word>, p: nat, n: nat)
    {
      forall a :: p <= a < p + n ==> base <= a && WordOf(a) < |m| && ByteAt(m, a) == 0
    }

    /**
     * Zeroing bytes of the first cell p of a claimed page i writes inside
     * that page only, so the memory outside it stays as it was.
     */
    lemma ZeroKeepsOutside(m0: seq<Word>, m1: seq<Word>, i: nat, s: nat, p: nat, n: nat)
      requires base % FreelistPageSize == 0 && 0 < i && p == PageStart(i) && s < NumSlots
      requires CellOk(pageSizes, s, p) && n <= FreelistSize(s)
      requires MemKeptOutside(m0, m1, i) && WordOf(p) <= |m1| && n <= 8 * (|m1| - WordOf(p))
      ensures MemKeptOutside(m0, MemsetZero(m1, WordOf(p), n), i)
    {
      assert FreelistPageSize == 4096;
      assert PageOf(p) == i;
      var w, q := WordOf(p), WordOf(PageEnd(i) - 1);
      assert 8 * q + 8 == PageEnd(i) - base;
      assert 8 * w == p - base;
      assert 8 * w + n <= 8 * q + 8;
      var r := MemsetZero(m1, w, n);
      forall j | 0 <= j < |m0| && !(w <= j <= q)
        ensures r[j] == m0[j]
      {
        if w <= j {
          assert n <= 8 * (j - w);
        }
      }
    }

    /** A list is NULL-headed exactly when it has no cells. */
    lemma EmptyIffNull(s: nat)
      requires Valid() && s < NumSlots
      ensures freeList[s] == 0 <==> cells[s] == []
    {
      assert ListOk(pageSizes, mem, s, freeList[s], cells[s]);
      if cells[s] != [] {
        assert CellOk(pageSizes, s, cells[s][0]);
      }
    }

    /** Giving an unused page a size class keeps every list, since no free cell lies in an unused page. */
    lemma ListsOkClaim(ps: seq<nat>, m: seq<Word>, fl: seq<Word>, cs: seq<seq<nat>>, i: nat, v: nat)
      requires ListsOk(ps, m, fl, cs) && i < |ps| && ps[i] == 0
      ensures ListsOk(ps[i := v], m, fl, cs)
    {
      FreelistSizesAscending();
      forall s, k | 0 <= s < NumSlots && 0 <= k < |cs[s]|
        ensures CellOk(ps[i := v], s, cs[s][k])
      {
        assert ListOk(ps, m, s, fl[s], cs[s]);
        assert CellOk(ps, s, cs[s][k]);
      }
      forall s | 0 <= s < NumSlots
        ensures ListOk(ps[i := v], m, s, fl[s], cs[s])
      {
        assert ListOk(ps, m, s, fl[s], cs[s]);
      }
    }

    /**
     * The body of get_chunk_freelist's page scan for an unused page i: the
     * page takes the slot's size class and its cells become the slot's list.
     */
    method ClaimPage(slot: nat, i: nat)
      requires Valid() && slot < NumSlots && freeList[slot] == 0
      requires i < numPages && pageSizes[i] == 0
      modifies this`mem, this`freeList, this`cells, this`pageSizes
      ensures Valid() && 0 < i
      ensures pageSizes == old(pageSizes)[i := FreelistSize(slot)]
      ensures freeList == old(freeList)[slot := PageStart(i)]
      ensures cells == old(cells)[slot := StrideFrom(PageStart(i), FreelistSize(slot), PageEnd(i))]
      ensures cells[slot] != []
      ensures MemKeptOutside(old(mem), mem, i)
    {
      var size := FreelistSize(slot);
      ListsOkClaim(pageSizes, mem, freeList, cells, i, size);
      ClaimClassed(pageSizes, i, size);
      pageSizes := pageSizes[i := size];
      BuildFreelist(slot, size, base + FreelistPageSize * i, base + FreelistPageSize * (i + 1), i);
    }

    /** The page scan of get_chunk_freelist: the first unused page, or num_pages when there is none. */
    method FindUnusedPage() returns (i: nat)
      requires |pageSizes| == numPages
      ensures FirstUnused(pageSizes) == if i < numPages then Some(i) else None
    {
      i := 0;
      while i < numPages && pageSizes[i] != 0
        invariant i <= numPages
        invariant forall j :: 0 <= j < i ==> pageSizes[j] != 0
      {
        i := i + 1;
      }
    }

    /**
     * get_chunk_freelist: pop the slot's list; when it is empty, give the
     * first unused page to the slot, build its list and pop that; with no
     * unused page the result is NULL and nothing changes.  A cell returned
     * is a cell of the slot that is no longer free.
     */
    method GetChunkFreelist(slot: nat) returns (p: nat)
      requires Valid() && slot < NumSlots
      modifies this`mem, this`freeList, this`cells, this`pageSizes
      ensures Valid()
      ensures p != 0 ==> CellOk(pageSizes, slot, p) && p !in cells[slot]
      ensures old(freeList[slot]) != 0 ==>
        && p == old(freeList[slot])
        && pageSizes == old(pageSizes) && mem == old(mem)
        && cells == old(cells)[slot := old(cells[slot])[1..]]
      ensures old(freeList[slot]) == 0 ==> match FirstUnused(old(pageSizes))
        case None =>
          && p == 0 && pageSizes == old(pageSizes) && mem == old(mem)
          && freeList == old(freeList) && cells == old(cells)
        case Some(i) =>
          && p == PageStart(i) && 0 < i
          && pageSizes == old(pageSizes)[i := FreelistSize(slot)]
          && cells == old(cells)[slot := StrideFrom(PageStart(i), FreelistSize(slot), PageEnd(i))[1..]]
          && MemKeptOutside(old(mem), mem, i)
      ensures freeList == old(freeList)[slot := Head(cells[slot])]
    {
      EmptyIffNull(slot);
      p := freeList[slot];
      if p != 0 {
        p := PopFree(slot);
        return;
      }
      var i := FindUnusedPage();
      if i < numPages {
        ClaimPage(slot, i);
        p := PopFree(slot);
      }
    }

    /**
     * alloc_pinned_chunk: a chunk of ChunkSize(size) bytes at chunkBase (the
     * page-aligned memory get_os_memory returned), its bookkeeping arrays
     * laid out after the chunk record, and page 0 given to the 32-byte class
     * with its list built from start_data.  The callers only ask for sizes a
     * size class holds.
     */
    constructor (chunkBase: nat, size: nat)
      requires 0 < chunkBase && chunkBase % FreelistPageSize == 0 && size <= MaxFreelistSize
      requires chunkBase + ChunkSize(size) < TwoTo64
      ensures Valid()
      ensures base == chunkBase && numPages == ChunkSize(size) / FreelistPageSize
      ensures startData == chunkBase + StartDataOffset(numPages)
      ensures pageSizes == [PinnedFirstSlotSize] + seq(numPages - 1, _ => 0)
      ensures freeList == seq(NumSlots, _ => 0)[PinnedFirstSlot := startData]
      ensures cells == seq(NumSlots, _ => [])[PinnedFirstSlot := StrideFrom(startData, PinnedFirstSlotSize, chunkBase + FreelistPageSize)]
      ensures MemKeptOutside(seq(numPages * WordsPerPage, _ => 0), mem, 0)
    {
      SmallChunk(size);
      base := chunkBase;
      numPages := ChunkSize(size) / FreelistPageSize;
      startData := chunkBase + StartDataOffset(ChunkSize(size) / FreelistPageSize);
      new;
      pageSizes := [PinnedFirstSlotSize] + seq(numPages - 1, _ => 0);
      freeList := seq(NumSlots, _ => 0);
      mem := seq(numPages * WordsPerPage, _ => 0);
      cells := seq(NumSlots, _ => []);
      InitialValid();
      BuildFreelist(PinnedFirstSlot, PinnedFirstSlotSize, startData, base + FreelistPageSize, 0);
    }

    /** The chunk alloc_pinned_chunk lays out, before page 0's list is built, is well formed. */
    lemma InitialValid()
      requires 0 < base && base % FreelistPageSize == 0 && numPages == 16 && startData == base + 296
      requires End() < TwoTo64
      requires pageSizes == [PinnedFirstSlotSize] + seq(numPages - 1, _ => 0)
      requires freeList == seq(NumSlots, _ => 0) && cells == seq(NumSlots, _ => [])
      requires mem == seq(numPages * WordsPerPage, _ => 0)
      ensures Valid() && FreelistSize(PinnedFirstSlot) == PinnedFirstSlotSize && pageSizes[0] == PinnedFirstSlotSize
      ensures freeList[PinnedFirstSlot] == 0 && PageStart(0) == startData && PageEnd(0) == base + FreelistPageSize
    {
      InitialShape();
      InitialPagesClassed(numPages - 1);
      EmptyListsOk(pageSizes, mem);
    }

    lemma InitialShape()
      requires 0 < base && base % FreelistPageSize == 0 && numPages == 16 && startData == base + 296
      requires End() < TwoTo64
      requires |pageSizes| == numPages && pageSizes[0] == PinnedFirstSlotSize
      requires |freeList| == NumSlots && |cells| == NumSlots && |mem| == numPages * WordsPerPage
      ensures Shape()
    {
      SmallChunk(0);
      PageAlignedWord(base);
      assert StartDataOffset(numPages) == 296;
      assert startData % 8 == 0 by {
        assert startData == 8 * (base / 8 + 37);
      }
    }

    /** With every list empty, all lists are well formed. */
    lemma EmptyListsOk(ps: seq<nat>, m: seq<Word>)
      ensures ListsOk(ps, m, seq(NumSlots, _ => 0), seq(NumSlots, _ => []))
    {
    }

    // ---------------------------------------------------------------- pinning and sweeping

    /** A first word that is neither NULL nor a link of a free list: the vtable of an object. */
    predicate NotLink(w: Word)
    {
      w != 0 && (w < startData || End() <= w)
    }

    /** The words of free cells are links, so a word that is not a link belongs to no free cell. */
    lemma NotLinkNotFree(ps: seq<nat>, m: seq<Word>, fl: seq<Word>, cs: seq<seq<nat>>, j: nat)
      requires Shape() && |ps| == numPages && ListsOk(ps, m, fl, cs) && j < |m| && NotLink(m[j])
      ensures forall s, k :: 0 <= s < NumSlots && 0 <= k < |cs[s]| ==> WordOf(cs[s][k]) != j
    {
      forall s, k | 0 <= s < NumSlots && 0 <= k < |cs[s]|
        ensures WordOf(cs[s][k]) != j
      {
        assert ListOk(ps, m, s, fl[s], cs[s]);
        if k + 1 < |cs[s]| {
          CellInChunk(ps, s, cs[s][k + 1]);
        }
      }
    }

    /** Writing a word that belongs to no free cell keeps every list. */
    lemma ListsOkWriteOther(ps: seq<nat>, m: seq<Word>, fl: seq<Word>, cs: seq<seq<nat>>, j: nat, v: Word)
      requires ListsOk(ps, m, fl, cs) && j < |m|
      requires forall s, k :: 0 <= s < NumSlots && 0 <= k < |cs[s]| ==> WordOf(cs[s][k]) != j
      ensures ListsOk(ps, m[j := v], fl, cs)
    {
      forall s | 0 <= s < NumSlots
        ensures ListOk(ps, m[j := v], s, fl[s], cs[s])
      {
        ListOkWrite(ps, m, s, fl[s], cs[s], j, v);
      }
    }

    /**
     * The cell mark_pinned_from_addresses takes an address of the chunk to:
     * the address rounded down to the grid of its page's size class, or
     * None when the page is unused.
     */
    function PinTarget(ps: seq<nat>, a: nat): (r: Option<nat>)
      requires |ps| == numPages && base <= startData <= a < End()
      requires startData <= base + FreelistPageSize
      ensures PageOf(a) < |ps| && PageStart(PageOf(a)) <= a
      ensures r.None? <==> ps[PageOf(a)] == 0
      ensures r.Some? ==>
        && PageStart(PageOf(a)) <= r.value <= a < r.value + ps[PageOf(a)]
        && OnGrid(r.value - PageStart(PageOf(a)), ps[PageOf(a)])
    {
      var page := PageOf(a);
      var slotSize := ps[page];
      if slotSize == 0 then None
      else
        var objOffset := if page == 0 then a - startData else (a - base) % FreelistPageSize;
        PageOffset(a - base);
        RoundDown(objOffset, slotSize);
        if page == 0 then Some(startData + objOffset / slotSize * slotSize)
        else Some(base + page * FreelistPageSize + objOffset / slotSize * slotSize)
    }

    /**
     * One address of mark_pinned_from_addresses: the word of its target
     * cell takes PINNED_BIT when it is an object's vtable, a non-NULL word
     * outside [start_data, end].  Nothing else changes.
     */
    function MarkOne(ps: seq<nat>, m: seq<Word>, a: nat): (r: seq<Word>)
      requires |ps| == numPages && base <= startData <= a < End() && startData <= base + FreelistPageSize
      requires End() - base <= 8 * |m|
      ensures |r| == |m|
      ensures forall j :: 0 <= j < |m| && r[j] != m[j] ==>
        && PinTarget(ps, a).Some? && j == WordOf(PinTarget(ps, a).value)
        && m[j] != 0 && (m[j] < startData || End() < m[j])
        && PinnedFlag(r[j]) && VtableOf(r[j]) == VtableOf(m[j])
      ensures PinTarget(ps, a).Some? ==> WordOf(PinTarget(ps, a).value) < |m|
      ensures (PinTarget(ps, a).Some? && m[WordOf(PinTarget(ps, a).value)] != 0 &&
               (m[WordOf(PinTarget(ps, a).value)] < startData || End() < m[WordOf(PinTarget(ps, a).value)])) ==>
        PinnedFlag(r[WordOf(PinTarget(ps, a).value)]) && VtableOf(r[WordOf(PinTarget(ps, a).value)]) == VtableOf(m[WordOf(PinTarget(ps, a).value)])
    {
      match PinTarget(ps, a)
      case None => m
      case Some(t) =>
        var w := m[WordOf(t)];
        if w != 0 && (w < startData || End() < w) then m[WordOf(t) := WithPinned(w)] else m
    }

    /** mark_pinned_from_addresses over a run of addresses, first to last. */
    function Marked(ps: seq<nat>, m: seq<Word>, addrs: seq<nat>): (r: seq<Word>)
      requires |ps| == numPages && base <= startData <= base + FreelistPageSize
      requires forall k :: 0 <= k < |addrs| ==> startData <= addrs[k] < End()
      requires End() - base <= 8 * |m|
      ensures |r| == |m|
      decreases |addrs|
    {
      if addrs == [] then m else Marked(ps, MarkOne(ps, m, addrs[0]), addrs[1..])
    }

    /** A word that carries PINNED_BIT keeps it through any run of marks. */
    lemma {:induction false} MarkedKeepsPinned(ps: seq<nat>, m: seq<Word>, addrs: seq<nat>, j: nat)
      requires |ps| == numPages && base <= startData <= base + FreelistPageSize
      requires forall k :: 0 <= k < |addrs| ==> startData <= addrs[k] < End()
      requires End() - base <= 8 * |m| && j < |m| && PinnedFlag(m[j])
      ensures PinnedFlag(Marked(ps, m, addrs)[j])
      decreases |addrs|
    {
      if addrs != [] {
        MarkedKeepsPinned(ps, MarkOne(ps, m, addrs[0]), addrs[1..], j);
      }
    }

    /**
     * mark_pinned_from_addresses pins every target: after a run of marks,
     * the word of the cell any of the addresses falls in carries PINNED_BIT
     * whenever that word was an object's vtable before the run.
     */
    lemma {:induction false} MarkedPins(ps: seq<nat>, m: seq<Word>, addrs: seq<nat>, k: nat)
      requires |ps| == numPages && base <= startData <= base + FreelistPageSize
      requires forall i :: 0 <= i < |addrs| ==> startData <= addrs[i] < End()
      requires End() - base <= 8 * |m| && k < |addrs| && PinTarget(ps, addrs[k]).Some?
      requires WordOf(PinTarget(ps, addrs[k]).value) < |m|
      requires m[WordOf(PinTarget(ps, addrs[k]).value)] != 0
      requires m[WordOf(PinTarget(ps, addrs[k]).value)] < startData || End() < m[WordOf(PinTarget(ps, addrs[k]).value)]
      ensures PinnedFlag(Marked(ps, m, addrs)[WordOf(PinTarget(ps, addrs[k]).value)])
      decreases |addrs|
    {
      var j := WordOf(PinTarget(ps, addrs[k]).value);
      var m1 := MarkOne(ps, m, addrs[0]);
      assert Marked(ps, m, addrs) == Marked(ps, m1, addrs[1..]);
      if k == 0 {
        MarkedKeepsPinned(ps, m1, addrs[1..], j);
      } else if m1[j] != m[j] {
        MarkedKeepsPinned(ps, m1, addrs[1..], j);
      } else {
        assert addrs[1..][k - 1] == addrs[k];
        MarkedPins(ps, m1, addrs[1..], k - 1);
      }
    }

    /**
     * And it pins nothing else: a word a run of marks changes is the word of
     * some address's target cell, was an object's vtable, and keeps that
     * vtable with PINNED_BIT set.
     */
    lemma {:induction false} MarkedOnlyTargets(ps: seq<nat>, m: seq<Word>, addrs: seq<nat>, j: nat)
      requires |ps| == numPages && base <= startData <= base + FreelistPageSize
      requires forall i :: 0 <= i < |addrs| ==> startData <= addrs[i] < End()
      requires End() - base <= 8 * |m| && j < |m| && Marked(ps, m, addrs)[j] != m[j]
      ensures exists k :: 0 <= k < |addrs| && PinTarget(ps, addrs[k]).Some? && j == WordOf(PinTarget(ps, addrs[k]).value)
      ensures m[j] != 0 && PinnedFlag(Marked(ps, m, addrs)[j]) && VtableOf(Marked(ps, m, addrs)[j]) == VtableOf(m[j])
      decreases |addrs|
    {
      var m1 := MarkOne(ps, m, addrs[0]);
      assert Marked(ps, m, addrs) == Marked(ps, m1, addrs[1..]);
      if m1[j] != m[j] {
        MarkedKeepsPinned(ps, m1, addrs[1..], j);
        if Marked(ps, m1, addrs[1..])[j] != m1[j] {
          MarkedOnlyTargets(ps, m1, addrs[1..], j);
        }
      } else {
        MarkedOnlyTargets(ps, m1, addrs[1..], j);
        var k :| 0 <= k < |addrs[1..]| && PinTarget(ps, addrs[1..][k]).Some? && j == WordOf(PinTarget(ps, addrs[1..][k]).value);
        assert addrs[1..][k] == addrs[k + 1];
      }
    }

    /** Marking never touches a free cell: every list survives. */
    lemma MarkOneKeepsLists(ps: seq<nat>, m: seq<Word>, fl: seq<Word>, cs: seq<seq<nat>>, a: nat)
      requires Shape() && |ps| == numPages && |m| == |mem| && ListsOk(ps, m, fl, cs) && startData <= a < End()
      ensures ListsOk(ps, MarkOne(ps, m, a), fl, cs)
    {
      var r := MarkOne(ps, m, a);
      if r != m {
        var t := PinTarget(ps, a).value;
        assert r == m[WordOf(t) := r[WordOf(t)]];
        NotLinkNotFree(ps, m, fl, cs, WordOf(t));
        ListsOkWriteOther(ps, m, fl, cs, WordOf(t), r[WordOf(t)]);
      }
    }

    /** The body of mark_pinned_from_addresses for one address. */
    method MarkAddress(a: nat)
      requires Valid() && startData <= a < End()
      modifies this`mem
      ensures Valid()
      ensures mem == MarkOne(pageSizes, old(mem), a)
    {
      match PinTarget(pageSizes, a) {
        case None =>
        case Some(addr) =>
          var w := mem[WordOf(addr)];
          if w != 0 && (w < startData || w > End()) {
            MarkOneKeepsLists(pageSizes, mem, freeList, cells, a);
            mem := mem[WordOf(addr) := WithPinned(w)];
          }
      }
    }

    /**
     * mark_pinned_from_addresses: every address, of the pinned addresses
     * found in [start_data, end) of the chunk, pins the object of the cell it
     * falls in.  The free lists are untouched.
     */
    method MarkPinnedFromAddresses(addrs: seq<nat>)
      requires Valid() && forall k :: 0 <= k < |addrs| ==> startData <= addrs[k] < End()
      modifies this`mem
      ensures Valid()
      ensures mem == Marked(pageSizes, old(mem), addrs)
    {
      var k := 0;
      while k < |addrs|
        invariant k <= |addrs| && Valid()
        invariant Marked(pageSizes, mem, addrs[k..]) == Marked(pageSizes, old(mem), addrs)
      {
        MarkAddress(addrs[k]);
        assert addrs[k..][1..] == addrs[k + 1..];
        k := k + 1;
      }
    }

    /** The test of scan_pinned_objects: a non-NULL first word outside the chunk is an object's vtable. */
    predicate ScanLive(w: Word)
    {
      w != 0 && (w < base || End() <= w)
    }

    /** Every page size is 0 or a size class. */
    lemma PageSizesBounded()
      requires Valid()
      ensures forall j :: 0 <= j < numPages ==> pageSizes[j] <= MaxFreelistSize
    {
      forall j | 0 <= j < numPages
        ensures pageSizes[j] <= MaxFreelistSize
      {
        if pageSizes[j] != 0 {
          PageClass(pageSizes, j);
          SizeClassSlot(pageSizes[j]);
        }
      }
    }

    /**
     * sweep_pinned_objects_callback on cell p of a page of class `size`, run
     * when the cell's word is an object's vtable: a pinned object is unpinned,
     * any other is freed onto the list of its slot.
     */
    ghost function SweepCell(ps: seq<nat>, st: FreeState, p: nat, size: nat): (r: FreeState)
      requires base <= p < TwoTo64 && WordOf(p) < |st.mem| && |st.fl| == NumSlots && |st.cs| == NumSlots
      requires 0 < size <= MaxFreelistSize
      ensures |r.mem| == |st.mem| && |r.fl| == NumSlots && |r.cs| == NumSlots
    {
      var w := st.mem[WordOf(p)];
      if !ScanLive(w) then st
      else if PinnedFlag(w) then st.(mem := st.mem[WordOf(p) := WithoutPinned(w)])
      else
        var s := SlotForSize(size).value;
        FreeState(st.mem[WordOf(p) := st.fl[s]], st.fl[s := p], st.cs[s := [p] + st.cs[s]])
    }

    /** The scan of one page by scan_pinned_objects from cell p to the page end. */
    ghost function SweepPage(ps: seq<nat>, st: FreeState, p: nat, size: nat, endp: nat): (r: FreeState)
      requires base <= p && endp <= End() < TwoTo64 && End() - base <= 8 * |st.mem|
      requires |st.fl| == NumSlots && |st.cs| == NumSlots && 0 < size <= MaxFreelistSize
      ensures |r.mem| == |st.mem| && |r.fl| == NumSlots && |r.cs| == NumSlots
      decreases endp - p
    {
      if p + size <= endp then SweepPage(ps, SweepCell(ps, st, p, size), p + size, size, endp) else st
    }

    /** sweep_pinned_objects on this chunk, from page i on. */
    ghost function SweepPages(ps: seq<nat>, st: FreeState, i: nat): (r: FreeState)
      requires |ps| == numPages && forall j :: 0 <= j < |ps| ==> ps[j] <= MaxFreelistSize
      requires base <= startData <= base + FreelistPageSize && End() < TwoTo64 && End() - base <= 8 * |st.mem|
      requires |st.fl| == NumSlots && |st.cs| == NumSlots
      ensures |r.mem| == |st.mem| && |r.fl| == NumSlots && |r.cs| == NumSlots
      decreases numPages - i
    {
      if i >= numPages then st
      else if ps[i] == 0 then SweepPages(ps, st, i + 1)
      else SweepPages(ps, SweepPage(ps, st, PageStart(i), ps[i], PageEnd(i)), i + 1)
    }

    /** A grid point of a page of the slot's class whose cell fits in the page is a cell of the slot. */
    lemma GridCellOk(ps: seq<nat>, slot: nat, page: nat, p: nat)
      requires slot < NumSlots && page < |ps| && ps[page] == FreelistSize(slot) && FreelistSize(slot) % 8 == 0
      requires base % 8 == 0 && PageStart(page) % 8 == 0 && base + FreelistPageSize * page <= PageStart(page)
      requires PageStart(page) <= p && p + FreelistSize(slot) <= PageEnd(page)
      requires OnGrid(p - PageStart(page), FreelistSize(slot))
      ensures CellOk(ps, slot, p)
    {
      OnGridAligned(p - PageStart(page), FreelistSize(slot));
      InPage(page, p);
    }

    /** The test of scan_pinned_objects on cell p, and the sweep callback when it passes. */
    method SweepObject(p: nat, size: nat, ghost slot: nat)
      requires Valid() && slot < NumSlots && FreelistSize(slot) == size && CellOk(pageSizes, slot, p)
      modifies this`mem, this`freeList, this`cells
      ensures Valid()
      ensures 0 < size <= MaxFreelistSize && p < TwoTo64 && WordOf(p) < |old(mem)|
      ensures FreeState(mem, freeList, cells) == SweepCell(pageSizes, FreeState(old(mem), old(freeList), old(cells)), p, size)
    {
      CellInChunk(pageSizes, slot, p);
      SlotOfClass(slot);
      var w := mem[WordOf(p)];
      if w != 0 && (w < base || w >= base + numPages * FreelistPageSize) {
        NotLinkNotFree(pageSizes, mem, freeList, cells, WordOf(p));
        if PinnedFlag(w) {
          ListsOkWriteOther(pageSizes, mem, freeList, cells, WordOf(p), WithoutPinned(w));
          mem := mem[WordOf(p) := WithoutPinned(w)];
        } else {
          assert p !in cells[slot] by {
            forall k | 0 <= k < |cells[slot]|
              ensures cells[slot][k] != p
            {
              assert WordOf(cells[slot][k]) != WordOf(p);
            }
          }
          FreePinnedObject(p, size);
        }
      }
    }

    /** The scan of page i by scan_pinned_objects with the sweep callback. */
    method SweepPageObjects(i: nat)
      requires Valid() && i < numPages && pageSizes[i] != 0
      modifies this`mem, this`freeList, this`cells
      ensures Valid()
      ensures 0 < pageSizes[i] <= MaxFreelistSize && End() < TwoTo64 && End() - base <= 8 * |old(mem)|
      ensures FreeState(mem, freeList, cells)
        == SweepPage(pageSizes, FreeState(old(mem), old(freeList), old(cells)), PageStart(i), pageSizes[i], PageEnd(i))
    {
      var objSize := pageSizes[i];
      ghost var slot := ScanStart(i);
      var p := PageStart(i);
      var endp := PageEnd(i);
      ghost var goal := SweepPage(pageSizes, FreeState(mem, freeList, cells), p, objSize, endp);
      while p + objSize <= endp
        invariant Scanning(i, p, objSize, endp, slot)
        invariant SweepPage(pageSizes, FreeState(mem, freeList, cells), p, objSize, endp) == goal
        decreases endp - p
      {
        p := SweepStep(i, p, objSize, endp, slot, goal);
      }
      ScanDone(i, p, objSize, endp, slot);
    }

    /** Past the last whole cell the page scan changes nothing. */
    lemma ScanDone(i: nat, p: nat, objSize: nat, endp: nat, slot: nat)
      requires Scanning(i, p, objSize, endp, slot) && endp < p + objSize
      ensures SweepPage(pageSizes, FreeState(mem, freeList, cells), p, objSize, endp) == FreeState(mem, freeList, cells)
    {
    }

    /** The scan of a used page i starts at its first cell, in the state Scanning describes. */
    lemma ScanStart(i: nat) returns (slot: nat)
      requires Valid() && i < numPages && pageSizes[i] != 0
      ensures Scanning(i, PageStart(i), pageSizes[i], PageEnd(i), slot)
    {
      PageClass(pageSizes, i);
      slot := ClassIndex(pageSizes[i]);
    }

    /** The page scan at cell p of page i, whose cells are of the class of `slot`. */
    ghost predicate Scanning(i: nat, p: nat, objSize: nat, endp: nat, slot: nat)
      reads this
    {
      && Valid() && i < numPages && slot < NumSlots && FreelistSize(slot) == objSize && pageSizes[i] == objSize
      && 0 < objSize <= MaxFreelistSize && objSize % 8 == 0
      && PageStart(i) <= p <= endp && OnGrid(p - PageStart(i), objSize) && endp == PageEnd(i) <= End()
    }

    /** One iteration of the page scan: the sweep of cell p, after which the scan goes on at the next cell. */
    method SweepStep(i: nat, p: nat, objSize: nat, endp: nat, ghost slot: nat, ghost goal: FreeState) returns (next: nat)
      requires Scanning(i, p, objSize, endp, slot) && p + objSize <= endp
      requires SweepPage(pageSizes, FreeState(mem, freeList, cells), p, objSize, endp) == goal
      modifies this`mem, this`freeList, this`cells
      ensures next == p + objSize && endp - next < endp - p
      ensures Scanning(i, next, objSize, endp, slot)
      ensures SweepPage(pageSizes, FreeState(mem, freeList, cells), next, objSize, endp) == goal
    {
      next := p + objSize;
      StepFacts(i, p, objSize, endp, slot, next);
      SweepObject(p, objSize, slot);
    }

    /** Cell p is a cell of the slot, the next grid point is next, and the page scan from p is the sweep of p then the scan from next. */
    lemma StepFacts(i: nat, p: nat, objSize: nat, endp: nat, slot: nat, next: nat)
      requires Scanning(i, p, objSize, endp, slot) && next == p + objSize <= endp
      ensures CellOk(pageSizes, slot, p) && OnGrid(next - PageStart(i), objSize)
      ensures SweepPage(pageSizes, FreeState(mem, freeList, cells), p, objSize, endp)
        == SweepPage(pageSizes, SweepCell(pageSizes, FreeState(mem, freeList, cells), p, objSize), next, objSize, endp)
    {
      GridStep(i, p, objSize, endp, slot, next);
      assert WordOf(p) < |mem|;
      SweepPageUnfold(pageSizes, FreeState(mem, freeList, cells), p, objSize, endp);
    }

    /** A page scan with room for cell p sweeps p, then goes on from the next cell. */
    lemma SweepPageUnfold(ps: seq<nat>, st: FreeState, p: nat, size: nat, endp: nat)
      requires base <= p && endp <= End() < TwoTo64 && End() - base <= 8 * |st.mem|
      requires |st.fl| == NumSlots && |st.cs| == NumSlots && 0 < size <= MaxFreelistSize
      requires p + size <= endp && WordOf(p) < |st.mem|
      ensures SweepPage(ps, st, p, size, endp) == SweepPage(ps, SweepCell(ps, st, p, size), p + size, size, endp)
    {
    }

    /** Cell p is a cell of the slot, and the next grid point is next. */
    lemma GridStep(i: nat, p: nat, objSize: nat, endp: nat, slot: nat, next: nat)
      requires Scanning(i, p, objSize, endp, slot) && next == p + objSize <= endp
      ensures CellOk(pageSizes, slot, p) && OnGrid(next - PageStart(i), objSize)
    {
      PageStartAligned(i);
      GridCellOk(pageSizes, slot, i, p);
      assert OnGrid(next - PageStart(i), objSize);
    }

    /**
     * sweep_pinned_objects on this chunk: every object of every used page
     * is unpinned when pinned and freed otherwise.  The lists stay well formed.
     */
    method SweepChunk()
      requires Valid()
      modifies this`mem, this`freeList, this`cells
      ensures Valid()
      ensures forall j :: 0 <= j < numPages ==> pageSizes[j] <= MaxFreelistSize
      ensures base <= startData <= base + FreelistPageSize && End() < TwoTo64 && End() - base <= 8 * |old(mem)|
      ensures FreeState(mem, freeList, cells) == SweepPages(pageSizes, FreeState(old(mem), old(freeList), old(cells)), 0)
    {
      PageSizesBounded();
      ghost var st0 := FreeState(mem, freeList, cells);
      var i := 0;
      while i < numPages
        invariant i <= numPages && Valid()
        invariant SweepPages(pageSizes, FreeState(mem, freeList, cells), i) == SweepPages(pageSizes, st0, 0)
      {
        ghost var before := FreeState(mem, freeList, cells);
        if pageSizes[i] != 0 {
          assert SweepPages(pageSizes, before, i)
            == SweepPages(pageSizes, SweepPage(pageSizes, before, PageStart(i), pageSizes[i], PageEnd(i)), i + 1);
          SweepPageObjects(i);
        } else {
          assert SweepPages(pageSizes, before, i) == SweepPages(pageSizes, before, i + 1);
        }
        i := i + 1;
      }
    }
  }
}
