/**
 * The object header of the sgen collector and the copying step of a nursery
 * collection (sgen-gc.c).
 *
 * The first word of every object holds its vtable pointer.  Vtables are at
 * least 4-aligned, so the collector keeps two flags in the low bits of that
 * word: FORWARDED_BIT (bit 0), set once the object has been copied, the second
 * word then holding the address of the copy; and PINNED_BIT (bit 1), set on
 * objects that must not move.
 *
 * The heap maps addresses to 64-bit words: word i of the sequence `mem` is the
 * word at byte address 8i, so every object address is a multiple of 8
 * (ALLOC_ALIGN) and address 0 is NULL.
 */
module GcHeap {
  import opened GcDescriptors

  const ForwardedBit: nat := 1
  const PinnedBit: nat := 2
  const VtableBitsMask: nat := 3

  /** DEFAULT_NURSERY_BITS: the nursery is 2^20 bytes, aligned to its size. */
  const NurseryBits: nat := 20
  const NurserySize: nat := 0x10_0000
  /** SCAN_START_SIZE: one scan start per 8 KiB of a section. */
  const ScanStartSize: nat := 4096 * 2

  // ------------------------------------------------------------------ header word

  predicate ForwardedFlag(w: Word) { w % 2 == 1 }
  predicate PinnedFlag(w: Word) { (w / 2) % 2 == 1 }

  /** LOAD_VTABLE: the header word with the two flag bits cleared. */
  function VtableOf(w: Word): (r: Word)
    ensures r % 4 == 0 && r <= w < r + 4
  {
    w - w % 4
  }

  /** `word |= FORWARDED_BIT` */
  function WithForwarded(w: Word): (r: Word)
    ensures ForwardedFlag(r)
    ensures PinnedFlag(r) == PinnedFlag(w) && VtableOf(r) == VtableOf(w)
  {
    if w % 2 == 1 then w else w + 1
  }

  /** `word |= PINNED_BIT` */
  function WithPinned(w: Word): (r: Word)
    ensures PinnedFlag(r)
    ensures ForwardedFlag(r) == ForwardedFlag(w) && VtableOf(r) == VtableOf(w)
  {
    if (w / 2) % 2 == 1 then w
    else
      assert w % 4 < 2;
      w + 2
  }

  /** `word &= ~PINNED_BIT` */
  function WithoutPinned(w: Word): (r: Word)
    ensures !PinnedFlag(r)
    ensures ForwardedFlag(r) == ForwardedFlag(w) && VtableOf(r) == VtableOf(w)
  {
    if (w / 2) % 2 == 1 then w - 2 else w
  }

  /** Pinning and unpinning an object that was not pinned restores its header. */
  lemma UnpinUndoesPin(w: Word)
    requires !PinnedFlag(w)
    ensures WithoutPinned(WithPinned(w)) == w
  {
  }

  // ------------------------------------------------------------------ addresses

  /**
   * ptr_in_nursery with ALIGN_NURSERY: the address with its low
   * DEFAULT_NURSERY_BITS cleared is nursery_start.
   */
  predicate PtrInNursery(ptr: nat, nurseryStart: nat)
  {
    ptr / NurserySize * NurserySize == nurseryStart
  }

  /** With an aligned nursery, the mask test is a range test. */
  lemma PtrInNurseryIsRange(ptr: nat, nurseryStart: nat)
    requires nurseryStart % NurserySize == 0
    ensures PtrInNursery(ptr, nurseryStart) <==> nurseryStart <= ptr < nurseryStart + NurserySize
  {
  }

  /** A pinned chunk of the free-list allocator: objects in [startData, end). */
  datatype ChunkSpan = ChunkSpan(startData: nat, end: nat)

  predicate InSomeChunk(chunks: seq<ChunkSpan>, p: nat)
  {
    exists i :: 0 <= i < |chunks| && chunks[i].startData <= p < chunks[i].end
  }

  /**
   * obj_is_from_pinned_alloc: a walk of the pinned chunk list, seen as the
   * spans of the chunks (GcPinnedAlloc.Spans); it agrees with
   * GcPinnedAlloc.ObjIsFromPinnedAlloc on the chunks themselves.
   */
  method ObjIsFromPinnedAlloc(chunks: seq<ChunkSpan>, p: nat) returns (r: bool)
    ensures r <==> InSomeChunk(chunks, p)
  {
    var i := 0;
    while i < |chunks|
      invariant i <= |chunks|
      invariant forall j :: 0 <= j < i ==> !(chunks[j].startData <= p < chunks[j].end)
    {
      if chunks[i].startData <= p < chunks[i].end {
        return true;
      }
      i := i + 1;
    }
    return false;
  }

  // ------------------------------------------------------------------ the heap

  /** Word i is the word at address 8i. */
  type Heap = seq<Word>

  /** The heap lies in the 64-bit address space. */
  predicate WellFormed(mem: Heap)
  {
    8 * |mem| <= TwoTo64
  }

  /** The n words from the 8-aligned address a lie in the heap. */
  predicate Mapped(mem: Heap, a: nat, n: nat)
  {
    a % 8 == 0 && a / 8 + n <= |mem|
  }

  /** The k-th word of the object at a. */
  function At(mem: Heap, a: nat, k: nat): Word
    requires Mapped(mem, a, k + 1)
  {
    mem[a / 8 + k]
  }

  /** The words of [a, a + 8n). */
  function Load(mem: Heap, a: nat, n: nat): seq<Word>
    requires Mapped(mem, a, n)
  {
    mem[a / 8 .. a / 8 + n]
  }

  /** Every object occupies at least one byte, so walks over the heap move forward. */
  ghost predicate PositiveSizes(size: (Heap, nat) -> nat)
  {
    forall m: Heap, o: nat :: size(m, o) > 0
  }

  /**
   * What moving n words from obj to dest needs: both ranges are mapped and do
   * not overlap, the object has at least its two header words, and an array
   * (a class of non-zero rank) has its bounds word.
   */
  predicate Evacuable(m: Heap, obj: nat, dest: nat, n: nat, rank: nat)
  {
    Mapped(m, obj, n) && Mapped(m, dest, n) && n >= ObjectHeaderWords
    && (rank != 0 ==> n >= 3)
    && (obj + 8 * n <= dest || dest + 8 * n <= obj)
  }

  /** memcpy of n words from src to dst, reading the words as they were. */
  function CopiedHeap(m: Heap, src: nat, dst: nat, n: nat): (r: Heap)
    requires Mapped(m, src, n) && Mapped(m, dst, n)
    ensures |r| == |m|
  {
    seq(|m|, i requires 0 <= i < |m| =>
      if dst / 8 <= i < dst / 8 + n then m[src / 8 + (i - dst / 8)] else m[i])
  }

  /** Read back, the destination words are the source words. */
  lemma CopiedLoad(m: Heap, src: nat, dst: nat, n: nat)
    requires Mapped(m, src, n) && Mapped(m, dst, n)
    ensures Load(CopiedHeap(m, src, dst, n), dst, n) == Load(m, src, n)
  {
  }

  /** `array->bounds` of the copy at dest rebased onto dest, when the class has a rank. */
  function RebasedHeap(m: Heap, obj: nat, dest: nat, rank: nat): (r: Heap)
    requires rank != 0 ==> Mapped(m, obj, 3) && Mapped(m, dest, 3)
    ensures |r| == |m|
  {
    if rank != 0 && At(m, obj, 2) != 0 then m[dest / 8 + 2 := (dest + At(m, obj, 2) - obj) % TwoTo64]
    else m
  }

  /** forward_object: set FORWARDED_BIT and store the new address in the second word. */
  function ForwardedHeap(m: Heap, obj: nat, fw: Word): (r: Heap)
    requires Mapped(m, obj, 2)
    ensures |r| == |m|
  {
    m[obj / 8 := WithForwarded(m[obj / 8])][obj / 8 + 1 := fw]
  }

  /** The heap after the moving case of copy_object moved obj to dest. */
  function Evacuated(m: Heap, obj: nat, dest: Word, n: nat, rank: nat): (r: Heap)
    requires Evacuable(m, obj, dest, n, rank)
    ensures |r| == |m|
  {
    ForwardedHeap(RebasedHeap(CopiedHeap(m, obj, dest, n), obj, dest, rank), obj, dest)
  }

  /**
   * The words of the copy of an object whose words were `orig`: an array with
   * bounds (rank non-zero, third word non-NULL) gets `array->bounds` rebased
   * from obj onto dest, in 64-bit address arithmetic.
   */
  function Relocated(orig: seq<Word>, obj: nat, dest: nat, rank: nat): (r: seq<Word>)
    ensures |r| == |orig|
    ensures forall k :: 0 <= k < |orig| && k != 2 ==> r[k] == orig[k]
    ensures rank != 0 && |orig| >= 3 && orig[2] != 0 ==>
      (r[2] + obj) % TwoTo64 == (orig[2] + dest) % TwoTo64
    ensures !(rank != 0 && |orig| >= 3 && orig[2] != 0) ==> r == orig
  {
    if rank != 0 && |orig| >= 3 && orig[2] != 0 then orig[2 := (dest + orig[2] - obj) % TwoTo64]
    else orig
  }

  /** The copy holds the object's words, with the array bounds rebased. */
  lemma EvacuatedCopy(m: Heap, obj: nat, dest: Word, n: nat, rank: nat)
    requires Evacuable(m, obj, dest, n, rank)
    ensures Load(Evacuated(m, obj, dest, n, rank), dest, n) == Relocated(Load(m, obj, n), obj, dest, rank)
  {
    var c := CopiedHeap(m, obj, dest, n);
    RebasedLoad(m, c, obj, dest, n, rank);
    ForwardedLoad(RebasedHeap(c, obj, dest, rank), obj, dest, n, dest);
  }

  lemma RebasedLoad(m: Heap, c: Heap, obj: nat, dest: Word, n: nat, rank: nat)
    requires Evacuable(m, obj, dest, n, rank) && c == CopiedHeap(m, obj, dest, n)
    ensures Load(RebasedHeap(c, obj, dest, rank), dest, n) == Relocated(Load(m, obj, n), obj, dest, rank)
  {
    CopiedLoad(m, obj, dest, n);
    if rank != 0 && At(c, obj, 2) != 0 {
      assert At(c, obj, 2) == Load(m, obj, n)[2];
    }
  }

  lemma ForwardedLoad(b: Heap, obj: nat, dest: nat, n: nat, fw: Word)
    requires Mapped(b, obj, 2) && Mapped(b, dest, n) && (obj + 16 <= dest || dest + 8 * n <= obj)
    ensures Load(ForwardedHeap(b, obj, fw), dest, n) == Load(b, dest, n)
  {
  }

  /** The old object is forwarded to the copy. */
  lemma EvacuatedHeader(m: Heap, obj: nat, dest: Word, n: nat, rank: nat)
    requires Evacuable(m, obj, dest, n, rank)
    ensures At(Evacuated(m, obj, dest, n, rank), obj, 0) == WithForwarded(At(m, obj, 0))
    ensures At(Evacuated(m, obj, dest, n, rank), obj, 1) == dest
  {
  }

  /** No word outside the copy and the old object's header changes. */
  lemma EvacuatedFrame(m: Heap, obj: nat, dest: Word, n: nat, rank: nat)
    requires Evacuable(m, obj, dest, n, rank)
    ensures forall i :: 0 <= i < |m| && !(dest / 8 <= i < dest / 8 + n) && i != obj / 8 && i != obj / 8 + 1 ==>
      Evacuated(m, obj, dest, n, rank)[i] == m[i]
  {
  }

  // ------------------------------------------------------------------ the collector

  /**
   * The state copy_object reads and writes: the heap, the to-space bump pointer
   * gray_objects, the bounds of to-space and the scan starts of its section,
   * and the pinned chunks.  The size of an object (safe_object_get_size) and the
   * rank of a vtable's class are queries into the runtime and stay abstract.
   */
  class Collector {
    var mem: Heap
    var grayObjects: nat
    var toSpace: nat
    var toSpaceEnd: nat
    var sectionData: nat            // to_space_section->data
    var scanStarts: seq<nat>        // to_space_section->scan_starts
    var pinnedChunks: seq<ChunkSpan>
    var minPinnedChunkAddr: nat
    var maxPinnedChunkAddr: nat
    const objectSize: (Heap, nat) -> nat
    const rankOf: Word -> nat

    constructor (objectSize: (Heap, nat) -> nat, rankOf: Word -> nat)
      ensures this.objectSize == objectSize && this.rankOf == rankOf
      ensures mem == [] && grayObjects == 0 && scanStarts == [] && pinnedChunks == []
    {
      this.objectSize := objectSize;
      this.rankOf := rankOf;
      mem := [];
      grayObjects := 0;
      toSpace := 0;
      toSpaceEnd := 0;
      sectionData := 0;
      scanStarts := [];
      pinnedChunks := [];
      minPinnedChunkAddr := 0;
      maxPinnedChunkAddr := 0;
    }

    predicate HeaderMapped(obj: nat)
      reads this
    {
      Mapped(mem, obj, 2)
    }

    /** object_is_forwarded: the second word when FORWARDED_BIT is set, else NULL. */
    function ForwardingOf(obj: nat): (r: Word)
      requires HeaderMapped(obj)
      reads this
      ensures !ForwardedFlag(At(mem, obj, 0)) ==> r == 0
    {
      if ForwardedFlag(At(mem, obj, 0)) then At(mem, obj, 1) else 0
    }

    predicate IsPinned(obj: nat)
      requires Mapped(mem, obj, 1)
      reads this
    {
      PinnedFlag(At(mem, obj, 0))
    }

    /** forward_object */
    method ForwardObject(obj: nat, fw: Word)
      requires HeaderMapped(obj)
      modifies this`mem
      ensures mem == ForwardedHeap(old(mem), obj, fw)
      ensures ForwardingOf(obj) == fw
    {
      mem := mem[obj / 8 := WithForwarded(mem[obj / 8])];
      mem := mem[obj / 8 + 1 := fw];
    }

    /** pin_object */
    method PinObject(obj: nat)
      requires Mapped(mem, obj, 1)
      modifies this`mem
      ensures mem == old(mem)[obj / 8 := WithPinned(old(At(mem, obj, 0)))]
      ensures IsPinned(obj) && VtableOf(At(mem, obj, 0)) == old(VtableOf(At(mem, obj, 0)))
    {
      mem := mem[obj / 8 := WithPinned(mem[obj / 8])];
    }

    /** unpin_object */
    method UnpinObject(obj: nat)
      requires Mapped(mem, obj, 1)
      modifies this`mem
      ensures mem == old(mem)[obj / 8 := WithoutPinned(old(At(mem, obj, 0)))]
      ensures !IsPinned(obj) && VtableOf(At(mem, obj, 0)) == old(VtableOf(At(mem, obj, 0)))
    {
      mem := mem[obj / 8 := WithoutPinned(mem[obj / 8])];
    }

    /** The address lies in from-space and outside to-space. */
    predicate InCopyRange(obj: nat, fromStart: nat, fromEnd: nat)
      reads this
    {
      fromStart <= obj < fromEnd && (obj < toSpace || obj >= toSpaceEnd)
    }

    /** objsize, rounded up to ALLOC_ALIGN. */
    function MovedSize(obj: nat): (r: nat)
      reads this
      ensures r % 8 == 0 && objectSize(mem, obj) <= r
    {
      AlignedSize(objectSize(mem, obj))
    }

    /** vt->rank of the object's class. */
    function RankOf(obj: nat): nat
      requires Mapped(mem, obj, 1)
      reads this
    {
      rankOf(VtableOf(At(mem, obj, 0)))
    }

    /** The object stays where it is: a large object, or one in a pinned chunk. */
    predicate StaysInPlace(obj: nat)
      reads this
    {
      MovedSize(obj) >= MaxSmallObjSize
      || (minPinnedChunkAddr <= obj < maxPinnedChunkAddr && InSomeChunk(pinnedChunks, obj))
    }

    /** copy_object will copy obj into to-space. */
    predicate WillMove(obj: nat, fromStart: nat, fromEnd: nat)
      requires HeaderMapped(obj)
      reads this
    {
      InCopyRange(obj, fromStart, fromEnd) && ForwardingOf(obj) == 0
      && !IsPinned(obj) && !StaysInPlace(obj)
    }

    /**
     * What copying obj needs: the object can be moved to gray_objects, which
     * is not NULL, and the scan start of gray_objects exists.
     */
    predicate CanMove(obj: nat)
      requires Mapped(mem, obj, 1)
      reads this
    {
      Evacuable(mem, obj, grayObjects, MovedSize(obj) / 8, RankOf(obj))
      && grayObjects != 0
      && sectionData <= grayObjects
      && (grayObjects - sectionData) / ScanStartSize < |scanStarts|
    }

    /**
     * After copy_object returned r for obj, a further call returns r again and
     * changes nothing.
     */
    predicate Settled(obj: nat, r: nat, fromStart: nat, fromEnd: nat)
      requires HeaderMapped(obj)
      reads this
    {
      if !InCopyRange(obj, fromStart, fromEnd) then r == obj
      else if ForwardingOf(obj) != 0 then ForwardingOf(obj) == r
      else IsPinned(obj) && r == obj
    }

    /** memcpy of n words from src to dst, which do not overlap. */
    /** Copy n words of obj to dest, rebase the bounds of an array and forward obj to dest. */
    method MoveObject(obj: nat, dest: Word, n: nat, rank: nat)
      requires Evacuable(mem, obj, dest, n, rank)
      modifies this`mem
      ensures mem == Evacuated(old(mem), obj, dest, n, rank)
    {
      CopyWords(obj, dest, n);
      RebaseBounds(obj, dest, rank);
      ForwardObject(obj, dest);
    }

    /** The copy of an array with bounds gets `array->bounds` moved along with it. */
    method RebaseBounds(obj: nat, dest: nat, rank: nat)
      requires rank != 0 ==> Mapped(mem, obj, 3) && Mapped(mem, dest, 3)
      modifies this`mem
      ensures mem == RebasedHeap(old(mem), obj, dest, rank)
    {
      if rank != 0 && At(mem, obj, 2) != 0 {
        mem := mem[dest / 8 + 2 := (dest + At(mem, obj, 2) - obj) % TwoTo64];
      }
    }

    method CopyWords(src: nat, dst: nat, n: nat)
      requires Mapped(mem, src, n) && Mapped(mem, dst, n)
      requires src + 8 * n <= dst || dst + 8 * n <= src
      modifies this`mem
      ensures mem == CopiedHeap(old(mem), src, dst, n)
    {
      ghost var m0 := mem;
      var s, d := src / 8, dst / 8;
      assert s + n <= d || d + n <= s;
      var k := 0;
      while k < n
        invariant k <= n && |mem| == |m0| && s + n <= |m0| && d + n <= |m0|
        invariant s + n <= d || d + n <= s
        invariant forall i {:trigger mem[i]} :: 0 <= i < |mem| ==>
          mem[i] == (if d <= i < d + k then m0[s + (i - d)] else m0[i])
      {
        mem := mem[d + k := mem[s + k]];
        k := k + 1;
      }
      ghost var c := CopiedHeap(m0, src, dst, n);
      assert forall i :: 0 <= i < |mem| ==> mem[i] == c[i];
    }

    /**
     * The moving case of copy_object: copy the object's words to gray_objects,
     * rebase the bounds of an array, forward the old copy, record the scan
     * start and advance gray_objects.
     */
    method Evacuate(obj: nat) returns (r: nat)
      requires WellFormed(mem) && HeaderMapped(obj) && CanMove(obj)
      modifies this`mem, this`grayObjects, this`scanStarts
      ensures r == old(grayObjects) && r != 0 && r < TwoTo64 && grayObjects == r + old(MovedSize(obj))
      ensures mem == Evacuated(old(mem), obj, r, old(MovedSize(obj)) / 8, old(RankOf(obj)))
      ensures scanStarts == old(scanStarts)[(r - sectionData) / ScanStartSize := r]
    {
      var objsize := MovedSize(obj);
      var n := objsize / 8;
      var dest := grayObjects;
      var rank := RankOf(obj);
      MoveObject(obj, dest, n, rank);
      scanStarts := scanStarts[(dest - sectionData) / ScanStartSize := dest];
      grayObjects := grayObjects + objsize;
      r := dest;
    }

    /**
     * copy_object: evacuate obj out of from-space.  Objects outside the
     * collected range are left alone, a forwarded object yields its copy, a
     * pinned object stays, a large or pinned-chunk object is pinned in place,
     * and any other object is copied to gray_objects (see EvacuatedCopy),
     * which advances by the aligned object size.
     */
    method CopyObject(obj: nat, fromStart: nat, fromEnd: nat) returns (r: nat)
      requires WellFormed(mem)
      requires InCopyRange(obj, fromStart, fromEnd) ==> HeaderMapped(obj)
      requires InCopyRange(obj, fromStart, fromEnd) && WillMove(obj, fromStart, fromEnd) ==> CanMove(obj)
      modifies this`mem, this`grayObjects, this`scanStarts
      ensures |mem| == old(|mem|)
      ensures !InCopyRange(obj, fromStart, fromEnd) ==> r == obj && mem == old(mem)
      ensures InCopyRange(obj, fromStart, fromEnd) ==> HeaderMapped(obj) && Settled(obj, r, fromStart, fromEnd)
      ensures InCopyRange(obj, fromStart, fromEnd) && old(ForwardingOf(obj)) != 0 ==>
        r == old(ForwardingOf(obj)) && mem == old(mem)
      ensures InCopyRange(obj, fromStart, fromEnd) && old(ForwardingOf(obj)) == 0 && old(IsPinned(obj)) ==>
        r == obj && mem == old(mem)
      ensures (InCopyRange(obj, fromStart, fromEnd) && old(ForwardingOf(obj)) == 0 && !old(IsPinned(obj))
               && old(StaysInPlace(obj))) ==>
        r == obj && mem == old(mem)[obj / 8 := WithPinned(old(At(mem, obj, 0)))]
      ensures InCopyRange(obj, fromStart, fromEnd) && old(WillMove(obj, fromStart, fromEnd)) ==>
        old(CanMove(obj)) && r == old(grayObjects) && grayObjects == r + old(MovedSize(obj))
        && mem == Evacuated(old(mem), obj, r, old(MovedSize(obj)) / 8, old(RankOf(obj)))
        && scanStarts == old(scanStarts)[(r - sectionData) / ScanStartSize := r]
      ensures !(InCopyRange(obj, fromStart, fromEnd) && old(WillMove(obj, fromStart, fromEnd))) ==>
        grayObjects == old(grayObjects) && scanStarts == old(scanStarts)
    {
      if !InCopyRange(obj, fromStart, fromEnd) {
        return obj;
      }
      var forwarded := ForwardingOf(obj);
      if forwarded != 0 {
        return forwarded;
      }
      if IsPinned(obj) {
        return obj;
      }
      var objsize := MovedSize(obj);
      var fromPinned := false;
      if minPinnedChunkAddr <= obj < maxPinnedChunkAddr {
        fromPinned := ObjIsFromPinnedAlloc(pinnedChunks, obj);
      }
      if objsize >= MaxSmallObjSize || fromPinned {
        PinObject(obj);
        return obj;
      }
      r := Evacuate(obj);
    }
  }
}
