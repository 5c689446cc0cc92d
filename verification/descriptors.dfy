/**
 * GC descriptors of the sgen collector (sgen-gc.c).
 *
 * A class's reference layout is a bitmap over the words of an object (bit i set
 * when word i holds a managed reference).  The collector packs that bitmap into
 * one machine word, the descriptor, whose three low bits select the encoding:
 * run-length, small bitmap, large bitmap, or an index into the table of complex
 * descriptors.  The scanning macros decode the word again.
 *
 * Words of the 64-bit build are modelled as naturals below 2^64; bit j of w is
 * Bit(w, j).  Descriptor fields occupy disjoint bit ranges, so the `|` that
 * assembles them in the source is written here as a sum of shifted fields, and
 * a shift to the left that pushes bits out of the word is written with the
 * truncation made explicit (see Shl16 and Shl3).
 */
module GcDescriptors {

  // ------------------------------------------------------------------ words and bits

  const TwoTo64: nat := 0x1_0000_0000_0000_0000

  /** An mword / gsize of the 64-bit build. */
  type Word = w: int | 0 <= w < 0x1_0000_0000_0000_0000

  const GcBitsPerWord: nat := 64
  const ObjectHeaderWords: nat := 2
  const SmallBitmapSize: nat := 48        // GC_BITS_PER_WORD - SMALL_BITMAP_SHIFT
  const LargeBitmapSize: nat := 61        // GC_BITS_PER_WORD - LOW_TYPE_BITS
  const MaxSmallObjSize: nat := 0xffff
  const MaxElementSize: nat := 0x3ff
  const AllocAlign: nat := 8

  // the descriptor type, in the three low bits
  const DescTypeRunLength: nat := 0
  const DescTypeSmallBitmap: nat := 1
  const DescTypeString: nat := 2
  const DescTypeComplex: nat := 3
  const DescTypeVector: nat := 4
  const DescTypeArray: nat := 5
  const DescTypeLargeBitmap: nat := 6
  const DescTypeComplexArr: nat := 7

  // subtypes of vectors and arrays, in bits 14-15
  const VectorSubtypePtrFree: nat := 0
  const VectorSubtypeRefs: nat := 1
  const VectorSubtypeRunLen: nat := 2
  const VectorSubtypeBitmap: nat := 3

  function Pow2(k: nat): (r: nat)
    ensures r >= 1
  {
    if k == 0 then 1 else 2 * Pow2(k - 1)
  }

  /** Bit j of w, bit 0 being the least significant. */
  predicate Bit(w: nat, j: nat)
  {
    if j == 0 then w % 2 == 1 else Bit(w / 2, j - 1)
  }

  /** `x << 16` on a 64-bit word: the top 16 bits of x are lost. */
  function Shl16(x: nat): Word
  {
    (x % 0x1_0000_0000_0000) * 0x1_0000
  }

  /** `x << 3` on a 64-bit word: the top 3 bits of x are lost. */
  function Shl3(x: nat): Word
  {
    (x % 0x2000_0000_0000_0000) * 8
  }

  lemma {:induction false} Pow2Add(a: nat, b: nat)
    ensures Pow2(a + b) == Pow2(a) * Pow2(b)
  {
    if a > 0 {
      Pow2Add(a - 1, b);
      assert Pow2(a + b) == 2 * Pow2(a - 1 + b);
    }
  }

  lemma Pow2Of16()
    ensures Pow2(16) == 0x1_0000
  {
    assert Pow2(8) == 256;
    Pow2Add(8, 8);
  }

  lemma Pow2Of48()
    ensures Pow2(48) == 0x1_0000_0000_0000
  {
    Pow2Of16();
    Pow2Add(16, 16);
    Pow2Add(32, 16);
  }

  lemma Pow2Of64()
    ensures Pow2(64) == TwoTo64
    ensures Pow2(48) == 0x1_0000_0000_0000
  {
    Pow2Of16();
    Pow2Of48();
    Pow2Add(48, 16);
  }

  lemma Pow2Of50And63()
    ensures Pow2(50) == 0x4_0000_0000_0000
    ensures Pow2(63) == 0x8000_0000_0000_0000
  {
    Pow2Of48();
    Pow2Add(48, 2);
    assert Pow2(2) == 4;
    Pow2Add(48, 15);
    Pow2Add(8, 7);
    assert Pow2(8) == 256;
    assert Pow2(7) == 128;
  }

  lemma {:induction false} NoBitOfZero(j: nat)
    ensures !Bit(0, j)
  {
    if j > 0 {
      NoBitOfZero(j - 1);
    }
  }

  /** A word below 2^k has no bit at k or above. */
  lemma {:induction false} NoBitBeyond(w: nat, k: nat, j: nat)
    requires w < Pow2(k) && k <= j
    ensures !Bit(w, j)
  {
    if k == 0 {
      NoBitOfZero(j);
    } else {
      NoBitBeyond(w / 2, k - 1, j - 1);
    }
  }

  lemma {:induction false} ClearTopBit(w: nat, m: nat)
    requires w < Pow2(m + 1) && !Bit(w, m)
    ensures w < Pow2(m)
  {
    if m > 0 {
      ClearTopBit(w / 2, m - 1);
    }
  }

  /** A word below 2^m whose bits k..m-1 are clear is below 2^k. */
  lemma {:induction false} ClearAboveIsSmall(w: nat, k: nat, m: nat)
    requires k <= m && w < Pow2(m)
    requires forall j :: k <= j < m ==> !Bit(w, j)
    ensures w < Pow2(k)
    decreases m
  {
    if k < m {
      ClearTopBit(w, m - 1);
      ClearAboveIsSmall(w, k, m - 1);
    }
  }

  lemma BitOfQuarter(w: nat, j: nat)
    ensures Bit(w / 4, j) == Bit(w, j + 2)
  {
    assert Bit(w, j + 2) == Bit(w / 2, j + 1) == Bit(w / 2 / 2, j);
  }

  // ------------------------------------------------------------------ reference bitmaps

  /** The source reads bitmap word i / 64 for every bit i below numbits. */
  predicate Covers(bm: seq<Word>, numbits: nat)
  {
    numbits <= GcBitsPerWord * |bm|
  }

  predicate BitAt(bm: seq<Word>, i: nat)
    requires i < GcBitsPerWord * |bm|
  {
    Bit(bm[i / GcBitsPerWord], i % GcBitsPerWord)
  }

  /** No bit at or beyond numbits is set in the words of the bitmap. */
  ghost predicate Clean(bm: seq<Word>, numbits: nat)
  {
    forall j :: numbits <= j < GcBitsPerWord * |bm| ==> !BitAt(bm, j)
  }

  /** Number of set bits below n (num_set of the scan). */
  function NumSet(bm: seq<Word>, n: nat): (r: nat)
    requires Covers(bm, n)
    ensures r <= n
  {
    if n == 0 then 0 else NumSet(bm, n - 1) + (if BitAt(bm, n - 1) then 1 else 0)
  }

  /** Lowest set bit below n, or -1 (first_set of the scan). */
  function FirstSet(bm: seq<Word>, n: nat): (r: int)
    requires Covers(bm, n)
    ensures -1 <= r < n
    ensures r >= 0 ==> BitAt(bm, r) && forall j :: 0 <= j < r ==> !BitAt(bm, j)
    ensures r < 0 ==> forall j :: 0 <= j < n ==> !BitAt(bm, j)
  {
    if n == 0 then -1
    else if FirstSet(bm, n - 1) >= 0 then FirstSet(bm, n - 1)
    else if BitAt(bm, n - 1) then n - 1
    else -1
  }

  /** Highest set bit below n, or -1 (last_set of the scan). */
  function LastSet(bm: seq<Word>, n: nat): (r: int)
    requires Covers(bm, n)
    ensures -1 <= r < n
    ensures r >= 0 ==> BitAt(bm, r) && forall j :: r < j < n ==> !BitAt(bm, j)
    ensures r < 0 ==> forall j :: 0 <= j < n ==> !BitAt(bm, j)
  {
    if n == 0 then -1
    else if BitAt(bm, n - 1) then n - 1
    else LastSet(bm, n - 1)
  }

  /** Number of set bits in [lo, hi). */
  function SetBetween(bm: seq<Word>, lo: nat, hi: nat): (r: nat)
    requires lo <= hi && Covers(bm, hi)
    ensures r <= hi - lo
    decreases hi - lo
  {
    if lo == hi then 0 else SetBetween(bm, lo, hi - 1) + (if BitAt(bm, hi - 1) then 1 else 0)
  }

  /**
   * The bitmap scan of mono_gc_make_descr_for_object and
   * mono_gc_make_descr_for_array.
   */
  method ScanBitmap(bm: seq<Word>, numbits: nat) returns (firstSet: int, lastSet: int, numSet: nat)
    requires Covers(bm, numbits)
    ensures firstSet == FirstSet(bm, numbits)
    ensures lastSet == LastSet(bm, numbits)
    ensures numSet == NumSet(bm, numbits)
  {
    firstSet, lastSet, numSet := -1, -1, 0;
    var i := 0;
    while i < numbits
      invariant 0 <= i <= numbits
      invariant firstSet == FirstSet(bm, i)
      invariant lastSet == LastSet(bm, i)
      invariant numSet == NumSet(bm, i)
    {
      if Bit(bm[i / GcBitsPerWord], i % GcBitsPerWord) {
        if firstSet < 0 {
          firstSet := i;
        }
        lastSet := i;
        numSet := numSet + 1;
      }
      i := i + 1;
    }
  }

  lemma {:induction false} NumSetSplit(bm: seq<Word>, lo: nat, hi: nat)
    requires lo <= hi && Covers(bm, hi)
    ensures NumSet(bm, hi) == NumSet(bm, lo) + SetBetween(bm, lo, hi)
    decreases hi - lo
  {
    if lo < hi {
      NumSetSplit(bm, lo, hi - 1);
    }
  }

  lemma {:induction false} NoneBetween(bm: seq<Word>, lo: nat, hi: nat)
    requires lo <= hi && Covers(bm, hi)
    requires forall j :: lo <= j < hi ==> !BitAt(bm, j)
    ensures SetBetween(bm, lo, hi) == 0
    decreases hi - lo
  {
    if lo < hi {
      NoneBetween(bm, lo, hi - 1);
    }
  }

  lemma {:induction false} FullBetween(bm: seq<Word>, lo: nat, hi: nat)
    requires lo <= hi && Covers(bm, hi)
    requires SetBetween(bm, lo, hi) == hi - lo
    ensures forall j :: lo <= j < hi ==> BitAt(bm, j)
    decreases hi - lo
  {
    if lo < hi {
      FullBetween(bm, lo, hi - 1);
    }
  }

  /** The empty bitmap has num_set 0 and both ends at -1, and only it. */
  lemma {:induction false} NoBitSet(bm: seq<Word>, n: nat)
    requires Covers(bm, n)
    ensures NumSet(bm, n) == 0 <==> FirstSet(bm, n) < 0
    ensures FirstSet(bm, n) < 0 <==> LastSet(bm, n) < 0
  {
    if FirstSet(bm, n) < 0 {
      NoneBetween(bm, 0, n);
      NumSetSplit(bm, 0, n);
    } else {
      var f := FirstSet(bm, n);
      NumSetSplit(bm, f, n);
      NumSetSplit(bm, f, f + 1);
      assert SetBetween(bm, f, f + 1) == 1;
      assert SetBetween(bm, f, n) >= 1 by {
        NumSetSplit(bm, 0, n);
        NumSetSplit(bm, f + 1, n);
        SetBetweenSplit(bm, f, f + 1, n);
      }
      NumSetSplit(bm, 0, f);
    }
  }

  lemma {:induction false} SetBetweenSplit(bm: seq<Word>, lo: nat, mid: nat, hi: nat)
    requires lo <= mid <= hi && Covers(bm, hi)
    ensures SetBetween(bm, lo, hi) == SetBetween(bm, lo, mid) + SetBetween(bm, mid, hi)
    decreases hi - mid
  {
    if mid < hi {
      SetBetweenSplit(bm, lo, mid, hi - 1);
    }
  }

  /**
   * The run-length test `first_set + num_set == last_set + 1` holds exactly
   * when the set bits form one contiguous run: then bit j is set iff
   * first_set <= j < first_set + num_set.
   */
  lemma {:induction false} ContiguousRun(bm: seq<Word>, n: nat)
    requires Covers(bm, n) && FirstSet(bm, n) >= 0
    ensures FirstSet(bm, n) + NumSet(bm, n) == LastSet(bm, n) + 1 <==>
            forall j :: 0 <= j < n ==> (BitAt(bm, j) <==> FirstSet(bm, n) <= j < FirstSet(bm, n) + NumSet(bm, n))
  {
    var f, l := FirstSet(bm, n), LastSet(bm, n);
    assert NumSet(bm, n) == SetBetween(bm, f, l + 1) by {
      assert f <= l;
      NoneBetween(bm, 0, f);
      NoneBetween(bm, l + 1, n);
      SetBetweenSplit(bm, 0, f, n);
      SetBetweenSplit(bm, f, l + 1, n);
      NumSetSplit(bm, 0, n);
    }
    if f + NumSet(bm, n) == l + 1 {
      FullBetween(bm, f, l + 1);
    } else {
      // the run is not full, so the last set bit lies beyond first_set + num_set
      assert BitAt(bm, l) && !(f <= l < f + NumSet(bm, n));
    }
  }

  // ------------------------------------------------------------------ visiting words

  /**
   * Word offsets visited by the bitmap loops of the OBJ_*_FOREACH_PTR macros:
   * shifting `bmap` right one bit at a time, word `base + k` is visited when
   * bit k of bmap is set, until bmap is 0.
   */
  function BitPositions(bmap: nat, base: nat): (r: seq<nat>)
    ensures forall i :: 0 <= i < |r| ==> r[i] >= base
    ensures forall i, j :: 0 <= i < j < |r| ==> r[i] < r[j]
    decreases bmap
  {
    if bmap == 0 then []
    else (if bmap % 2 == 1 then [base] else []) + BitPositions(bmap / 2, base + 1)
  }

  lemma {:induction false} BitPositionsMeaning(bmap: nat, base: nat)
    ensures forall x :: x in BitPositions(bmap, base) <==> x >= base && Bit(bmap, x - base)
    decreases bmap
  {
    if bmap == 0 {
      forall j: nat
        ensures !Bit(0, j)
      {
        NoBitOfZero(j);
      }
    } else {
      BitPositionsMeaning(bmap / 2, base + 1);
      forall x
        ensures x in BitPositions(bmap, base) <==> x >= base && Bit(bmap, x - base)
      {
        if x > base {
          assert Bit(bmap, x - base) == Bit(bmap / 2, x - (base + 1));
        }
      }
    }
  }

  /** The `while (_bmap)` loop of OBJ_BITMAP_FOREACH_PTR and its relatives. */
  method BitmapForeach(bmap: Word, base: nat) returns (visited: seq<nat>)
    ensures visited == BitPositions(bmap, base)
  {
    var b: nat := bmap;
    var p := base;
    visited := [];
    while b != 0
      invariant visited + BitPositions(b, p) == BitPositions(bmap, base)
      decreases b
    {
      if b % 2 == 1 {
        visited := visited + [p];
      }
      b := b / 2;
      p := p + 1;
    }
  }

  /** The word offsets o, o+1, ..., o+n-1. */
  function Range(o: nat, n: nat): (r: seq<nat>)
    ensures |r| == n && forall i :: 0 <= i < n ==> r[i] == o + i
  {
    seq(n, i => o + i)
  }

  lemma RangeMembers(o: nat, n: nat)
    ensures forall x :: x in Range(o, n) <==> o <= x < o + n
  {
    forall x | o <= x < o + n
      ensures x in Range(o, n)
    {
      assert Range(o, n)[x - o] == x;
    }
  }

  /** Bits 16-23 and 24-31 of a run-length descriptor. */
  function RunOffset(desc: Word): nat { (desc / 0x1_0000) % 0x100 }
  function RunCount(desc: Word): nat { (desc / 0x100_0000) % 0x100 }

  /** `desc & 0xfff8`: the object size kept in a run-length or small-bitmap descriptor. */
  function StoredSize(desc: Word): (r: nat)
    ensures r % AllocAlign == 0 && r <= 0xfff8
  {
    (desc % 0x1_0000) / 8 * 8
  }

  /** Word offsets visited by OBJ_RUN_LEN_FOREACH_PTR. */
  function RunWords(desc: Word): (r: seq<nat>)
    ensures |r| <= 255
    ensures forall x :: x in r <==> desc / 0x1_0000 % 0x1_0000 != 0 && RunOffset(desc) <= x < RunOffset(desc) + RunCount(desc)
  {
    RangeMembers(RunOffset(desc), RunCount(desc));
    if desc / 0x1_0000 % 0x1_0000 != 0 then Range(RunOffset(desc), RunCount(desc)) else []
  }

  /** The loop of OBJ_RUN_LEN_FOREACH_PTR. */
  method RunLenForeach(desc: Word) returns (visited: seq<nat>)
    ensures visited == RunWords(desc)
  {
    visited := [];
    if desc / 0x1_0000 % 0x1_0000 != 0 {
      var p := desc / 0x1_0000 % 0x100;
      var end := p + desc / 0x100_0000 % 0x100;
      while p < end
        invariant RunOffset(desc) <= p <= end == RunOffset(desc) + RunCount(desc)
        invariant visited == Range(RunOffset(desc), p - RunOffset(desc))
      {
        visited := visited + [p];
        p := p + 1;
      }
    }
  }

  // ------------------------------------------------------------------ field arithmetic

  lemma RunFields(s: nat, f: nat, n: nat)
    requires s <= 0xfff8 && s % 8 == 0 && f < 0x100 && n < 0x100
    ensures var d := s + f * 0x1_0000 + n * 0x100_0000;
      && d % 8 == 0 && d % 0x1_0000 / 8 * 8 == s
      && d / 0x1_0000 % 0x100 == f && d / 0x100_0000 % 0x100 == n
      && d / 0x1_0000 % 0x1_0000 == f + n * 0x100
      && d < 0x1_0000_0000
  {
    var d := s + f * 0x1_0000 + n * 0x100_0000;
    assert d / 0x1_0000 == f + n * 0x100;
    assert d % 0x1_0000 == s;
    assert d / 0x100_0000 == n;
  }

  lemma SmallFields(t: nat, s: nat, b: nat)
    requires t < 8 && s <= 0xfff8 && s % 8 == 0 && b < 0x1_0000_0000_0000
    ensures var d := t + s + b * 0x1_0000;
      && d % 8 == t && d % 0x1_0000 / 8 * 8 == s && d / 0x1_0000 == b
      && d < TwoTo64
  {
    var d := t + s + b * 0x1_0000;
    assert d % 0x1_0000 == t + s;
  }

  lemma LowFields(t: nat, b: nat)
    requires t < 8 && b < 0x2000_0000_0000_0000
    ensures (t + b * 8) % 8 == t && (t + b * 8) / 8 == b
    ensures t + b * 8 < TwoTo64
  {
  }

  lemma VectorFields(t: nat, e: nat, v: nat, b: nat)
    requires t < 8 && e < 0x400 && v < 4 && b < 0x1_0000_0000_0000
    ensures var d := t + e * 8 + v * 0x4000 + b * 0x1_0000;
      && d % 8 == t && d / 8 % 0x400 == e && d / 0x4000 % 4 == v && d / 0x1_0000 == b
      && d < TwoTo64
  {
    var d := t + e * 8 + v * 0x4000 + b * 0x1_0000;
    assert d / 8 == e + v * 0x800 + b * 0x2000;
    assert d / 0x4000 == v + b * 4;
  }

  /** A run-length descriptor from its fields: the size, first_set in bits 16-23, num_set in bits 24-31. */
  function RunWord(s: nat, f: nat, n: nat): (d: Word)
    requires s <= 0xfff8 && s % 8 == 0 && f < 0x100 && n < 0x100
    ensures d % 8 == DescTypeRunLength && StoredSize(d) == s && RunOffset(d) == f && RunCount(d) == n
    ensures d / 0x1_0000 % 0x1_0000 == f + n * 0x100
  {
    RunFields(s, f, n);
    s + f * 0x1_0000 + n * 0x100_0000
  }

  /** A small-bitmap descriptor from its fields: type 1, the size, and `high` from bit 16. */
  function SmallWord(s: nat, high: nat): (d: Word)
    requires s <= 0xfff8 && s % 8 == 0 && high < 0x1_0000_0000_0000
    ensures d % 8 == DescTypeSmallBitmap && StoredSize(d) == s && d / 0x1_0000 == high
  {
    SmallFields(DescTypeSmallBitmap, s, high);
    DescTypeSmallBitmap + s + high * 0x1_0000
  }

  /** A descriptor holding `high` above its three type bits. */
  function LowWord(tag: nat, high: nat): (d: Word)
    requires tag < 8 && high < 0x2000_0000_0000_0000
    ensures d % 8 == tag && d / 8 == high
  {
    LowFields(tag, high);
    tag + high * 8
  }

  // ------------------------------------------------------------------ object descriptors

  /** The object size rounded up to ALLOC_ALIGN (stored_size). */
  function AlignedSize(objSize: nat): (r: nat)
    ensures r % AllocAlign == 0
    ensures objSize <= r < objSize + AllocAlign
  {
    (objSize + AllocAlign - 1) / AllocAlign * AllocAlign
  }

  /**
   * The builders scan numbits bits and may read `*bitmap`, so the bitmap has at
   * least one word.
   */
  predicate Readable(bm: seq<Word>, numbits: nat)
  {
    Covers(bm, numbits) && |bm| >= 1
  }

  datatype ObjectEncoding = PtrFree | RunLength | SmallBitmap | LargeBitmap | Complex

  /** Which encoding mono_gc_make_descr_for_object picks. */
  function ObjectEncodingOf(bm: seq<Word>, numbits: nat, objSize: nat): (e: ObjectEncoding)
    requires Covers(bm, numbits)
    ensures e == PtrFree <==> AlignedSize(objSize) <= MaxSmallObjSize && NumSet(bm, numbits) == 0
    ensures e == RunLength ==> AlignedSize(objSize) <= MaxSmallObjSize && 0 <= FirstSet(bm, numbits) < 256 &&
                               NumSet(bm, numbits) < 256 && FirstSet(bm, numbits) + NumSet(bm, numbits) == LastSet(bm, numbits) + 1
    ensures e == SmallBitmap ==> AlignedSize(objSize) <= MaxSmallObjSize && 0 <= LastSet(bm, numbits) < SmallBitmapSize + ObjectHeaderWords
    ensures e == LargeBitmap ==> LastSet(bm, numbits) < LargeBitmapSize + ObjectHeaderWords
    ensures e == Complex ==> LastSet(bm, numbits) >= LargeBitmapSize + ObjectHeaderWords
  {
    var s, f, n, l := AlignedSize(objSize), FirstSet(bm, numbits), NumSet(bm, numbits), LastSet(bm, numbits);
    NoBitSet(bm, numbits);
    if s <= MaxSmallObjSize && f < 0 then PtrFree
    else if s <= MaxSmallObjSize && f < 256 && n < 256 && f + n == l + 1 then RunLength
    else if s <= MaxSmallObjSize && l < SmallBitmapSize + ObjectHeaderWords then SmallBitmap
    else if l < LargeBitmapSize + ObjectHeaderWords then LargeBitmap
    else Complex
  }

  function TypeTag(e: ObjectEncoding): nat
  {
    match e
    case PtrFree => DescTypeRunLength
    case RunLength => DescTypeRunLength
    case SmallBitmap => DescTypeSmallBitmap
    case LargeBitmap => DescTypeLargeBitmap
    case Complex => DescTypeComplex
  }

  /**
   * The descriptor mono_gc_make_descr_for_object returns, given the index
   * alloc_complex_descriptor hands back for the complex case.
   */
  function ObjectDescr(bm: seq<Word>, numbits: nat, objSize: nat, complexIndex: nat): (d: Word)
    requires Readable(bm, numbits)
    ensures d % 8 == TypeTag(ObjectEncodingOf(bm, numbits, objSize))
  {
    var s := AlignedSize(objSize);
    match ObjectEncodingOf(bm, numbits, objSize)
    case PtrFree => s
    case RunLength => RunWord(s, FirstSet(bm, numbits), NumSet(bm, numbits))
    // the shifts `<< 16` and `<< 3` drop what does not fit in 64 bits
    case SmallBitmap => SmallWord(s, bm[0] / 4 % 0x1_0000_0000_0000)
    case LargeBitmap => LowWord(DescTypeLargeBitmap, bm[0] / 4 % 0x2000_0000_0000_0000)
    case Complex => LowWord(DescTypeComplex, complexIndex % 0x2000_0000_0000_0000)
  }

  /**
   * A pointer-free object of small size gets DESC_TYPE_RUN_LENGTH | size, and
   * the run-length loop visits nothing.
   */
  lemma PtrFreeDescriptor(bm: seq<Word>, numbits: nat, objSize: nat, complexIndex: nat)
    requires Readable(bm, numbits)
    requires NumSet(bm, numbits) == 0 && AlignedSize(objSize) <= MaxSmallObjSize
    ensures ObjectDescr(bm, numbits, objSize, complexIndex) == AlignedSize(objSize)
    ensures StoredSize(ObjectDescr(bm, numbits, objSize, complexIndex)) == AlignedSize(objSize)
    ensures RunWords(ObjectDescr(bm, numbits, objSize, complexIndex)) == []
  {
    NoBitSet(bm, numbits);
  }

  /**
   * A single contiguous run with first_set < 256 and num_set < 256 is stored
   * in bits 16-23 and 24-31 beside the size, and OBJ_RUN_LEN_FOREACH_PTR then
   * visits exactly the words whose bit is set.
   */
  lemma RunLengthDescriptor(bm: seq<Word>, numbits: nat, objSize: nat, complexIndex: nat)
    requires Readable(bm, numbits)
    requires ObjectEncodingOf(bm, numbits, objSize) == RunLength
    ensures var d := ObjectDescr(bm, numbits, objSize, complexIndex);
      && d % 8 == DescTypeRunLength
      && StoredSize(d) == AlignedSize(objSize)
      && RunOffset(d) == FirstSet(bm, numbits)
      && RunCount(d) == NumSet(bm, numbits)
      && forall x: nat :: x in RunWords(d) <==> x < numbits && BitAt(bm, x)
  {
    RunLengthWord(bm, numbits, objSize, complexIndex);
    ContiguousRun(bm, numbits);
  }

  /** The fields of a run-length descriptor. */
  lemma RunLengthWord(bm: seq<Word>, numbits: nat, objSize: nat, complexIndex: nat)
    requires Readable(bm, numbits)
    requires ObjectEncodingOf(bm, numbits, objSize) == RunLength
    ensures var d := ObjectDescr(bm, numbits, objSize, complexIndex);
      && d % 8 == DescTypeRunLength
      && StoredSize(d) == AlignedSize(objSize)
      && RunOffset(d) == FirstSet(bm, numbits)
      && RunCount(d) == NumSet(bm, numbits)
      && d / 0x1_0000 % 0x1_0000 != 0
  {
    NoBitSet(bm, numbits);
  }

  /** The bits beyond last_set within word 0 are clear, so word 0 is below 2^(last_set+1). */
  lemma {:induction false} FirstWordBound(bm: seq<Word>, numbits: nat, k: nat)
    requires Covers(bm, numbits) && |bm| >= 1 && Clean(bm, numbits)
    requires LastSet(bm, numbits) < k <= GcBitsPerWord
    ensures bm[0] < Pow2(k)
  {
    forall j | k <= j < GcBitsPerWord
      ensures !Bit(bm[0], j)
    {
      assert j / GcBitsPerWord == 0 && j % GcBitsPerWord == j;
      if j < numbits {
        assert !BitAt(bm, j);
      } else {
        assert !BitAt(bm, j);
      }
    }
    Pow2Of64();
    ClearAboveIsSmall(bm[0], k, GcBitsPerWord);
  }

  /** Bit x of word 0 against the bitmap, for x below 64. */
  lemma FirstWordBits(bm: seq<Word>, numbits: nat, x: nat)
    requires Covers(bm, numbits) && |bm| >= 1 && Clean(bm, numbits)
    requires x < GcBitsPerWord
    ensures Bit(bm[0], x) <==> x < numbits && BitAt(bm, x)
  {
    assert x / GcBitsPerWord == 0 && x % GcBitsPerWord == x;
    if x >= numbits {
      assert !BitAt(bm, x);
    }
  }

  /**
   * The small-bitmap descriptor keeps the size and bits 2.. of word 0 from
   * bit 16 on.  `(desc >> 16) << OBJECT_HEADER_WORDS` gives back the input word
   * when the header bits are clear, and OBJ_BITMAP_FOREACH_PTR visits exactly
   * the set bits other than the two header words.
   */
  lemma SmallBitmapDescriptor(bm: seq<Word>, numbits: nat, objSize: nat, complexIndex: nat)
    requires Readable(bm, numbits) && Clean(bm, numbits)
    requires ObjectEncodingOf(bm, numbits, objSize) == SmallBitmap
    ensures var d := ObjectDescr(bm, numbits, objSize, complexIndex);
      && d % 8 == DescTypeSmallBitmap
      && StoredSize(d) == AlignedSize(objSize)
      && (!Bit(bm[0], 0) && !Bit(bm[0], 1) ==> d / 0x1_0000 * 4 == bm[0])
      && forall x: nat :: x in BitPositions(d / 0x1_0000, ObjectHeaderWords) <==> 2 <= x < numbits && BitAt(bm, x)
  {
    SmallBitmapWord(bm, numbits, objSize, complexIndex);
    QuarterPositions(bm, numbits, 50);
    if !Bit(bm[0], 0) && !Bit(bm[0], 1) {
      HeaderBitsClear(bm[0]);
    }
  }

  lemma HeaderBitsClear(w: nat)
    requires !Bit(w, 0) && !Bit(w, 1)
    ensures w / 4 * 4 == w
  {
    assert w % 2 == 0;
    assert Bit(w, 1) == Bit(w / 2, 0);
    assert (w / 2) % 2 == 0;
  }

  /** The small-bitmap word: type 1, the size, and word 0 shifted right by 2 from bit 16 on. */
  lemma SmallBitmapWord(bm: seq<Word>, numbits: nat, objSize: nat, complexIndex: nat)
    requires Readable(bm, numbits) && Clean(bm, numbits)
    requires ObjectEncodingOf(bm, numbits, objSize) == SmallBitmap
    ensures var d := ObjectDescr(bm, numbits, objSize, complexIndex);
      && d % 8 == DescTypeSmallBitmap
      && StoredSize(d) == AlignedSize(objSize)
      && d / 0x1_0000 == bm[0] / 4
  {
    FirstWordBound(bm, numbits, 50);
    Pow2Of50And63();
    assert bm[0] / 4 < 0x1_0000_0000_0000;
  }

  /**
   * A bitmap loop over word 0 shifted right by two, starting at word 2, visits
   * exactly the set bits of the layout from word 2 on.
   */
  lemma QuarterPositions(bm: seq<Word>, numbits: nat, k: nat)
    requires Covers(bm, numbits) && |bm| >= 1 && Clean(bm, numbits)
    requires LastSet(bm, numbits) < k <= GcBitsPerWord
    ensures bm[0] < Pow2(k)
    ensures forall x: nat :: x in BitPositions(bm[0] / 4, 2) <==> 2 <= x < numbits && BitAt(bm, x)
  {
    FirstWordBound(bm, numbits, k);
    BitPositionsMeaning(bm[0] / 4, 2);
    forall x: nat
      ensures x in BitPositions(bm[0] / 4, 2) <==> 2 <= x < numbits && BitAt(bm, x)
    {
      assert x in BitPositions(bm[0] / 4, 2) <==> x >= 2 && Bit(bm[0] / 4, x - 2);
      QuarterBit(bm, numbits, k, x);
    }
  }

  /** One position of QuarterPositions. */
  lemma QuarterBit(bm: seq<Word>, numbits: nat, k: nat, x: nat)
    requires Covers(bm, numbits) && |bm| >= 1 && Clean(bm, numbits)
    requires bm[0] < Pow2(k) && LastSet(bm, numbits) < k <= GcBitsPerWord
    ensures (x >= 2 && Bit(bm[0] / 4, x - 2)) <==> 2 <= x < numbits && BitAt(bm, x)
  {
    if x >= 2 {
      BitOfQuarter(bm[0], x - 2);
      if x < GcBitsPerWord {
        FirstWordBits(bm, numbits, x);
      } else {
        NoBitBeyond(bm[0], k, x);
      }
    }
  }

  /**
   * The large-bitmap descriptor keeps bits 2..62 of word 0 from bit 3 on, and
   * OBJ_LARGE_BITMAP_FOREACH_PTR visits exactly the set bits other than the
   * two header words.
   */
  lemma LargeBitmapDescriptor(bm: seq<Word>, numbits: nat, objSize: nat, complexIndex: nat)
    requires Readable(bm, numbits) && Clean(bm, numbits)
    requires ObjectEncodingOf(bm, numbits, objSize) == LargeBitmap
    ensures var d := ObjectDescr(bm, numbits, objSize, complexIndex);
      && d % 8 == DescTypeLargeBitmap
      && forall x: nat :: x in BitPositions(d / 8, ObjectHeaderWords) <==> 2 <= x < numbits && BitAt(bm, x)
  {
    QuarterPositions(bm, numbits, 63);
    Pow2Of50And63();
    LargeBitmapWord(bm, numbits, objSize, complexIndex);
  }

  /** With bit 63 of word 0 clear, the large-bitmap descriptor holds word 0 shifted right by 2 from bit 3 on. */
  lemma LargeBitmapWord(bm: seq<Word>, numbits: nat, objSize: nat, complexIndex: nat)
    requires Readable(bm, numbits)
    requires ObjectEncodingOf(bm, numbits, objSize) == LargeBitmap
    requires bm[0] < 0x8000_0000_0000_0000
    ensures ObjectDescr(bm, numbits, objSize, complexIndex) == LowWord(DescTypeLargeBitmap, bm[0] / 4)
  {
    assert bm[0] / 4 % 0x2000_0000_0000_0000 == bm[0] / 4;
  }

  /** A complex descriptor holds the table index above the type bits. */
  lemma ComplexDescriptor(bm: seq<Word>, numbits: nat, objSize: nat, complexIndex: nat)
    requires Readable(bm, numbits)
    requires ObjectEncodingOf(bm, numbits, objSize) == Complex
    requires complexIndex < 0x2000_0000_0000_0000
    ensures ObjectDescr(bm, numbits, objSize, complexIndex) % 8 == DescTypeComplex
    ensures ObjectDescr(bm, numbits, objSize, complexIndex) / 8 == complexIndex
  {
  }

  // ------------------------------------------------------------------ array descriptors

  datatype ArrayEncoding = ElemPtrFree | ElemRefs | ElemBitmap | ComplexArr

  /**
   * Which encoding mono_gc_make_descr_for_array picks when the element bitmap
   * may be kept inline while last_set < bitmapBound.
   */
  function ArrayEncodingWith(bm: seq<Word>, numbits: nat, elemSize: nat, bitmapBound: nat): (e: ArrayEncoding)
    requires Covers(bm, numbits)
    ensures e == ElemPtrFree ==> elemSize <= MaxElementSize && NumSet(bm, numbits) == 0
    ensures e == ElemBitmap ==> LastSet(bm, numbits) < bitmapBound
    ensures e != ComplexArr ==> elemSize <= MaxElementSize
  {
    if elemSize <= MaxElementSize && NumSet(bm, numbits) == 0 then ElemPtrFree
    else if elemSize <= MaxElementSize && NumSet(bm, numbits) * 8 == elemSize then ElemRefs
    else if elemSize <= MaxElementSize && LastSet(bm, numbits) < bitmapBound then ElemBitmap
    else ComplexArr
  }

  /** The bound the source uses: `last_set <= SMALL_BITMAP_SIZE`. */
  const ArrayBitmapBoundAsWritten: nat := SmallBitmapSize + 1

  /** The bound that fits the 48 bits above bit 16: `last_set < SMALL_BITMAP_SIZE`. */
  const ArrayBitmapBound: nat := SmallBitmapSize

  /** `(gssize)(-1) << 16`: every bit from 16 up. */
  const AllOnesFrom16: nat := TwoTo64 - 0x1_0000

  /**
   * A vector descriptor assembled from its fields: the type in bits 0-2, the
   * element size in bits 3-12, the subtype in bits 14-15 and `high` from bit 16.
   */
  function VectorWord(tag: nat, elemSize: nat, subtype: nat, high: nat): (d: Word)
    requires tag < 8 && elemSize <= MaxElementSize && subtype < 4 && high < 0x1_0000_0000_0000
    ensures d % 8 == tag && ElementSize(d) == elemSize && VectorSubtype(d) == subtype && d / 0x1_0000 == high
  {
    VectorFields(tag, elemSize, subtype, high);
    tag + elemSize * 8 + subtype * 0x4000 + high * 0x1_0000
  }

  function ArrayDescrWith(vector: bool, bm: seq<Word>, numbits: nat, elemSize: nat, complexIndex: nat, bitmapBound: nat): (d: Word)
    requires Readable(bm, numbits)
    ensures d % 8 == (if ArrayEncodingWith(bm, numbits, elemSize, bitmapBound) == ComplexArr then DescTypeComplexArr
                      else if vector then DescTypeVector else DescTypeArray)
  {
    var tag := if vector then DescTypeVector else DescTypeArray;
    match ArrayEncodingWith(bm, numbits, elemSize, bitmapBound)
    case ElemPtrFree => VectorWord(tag, elemSize, VectorSubtypePtrFree, 0)
    // `(gssize)(-1) << 16` and `bitmap[0] << 16` are what land above bit 16
    case ElemRefs => VectorWord(tag, elemSize, VectorSubtypeRefs, 0xffff_ffff_ffff)
    case ElemBitmap => VectorWord(tag, elemSize, VectorSubtypeBitmap, bm[0] % 0x1_0000_0000_0000)
    case ComplexArr => LowWord(DescTypeComplexArr, complexIndex % 0x2000_0000_0000_0000)
  }

  /** mono_gc_make_descr_for_array as the source writes it. */
  function ArrayDescrAsWritten(vector: bool, bm: seq<Word>, numbits: nat, elemSize: nat, complexIndex: nat): (d: Word)
    requires Readable(bm, numbits)
    ensures d % 8 == (if ArrayEncodingWith(bm, numbits, elemSize, ArrayBitmapBoundAsWritten) == ComplexArr then DescTypeComplexArr
                      else if vector then DescTypeVector else DescTypeArray)
  {
    ArrayDescrWith(vector, bm, numbits, elemSize, complexIndex, ArrayBitmapBoundAsWritten)
  }

  /** mono_gc_make_descr_for_array with the inline bitmap limited to last_set < 48. */
  function ArrayDescr(vector: bool, bm: seq<Word>, numbits: nat, elemSize: nat, complexIndex: nat): (d: Word)
    requires Readable(bm, numbits)
    ensures d % 8 == (if ArrayEncodingWith(bm, numbits, elemSize, ArrayBitmapBound) == ComplexArr then DescTypeComplexArr
                      else if vector then DescTypeVector else DescTypeArray)
  {
    ArrayDescrWith(vector, bm, numbits, elemSize, complexIndex, ArrayBitmapBound)
  }

  /** Bits 14-15 of a vector descriptor. */
  function VectorSubtype(desc: Word): nat { (desc / 0x4000) % 4 }

  /** Bits 3-12 of a vector descriptor: the element size in bytes. */
  function ElementSize(desc: Word): nat { (desc / 8) % 0x400 }

  /**
   * Word offsets inside one element that OBJ_VECTOR_FOREACH_PTR visits for the
   * run-length and bitmap subtypes; None for the subtypes that visit no
   * element-relative words (pointer-free) or every word of the array (refs).
   */
  function ElementWords(desc: Word): (r: Option<seq<nat>>)
    ensures r.Some? <==> desc / 0x4000 != 0 && (VectorSubtype(desc) == VectorSubtypeRunLen || VectorSubtype(desc) == VectorSubtypeBitmap)
  {
    if desc / 0x4000 == 0 then None
    else if VectorSubtype(desc) == VectorSubtypeRunLen then Some(Range(RunOffset(desc), RunCount(desc)))
    else if VectorSubtype(desc) == VectorSubtypeBitmap then Some(BitPositions(desc / 0x1_0000, 0))
    else None
  }

  lemma {:induction false} ElementBitmapBound(bm: seq<Word>, numbits: nat)
    requires Covers(bm, numbits) && |bm| >= 1 && Clean(bm, numbits)
    requires LastSet(bm, numbits) < SmallBitmapSize
    ensures bm[0] < 0x1_0000_0000_0000
  {
    FirstWordBound(bm, numbits, SmallBitmapSize);
    Pow2Of48();
  }

  /**
   * With the inline element bitmap limited to last_set < 48, the descriptor
   * of an element-bitmap array records its element size and subtype, and the
   * vector loop visits exactly the element words whose bit is set.
   */
  lemma ElementBitmapDescriptor(vector: bool, bm: seq<Word>, numbits: nat, elemSize: nat, complexIndex: nat)
    requires Readable(bm, numbits) && Clean(bm, numbits)
    requires ArrayEncodingWith(bm, numbits, elemSize, ArrayBitmapBound) == ElemBitmap
    ensures var d := ArrayDescr(vector, bm, numbits, elemSize, complexIndex);
      && ElementSize(d) == elemSize
      && VectorSubtype(d) == VectorSubtypeBitmap
      && ElementWords(d).Some?
      && forall x: nat :: x in ElementWords(d).value <==> x < numbits && BitAt(bm, x)
  {
    ElementBitmapWord(vector, bm, numbits, elemSize, complexIndex);
    BitPositionsMeaning(bm[0], 0);
    Pow2Of48();
    forall x: nat
      ensures x in BitPositions(bm[0], 0) <==> x < numbits && BitAt(bm, x)
    {
      if x < GcBitsPerWord {
        FirstWordBits(bm, numbits, x);
      } else {
        NoBitBeyond(bm[0], 48, x);
      }
    }
  }

  /** An element-bitmap descriptor keeps bitmap word 0 whole from bit 16 on. */
  lemma ElementBitmapWord(vector: bool, bm: seq<Word>, numbits: nat, elemSize: nat, complexIndex: nat)
    requires Readable(bm, numbits) && Clean(bm, numbits)
    requires ArrayEncodingWith(bm, numbits, elemSize, ArrayBitmapBound) == ElemBitmap
    ensures var d := ArrayDescr(vector, bm, numbits, elemSize, complexIndex);
      && ElementSize(d) == elemSize && VectorSubtype(d) == VectorSubtypeBitmap
      && d / 0x4000 != 0 && d / 0x1_0000 == bm[0] && bm[0] < 0x1_0000_0000_0000
  {
    ElementBitmapBound(bm, numbits);
  }

  /**
   * As written, an element bitmap whose last set bit is 48 is still kept
   * inline, and `<< 16` pushes that bit out of the word: here element word 48
   * holds a reference that the vector loop never visits.
   */
  lemma ElementBitmapAsWrittenDropsWord48()
    ensures var bm: seq<Word> := [0x1_0000_0000_0001];
      && Readable(bm, 49) && Clean(bm, 49)
      && BitAt(bm, 48)
      && ArrayEncodingWith(bm, 49, 400, ArrayBitmapBoundAsWritten) == ElemBitmap
      && ElementWords(ArrayDescrAsWritten(true, bm, 49, 400, 0)).Some?
      && 48 !in ElementWords(ArrayDescrAsWritten(true, bm, 49, 400, 0)).value
  {
    var bm: seq<Word> := [0x1_0000_0000_0001];
    SparseWordBits();
    assert ArrayEncodingWith(bm, 49, 400, ArrayBitmapBoundAsWritten) == ElemBitmap;
    assert bm[0] % 0x1_0000_0000_0000 == 1;
    var d := ArrayDescrAsWritten(true, bm, 49, 400, 0);
    assert d == VectorWord(DescTypeVector, 400, VectorSubtypeBitmap, 1);
    BitPositionsMeaning(1, 0);
    NoBitOfZero(47);
  }

  /** The word with bits 0 and 48 set, as a 49-bit bitmap. */
  lemma SparseWordBits()
    ensures var bm: seq<Word> := [0x1_0000_0000_0001];
      && Readable(bm, 49) && Clean(bm, 49) && BitAt(bm, 48)
      && LastSet(bm, 49) == 48 && NumSet(bm, 49) == 2
  {
    var bm: seq<Word> := [0x1_0000_0000_0001];
    assert Bit(bm[0], 48) by {
      BitWithTop48();
    }
    assert LastSet(bm, 49) == 48;
    assert NumSet(bm, 49) == 2 by {
      assert Bit(bm[0], 0);
      forall j | 1 <= j < 48 ensures !BitAt(bm, j) {
        assert j / 64 == 0 && j % 64 == j;
        BitOfSparse(j);
      }
      NoneBetween(bm, 1, 48);
      SetBetweenSplit(bm, 0, 1, 48);
      SetBetweenSplit(bm, 0, 48, 49);
      NumSetSplit(bm, 0, 49);
    }
    forall j | 49 <= j < 64 ensures !BitAt(bm, j) {
      assert j / 64 == 0 && j % 64 == j;
      NoBitBeyond(bm[0], 49, j) by { Pow2Of48(); Pow2Add(48, 1); }
    }
  }

  lemma BitWithTop48()
    ensures Bit(0x1_0000_0000_0001, 48)
  {
    Pow2Of48();
    TopBitOfPower(48, 1);
  }

  /** Bit k of 2^k + r is set when r < 2^k. */
  lemma {:induction false} TopBitOfPower(k: nat, r: nat)
    requires r < Pow2(k)
    ensures Bit(Pow2(k) + r, k)
  {
    if k == 0 {
    } else {
      assert (Pow2(k) + r) / 2 == Pow2(k - 1) + r / 2;
      TopBitOfPower(k - 1, r / 2);
    }
  }

  lemma BitOfSparse(j: nat)
    requires 1 <= j < 48
    ensures !Bit(0x1_0000_0000_0001, j)
  {
    Pow2Of48();
    assert 0x1_0000_0000_0001 / 2 == Pow2(47) by { Pow2Add(47, 1); }
    PowerHasOneBit(47, j - 1);
  }

  lemma {:induction false} PowerHasOneBit(k: nat, j: nat)
    requires j != k
    ensures !Bit(Pow2(k), j)
  {
    if k == 0 {
      NoBitOfZero(j - 1);
    } else if j > 0 {
      PowerHasOneBit(k - 1, j - 1);
    }
  }

  // ------------------------------------------------------------------ bitmap of a descriptor

  /** Bits first..first+num-1 set, numbits = first + num. */
  function RunBits(first: nat, num: nat): (bits: seq<bool>)
    ensures |bits| == first + num
    ensures forall i :: 0 <= i < |bits| ==> (bits[i] <==> first <= i)
  {
    seq(first + num, i => first <= i)
  }

  /** `(d >> 16) << OBJECT_HEADER_WORDS`, with GC_BITS_PER_WORD bits. */
  function SmallBits(d: Word): (bits: seq<bool>)
    ensures |bits| == GcBitsPerWord
  {
    seq(GcBitsPerWord, i requires 0 <= i => Bit((d / 0x1_0000 * 4) % TwoTo64, i))
  }

  /**
   * mono_gc_get_bitmap_for_descr as written: its run-length case takes the
   * number of set bits from bits 16-23, the field that holds first_set.
   * None stands for g_assert_not_reached.
   */
  function GetBitmapForDescrAsWritten(d: Word): (r: Option<seq<bool>>)
    ensures r.Some? <==> d % 8 == DescTypeRunLength || d % 8 == DescTypeSmallBitmap
  {
    if d % 8 == DescTypeRunLength then Some(RunBits(RunOffset(d), RunOffset(d)))
    else if d % 8 == DescTypeSmallBitmap then Some(SmallBits(d))
    else None
  }

  /** mono_gc_get_bitmap_for_descr reading num_set from bits 24-31. */
  function GetBitmapForDescr(d: Word): (r: Option<seq<bool>>)
    ensures r.Some? <==> d % 8 == DescTypeRunLength || d % 8 == DescTypeSmallBitmap
  {
    if d % 8 == DescTypeRunLength then Some(RunBits(RunOffset(d), RunCount(d)))
    else if d % 8 == DescTypeSmallBitmap then Some(SmallBits(d))
    else None
  }

  /** The reference bits of a layout up to n. */
  function LayoutBits(bm: seq<Word>, n: nat): (bits: seq<bool>)
    requires Covers(bm, n)
    ensures |bits| == n && forall i :: 0 <= i < n ==> (bits[i] <==> BitAt(bm, i))
  {
    seq(n, i requires 0 <= i < n && Covers(bm, n) => BitAt(bm, i))
  }

  /**
   * Reading num_set from bits 24-31, the bitmap of a run-length descriptor is
   * the layout's bitmap up to last_set + 1.
   */
  lemma RunLengthBitmapRoundTrip(bm: seq<Word>, numbits: nat, objSize: nat, complexIndex: nat)
    requires Readable(bm, numbits)
    requires ObjectEncodingOf(bm, numbits, objSize) == RunLength
    ensures GetBitmapForDescr(ObjectDescr(bm, numbits, objSize, complexIndex))
         == Some(LayoutBits(bm, LastSet(bm, numbits) + 1))
  {
    var d := ObjectDescr(bm, numbits, objSize, complexIndex);
    var f, c, l := FirstSet(bm, numbits), NumSet(bm, numbits), LastSet(bm, numbits);
    ContiguousRun(bm, numbits);
    var run, layout := RunBits(f, c), LayoutBits(bm, l + 1);
    forall i | 0 <= i < |run|
      ensures run[i] == layout[i]
    {
      assert BitAt(bm, i) <==> f <= i < f + c;
    }
    assert run == layout;
  }

  /**
   * The bitmap of a small-bitmap descriptor has the layout's bits at 2..63 and
   * clear header bits.
   */
  lemma SmallBitmapRoundTrip(bm: seq<Word>, numbits: nat, objSize: nat, complexIndex: nat)
    requires Readable(bm, numbits) && Clean(bm, numbits)
    requires ObjectEncodingOf(bm, numbits, objSize) == SmallBitmap
    ensures var r := GetBitmapForDescr(ObjectDescr(bm, numbits, objSize, complexIndex));
      && r.Some? && |r.value| == GcBitsPerWord
      && forall i :: 0 <= i < GcBitsPerWord ==> (r.value[i] <==> 2 <= i < numbits && BitAt(bm, i))
  {
    var d := ObjectDescr(bm, numbits, objSize, complexIndex);
    SmallBitmapWord(bm, numbits, objSize, complexIndex);
    var w := bm[0] / 4 * 4;
    assert (d / 0x1_0000 * 4) % TwoTo64 == w;
    forall i | 0 <= i < GcBitsPerWord
      ensures Bit(w, i) <==> 2 <= i < numbits && BitAt(bm, i)
    {
      QuarteredWordBit(bm, numbits, i);
    }
  }

  lemma QuarteredWordBit(bm: seq<Word>, numbits: nat, i: nat)
    requires Covers(bm, numbits) && |bm| >= 1 && Clean(bm, numbits) && i < GcBitsPerWord
    ensures Bit(bm[0] / 4 * 4, i) <==> 2 <= i < numbits && BitAt(bm, i)
  {
    var w := bm[0] / 4 * 4;
    if i < 2 {
      assert w % 2 == 0;
      assert Bit(w, 1) == Bit(w / 2, 0);
      assert (w / 2) % 2 == 0;
    } else {
      BitOfQuarter(w, i - 2);
      BitOfQuarter(bm[0], i - 2);
      assert w / 4 == bm[0] / 4;
      FirstWordBits(bm, numbits, i);
    }
  }

  /**
   * As written, a single reference at word 2 (first_set 2, num_set 1) comes
   * back as two references, at words 2 and 3.
   */
  lemma RunLengthBitmapAsWrittenDoubles()
    ensures var bm: seq<Word> := [4];
      && Readable(bm, 3)
      && ObjectEncodingOf(bm, 3, 24) == RunLength
      && LayoutBits(bm, 3) == [false, false, true]
      && GetBitmapForDescrAsWritten(ObjectDescr(bm, 3, 24, 0)) == Some([false, false, true, true])
  {
    var bm: seq<Word> := [4];
    SingleReferenceAt2();
    var d := ObjectDescr(bm, 3, 24, 0);
    assert d == RunWord(24, 2, 1) by {
      assert ObjectEncodingOf(bm, 3, 24) == RunLength;
    }
    assert RunBits(2, 2) == [false, false, true, true];
  }

  /** The one-word layout with only bit 2 set, scanned over three bits. */
  lemma SingleReferenceAt2()
    ensures var bm: seq<Word> := [4];
      && Readable(bm, 3) && AlignedSize(24) == 24
      && FirstSet(bm, 3) == 2 && LastSet(bm, 3) == 2 && NumSet(bm, 3) == 1
      && ObjectEncodingOf(bm, 3, 24) == RunLength
      && LayoutBits(bm, 3) == [false, false, true]
  {
    var bm: seq<Word> := [4];
    assert BitAt(bm, 2) && !BitAt(bm, 1) && !BitAt(bm, 0);
    assert FirstSet(bm, 3) == 2 && LastSet(bm, 3) == 2 && NumSet(bm, 3) == 1;
    assert LayoutBits(bm, 3) == [false, false, true];
  }

  // ------------------------------------------------------------------ complex descriptors

  datatype Option<T> = None | Some(value: T)

  /** The words alloc_complex_descriptor copies for numbits bits: nwords - 1 of them. */
  function ComplexKey(bm: seq<Word>, numbits: nat): (key: seq<Word>)
    requires numbits / GcBitsPerWord + 1 <= |bm|
    ensures |key| == numbits / GcBitsPerWord + 1 && key == bm[..|key|]
  {
    bm[..numbits / GcBitsPerWord + 1]
  }

  /** One table entry: the word count nwords = |key| + 1, then the bitmap words. */
  function EntryWords(key: seq<Word>): seq<int>
  {
    [|key| + 1] + key
  }

  /** The contents of complex_descriptors[0..complex_descriptors_next). */
  function Flatten(entries: seq<seq<Word>>): (r: seq<int>)
    ensures |entries| == 0 ==> r == []
  {
    if |entries| == 0 then [] else Flatten(entries[..|entries| - 1]) + EntryWords(entries[|entries| - 1])
  }

  /** First entry equal to key. */
  function Find(entries: seq<seq<Word>>, key: seq<Word>): (r: Option<nat>)
    ensures r.Some? ==> r.value < |entries| && entries[r.value] == key && forall m :: 0 <= m < r.value ==> entries[m] != key
    ensures r.None? <==> key !in entries
  {
    if |entries| == 0 then None
    else match Find(entries[..|entries| - 1], key)
      case Some(k) => Some(k)
      case None => if entries[|entries| - 1] == key then Some(|entries| - 1) else None
  }

  /** The table's entries after interning key. */
  function Interned(entries: seq<seq<Word>>, key: seq<Word>): seq<seq<Word>>
  {
    if Find(entries, key).Some? then entries else entries + [key]
  }

  /** The index alloc_complex_descriptor returns for key. */
  function InternIndex(entries: seq<seq<Word>>, key: seq<Word>): nat
  {
    match Find(entries, key)
    case Some(k) => |Flatten(entries[..k])|
    case None => |Flatten(entries)|
  }

  lemma {:induction false} FlattenPrefix(entries: seq<seq<Word>>, k: nat)
    requires k < |entries|
    ensures Flatten(entries[..k + 1]) == Flatten(entries[..k]) + EntryWords(entries[k])
    ensures Flatten(entries[..k + 1]) <= Flatten(entries)
    decreases |entries|
  {
    assert entries[..k + 1][..k] == entries[..k];
    if k + 1 < |entries| {
      var init := entries[..|entries| - 1];
      FlattenPrefix(init, k);
      assert init[..k + 1] == entries[..k + 1];
    } else {
      assert entries[..k + 1] == entries;
    }
  }

  /**
   * Interning is idempotent: interning the same words again returns the same
   * index and leaves the table as it is; the first time, the words are
   * appended as [nwords, words...] at the old end of the table.
   */
  lemma InterningIsIdempotent(entries: seq<seq<Word>>, key: seq<Word>)
    ensures Interned(Interned(entries, key), key) == Interned(entries, key)
    ensures InternIndex(Interned(entries, key), key) == InternIndex(entries, key)
    ensures Find(entries, key).None? ==>
              Flatten(Interned(entries, key)) == Flatten(entries) + EntryWords(key) &&
              InternIndex(entries, key) == |Flatten(entries)|
  {
    if Find(entries, key).None? {
      var e2 := entries + [key];
      assert e2[..|e2| - 1] == entries;
      assert Find(e2, key) == Some(|entries|);
      assert e2[..|entries|] == entries;
    }
  }

  /** Offsets of entries in the flat table are increasing. */
  lemma {:induction false} FlattenPrefixGrows(entries: seq<seq<Word>>, k: nat)
    requires k <= |entries|
    ensures |Flatten(entries[..k])| <= |Flatten(entries)|
    ensures k < |entries| ==> |Flatten(entries[..k])| < |Flatten(entries)|
  {
    if k < |entries| {
      FlattenPrefix(entries, k);
    } else {
      assert entries[..k] == entries;
    }
  }

  /** Compare a[at..at+|key|] with the key, word by word, as the inner search loop does. */
  method WordsMatch(a: array<int>, at: nat, bm: seq<Word>, count: nat) returns (found: bool)
    requires at + count <= a.Length && count <= |bm|
    ensures found <==> a[at..at + count] == bm[..count]
  {
    var j := 0;
    while j < count
      invariant 0 <= j <= count
      invariant a[at..at + j] == bm[..j]
    {
      if a[at + j] != bm[j] {
        assert a[at..at + count][j] != bm[..count][j];
        return false;
      }
      assert a[at..at + j + 1] == a[at..at + j] + [a[at + j]];
      assert bm[..j + 1] == bm[..j] + [bm[j]];
      j := j + 1;
    }
    return true;
  }

  /** Copy the whole of src to the front of dst (what g_realloc keeps). */
  method CopyPrefix(dst: array<int>, src: array<int>)
    requires src.Length <= dst.Length && src != dst
    modifies dst
    ensures dst[..src.Length] == src[..]
    ensures dst[src.Length..] == old(dst[src.Length..])
  {
    var i := 0;
    while i < src.Length
      invariant 0 <= i <= src.Length
      invariant dst[..i] == src[..i]
      invariant dst[src.Length..] == old(dst[src.Length..])
    {
      dst[i] := src[i];
      i := i + 1;
    }
  }

  /** Store [nwords] + key at a[at..]. */
  method StoreEntry(a: array<int>, at: nat, key: seq<Word>)
    requires at + |key| + 1 <= a.Length
    modifies a
    ensures a[..] == old(a[..at]) + EntryWords(key) + old(a[at + |key| + 1..])
  {
    a[at] := |key| + 1;
    var i := 0;
    while i < |key|
      invariant 0 <= i <= |key|
      invariant a[..at] == old(a[..at])
      invariant a[at] == |key| + 1
      invariant a[at + 1..at + 1 + i] == key[..i]
      invariant a[at + |key| + 1..] == old(a[at + |key| + 1..])
    {
      a[at + 1 + i] := key[i];
      assert a[at + 1..at + 1 + i + 1] == a[at + 1..at + 1 + i] + [key[i]];
      i := i + 1;
    }
    assert a[..] == a[..at] + [a[at]] + a[at + 1..at + 1 + |key|] + a[at + |key| + 1..];
  }

  /** Where entry k sits in the flat table, and what it holds there. */
  lemma EntryAt(entries: seq<seq<Word>>, k: nat, flat: seq<int>)
    requires k < |entries| && flat == Flatten(entries)
    ensures var o := |Flatten(entries[..k])|;
      && o + |entries[k]| + 1 <= |flat|
      && flat[o] == |entries[k]| + 1
      && flat[o + 1..o + 1 + |entries[k]|] == entries[k]
  {
    FlattenPrefix(entries, k);
    var o := |Flatten(entries[..k])|;
    var pre := Flatten(entries[..k + 1]);
    assert pre == Flatten(entries[..k]) + EntryWords(entries[k]);
    assert flat[..|pre|] == pre;
    assert flat[o] == pre[o];
    assert flat[o + 1..o + 1 + |entries[k]|] == pre[o + 1..o + 1 + |entries[k]|];
  }

  /** A slice inside a prefix is the same slice of the whole. */
  lemma SliceOfPrefix(a: seq<int>, n: nat, lo: nat, hi: nat)
    requires lo <= hi <= n <= |a|
    ensures a[lo..hi] == a[..n][lo..hi]
  {
  }

  /**
   * The linear search of alloc_complex_descriptor: walk the table entry by
   * entry (`i += complex_descriptors [i]`) looking for the same nwords and
   * the same words.
   */
  method FindEntry(data: array<int>, next: nat, ghost entries: seq<seq<Word>>, key: seq<Word>) returns (found: bool, at: nat)
    requires next <= data.Length && data[..next] == Flatten(entries)
    ensures found <==> Find(entries, key).Some?
    ensures found ==> at == InternIndex(entries, key)
  {
    var nwords := |key| + 1;
    var i := 0;
    ghost var k := 0;
    while i < next
      invariant 0 <= k <= |entries| && i == |Flatten(entries[..k])|
      invariant k == |entries| ==> i == next
      invariant forall m :: 0 <= m < k ==> entries[m] != key
    {
      EntryAt(entries, k, data[..next]);
      assert data[i] == |entries[k]| + 1;
      if data[i] == nwords {
        var same := WordsMatch(data, i + 1, key, nwords - 1);
        assert i + nwords <= next;
        SliceOfPrefix(data[..], next, i + 1, i + nwords);
        if same {
          assert entries[k] == key;
          return true, i;
        }
      }
      i := i + data[i];
      FlattenPrefix(entries, k);
      k := k + 1;
      if k == |entries| {
        assert entries[..k] == entries;
      }
    }
    FlattenPrefixGrows(entries, k);
    assert k == |entries|;
    assert entries[..k] == entries;
    return false, 0;
  }

  /**
   * Word offsets OBJ_COMPLEX_FOREACH_PTR visits for the bitmap words of an
   * entry: bit j of word k stands for object word 64 * k + j.
   */
  function ComplexPositions(words: seq<Word>): (r: seq<nat>)
  {
    if |words| == 0 then []
    else ComplexPositions(words[..|words| - 1]) + BitPositions(words[|words| - 1], GcBitsPerWord * (|words| - 1))
  }

  lemma {:induction false} ComplexPositionsMeaning(bm: seq<Word>, n: nat)
    requires n <= |bm|
    ensures forall x: nat :: x in ComplexPositions(bm[..n]) <==> x < GcBitsPerWord * n && BitAt(bm, x)
  {
    if n > 0 {
      ComplexPositionsMeaning(bm, n - 1);
      assert bm[..n][..n - 1] == bm[..n - 1];
      var base := GcBitsPerWord * (n - 1);
      assert ComplexPositions(bm[..n]) == ComplexPositions(bm[..n - 1]) + BitPositions(bm[n - 1], base);
      BitPositionsMeaning(bm[n - 1], base);
      Pow2Of64();
      forall x: nat
        ensures x in ComplexPositions(bm[..n]) <==> x < GcBitsPerWord * n && BitAt(bm, x)
      {
        var tail := BitPositions(bm[n - 1], base);
        assert x in ComplexPositions(bm[..n]) <==> x in ComplexPositions(bm[..n - 1]) || x in tail;
        if x < base {
          assert x !in tail;
        } else {
          assert x !in ComplexPositions(bm[..n - 1]);
          assert x in tail <==> Bit(bm[n - 1], x - base);
          if x < GcBitsPerWord * n {
            assert x / GcBitsPerWord == n - 1 && x % GcBitsPerWord == x - base;
          } else {
            NoBitBeyond(bm[n - 1], GcBitsPerWord, x - base);
          }
        }
      }
    }
  }

  /**
   * The words an interned complex descriptor makes the scan visit are exactly
   * the set bits of the layout.
   */
  lemma ComplexDescriptorVisitsSetBits(bm: seq<Word>, numbits: nat)
    requires Covers(bm, numbits) && Clean(bm, numbits)
    requires (LastSet(bm, numbits) + 1) / GcBitsPerWord + 1 <= |bm|
    ensures forall x: nat :: x in ComplexPositions(ComplexKey(bm, LastSet(bm, numbits) + 1)) <==> x < numbits && BitAt(bm, x)
  {
    var l := LastSet(bm, numbits);
    var key := ComplexKey(bm, l + 1);
    ComplexPositionsMeaning(bm, |key|);
    forall x: nat
      ensures x < GcBitsPerWord * |key| && BitAt(bm, x) <==> x < numbits && BitAt(bm, x)
    {
      if x < GcBitsPerWord * |bm| && numbits <= x {
        assert !BitAt(bm, x);
      }
    }
  }

  /**
   * The cases of mono_gc_make_descr_for_object that need no table entry:
   * pointer-free, run-length, small bitmap and large bitmap, from the scanned
   * first_set, last_set and num_set.
   */
  method InlineObjectDescr(bm: seq<Word>, numbits: nat, objSize: nat, firstSet: int, lastSet: int, numSet: nat)
    returns (inline: bool, desc: Word)
    requires Readable(bm, numbits)
    requires firstSet == FirstSet(bm, numbits) && lastSet == LastSet(bm, numbits) && numSet == NumSet(bm, numbits)
    ensures inline <==> ObjectEncodingOf(bm, numbits, objSize) != Complex
    ensures inline ==> desc == ObjectDescr(bm, numbits, objSize, 0)
  {
    NoBitSet(bm, numbits);
    var storedSize := (objSize + AllocAlign - 1) / AllocAlign * AllocAlign;
    if storedSize <= MaxSmallObjSize {
      if firstSet < 0 {
        assert ObjectEncodingOf(bm, numbits, objSize) == PtrFree;
        return true, storedSize;
      } else if firstSet < 256 && numSet < 256 && firstSet + numSet == lastSet + 1 {
        assert ObjectEncodingOf(bm, numbits, objSize) == RunLength;
        RunFields(storedSize, firstSet, numSet);
        return true, storedSize + firstSet * 0x1_0000 + numSet * 0x100_0000;
      }
      if lastSet < SmallBitmapSize + ObjectHeaderWords {
        assert ObjectEncodingOf(bm, numbits, objSize) == SmallBitmap;
        SmallFields(DescTypeSmallBitmap, storedSize, bm[0] / 4 % 0x1_0000_0000_0000);
        return true, DescTypeSmallBitmap + storedSize + Shl16(bm[0] / 4);
      }
    }
    if lastSet < LargeBitmapSize + ObjectHeaderWords {
      assert ObjectEncodingOf(bm, numbits, objSize) == LargeBitmap;
      LowFields(DescTypeLargeBitmap, bm[0] / 4 % 0x2000_0000_0000_0000);
      return true, DescTypeLargeBitmap + Shl3(bm[0] / 4);
    }
    assert ObjectEncodingOf(bm, numbits, objSize) == Complex;
    return false, 0;
  }

  /**
   * The cases of mono_gc_make_descr_for_array that need no table entry:
   * pointer-free, all-references and small-bitmap elements.
   */
  method InlineArrayDescr(vector: bool, bm: seq<Word>, numbits: nat, elemSize: nat, lastSet: int, numSet: nat)
    returns (inline: bool, desc: Word)
    requires Readable(bm, numbits)
    requires lastSet == LastSet(bm, numbits) && numSet == NumSet(bm, numbits)
    ensures inline <==> ArrayEncodingWith(bm, numbits, elemSize, ArrayBitmapBound) != ComplexArr
    ensures inline ==> desc == ArrayDescr(vector, bm, numbits, elemSize, 0)
  {
    var tag := if vector then DescTypeVector else DescTypeArray;
    if elemSize <= MaxElementSize {
      var d := tag + elemSize * 8;
      if numSet == 0 {
        return true, d + VectorSubtypePtrFree * 0x4000;
      }
      if numSet * 8 == elemSize {
        return true, d + VectorSubtypeRefs * 0x4000 + AllOnesFrom16;
      }
      if lastSet < SmallBitmapSize {
        return true, d + VectorSubtypeBitmap * 0x4000 + Shl16(bm[0]);
      }
    }
    return false, 0;
  }

  /** The complex_descriptors table with its size and next index. */
  class ComplexTable {
    var data: array<int>
    var next: nat
    ghost var entries: seq<seq<Word>>

    ghost predicate Valid()
      reads this, data
    {
      next <= data.Length && data[..next] == Flatten(entries)
    }

    constructor ()
      ensures Valid() && entries == [] && next == 0
    {
      data := new int[0];
      next := 0;
      entries := [];
    }

    /**
     * alloc_complex_descriptor: return the index of an entry with the same
     * (nwords, words), or append one at complex_descriptors_next, growing the
     * table to size * 2 + nwords when it does not fit.
     */
    method AllocComplexDescriptor(bm: seq<Word>, numbits: nat) returns (res: nat)
      requires Valid() && numbits / GcBitsPerWord + 1 <= |bm|
      modifies this, data
      ensures Valid()
      ensures entries == Interned(old(entries), ComplexKey(bm, numbits))
      ensures res == InternIndex(old(entries), ComplexKey(bm, numbits))
    {
      var nwords := numbits / GcBitsPerWord + 2;
      var key := bm[..nwords - 1];
      assert key == ComplexKey(bm, numbits);
      var found, at := FindEntry(data, next, entries, key);
      if found {
        return at;
      }
      res := next;
      Reserve(nwords);
      ghost var before := data[..next];
      StoreEntry(data, next, key);
      assert data[..next + nwords] == before + EntryWords(key);
      assert Flatten(entries + [key]) == Flatten(entries) + EntryWords(key) by {
        assert (entries + [key])[..|entries|] == entries;
      }
      next := next + nwords;
      entries := entries + [key];
    }

    /** The growth step of alloc_complex_descriptor: a table of size * 2 + nwords when nwords do not fit. */
    method Reserve(nwords: nat)
      requires Valid()
      modifies this`data
      ensures Valid() && next + nwords <= data.Length
      ensures data == old(data) || fresh(data)
      ensures old(next + nwords > data.Length) ==> data.Length == old(data.Length) * 2 + nwords
    {
      if next + nwords > data.Length {
        var bigger := new int[data.Length * 2 + nwords];
        CopyPrefix(bigger, data);
        assert bigger[..next] == data[..next];
        data := bigger;
      }
    }

    /** mono_gc_make_descr_for_object. */
    method MakeDescrForObject(bm: seq<Word>, numbits: nat, objSize: nat) returns (desc: Word)
      requires Valid() && Readable(bm, numbits)
      requires ObjectEncodingOf(bm, numbits, objSize) == Complex ==> (LastSet(bm, numbits) + 1) / GcBitsPerWord + 1 <= |bm|
      modifies this, data
      ensures Valid()
      ensures ObjectEncodingOf(bm, numbits, objSize) != Complex ==>
                entries == old(entries) && desc == ObjectDescr(bm, numbits, objSize, 0)
      ensures ObjectEncodingOf(bm, numbits, objSize) == Complex ==>
                var key := ComplexKey(bm, LastSet(bm, numbits) + 1);
                entries == Interned(old(entries), key) && desc == ObjectDescr(bm, numbits, objSize, InternIndex(old(entries), key))
    {
      var firstSet, lastSet, numSet := ScanBitmap(bm, numbits);
      var inline;
      inline, desc := InlineObjectDescr(bm, numbits, objSize, firstSet, lastSet, numSet);
      if inline {
        return desc;
      }
      var index := AllocComplexDescriptor(bm, lastSet + 1);
      LowFields(DescTypeComplex, index % 0x2000_0000_0000_0000);
      return DescTypeComplex + Shl3(index);
    }

    /**
     * mono_gc_make_descr_for_array with the corrected bound: the inline
     * element bitmap is used only for last_set < SMALL_BITMAP_SIZE (48), where
     * sgen-gc.c accepts last_set <= SMALL_BITMAP_SIZE and loses bit 48
     * (ArrayDescrAsWritten, ElementBitmapAsWrittenDropsWord48).
     */
    method MakeDescrForArray(vector: bool, bm: seq<Word>, numbits: nat, elemSize: nat) returns (desc: Word)
      requires Valid() && Readable(bm, numbits)
      requires ArrayEncodingWith(bm, numbits, elemSize, ArrayBitmapBound) == ComplexArr ==>
                 (LastSet(bm, numbits) + 1) / GcBitsPerWord + 1 <= |bm|
      modifies this, data
      ensures Valid()
      ensures ArrayEncodingWith(bm, numbits, elemSize, ArrayBitmapBound) != ComplexArr ==>
                entries == old(entries) && desc == ArrayDescr(vector, bm, numbits, elemSize, 0)
      ensures ArrayEncodingWith(bm, numbits, elemSize, ArrayBitmapBound) == ComplexArr ==>
                var key := ComplexKey(bm, LastSet(bm, numbits) + 1);
                entries == Interned(old(entries), key) && desc == ArrayDescr(vector, bm, numbits, elemSize, InternIndex(old(entries), key))
    {
      var firstSet, lastSet, numSet := ScanBitmap(bm, numbits);
      var inline;
      inline, desc := InlineArrayDescr(vector, bm, numbits, elemSize, lastSet, numSet);
      if inline {
        return desc;
      }
      var index := AllocComplexDescriptor(bm, lastSet + 1);
      LowFields(DescTypeComplexArr, index % 0x2000_0000_0000_0000);
      return DescTypeComplexArr + Shl3(index);
    }

    /**
     * OBJ_COMPLEX_FOREACH_PTR: the descriptor's index names entry e; each of
     * its bitmap words is walked by the bitmap loop, 64 object words apart.
     */
    method ComplexForeach(desc: Word, ghost e: nat) returns (visited: seq<nat>)
      requires Valid() && e < |entries|
      requires desc % 8 == DescTypeComplex && desc / 8 == |Flatten(entries[..e])|
      ensures visited == ComplexPositions(entries[e])
    {
      var at := desc / 8;
      EntryAt(entries, e, data[..next]);
      var bwords := data[at] - 1;
      assert data[at + 1..at + 1 + bwords] == entries[e];
      visited := [];
      var k := 0;
      while k < bwords
        invariant 0 <= k <= bwords
        invariant visited == ComplexPositions(entries[e][..k])
      {
        assert data[at + 1 + k] == entries[e][k];
        var run := BitmapForeach(data[at + 1 + k], GcBitsPerWord * k);
        visited := visited + run;
        assert entries[e][..k + 1][..k] == entries[e][..k];
        k := k + 1;
      }
      assert entries[e][..k] == entries[e];
    }
  }
}
