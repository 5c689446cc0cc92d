/**
 * The pin queue of the sgen collector (sgen-gc.c).
 *
 * Words of thread stacks and registers that may point into the nursery are
 * queued conservatively; the queue is then sorted with a comb sort and
 * de-duplicated, so that the objects they point into can be pinned in one
 * pass of increasing addresses.
 */
module PinQueue {
  import opened GcDescriptors

  predicate Sorted(s: seq<Word>)
  {
    forall i, j :: 0 <= i < j < |s| ==> s[i] <= s[j]
  }

  predicate StrictlyIncreasing(s: seq<Word>)
  {
    forall i, j :: 0 <= i < j < |s| ==> s[i] < s[j]
  }

  function Elems(s: seq<Word>): set<Word>
  {
    set x | x in s
  }

  // ------------------------------------------------------------------ comb sort

  /**
   * new_gap: shrink the gap by the factor 1.3; 9 and 10 become 11 (the
   * "comb sort 11" rule), and the gap never drops below 1.
   */
  function NewGap(gap: nat): (r: nat)
    ensures 1 <= r && r != 9 && r != 10
    ensures gap >= 2 ==> r < gap
    ensures gap <= 1 ==> r == 1
    ensures gap * 10 / 13 <= r
  {
    var g := gap * 10 / 13;
    if g == 9 || g == 10 then 11
    else if g < 1 then 1
    else g
  }

  /** Sum of s[k] * k: exchanging an out-of-order pair always raises it. */
  ghost function Weight(s: seq<Word>): int
  {
    if |s| == 0 then 0 else Weight(s[..|s| - 1]) + s[|s| - 1] * (|s| - 1)
  }

  lemma {:induction false} WeightUpdate(s: seq<Word>, k: nat, v: Word)
    requires k < |s|
    ensures Weight(s[k := v]) == Weight(s) + (v - s[k]) * k
  {
    var n := |s| - 1;
    if k == n {
      assert s[k := v][..n] == s[..n];
    } else {
      assert s[k := v][..n] == s[..n][k := v];
      WeightUpdate(s[..n], k, v);
    }
  }

  lemma {:induction false} WeightBound(s: seq<Word>)
    ensures 0 <= Weight(s) <= |s| * |s| * TwoTo64
  {
    if |s| > 0 {
      var n := |s| - 1;
      WeightBound(s[..n]);
      MulLe(s[n], TwoTo64, n);
      assert (n + 1) * (n + 1) * TwoTo64 == n * n * TwoTo64 + 2 * n * TwoTo64 + TwoTo64;
    }
  }

  lemma MulLe(x: nat, y: nat, k: nat)
    requires x <= y
    ensures 0 <= x * k <= y * k
  {
  }

  lemma MulPos(x: int, y: int)
    requires x > 0 && y > 0
    ensures x * y > 0
  {
  }

  /** Exchanging an out-of-order pair strictly raises the weight. */
  lemma SwapRaisesWeight(s: seq<Word>, i: nat, j: nat)
    requires i < j < |s| && s[i] > s[j]
    ensures Weight(s[i := s[j]][j := s[i]]) > Weight(s)
  {
    WeightUpdate(s, i, s[j]);
    WeightUpdate(s[i := s[j]], j, s[i]);
    assert (s[j] - s[i]) * i + (s[i] - s[j]) * j == (s[i] - s[j]) * (j - i);
    MulPos(s[i] - s[j], j - i);
  }

  /** The first `count` pairs that lie `gap` apart are in order. */
  predicate GapOrdered(s: seq<Word>, gap: nat, count: int)
  {
    forall k :: 0 <= k < count && k + gap < |s| ==> s[k] <= s[k + gap]
  }

  lemma {:induction false} AdjacentSorted(s: seq<Word>)
    requires GapOrdered(s, 1, |s| - 1)
    ensures Sorted(s)
  {
    if |s| > 1 {
      var n := |s| - 1;
      AdjacentSorted(s[..n]);
      assert forall i :: 0 <= i < n ==> s[i] <= s[n - 1];
    }
  }

  lemma SwapPermutes(s: seq<Word>, i: nat, j: nat)
    requires i < j < |s|
    ensures multiset(s[i := s[j]][j := s[i]]) == multiset(s)
  {
  }

  /** The exchange of array[i] and array[j] in the pass below. */
  method Exchange(a: array<Word>, lo: nat, size: nat, i: nat, j: nat)
    requires lo + size <= a.Length && i < j < size
    modifies a
    ensures a[lo..lo + size] == old(a[lo..lo + size])[i := old(a[lo + j])][j := old(a[lo + i])]
    ensures a[..lo] == old(a[..lo]) && a[lo + size..] == old(a[lo + size..])
  {
    var val := a[lo + i];
    a[lo + i] := a[lo + j];
    a[lo + j] := val;
  }

  /**
   * One pass of sort_addresses: compare-exchange every pair `gap` apart in
   * a[lo..lo+size].  A pass that exchanges nothing leaves every such pair in
   * order.
   */
  method CombPass(a: array<Word>, lo: nat, size: nat, gap: nat) returns (swapped: bool)
    requires lo + size <= a.Length && gap >= 1
    modifies a
    ensures multiset(a[lo..lo + size]) == multiset(old(a[lo..lo + size]))
    ensures a[..lo] == old(a[..lo]) && a[lo + size..] == old(a[lo + size..])
    ensures swapped ==> Weight(a[lo..lo + size]) > Weight(old(a[lo..lo + size]))
    ensures !swapped ==> a[lo..lo + size] == old(a[lo..lo + size])
    ensures !swapped ==> GapOrdered(a[lo..lo + size], gap, size - gap)
  {
    ghost var s0 := a[lo..lo + size];
    swapped := false;
    var end := size - gap;
    var i := 0;
    while i < end
      invariant 0 <= i && (end < 0 || i <= end)
      invariant multiset(a[lo..lo + size]) == multiset(s0)
      invariant a[..lo] == old(a[..lo]) && a[lo + size..] == old(a[lo + size..])
      invariant Weight(a[lo..lo + size]) >= Weight(s0)
      invariant swapped ==> Weight(a[lo..lo + size]) > Weight(s0)
      invariant !swapped ==> a[lo..lo + size] == s0
      invariant !swapped ==> GapOrdered(a[lo..lo + size], gap, i)
    {
      ghost var s := a[lo..lo + size];
      var exchanged := CompareExchange(a, lo, size, i, i + gap);
      if exchanged {
        swapped := true;
      } else if !swapped {
        assert GapOrdered(s, gap, i + 1);
      }
      i := i + 1;
    }
  }

  /** The body of the pass: exchange a[lo+i] and a[lo+j] when they are out of order. */
  method CompareExchange(a: array<Word>, lo: nat, size: nat, i: nat, j: nat) returns (exchanged: bool)
    requires lo + size <= a.Length && i < j < size
    modifies a
    ensures multiset(a[lo..lo + size]) == multiset(old(a[lo..lo + size]))
    ensures a[..lo] == old(a[..lo]) && a[lo + size..] == old(a[lo + size..])
    ensures exchanged ==> Weight(a[lo..lo + size]) > Weight(old(a[lo..lo + size]))
    ensures !exchanged ==> a[lo..lo + size] == old(a[lo..lo + size]) && a[lo + i] <= a[lo + j]
  {
    ghost var s := a[lo..lo + size];
    assert a[lo + i] == s[i] && a[lo + j] == s[j];
    exchanged := a[lo + i] > a[lo + j];
    if exchanged {
      Exchange(a, lo, size, i, j);
      SwapPermutes(s, i, j);
      SwapRaisesWeight(s, i, j);
    }
  }

  /** sort_addresses: comb sort of a[lo..lo+size] into ascending order, in place. */
  method SortAddresses(a: array<Word>, lo: nat, size: nat)
    requires lo + size <= a.Length
    modifies a
    ensures Sorted(a[lo..lo + size])
    ensures multiset(a[lo..lo + size]) == multiset(old(a[lo..lo + size]))
    ensures a[..lo] == old(a[..lo]) && a[lo + size..] == old(a[lo + size..])
  {
    var gap := size;
    ghost var bound := size * size * TwoTo64;
    WeightBound(a[lo..lo + size]);
    while true
      invariant gap >= 1 || size == 0
      invariant multiset(a[lo..lo + size]) == multiset(old(a[lo..lo + size]))
      invariant a[..lo] == old(a[..lo]) && a[lo + size..] == old(a[lo + size..])
      invariant 0 <= bound - Weight(a[lo..lo + size])
      decreases gap, bound - Weight(a[lo..lo + size])
    {
      gap := NewGap(gap);
      var swapped := CombPass(a, lo, size, gap);
      WeightBound(a[lo..lo + size]);
      if gap == 1 && !swapped {
        AdjacentSorted(a[lo..lo + size]);
        break;
      }
    }
  }

  // ------------------------------------------------------------------ conservative scan

  /**
   * The words conservatively_pin_objects_from queues for a scanned range: every
   * word in [startNursery, endNursery), rounded down to ALLOC_ALIGN, in order.
   */
  function Candidates(words: seq<Word>, startNursery: nat, endNursery: nat): (r: seq<Word>)
    ensures |r| <= |words|
    ensures forall k :: 0 <= k < |r| ==> r[k] % AllocAlign == 0
  {
    if |words| == 0 then []
    else
      var w := words[|words| - 1];
      Candidates(words[..|words| - 1], startNursery, endNursery)
        + (if startNursery <= w < endNursery then [w - w % AllocAlign] else [])
  }

  lemma CandidatesStep(words: seq<Word>, startNursery: nat, endNursery: nat, i: nat)
    requires i < |words|
    ensures Candidates(words[..i + 1], startNursery, endNursery)
         == Candidates(words[..i], startNursery, endNursery)
            + (if startNursery <= words[i] < endNursery then [words[i] - words[i] % AllocAlign] else [])
  {
    assert words[..i + 1][..i] == words[..i];
  }

  /**
   * A value is queued exactly when it is the aligned form of some scanned
   * word that lies in the nursery.
   */
  lemma {:induction false} CandidatesExactly(words: seq<Word>, startNursery: nat, endNursery: nat, x: Word)
    ensures x in Candidates(words, startNursery, endNursery)
        <==> exists w :: w in words && startNursery <= w < endNursery && x == w - w % AllocAlign
  {
    if |words| > 0 {
      var n := |words| - 1;
      CandidatesExactly(words[..n], startNursery, endNursery, x);
      var c := Candidates(words[..n], startNursery, endNursery);
      var last := if startNursery <= words[n] < endNursery then [words[n] - words[n] % AllocAlign] else [];
      assert Candidates(words, startNursery, endNursery) == c + last;
      assert words == words[..n] + [words[n]];
      if x in c {
        var w :| w in words[..n] && startNursery <= w < endNursery && x == w - w % AllocAlign;
        assert w in words;
      } else if x in last {
        assert words[n] in words;
      }
      if exists w :: w in words && startNursery <= w < endNursery && x == w - w % AllocAlign {
        var w :| w in words && startNursery <= w < endNursery && x == w - w % AllocAlign;
        if w in words[..n] {
          assert x in c;
        } else {
          assert w == words[n] && x in last;
        }
      }
    }
  }

  /** With an aligned nursery every queued value is itself a nursery address. */
  lemma {:induction false} CandidatesInNursery(words: seq<Word>, startNursery: nat, endNursery: nat, k: nat)
    requires startNursery % AllocAlign == 0
    requires k < |Candidates(words, startNursery, endNursery)|
    ensures startNursery <= Candidates(words, startNursery, endNursery)[k] < endNursery
  {
    var n := |words| - 1;
    var c := Candidates(words[..n], startNursery, endNursery);
    if k < |c| {
      CandidatesInNursery(words[..n], startNursery, endNursery, k);
    }
  }

  // ------------------------------------------------------------------ the queue

  /** pin_queue with its capacity pin_queue_size (the array length) and next_pin_slot. */
  class PinQueue {
    var queue: array<Word>
    var nextPinSlot: nat

    ghost predicate Valid()
      reads this
    {
      nextPinSlot <= queue.Length && (queue.Length == 0 || queue.Length >= 1024)
    }

    constructor ()
      ensures Valid() && nextPinSlot == 0 && queue.Length == 0
    {
      queue := new Word[0];
      nextPinSlot := 0;
    }

    /** The queued addresses pin_queue[0..next_pin_slot). */
    function Queued(): (r: seq<Word>)
      requires Valid()
      reads this, queue
      ensures |r| == nextPinSlot
    {
      queue[..nextPinSlot]
    }

    /**
     * realloc_pin_queue: grow to 1.5 times the capacity (1024 slots the first
     * time), keeping the queued addresses.
     */
    method Realloc()
      requires Valid()
      modifies this
      ensures Valid() && fresh(queue)
      ensures queue.Length == if old(queue.Length) == 0 then 1024 else old(queue.Length) + old(queue.Length) / 2
      ensures queue.Length > old(queue.Length)
      ensures nextPinSlot == old(nextPinSlot) && Queued() == old(Queued())
    {
      var newSize := if queue.Length != 0 then queue.Length + queue.Length / 2 else 1024;
      var newPin := new Word[newSize];
      var i := 0;
      while i < nextPinSlot
        invariant queue == old(queue) && nextPinSlot == old(nextPinSlot)
        invariant 0 <= i <= nextPinSlot <= queue.Length < newPin.Length == newSize
        invariant newPin[..i] == queue[..i]
      {
        newPin[i] := queue[i];
        i := i + 1;
      }
      queue := newPin;
    }

    /**
     * conservatively_pin_objects_from: queue every word of the scanned range
     * that points into [startNursery, endNursery), rounded down to ALLOC_ALIGN,
     * growing the queue when it is full.
     */
    method ConservativelyPinObjectsFrom(words: seq<Word>, startNursery: nat, endNursery: nat)
      requires Valid()
      modifies this, queue
      ensures Valid()
      ensures Queued() == old(Queued()) + Candidates(words, startNursery, endNursery)
    {
      ghost var q0 := Queued();
      var i := 0;
      while i < |words|
        invariant 0 <= i <= |words| && Valid()
        invariant Queued() == q0 + Candidates(words[..i], startNursery, endNursery)
        invariant queue == old(queue) || fresh(queue)
      {
        var w := words[i];
        CandidatesStep(words, startNursery, endNursery, i);
        if startNursery <= w < endNursery {
          PinAddress(w - w % AllocAlign);
          AppendAssoc(q0, Candidates(words[..i], startNursery, endNursery), [w - w % AllocAlign]);
        }
        i := i + 1;
      }
      assert words[..i] == words;
    }

    /** Queue one address at next_pin_slot, growing the queue first when it is full. */
    method PinAddress(addr: Word)
      requires Valid()
      modifies this, queue
      ensures Valid() && Queued() == old(Queued()) + [addr]
      ensures queue == old(queue) || fresh(queue)
    {
      if nextPinSlot >= queue.Length {
        Realloc();
      }
      queue[nextPinSlot] := addr;
      nextPinSlot := nextPinSlot + 1;
    }
  
    /**
     * optimize_pin_queue: sort pin_queue[startSlot..next_pin_slot) and drop
     * repeated addresses, shrinking next_pin_slot.
     */
    method OptimizePinQueue(startSlot: nat)
      requires Valid() && startSlot <= nextPinSlot
      modifies this, queue
      ensures Valid() && queue == old(queue)
      ensures startSlot <= nextPinSlot <= old(nextPinSlot)
      ensures Queued()[..startSlot] == old(Queued())[..startSlot]
      ensures StrictlyIncreasing(Queued()[startSlot..])
      ensures Elems(Queued()[startSlot..]) == Elems(old(Queued())[startSlot..])
    {
      var q := queue;
      var end := nextPinSlot;
      ghost var orig := q[..end];
      if end - startSlot > 1 {
        SortAddresses(q, startSlot, end - startSlot);
      }
      assert orig[startSlot..] == old(q[startSlot..end]);
      MultisetElems(q[startSlot..end], orig[startSlot..]);
      ghost var prefix := q[..startSlot];
      assert prefix == orig[..startSlot];
      var w := Uniq(q, startSlot, end);
      assert q[..startSlot] == prefix;
      assert q[..w][..startSlot] == q[..startSlot];
      assert q[..w][startSlot..] == q[startSlot..w];
      nextPinSlot := w;
    }
  }

  /**
   * The de-duplicating scan of optimize_pin_queue over the sorted
   * q[lo..end): each run of equal addresses is written once, from lo on.
   * The scan tests its bound before it reads the slot.
   */
  method Uniq(q: array<Word>, lo: nat, end: nat) returns (w: nat)
    requires lo <= end <= q.Length && Sorted(q[lo..end])
    modifies q
    ensures lo <= w <= end
    ensures forall i :: 0 <= i < lo ==> q[i] == old(q[i])
    ensures StrictlyIncreasing(q[lo..w])
    ensures Elems(q[lo..w]) == Elems(old(q[lo..end]))
  {
    ghost var sorted := q[..];
    assert sorted[lo..end] == q[lo..end];
    w := lo;
    var r := lo;
    while r < end
      invariant lo <= w <= r <= end
      invariant forall i :: 0 <= i < lo ==> q[i] == sorted[i]
      invariant forall i :: r <= i < end ==> q[i] == sorted[i]
      invariant StrictlyIncreasing(q[lo..w])
      invariant w == lo <==> r == lo
      invariant w > lo ==> q[w - 1] == sorted[r - 1]
      invariant w > lo && r < end ==> sorted[r - 1] < sorted[r]
      invariant Elems(q[lo..w]) == Elems(sorted[lo..r])
    {
      r := UniqStep(q, lo, w, r, end, sorted);
      w := w + 1;
    }
  }

  /** One round of the de-duplicating scan: keep q[r] at q[w], then skip its copies. */
  method UniqStep(q: array<Word>, lo: nat, w: nat, r0: nat, end: nat, ghost sorted: seq<Word>)
    returns (r: nat)
    requires lo <= w <= r0 < end <= q.Length == |sorted|
    requires Sorted(sorted[lo..end])
    requires forall i :: r0 <= i < end ==> q[i] == sorted[i]
    requires StrictlyIncreasing(q[lo..w])
    requires w == lo <==> r0 == lo
    requires w > lo ==> q[w - 1] == sorted[r0 - 1] && sorted[r0 - 1] < sorted[r0]
    requires Elems(q[lo..w]) == Elems(sorted[lo..r0])
    modifies q
    ensures r0 < r <= end
    ensures forall i :: 0 <= i < q.Length && i != w ==> q[i] == old(q[i])
    ensures StrictlyIncreasing(q[lo..w + 1])
    ensures q[w] == sorted[r - 1] && (r < end ==> sorted[r - 1] < sorted[r])
    ensures Elems(q[lo..w + 1]) == Elems(sorted[lo..r])
  {
    ghost var done := q[lo..w];
    q[w] := q[r0];
    assert q[lo..w] == done && q[w] == sorted[r0];
    r := SkipRun(q, w, lo, r0 + 1, end, sorted);
    assert q[lo..w + 1] == done + [sorted[r0]];
    AppendElems(done, sorted[r0]);
    SliceSnoc(sorted, lo, r0);
    AppendElems(sorted[lo..r0], sorted[r0]);
    AppendIncreasing(done, sorted[r0]);
  }

  lemma SliceSnoc(s: seq<Word>, lo: nat, k: nat)
    requires lo <= k < |s|
    ensures s[lo..k + 1] == s[lo..k] + [s[k]]
  {
  }

  lemma AppendIncreasing(s: seq<Word>, x: Word)
    requires StrictlyIncreasing(s) && (|s| > 0 ==> s[|s| - 1] < x)
    ensures StrictlyIncreasing(s + [x])
  {
  }

  /**
   * The inner scan of optimize_pin_queue: step over the copies of q[w].  The
   * bound is checked before the slot is read (SkipReads); sgen-gc.c reads
   * first (SkipReadsAsWritten).
   */
  method SkipRun(q: array<Word>, w: nat, lo: nat, r0: nat, end: nat, ghost sorted: seq<Word>)
    returns (r: nat)
    requires lo <= w < r0 <= end <= q.Length == |sorted|
    requires Sorted(sorted[lo..end]) && forall i :: r0 <= i < end ==> q[i] == sorted[i]
    requires q[w] == sorted[r0 - 1]
    ensures r0 <= r <= end
    ensures r < end ==> sorted[r - 1] < sorted[r]
    ensures sorted[r - 1] == sorted[r0 - 1]
    ensures Elems(sorted[lo..r]) == Elems(sorted[lo..r0])
    ensures forall k :: r0 <= k < r ==> q[k] == q[w]
    ensures r < end ==> q[r] != q[w]
  {
    r := r0;
    while r < end && q[w] == q[r]
      invariant r0 <= r <= end
      invariant sorted[r - 1] == sorted[r0 - 1]
      invariant Elems(sorted[lo..r]) == Elems(sorted[lo..r0])
      invariant forall k :: r0 <= k < r ==> q[k] == q[w]
    {
      SliceSnoc(sorted, lo, r);
      AppendElems(sorted[lo..r], sorted[r]);
      r := r + 1;
    }
    if r < end {
      assert sorted[r] == q[r] && sorted[lo..end][r - 1 - lo] == sorted[r - 1];
    }
  }

  /** The slots lo, lo + 1, …, hi - 1. */
  function Slots(lo: nat, hi: nat): (r: seq<nat>)
    requires lo <= hi
    ensures |r| == hi - lo
    decreases hi - lo
  {
    if lo == hi then [] else Slots(lo, hi - 1) + [hi - 1]
  }

  /**
   * The slots the inner scan of optimize_pin_queue reads from slot r on,
   * in the order sgen-gc.c tests them: `*start == *cur` is read before
   * `cur < end` is checked, so every slot the scan stops at is read, end
   * itself included.
   */
  function SkipReadsAsWritten(q: seq<Word>, w: nat, r: nat, end: nat): (slots: seq<nat>)
    requires w < |q| && r <= end <= |q|
    ensures |slots| > 0 && slots[0] == r
    decreases end - r
  {
    if r < end && q[w] == q[r] then [r] + SkipReadsAsWritten(q, w, r + 1, end) else [r]
  }

  /** When the run of q[w] goes on to end, the scan as written reads slot end. */
  lemma {:induction false} SkipReadsAsWrittenReachEnd(q: seq<Word>, w: nat, r: nat, end: nat)
    requires w < |q| && r <= end <= |q|
    requires forall k :: r <= k < end ==> q[k] == q[w]
    ensures end in SkipReadsAsWritten(q, w, r, end)
    decreases end - r
  {
    if r < end {
      SkipReadsAsWrittenReachEnd(q, w, r + 1, end);
    }
  }

  /**
   * A full pin queue [a, a] (next_pin_slot == pin_queue_size == 2): the
   * scan reads pin_queue[2], one slot past the buffer.
   */
  lemma SkipRunReadsPastEnd()
    ensures SkipReadsAsWritten([8, 8], 0, 1, 2) == [1, 2]
  {
  }

  /**
   * The slots the inner scan reads with the bound checked first, as SkipRun
   * does: a slot is read only while cur < end.
   */
  function SkipReads(q: seq<Word>, w: nat, r: nat, end: nat): (slots: seq<nat>)
    requires w < |q| && r <= end <= |q|
    ensures r < end ==> |slots| > 0 && slots[0] == r
    decreases end - r
  {
    if r < end then (if q[w] == q[r] then [r] + SkipReads(q, w, r + 1, end) else [r]) else []
  }

  /**
   * Where SkipRun stops fixes what the scan reads: the copies it stepped
   * over, then the slot it stopped at when that is before end.
   */
  lemma {:induction false} SkipRunReads(q: seq<Word>, w: nat, r0: nat, r: nat, end: nat)
    requires w < |q| && r0 <= r <= end <= |q|
    requires forall k :: r0 <= k < r ==> q[k] == q[w]
    requires r < end ==> q[r] != q[w]
    ensures SkipReads(q, w, r0, end) == Slots(r0, r) + (if r < end then [r] else [])
    decreases r - r0
  {
    if r0 < r {
      SkipRunReads(q, w, r0 + 1, r, end);
      SlotsCons(r0, r);
      AppendAssoc([r0], Slots(r0 + 1, r), if r < end then [r] else []);
    }
  }

  /** Slots(lo, hi) starts with lo. */
  lemma {:induction false} SlotsCons(lo: nat, hi: nat)
    requires lo < hi
    ensures Slots(lo, hi) == [lo] + Slots(lo + 1, hi)
    decreases hi - lo
  {
    if lo + 1 < hi {
      SlotsCons(lo, hi - 1);
      AppendAssoc([lo], Slots(lo + 1, hi - 1), [hi - 1]);
    }
  }

  lemma AppendAssoc<T>(x: seq<T>, y: seq<T>, z: seq<T>)
    ensures x + (y + z) == (x + y) + z
  {
  }

  /** The scan with the bound checked first reads only slots of [r, end). */
  lemma {:induction false} SkipReadsInBounds(q: seq<Word>, w: nat, r: nat, end: nat)
    requires w < |q| && r <= end <= |q|
    ensures forall k :: k in SkipReads(q, w, r, end) ==> r <= k < end
    decreases end - r
  {
    if r < end && q[w] == q[r] {
      SkipReadsInBounds(q, w, r + 1, end);
    }
  }

  lemma AppendElems(s: seq<Word>, x: Word)
    ensures Elems(s + [x]) == Elems(s) + {x}
  {
  }

  lemma MultisetElems(s: seq<Word>, t: seq<Word>)
    requires multiset(s) == multiset(t)
    ensures Elems(s) == Elems(t)
  {
    forall x | x in s ensures x in t {
      assert x in multiset(s);
    }
    forall x | x in t ensures x in s {
      assert x in multiset(t);
    }
  }
}
