/**
 * The nursery allocator of the sgen collector (sgen-gc.c).
 *
 * After a nursery collection the free space between the pinned objects that
 * stayed in the nursery becomes a list of fragments.  A thread allocates from
 * its thread-local allocation buffer (TLAB), carved out of the current
 * fragment; a small object takes the next `size` bytes of the TLAB.
 */
module GcNursery {
  import opened GcDescriptors
  import opened GcHeap
  import opened GcSections

  /** FRAGMENT_MIN_SIZE: smaller gaps are not worth listing. */
  const FragmentMinSize: nat := 512
  /** tlab_size */
  const TlabSize: nat := 1024 * 4

  /** nursery_clear_policy: zero free space when the collector ends, or when a TLAB is handed out. */
  datatype ClearPolicy = ClearAtGc | ClearAtTlabCreation

  /** A free block of the nursery: start, current soft limit, end. */
  datatype Fragment = Fragment(start: nat, limit: nat, end: nat)

  /** A non-empty stretch of free nursery memory. */
  datatype Gap = Gap(start: nat, end: nat)

  /** The words of [a, b) set to zero (memset). */
  function Zeroed(m: Heap, a: nat, b: nat): (r: Heap)
    ensures |r| == |m|
  {
    seq(|m|, k requires 0 <= k < |m| => if a / 8 <= k < b / 8 then 0 else m[k])
  }

  // ------------------------------------------------------------------ the gaps between pinned objects

  /** The end of the pinned object at p, its size rounded up to ALLOC_ALIGN. */
  function ObjectEnd(m0: Heap, size: (Heap, nat) -> nat, p: nat): (r: nat)
    ensures r % 8 == 0 <== p % 8 == 0
    ensures p <= r
  {
    var s := AlignedSize(size(m0, p));
    assert p % 8 == 0 ==> p + s == 8 * (p / 8 + s / 8);
    p + s
  }

  /** Where free space may start after the pinned objects pins: the end of the last one. */
  function FreeFrom(m0: Heap, size: (Heap, nat) -> nat, nurseryStart: nat, pins: seq<nat>): nat
  {
    if |pins| == 0 then nurseryStart else ObjectEnd(m0, size, pins[|pins| - 1])
  }

  /**
   * The pinned objects are aligned, lie in the nursery in increasing order,
   * and each ends before the next begins.
   */
  ghost predicate PinsInOrder(m0: Heap, size: (Heap, nat) -> nat, nurseryStart: nat, realEnd: nat, pins: seq<nat>)
    decreases |pins|
  {
    && nurseryStart % 8 == 0
    && if |pins| == 0 then nurseryStart <= realEnd
       else
         var ps, p := pins[..|pins| - 1], pins[|pins| - 1];
         && PinsInOrder(m0, size, nurseryStart, realEnd, ps)
         && p % 8 == 0 && FreeFrom(m0, size, nurseryStart, ps) <= p < realEnd
         && ObjectEnd(m0, size, p) <= realEnd
  }

  /** The gaps in front of each pinned object, in address order. */
  function GapsBefore(m0: Heap, size: (Heap, nat) -> nat, nurseryStart: nat, pins: seq<nat>): seq<Gap>
  {
    if |pins| == 0 then []
    else
      var ps := pins[..|pins| - 1];
      var f, p := FreeFrom(m0, size, nurseryStart, ps), pins[|pins| - 1];
      GapsBefore(m0, size, nurseryStart, ps) + (if f < p then [Gap(f, p)] else [])
  }

  /** All the gaps: those before the pinned objects, then the one up to the end of the nursery. */
  function Gaps(m0: Heap, size: (Heap, nat) -> nat, nurseryStart: nat, realEnd: nat, pins: seq<nat>): seq<Gap>
  {
    var f := FreeFrom(m0, size, nurseryStart, pins);
    GapsBefore(m0, size, nurseryStart, pins) + (if f < realEnd then [Gap(f, realEnd)] else [])
  }

  predicate Big(g: Gap)
  {
    g.end - g.start >= FragmentMinSize
  }

  /** The fragment list after pushing, in order, every big gap onto its head. */
  function Pushed(gaps: seq<Gap>): seq<Fragment>
  {
    if |gaps| == 0 then []
    else
      var g := gaps[|gaps| - 1];
      (if Big(g) then [Fragment(g.start, g.start, g.end)] else []) + Pushed(gaps[..|gaps| - 1])
  }

  /** Every listed fragment is a big gap, with its limit at its start. */
  lemma {:induction false} PushedAreBigGaps(gaps: seq<Gap>, k: nat)
    requires k < |Pushed(gaps)|
    ensures var f := Pushed(gaps)[k];
      f.limit == f.start && Gap(f.start, f.end) in gaps && Big(Gap(f.start, f.end))
  {
    var n := |gaps| - 1;
    var g := gaps[n];
    var head := if Big(g) then [Fragment(g.start, g.start, g.end)] else [];
    if k >= |head| {
      PushedAreBigGaps(gaps[..n], k - |head|);
    }
  }

  /** Every big gap is listed. */
  lemma {:induction false} BigGapsArePushed(gaps: seq<Gap>, g: Gap)
    requires g in gaps && Big(g)
    ensures Fragment(g.start, g.start, g.end) in Pushed(gaps)
  {
    var n := |gaps| - 1;
    if g != gaps[n] {
      assert gaps == gaps[..n] + [gaps[n]];
      BigGapsArePushed(gaps[..n], g);
    }
  }

  /**
   * The gaps are non-empty, lie between the start of the nursery and the
   * start of the last pinned object, and miss every pinned object.
   */
  lemma {:induction false} GapsBeforeMissPins(m0: Heap, size: (Heap, nat) -> nat, nurseryStart: nat, realEnd: nat,
                                              pins: seq<nat>, g: Gap, j: nat)
    requires PinsInOrder(m0, size, nurseryStart, realEnd, pins)
    requires g in GapsBefore(m0, size, nurseryStart, pins) && j < |pins|
    ensures nurseryStart <= g.start < g.end <= pins[|pins| - 1]
    ensures g.end <= pins[j] || ObjectEnd(m0, size, pins[j]) <= g.start
  {
    var n := |pins| - 1;
    var ps := pins[..n];
    var f := FreeFrom(m0, size, nurseryStart, ps);
    assert pins[..n] == ps;
    if g in GapsBefore(m0, size, nurseryStart, ps) {
      if j < n {
        GapsBeforeMissPins(m0, size, nurseryStart, realEnd, ps, g, j);
      } else {
        GapsBeforeMissPins(m0, size, nurseryStart, realEnd, ps, g, n - 1);
        PinsIncrease(m0, size, nurseryStart, realEnd, pins, n - 1, n);
      }
    } else {
      assert g == Gap(f, pins[n]);
      if j < n {
        PinsIncrease(m0, size, nurseryStart, realEnd, pins, j, n - 1);
      }
      if n > 0 {
        assert nurseryStart <= pins[0] <= pins[n - 1] <= f by {
          PinsIncrease(m0, size, nurseryStart, realEnd, pins, 0, n - 1);
        }
      }
    }
  }

  /** An earlier pinned object ends no later than a later one starts. */
  lemma {:induction false} PinsIncrease(m0: Heap, size: (Heap, nat) -> nat, nurseryStart: nat, realEnd: nat,
                                        pins: seq<nat>, i: nat, j: nat)
    requires PinsInOrder(m0, size, nurseryStart, realEnd, pins)
    requires i <= j < |pins|
    ensures nurseryStart <= pins[i] <= pins[j]
    ensures i < j ==> ObjectEnd(m0, size, pins[i]) <= pins[j]
    ensures pins[i] % 8 == 0 && pins[j] % 8 == 0 && pins[j] < realEnd
    decreases |pins|
  {
    var n := |pins| - 1;
    var ps := pins[..n];
    if j < n {
      PinsIncrease(m0, size, nurseryStart, realEnd, ps, i, j);
      assert ps[i] == pins[i] && ps[j] == pins[j];
    } else if n > 0 {
      PinsIncrease(m0, size, nurseryStart, realEnd, ps, if i < n then i else n - 1, n - 1);
      assert ps[n - 1] == pins[n - 1];
      assert ObjectEnd(m0, size, pins[n - 1]) <= pins[n];
      if i < n {
        assert ps[i] == pins[i];
      }
    }
  }

  /**
   * All the gaps lie in the nursery, are non-empty and miss every pinned
   * object.
   */
  lemma GapsMissPins(m0: Heap, size: (Heap, nat) -> nat, nurseryStart: nat, realEnd: nat,
                     pins: seq<nat>, g: Gap, j: nat)
    requires PinsInOrder(m0, size, nurseryStart, realEnd, pins)
    requires g in Gaps(m0, size, nurseryStart, realEnd, pins) && j < |pins|
    ensures nurseryStart <= g.start < g.end <= realEnd
    ensures g.end <= pins[j] || ObjectEnd(m0, size, pins[j]) <= g.start
  {
    var n := |pins| - 1;
    if g in GapsBefore(m0, size, nurseryStart, pins) {
      GapsBeforeMissPins(m0, size, nurseryStart, realEnd, pins, g, j);
      PinsIncrease(m0, size, nurseryStart, realEnd, pins, n, n);
    } else {
      PinsIncrease(m0, size, nurseryStart, realEnd, pins, j, n);
    }
  }

  /**
   * The gaps before the pinned objects and the objects themselves cover the
   * nursery up to the end of the last object.
   */
  lemma {:induction false} GapsBeforeCover(m0: Heap, size: (Heap, nat) -> nat, nurseryStart: nat, realEnd: nat,
                                           pins: seq<nat>, a: nat)
    requires PinsInOrder(m0, size, nurseryStart, realEnd, pins)
    requires nurseryStart <= a < FreeFrom(m0, size, nurseryStart, pins)
    ensures (exists g :: g in GapsBefore(m0, size, nurseryStart, pins) && g.start <= a < g.end)
         || (exists j :: 0 <= j < |pins| && pins[j] <= a < ObjectEnd(m0, size, pins[j]))
  {
    var n := |pins| - 1;
    var ps := pins[..n];
    var f, p := FreeFrom(m0, size, nurseryStart, ps), pins[n];
    assert pins[..n] == ps;
    if a < f {
      GapsBeforeCover(m0, size, nurseryStart, realEnd, ps, a);
      if exists j :: 0 <= j < |ps| && ps[j] <= a < ObjectEnd(m0, size, ps[j]) {
        var j :| 0 <= j < |ps| && ps[j] <= a < ObjectEnd(m0, size, ps[j]);
        assert pins[j] == ps[j];
      }
    } else if a < p {
      assert Gap(f, p) in GapsBefore(m0, size, nurseryStart, pins);
    } else {
      assert pins[n] <= a < ObjectEnd(m0, size, pins[n]);
    }
  }

  /** Every nursery address lies in a gap or in a pinned object. */
  lemma GapsCover(m0: Heap, size: (Heap, nat) -> nat, nurseryStart: nat, realEnd: nat, pins: seq<nat>, a: nat)
    requires PinsInOrder(m0, size, nurseryStart, realEnd, pins)
    requires nurseryStart <= a < realEnd
    ensures (exists g :: g in Gaps(m0, size, nurseryStart, realEnd, pins) && g.start <= a < g.end)
         || (exists j :: 0 <= j < |pins| && pins[j] <= a < ObjectEnd(m0, size, pins[j]))
  {
    var f := FreeFrom(m0, size, nurseryStart, pins);
    if a < f {
      GapsBeforeCover(m0, size, nurseryStart, realEnd, pins, a);
    } else {
      assert Gap(f, realEnd) in Gaps(m0, size, nurseryStart, realEnd, pins);
    }
  }

  // ------------------------------------------------------------------ the heap after the rebuild

  /** A gap is zeroed when the policy clears at collection time, and whenever it is too small to list. */
  predicate Cleared(policy: ClearPolicy, g: Gap)
  {
    policy == ClearAtGc || !Big(g)
  }

  /**
   * The heap after the loop over pins: each pinned object loses its PINNED
   * bit, then the gap in front of it is zeroed if Cleared says so.
   */
  function AfterPins(m0: Heap, size: (Heap, nat) -> nat, nurseryStart: nat, policy: ClearPolicy, pins: seq<nat>): (r: Heap)
    ensures |r| == |m0|
  {
    if |pins| == 0 then m0
    else
      var ps := pins[..|pins| - 1];
      var m, f, p := AfterPins(m0, size, nurseryStart, policy, ps), FreeFrom(m0, size, nurseryStart, ps), pins[|pins| - 1];
      var unpinned := if p / 8 < |m| then m[p / 8 := WithoutPinned(m[p / 8])] else m;
      if f < p && Cleared(policy, Gap(f, p)) then Zeroed(unpinned, f, p) else unpinned
  }

  /** The heap after build_nursery_fragments: AfterPins, then the last gap zeroed if Cleared says so. */
  function RebuiltHeap(m0: Heap, size: (Heap, nat) -> nat, nurseryStart: nat, realEnd: nat,
                       policy: ClearPolicy, pins: seq<nat>): (r: Heap)
    ensures |r| == |m0|
  {
    var m, f := AfterPins(m0, size, nurseryStart, policy, pins), FreeFrom(m0, size, nurseryStart, pins);
    if f < realEnd && Cleared(policy, Gap(f, realEnd)) then Zeroed(m, f, realEnd) else m
  }

  /** A pinned object of positive size ends past its start. */
  lemma ObjectEndBeyond(m0: Heap, size: (Heap, nat) -> nat, p: nat)
    requires PositiveSizes(size)
    ensures p < ObjectEnd(m0, size, p)
  {
    assert size(m0, p) > 0;
  }

  /** A word below an aligned address b lies below word b / 8. */
  lemma WordBelow(a: nat, b: nat)
    requires a < b && b % 8 == 0
    ensures a / 8 < b / 8
  {
  }

  /** One step of AfterPins: what the last pinned object does to a word. */
  lemma AfterPinsLast(m0: Heap, size: (Heap, nat) -> nat, nurseryStart: nat, policy: ClearPolicy, pins: seq<nat>, k: nat)
    requires |pins| > 0 && k < |m0|
    ensures var ps, p := pins[..|pins| - 1], pins[|pins| - 1];
      var f := FreeFrom(m0, size, nurseryStart, ps);
      var r, m := AfterPins(m0, size, nurseryStart, policy, pins), AfterPins(m0, size, nurseryStart, policy, ps);
      && (f < p && Cleared(policy, Gap(f, p)) && f / 8 <= k < p / 8 ==> r[k] == 0)
      && (k == p / 8 ==> r[k] == WithoutPinned(m[k]))
      && (k != p / 8 && !(f < p && Cleared(policy, Gap(f, p)) && f / 8 <= k < p / 8) ==> r[k] == m[k])
  {
  }

  /** Words from the end of the last pinned object on are untouched by the loop. */
  lemma {:induction false} AfterPinsAbove(m0: Heap, size: (Heap, nat) -> nat, nurseryStart: nat, realEnd: nat,
                                          policy: ClearPolicy, pins: seq<nat>, k: nat)
    requires PositiveSizes(size) && PinsInOrder(m0, size, nurseryStart, realEnd, pins)
    requires FreeFrom(m0, size, nurseryStart, pins) / 8 <= k < |m0|
    ensures AfterPins(m0, size, nurseryStart, policy, pins)[k] == m0[k]
  {
    if |pins| > 0 {
      var n := |pins| - 1;
      var ps := pins[..n];
      PinsIncrease(m0, size, nurseryStart, realEnd, pins, n, n);
      ObjectEndBeyond(m0, size, pins[n]);
      AfterPinsLast(m0, size, nurseryStart, policy, pins, k);
      assert FreeFrom(m0, size, nurseryStart, ps) <= pins[n] < ObjectEnd(m0, size, pins[n]);
      AfterPinsAbove(m0, size, nurseryStart, realEnd, policy, ps, k);
    }
  }

  /** The last pinned object leaves the header of an earlier one alone. */
  lemma AfterPinsSkipsEarlier(m0: Heap, size: (Heap, nat) -> nat, nurseryStart: nat, realEnd: nat,
                              policy: ClearPolicy, pins: seq<nat>, j: nat)
    requires PositiveSizes(size) && PinsInOrder(m0, size, nurseryStart, realEnd, pins)
    requires realEnd <= 8 * |m0| && j < |pins| - 1
    ensures pins[j] / 8 < |m0|
    ensures AfterPins(m0, size, nurseryStart, policy, pins)[pins[j] / 8]
         == AfterPins(m0, size, nurseryStart, policy, pins[..|pins| - 1])[pins[j] / 8]
  {
    var n := |pins| - 1;
    var ps := pins[..n];
    var f := FreeFrom(m0, size, nurseryStart, ps);
    PinsIncrease(m0, size, nurseryStart, realEnd, pins, n - 1, n);
    PinsIncrease(m0, size, nurseryStart, realEnd, pins, j, n - 1);
    ObjectEndBeyond(m0, size, pins[n - 1]);
    assert ps[n - 1] == pins[n - 1];
    assert pins[j] < f <= pins[n] && f % 8 == 0;
    WordBelow(pins[j], f);
    WordBelow(pins[j], pins[n]);
    AfterPinsLast(m0, size, nurseryStart, policy, pins, pins[j] / 8);
  }

  /** The loop clears the PINNED bit of every pinned object and keeps the rest of its header word. */
  lemma {:induction false} AfterPinsUnpins(m0: Heap, size: (Heap, nat) -> nat, nurseryStart: nat, realEnd: nat,
                                           policy: ClearPolicy, pins: seq<nat>, j: nat)
    requires PositiveSizes(size) && PinsInOrder(m0, size, nurseryStart, realEnd, pins)
    requires realEnd <= 8 * |m0| && j < |pins|
    ensures pins[j] / 8 < |m0|
         && AfterPins(m0, size, nurseryStart, policy, pins)[pins[j] / 8] == WithoutPinned(m0[pins[j] / 8])
  {
    var n := |pins| - 1;
    var ps := pins[..n];
    var q := pins[j] / 8;
    PinsIncrease(m0, size, nurseryStart, realEnd, pins, j, j);
    AfterPinsLast(m0, size, nurseryStart, policy, pins, q);
    if j < n {
      assert ps[j] == pins[j];
      AfterPinsUnpins(m0, size, nurseryStart, realEnd, policy, ps, j);
      AfterPinsSkipsEarlier(m0, size, nurseryStart, realEnd, policy, pins, j);
    } else {
      assert FreeFrom(m0, size, nurseryStart, pins[..n]) <= pins[n];
      AfterPinsAbove(m0, size, nurseryStart, realEnd, policy, ps, q);
      assert AfterPins(m0, size, nurseryStart, policy, pins)[q] == WithoutPinned(AfterPins(m0, size, nurseryStart, policy, ps)[q]);
    }
  }

  /** The loop zeroes every gap before a pinned object that Cleared selects. */
  lemma {:induction false} AfterPinsClears(m0: Heap, size: (Heap, nat) -> nat, nurseryStart: nat, realEnd: nat,
                                           policy: ClearPolicy, pins: seq<nat>, g: Gap, k: nat)
    requires PositiveSizes(size) && PinsInOrder(m0, size, nurseryStart, realEnd, pins)
    requires g in GapsBefore(m0, size, nurseryStart, pins) && Cleared(policy, g) && g.start / 8 <= k < g.end / 8
    requires k < |m0|
    ensures AfterPins(m0, size, nurseryStart, policy, pins)[k] == 0
  {
    var n := |pins| - 1;
    var ps := pins[..n];
    AfterPinsLast(m0, size, nurseryStart, policy, pins, k);
    if g in GapsBefore(m0, size, nurseryStart, ps) {
      AfterPinsClears(m0, size, nurseryStart, realEnd, policy, ps, g, k);
      GapsBeforeMissPins(m0, size, nurseryStart, realEnd, ps, g, n - 1);
      PinsIncrease(m0, size, nurseryStart, realEnd, pins, n - 1, n);
      ObjectEndBeyond(m0, size, pins[n - 1]);
    }
  }

  /** Words that are no pinned object's header and lie in no cleared gap keep their value. */
  lemma {:induction false} AfterPinsKeeps(m0: Heap, size: (Heap, nat) -> nat, nurseryStart: nat, realEnd: nat,
                                          policy: ClearPolicy, pins: seq<nat>, k: nat)
    requires PinsInOrder(m0, size, nurseryStart, realEnd, pins)
    requires k < |m0|
    requires forall j :: 0 <= j < |pins| ==> pins[j] / 8 != k
    requires forall g :: g in GapsBefore(m0, size, nurseryStart, pins) && Cleared(policy, g) ==> !(g.start / 8 <= k < g.end / 8)
    ensures AfterPins(m0, size, nurseryStart, policy, pins)[k] == m0[k]
  {
    if |pins| > 0 {
      var n := |pins| - 1;
      var ps := pins[..n];
      AfterPinsLast(m0, size, nurseryStart, policy, pins, k);
      assert pins[n] / 8 != k;
      forall g | g in GapsBefore(m0, size, nurseryStart, ps) && Cleared(policy, g)
        ensures !(g.start / 8 <= k < g.end / 8)
      {
        assert g in GapsBefore(m0, size, nurseryStart, pins);
      }
      AfterPinsKeeps(m0, size, nurseryStart, realEnd, policy, ps, k);
    }
  }

  /** The heap after build_nursery_fragments has unpinned every pinned object. */
  lemma RebuiltUnpins(m0: Heap, size: (Heap, nat) -> nat, nurseryStart: nat, realEnd: nat,
                      policy: ClearPolicy, pins: seq<nat>, j: nat)
    requires PositiveSizes(size) && PinsInOrder(m0, size, nurseryStart, realEnd, pins)
    requires realEnd <= 8 * |m0| && j < |pins|
    ensures pins[j] / 8 < |m0|
         && RebuiltHeap(m0, size, nurseryStart, realEnd, policy, pins)[pins[j] / 8] == WithoutPinned(m0[pins[j] / 8])
  {
    var n := |pins| - 1;
    AfterPinsUnpins(m0, size, nurseryStart, realEnd, policy, pins, j);
    PinsIncrease(m0, size, nurseryStart, realEnd, pins, j, n);
    ObjectEndBeyond(m0, size, pins[n]);
    WordBelow(pins[j], FreeFrom(m0, size, nurseryStart, pins));
  }

  /** The heap after build_nursery_fragments is zero throughout every cleared gap. */
  lemma RebuiltClears(m0: Heap, size: (Heap, nat) -> nat, nurseryStart: nat, realEnd: nat,
                      policy: ClearPolicy, pins: seq<nat>, g: Gap, k: nat)
    requires PositiveSizes(size) && PinsInOrder(m0, size, nurseryStart, realEnd, pins)
    requires g in Gaps(m0, size, nurseryStart, realEnd, pins) && Cleared(policy, g)
    requires g.start / 8 <= k < g.end / 8 && k < |m0|
    ensures RebuiltHeap(m0, size, nurseryStart, realEnd, policy, pins)[k] == 0
  {
    if g in GapsBefore(m0, size, nurseryStart, pins) {
      AfterPinsClears(m0, size, nurseryStart, realEnd, policy, pins, g, k);
    }
  }

  /** Outside pinned headers and cleared gaps the heap is as it was. */
  lemma RebuiltKeeps(m0: Heap, size: (Heap, nat) -> nat, nurseryStart: nat, realEnd: nat,
                     policy: ClearPolicy, pins: seq<nat>, k: nat)
    requires PinsInOrder(m0, size, nurseryStart, realEnd, pins)
    requires k < |m0|
    requires forall j :: 0 <= j < |pins| ==> pins[j] / 8 != k
    requires forall g :: g in Gaps(m0, size, nurseryStart, realEnd, pins) && Cleared(policy, g) ==> !(g.start / 8 <= k < g.end / 8)
    ensures RebuiltHeap(m0, size, nurseryStart, realEnd, policy, pins)[k] == m0[k]
  {
    var f := FreeFrom(m0, size, nurseryStart, pins);
    if f < realEnd {
      assert Gap(f, realEnd) in Gaps(m0, size, nurseryStart, realEnd, pins);
    }
    AfterPinsKeeps(m0, size, nurseryStart, realEnd, policy, pins, k);
  }

  // ------------------------------------------------------------------ scan starts and fragment totals

  /** n cleared words. */
  function Zeros(n: nat): (r: seq<nat>)
    ensures |r| == n && forall k :: 0 <= k < n ==> r[k] == 0
  {
    seq(n, _ => 0)
  }

  /** The scan-start slot of an address of the section at sectionData. */
  function Slot(sectionData: nat, p: nat): nat
    requires sectionData <= p
  {
    (p - sectionData) / ScanStartSize
  }

  /** The scan starts after recording every pinned object in its slot, in order. */
  function RecordScanStarts(starts: seq<nat>, sectionData: nat, pins: seq<nat>): (r: seq<nat>)
    ensures |r| == |starts|
  {
    if |pins| == 0 then starts
    else
      var m, p := RecordScanStarts(starts, sectionData, pins[..|pins| - 1]), pins[|pins| - 1];
      if sectionData <= p && Slot(sectionData, p) < |m| then m[Slot(sectionData, p) := p] else m
  }

  /**
   * Recording into cleared scan starts leaves every slot either clear or
   * holding a pinned object of that slot, and gives every pinned object's
   * slot the last pinned object in it, at or after that object.
   */
  lemma {:induction false} RecordedScanStarts(starts: seq<nat>, sectionData: nat, pins: seq<nat>)
    requires forall k :: 0 <= k < |starts| ==> starts[k] == 0
    requires forall j :: 0 <= j < |pins| ==> sectionData <= pins[j] && Slot(sectionData, pins[j]) < |starts|
    requires forall i, j :: 0 <= i < j < |pins| ==> pins[i] < pins[j]
    ensures var r := RecordScanStarts(starts, sectionData, pins);
      forall k :: 0 <= k < |r| && r[k] != 0 ==> r[k] in pins && sectionData <= r[k] && Slot(sectionData, r[k]) == k
    ensures var r := RecordScanStarts(starts, sectionData, pins);
      forall j :: 0 <= j < |pins| ==> var q := r[Slot(sectionData, pins[j])]; q in pins && pins[j] <= q
  {
    if |pins| > 0 {
      var n := |pins| - 1;
      var ps := pins[..n];
      RecordedScanStarts(starts, sectionData, ps);
      var m := RecordScanStarts(starts, sectionData, ps);
      var r := RecordScanStarts(starts, sectionData, pins);
      forall k | 0 <= k < |r| && r[k] != 0
        ensures r[k] in pins && sectionData <= r[k] && Slot(sectionData, r[k]) == k
      {
        if k != Slot(sectionData, pins[n]) {
          assert r[k] == m[k] && m[k] in ps;
        }
      }
      forall j | 0 <= j < |pins|
        ensures var q := r[Slot(sectionData, pins[j])]; q in pins && pins[j] <= q
      {
        if Slot(sectionData, pins[j]) != Slot(sectionData, pins[n]) {
          assert ps[j] == pins[j];
          assert r[Slot(sectionData, pins[j])] == m[Slot(sectionData, pins[j])];
        } else if j < n {
          assert pins[j] < pins[n];
        }
      }
    }
  }

  /** fragment_total: the bytes of the listed fragments. */
  function FragmentBytes(fs: seq<Fragment>): int
  {
    if |fs| == 0 then 0 else (fs[0].end - fs[0].start) + FragmentBytes(fs[1..])
  }

  /** The fragment records left over after `used` of them were taken from the head of a free list. */
  function Remaining(freelist: seq<Fragment>, used: nat): (r: seq<Fragment>)
    ensures |r| == if used <= |freelist| then |freelist| - used else 0
  {
    if used <= |freelist| then freelist[used..] else []
  }

  /** Every gap left by pinned objects in order starts aligned inside the nursery and ends by realEnd. */
  lemma {:induction false} FreeFromInNursery(m0: Heap, size: (Heap, nat) -> nat, nurseryStart: nat, realEnd: nat,
                                             pins: seq<nat>)
    requires PinsInOrder(m0, size, nurseryStart, realEnd, pins)
    ensures var f := FreeFrom(m0, size, nurseryStart, pins);
      f % 8 == 0 && nurseryStart <= f <= realEnd
    decreases |pins|
  {
    if |pins| > 0 {
      FreeFromInNursery(m0, size, nurseryStart, realEnd, pins[..|pins| - 1]);
    }
  }

  lemma {:induction false} GapsBeforeInNursery(m0: Heap, size: (Heap, nat) -> nat, nurseryStart: nat, realEnd: nat,
                                               pins: seq<nat>, g: Gap)
    requires PinsInOrder(m0, size, nurseryStart, realEnd, pins)
    requires g in GapsBefore(m0, size, nurseryStart, pins)
    ensures nurseryStart <= g.start && g.start % 8 == 0 && g.end <= realEnd
    decreases |pins|
  {
    var ps := pins[..|pins| - 1];
    if g in GapsBefore(m0, size, nurseryStart, ps) {
      GapsBeforeInNursery(m0, size, nurseryStart, realEnd, ps, g);
    } else {
      FreeFromInNursery(m0, size, nurseryStart, realEnd, ps);
    }
  }

  /** The fragments build_nursery_fragments lists lie in the nursery and start aligned. */
  lemma FragmentsInNursery(m0: Heap, size: (Heap, nat) -> nat, nurseryStart: nat, realEnd: nat, pins: seq<nat>, k: nat)
    requires PinsInOrder(m0, size, nurseryStart, realEnd, pins)
    requires k < |Pushed(Gaps(m0, size, nurseryStart, realEnd, pins))|
    ensures var f := Pushed(Gaps(m0, size, nurseryStart, realEnd, pins))[k];
      nurseryStart <= f.start && f.start % 8 == 0 && f.end <= realEnd
  {
    var gaps := Gaps(m0, size, nurseryStart, realEnd, pins);
    var f := Pushed(gaps)[k];
    PushedAreBigGaps(gaps, k);
    var g := Gap(f.start, f.end);
    if g in GapsBefore(m0, size, nurseryStart, pins) {
      GapsBeforeInNursery(m0, size, nurseryStart, realEnd, pins, g);
    } else {
      FreeFromInNursery(m0, size, nurseryStart, realEnd, pins);
    }
  }

  // ------------------------------------------------------------------ allocation

  /** The room of a fragment, fragment_end - fragment_start. */
  function Room(f: Fragment): int
  {
    f.end - f.start
  }

  /** The position of the first fragment with room for size bytes, if there is one. */
  function FirstFit(fs: seq<Fragment>, size: nat): (r: Option<nat>)
    ensures r.Some? ==> r.value < |fs| && size <= Room(fs[r.value])
    ensures r.Some? ==> forall j :: 0 <= j < r.value ==> Room(fs[j]) < size
    ensures r.None? <==> forall j :: 0 <= j < |fs| ==> Room(fs[j]) < size
  {
    if |fs| == 0 then None
    else if size <= Room(fs[0]) then Some(0)
    else match FirstFit(fs[1..], size)
      case None => None
      case Some(i) => Some(i + 1)
  }

  /** What mono_gc_alloc_obj does with a request, up to the points where this model stops. */
  datatype Allocation =
    | Allocated(p: nat)               // in the nursery; the vtable is in the object's first word
    | AllocatedDegraded(p: nat)       // by alloc_degraded, in an old-generation section
    | LargeObject                     // handed to alloc_large_inner
    | CollectionNeeded(request: nat)  // no fragment has room for request: a collection runs
    | NotZeroed                       // the fast path's g_assert (*p == NULL) fails

  /** The heap after the vtable store of an allocation in the nursery. */
  function WithVtable(m: Heap, r: Allocation, vtable: Word): (m': Heap)
    ensures |m'| == |m|
    ensures r.Allocated? && r.p / 8 < |m| ==> m'[r.p / 8] == vtable
    ensures forall k :: 0 <= k < |m| && !(r.Allocated? && k == r.p / 8) ==> m'[k] == m[k]
  {
    if r.Allocated? && r.p / 8 < |m| then m[r.p / 8 := vtable] else m
  }

  /** m1 is m0 with some words zeroed, except for the first word of an allocated object. */
  ghost predicate ClearedBut(m0: Heap, m1: Heap, r: Allocation)
  {
    && |m1| == |m0|
    && forall k :: 0 <= k < |m1| ==> m1[k] == m0[k] || m1[k] == 0 || (r.Allocated? && k == r.p / 8)
  }

  /** m1 is m0 with some words zeroed. */
  ghost predicate ZeroedOnly(m0: Heap, m1: Heap)
  {
    && |m1| == |m0|
    && forall k :: 0 <= k < |m1| ==> m1[k] == m0[k] || m1[k] == 0
  }

  lemma ZeroedOnlyZeroed(m0: Heap, m1: Heap, a: nat, b: nat)
    requires ZeroedOnly(m0, m1)
    ensures ZeroedOnly(m0, Zeroed(m1, a, b))
  {
  }

  lemma ZeroedOnlyThenStore(m0: Heap, m1: Heap, p: nat, vtable: Word)
    requires ZeroedOnly(m0, m1) && p / 8 < |m1|
    ensures ClearedBut(m0, m1[p / 8 := vtable], Allocated(p))
  {
  }

  // ------------------------------------------------------------------ the nursery

  /**
   * The nursery section and the allocator state around it.  The TLAB fields
   * are those of the allocating thread (thread-local in the collector).
   */
  class Nursery {
    const gc: Collector
    const clearPolicy: ClearPolicy
    const sectionData: nat              // nursery_section->data
    const nurseryStart: nat
    const nurseryRealEnd: nat
    const sectionSize: nat              // nursery_section->size
    var scanStarts: seq<nat>            // nursery_section->scan_starts
    var fragments: seq<Fragment>        // nursery_fragments, head first
    var fragmentFreelist: seq<Fragment> // fragment_freelist, head first
    var fragmentTotal: int
    var degradedMode: nat
    var nurseryNext: nat
    var nurseryFragRealEnd: nat
    var nurseryLastPinnedEnd: nat
    var tlabStart: nat
    var tlabNext: nat
    var tlabTempEnd: nat
    var tlabRealEnd: nat

    /** The nursery is an aligned, non-NULL part of the heap covered by its scan starts. */
    ghost predicate Valid()
      reads this`scanStarts, gc`mem
    {
      && 0 < nurseryStart && nurseryStart % 8 == 0
      && sectionData <= nurseryStart <= nurseryRealEnd <= 8 * |gc.mem|
      && nurseryRealEnd <= sectionData + ScanStartSize * |scanStarts|
    }

    constructor (gc: Collector, clearPolicy: ClearPolicy, sectionData: nat, nurseryStart: nat, nurseryRealEnd: nat,
                 sectionSize: nat, numScanStart: nat)
      requires 0 < nurseryStart && nurseryStart % 8 == 0
      requires sectionData <= nurseryStart <= nurseryRealEnd <= 8 * |gc.mem|
      requires nurseryRealEnd <= sectionData + ScanStartSize * numScanStart
      ensures AllocReady()
      ensures this.gc == gc && this.clearPolicy == clearPolicy && this.sectionData == sectionData
      ensures this.nurseryStart == nurseryStart && this.nurseryRealEnd == nurseryRealEnd && this.sectionSize == sectionSize
      ensures scanStarts == Zeros(numScanStart) && fragments == [] && fragmentFreelist == []
      ensures fragmentTotal == 0 && degradedMode == 0
      ensures nurseryNext == nurseryStart && nurseryFragRealEnd == nurseryRealEnd
      ensures tlabStart == tlabNext == tlabTempEnd == tlabRealEnd == 0
    {
      this.gc := gc;
      this.clearPolicy := clearPolicy;
      this.sectionData := sectionData;
      this.nurseryStart := nurseryStart;
      this.nurseryRealEnd := nurseryRealEnd;
      this.sectionSize := sectionSize;
      scanStarts := Zeros(numScanStart);
      fragments := [];
      fragmentFreelist := [];
      fragmentTotal := 0;
      degradedMode := 0;
      nurseryNext := nurseryStart;
      nurseryFragRealEnd := nurseryRealEnd;
      nurseryLastPinnedEnd := 0;
      tlabStart, tlabNext, tlabTempEnd, tlabRealEnd := 0, 0, 0, 0;
    }

    /**
     * alloc_fragment: a record from the free list when there is one; a new
     * record otherwise.  Only the list of free records is state here.
     */
    method AllocFragment()
      modifies this`fragmentFreelist
      ensures fragmentFreelist == if old(fragmentFreelist) == [] then [] else old(fragmentFreelist)[1..]
    {
      if fragmentFreelist != [] {
        fragmentFreelist := fragmentFreelist[1..];
      }
    }

    /**
     * add_nursery_frag: zero the gap under CLEAR_AT_GC; list a gap of at least
     * FRAGMENT_MIN_SIZE bytes at the head of the fragments and count its
     * bytes; zero a smaller one, as pinning depends on unused memory being zero.
     */
    method AddNurseryFrag(fragSize: nat, fragStart: nat, fragEnd: nat)
      requires fragEnd == fragStart + fragSize
      modifies this`fragments, this`fragmentFreelist, this`fragmentTotal, gc`mem
      ensures var g := Gap(fragStart, fragEnd);
        && gc.mem == (if Cleared(clearPolicy, g) then Zeroed(old(gc.mem), fragStart, fragEnd) else old(gc.mem))
        && fragments == (if Big(g) then [Fragment(fragStart, fragStart, fragEnd)] else []) + old(fragments)
        && fragmentTotal == old(fragmentTotal) + (if Big(g) then fragSize else 0)
        && fragmentFreelist == Remaining(old(fragmentFreelist), if Big(g) then 1 else 0)
    {
      if clearPolicy == ClearAtGc {
        gc.mem := Zeroed(gc.mem, fragStart, fragStart + fragSize);
      }
      if fragSize >= FragmentMinSize {
        AllocFragment();
        fragments := [Fragment(fragStart, fragStart, fragEnd)] + fragments;
        fragmentTotal := fragmentTotal + fragSize;
      } else {
        gc.mem := Zeroed(gc.mem, fragStart, fragStart + fragSize);
      }
      assert Zeroed(Zeroed(old(gc.mem), fragStart, fragEnd), fragStart, fragEnd) == Zeroed(old(gc.mem), fragStart, fragEnd);
    }
  
    /** clear_tlabs, for the allocating thread: it gets a new TLAB on its next allocation. */
    method ClearTlabs()
      modifies this`tlabStart, this`tlabNext, this`tlabTempEnd, this`tlabRealEnd
      ensures tlabStart == tlabNext == tlabTempEnd == tlabRealEnd == 0
    {
      tlabStart, tlabNext, tlabTempEnd, tlabRealEnd := 0, 0, 0, 0;
    }

    /** A fragment the allocator may adopt: aligned, inside the nursery. */
    predicate InNursery(f: Fragment)
    {
      nurseryStart <= f.start && f.start % 8 == 0 && f.end <= nurseryRealEnd
    }

    /**
     * The fragments lie in the nursery, and so does the current fragment
     * [nursery_next, nursery_frag_real_end) once one was adopted.
     */
    ghost predicate FragmentsReady()
      reads this`fragments, this`nurseryNext, this`nurseryFragRealEnd
    {
      && (forall i :: 0 <= i < |fragments| ==> InNursery(fragments[i]))
      && nurseryNext % 8 == 0 && nurseryNext <= nurseryFragRealEnd <= nurseryRealEnd
      && (0 < nurseryFragRealEnd ==> nurseryStart <= nurseryNext)
    }

    /** The TLAB [tlab_start, tlab_real_end) lies in the nursery, once there is one. */
    ghost predicate TlabBounds()
      reads this`tlabStart, this`tlabTempEnd, this`tlabRealEnd
    {
      && tlabStart <= tlabTempEnd <= tlabRealEnd
      && (0 < tlabRealEnd ==> nurseryStart <= tlabStart && tlabRealEnd <= nurseryRealEnd)
    }

    /** ... and its aligned bump pointer tlab_next lies between tlab_start and tlab_temp_end. */
    ghost predicate TlabReady()
      reads this`tlabStart, this`tlabNext, this`tlabTempEnd, this`tlabRealEnd
    {
      TlabBounds() && tlabNext % 8 == 0 && tlabStart <= tlabNext <= tlabTempEnd
    }

    /** What the allocator relies on between allocations. */
    ghost predicate AllocReady()
      reads this, gc`mem
    {
      Valid() && FragmentsReady() && TlabReady()
    }

    /**
     * search_fragment_for_size: under CLEAR_AT_TLAB_CREATION the rest of the
     * current fragment is zeroed first.  The first fragment with room for
     * size bytes (FirstFit) is unlinked, becomes the current fragment and
     * its record goes to the free list; when none has room, nothing else
     * changes and the result is false.
     */
    method SearchFragmentForSize(size: nat) returns (found: bool)
      requires AllocReady()
      modifies this`fragments, this`fragmentFreelist, this`nurseryNext, this`nurseryFragRealEnd, gc`mem
      ensures AllocReady()
      ensures gc.mem == if old(nurseryNext < nurseryFragRealEnd) && clearPolicy == ClearAtTlabCreation
                        then Zeroed(old(gc.mem), old(nurseryNext), old(nurseryFragRealEnd)) else old(gc.mem)
      ensures found <==> FirstFit(old(fragments), size).Some?
      ensures !found ==> && fragments == old(fragments) && fragmentFreelist == old(fragmentFreelist)
                         && nurseryNext == old(nurseryNext) && nurseryFragRealEnd == old(nurseryFragRealEnd)
      ensures found ==> var i := FirstFit(old(fragments), size).value; var f := old(fragments)[i];
        && fragments == old(fragments)[..i] + old(fragments)[i + 1..]
        && fragmentFreelist == [f] + old(fragmentFreelist)
        && nurseryNext == f.start && nurseryFragRealEnd == f.end
    {
      if nurseryFragRealEnd > nurseryNext && clearPolicy == ClearAtTlabCreation {
        gc.mem := Zeroed(gc.mem, nurseryNext, nurseryFragRealEnd);
      }
      var i := 0;
      while i < |fragments|
        invariant i <= |fragments|
        invariant forall j :: 0 <= j < i ==> Room(fragments[j]) < size
      {
        var f := fragments[i];
        if size <= Room(f) {
          assert InNursery(fragments[i]);
          ghost var fs := fragments;
          fragments := fragments[..i] + fragments[i + 1..];
          assert forall j :: 0 <= j < |fragments| ==> fragments[j] == fs[if j < i then j else j + 1];
          nurseryNext, nurseryFragRealEnd := f.start, f.end;
          fragmentFreelist := [f] + fragmentFreelist;
          return true;
        }
        i := i + 1;
      }
      return false;
    }

    /**
     * mono_gc_alloc_obj for a request of size bytes, rounded up to
     * ALLOC_ALIGN.  On the fast path the object takes the next bytes of the
     * TLAB below tlab_temp_end.  Otherwise a large object goes to the large
     * object space; a TLAB that is used up is retired and the object comes
     * from alloc_degraded while degraded mode lasts, straight from the
     * current fragment when it is bigger than a TLAB, or from a new TLAB;
     * an object that only crosses tlab_temp_end becomes a scan start and
     * moves tlab_temp_end on.  An object placed in the nursery is aligned,
     * inside the nursery, right below the bump pointer it came from, and
     * holds the vtable in its first word; other words only change by being
     * zeroed, and not at all under CLEAR_AT_GC.
     */
    method AllocObj(vtable: Word, size: nat, sl: SectionList, data: nat) returns (r: Allocation)
      requires AllocReady() && sl.Valid()
      modifies this, gc`mem, sl
      ensures AllocReady() && sl.Valid()
      ensures var sz, p := AlignedSize(size), old(tlabNext);
        p + sz < old(tlabTempEnd) ==>
          && r == (if old(gc.mem)[p / 8] == 0 then Allocated(p) else NotZeroed)
          && tlabNext == p + sz && gc.mem == WithVtable(old(gc.mem), r, vtable)
          && unchanged(this`fragments, this`nurseryNext, this`scanStarts, this`tlabTempEnd, this`degradedMode)
      ensures r.LargeObject? <==> old(tlabNext) + AlignedSize(size) >= old(tlabTempEnd) && AlignedSize(size) > MaxSmallObjSize
      ensures Placed(r, AlignedSize(size), vtable)
      ensures r.AllocatedDegraded? ==> 0 < old(degradedMode) < DefaultNurserySize && degradedMode == old(degradedMode) + AlignedSize(size)
      ensures r.CollectionNeeded? ==> var sz := AlignedSize(size);
        && r.request == (if sz > TlabSize then sz else TlabSize)
        && FirstFit(old(fragments), r.request).None? && fragments == old(fragments)
      ensures ClearedBut(old(gc.mem), gc.mem, r)
      ensures clearPolicy == ClearAtGc ==> gc.mem == WithVtable(old(gc.mem), r, vtable)
    {
      var sz := AlignedSize(size);
      var p := tlabNext;
      if p + sz < tlabTempEnd {
        r := AllocFast(vtable, sz);
      } else if sz > MaxSmallObjSize {
        r := LargeObject;
      } else if p + sz >= tlabRealEnd {
        r := AllocRetiringTlab(vtable, sz, sl, data);
      } else {
        tlabNext := p + sz;
        r := BumpTempEnd(vtable, p);
      }
    }

    /**
     * An object allocated in the nursery is aligned, lies inside the nursery
     * right below the bump pointer it came from, and holds the vtable in its
     * first word.
     */
    ghost predicate Placed(r: Allocation, sz: nat, vtable: Word)
      reads this`tlabNext, this`nurseryNext, gc`mem
    {
      r.Allocated? ==>
        && r.p % 8 == 0 && nurseryStart <= r.p < nurseryRealEnd && r.p + sz <= nurseryRealEnd
        && r.p / 8 < |gc.mem| && gc.mem[r.p / 8] == vtable
        && (tlabNext == r.p + sz || nurseryNext == r.p + sz)
    }

    /** The fast path: the next sz bytes of the TLAB, whose first word must still be zero. */
    method AllocFast(vtable: Word, sz: nat) returns (r: Allocation)
      requires AllocReady() && sz % 8 == 0 && tlabNext + sz < tlabTempEnd
      modifies this`tlabNext, gc`mem
      ensures AllocReady() && Placed(r, sz, vtable)
      ensures r == (if old(gc.mem)[old(tlabNext) / 8] == 0 then Allocated(old(tlabNext)) else NotZeroed)
      ensures tlabNext == old(tlabNext) + sz && gc.mem == WithVtable(old(gc.mem), r, vtable)
    {
      var p := tlabNext;
      tlabNext := p + sz;
      if gc.mem[p / 8] != 0 {
        return NotZeroed;
      }
      gc.mem := gc.mem[p / 8 := vtable];
      r := Allocated(p);
    }

    /**
     * The TLAB cannot hold the object: it is retired, and the object comes
     * from alloc_degraded while degraded mode lasts, straight from the
     * current fragment when it is bigger than a TLAB, or from a new TLAB.
     */
    method AllocRetiringTlab(vtable: Word, sz: nat, sl: SectionList, data: nat) returns (r: Allocation)
      requires AllocReady() && sl.Valid() && sz % 8 == 0 && sz <= MaxSmallObjSize
      modifies this`fragments, this`fragmentFreelist, this`nurseryNext, this`nurseryFragRealEnd, this`scanStarts
      modifies this`tlabStart, this`tlabNext, this`tlabTempEnd, this`tlabRealEnd, this`degradedMode, gc`mem, sl
      ensures AllocReady() && sl.Valid() && Placed(r, sz, vtable)
      ensures !r.LargeObject? && !r.NotZeroed?
      ensures r.AllocatedDegraded? ==> 0 < old(degradedMode) < DefaultNurserySize && degradedMode == old(degradedMode) + sz
      ensures r.CollectionNeeded? ==>
        && r.request == (if sz > TlabSize then sz else TlabSize)
        && FirstFit(old(fragments), r.request).None? && fragments == old(fragments)
      ensures ClearedBut(old(gc.mem), gc.mem, r)
      ensures clearPolicy == ClearAtGc ==> gc.mem == WithVtable(old(gc.mem), r, vtable)
    {
      if degradedMode != 0 && degradedMode < DefaultNurserySize {
        r := AllocDegraded(sl, sz, data);
      } else if sz > TlabSize {
        r := AllocDirect(vtable, sz);
      } else {
        r := AllocInNewTlab(vtable, sz);
      }
    }

    /** alloc_degraded: the object goes to an old-generation section, and degraded_mode counts its bytes. */
    method AllocDegraded(sl: SectionList, sz: nat, data: nat) returns (r: Allocation)
      requires sl.Valid()
      modifies sl, this`degradedMode
      ensures sl.Valid() && degradedMode == old(degradedMode) + sz
      ensures r == AllocatedDegraded(match RoomFor(old(sl.sections), sz)
                                     case Some(i) => old(sl.sections)[i].nextData
                                     case None => data)
    {
      var p := sl.AllocDegraded(sz, sectionSize, data);
      degradedMode := degradedMode + sz;
      r := AllocatedDegraded(p);
    }

    /**
     * An object bigger than a TLAB comes straight from the current fragment,
     * after search_fragment_for_size when it does not fit; the source's
     * check that nursery_next stays within the fragment always holds.
     */
    method AllocDirect(vtable: Word, sz: nat) returns (r: Allocation)
      requires AllocReady() && sz % 8 == 0 && sz > 0
      modifies this`fragments, this`fragmentFreelist, this`nurseryNext, this`nurseryFragRealEnd, gc`mem
      ensures AllocReady()
      ensures r.Allocated? || r == CollectionNeeded(sz)
      ensures r.CollectionNeeded? ==> FirstFit(old(fragments), sz).None? && fragments == old(fragments)
      ensures r.Allocated? ==>
        && r.p % 8 == 0 && nurseryStart <= r.p && nurseryNext == r.p + sz <= nurseryRealEnd
        && gc.mem[r.p / 8] == vtable
      ensures old(nurseryNext) + sz < old(nurseryFragRealEnd) ==> r == Allocated(old(nurseryNext)) && fragments == old(fragments)
      ensures ClearedBut(old(gc.mem), gc.mem, r)
      ensures clearPolicy == ClearAtGc ==> gc.mem == WithVtable(old(gc.mem), r, vtable)
    {
      var found := EnsureRoom(sz);
      if !found {
        return CollectionNeeded(sz);
      }
      var p := nurseryNext;
      nurseryNext := nurseryNext + sz;
      assert nurseryNext <= nurseryFragRealEnd;
      var m := gc.mem;
      if clearPolicy == ClearAtTlabCreation {
        ZeroedOnlyZeroed(old(gc.mem), m, p, p + sz);
        m := Zeroed(m, p, p + sz);
      }
      ZeroedOnlyThenStore(old(gc.mem), m, p, vtable);
      gc.mem := m[p / 8 := vtable];
      r := Allocated(p);
    }

    /**
     * The check both nursery paths make before taking request bytes from
     * the current fragment: when they do not fit below
     * nursery_frag_real_end, search_fragment_for_size looks for a fragment
     * that has room.
     */
    method EnsureRoom(request: nat) returns (found: bool)
      requires AllocReady() && 0 < request
      modifies this`fragments, this`fragmentFreelist, this`nurseryNext, this`nurseryFragRealEnd, gc`mem
      ensures AllocReady() && ZeroedOnly(old(gc.mem), gc.mem)
      ensures clearPolicy == ClearAtGc ==> gc.mem == old(gc.mem)
      ensures found ==> nurseryStart <= nurseryNext && nurseryNext + request <= nurseryFragRealEnd
      ensures !found ==> FirstFit(old(fragments), request).None? && fragments == old(fragments)
      ensures old(nurseryNext) + request < old(nurseryFragRealEnd) ==>
        found && fragments == old(fragments) && nurseryNext == old(nurseryNext) && gc.mem == old(gc.mem)
    {
      found := true;
      if nurseryNext + request >= nurseryFragRealEnd {
        found := SearchFragmentForSize(request);
      }
    }

    /** A new TLAB of tlab_size bytes from the current fragment, after search_fragment_for_size when it does not fit. */
    method AllocInNewTlab(vtable: Word, sz: nat) returns (r: Allocation)
      requires AllocReady() && sz % 8 == 0 && sz <= TlabSize
      modifies this`fragments, this`fragmentFreelist, this`nurseryNext, this`nurseryFragRealEnd, this`scanStarts
      modifies this`tlabStart, this`tlabNext, this`tlabTempEnd, this`tlabRealEnd, gc`mem
      ensures AllocReady()
      ensures r.Allocated? || r == CollectionNeeded(TlabSize)
      ensures r.CollectionNeeded? ==> FirstFit(old(fragments), TlabSize).None? && fragments == old(fragments)
      ensures r.Allocated? ==>
        && r.p == tlabStart && tlabNext == r.p + sz && tlabRealEnd == tlabTempEnd == r.p + TlabSize
        && nurseryStart <= r.p && r.p % 8 == 0 && tlabRealEnd <= nurseryRealEnd
        && gc.mem[r.p / 8] == vtable && scanStarts == old(scanStarts)[Slot(sectionData, r.p) := r.p]
      ensures ClearedBut(old(gc.mem), gc.mem, r)
      ensures clearPolicy == ClearAtGc ==> gc.mem == WithVtable(old(gc.mem), r, vtable)
    {
      var found := EnsureRoom(TlabSize);
      if !found {
        return CollectionNeeded(TlabSize);
      }
      ghost var m1 := gc.mem;
      NewTlab();
      if clearPolicy == ClearAtTlabCreation {
        ZeroedOnlyZeroed(old(gc.mem), m1, tlabStart, tlabRealEnd);
      }
      ZeroedOnlyThenStore(old(gc.mem), gc.mem, tlabNext, vtable);
      var p := StoreInTlab(vtable, sz);
      r := Allocated(p);
    }

    /**
     * The object takes the next sz bytes of a TLAB with room for it, is its
     * slot's scan start, and holds the vtable in its first word.
     */
    method StoreInTlab(vtable: Word, sz: nat) returns (p: nat)
      requires Valid() && TlabReady() && 0 < tlabRealEnd
      requires sz % 8 == 0 && tlabNext + sz <= tlabTempEnd && tlabNext < tlabRealEnd
      modifies this`tlabNext, this`scanStarts, gc`mem
      ensures Valid() && TlabReady()
      ensures p == old(tlabNext) && tlabNext == p + sz
      ensures scanStarts == old(scanStarts)[Slot(sectionData, p) := p]
      ensures gc.mem == old(gc.mem)[p / 8 := vtable]
    {
      p := tlabNext;
      tlabNext := tlabNext + sz;
      SlotInRange(sectionData, p, |scanStarts|);
      scanStarts := scanStarts[Slot(sectionData, p) := p];
      gc.mem := gc.mem[p / 8 := vtable];
    }

    /**
     * The next tlab_size bytes of the current fragment become the TLAB,
     * zeroed under CLEAR_AT_TLAB_CREATION; tlab_temp_end is SCAN_START_SIZE
     * into it, or its end.
     */
    method NewTlab()
      requires Valid() && FragmentsReady()
      requires nurseryStart <= nurseryNext && nurseryNext + TlabSize <= nurseryFragRealEnd
      modifies this`nurseryNext, this`tlabStart, this`tlabNext, this`tlabTempEnd, this`tlabRealEnd, gc`mem
      ensures Valid() && FragmentsReady() && TlabReady()
      ensures tlabStart == tlabNext == old(nurseryNext) && nurseryNext == old(nurseryNext) + TlabSize
      ensures tlabRealEnd == tlabStart + TlabSize
      ensures tlabTempEnd == tlabStart + if ScanStartSize < TlabSize then ScanStartSize else TlabSize
      ensures gc.mem == if clearPolicy == ClearAtTlabCreation then Zeroed(old(gc.mem), tlabStart, tlabRealEnd) else old(gc.mem)
    {
      tlabStart := nurseryNext;
      nurseryNext := nurseryNext + TlabSize;
      tlabNext := tlabStart;
      tlabRealEnd := tlabStart + TlabSize;
      tlabTempEnd := tlabStart + if ScanStartSize < TlabSize then ScanStartSize else TlabSize;
      if clearPolicy == ClearAtTlabCreation {
        gc.mem := Zeroed(gc.mem, tlabStart, tlabStart + TlabSize);
      }
    }

    /**
     * An object that crosses tlab_temp_end but fits the TLAB: it becomes the
     * scan start of its slot, and tlab_temp_end moves SCAN_START_SIZE past
     * the new tlab_next, but not past tlab_real_end.
     */
    method BumpTempEnd(vtable: Word, p: nat) returns (r: Allocation)
      requires Valid() && TlabBounds() && 0 < tlabRealEnd
      requires p % 8 == 0 && tlabNext % 8 == 0 && tlabStart <= p <= tlabNext < tlabRealEnd
      modifies this`scanStarts, this`tlabTempEnd, gc`mem
      ensures Valid() && TlabReady() && r == Allocated(p)
      ensures scanStarts == old(scanStarts)[Slot(sectionData, p) := p]
      ensures tlabTempEnd == if tlabRealEnd < tlabNext + ScanStartSize then tlabRealEnd else tlabNext + ScanStartSize
      ensures gc.mem == old(gc.mem)[p / 8 := vtable]
    {
      SlotInRange(sectionData, p, |scanStarts|);
      scanStarts := scanStarts[Slot(sectionData, p) := p];
      tlabTempEnd := if tlabRealEnd < tlabNext + ScanStartSize then tlabRealEnd else tlabNext + ScanStartSize;
      gc.mem := gc.mem[p / 8 := vtable];
      r := Allocated(p);
    }

    /**
     * The state of build_nursery_fragments after the first k pinned objects:
     * frag_start is past the last of them and the heap, the fragments, their
     * total, the free records and the scan starts reflect exactly those k.
     */
    ghost predicate RebuiltUpTo(m0: Heap, size: (Heap, nat) -> nat, pins: seq<nat>, k: nat, fragStart: nat,
                                oldFragments: seq<Fragment>, cleared: seq<nat>)
      reads this`scanStarts, this`fragments, this`fragmentFreelist, this`fragmentTotal, gc`mem
      requires k <= |pins|
    {
      var done := pins[..k];
      && |gc.mem| == |m0| && |scanStarts| == |cleared|
      && fragStart == FreeFrom(m0, size, nurseryStart, done)
      && gc.mem == AfterPins(m0, size, nurseryStart, clearPolicy, done)
      && fragments == Pushed(GapsBefore(m0, size, nurseryStart, done))
      && fragmentTotal == FragmentBytes(fragments)
      && fragmentFreelist == Remaining(oldFragments, |fragments|)
      && scanStarts == RecordScanStarts(cleared, sectionData, done)
    }

    /**
     * The outcome of build_nursery_fragments for the pinned objects pins on
     * the heap m0, whose scan starts were cleared to `cleared` and whose
     * fragment list was oldFragments: the rebuilt heap, the big gaps listed
     * last-first, fragment_total their bytes, the unused old records free,
     * and every pinned object recorded as its slot's scan start.
     */
    ghost predicate Rebuilt(m0: Heap, size: (Heap, nat) -> nat, pins: seq<nat>,
                            oldFragments: seq<Fragment>, cleared: seq<nat>)
      reads this`scanStarts, this`fragments, this`fragmentFreelist, this`fragmentTotal, gc`mem
    {
      && gc.mem == RebuiltHeap(m0, size, nurseryStart, nurseryRealEnd, clearPolicy, pins)
      && fragments == Pushed(Gaps(m0, size, nurseryStart, nurseryRealEnd, pins))
      && fragmentTotal == FragmentBytes(fragments)
      && fragmentFreelist == Remaining(oldFragments, |fragments|)
      && scanStarts == RecordScanStarts(cleared, sectionData, pins)
    }

    /** One turn of the loop of build_nursery_fragments, for the pinned object p == pins[k]. */
    method RebuildStep(m0: Heap, size: (Heap, nat) -> nat, ghost pins: seq<nat>, k: nat, p: nat, fragStart: nat,
                       ghost oldFragments: seq<Fragment>, ghost cleared: seq<nat>)
      returns (next: nat)
      requires Valid() && size == gc.objectSize && PositiveSizes(size)
      requires PinsInOrder(m0, size, nurseryStart, nurseryRealEnd, pins) && k < |pins| && p == pins[k]
      requires |m0| == |gc.mem| && RebuiltUpTo(m0, size, pins, k, fragStart, oldFragments, cleared)
      modifies this`scanStarts, this`fragments, this`fragmentFreelist, this`fragmentTotal, gc`mem
      ensures Valid() && RebuiltUpTo(m0, size, pins, k + 1, next, oldFragments, cleared)
    {
      ghost var done := pins[..k];
      ghost var before := AfterPins(m0, size, nurseryStart, clearPolicy, done);
      assert fragStart <= p < nurseryRealEnd && p % 8 == 0 && nurseryStart <= p && before[p / 8] == m0[p / 8] by {
        PinAt(m0, size, nurseryStart, nurseryRealEnd, pins, k);
        PinsIncrease(m0, size, nurseryStart, nurseryRealEnd, pins, k, k);
        PrefixInOrder(m0, size, nurseryStart, nurseryRealEnd, pins, k);
        AfterPinsAbove(m0, size, nurseryStart, nurseryRealEnd, clearPolicy, done, p / 8);
      }
      SlotInRange(sectionData, p, |scanStarts|);
      StepUnfolds(m0, size, nurseryStart, clearPolicy, cleared, sectionData, pins, k);
      gc.UnpinObject(p);
      scanStarts := scanStarts[Slot(sectionData, p) := p];
      OfferGap(fragStart, p, GapsBefore(m0, size, nurseryStart, done), oldFragments);
      next := p + AlignedSize(size(m0, p));
    }

    /**
     * `if (frag_size) add_nursery_frag (...)`: a non-empty gap is offered to
     * add_nursery_frag; the listed fragments follow the gaps seen so far.
     */
    method OfferGap(fragStart: nat, fragEnd: nat, ghost gaps: seq<Gap>, ghost oldFragments: seq<Fragment>)
      requires fragStart <= fragEnd
      requires fragments == Pushed(gaps) && fragmentTotal == FragmentBytes(fragments)
      requires fragmentFreelist == Remaining(oldFragments, |fragments|)
      modifies this`fragments, this`fragmentFreelist, this`fragmentTotal, gc`mem
      ensures var g := Gap(fragStart, fragEnd);
        && fragments == Pushed(gaps + if fragStart < fragEnd then [g] else [])
        && gc.mem == (if fragStart < fragEnd && Cleared(clearPolicy, g) then Zeroed(old(gc.mem), fragStart, fragEnd) else old(gc.mem))
      ensures fragmentTotal == FragmentBytes(fragments)
      ensures fragmentFreelist == Remaining(oldFragments, |fragments|)
    {
      var fragSize := fragEnd - fragStart;
      if fragSize != 0 {
        ghost var free0, fs0 := fragmentFreelist, fragments;
        AddNurseryFrag(fragSize, fragStart, fragEnd);
        PushedSnoc(gaps, Gap(fragStart, fragEnd));
        if Big(Gap(fragStart, fragEnd)) {
          assert fragmentFreelist == Remaining(free0, 1);
          assert fragments[1..] == fs0;
          assert FragmentBytes(fragments) == fragSize + FragmentBytes(fs0);
        } else {
          assert fragments == [] + fs0 == fs0;
        }
      } else {
        assert gaps + [] == gaps;
      }
    }

    /**
     * build_nursery_fragments over the pinned objects pinQueue[startPin..endPin),
     * sorted by address: every gap between them, from nursery_start to
     * nursery_real_end, is offered to add_nursery_frag; every pinned object
     * loses its PINNED bit and becomes its slot's scan start.  The old fragment
     * records become the free list, degraded mode starts when nothing could be
     * listed, and all TLABs are retired.
     */
    method BuildNurseryFragments(pinQueue: array<Word>, startPin: nat, endPin: nat)
      requires Valid() && startPin <= endPin <= pinQueue.Length
      requires PositiveSizes(gc.objectSize)
      requires PinsInOrder(gc.mem, gc.objectSize, nurseryStart, nurseryRealEnd, pinQueue[startPin..endPin])
      modifies this, gc`mem
      ensures AllocReady()
      ensures Rebuilt(old(gc.mem), gc.objectSize, pinQueue[startPin..endPin], old(fragments), Zeros(|old(scanStarts)|))
      ensures nurseryLastPinnedEnd == FreeFrom(old(gc.mem), gc.objectSize, nurseryStart, pinQueue[startPin..endPin])
      ensures degradedMode == if fragments == [] then 1 else old(degradedMode)
      ensures nurseryNext == 0 && nurseryFragRealEnd == 0
      ensures tlabStart == tlabNext == tlabTempEnd == tlabRealEnd == 0
    {
      ghost var m0, pins := gc.mem, pinQueue[startPin..endPin];
      var fragStart := RebuildFragments(pinQueue, startPin, endPin);
      FinishRebuild(fragStart);
      forall i | 0 <= i < |fragments|
        ensures InNursery(fragments[i])
      {
        FragmentsInNursery(m0, gc.objectSize, nurseryStart, nurseryRealEnd, pins, i);
      }
    }

    /**
     * The start of build_nursery_fragments: the fragment list goes onto the
     * free list, the scan starts are cleared and no pinned object is done yet.
     */
    method StartRebuild(m0: Heap, size: (Heap, nat) -> nat, ghost pins: seq<nat>)
      requires Valid() && gc.mem == m0
      modifies this`scanStarts, this`fragments, this`fragmentFreelist, this`fragmentTotal
      ensures Valid()
      ensures RebuiltUpTo(m0, size, pins, 0, nurseryStart, old(fragments), Zeros(|old(scanStarts)|))
    {
      fragmentFreelist := fragments;
      fragments := [];
      fragmentTotal := 0;
      scanStarts := Zeros(|scanStarts|);
      assert pins[..0] == [];
    }

    /**
     * The loop of build_nursery_fragments over the pinned objects
     * pinQueue[startPin..endPin] and the gap after the last one; the result
     * is the end of the last pinned object.
     */
    method RebuildFragments(pinQueue: array<Word>, startPin: nat, endPin: nat) returns (fragStart: nat)
      requires Valid() && startPin <= endPin <= pinQueue.Length
      requires PositiveSizes(gc.objectSize)
      requires PinsInOrder(gc.mem, gc.objectSize, nurseryStart, nurseryRealEnd, pinQueue[startPin..endPin])
      modifies this`scanStarts, this`fragments, this`fragmentFreelist, this`fragmentTotal, gc`mem
      ensures Valid()
      ensures Rebuilt(old(gc.mem), gc.objectSize, pinQueue[startPin..endPin], old(fragments), Zeros(|old(scanStarts)|))
      ensures fragStart == FreeFrom(old(gc.mem), gc.objectSize, nurseryStart, pinQueue[startPin..endPin])
    {
      var m0, size := gc.mem, gc.objectSize;
      ghost var pins: seq<nat> := pinQueue[startPin..endPin];
      ghost var oldFragments := fragments;
      ghost var cleared := Zeros(|scanStarts|);
      assert PinsInOrder(m0, size, nurseryStart, nurseryRealEnd, pins);
      StartRebuild(m0, size, pins);
      fragStart := nurseryStart;
      var k := 0;
      while k < endPin - startPin
        invariant k <= |pins| == endPin - startPin && Valid() && |m0| == |gc.mem|
        invariant PinsInOrder(m0, size, nurseryStart, nurseryRealEnd, pins)
        invariant RebuiltUpTo(m0, size, pins, k, fragStart, oldFragments, cleared)
      {
        fragStart := RebuildStep(m0, size, pins, k, pinQueue[startPin + k], fragStart, oldFragments, cleared);
        k := k + 1;
      }
      assert k == |pins|;
      AddLastGap(m0, size, pins, fragStart, oldFragments, cleared);
    }

    /**
     * The end of build_nursery_fragments: degraded mode when no fragment was
     * listed, and no current fragment or TLAB.
     */
    method FinishRebuild(lastPinnedEnd: nat)
      modifies this`nurseryLastPinnedEnd, this`degradedMode, this`nurseryNext, this`nurseryFragRealEnd
      modifies this`tlabStart, this`tlabNext, this`tlabTempEnd, this`tlabRealEnd
      ensures nurseryLastPinnedEnd == lastPinnedEnd
      ensures degradedMode == if fragments == [] then 1 else old(degradedMode)
      ensures nurseryNext == 0 && nurseryFragRealEnd == 0
      ensures tlabStart == tlabNext == tlabTempEnd == tlabRealEnd == 0
    {
      nurseryLastPinnedEnd := lastPinnedEnd;
      if fragments == [] {
        degradedMode := 1;
      }
      nurseryNext, nurseryFragRealEnd := 0, 0;
      ClearTlabs();
    }

    /** The gap from the end of the last pinned object to nursery_real_end goes to add_nursery_frag. */
    method AddLastGap(m0: Heap, size: (Heap, nat) -> nat, ghost pins: seq<nat>, fragStart: nat,
                      ghost oldFragments: seq<Fragment>, ghost cleared: seq<nat>)
      requires Valid() && PinsInOrder(m0, size, nurseryStart, nurseryRealEnd, pins)
      requires RebuiltUpTo(m0, size, pins, |pins|, fragStart, oldFragments, cleared)
      modifies this`fragments, this`fragmentFreelist, this`fragmentTotal, gc`mem
      ensures Valid() && Rebuilt(m0, size, pins, oldFragments, cleared)
      ensures fragStart == FreeFrom(m0, size, nurseryStart, pins)
    {
      assert pins[..|pins|] == pins;
      OfferGap(fragStart, nurseryRealEnd, GapsBefore(m0, size, nurseryStart, pins), oldFragments);
    }
  }

  /** How each spec function of the rebuild extends by one pinned object. */
  lemma StepUnfolds(m0: Heap, size: (Heap, nat) -> nat, nurseryStart: nat, policy: ClearPolicy,
                    cleared: seq<nat>, sectionData: nat, pins: seq<nat>, k: nat)
    requires k < |pins|
    ensures var done, p, next := pins[..k], pins[k], pins[..k + 1];
      var f := FreeFrom(m0, size, nurseryStart, done);
      && FreeFrom(m0, size, nurseryStart, next) == ObjectEnd(m0, size, p)
      && GapsBefore(m0, size, nurseryStart, next)
         == GapsBefore(m0, size, nurseryStart, done) + (if f < p then [Gap(f, p)] else [])
      && AfterPins(m0, size, nurseryStart, policy, next)
         == (var m := AfterPins(m0, size, nurseryStart, policy, done);
             var u := if p / 8 < |m| then m[p / 8 := WithoutPinned(m[p / 8])] else m;
             if f < p && Cleared(policy, Gap(f, p)) then Zeroed(u, f, p) else u)
      && RecordScanStarts(cleared, sectionData, next)
         == (var r := RecordScanStarts(cleared, sectionData, done);
             if sectionData <= p && Slot(sectionData, p) < |r| then r[Slot(sectionData, p) := p] else r)
  {
    assert pins[..k + 1][..k] == pins[..k];
  }

  /** Every prefix of pinned objects in order is in order. */
  lemma {:induction false} PrefixInOrder(m0: Heap, size: (Heap, nat) -> nat, nurseryStart: nat, realEnd: nat,
                                         pins: seq<nat>, k: nat)
    requires PinsInOrder(m0, size, nurseryStart, realEnd, pins) && k <= |pins|
    ensures PinsInOrder(m0, size, nurseryStart, realEnd, pins[..k])
    decreases |pins|
  {
    if k < |pins| {
      var ps := pins[..|pins| - 1];
      PrefixInOrder(m0, size, nurseryStart, realEnd, ps, k);
      assert ps[..k] == pins[..k];
    } else {
      assert pins[..k] == pins;
    }
  }

  /** Listing one more gap: a big one goes to the head of the fragments. */
  lemma PushedSnoc(gaps: seq<Gap>, g: Gap)
    ensures Pushed(gaps + [g]) == (if Big(g) then [Fragment(g.start, g.start, g.end)] else []) + Pushed(gaps)
  {
    assert (gaps + [g])[..|gaps|] == gaps;
  }

  /** A pinned object is aligned, lies below realEnd and starts after the objects before it. */
  lemma {:induction false} PinAt(m0: Heap, size: (Heap, nat) -> nat, nurseryStart: nat, realEnd: nat, pins: seq<nat>, j: nat)
    requires PinsInOrder(m0, size, nurseryStart, realEnd, pins) && j < |pins|
    ensures pins[j] % 8 == 0 && FreeFrom(m0, size, nurseryStart, pins[..j]) <= pins[j] < realEnd
  {
    var n := |pins| - 1;
    if j < n {
      var ps := pins[..n];
      PinAt(m0, size, nurseryStart, realEnd, ps, j);
      assert ps[..j] == pins[..j] && ps[j] == pins[j];
    }
  }

  /** An address of the section below sectionData + ScanStartSize * n has a slot below n. */
  lemma SlotInRange(sectionData: nat, p: nat, n: nat)
    requires sectionData <= p < sectionData + ScanStartSize * n
    ensures Slot(sectionData, p) < n
  {
  }
}
