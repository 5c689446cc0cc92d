/**
 * Pinning the objects that the sorted pin queue points into
 * (pin_objects_from_addresses in sgen-gc.c).
 *
 * A queued address may point into the middle of an object.  The collector
 * finds the object by starting from the closest scan start at or below the
 * address (one is recorded per SCAN_START_SIZE bytes of a section) and walking
 * forward object by object; zeroed words between objects are skipped one
 * aligned word at a time.
 */
module GcPinning {
  import opened GcDescriptors
  import opened GcHeap
  import opened PinQueue

  // ------------------------------------------------------------------ scan starts

  /**
   * The search start for addr, whose scan-start slot is idx: the scan start
   * of the nearest slot at or below idx that is set and not above addr, or
   * the start of the nursery when there is none.  The ghost `slot` is the
   * slot used, -1 for the nursery start.
   */
  method FindSearchStart(scanStarts: seq<nat>, idx: nat, addr: nat, startNursery: nat)
    returns (searchStart: nat, ghost slot: int)
    requires idx < |scanStarts|
    ensures -1 <= slot <= idx
    ensures slot == -1 ==> searchStart == startNursery
    ensures slot >= 0 ==> searchStart == scanStarts[slot] && 0 < searchStart <= addr
    ensures forall j :: slot < j <= idx ==> scanStarts[j] == 0 || scanStarts[j] > addr
  {
    var i := idx;
    searchStart := scanStarts[i];
    slot := i;
    if searchStart == 0 || searchStart > addr {
      while i > 0
        invariant 0 <= i <= idx && searchStart == scanStarts[i]
        invariant forall j :: i < j <= idx ==> scanStarts[j] == 0 || scanStarts[j] > addr
        invariant searchStart == 0 || searchStart > addr
      {
        i := i - 1;
        searchStart := scanStarts[i];
        if searchStart != 0 && searchStart <= addr {
          break;
        }
      }
      slot := i;
      if searchStart == 0 || searchStart > addr {
        searchStart := startNursery;
        slot := -1;
      }
    }
  }

  // ------------------------------------------------------------------ object walk

  /** The end of the scan: whether an object containing the address was met, and the last object visited. */
  datatype Walk = Walk(found: bool, lastObj: nat, lastObjSize: nat)

  /**
   * The walk from p towards addr: a zero word is unused memory and is stepped
   * over to the next aligned word; any other word starts an object, which is
   * the answer when it contains addr and is otherwise stepped over.  The walk
   * stops once it is past addr.
   */
  ghost function WalkFrom(mem: Heap, size: (Heap, nat) -> nat, p: nat, addr: nat, lastObj: nat, lastObjSize: nat): Walk
    requires PositiveSizes(size)
    requires p % 8 == 0 && p <= addr < 8 * |mem|
    decreases addr - p
  {
    if At(mem, p, 0) == 0 then
      var next := AlignedSize(p + 8);
      if next <= addr then WalkFrom(mem, size, next, addr, lastObj, lastObjSize)
      else Walk(false, lastObj, lastObjSize)
    else
      var s := AlignedSize(size(mem, p));
      if addr < p + s then Walk(true, p, s)
      else WalkFrom(mem, size, p + s, addr, p, s)
  }

  /**
   * The walk ends on an object at or below addr, aligned and with its aligned
   * size, not before the last object it started with; a found object starts
   * with a non-zero word, contains addr and lies at or after p.  A walk that
   * finds nothing stopped on a zero word holding addr, past its last object.
   */
  lemma {:induction false} WalkLandsOnObject(mem: Heap, size: (Heap, nat) -> nat, p: nat, addr: nat, lastObj: nat, lastObjSize: nat)
    requires PositiveSizes(size)
    requires p % 8 == 0 && p <= addr < 8 * |mem|
    requires lastObj <= p && lastObj + lastObjSize <= addr && lastObj % 8 == 0 && lastObjSize % 8 == 0
    ensures var w := WalkFrom(mem, size, p, addr, lastObj, lastObjSize);
      lastObj <= w.lastObj <= addr && w.lastObj % 8 == 0 && w.lastObjSize % 8 == 0
    ensures var w := WalkFrom(mem, size, p, addr, lastObj, lastObjSize);
      w.found ==>
        && p <= w.lastObj < 8 * |mem| && mem[w.lastObj / 8] != 0
        && w.lastObj <= addr < w.lastObj + w.lastObjSize
        && w.lastObjSize == AlignedSize(size(mem, w.lastObj))
    ensures var w := WalkFrom(mem, size, p, addr, lastObj, lastObjSize);
      !w.found ==> w.lastObj + w.lastObjSize <= addr && mem[addr / 8] == 0
    ensures lastObjSize > 0 ==> WalkFrom(mem, size, p, addr, lastObj, lastObjSize).lastObjSize > 0
    ensures LastObjOk(mem, size, lastObj, lastObjSize) ==>
      var w := WalkFrom(mem, size, p, addr, lastObj, lastObjSize);
      LastObjOk(mem, size, w.lastObj, w.lastObjSize)
    decreases addr - p
  {
    if At(mem, p, 0) == 0 {
      var next := AlignedSize(p + 8);
      if next <= addr {
        WalkLandsOnObject(mem, size, next, addr, lastObj, lastObjSize);
      } else {
        assert addr / 8 == p / 8;
      }
    } else {
      var s := AlignedSize(size(mem, p));
      if p + s <= addr {
        AddAligned(p, s);
        WalkLandsOnObject(mem, size, p + s, addr, p, s);
      }
    }
  }

  /**
   * last_obj and last_obj_size describe an object of the heap: aligned, with
   * a non-zero first word and its aligned size; or nothing yet (size 0).
   */
  ghost predicate LastObjOk(mem: Heap, size: (Heap, nat) -> nat, obj: nat, objSize: nat)
  {
    objSize > 0 ==> obj % 8 == 0 && obj < 8 * |mem| && mem[obj / 8] != 0 && objSize == AlignedSize(size(mem, obj))
  }

  /**
   * A walk that starts at or after the last object, which does not hold
   * addr, finds an object after it: at the last object itself it steps over it.
   */
  lemma WalkPastLast(mem: Heap, size: (Heap, nat) -> nat, p: nat, addr: nat, lastObj: nat, lastObjSize: nat)
    requires PositiveSizes(size)
    requires p % 8 == 0 && p <= addr < 8 * |mem|
    requires lastObj <= p && lastObj + lastObjSize <= addr && lastObj % 8 == 0 && lastObjSize % 8 == 0
    requires LastObjOk(mem, size, lastObj, lastObjSize) && lastObjSize > 0
    ensures var w := WalkFrom(mem, size, p, addr, lastObj, lastObjSize);
      w.found ==> lastObj < w.lastObj
  {
    if p == lastObj {
      AddAligned(p, lastObjSize);
      WalkLandsOnObject(mem, size, p + lastObjSize, addr, p, lastObjSize);
    } else {
      WalkLandsOnObject(mem, size, p, addr, lastObj, lastObjSize);
    }
  }

  lemma AddAligned(a: nat, b: nat)
    requires a % 8 == 0 && b % 8 == 0
    ensures (a + b) % 8 == 0
  {
    assert a + b == 8 * (a / 8 + b / 8);
  }

  /** The do-while scan of pin_objects_from_addresses, started at p. */
  method WalkToAddress(c: Collector, p: nat, addr: nat, lastObj: nat, lastObjSize: nat) returns (w: Walk)
    requires PositiveSizes(c.objectSize)
    requires p % 8 == 0 && p <= addr < 8 * |c.mem|
    ensures w == WalkFrom(c.mem, c.objectSize, p, addr, lastObj, lastObjSize)
  {
    var searchStart := p;
    var last: nat, lastSize: nat := lastObj, lastObjSize;
    while true
      invariant searchStart % 8 == 0 && searchStart <= addr
      invariant WalkFrom(c.mem, c.objectSize, searchStart, addr, last, lastSize)
             == WalkFrom(c.mem, c.objectSize, p, addr, lastObj, lastObjSize)
      decreases addr - searchStart
    {
      var done, next, nextLast, nextSize;
      done, w, next, nextLast, nextSize := WalkStep(c, searchStart, addr, last, lastSize);
      if done {
        return;
      }
      searchStart, last, lastSize := next, nextLast, nextSize;
    }
  }

  /**
   * One step of the scan at searchStart: either the scan ends with w, or it
   * goes on at next, further on and still at or below addr, with the same
   * outcome.
   */
  method WalkStep(c: Collector, searchStart: nat, addr: nat, last: nat, lastSize: nat)
    returns (done: bool, w: Walk, next: nat, nextLast: nat, nextSize: nat)
    requires PositiveSizes(c.objectSize)
    requires searchStart % 8 == 0 && searchStart <= addr < 8 * |c.mem|
    ensures done ==> w == WalkFrom(c.mem, c.objectSize, searchStart, addr, last, lastSize)
    ensures !done ==>
      && searchStart < next <= addr && next % 8 == 0
      && WalkFrom(c.mem, c.objectSize, next, addr, nextLast, nextSize)
         == WalkFrom(c.mem, c.objectSize, searchStart, addr, last, lastSize)
  {
    w, next, nextLast, nextSize := Walk(false, last, lastSize), searchStart, last, lastSize;
    if c.mem[searchStart / 8] == 0 {
      next := AlignedSize(searchStart + 8);
      if next > addr {
        return true, Walk(false, last, lastSize), next, last, lastSize;
      }
      return false, w, next, last, lastSize;
    }
    var objSize := AlignedSize(c.objectSize(c.mem, searchStart));
    if addr < searchStart + objSize {
      return true, Walk(true, searchStart, objSize), next, last, lastSize;
    }
    AddAligned(searchStart, objSize);
    return false, w, searchStart + objSize, searchStart, objSize;
  }

  /**
   * The object search for one address of pin_objects_from_addresses: from
   * its scan start, or from the end of the object found last when that is
   * further on, walk to the object containing addr.
   */
  method ResolveAddress(c: Collector, addr: nat, sectionData: nat, scanStarts: seq<nat>, startNursery: nat,
                        lastObj: nat, lastObjSize: nat)
    returns (w: Walk)
    requires PositiveSizes(c.objectSize)
    requires sectionData <= startNursery <= addr < 8 * |c.mem| && startNursery % 8 == 0
    requires (addr - sectionData) / ScanStartSize < |scanStarts|
    requires forall j :: 0 <= j < |scanStarts| ==> scanStarts[j] % 8 == 0
    requires lastObj % 8 == 0 && lastObjSize % 8 == 0 && lastObj + lastObjSize <= addr
    requires LastObjOk(c.mem, c.objectSize, lastObj, lastObjSize)
    ensures lastObj <= w.lastObj <= addr && w.lastObj % 8 == 0 && w.lastObjSize % 8 == 0
    ensures LastObjOk(c.mem, c.objectSize, w.lastObj, w.lastObjSize)
    ensures lastObjSize > 0 ==> w.lastObjSize > 0
    ensures w.found ==>
      && w.lastObj < 8 * |c.mem| && c.mem[w.lastObj / 8] != 0
      && w.lastObj <= addr < w.lastObj + w.lastObjSize
      && w.lastObjSize == AlignedSize(c.objectSize(c.mem, w.lastObj))
    ensures w.found && lastObjSize > 0 ==> lastObj < w.lastObj
    ensures !w.found ==> w.lastObj + w.lastObjSize <= addr && c.mem[addr / 8] == 0
  {
    var idx := (addr - sectionData) / ScanStartSize;
    var searchStart, slot := FindSearchStart(scanStarts, idx, addr, startNursery);
    if searchStart < lastObj {
      AddAligned(lastObj, lastObjSize);
      searchStart := lastObj + lastObjSize;
    }
    w := WalkToAddress(c, searchStart, addr, lastObj, lastObjSize);
    WalkLandsOnObject(c.mem, c.objectSize, searchStart, addr, lastObj, lastObjSize);
    if lastObjSize > 0 {
      WalkPastLast(c.mem, c.objectSize, searchStart, addr, lastObj, lastObjSize);
    }
  }

  // ------------------------------------------------------------------ pinning

  /** The heap differs from the old one only by PINNED bits that were set. */
  ghost predicate PinnedOnly(old_mem: Heap, mem: Heap)
  {
    |mem| == |old_mem|
    && forall i :: 0 <= i < |mem| ==> mem[i] == old_mem[i] || mem[i] == WithPinned(old_mem[i])
  }

  lemma PinnedOnlyStep(m0: Heap, m1: Heap, obj: nat)
    requires PinnedOnly(m0, m1) && obj / 8 < |m1|
    ensures PinnedOnly(m0, m1[obj / 8 := WithPinned(m1[obj / 8])])
  {
    var j := obj / 8;
    if m1[j] != m0[j] {
      assert PinnedFlag(m1[j]);
    }
  }

  /** A word that is zero now was zero before: a PINNED bit makes a word non-zero. */
  lemma ZeroBefore(m0: Heap, mem: Heap, j: nat)
    requires PinnedOnly(m0, mem) && j < |mem| && mem[j] == 0
    ensures m0[j] == 0
  {
    assert !PinnedFlag(mem[j]) && PinnedFlag(WithPinned(m0[j]));
  }

  /** Setting a PINNED bit changes no object's size: the size is read through the masked vtable word. */
  ghost predicate SizeIgnoresPinned(size: (Heap, nat) -> nat)
  {
    forall m: Heap, i: nat, o: nat :: i < |m| ==> size(m[i := WithPinned(m[i])], o) == size(m, o)
  }

  /**
   * Where address x of the queue was settled: inside recorded object cv
   * (objs[cv] up to its aligned size), or, for cv == -1, on a word of the
   * original heap that is zero, where no object starts.
   */
  ghost predicate Settled(objs: seq<nat>, sizes: seq<nat>, m0: Heap, cv: int, x: nat)
  {
    if cv == -1 then x / 8 < |m0| && m0[x / 8] == 0
    else 0 <= cv < |objs| && cv < |sizes| && objs[cv] <= x < objs[cv] + sizes[cv]
  }

  lemma SettledGrow(objs: seq<nat>, sizes: seq<nat>, m0: Heap, cv: int, x: nat, o: nat, z: nat)
    requires Settled(objs, sizes, m0, cv, x)
    ensures Settled(objs + [o], sizes + [z], m0, cv, x)
  {
    if cv != -1 {
      assert (objs + [o])[cv] == objs[cv] && (sizes + [z])[cv] == sizes[cv];
    }
  }

  /** addrs as pinning leaves it: the recorded objects from start on, the other entries as they were. */
  ghost function WithRecorded(orig: seq<Word>, start: nat, objs: seq<Word>): (r: seq<Word>)
    requires start + |objs| <= |orig|
    ensures |r| == |orig|
  {
    orig[..start] + objs + orig[start + |objs|..]
  }

  /** The entries after the recorded ones are the original ones. */
  lemma WithRecordedAfter(orig: seq<Word>, start: nat, objs: seq<Word>, k: nat)
    requires start + |objs| <= k < |orig|
    ensures WithRecorded(orig, start, objs)[k] == orig[k]
  {
  }

  lemma WithRecordedPush(orig: seq<Word>, start: nat, objs: seq<Word>, o: Word)
    requires start + |objs| < |orig|
    ensures WithRecorded(orig, start, objs)[start + |objs| := o] == WithRecorded(orig, start, objs + [o])
  {
    var a, b := WithRecorded(orig, start, objs)[start + |objs| := o], WithRecorded(orig, start, objs + [o]);
    forall k | 0 <= k < |orig| ensures a[k] == b[k] {
      if start <= k < start + |objs| {
        assert b[start + (k - start)] == (objs + [o])[k - start];
      }
    }
  }

  /** Every recorded object is aligned, inside the nursery and has its PINNED bit set. */
  ghost predicate AllPinned(objs: seq<Word>, mem: Heap, endNursery: nat)
  {
    forall q :: 0 <= q < |objs| ==>
      objs[q] % 8 == 0 && objs[q] < endNursery && objs[q] / 8 < |mem| && PinnedFlag(mem[objs[q] / 8])
  }

  /**
   * Recorded object q holds the queue address at position hit[q], which lies
   * in [start, i), and sizes[q] is its aligned size.
   */
  ghost predicate Found(objs: seq<Word>, sizes: seq<nat>, hit: seq<nat>, orig: seq<Word>, start: nat, i: nat,
                        mem: Heap, size: (Heap, nat) -> nat)
  {
    && |sizes| == |objs| && |hit| == |objs| && i <= |orig|
    && forall q :: 0 <= q < |objs| ==>
         && start <= hit[q] < i && objs[q] <= orig[hit[q]] < objs[q] + sizes[q]
         && sizes[q] == AlignedSize(size(mem, objs[q]))
  }

  /** The recorded objects in strictly increasing address order: none is recorded twice. */
  ghost predicate Increasing(objs: seq<Word>)
  {
    forall q, q' :: 0 <= q < q' < |objs| ==> objs[q] < objs[q']
  }

  /** Every non-zero nursery address of the queue before position i is settled as cover says. */
  ghost predicate AllSettled(orig: seq<Word>, start: nat, i: nat, cover: seq<int>, objs: seq<Word>, sizes: seq<nat>,
                             m0: Heap, startNursery: nat, endNursery: nat)
  {
    && start + |cover| == i <= |orig|
    && forall j :: start <= j < i && 0 < orig[j] && startNursery <= orig[j] < endNursery ==>
         Settled(objs, sizes, m0, cover[j - start], orig[j])
  }

  /** x is at or below every queue address from position i to end. */
  ghost predicate Ahead(orig: seq<Word>, i: nat, end: nat, x: nat)
    requires end <= |orig|
  {
    forall k :: i <= k < end ==> x <= orig[k]
  }

  lemma AheadSorted(orig: seq<Word>, start: nat, end: nat, i: nat, x: nat)
    requires start <= i < end <= |orig| && Sorted(orig[start..end]) && x <= orig[i]
    ensures Ahead(orig, i, end, x)
  {
    forall k | i <= k < end ensures x <= orig[k] {
      assert orig[i] == orig[start..end][i - start] && orig[k] == orig[start..end][k - start];
    }
  }

  lemma PinKeeps(objs: seq<Word>, sizes: seq<nat>, hit: seq<nat>, orig: seq<Word>, start: nat, i: nat,
                 mem: Heap, size: (Heap, nat) -> nat, endNursery: nat, o: nat, z: nat)
    requires SizeIgnoresPinned(size) && o / 8 < |mem|
    requires Found(objs, sizes, hit, orig, start, i, mem, size) && AllPinned(objs, mem, endNursery)
    requires LastObjOk(mem, size, o, z)
    ensures var m := mem[o / 8 := WithPinned(mem[o / 8])];
      Found(objs, sizes, hit, orig, start, i, m, size) && AllPinned(objs, m, endNursery) && LastObjOk(m, size, o, z)
  {
    var m := mem[o / 8 := WithPinned(mem[o / 8])];
    forall q | 0 <= q < |objs| ensures size(m, objs[q]) == size(mem, objs[q]) && PinnedFlag(m[objs[q] / 8]) {
      assert size(mem[o / 8 := WithPinned(mem[o / 8])], objs[q]) == size(mem, objs[q]);
    }
    assert size(mem[o / 8 := WithPinned(mem[o / 8])], o) == size(mem, o);
  }

  lemma FoundNext(objs: seq<Word>, sizes: seq<nat>, hit: seq<nat>, orig: seq<Word>, start: nat, i: nat,
                  mem: Heap, size: (Heap, nat) -> nat)
    requires Found(objs, sizes, hit, orig, start, i, mem, size) && i < |orig|
    ensures Found(objs, sizes, hit, orig, start, i + 1, mem, size)
  {
  }

  lemma FoundPush(objs: seq<Word>, sizes: seq<nat>, hit: seq<nat>, orig: seq<Word>, start: nat, i: nat,
                  mem: Heap, size: (Heap, nat) -> nat, o: Word, z: nat)
    requires Found(objs, sizes, hit, orig, start, i, mem, size) && start <= i < |orig|
    requires o <= orig[i] < o + z && z == AlignedSize(size(mem, o))
    ensures Found(objs + [o], sizes + [z], hit + [i], orig, start, i + 1, mem, size)
  {
    var objs', sizes', hit' := objs + [o], sizes + [z], hit + [i];
    forall q | 0 <= q < |objs'|
      ensures start <= hit'[q] < i + 1 && objs'[q] <= orig[hit'[q]] < objs'[q] + sizes'[q]
      ensures sizes'[q] == AlignedSize(size(mem, objs'[q]))
    {
      if q < |objs| {
        assert objs'[q] == objs[q] && sizes'[q] == sizes[q] && hit'[q] == hit[q];
      }
    }
  }

  lemma SettledNext(orig: seq<Word>, start: nat, i: nat, cover: seq<int>, objs: seq<Word>, sizes: seq<nat>,
                    m0: Heap, startNursery: nat, endNursery: nat, cv: int)
    requires AllSettled(orig, start, i, cover, objs, sizes, m0, startNursery, endNursery) && i < |orig|
    requires 0 < orig[i] && startNursery <= orig[i] < endNursery ==> Settled(objs, sizes, m0, cv, orig[i])
    ensures AllSettled(orig, start, i + 1, cover + [cv], objs, sizes, m0, startNursery, endNursery)
  {
    var cover' := cover + [cv];
    forall j | start <= j < i + 1 && 0 < orig[j] && startNursery <= orig[j] < endNursery
      ensures Settled(objs, sizes, m0, cover'[j - start], orig[j])
    {
      if j < i {
        assert cover'[j - start] == cover[j - start];
      }
    }
  }

  lemma SettledPush(orig: seq<Word>, start: nat, i: nat, cover: seq<int>, objs: seq<Word>, sizes: seq<nat>,
                    m0: Heap, startNursery: nat, endNursery: nat, o: Word, z: nat)
    requires AllSettled(orig, start, i, cover, objs, sizes, m0, startNursery, endNursery)
    ensures AllSettled(orig, start, i, cover, objs + [o], sizes + [z], m0, startNursery, endNursery)
  {
    forall j | start <= j < i && 0 < orig[j] && startNursery <= orig[j] < endNursery
      ensures Settled(objs + [o], sizes + [z], m0, cover[j - start], orig[j])
    {
      SettledGrow(objs, sizes, m0, cover[j - start], orig[j], o, z);
    }
  }

  lemma AllPinnedPush(objs: seq<Word>, mem: Heap, endNursery: nat, o: Word)
    requires AllPinned(objs, mem, endNursery)
    requires o % 8 == 0 && o < endNursery && o / 8 < |mem| && PinnedFlag(mem[o / 8])
    ensures AllPinned(objs + [o], mem, endNursery)
  {
    forall q | 0 <= q < |objs| + 1 ensures (objs + [o])[q] == if q < |objs| then objs[q] else o {
    }
  }

  lemma IncreasingPush(objs: seq<Word>, o: Word)
    requires Increasing(objs) && (|objs| > 0 ==> objs[|objs| - 1] < o)
    ensures Increasing(objs + [o])
  {
    var objs' := objs + [o];
    forall q, q' | 0 <= q < q' < |objs'| ensures objs'[q] < objs'[q'] {
      if q' < |objs| {
        assert objs'[q] == objs[q] && objs'[q'] == objs[q'];
      } else {
        assert objs'[q] == objs[q] <= objs[|objs| - 1];
      }
    }
  }

  /**
   * What the pinning loop has recorded so far: the objects, their aligned
   * sizes, the queue position of the address that found each, where each
   * queue address was settled, and where the last looked-at one was.
   */
  datatype Book = Book(objs: seq<Word>, sizes: seq<nat>, hit: seq<nat>, cover: seq<int>, lastCover: int)

  /**
   * What the pinning loop has recorded by queue position i: the recorded
   * objects are pinned, each holds the address that found it, they are in
   * increasing order, and every address looked at is settled.
   */
  ghost predicate Records(b: Book, orig: seq<Word>, start: nat, i: nat, mem: Heap, m0: Heap,
                          size: (Heap, nat) -> nat, startNursery: nat, endNursery: nat, last: nat)
  {
    && PinnedOnly(m0, mem) && AllPinned(b.objs, mem, endNursery)
    && Found(b.objs, b.sizes, b.hit, orig, start, i, mem, size)
    && Increasing(b.objs)
    && AllSettled(orig, start, i, b.cover, b.objs, b.sizes, m0, startNursery, endNursery)
    && (last != 0 ==> Settled(b.objs, b.sizes, m0, b.lastCover, last))
  }

  /**
   * What last_obj and last_obj_size hold at queue position i: an object of
   * the heap at or after the last recorded one and at or below every address
   * still to come, which either is the last recorded one or lies wholly
   * below every address still to come.
   */
  ghost predicate Tracks(b: Book, orig: seq<Word>, i: nat, end: nat, mem: Heap, size: (Heap, nat) -> nat,
                         lastObj: nat, lastObjSize: nat)
  {
    && end <= |orig| && |b.sizes| == |b.objs|
    && lastObj % 8 == 0 && lastObjSize % 8 == 0
    && LastObjOk(mem, size, lastObj, lastObjSize)
    && (|b.objs| > 0 ==> lastObjSize > 0 && b.objs[|b.objs| - 1] <= lastObj)
    && Ahead(orig, i, end, lastObj)
    && (|| (|b.objs| > 0 && lastObj == b.objs[|b.objs| - 1] && lastObjSize == b.sizes[|b.objs| - 1])
        || Ahead(orig, i, end, lastObj + lastObjSize))
  }

  /** The loop invariant of pin_objects_from_addresses at queue position i. */
  ghost predicate PinInv(b: Book, orig: seq<Word>, start: nat, i: nat, end: nat, mem: Heap, m0: Heap,
                         size: (Heap, nat) -> nat, startNursery: nat, endNursery: nat,
                         last: nat, lastObj: nat, lastObjSize: nat)
  {
    && start <= i <= end <= |orig| && |b.objs| <= i - start
    && Records(b, orig, start, i, mem, m0, size, startNursery, endNursery, last)
    && Tracks(b, orig, i, end, mem, size, lastObj, lastObjSize)
  }

  /** A repeated address, or one outside the nursery, is passed over. */
  lemma PassStep(b: Book, orig: seq<Word>, start: nat, i: nat, next: nat, end: nat, mem: Heap, m0: Heap,
                 size: (Heap, nat) -> nat, startNursery: nat, endNursery: nat,
                 last: nat, lastObj: nat, lastObjSize: nat)
    requires next == i + 1
    requires PinInv(b, orig, start, i, end, mem, m0, size, startNursery, endNursery, last, lastObj, lastObjSize)
    requires i < end && !(orig[i] != last && startNursery <= orig[i] < endNursery)
    ensures PinInv(b.(cover := b.cover + [b.lastCover]), orig, start, next, end, mem, m0, size,
                   startNursery, endNursery, last, lastObj, lastObjSize)
  {
    SettledNext(orig, start, i, b.cover, b.objs, b.sizes, m0, startNursery, endNursery, b.lastCover);
    FoundNext(b.objs, b.sizes, b.hit, orig, start, i, mem, size);
  }

  /** An address inside the last object found is passed over: it is settled in that object. */
  lemma InsideStep(b: Book, orig: seq<Word>, start: nat, i: nat, next: nat, end: nat, mem: Heap, m0: Heap,
                   size: (Heap, nat) -> nat, startNursery: nat, endNursery: nat,
                   last: nat, lastObj: nat, lastObjSize: nat)
    requires next == i + 1
    requires PinInv(b, orig, start, i, end, mem, m0, size, startNursery, endNursery, last, lastObj, lastObjSize)
    requires i < end && lastObj <= orig[i] < lastObj + lastObjSize
    ensures |b.objs| > 0
    ensures PinInv(b.(cover := b.cover + [|b.objs| - 1]), orig, start, next, end, mem, m0, size,
                   startNursery, endNursery, last, lastObj, lastObjSize)
  {
    SettledNext(orig, start, i, b.cover, b.objs, b.sizes, m0, startNursery, endNursery, |b.objs| - 1);
    FoundNext(b.objs, b.sizes, b.hit, orig, start, i, mem, size);
  }

  /** A walk that found nothing: the address is settled on a zero word, and the walk's last object lies below it. */
  lemma MissStep(b: Book, orig: seq<Word>, start: nat, i: nat, next: nat, end: nat, mem: Heap, m0: Heap,
                 size: (Heap, nat) -> nat, startNursery: nat, endNursery: nat,
                 last: nat, lastObj: nat, lastObjSize: nat, w: Walk)
    requires next == i + 1
    requires PinInv(b, orig, start, i, end, mem, m0, size, startNursery, endNursery, last, lastObj, lastObjSize)
    requires Sorted(orig[start..end]) && i < end
    requires lastObj <= w.lastObj && w.lastObj % 8 == 0 && w.lastObjSize % 8 == 0
    requires LastObjOk(mem, size, w.lastObj, w.lastObjSize) && (lastObjSize > 0 ==> w.lastObjSize > 0)
    requires w.lastObj + w.lastObjSize <= orig[i] && orig[i] / 8 < |mem| && mem[orig[i] / 8] == 0
    ensures PinInv(b.(cover := b.cover + [-1], lastCover := -1), orig, start, next, end, mem, m0, size,
                   startNursery, endNursery, orig[i], w.lastObj, w.lastObjSize)
  {
    ZeroBefore(m0, mem, orig[i] / 8);
    SettledNext(orig, start, i, b.cover, b.objs, b.sizes, m0, startNursery, endNursery, -1);
    FoundNext(b.objs, b.sizes, b.hit, orig, start, i, mem, size);
    AheadSorted(orig, start, end, i, w.lastObj + w.lastObjSize);
    AheadSorted(orig, start, end, i, w.lastObj);
  }

  /** A walk that found object o holding the address: o is pinned, recorded and settles the address. */
  lemma HitStep(b: Book, orig: seq<Word>, start: nat, i: nat, next: nat, end: nat, mem: Heap, m0: Heap,
                size: (Heap, nat) -> nat, startNursery: nat, endNursery: nat,
                last: nat, lastObj: nat, lastObjSize: nat, o: Word, z: nat)
    requires next == i + 1
    requires PinInv(b, orig, start, i, end, mem, m0, size, startNursery, endNursery, last, lastObj, lastObjSize)
    requires PositiveSizes(size) && SizeIgnoresPinned(size)
    requires Sorted(orig[start..end]) && i < end && orig[i] < endNursery
    requires lastObj <= o && (lastObjSize > 0 ==> lastObj < o) && o % 8 == 0 && z % 8 == 0
    requires LastObjOk(mem, size, o, z) && o / 8 < |mem| && o <= orig[i] < o + z && z == AlignedSize(size(mem, o))
    ensures PinInv(Book(b.objs + [o], b.sizes + [z], b.hit + [i], b.cover + [|b.objs|], |b.objs|),
                   orig, start, next, end, mem[o / 8 := WithPinned(mem[o / 8])], m0, size,
                   startNursery, endNursery, orig[i], o, z)
  {
    HitRecords(b, orig, start, i, next, end, mem, m0, size, startNursery, endNursery, last, lastObj, lastObjSize, o, z);
    HitTracks(b, orig, start, i, next, end, mem, m0, size, startNursery, endNursery, last, lastObj, lastObjSize, o, z);
  }

  lemma HitRecords(b: Book, orig: seq<Word>, start: nat, i: nat, next: nat, end: nat, mem: Heap, m0: Heap,
                   size: (Heap, nat) -> nat, startNursery: nat, endNursery: nat,
                   last: nat, lastObj: nat, lastObjSize: nat, o: Word, z: nat)
    requires next == i + 1
    requires PinInv(b, orig, start, i, end, mem, m0, size, startNursery, endNursery, last, lastObj, lastObjSize)
    requires SizeIgnoresPinned(size) && i < end && orig[i] < endNursery
    requires lastObj <= o && (lastObjSize > 0 ==> lastObj < o) && o % 8 == 0
    requires LastObjOk(mem, size, o, z) && o / 8 < |mem| && o <= orig[i] < o + z && z == AlignedSize(size(mem, o))
    ensures Records(Book(b.objs + [o], b.sizes + [z], b.hit + [i], b.cover + [|b.objs|], |b.objs|),
                    orig, start, next, mem[o / 8 := WithPinned(mem[o / 8])], m0, size, startNursery, endNursery, orig[i])
  {
    var m := mem[o / 8 := WithPinned(mem[o / 8])];
    PinKeeps(b.objs, b.sizes, b.hit, orig, start, i, mem, size, endNursery, o, z);
    PinnedOnlyStep(m0, mem, o);
    AllPinnedPush(b.objs, m, endNursery, o);
    IncreasingPush(b.objs, o);
    SettledPush(orig, start, i, b.cover, b.objs, b.sizes, m0, startNursery, endNursery, o, z);
    assert size(m, o) == size(mem, o);
    FoundPush(b.objs, b.sizes, b.hit, orig, start, i, m, size, o, z);
    SettledNext(orig, start, i, b.cover, b.objs + [o], b.sizes + [z], m0, startNursery, endNursery, |b.objs|);
  }

  lemma HitTracks(b: Book, orig: seq<Word>, start: nat, i: nat, next: nat, end: nat, mem: Heap, m0: Heap,
                  size: (Heap, nat) -> nat, startNursery: nat, endNursery: nat,
                  last: nat, lastObj: nat, lastObjSize: nat, o: Word, z: nat)
    requires next == i + 1
    requires PinInv(b, orig, start, i, end, mem, m0, size, startNursery, endNursery, last, lastObj, lastObjSize)
    requires PositiveSizes(size) && SizeIgnoresPinned(size) && Sorted(orig[start..end]) && i < end
    requires o % 8 == 0 && z % 8 == 0
    requires LastObjOk(mem, size, o, z) && o / 8 < |mem| && o <= orig[i] && z == AlignedSize(size(mem, o))
    ensures Tracks(Book(b.objs + [o], b.sizes + [z], b.hit + [i], b.cover + [|b.objs|], |b.objs|),
                   orig, next, end, mem[o / 8 := WithPinned(mem[o / 8])], size, o, z)
  {
    PinKeeps(b.objs, b.sizes, b.hit, orig, start, i, mem, size, endNursery, o, z);
    AheadSorted(orig, start, end, i, o);
  }


  /**
   * pin_object on obj, and obj recorded in the next slot after the objects
   * recorded so far; ghost mem is the heap the caller tracks.
   */
  method PinAndRecord(c: Collector, addrs: array<Word>, start: nat, slot: nat, obj: Word, endNursery: nat,
                      ghost m0: Heap, ghost orig: seq<Word>, ghost objs: seq<Word>)
    requires slot == start + |objs| < |orig| == addrs.Length && addrs[..] == WithRecorded(orig, start, objs)
    requires obj % 8 == 0 && obj < endNursery <= 8 * |c.mem|
    requires PinnedOnly(m0, c.mem)
    modifies c`mem, addrs
    ensures c.mem == old(c.mem)[obj / 8 := WithPinned(old(c.mem)[obj / 8])] && PinnedOnly(m0, c.mem)
    ensures addrs[..] == WithRecorded(orig, start, objs + [obj])
  {
    PinnedOnlyStep(m0, c.mem, obj);
    c.PinObject(obj);
    WithRecordedPush(orig, start, objs, obj);
    addrs[slot] := obj;
  }


  /**
   * One address of the queue that is new, inside the nursery and outside the
   * last object: the walk from its scan start, then pin_object and the
   * record when the walk found the object holding it.  b' and mem' are the
   * book and the heap after the step.
   */
  method VisitAddress(c: Collector, addrs: array<Word>, start: nat, count: nat, i: nat, next: nat, end: nat,
                      sectionData: nat, scanStarts: seq<nat>, startNursery: nat, endNursery: nat,
                      last: nat, lastObj: nat, lastObjSize: nat,
                      ghost b: Book, ghost orig: seq<Word>, ghost mem: Heap, ghost m0: Heap)
    returns (w: Walk, ghost b': Book, ghost mem': Heap)
    requires PinInv(b, orig, start, i, end, mem, m0, c.objectSize, startNursery, endNursery, last, lastObj, lastObjSize)
    requires mem == c.mem && count == |b.objs| && addrs.Length == |orig| && addrs[..] == WithRecorded(orig, start, b.objs)
    requires next == i + 1 && i < end && Sorted(orig[start..end])
    requires PositiveSizes(c.objectSize) && SizeIgnoresPinned(c.objectSize)
    requires startNursery % 8 == 0 && endNursery <= 8 * |c.mem|
    requires sectionData <= startNursery && endNursery <= sectionData + ScanStartSize * |scanStarts|
    requires forall j :: 0 <= j < |scanStarts| ==> scanStarts[j] % 8 == 0
    requires orig[i] != last && startNursery <= orig[i] < endNursery && !(lastObj <= orig[i] < lastObj + lastObjSize)
    modifies c`mem, addrs
    ensures PinInv(b', orig, start, next, end, mem', m0, c.objectSize, startNursery, endNursery, orig[i], w.lastObj, w.lastObjSize)
    ensures mem' == c.mem && |b'.objs| == (if w.found then count + 1 else count)
    ensures addrs[..] == WithRecorded(orig, start, b'.objs)
  {
    var addr := addrs[i];
    WithRecordedAfter(orig, start, b.objs, i);
    ScanIndex(addr, sectionData, |scanStarts|);
    w := ResolveAddress(c, addr, sectionData, scanStarts, startNursery, lastObj, lastObjSize);
    if w.found {
      var o: Word := w.lastObj;
      HitStep(b, orig, start, i, next, end, mem, m0, c.objectSize, startNursery, endNursery,
              last, lastObj, lastObjSize, o, w.lastObjSize);
      PinAndRecord(c, addrs, start, start + count, o, endNursery, m0, orig, b.objs);
      mem' := mem[o / 8 := WithPinned(mem[o / 8])];
      b' := Book(b.objs + [o], b.sizes + [w.lastObjSize], b.hit + [i], b.cover + [count], count);
    } else {
      MissStep(b, orig, start, i, next, end, mem, m0, c.objectSize, startNursery, endNursery,
               last, lastObj, lastObjSize, w);
      b', mem' := b.(cover := b.cover + [-1], lastCover := -1), mem;
    }
  }

  /**
   * One turn of the loop of pin_objects_from_addresses, at queue position i:
   * the address is passed over, settled in the last object, or resolved and
   * perhaps pinned.  The results are the new count, last, last_obj and
   * last_obj_size, with the book and the heap after the turn.
   */
  method PinStep(c: Collector, addrs: array<Word>, start: nat, count: nat, i: nat, next: nat, end: nat,
                 sectionData: nat, scanStarts: seq<nat>, startNursery: nat, endNursery: nat,
                 last: nat, lastObj: nat, lastObjSize: nat,
                 ghost b: Book, ghost orig: seq<Word>, ghost mem: Heap, ghost m0: Heap)
    returns (count': nat, last': nat, lastObj': nat, lastObjSize': nat, ghost b': Book, ghost mem': Heap)
    requires PinInv(b, orig, start, i, end, mem, m0, c.objectSize, startNursery, endNursery, last, lastObj, lastObjSize)
    requires mem == c.mem && count == |b.objs| && addrs.Length == |orig| && addrs[..] == WithRecorded(orig, start, b.objs)
    requires next == i + 1 && i < end && Sorted(orig[start..end])
    requires PositiveSizes(c.objectSize) && SizeIgnoresPinned(c.objectSize)
    requires startNursery % 8 == 0 && endNursery <= 8 * |c.mem|
    requires sectionData <= startNursery && endNursery <= sectionData + ScanStartSize * |scanStarts|
    requires forall j :: 0 <= j < |scanStarts| ==> scanStarts[j] % 8 == 0
    modifies c`mem, addrs
    ensures PinInv(b', orig, start, next, end, mem', m0, c.objectSize, startNursery, endNursery, last', lastObj', lastObjSize')
    ensures mem' == c.mem && count' == |b'.objs| && addrs[..] == WithRecorded(orig, start, b'.objs)
  {
    var addr := addrs[i];
    WithRecordedAfter(orig, start, b.objs, i);
    count', last', lastObj', lastObjSize', b', mem' := count, last, lastObj, lastObjSize, b, mem;
    if addr != last && startNursery <= addr < endNursery {
      if lastObj <= addr < lastObj + lastObjSize {
        InsideStep(b, orig, start, i, next, end, mem, m0, c.objectSize, startNursery, endNursery, last, lastObj, lastObjSize);
        b' := b.(cover := b.cover + [|b.objs| - 1]);
        return;
      }
      var w;
      w, b', mem' := VisitAddress(c, addrs, start, count, i, next, end, sectionData, scanStarts, startNursery, endNursery,
                                  last, lastObj, lastObjSize, b, orig, mem, m0);
      if w.found {
        count' := count + 1;
      }
      lastObj', lastObjSize', last' := w.lastObj, w.lastObjSize, addr;
    } else {
      PassStep(b, orig, start, i, next, end, mem, m0, c.objectSize, startNursery, endNursery, last, lastObj, lastObjSize);
      b' := b.(cover := b.cover + [b.lastCover]);
    }
  }

  /**
   * pin_objects_from_addresses: for every address of the sorted
   * addrs[start..end) that lies in the nursery, find the object containing it
   * and pin it, recording the pinned objects from addrs[start] on; the count
   * of recorded objects is returned.  Repeated addresses, and addresses
   * inside the object found last, are passed over.
   *
   * The ghost results say what was recorded: the objects, the aligned size
   * of each, the queue position of the address that found it, and, for each
   * queue position, where that address was settled.  The recorded objects
   * are pinned and in increasing address order, so each is recorded once;
   * each holds the address that found it; and every non-zero nursery address
   * of the queue lies in a recorded object or on a word that was zero.  The
   * address 0 stands for the previous address before the first one, so an
   * address 0 is never looked at.
   */
  method PinObjectsFromAddresses(c: Collector, addrs: array<Word>, start: nat, end: nat,
                                 sectionData: nat, scanStarts: seq<nat>,
                                 startNursery: nat, endNursery: nat)
    returns (count: nat, ghost objs: seq<Word>, ghost sizes: seq<nat>, ghost hit: seq<nat>, ghost cover: seq<int>)
    requires start <= end <= addrs.Length && Sorted(addrs[start..end])
    requires PositiveSizes(c.objectSize) && SizeIgnoresPinned(c.objectSize)
    requires startNursery % 8 == 0 && endNursery <= 8 * |c.mem|
    requires sectionData <= startNursery && endNursery <= sectionData + ScanStartSize * |scanStarts|
    requires forall j :: 0 <= j < |scanStarts| ==> scanStarts[j] % 8 == 0
    modifies c`mem, addrs
    ensures count == |objs| <= end - start
    ensures addrs[..] == WithRecorded(old(addrs[..]), start, objs)
    ensures PinnedOnly(old(c.mem), c.mem) && AllPinned(objs, c.mem, endNursery)
    ensures Found(objs, sizes, hit, old(addrs[..]), start, end, c.mem, c.objectSize)
    ensures Increasing(objs)
    ensures AllSettled(old(addrs[..]), start, end, cover, objs, sizes, old(c.mem), startNursery, endNursery)
  {
    ghost var orig := addrs[..];
    ghost var m0 := c.mem;
    assert addrs[start..end] == orig[start..end];
    var last: nat := 0;
    var lastObj: nat, lastObjSize: nat := 0, 0;
    count := 0;
    ghost var b := Book([], [], [], [], -1);
    ghost var mem := c.mem;
    assert addrs[..] == WithRecorded(orig, start, b.objs);
    var i := start;
    while i < end
      invariant PinInv(b, orig, start, i, end, mem, m0, c.objectSize, startNursery, endNursery, last, lastObj, lastObjSize)
      invariant mem == c.mem && count == |b.objs| && addrs.Length == |orig|
      invariant addrs[..] == WithRecorded(orig, start, b.objs)
    {
      var next := i + 1;
      count, last, lastObj, lastObjSize, b, mem :=
        PinStep(c, addrs, start, count, i, next, end, sectionData, scanStarts, startNursery, endNursery,
                last, lastObj, lastObjSize, b, orig, mem, m0);
      i := next;
    }
    objs, sizes, hit, cover := b.objs, b.sizes, b.hit, b.cover;
  }

  /** An address below the nursery's end has a scan-start slot. */
  lemma ScanIndex(addr: nat, sectionData: nat, n: nat)
    requires sectionData <= addr < sectionData + ScanStartSize * n
    ensures (addr - sectionData) / ScanStartSize < n
  {
  }
}
