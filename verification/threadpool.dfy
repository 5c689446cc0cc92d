// The thread pool's job queue and admission rules (threadpool.c).
//
// A TPQueue is a FIFO held in a managed array: the live jobs sit in slots
// [first_elem, next_elem).  Appending slides the live jobs to the front or
// doubles the array when the tail is full; dequeuing halves a mostly empty
// array.  Locks are absent from the model; the runtime-shutdown flag and a
// job's domain state are parameters.

module ThreadPool {

  datatype Option<T> = None | Some(value: T)

  const InitialQueueLength: int := 128
  const ThreadsPerCpu: int := 10

  /** A queued async result: an identity and the application domain it
      belongs to. */
  datatype Job = Job(id: nat, domain: nat)

  /** An array slot holds a job reference or NULL. */
  type Slot = Option<Job>

  predicate AllJobs(s: seq<Slot>)
  {
    forall i :: 0 <= i < |s| ==> s[i].Some?
  }

  /** The jobs referenced by a run of non-NULL slots, in order. */
  function Jobs(s: seq<Slot>): (q: seq<Job>)
    requires AllJobs(s)
    ensures |q| == |s|
    ensures forall i :: 0 <= i < |s| ==> s[i] == Some(q[i])
  {
    if s == [] then [] else Jobs(s[..|s| - 1]) + [s[|s| - 1].value]
  }

  lemma JobsOfSlots(s: seq<Slot>, q: seq<Job>)
    requires |q| == |s| && forall i :: 0 <= i < |s| ==> s[i] == Some(q[i])
    ensures AllJobs(s) && Jobs(s) == q
  {
  }

  /** The jobs of `q` that do not belong to domain `d`, in their order. */
  function Survivors(q: seq<Job>, d: nat): (r: seq<Job>)
    ensures |r| <= |q|
  {
    if q == [] then []
    else Survivors(q[..|q| - 1], d) + (if q[|q| - 1].domain != d then [q[|q| - 1]] else [])
  }

  /** Every survivor is a job of the queue outside domain `d`. */
  lemma {:induction false} SurvivorsFromOtherDomains(q: seq<Job>, d: nat)
    ensures forall j :: j in Survivors(q, d) ==> j in q && j.domain != d
  {
    if q != [] {
      SurvivorsFromOtherDomains(q[..|q| - 1], d);
      assert q == q[..|q| - 1] + [q[|q| - 1]];
    }
  }

  /** Every job outside domain `d` survives. */
  lemma {:induction false} SurvivorsKeepOtherDomains(q: seq<Job>, d: nat)
    ensures forall j :: j in q && j.domain != d ==> j in Survivors(q, d)
  {
    if q != [] {
      SurvivorsKeepOtherDomains(q[..|q| - 1], d);
      assert q == q[..|q| - 1] + [q[|q| - 1]];
    }
  }

  /** Removing nothing leaves the queue as it was. */
  lemma {:induction false} SurvivorsAllKept(q: seq<Job>, d: nat)
    requires |Survivors(q, d)| == |q|
    ensures Survivors(q, d) == q
  {
    if q != [] {
      var p := q[..|q| - 1];
      assert |Survivors(p, d)| <= |p|;
      SurvivorsAllKept(p, d);
      assert q == p + [q[|q| - 1]];
    }
  }

  /** The number of jobs of domain `d` that a clear removes. */
  function RemovedCount(q: seq<Job>, d: nat): (n: nat)
    ensures n + |Survivors(q, d)| == |q|
  {
    |q| - |Survivors(q, d)|
  }

  class TPQueue {
    var arr: array?<Slot>
    var first: int
    var next: int

    ghost predicate Valid()
      reads this, arr
    {
      if arr == null then first == 0 && next == 0
      else 0 <= first <= next <= arr.Length && arr.Length >= 1 && AllJobs(arr[first..next])
    }

    /** The queued jobs, oldest first. */
    ghost function Contents(): seq<Job>
      reads this, arr
      requires Valid()
    {
      if arr == null then [] else Jobs(arr[first..next])
    }

    constructor ()
      ensures Valid() && Contents() == [] && arr == null
    {
      arr := null;
      first := 0;
      next := 0;
    }

    /** Enqueue `job` at the tail.  Nothing is queued while the runtime shuts
        down or while the job's domain is unloading or unloaded. */
    method AppendJob(job: Job, shuttingDown: bool, domainUnloading: bool)
      requires Valid()
      modifies this, arr
      ensures Valid()
      ensures shuttingDown || domainUnloading ==>
        Contents() == old(Contents()) && arr == old(arr) && first == old(first) && next == old(next)
      ensures !shuttingDown && !domainUnloading ==> Contents() == old(Contents()) + [job]
      ensures !shuttingDown && !domainUnloading && old(arr) == null ==>
        fresh(arr) && arr.Length == InitialQueueLength
      ensures !shuttingDown && !domainUnloading && old(arr) != null && old(next) < old(arr.Length) ==>
        arr == old(arr) && first == old(first)
      ensures !shuttingDown && !domainUnloading && old(arr) != null && old(next) == old(arr.Length) && old(first) > 0 ==>
        arr == old(arr) && first == 0
      ensures !shuttingDown && !domainUnloading && old(arr) != null && old(next) == old(arr.Length) && old(first) == 0 ==>
        fresh(arr) && arr.Length == 2 * old(arr.Length) && first == 0 &&
        forall i :: old(first) <= i < old(next) ==> old(arr)[i] == None
    {
      if shuttingDown {
        return;
      }
      if domainUnloading {
        return;
      }
      if arr == null || next >= arr.Length {
        MakeRoom();
      }
      PushTail(job);
    }

    /** Store `job` in the free slot at the tail. */
    method PushTail(job: Job)
      requires Valid() && arr != null && next < arr.Length
      modifies this`next, arr
      ensures Valid() && Contents() == old(Contents()) + [job]
      ensures next == old(next) + 1
    {
      ghost var q := Contents();
      arr[next] := Some(job);
      next := next + 1;
      JobsOfSlots(arr[first..next], q + [job]);
    }

    /** Make room at the tail of a queue whose array is missing or full:
        allocate the initial array, slide the jobs to the front, or move them
        to an array twice as long. */
    method MakeRoom()
      requires Valid() && (arr == null || next == arr.Length)
      modifies this, arr
      ensures Valid() && Contents() == old(Contents())
      ensures arr != null && next < arr.Length
      ensures old(arr) == null ==> fresh(arr) && arr.Length == InitialQueueLength
      ensures old(arr) != null && old(first) > 0 ==> arr == old(arr) && first == 0
      ensures old(arr) != null && old(first) == 0 ==>
        fresh(arr) && arr.Length == 2 * old(arr.Length) && first == 0 &&
        forall i :: old(first) <= i < old(next) ==> old(arr)[i] == None
    {
      if arr == null {
        arr := new Slot[InitialQueueLength](_ => None);
        return;
      }
      if first > 0 {
        SlideJobs();
      } else {
        GrowArray();
      }
    }

    /** Slide the live jobs to the front of the same array. */
    method SlideJobs()
      requires Valid() && arr != null && 0 < first && next == arr.Length
      modifies this`first, this`next, arr
      ensures Valid() && Contents() == old(Contents())
      ensures first == 0 && next < arr.Length
    {
      ghost var q := Contents();
      var count := next - first;
      assert forall j :: 0 <= j < count ==> arr[first + j] == Some(q[j]) by {
        assert forall j :: 0 <= j < count ==> arr[first + j] == arr[first..next][j];
      }
      SlideToFront(arr, first, count);
      NullRange(arr, count, next);
      first := 0;
      next := count;
      JobsOfSlots(arr[first..next], q);
    }

    /** Move the jobs of a full array to a new array twice as long, and null
        out their old slots. */
    method GrowArray()
      requires Valid() && arr != null && first == 0 && next == arr.Length
      modifies this`arr, this`next, arr
      ensures Valid() && Contents() == old(Contents())
      ensures fresh(arr) && arr.Length == 2 * old(arr.Length) && first == 0 && next < arr.Length
      ensures forall i :: old(first) <= i < old(next) ==> old(arr)[i] == None
    {
      ghost var q := Contents();
      var count := next - first;
      assert forall j :: 0 <= j < count ==> arr[first + j] == Some(q[j]) by {
        assert forall j :: 0 <= j < count ==> arr[first + j] == arr[first..next][j];
      }
      var olda := arr;
      var newa := new Slot[arr.Length * 2](_ => None);
      CopyRange(olda, first, newa, count);
      arr := newa;
      NullRange(olda, first, next);
      next := count;
      JobsOfSlots(arr[first..next], q);
    }

    /** Take the oldest job, or NULL when the queue is empty.  A queue longer
        than the initial length that is less than a third full moves to an
        array half as long. */
    method DequeueJob() returns (r: Option<Job>)
      requires Valid()
      modifies this, arr
      ensures Valid()
      ensures old(Contents()) == [] ==> r == None && Contents() == [] && arr == old(arr)
      ensures old(Contents()) != [] ==> r == Some(old(Contents())[0]) && Contents() == old(Contents())[1..]
      ensures (old(Contents()) != [] && old(arr.Length) > InitialQueueLength &&
               |old(Contents())| - 1 < old(arr.Length) / 3) ==>
        fresh(arr) && arr.Length == old(arr.Length) / 2 && first == 0
      ensures (old(Contents()) != [] && !(old(arr.Length) > InitialQueueLength &&
               |old(Contents())| - 1 < old(arr.Length) / 3)) ==>
        arr == old(arr) && first == old(first) + 1
    {
      if arr == null || first == next {
        return None;
      }
      ghost var q := Contents();
      r := arr[first];
      arr[first] := None;
      first := first + 1;
      var count := next - first;
      assert arr[first..next] == old(arr[first + 1..next]);
      JobsOfSlots(arr[first..next], q[1..]);
      if arr.Length > InitialQueueLength && count < arr.Length / 3 {
        ShrinkArray();
      }
    }

    /** Move the jobs to a new array half as long. */
    method ShrinkArray()
      requires Valid() && arr != null && arr.Length > InitialQueueLength && next - first < arr.Length / 3
      modifies this`arr, this`first, this`next, arr
      ensures Valid() && Contents() == old(Contents())
      ensures fresh(arr) && arr.Length == old(arr.Length) / 2 && first == 0
    {
      var count := next - first;
      ghost var kept := arr[first..next];
      var olda := arr;
      var newa := new Slot[arr.Length / 2](_ => None);
      CopyRange(olda, first, newa, count);
      assert newa[..count] == kept;
      arr := newa;
      NullRange(olda, first, next);
      first := 0;
      next := count;
      assert arr[first..next] == kept;
    }

    /** The two loops of a clear: NULL out the jobs of domain `d`, then, if
        any were removed, move the remaining jobs to the front of the array
        in order.  `count` is the number removed and `idx` the number kept. */
    method RemoveDomainJobs(d: nat) returns (count: nat, idx: nat)
      requires Valid() && arr != null
      modifies arr
      ensures count == RemovedCount(old(Contents()), d)
      ensures count == 0 ==> arr[..] == old(arr[..])
      ensures count > 0 ==>
        (idx == |Survivors(old(Contents()), d)| && idx <= arr.Length &&
         AllJobs(arr[..idx]) && Jobs(arr[..idx]) == Survivors(old(Contents()), d))
    {
      idx := 0;
      count := NullDomainJobs(arr, first, next, Contents(), d);
      if count > 0 {
        idx := CompactSurvivors(arr, first, next, old(Contents()), d);
      }
    }

    /** Remove every job of domain `d`, keeping the others in order at the
        front of the array. */
    method ClearQueue(d: nat)
      requires Valid()
      modifies this, arr
      ensures Valid()
      ensures Contents() == Survivors(old(Contents()), d)
      ensures arr == old(arr)
    {
      if arr == null {
        return;
      }
      ghost var q := Contents();
      var count, idx := RemoveDomainJobs(d);
      if count > 0 {
        first := 0;
        next := idx;
      } else {
        assert arr[first..next] == old(arr[first..next]);
        SurvivorsAllKept(q, d);
      }
    }

    /** The clear as the runtime performs it: identical loops, but the tail
        index becomes the number of jobs removed rather than the number
        kept. */
    method ClearQueueAsWritten(d: nat)
      requires Valid()
      modifies this, arr
      ensures arr == old(arr)
      ensures RemovedCount(old(Contents()), d) == 0 ==> first == old(first) && next == old(next)
      ensures RemovedCount(old(Contents()), d) > 0 ==>
        arr != null && first == 0 && next == RemovedCount(old(Contents()), d) &&
        |Survivors(old(Contents()), d)| <= arr.Length &&
        AllJobs(arr[..|Survivors(old(Contents()), d)|]) &&
        Jobs(arr[..|Survivors(old(Contents()), d)|]) == Survivors(old(Contents()), d)
    {
      if arr == null {
        return;
      }
      var count, idx := RemoveDomainJobs(d);
      if count > 0 {
        first := 0;
        next := count;
      }
    }

    /** Drop every queued job and the array. */
    method FreeQueue()
      requires Valid()
      modifies this, arr
      ensures Valid() && arr == null && first == 0 && next == 0 && Contents() == []
      ensures old(arr) != null ==> forall i :: old(first) <= i < old(next) ==> old(arr)[i] == None
    {
      if arr != null {
        NullRange(arr, first, next);
      }
      arr := null;
      first := 0;
      next := 0;
    }
  }

  /** NULL the slots [lo, hi) of `a` and leave the rest alone. */
  method NullRange(a: array<Slot>, lo: int, hi: int)
    requires 0 <= lo <= hi <= a.Length
    modifies a
    ensures forall i :: 0 <= i < a.Length ==> a[i] == (if lo <= i < hi then None else old(a[i]))
  {
    for i := lo to hi
      invariant forall j :: 0 <= j < a.Length ==> a[j] == (if lo <= j < i then None else old(a[j]))
    {
      a[i] := None;
    }
  }

  /** Move a[from..from+count) to a[0..count); the rest of the array is
      untouched. */
  method SlideToFront(a: array<Slot>, from: int, count: int)
    requires 0 <= from && 0 <= count && from + count <= a.Length
    modifies a
    ensures forall j :: 0 <= j < count ==> a[j] == old(a[from + j])
    ensures forall j :: count <= j < a.Length ==> a[j] == old(a[j])
  {
    ghost var s := a[..];
    for k := 0 to count
      invariant forall j :: 0 <= j < k ==> a[j] == s[from + j]
      invariant forall j :: k <= j < a.Length ==> a[j] == s[j]
    {
      a[k] := a[from + k];
    }
  }

  /** Copy src[from..from+count) to the front of a fresh destination. */
  method CopyRange(src: array<Slot>, from: int, dst: array<Slot>, count: int)
    requires 0 <= from && 0 <= count && from + count <= src.Length && count <= dst.Length
    requires src != dst
    modifies dst
    ensures forall j :: 0 <= j < count ==> dst[j] == src[from + j]
    ensures forall j :: count <= j < dst.Length ==> dst[j] == old(dst[j])
  {
    for k := 0 to count
      invariant forall j :: 0 <= j < k ==> dst[j] == src[from + j]
      invariant forall j :: k <= j < dst.Length ==> dst[j] == old(dst[j])
    {
      dst[k] := src[from + k];
    }
  }

  /** What slot k of the queued jobs q holds once the jobs of domain `d`
      have been NULLed. */
  function ClearedSlot(q: seq<Job>, d: nat, k: int): Slot
    requires 0 <= k < |q|
  {
    if q[k].domain == d then None else Some(q[k])
  }

  lemma SurvivorsStep(q: seq<Job>, d: nat, k: nat)
    requires k < |q|
    ensures Survivors(q[..k + 1], d) == Survivors(q[..k], d) + (if q[k].domain != d then [q[k]] else [])
  {
    assert q[..k + 1][..k] == q[..k];
  }

  /** First loop of a clear: NULL the jobs of domain `d` in a[first..next),
      which holds the jobs q, and count them. */
  method NullDomainJobs(a: array<Slot>, first: int, next: int, ghost q: seq<Job>, d: nat) returns (count: nat)
    requires 0 <= first <= next <= a.Length && |q| == next - first
    requires forall j :: first <= j < next ==> a[j] == Some(q[j - first])
    modifies a
    ensures count == RemovedCount(q, d)
    ensures forall j :: first <= j < next ==> a[j] == ClearedSlot(q, d, j - first)
    ensures forall j :: 0 <= j < a.Length && !(first <= j < next) ==> a[j] == old(a[j])
    ensures count == 0 ==> a[..] == old(a[..])
  {
    count := 0;
    ghost var kept: seq<Job> := [];
    var i := first;
    while i < next
      invariant first <= i <= next
      invariant forall j :: first <= j < i ==> a[j] == ClearedSlot(q, d, j - first)
      invariant forall j :: 0 <= j < a.Length && !(first <= j < i) ==> a[j] == old(a[j])
      invariant kept == Survivors(q[..i - first], d) && count + |kept| == i - first
      invariant count == 0 ==> forall j :: first <= j < i ==> a[j] == old(a[j])
    {
      SurvivorsStep(q, d, i - first);
      assert a[i] == Some(q[i - first]);
      if a[i].value.domain == d {
        a[i] := None;
        count := count + 1;
      } else {
        kept := kept + [q[i - first]];
      }
      i := i + 1;
    }
    assert q[..next - first] == q;
    if count == 0 {
      assert a[..] == old(a[..]);
    }
  }

  /** Second loop of a clear: move the non-NULL slots of a[first..next) to the
      front of the array in order and count them. */
  method CompactSurvivors(a: array<Slot>, first: int, next: int, ghost q: seq<Job>, d: nat) returns (idx: nat)
    requires 0 <= first <= next <= a.Length && |q| == next - first
    requires forall j :: first <= j < next ==> a[j] == ClearedSlot(q, d, j - first)
    modifies a
    ensures idx == |Survivors(q, d)| && idx <= a.Length
    ensures AllJobs(a[..idx]) && Jobs(a[..idx]) == Survivors(q, d)
  {
    idx := 0;
    var i := first;
    ghost var kept: seq<Job> := [];
    while i < next
      invariant first <= i <= next && idx <= i - first
      invariant forall j :: i <= j < next ==> a[j] == ClearedSlot(q, d, j - first)
      invariant kept == Survivors(q[..i - first], d)
      invariant AllJobs(a[..idx]) && Jobs(a[..idx]) == kept
    {
      SurvivorsStep(q, d, i - first);
      assert a[i] == ClearedSlot(q, d, i - first);
      if a[i].Some? {
        MoveDown(a, idx, i, kept, q[i - first]);
        idx := idx + 1;
        kept := kept + [q[i - first]];
      }
      i := i + 1;
    }
    assert q[..next - first] == q;
  }

  /** Move the job in a[i] down to a[idx], just after the jobs kept so far. */
  method MoveDown(a: array<Slot>, idx: nat, i: nat, ghost kept: seq<Job>, ghost job: Job)
    requires idx <= i < a.Length && a[i] == Some(job)
    requires AllJobs(a[..idx]) && Jobs(a[..idx]) == kept
    modifies a
    ensures AllJobs(a[..idx + 1]) && Jobs(a[..idx + 1]) == kept + [job]
    ensures forall j :: 0 <= j < a.Length && j != idx ==> a[j] == old(a[j])
  {
    ghost var before := a[..idx];
    a[idx] := a[i];
    assert a[..idx + 1] == before + [Some(job)];
    JobsOfSlots(a[..idx + 1], kept + [job]);
  }

  /** With the as-written clear, a queue holding one job of domain 0 ahead of
      two jobs of domain 1 keeps only the first survivor: the tail index is
      the single removed job, so the third job is lost. */
  lemma ClearQueueAsWrittenLosesJob()
    ensures var q := [Job(1, 0), Job(2, 1), Job(3, 1)];
      Survivors(q, 0) == [Job(2, 1), Job(3, 1)] && RemovedCount(q, 0) == 1 &&
      RemovedCount(q, 0) < |Survivors(q, 0)|
  {
    var q := [Job(1, 0), Job(2, 1), Job(3, 1)];
    assert q[..2] == [Job(1, 0), Job(2, 1)];
    assert q[..2][..1] == [Job(1, 0)];
    assert q[..2][..1][..0] == [];
  }

  /** The as-written tail index equals the number of survivors only when
      exactly half of the queue belongs to the cleared domain. */
  lemma ClearQueueAsWrittenCorrectIff(q: seq<Job>, d: nat)
    ensures RemovedCount(q, d) == |Survivors(q, d)| <==> 2 * RemovedCount(q, d) == |q|
  {
  }

  // ---------------------------------------------------------------------
  // Admission and limits.

  datatype Admission = StartIdleThreads | StartWorker | Enqueue

  /** What happens to a new async call: the very first one starts the idle
      threads; afterwards a worker is started while the pool has no idle
      worker and is below its maximum, otherwise the call is queued. */
  function StartThreadOrQueue(idleStarted: bool, busy: int, workers: int, maxWorkers: int): (a: Admission)
    ensures !idleStarted <==> a == StartIdleThreads
    ensures idleStarted ==> (a == StartWorker <==> workers <= busy + 1 && workers < maxWorkers)
  {
    if !idleStarted then StartIdleThreads
    else if workers <= busy + 1 && workers < maxWorkers then StartWorker
    else Enqueue
  }

  /** Once the pool has reached its maximum size, calls are only queued. */
  lemma NoWorkerBeyondMax(busy: int, workers: int, maxWorkers: int)
    requires workers >= maxWorkers
    ensures StartThreadOrQueue(true, busy, workers, maxWorkers) == Enqueue
  {
  }

  datatype Limits = Limits(maxWorkers: int, minWorkers: int, maxIo: int, minIo: int)

  /** Thread limits at pool start-up.  `threadsPerCpuSetting` is the parsed
      MONO_THREADS_PER_CPU value when that variable is set. */
  function InitialLimits(threadsPerCpuSetting: Option<int>, cpuCount: nat): (l: Limits)
    ensures var tpc := if threadsPerCpuSetting.Some? && threadsPerCpuSetting.value > 0 then threadsPerCpuSetting.value else ThreadsPerCpu;
      l.maxWorkers == 20 + tpc * cpuCount && l.minWorkers == cpuCount && l.minIo == cpuCount
    ensures l.maxIo >= 16 && l.maxIo >= l.maxWorkers / 2
    ensures l.maxIo == 16 || l.maxIo == l.maxWorkers / 2
    ensures 0 < l.minWorkers ==> l.minWorkers < l.maxWorkers
  {
    var tpc := if threadsPerCpuSetting.Some? && threadsPerCpuSetting.value > 0 then threadsPerCpuSetting.value else ThreadsPerCpu;
    var maxW := 20 + tpc * cpuCount;
    var maxIo := if maxW / 2 < 16 then 16 else maxW / 2;
    Limits(maxW, cpuCount, maxIo, cpuCount)
  }

  /** The pool's current limits, updated by the managed setters. */
  class PoolLimits {
    var maxWorkers: int
    var minWorkers: int
    var maxIo: int
    var minIo: int
    const cpuCount: nat   // the processor count mono_thread_pool_init sized the pool for

    ghost predicate Valid()
      reads this
    {
      minWorkers <= maxWorkers
    }

    constructor (threadsPerCpuSetting: Option<int>, cpuCount: nat)
      ensures Valid()
      ensures this.cpuCount == cpuCount
      ensures Limits(maxWorkers, minWorkers, maxIo, minIo) == InitialLimits(threadsPerCpuSetting, cpuCount)
    {
      var l := InitialLimits(threadsPerCpuSetting, cpuCount);
      this.cpuCount := cpuCount;
      maxWorkers := l.maxWorkers;
      minWorkers := l.minWorkers;
      maxIo := l.maxIo;
      minIo := l.minIo;
    }

    method GetMaxThreads() returns (workers: int, io: int)
      ensures workers == maxWorkers && io == maxIo
    {
      workers := maxWorkers;
      io := maxIo;
    }

    method GetMinThreads() returns (workers: int, io: int)
      ensures workers == minWorkers && io == minIo
    {
      workers := minWorkers;
      io := minIo;
    }

    /** Set the minimums; both must be positive and within the current
        maximums, otherwise nothing changes. */
    method SetMinThreads(workers: int, io: int) returns (ok: bool)
      requires Valid()
      modifies this
      ensures Valid()
      ensures ok <==> MinThreadsAccepted(workers, io, old(maxWorkers), old(maxIo))
      ensures ok ==> minWorkers == workers && minIo == io && maxWorkers == old(maxWorkers) && maxIo == old(maxIo)
      ensures !ok ==> unchanged(this)
    {
      if workers <= 0 || workers > maxWorkers {
        return false;
      }
      if io <= 0 || io > maxIo {
        return false;
      }
      minWorkers := workers;
      minIo := io;
      return true;
    }

    /** Set the maximums; neither may be below the current minimum or the
        processor count, which `cpus` gives as mono_cpu_count() reports it
        at this call, otherwise nothing changes. */
    method SetMaxThreads(workers: int, io: int, cpus: nat) returns (ok: bool)
      requires Valid()
      modifies this
      ensures Valid()
      ensures ok <==> MaxThreadsAccepted(workers, io, old(minWorkers), old(minIo), cpus)
      ensures ok ==> maxWorkers == workers && maxIo == io && minWorkers == old(minWorkers) && minIo == old(minIo)
      ensures !ok ==> unchanged(this)
    {
      if workers < minWorkers || workers < cpus {
        return false;
      }
      if io < minIo || io < cpus {
        return false;
      }
      maxWorkers := workers;
      maxIo := io;
      return true;
    }
  }

  predicate MinThreadsAccepted(workers: int, io: int, maxWorkers: int, maxIo: int)
  {
    0 < workers <= maxWorkers && 0 < io <= maxIo
  }

  predicate MaxThreadsAccepted(workers: int, io: int, minWorkers: int, minIo: int, cpuCount: int)
  {
    workers >= minWorkers && workers >= cpuCount && io >= minIo && io >= cpuCount
  }

  /** An accepted minimum never exceeds the maximum, and an accepted maximum
      is never below the minimum or the processor count. */
  lemma AcceptedLimitsAreOrdered(workers: int, io: int, lo: int, loIo: int, hi: int, hiIo: int, cpuCount: int)
    ensures MinThreadsAccepted(workers, io, hi, hiIo) ==> 1 <= workers <= hi && 1 <= io <= hiIo
    ensures MaxThreadsAccepted(workers, io, lo, loIo, cpuCount) ==> lo <= workers && loIo <= io && cpuCount <= workers
  {
  }

  // ---------------------------------------------------------------------
  // Asynchronous socket operations.

  const AioOpFirst: int := 0
  const AioOpAccept: int := 0
  const AioOpConnect: int := 1
  const AioOpReceive: int := 2
  const AioOpReceiveFrom: int := 3
  const AioOpSend: int := 4
  const AioOpSendTo: int := 5
  const AioOpRecvJustCallback: int := 6
  const AioOpSendJustCallback: int := 7
  const AioOpReadPipe: int := 8
  const AioOpLast: int := 9

  // Poll event bits (MONO_POLLIN and MONO_POLLOUT of mono-poll.h).
  const PollIn: bv32 := 1
  const PollOut: bv32 := 4

  predicate IsReadOp(op: int)
  {
    op == AioOpAccept || op == AioOpReceive || op == AioOpRecvJustCallback ||
    op == AioOpReceiveFrom || op == AioOpReadPipe
  }

  predicate IsWriteOp(op: int)
  {
    op == AioOpSend || op == AioOpSendJustCallback || op == AioOpSendTo || op == AioOpConnect
  }

  /** The poll event an operation waits for; 0 for an unknown operation. */
  function EventFromOp(op: int): (e: bv32)
    ensures e == PollIn <==> IsReadOp(op)
    ensures e == PollOut <==> IsWriteOp(op)
    ensures e == 0 <==> !(AioOpFirst <= op < AioOpLast)
  {
    if IsReadOp(op) then PollIn
    else if IsWriteOp(op) then PollOut
    else 0
  }

  /** Whether an async call goes to the socket I/O threads: it needs a
      target and a state, must be a socket or process async call, and its
      operation must be a known one. */
  function SocketIoFilter(hasTarget: bool, hasState: bool, isSocketOrProcessCall: bool, op: int): (r: bool)
    ensures r ==> AioOpFirst <= op < AioOpLast
  {
    if !hasTarget || !hasState then false
    else if !isSocketOrProcessCall then false
    else !(op < AioOpFirst || op >= AioOpLast)
  }

  /** Every operation the filter accepts waits for exactly one poll event. */
  lemma FilteredOpsHaveEvent(hasTarget: bool, hasState: bool, isSocketOrProcessCall: bool, op: int)
    requires SocketIoFilter(hasTarget, hasState, isSocketOrProcessCall, op)
    ensures EventFromOp(op) == PollIn || EventFromOp(op) == PollOut
  {
  }

  /** The number of leading entries of a list of pending operations that
      carry a state; the walk stops at the first entry with NULL data. */
  function LiveLength(list: seq<Option<int>>): (n: nat)
    ensures n <= |list|
    ensures forall i :: 0 <= i < n ==> list[i].Some?
    ensures n < |list| ==> list[n].None?
  {
    if list == [] || list[0].None? then 0 else 1 + LiveLength(list[1..])
  }

  /** The OR of the events of the first k entries. */
  function EventsUpTo(list: seq<Option<int>>, k: nat): bv32
    requires k <= |list| && forall i :: 0 <= i < k ==> list[i].Some?
  {
    if k == 0 then 0 else EventsUpTo(list, k - 1) | EventFromOp(list[k - 1].value)
  }

  /** The events requested by a list of pending operations. */
  function EventsOf(list: seq<Option<int>>): bv32
  {
    EventsUpTo(list, LiveLength(list))
  }

  /** Walk the list OR-ing each operation's event. */
  method GetEventsFromList(list: seq<Option<int>>) returns (events: bv32)
    ensures events == EventsOf(list)
  {
    events := 0;
    var k := 0;
    while k < |list| && list[k].Some?
      invariant 0 <= k <= LiveLength(list)
      invariant events == EventsUpTo(list, k)
    {
      events := events | EventFromOp(list[k].value);
      k := k + 1;
    }
  }

  /** The events of the first k entries include POLLIN exactly when one of
      them is a read operation and POLLOUT exactly when one is a write, and
      no other bit. */
  lemma {:induction false} EventsUpToMeaning(list: seq<Option<int>>, k: nat)
    requires k <= |list| && forall i :: 0 <= i < k ==> list[i].Some?
    ensures EventsUpTo(list, k) & PollIn != 0 <==> exists i :: 0 <= i < k && IsReadOp(list[i].value)
    ensures EventsUpTo(list, k) & PollOut != 0 <==> exists i :: 0 <= i < k && IsWriteOp(list[i].value)
    ensures EventsUpTo(list, k) & !(PollIn | PollOut) == 0
  {
    if k > 0 {
      EventsUpToMeaning(list, k - 1);
      var a := EventsUpTo(list, k - 1);
      var e := EventFromOp(list[k - 1].value);
      assert e == 0 || e == PollIn || e == PollOut;
      assert (a | e) & PollIn != 0 <==> a & PollIn != 0 || e & PollIn != 0;
      assert (a | e) & PollOut != 0 <==> a & PollOut != 0 || e & PollOut != 0;
    }
  }

  /** The events of a whole list: POLLIN iff some live entry reads, POLLOUT iff
      some live entry writes. */
  lemma EventsOfMeaning(list: seq<Option<int>>)
    ensures EventsOf(list) & PollIn != 0 <==> exists i :: 0 <= i < LiveLength(list) && IsReadOp(list[i].value)
    ensures EventsOf(list) & PollOut != 0 <==> exists i :: 0 <= i < LiveLength(list) && IsWriteOp(list[i].value)
  {
    EventsUpToMeaning(list, LiveLength(list));
  }

  // ---------------------------------------------------------------------
  // EndInvoke.

  datatype FinishResult = InvalidOperationException | Finished(res: int, exc: Option<int>)

  /** The result of an asynchronous call, as seen by EndInvoke. */
  class AsyncResult {
    var endinvokeCalled: bool
    var completed: bool
    /** What the worker stored: the return value and the exception of the
        call's message. */
    var res: int
    var msgExc: Option<int>

    constructor (res: int, msgExc: Option<int>)
      ensures !endinvokeCalled && !completed && this.res == res && this.msgExc == msgExc
    {
      endinvokeCalled := false;
      completed := false;
      this.res := res;
      this.msgExc := msgExc;
    }

    /** EndInvoke: the first call marks the result and returns the call's
        value and exception; every later call fails. */
    method Finish() returns (r: FinishResult)
      modifies this
      ensures old(endinvokeCalled) ==> r == InvalidOperationException && unchanged(this)
      ensures !old(endinvokeCalled) ==>
        (r == Finished(res, msgExc) && endinvokeCalled && res == old(res) && msgExc == old(msgExc))
      ensures endinvokeCalled
    {
      if endinvokeCalled {
        return InvalidOperationException;
      }
      endinvokeCalled := true;
      // the wait for completion is outside the model
      return Finished(res, msgExc);
    }
  }

  /** A second EndInvoke on the same result is refused. */
  method FinishTwice(a: AsyncResult) returns (first: FinishResult, second: FinishResult)
    modifies a
    ensures second == InvalidOperationException
    ensures !old(a.endinvokeCalled) ==> first.Finished?
  {
    first := a.Finish();
    second := a.Finish();
  }
}
