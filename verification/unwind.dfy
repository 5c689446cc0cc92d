// Windows x64 unwind information built by the JIT for each method
// (exceptions-amd64.c, the MonoUnwindInfo builder).
//
// A MonoUnwindInfo is a RUNTIME_FUNCTION (three 32-bit words) followed by an
// UNWIND_INFO header (Version:3, Flags:5, SizeOfProlog, CountOfCodes,
// FrameRegister:4, FrameOffset:4) and a fixed array of 22 UNWIND_CODE slots.
// Each slot is a 16-bit word: CodeOffset in the low byte, UnwindOp in the
// next four bits and OpInfo in the top four; the same word read whole is
// FrameOffset.  The builder fills the slots from the end of the array towards
// the front as prolog instructions are emitted.

module Win64Unwind {

  const MaxUnwindCodes: int := 22

  const UwopPushNonvol: int := 0
  const UwopAllocLarge: int := 1
  const UwopAllocSmall: int := 2
  const UwopSetFpreg: int := 3

  /** Byte sizes of the C structures. */
  const SizeOfUnwindCode: int := 2
  const SizeOfRuntimeFunction: int := 12
  const SizeOfMonoUnwindInfo: int := 12 + 4 + 2 * 22

  const TwoTo32: int := 0x1_0000_0000
  const TwoTo64: int := 0x1_0000_0000_0000_0000

  // ---------------------------------------------------------------------
  // Slot packing.

  function CodeOffsetOf(w: int): int { w % 256 }
  function UnwindOpOf(w: int): int { (w / 256) % 16 }
  function OpInfoOf(w: int): int { (w / 4096) % 16 }

  /** A slot whose three bit fields are all assigned; each value is truncated
      to its field width as the C bit fields do. */
  function Code(offset: int, op: int, info: int): (w: int)
    ensures 0 <= w < 0x10000
    ensures CodeOffsetOf(w) == offset % 256
    ensures UnwindOpOf(w) == op % 16
    ensures OpInfoOf(w) == info % 16
  {
    offset % 256 + 256 * (op % 16) + 4096 * (info % 16)
  }

  /** A slot is determined by its three fields. */
  lemma CodeFieldsDetermineSlot(w: int)
    requires 0 <= w < 0x10000
    ensures Code(CodeOffsetOf(w), UnwindOpOf(w), OpInfoOf(w)) == w
  {
    var lo, hi := w % 256, w / 256;
    var h0, h1 := hi % 16, hi / 16;
    assert w == lo + 256 * hi;
    assert hi == h0 + 16 * h1;
    assert w == (lo + 256 * h0) + 4096 * h1;
    assert w / 4096 == h1 && h1 < 16;
    assert CodeOffsetOf(w) == lo && UnwindOpOf(w) == h0 && OpInfoOf(w) == h1;
    assert Code(lo, h0, h1) == lo + 256 * h0 + 4096 * h1;
  }

  // ---------------------------------------------------------------------
  // Prolog operations and where the builder puts them.

  /** A recorded prolog operation; `offset` is the 8-bit code offset of the
      instruction that follows it. */
  datatype Op =
    | PushNonvol(offset: int, reg: int)
    | SetFpreg(offset: int, reg: int)
    | AllocStack(offset: int, size: int)

  /** How many slots an allocation of `size` bytes takes. */
  function AllocCodesNeeded(size: int): (n: int)
    ensures 1 <= n <= 3
    ensures n == 1 <==> size <= 0x80
    ensures n == 3 <==> size > 0x7FFF8
  {
    if size <= 0x80 then 1 else if size <= 0x7FFF8 then 2 else 3
  }

  function SlotsNeeded(op: Op): int
  {
    match op
    case PushNonvol(_, _) => 1
    case SetFpreg(_, _) => 2
    case AllocStack(_, size) => AllocCodesNeeded(size)
  }

  /** The slots the builder writes for one operation, in increasing index
      order. */
  function Slots(op: Op): (s: seq<int>)
    ensures |s| == SlotsNeeded(op)
  {
    match op
    case PushNonvol(offset, reg) => [Code(offset, UwopPushNonvol, reg)]
    case SetFpreg(offset, reg) => [0, Code(offset, UwopSetFpreg, reg)]
    case AllocStack(offset, size) =>
      if size <= 0x80 then [Code(offset, UwopAllocSmall, (size - 8) / 8)]
      else if size <= 0x7FFF8 then [size / 8, Code(offset, UwopAllocLarge, 0)]
      else [size % 0x10000, size / 0x10000, Code(offset, UwopAllocLarge, 1)]
  }

  /** The used tail of the slot array after `ops` were added in order: the
      most recent operation comes first. */
  function Layout(ops: seq<Op>): seq<int>
  {
    if ops == [] then [] else Slots(ops[|ops| - 1]) + Layout(ops[..|ops| - 1])
  }

  lemma LayoutAppend(ops: seq<Op>, op: Op)
    ensures Layout(ops + [op]) == Slots(op) + Layout(ops)
  {
    assert (ops + [op])[..|ops|] == ops;
  }

  /** The newest operation's slots come first. */
  lemma LayoutFront(ops: seq<Op>, op: Op, i: int)
    requires 0 <= i < SlotsNeeded(op)
    ensures i < |Layout(ops + [op])| && Layout(ops + [op])[i] == Slots(op)[i]
  {
    LayoutAppend(ops, op);
  }

  /** The offset of the last operation, or 0 before any. */
  function LastOffset(ops: seq<Op>): int
  {
    if ops == [] then 0 else ops[|ops| - 1].offset
  }

  /** Each operation was added at a code offset below 256 and beyond the
      prolog size recorded before it (which starts at 0). */
  ghost predicate InPrologOrder(ops: seq<Op>)
    decreases |ops|
  {
    ops == [] ||
    (var n := |ops| - 1;
     InPrologOrder(ops[..n]) && LastOffset(ops[..n]) < ops[n].offset < 256)
  }

  /** Code offsets strictly increase along the prolog and stay within 1..255. */
  lemma {:induction false} PrologOffsetsIncrease(ops: seq<Op>)
    requires InPrologOrder(ops)
    ensures forall i :: 0 <= i < |ops| ==> 0 < ops[i].offset < 256
    ensures forall i, j :: 0 <= i < j < |ops| ==> ops[i].offset < ops[j].offset
    decreases |ops|
  {
    if ops != [] {
      var n := |ops| - 1;
      var front := ops[..n];
      PrologOffsetsIncrease(front);
      assert forall i :: 0 <= i < n ==> ops[i] == front[i];
      if n > 0 {
        assert front[n - 1].offset < ops[n].offset;
      }
    }
  }

  datatype Status = Ok | TooManyCodes | WrongOrder | AllocTooSmall

  class MonoUnwindInfo {
    // RUNTIME_FUNCTION
    var beginAddress: int
    var endAddress: int
    var unwindData: int
    // UNWIND_INFO header
    var version: int
    var flags: int
    var sizeOfProlog: int
    var countOfCodes: int
    var frameRegister: int
    var frameOffset: int
    const codes: array<int>
    /** The operations recorded so far, in prolog order. */
    ghost var ops: seq<Op>

    ghost predicate Valid()
      reads this`version, this`flags, this`frameOffset, this`countOfCodes, this`sizeOfProlog
      reads this`frameRegister, this`ops, codes
    {
      codes.Length == MaxUnwindCodes &&
      version == 1 && flags == 0 && frameOffset == 0 &&
      0 <= countOfCodes <= MaxUnwindCodes &&
      0 <= sizeOfProlog < 256 && 0 <= frameRegister < 16 &&
      |Layout(ops)| == countOfCodes &&
      codes[MaxUnwindCodes - countOfCodes..] == Layout(ops) &&
      (forall i :: 0 <= i < MaxUnwindCodes - countOfCodes ==> codes[i] == 0) &&
      InPrologOrder(ops) && sizeOfProlog == LastOffset(ops)
    }

    /** A zeroed record with Version 1. */
    constructor ()
      ensures Valid() && ops == [] && countOfCodes == 0 && sizeOfProlog == 0
      ensures beginAddress == 0 && endAddress == 0 && unwindData == 0
      ensures fresh(codes)
    {
      beginAddress, endAddress, unwindData := 0, 0, 0;
      version, flags := 1, 0;
      sizeOfProlog, countOfCodes := 0, 0;
      frameRegister, frameOffset := 0, 0;
      codes := new int[MaxUnwindCodes](_ => 0);
      ops := [];
    }

    /** Write the slots of `op` just in front of the used tail and count them;
        the prolog size is then checked and updated by the caller. */
    method PlaceSlots(op: Op)
      requires Valid()
      requires countOfCodes + SlotsNeeded(op) <= MaxUnwindCodes
      modifies this`countOfCodes, codes
      ensures countOfCodes == old(countOfCodes) + SlotsNeeded(op)
      ensures codes[MaxUnwindCodes - countOfCodes..] == Layout(ops + [op])
      ensures forall i :: 0 <= i < MaxUnwindCodes - countOfCodes ==> codes[i] == 0
      ensures |Layout(ops + [op])| == countOfCodes
    {
      var slots := Slots(op);
      var n := |slots|;
      countOfCodes := countOfCodes + n;
      var codeindex := MaxUnwindCodes - countOfCodes;
      WriteSlots(codes, codeindex, slots);
      LayoutAppend(ops, op);
    }

    /** The slots of `op` are in place and its offset follows the prolog so
        far: the prolog size becomes that offset and `op` is recorded. */
    method CommitOp(op: Op)
      requires codes.Length == MaxUnwindCodes && version == 1 && flags == 0 && frameOffset == 0
      requires 0 <= countOfCodes <= MaxUnwindCodes && 0 <= frameRegister < 16
      requires |Layout(ops + [op])| == countOfCodes && codes[MaxUnwindCodes - countOfCodes..] == Layout(ops + [op])
      requires forall i :: 0 <= i < MaxUnwindCodes - countOfCodes ==> codes[i] == 0
      requires InPrologOrder(ops) && 0 <= sizeOfProlog == LastOffset(ops) < op.offset < 256
      modifies this`sizeOfProlog, this`ops
      ensures Valid() && ops == old(ops) + [op] && sizeOfProlog == op.offset
    {
      assert (ops + [op])[..|ops|] == ops;
      sizeOfProlog := op.offset;
      ops := ops + [op];
    }

    /** Record a push of a non-volatile register. */
    method AddPushNonvol(codeBegin: int, nextIp: int, reg: int) returns (status: Status)
      requires Valid()
      modifies this, codes
      ensures old(countOfCodes) >= MaxUnwindCodes ==> status == TooManyCodes && unchanged(this) && unchanged(codes)
      ensures status == Ok <==>
        old(countOfCodes) < MaxUnwindCodes && old(sizeOfProlog) < (nextIp - codeBegin) % 256
      ensures status == Ok ==>
        Valid() && ops == old(ops) + [PushNonvol((nextIp - codeBegin) % 256, reg)] &&
        countOfCodes == old(countOfCodes) + 1 && sizeOfProlog == (nextIp - codeBegin) % 256 &&
        codes[MaxUnwindCodes - countOfCodes] == Code(nextIp - codeBegin, UwopPushNonvol, reg)
      ensures status == WrongOrder ==> countOfCodes == old(countOfCodes) + 1 && sizeOfProlog == old(sizeOfProlog)
    {
      if countOfCodes >= MaxUnwindCodes {
        return TooManyCodes;
      }
      var op := PushNonvol((nextIp - codeBegin) % 256, reg);
      PlaceSlots(op);
      assert codes[MaxUnwindCodes - countOfCodes] == Code(nextIp - codeBegin, UwopPushNonvol, reg) by {
        LayoutFront(ops, op, 0);
      }
      var offset := (nextIp - codeBegin) % 256;
      if sizeOfProlog >= offset {
        return WrongOrder;
      }
      CommitOp(op);
      return Ok;
    }

    /** Record the establishment of the frame pointer; this takes two slots,
        a zero FrameOffset slot followed by the UWOP_SET_FPREG slot. */
    method AddSetFpreg(codeBegin: int, nextIp: int, reg: int) returns (status: Status)
      requires Valid()
      modifies this, codes
      ensures old(countOfCodes) + 1 >= MaxUnwindCodes ==> status == TooManyCodes && unchanged(this) && unchanged(codes)
      ensures status == Ok <==>
        old(countOfCodes) + 1 < MaxUnwindCodes && old(sizeOfProlog) < (nextIp - codeBegin) % 256
      ensures status == Ok ==>
        Valid() && ops == old(ops) + [SetFpreg((nextIp - codeBegin) % 256, reg)] &&
        countOfCodes == old(countOfCodes) + 2 && frameRegister == reg % 16 &&
        codes[MaxUnwindCodes - countOfCodes] == 0 &&
        UnwindOpOf(codes[MaxUnwindCodes - countOfCodes + 1]) == UwopSetFpreg
      ensures status == WrongOrder ==>
        countOfCodes == old(countOfCodes) + 2 && frameRegister == reg % 16 && sizeOfProlog == old(sizeOfProlog)
    {
      if countOfCodes + 1 >= MaxUnwindCodes {
        return TooManyCodes;
      }
      var op := SetFpreg((nextIp - codeBegin) % 256, reg);
      PlaceSlots(op);
      assert codes[MaxUnwindCodes - countOfCodes] == 0 &&
             UnwindOpOf(codes[MaxUnwindCodes - countOfCodes + 1]) == UwopSetFpreg by {
        LayoutFront(ops, op, 0);
        LayoutFront(ops, op, 1);
      }
      frameRegister := reg % 16;
      var offset := (nextIp - codeBegin) % 256;
      if sizeOfProlog >= offset {
        return WrongOrder;
      }
      CommitOp(op);
      return Ok;
    }

    /** Record a stack allocation of `size` bytes (a 32-bit unsigned value):
        one UWOP_ALLOC_SMALL slot up to 0x80 bytes, otherwise UWOP_ALLOC_LARGE
        with the size over one slot (scaled by 8) or two slots (unscaled). */
    method AddAllocStack(codeBegin: int, nextIp: int, size: int) returns (status: Status)
      requires Valid()
      requires 0 <= size < TwoTo32
      modifies this, codes
      ensures size < 8 ==> status == AllocTooSmall && unchanged(this) && unchanged(codes)
      ensures size >= 8 && old(countOfCodes) + AllocCodesNeeded(size) > MaxUnwindCodes ==>
        status == TooManyCodes && unchanged(this) && unchanged(codes)
      ensures status == Ok <==>
        size >= 8 && old(countOfCodes) + AllocCodesNeeded(size) <= MaxUnwindCodes &&
        old(sizeOfProlog) < (nextIp - codeBegin) % 256
      ensures status == Ok ==>
        Valid() && ops == old(ops) + [AllocStack((nextIp - codeBegin) % 256, size)] &&
        countOfCodes == old(countOfCodes) + AllocCodesNeeded(size)
      ensures status == WrongOrder ==>
        countOfCodes == old(countOfCodes) + AllocCodesNeeded(size) && sizeOfProlog == old(sizeOfProlog)
    {
      if size < 8 {
        return AllocTooSmall;
      }
      var codesneeded := AllocCodesNeeded(size);
      if countOfCodes + codesneeded > MaxUnwindCodes {
        return TooManyCodes;
      }
      var op := AllocStack((nextIp - codeBegin) % 256, size);
      PlaceSlots(op);
      var offset := (nextIp - codeBegin) % 256;
      if sizeOfProlog >= offset {
        return WrongOrder;
      }
      CommitOp(op);
      return Ok;
    }
  }

  /** Store `slots` at a[at..at+|slots|) and leave the other slots alone. */
  method WriteSlots(a: array<int>, at: int, slots: seq<int>)
    requires 0 <= at && at + |slots| <= a.Length
    modifies a
    ensures a[at..at + |slots|] == slots
    ensures a[at..] == slots + old(a[at + |slots|..])
    ensures forall i :: 0 <= i < a.Length && !(at <= i < at + |slots|) ==> a[i] == old(a[i])
  {
    for k := 0 to |slots|
      invariant forall i :: 0 <= i < k ==> a[at + i] == slots[i]
      invariant forall i :: 0 <= i < a.Length && !(at <= i < at + k) ==> a[i] == old(a[i])
    {
      a[at + k] := slots[k];
    }
    assert a[at..at + |slots|] == slots;
    assert a[at + |slots|..] == old(a[at + |slots|..]);
    assert a[at..] == a[at..at + |slots|] + a[at + |slots|..];
  }

  /** The record behind `*monoui`, created zeroed when `*monoui` is NULL. */
  method Obtain(ui: MonoUnwindInfo?) returns (r: MonoUnwindInfo)
    requires ui != null ==> ui.Valid()
    ensures ui != null ==> r == ui
    ensures ui == null ==> fresh(r) && fresh(r.codes) && r.Valid() && r.ops == []
    ensures r.Valid()
  {
    if ui == null {
      r := new MonoUnwindInfo();
    } else {
      r := ui;
    }
  }

  /** Bytes the JIT reserves after a method's code for its unwind record: 8
      bytes of alignment slack plus the record without its unused slots. */
  function GetSize(ui: MonoUnwindInfo?): (n: int)
    reads ui
    ensures ui == null ==> n == 0
    ensures ui != null ==> n == 8 + SizeOfRuntimeFunction + 4 + SizeOfUnwindCode * ui.countOfCodes
  {
    if ui == null then 0
    else (8 + SizeOfMonoUnwindInfo) - SizeOfUnwindCode * (MaxUnwindCodes - ui.countOfCodes)
  }

  /** ALIGN_TO(x, 8): the least multiple of 8 not below x. */
  function AlignTo8(x: int): (r: int)
    ensures r % 8 == 0 && x <= r < x + 8
  {
    x + (8 - x % 8) % 8
  }

  /** Everything the installation writes after the code, from the code's end
      up to the last used slot, fits in the space GetSize reserved. */
  lemma InstalledRecordFits(ui: MonoUnwindInfo, code: int, codeSize: int)
    requires 0 <= code && 0 <= codeSize && 0 <= ui.countOfCodes
    ensures var target := AlignTo8(code + codeSize);
      target + SizeOfRuntimeFunction + 4 + SizeOfUnwindCode * ui.countOfCodes <= code + codeSize + GetSize(ui)
  {
  }

  /** Copy a finished record behind the method's code: the 16 header bytes
      (RUNTIME_FUNCTION and the UNWIND_INFO header) and the used slots moved
      to the front of the target's slot array.  The source record is freed
      and `*monoui` cleared, which is the NULL result. */
  method InstallUnwindInfo(ui: MonoUnwindInfo?, code: int, codeSize: int, target: MonoUnwindInfo)
    returns (cleared: MonoUnwindInfo?)
    requires ui != null ==> ui.Valid()
    requires target.codes.Length == MaxUnwindCodes
    requires ui != null ==> ui != target && ui.codes != target.codes
    modifies ui, target, target.codes
    ensures cleared == null
    ensures ui == null ==> unchanged(target) && unchanged(target.codes)
    ensures ui != null ==> ui.Valid() && ui.ops == old(ui.ops) && ui.countOfCodes == old(ui.countOfCodes)
    ensures ui != null ==>
      ui.endAddress == codeSize % TwoTo32 &&
      ui.unwindData == (AlignTo8(code + codeSize) + SizeOfRuntimeFunction - code) % TwoTo32
    ensures ui != null ==>
      target.beginAddress == ui.beginAddress && target.endAddress == ui.endAddress &&
      target.unwindData == ui.unwindData && target.version == ui.version && target.flags == ui.flags &&
      target.sizeOfProlog == ui.sizeOfProlog && target.countOfCodes == ui.countOfCodes &&
      target.frameRegister == ui.frameRegister && target.frameOffset == ui.frameOffset
    ensures ui != null ==>
      target.codes[..ui.countOfCodes] == Layout(ui.ops) &&
      target.codes[ui.countOfCodes..] == old(target.codes[ui.countOfCodes..])
  {
    if ui == null {
      return null;
    }
    ui.endAddress := codeSize % TwoTo32;
    ui.unwindData := (AlignTo8(code + codeSize) + SizeOfRuntimeFunction - code) % TwoTo32;
    CopyRecord(ui, target);
    return null;
  }

  /** The memcpy of the header and of the used slots into the target record. */
  method CopyRecord(ui: MonoUnwindInfo, target: MonoUnwindInfo)
    requires ui.Valid() && target.codes.Length == MaxUnwindCodes
    requires ui != target && ui.codes != target.codes
    modifies target, target.codes
    ensures target.beginAddress == ui.beginAddress && target.endAddress == ui.endAddress &&
      target.unwindData == ui.unwindData && target.version == ui.version && target.flags == ui.flags &&
      target.sizeOfProlog == ui.sizeOfProlog && target.countOfCodes == ui.countOfCodes &&
      target.frameRegister == ui.frameRegister && target.frameOffset == ui.frameOffset
    ensures target.codes[..ui.countOfCodes] == Layout(ui.ops)
    ensures target.codes[ui.countOfCodes..] == old(target.codes[ui.countOfCodes..])
  {
    target.beginAddress, target.endAddress, target.unwindData := ui.beginAddress, ui.endAddress, ui.unwindData;
    target.version, target.flags := ui.version, ui.flags;
    target.sizeOfProlog, target.countOfCodes := ui.sizeOfProlog, ui.countOfCodes;
    target.frameRegister, target.frameOffset := ui.frameRegister, ui.frameOffset;
    var codecount := ui.countOfCodes;
    if codecount > 0 {
      WriteSlots(target.codes, 0, ui.codes[MaxUnwindCodes - codecount..]);
    }
    assert target.codes[codecount..] == old(target.codes[codecount..]);
  }

  // ---------------------------------------------------------------------
  // Resuming from a signal handler.

  class Context {
    var sp: int
    var ip: int

    constructor (sp: int, ip: int)
      ensures this.sp == sp && this.ip == ip
    {
      this.sp := sp;
      this.ip := ip;
    }

    /** Continue at `func` with the stack misaligned by 8 as right after a
        call: a 16-byte aligned SP is lowered by 8 (in 64-bit arithmetic). */
    method SetupResumeSighandlerCtx(func: int)
      requires 0 <= sp < TwoTo64
      modifies this
      ensures ip == func
      ensures old(sp) % 16 == 0 ==> sp == (old(sp) - 8) % TwoTo64
      ensures old(sp) % 16 != 0 ==> sp == old(sp)
      ensures 0 <= sp < TwoTo64 && sp % 16 != 0
    {
      if sp % 16 == 0 {
        sp := (sp - 8) % TwoTo64;
      }
      ip := func;
    }
  }
}
