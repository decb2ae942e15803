/** Whole runs of a client: any sequence of the driver's operations on an initialised chip, over a bus that may fail. */
module Session {
  import opened Alignment
  import opened Bytes
  import opened DriverState
  import opened ErasePlanning
  import opened Erasing
  import opened FlashDevice
  import opened Memory
  import opened NorChip
  import opened Spi
  import opened Writing

  datatype Call =
    | ChipEraseCall
    | EraseCall(addr: nat, size: nat)
    | WriteCall(addr: nat, data: seq<byte>)
    | EraseWriteCall(addr: nat, data: seq<byte>)
    | ReadCall(addr: nat, size: nat)
  {
    /** What callers owe: no wrap-around of addr + size, and in AAI mode a byte to write at an odd address. */
    predicate Legal(writeMode: nat)
    {
      match this
      case ChipEraseCall => true
      case EraseCall(a, n) => a + n < 0x1_0000_0000_0000_0000
      case ReadCall(a, n) => a + n < 0x1_0000_0000_0000_0000
      case _ =>
        && this.addr + |this.data| < 0x1_0000_0000_0000_0000
        && (AaiOnly(writeMode) ==> this.addr % 2 == 0 || this.data != [])
    }

    /** The bounds the driver checks; a write in a mode it does not implement is not checked. */
    predicate InBounds(writeMode: nat, capacity: nat)
    {
      match this
      case ChipEraseCall => true
      case EraseCall(a, n) => a + n <= capacity
      case ReadCall(a, n) => a + n <= capacity
      case WriteCall(a, d) => CanWrite(writeMode) ==> a + |d| <= capacity
      case EraseWriteCall(a, d) => a + |d| <= capacity
    }
  }

  /** What a call makes of the array. */
  ghost function Meaning(t: EraseTable, writeMode: nat, call: Call, mem: seq<byte>): (r: seq<byte>)
    requires t.WellFormed()
    ensures |r| == |mem|
  {
    match call
    case ChipEraseCall => Filled(mem, 0, |mem|)
    case EraseCall(a, n) => Filled(mem, Floor(a, t.Smallest()), SpanEnd(t, a, n))
    case WriteCall(a, d) => if CanWrite(writeMode) then Programmed(mem, a, d) else mem
    case EraseWriteCall(a, d) =>
      var lo, hi := Floor(a, t.Smallest()), SpanEnd(t, a, |d|);
      if CanWrite(writeMode) then Rewritten(mem, lo, hi, a, d) else Filled(mem, lo, hi)
    case ReadCall(_, _) => mem
  }

  /** Success is the meaning, and a read answers with the array; a failure leaves each byte old or as meant, or for
      erase-then-write changes nothing outside the touched blocks. */
  ghost predicate Outcome(t: EraseTable, writeMode: nat, call: Call, err: Err, answer: seq<byte>,
                          was: seq<byte>, now: seq<byte>)
    requires t.WellFormed()
  {
    if err.Success? then
      && now == Meaning(t, writeMode, call, was)
      && (call.ReadCall? ==> call.addr + call.size <= |was| && answer == was[call.addr..call.addr + call.size])
    else match call
      case EraseWriteCall(a, d) => SameOutside(was, now, Floor(a, t.Smallest()), SpanEnd(t, a, |d|))
      case _ => Between(was, now, Meaning(t, writeMode, call, was))
  }

  /** One call. Only an in-bounds call that failed over a faulty bus may leave the chip inattentive. */
  method Perform(flash: Flash, call: Call) returns (err: Err, data: seq<byte>)
    requires Described(flash) && flash.initOk && Idle(flash.spi.chip) && call.Legal(flash.writeMode)
    modifies flash.spi
    ensures flash.spi.depth == old(flash.spi.depth) && Described(flash)
    ensures flash.spi.chip.refused == old(flash.spi.chip.refused)
    ensures Outcome(TableOf(flash), flash.writeMode, call, err, data, old(flash.spi.chip.mem), flash.spi.chip.mem)
    ensures err.Success? ==> call.InBounds(flash.writeMode, flash.capacity)
    ensures err.Success? || !call.InBounds(flash.writeMode, flash.capacity) ==> Idle(flash.spi.chip)
    ensures !AaiOnly(flash.writeMode) ==> !flash.spi.chip.reg.aai
    ensures flash.spi.faults >= old(flash.spi.faults)
    ensures flash.spi.faults == old(flash.spi.faults) && Patient(flash) ==>
      (err.Success? <==> call.InBounds(flash.writeMode, flash.capacity)) && Idle(flash.spi.chip)
  {
    hide Filled, Programmed, Rewritten, SpanEnd, Bit, Replay, EraseOps;
    ghost var n, mem := 0, flash.spi.chip.mem;
    data := [];
    match call {
      case ChipEraseCall =>
        err, n := ChipErase(flash);
        ChipErased(mem, flash.capacity, n);
      case EraseCall(a, size) => err, n := EraseRange(flash, a, size);
      case WriteCall(a, d) => err, n := Write(flash, a, d);
      case EraseWriteCall(a, d) => err := EraseWrite(flash, a, d);
      case ReadCall(a, size) => err, data := Read(flash, a, size);
    }
  }

  lemma ChipErased(mem: seq<byte>, size: nat, n: nat)
    requires n <= 1 && |mem| == size
    ensures Replay(mem, [Erase(0, size)][..n]) == if n == 1 then Filled(mem, 0, size) else mem
  {
    var ops := [Erase(0, size)];
    if n == 1 {
      assert ops[..n] == ops && Replay(mem, ops) == Replay(Effect(mem, ops[0]), ops[1..]);
    }
  }

  /** What a caller can do after a failure: wait with an empty read, and on a chip written word by word end the AAI
      sequence it may still be in with an empty write. When both report success the chip is idle again; without a fault
      they do, if the operation in progress ends within the allowed polls. */
  method Recover(flash: Flash) returns (err: Err)
    requires Described(flash) && flash.initOk
    requires !AaiOnly(flash.writeMode) ==> !flash.spi.chip.reg.aai
    modifies flash.spi
    ensures flash.spi.depth == old(flash.spi.depth) && Described(flash)
    ensures flash.spi.chip.refused == old(flash.spi.chip.refused) && flash.spi.chip.mem == old(flash.spi.chip.mem)
    ensures err.Success? ==> Idle(flash.spi.chip)
    ensures !AaiOnly(flash.writeMode) ==> !flash.spi.chip.reg.aai
    ensures flash.spi.faults >= old(flash.spi.faults)
    ensures flash.spi.faults == old(flash.spi.faults) && Patient(flash) ==>
      (err.Success? <==> old(flash.spi.chip.reg.busy) <= flash.retryTimes)
  {
    hide Bit, Programmed;
    var nothing; ghost var written;
    err, nothing := Read(flash, 0, 0);
    if err.Success? && AaiOnly(flash.writeMode) {
      ghost var mem := flash.spi.chip.mem;
      err, written := Write(flash, 0, []);
      NothingProgrammed(mem);
    }
  }

  lemma NothingProgrammed(mem: seq<byte>)
    ensures Programmed(mem, 0, []) == mem
  {
  }

  /** A client: it makes the calls in turn. After an in-bounds call that failed it recovers before it goes on, and gives
      up when that fails too. */
  method RunSession(flash: Flash, calls: seq<Call>)
    returns (errs: seq<Err>, answers: seq<seq<byte>>, ghost mems: seq<seq<byte>>)
    requires Described(flash) && flash.initOk && Idle(flash.spi.chip)
    requires forall i :: 0 <= i < |calls| ==> calls[i].Legal(flash.writeMode)
    modifies flash.spi
    ensures flash.spi.depth == old(flash.spi.depth) && Described(flash)
    ensures |errs| == |answers| <= |calls| && |mems| == |errs| + 1
    // however the bus behaves: no command of the whole run was refused, and every call did what it means or, if it
    // reported an error, stayed within it
    ensures flash.spi.chip.refused == old(flash.spi.chip.refused)
    ensures mems[0] == old(flash.spi.chip.mem) && mems[|errs|] == flash.spi.chip.mem
    ensures Refines(TableOf(flash), flash.writeMode, calls, errs, answers, mems)
    // with the bus at its best all calls are made, and exactly those within bounds succeed
    ensures flash.spi.faults >= old(flash.spi.faults)
    ensures flash.spi.faults == old(flash.spi.faults) && Patient(flash) ==>
      && |errs| == |calls|
      && forall i :: 0 <= i < |calls| ==> (errs[i].Success? <==> calls[i].InBounds(flash.writeMode, flash.capacity))
  {
    hide Outcome, Call.InBounds, Call.Legal, Bit;
    errs, answers, mems := [], [], [flash.spi.chip.mem];
    var i := 0;
    while i < |calls|
      invariant i == |errs| == |answers| <= |calls| && |mems| == i + 1
      invariant Described(flash) && Idle(flash.spi.chip) && flash.spi.depth == old(flash.spi.depth)
      invariant flash.spi.chip.refused == old(flash.spi.chip.refused)
      invariant mems[0] == old(flash.spi.chip.mem) && mems[i] == flash.spi.chip.mem
      invariant Refines(TableOf(flash), flash.writeMode, calls, errs, answers, mems)
      invariant flash.spi.faults >= old(flash.spi.faults)
      invariant flash.spi.faults == old(flash.spi.faults) && Patient(flash) ==>
        forall j :: 0 <= j < i ==> (errs[j].Success? <==> calls[j].InBounds(flash.writeMode, flash.capacity))
    {
      var err, data := Perform(flash, calls[i]);
      errs, answers, mems := errs + [err], answers + [data], mems + [flash.spi.chip.mem];
      if !err.Success? && calls[i].InBounds(flash.writeMode, flash.capacity) {
        var recovered := Recover(flash);
        if !recovered.Success? {
          break;
        }
      }
      i := i + 1;
    }
  }

  /** The run, call by call, is a run of the array alone. */
  ghost predicate Refines(t: EraseTable, writeMode: nat, calls: seq<Call>, errs: seq<Err>, answers: seq<seq<byte>>,
                          mems: seq<seq<byte>>)
    requires t.WellFormed() && |errs| == |answers| <= |calls| && |mems| == |errs| + 1
  {
    forall i :: 0 <= i < |errs| ==> Outcome(t, writeMode, calls[i], errs[i], answers[i], mems[i], mems[i + 1])
  }
}
