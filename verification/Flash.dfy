/** `sfud_flash` and the primitives every driver operation is built from. */
module FlashDevice {
  import opened Bytes
  import opened NorChip
  import opened Spi

  const WM_PAGE_256B: nat := 0   // bit numbers of `enum sfud_write_mode`
  const WM_BYTE: nat := 1
  const WM_AAI: nat := 2
  const WM_DUAL_BUFFER: nat := 3

  const ERASE_TYPES: nat := 4

  datatype Eraser = Eraser(size: nat, cmd: byte)

  /** `sfud_sfdp`: what the driver keeps of the chip's own parameter table. */
  class SfdpInfo {
    var available: bool
    var majorRev: byte
    var minorRev: byte
    var writeGran: nat
    var erase4k: bool
    var erase4kCmd: byte
    var addr3Byte: bool
    var addr4Byte: bool
    var capacity: nat
    const eraser: array<Eraser>

    /** Static storage: everything zero. */
    constructor ()
      ensures !available && capacity == 0 && fresh(eraser)
      ensures eraser[..] == seq(ERASE_TYPES, _ => Eraser(0, 0))
    {
      available, majorRev, minorRev, writeGran, erase4k, erase4kCmd := false, 0, 0, 0, false, 0;
      addr3Byte, addr4Byte, capacity := false, false, 0;
      eraser := new Eraser[ERASE_TYPES](_ => Eraser(0, 0));
    }
  }

  /** `sfud_flash`. */
  class Flash {
    const spi: SpiBus
    const sfdp: SfdpInfo
    const retryTimes: nat
    // chip
    var mfId: byte
    var typeId: byte
    var capacityId: byte
    var capacity: nat
    var writeMode: nat
    var eraseGran: nat
    var eraseGranCmd: byte
    var initOk: bool
    var addrIn4Byte: bool

    constructor (spi: SpiBus, sfdp: SfdpInfo, retryTimes: nat)
      ensures this.spi == spi && this.sfdp == sfdp && this.retryTimes == retryTimes
      ensures !initOk && !addrIn4Byte && capacity == writeMode == eraseGran == 0 && eraseGranCmd == 0
    {
      this.spi, this.sfdp, this.retryTimes := spi, sfdp, retryTimes;
      mfId, typeId, capacityId, capacity, writeMode, eraseGran, eraseGranCmd := 0, 0, 0, 0, 0, 0, 0;
      initOk, addrIn4Byte := false, false;
    }
  }

  /** The driver polls often enough for every operation the bus calls fault-free. */
  ghost predicate Patient(flash: Flash) { flash.spi.patience <= flash.retryTimes }

  /** WEL is off, unless the chip is busy or inside an AAI sequence. */
  predicate WriteDisabled(c: Chip) { c.reg.busy == 0 && !c.reg.aai ==> !c.reg.wel }

  /** The status register's BUSY and WEL bits. */
  predicate StatusBusy(status: byte) { status % 2 == 1 }
  predicate StatusWel(status: byte) { status / 2 % 2 == 1 }

  /** What one poll brought back: nothing on a transport error, else the BUSY bit. */
  datatype Answer = Lost | Answered(busy: bool)

  /** d is c after transactions that touch no memory: latches may change, an operation may progress. */
  ghost predicate Quiet(c: Chip, d: Chip)
  {
    && d == c.(reg := c.reg.(wel := d.reg.wel, busy := d.reg.busy, aai := d.reg.aai, srUnlock := d.reg.srUnlock))
    && d.reg.busy <= c.reg.busy
    && (d.reg.aai ==> c.reg.aai)
  }

  method ReadStatus(flash: Flash) returns (err: Err, status: byte, ghost heard: nat)
    requires flash.spi.chip.WellFormed()
    modifies flash.spi`chip, flash.spi`faults, flash.spi`bare, flash.spi`intact
    ensures flash.spi.Guarded() ==> flash.spi.bare == old(flash.spi.bare)
    ensures heard <= 1 && flash.spi.faults >= old(flash.spi.faults)
    ensures flash.spi.faults == old(flash.spi.faults) ==> err.Success? && flash.spi.chip.reg.busy <= flash.spi.patience
    ensures flash.spi.chip == old(flash.spi.chip.(reg := flash.spi.chip.reg.Polled(heard)))
    ensures err.Success? ==> heard == 1 && StatusBusy(status) == old(flash.spi.chip.reg.busy > 0)
    ensures err.Success? ==> StatusWel(status) == old(flash.spi.chip.reg.wel)
  {
    var read; ghost var dur;
    var cmd := [READ_STATUS_REGISTER];
    err, read, heard, dur := flash.spi.Transfer(cmd, 1);
    status := read[0];
    assert cmd[..heard] == if heard == 0 then [] else cmd;
    if err.Success? {
      heard := 1;
    }
  }

  lemma PolledMore(r: Registers, n: nat, heard: nat)
    requires heard <= 1
    ensures r.Polled(n).Polled(heard) == r.Polled(n + heard)
    ensures r.Polled(0) == r
  {
    if heard == 1 && n < r.busy {
      assert r.Polled(n).busy == r.busy - n;
    } else if heard == 1 {
      assert r.Polled(n).busy == 0;
    }
  }

  /** A poll that finds the chip idle leaves it settled. */
  lemma PolledBusy(r: Registers, n: nat)
    ensures r.Polled(n).busy > 0 <==> n < r.busy
    ensures r.Polled(n).protect == r.protect
    ensures n >= r.busy ==> r.Polled(n + 1) == r.Settled()
  {
  }

  lemma PolledQuiet(c: Chip, n: nat)
    ensures Quiet(c, c.(reg := c.reg.Polled(n)))
  {
  }

  /** Poll until the chip answers that it is idle, at most retryTimes + 1 times. */
  method WaitBusy(flash: Flash) returns (err: Err, ghost answers: seq<Answer>)
    requires flash.spi.chip.WellFormed()
    modifies flash.spi`chip, flash.spi`faults, flash.spi`bare, flash.spi`intact
    ensures flash.spi.Guarded() ==> flash.spi.bare == old(flash.spi.bare)
    // SUCCESS exactly when a poll read not-busy, which is then the last; TIMEOUT after all polls otherwise
    ensures 1 <= |answers| <= flash.retryTimes + 1
    ensures Answered(false) !in answers[..|answers| - 1]
    ensures err.Success? <==> answers[|answers| - 1] == Answered(false)
    ensures err.Success? || (err.Timeout? && |answers| == flash.retryTimes + 1)
    // without transport errors it succeeds exactly when the operation is over within the allowed polls
    ensures Lost !in answers ==> (err.Success? <==> old(flash.spi.chip.reg.busy) <= flash.retryTimes)
    ensures err.Success? ==> flash.spi.chip == old(flash.spi.chip.(reg := flash.spi.chip.reg.Settled()))
    ensures Quiet(old(flash.spi.chip), flash.spi.chip) && flash.spi.chip.WellFormed()
    ensures flash.spi.faults >= old(flash.spi.faults)
    ensures flash.spi.faults == old(flash.spi.faults) ==>
      Lost !in answers && flash.spi.chip.reg.busy <= flash.spi.patience
  {
    hide Registers.Polled, Registers.Settled;
    ghost var start := flash.spi.chip;
    PolledMore(start.reg, 0, 0);
    ghost var n: nat, lossless := 0, true;
    var retry := flash.retryTimes;
    answers := [];
    while true
      invariant flash.spi.chip == start.(reg := start.reg.Polled(n))
      invariant 0 <= retry <= flash.retryTimes && |answers| == flash.retryTimes - retry
      invariant Answered(false) !in answers && lossless == (Lost !in answers)
      invariant lossless ==> n == |answers| && n <= start.reg.busy
      invariant flash.spi.faults >= old(flash.spi.faults)
      invariant flash.spi.Guarded() ==> flash.spi.bare == old(flash.spi.bare)
      invariant flash.spi.faults == old(flash.spi.faults) ==> lossless
      decreases retry
    {
      PolledBusy(start.reg, n);
      var status; ghost var heard;
      err, status, heard := ReadStatus(flash);
      answers := answers + [if err.Success? then Answered(StatusBusy(status)) else Lost];
      PolledMore(start.reg, n, heard);
      n, lossless := n + heard, lossless && err.Success?;
      if err.Success? && !StatusBusy(status) {
        break;
      }
      if retry == 0 {
        err := Timeout;
        break;
      }
      retry := retry - 1;
    }
    PolledQuiet(start, n);
  }

  /** k status polls in a row. */
  function Polls(c: Chip, k: nat): (d: Chip)
    requires c.WellFormed()
    ensures d.WellFormed()
  {
    if k == 0 then c else Execute(Polls(c, k - 1), [READ_STATUS_REGISTER], 0)
  }

  lemma {:induction false} PollsAre(c: Chip, k: nat)
    requires c.WellFormed()
    ensures Polls(c, k) == c.(reg := c.reg.Polled(k))
  {
    hide Registers.Polled, Execute;
    PolledMore(c.reg, 0, 0);
    if k > 0 {
      PollsAre(c, k - 1);
      StatusPoll(Polls(c, k - 1));
      PolledMore(c.reg, k - 1, 1);
    }
  }

  lemma BusyRefuses(c: Chip, cmd: seq<byte>, dur: nat)
    requires c.WellFormed() && c.reg.busy > 0 && cmd != [] && c.part.IsArrayOpcode(cmd[0])
    ensures Execute(c, cmd, dur) == c.(refused := c.refused + 1)
  {
    assert cmd[0] != READ_STATUS_REGISTER;
  }

  lemma StatusPoll(c: Chip)
    requires c.WellFormed()
    ensures Execute(c, [READ_STATUS_REGISTER], 0) == c.(reg := c.reg.Polled(1))
  {
  }

  lemma WriteSwitchRuns(r: Registers, dur: nat)
    requires r.protect < 16
    ensures RunRegister(r, [WRITE_ENABLE], dur) == r.(wel := true)
    ensures RunRegister(r, [WRITE_DISABLE], dur) == r.(wel := false, aai := false, srUnlock := false)
  {
  }

  /** What WRITE ENABLE or WRITE DISABLE does to the registers; a busy chip is deaf to it. */
  function Switched(r: Registers, enabled: bool): Registers
  {
    if r.busy > 0 then r
    else if enabled then r.(wel := true)
    else r.(wel := false, aai := false, srUnlock := false)
  }

  /** Send WRITE ENABLE or WRITE DISABLE. */
  method SendWriteSwitch(flash: Flash, enabled: bool) returns (err: Err)
    requires flash.spi.chip.WellFormed()
    modifies flash.spi`chip, flash.spi`faults, flash.spi`bare, flash.spi`intact
    ensures flash.spi.Guarded() ==> flash.spi.bare == old(flash.spi.bare)
    ensures flash.spi.faults >= old(flash.spi.faults)
    ensures flash.spi.faults == old(flash.spi.faults) ==> err.Success? && flash.spi.chip.reg.busy <= flash.spi.patience
    ensures !err.Success? ==> flash.spi.intact == 0
    ensures var c := old(flash.spi.chip);
      || flash.spi.chip == c.(reg := Switched(c.reg, enabled))
      || (flash.spi.chip == c && !err.Success?)
  {
    hide Execute, RunRegister;
    var read; ghost var sent, dur;
    var cmd := [if enabled then WRITE_ENABLE else WRITE_DISABLE];
    ghost var c := flash.spi.chip;
    err, read, sent, dur := flash.spi.Transfer(cmd, 0);
    RegisterCommand(c, cmd, sent, dur);
    WriteSwitchRuns(c.reg, dur);
  }

  /** WRITE ENABLE or WRITE DISABLE, confirmed by reading WEL back. */
  method SetWriteEnabled(flash: Flash, enabled: bool) returns (err: Err)
    requires flash.spi.chip.WellFormed()
    modifies flash.spi`chip, flash.spi`faults, flash.spi`bare, flash.spi`intact
    ensures flash.spi.Guarded() ==> flash.spi.bare == old(flash.spi.bare)
    ensures Quiet(old(flash.spi.chip), flash.spi.chip) && flash.spi.chip.WellFormed()
    ensures flash.spi.faults >= old(flash.spi.faults)
    // with the bus at its best it succeeds exactly when the chip hears it, or WEL happens to be as asked
    ensures flash.spi.faults == old(flash.spi.faults) ==>
      (err.Success? <==> old(flash.spi.chip.reg.busy == 0 || flash.spi.chip.reg.wel == enabled))
    ensures flash.spi.faults == old(flash.spi.faults) ==> flash.spi.chip.reg.busy <= flash.spi.patience
    // a busy chip is deaf to the command, so success then only says that WEL already was as asked
    ensures err.Success? && old(flash.spi.chip.reg.busy) > 0 ==> old(flash.spi.chip.reg.wel) == enabled
    ensures err.Success? && old(flash.spi.chip.reg.busy) > 0 ==>
      flash.spi.chip == old(flash.spi.chip.(reg := flash.spi.chip.reg.Polled(1)))
    ensures old(flash.spi.chip.reg.busy > 0 && !flash.spi.chip.reg.wel && !flash.spi.chip.reg.aai) ==>
      !flash.spi.chip.reg.wel
    ensures old(flash.spi.chip.reg.busy) == 0 && err.Success? && enabled ==>
      flash.spi.chip == old(flash.spi.chip.(reg := flash.spi.chip.reg.(wel := true)))
    ensures old(flash.spi.chip.reg.busy) == 0 && !enabled ==>
      || flash.spi.chip == old(flash.spi.chip)
      || flash.spi.chip
         == old(flash.spi.chip.(reg := flash.spi.chip.reg.(wel := false, aai := false, srUnlock := false)))
    ensures old(flash.spi.chip.reg.busy) == 0 && err.Success? && !enabled ==>
      !flash.spi.chip.reg.aai && !flash.spi.chip.reg.wel
    // once both transactions of a write disable have arrived WEL is off, unless the chip is busy or in AAI mode
    ensures !enabled && flash.spi.intact > 0 ==> WriteDisabled(flash.spi.chip)
  {
    hide StatusWel;
    var status; ghost var heard;
    err := SendWriteSwitch(flash, enabled);
    if err.Success? {
      err, status, heard := ReadStatus(flash);
    }
    if err.Success? {
      if enabled && !StatusWel(status) {
        return WriteError;
      } else if !enabled && StatusWel(status) {
        return WriteError;
      }
    }
  }

  /** Address bytes go out most significant first, three or four of them. */
  function AddressLen(fourByte: bool): nat { if fourByte then 4 else 3 }

  method MakeAddressByteArray(flash: Flash, addr: nat, buf: array<byte>, at: nat)
    requires at + AddressLen(flash.addrIn4Byte) <= buf.Length
    modifies buf
    ensures buf[at..at + AddressLen(flash.addrIn4Byte)] == BigEndianBytes(addr, AddressLen(flash.addrIn4Byte))
    // byte by byte, for three and for four
    ensures !flash.addrIn4Byte ==>
      buf[at..at + 3] == [addr / 0x1_0000 % 0x100, addr / 0x100 % 0x100, addr % 0x100]
    ensures flash.addrIn4Byte ==>
      buf[at..at + 4] == [addr / 0x100_0000 % 0x100, addr / 0x1_0000 % 0x100, addr / 0x100 % 0x100, addr % 0x100]
    ensures forall k :: 0 <= k < buf.Length && !(at <= k < at + AddressLen(flash.addrIn4Byte)) ==> buf[k] == old(buf[k])
  {
    var len := AddressLen(flash.addrIn4Byte);
    var i := 0;
    while i < len
      invariant 0 <= i <= len
      invariant buf[at..at + i] == BigEndianBytes(Shr(addr, (len - i) * 8), i)
      invariant forall k :: 0 <= k < buf.Length && !(at <= k < at + i) ==> buf[k] == old(buf[k])
    {
      ghost var before := buf[at..at + i];
      buf[at + i] := Shr(addr, (len - (i + 1)) * 8) % 256;
      ShrByte(addr, (len - (i + 1)) * 8);
      assert buf[at..at + i + 1] == before + [buf[at + i]];
      i := i + 1;
    }
    AddressBytes(addr);
  }

  lemma AddressBytes(addr: nat)
    ensures BigEndianBytes(addr, 3) == [addr / 0x1_0000 % 0x100, addr / 0x100 % 0x100, addr % 0x100]
    ensures BigEndianBytes(addr, 4)
      == [addr / 0x100_0000 % 0x100, addr / 0x1_0000 % 0x100, addr / 0x100 % 0x100, addr % 0x100]
  {
    var a, b, c := addr / 0x100, addr / 0x100 / 0x100, addr / 0x100 / 0x100 / 0x100;
    assert b == addr / 0x1_0000 && c == addr / 0x100_0000;
    assert BigEndianBytes(c, 0) == [] && BigEndianBytes(c, 1) == [c % 0x100];
    assert BigEndianBytes(b, 1) == [b % 0x100] && BigEndianBytes(b, 2) == BigEndianBytes(c, 1) + [b % 0x100];
    assert BigEndianBytes(a, 2) == BigEndianBytes(b, 1) + [a % 0x100];
    assert BigEndianBytes(a, 3) == BigEndianBytes(b, 2) + [a % 0x100];
  }

  /** The chip decodes the address the driver encoded exactly when it fits the address length. */
  lemma AddressRoundTrip(fourByte: bool, addr: nat)
    ensures BigEndian(BigEndianBytes(addr, AddressLen(fourByte))) == addr
      <==> addr < (if fourByte then 0x1_0000_0000 else 0x100_0000)
  {
    BigEndianRoundTrip(addr, AddressLen(fourByte));
    Pow2Values();
  }

  /** Lay out opcode, address and payload in a `cmd_data` buffer of bufSize bytes. */
  method BuildCommand(flash: Flash, opcode: byte, addr: nat, payload: seq<byte>, bufSize: nat) returns (cmd: seq<byte>)
    requires 5 + |payload| <= bufSize
    ensures var h := if flash.addrIn4Byte then 5 else 4;
      && |cmd| == h + |payload| && cmd[0] == opcode && cmd[h..] == payload
      && (BigEndian(cmd[1..h]) == addr <==> addr < (if flash.addrIn4Byte then 0x1_0000_0000 else 0x100_0000))
  {
    hide BigEndian, BigEndianBytes;
    var cmdData := new byte[bufSize](_ => 0);
    cmdData[0] := opcode;
    MakeAddressByteArray(flash, addr, cmdData, 1);
    AddressRoundTrip(flash.addrIn4Byte, addr);
    var cmdSize := if flash.addrIn4Byte then 5 else 4;
    ghost var header := cmdData[..cmdSize];
    assert header[0] == opcode && header[1..] == cmdData[1..cmdSize];
    forall i | 0 <= i < |payload| {
      cmdData[cmdSize + i] := payload[i];
    }
    cmd := cmdData[..cmdSize + |payload|];
    assert cmd == header + payload;
    assert cmd[1..cmdSize] == header[1..];
  }
}
