/** What the driver knows of the chip, and what one driver step may do to it. */
module DriverState {
  import opened Bytes
  import opened ErasePlanning
  import opened FlashDevice
  import opened NorChip

  ghost function TableOf(flash: Flash): EraseTable
    reads flash, flash.sfdp, flash.sfdp.eraser
  {
    EraseTable(flash.sfdp.available, flash.sfdp.eraser[..], Eraser(flash.eraseGran, flash.eraseGranCmd))
  }

  /** What the driver believes about the chip is true. Initialisation establishes it. */
  ghost predicate Described(flash: Flash)
    reads flash, flash.sfdp, flash.sfdp.eraser, flash.spi`chip
  {
    Describes(flash, flash.spi.chip)
  }

  ghost predicate Describes(flash: Flash, c: Chip)
    reads flash, flash.sfdp, flash.sfdp.eraser
  {
    && c.WellFormed()
    && flash.capacity == c.part.size < 0x1_0000_0000
    && flash.addrIn4Byte == c.reg.fourByte
    && (flash.capacity > 0x100_0000 ==> flash.addrIn4Byte)
    && c.reg.protect == 0
    && c.part.dual == Bit(flash.writeMode, WM_DUAL_BUFFER)
    && TableOf(flash).WellFormed() && ErasersDescribed(TableOf(flash), c.part)
  }

  ghost predicate ErasersDescribed(t: EraseTable, p: Part)
    requires t.WellFormed()
  {
    && p.size % t.Smallest() == 0
    && (if t.available then forall i :: 0 <= i < ERASE_TYPES && t.erasers[i].size > 0 ==> Erases(p, t.erasers[i])
        else Erases(p, t.gran))
  }

  ghost predicate Erases(p: Part, e: Eraser) { e.cmd in p.erasers && p.erasers[e.cmd] == e.size }

  /** The chip can take a new operation. */
  predicate Idle(c: Chip) { c.reg.busy == 0 && !c.reg.aai }

  /** Outside AAI mode, and WEL reads 0 while busy: a write enable the chip did not hear will be noticed. */
  predicate Attentive(c: Chip) { !c.reg.aai && (c.reg.busy > 0 ==> !c.reg.wel) }

  /** A write enable that was not heard shows in WEL, and one that was heard lets the command behind it through. */
  predicate WelTells(c: Chip) { if c.reg.busy > 0 then !c.reg.wel else !c.reg.aai }

  /** Reading WEL back guarantees that the next array command is carried out exactly when `WelTells`, which includes
      every attentive chip. Otherwise the command is refused, or inside an AAI sequence ignored; nothing changes, and
      the wait for its end succeeds as soon as the chip is through with what it was doing. */
  lemma EnableCheck(c: Chip, cmd: seq<byte>, dur: nat)
    requires c.WellFormed() && c.reg.protect == 0 && cmd != [] && c.part.IsArrayOpcode(cmd[0])
    requires Decode(c.part, c.reg.(aai := false), cmd).Some?
    ensures var asked := Execute(c, [WRITE_ENABLE], 0);
      var polled := Execute(asked, [READ_STATUS_REGISTER], 0);
      var sent, op := Execute(polled, cmd, dur), Decode(c.part, c.reg.(aai := false), cmd).value;
      && (WelTells(c) <==> (StatusWel(asked.reg.Status()) ==> sent.history == c.history + [op]))
      && (Attentive(c) ==> WelTells(c))
      && (!WelTells(c) ==>
        && StatusWel(asked.reg.Status())
        && sent.mem == c.mem && sent.history == c.history
        && !StatusBusy(Polls(sent, c.reg.busy).reg.Status()))
  {
    hide RunRegister;
    RegisterCommand(c, [WRITE_ENABLE], 0, 0);
    WriteSwitchRuns(c.reg, 0);
    var asked := Execute(c, [WRITE_ENABLE], 0);
    assert asked == if c.reg.busy > 0 then c else c.(reg := c.reg.(wel := true));
    StatusPoll(asked);
    var polled := Execute(asked, [READ_STATUS_REGISTER], 0);
    PollsAre(Execute(polled, cmd, dur), c.reg.busy);
    assert cmd[0] != READ_STATUS_REGISTER;
  }

  /** Retrying after a time-out is such a case. An erase or program command is accepted, r polls all read BUSY, the exit
      path's write disable is not heard. The retry's write enable is not heard either, WEL reads 1 all the same, its
      command is refused, and the wait sees the end of the first operation: SUCCESS, for whatever was asked. */
  lemma RetryLost(c: Chip, cmd: seq<byte>, dur: nat, r: nat, again: seq<byte>, dur2: nat, k: nat)
    requires c.WellFormed() && c.reg.Ready() && !c.reg.aai && dur > r + 2
    requires cmd != [] && cmd[0] != AAI_WORD_PROGRAM && c.part.IsArrayOpcode(cmd[0])
    requires Decode(c.part, c.reg, cmd).Some?
    requires again != [] && c.part.IsArrayOpcode(again[0])
    ensures var started := Execute(c, cmd, dur);
      var waited := Polls(started, r);
      var left := Execute(Execute(waited, [WRITE_DISABLE], 0), [READ_STATUS_REGISTER], 0);
      var asked := Execute(left, [WRITE_ENABLE], 0);
      var sent := Execute(Execute(asked, [READ_STATUS_REGISTER], 0), again, dur2);
      && started.history == c.history + [Decode(c.part, c.reg, cmd).value]
      && (k <= r ==> StatusBusy(Polls(started, k).reg.Status()))
      && StatusWel(asked.reg.Status())
      && sent.refused == c.refused + 1 && sent.history == started.history && sent.mem == started.mem
      && (StatusBusy(Polls(sent, k).reg.Status()) <==> k < dur - r - 2)
  {
    hide Execute, Polls;
    var started := Execute(c, cmd, dur);
    Accepts(c, cmd, dur);
    PollsAre(started, k);
    PollsAre(started, r);
    var waited := Polls(started, r);
    RegisterCommand(waited, [WRITE_DISABLE], 0, 0);
    StatusPoll(waited);
    var left := Execute(waited, [READ_STATUS_REGISTER], 0);
    RegisterCommand(left, [WRITE_ENABLE], 0, 0);
    StatusPoll(left);
    var polled := Execute(left, [READ_STATUS_REGISTER], 0);
    BusyRefuses(polled, again, dur2);
    PollsAre(Execute(polled, again, dur2), k);
  }

  lemma Accepts(c: Chip, cmd: seq<byte>, dur: nat)
    requires c.WellFormed() && c.reg.Ready() && dur > 0
    requires cmd != [] && cmd[0] != AAI_WORD_PROGRAM && c.part.IsArrayOpcode(cmd[0])
    requires Decode(c.part, c.reg, cmd).Some?
    ensures var op, d := Decode(c.part, c.reg, cmd).value, Execute(c, cmd, dur);
      d == Chip(c.part, Effect(c.mem, op), c.reg.(busy := dur), c.history + [op], c.refused)
  {
    assert cmd[0] != READ_STATUS_REGISTER;
  }

  /** d is c after it accepted one operation that leaves it outside AAI mode; once settled, WEL has fallen. */
  ghost predicate Accepted(c: Chip, d: Chip, op: ArrayOp)
  {
    && d == Chip(c.part, Effect(c.mem, op), d.reg, c.history + [op], c.refused)
    && d.reg.Settled() == c.reg.(wel := false)
  }

  /** Same address mode, protection and position outside AAI mode. */
  ghost predicate SameModes(r: Registers, s: Registers)
  {
    s.fourByte == r.fourByte && s.protect == r.protect && !s.aai
  }

  /** d is c with the operation accepted, or without it; modes unchanged either way. */
  ghost predicate Attempted(c: Chip, d: Chip, op: ArrayOp, accepted: bool)
  {
    && d == (if accepted then Chip(c.part, Effect(c.mem, op), d.reg, c.history + [op], c.refused) else c.(reg := d.reg))
    && SameModes(c.reg, d.reg)
  }
}
