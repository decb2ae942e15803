/** Erasing: `sfud_chip_erase`, `sfud_erase` and the search for an eraser. */
module Erasing {
  import opened Alignment
  import opened Bytes
  import opened DriverState
  import opened ErasePlanning
  import opened FlashDevice
  import opened Memory
  import opened NorChip
  import opened Options
  import opened Spi

  method GetSuitableEraser(flash: Flash, addr: nat, size: nat) returns (index: nat)
    requires flash.sfdp.available && flash.sfdp.eraser.Length == ERASE_TYPES && flash.sfdp.eraser[0].size > 0
    ensures index == SuitableEraser(flash.sfdp.eraser[..], addr, size)
    // off the smallest grid entry 0; on it, for any size, the last used entry that is aligned here and not too large,
    // and entry 0 when there is none
    ensures addr % flash.sfdp.eraser[0].size != 0 ==> index == 0
    ensures addr % flash.sfdp.eraser[0].size == 0 ==>
      && index < 4
      && (forall i :: index < i < 4 && flash.sfdp.eraser[i].size != 0 ==>
            flash.sfdp.eraser[i].size > size || addr % flash.sfdp.eraser[i].size != 0)
      && (index != 0 ==>
            && flash.sfdp.eraser[index].size != 0
            && flash.sfdp.eraser[index].size <= size && addr % flash.sfdp.eraser[index].size == 0)
  {
    index := 0;
    if addr % flash.sfdp.eraser[0].size != 0 {
      return;
    }
    var i := ERASE_TYPES - 1;
    while true
      invariant 0 <= i < ERASE_TYPES && index == 0
      invariant SuitableFrom(flash.sfdp.eraser[..], addr, size, i)
        == SuitableFrom(flash.sfdp.eraser[..], addr, size, ERASE_TYPES - 1)
      decreases i
    {
      if flash.sfdp.eraser[i].size != 0 && size >= flash.sfdp.eraser[i].size && addr % flash.sfdp.eraser[i].size == 0 {
        index := i;
        break;
      }
      if i == 0 {
        break;
      }
      i := i - 1;
    }
  }

  /** Build the erase command for the block at addr and send it. */
  method SendErase(flash: Flash, eraser: Eraser, addr: nat) returns (err: Err)
    requires Described(flash) && flash.spi.chip.reg.Ready() && !flash.spi.chip.reg.aai
    requires addr < flash.capacity && eraser.size > 0 && Erases(flash.spi.chip.part, eraser)
    modifies flash.spi`chip, flash.spi`faults, flash.spi`bare, flash.spi`intact
    ensures flash.spi.Guarded() ==> flash.spi.bare == old(flash.spi.bare)
    ensures var c, d := old(flash.spi.chip), flash.spi.chip;
      (d == c && !err.Success?) || Accepted(c, d, Erase(Floor(addr, eraser.size), eraser.size))
    ensures flash.spi.faults >= old(flash.spi.faults)
    ensures flash.spi.faults == old(flash.spi.faults) ==> err.Success? && flash.spi.chip.reg.busy <= flash.spi.patience
  {
    hide Execute;
    var cmd := BuildCommand(flash, eraser.cmd, addr, [], 5);
    ghost var c := flash.spi.chip;
    var read; ghost var sent, dur;
    err, read, sent, dur := flash.spi.Transfer(cmd, 0);
    EraseCommand(c, eraser, addr, cmd, sent, dur);
  }

  /** The chip's side of an erase command, whole or cut short. */
  lemma EraseCommand(c: Chip, eraser: Eraser, addr: nat, cmd: seq<byte>, sent: nat, dur: nat)
    requires c.WellFormed() && c.reg.Ready() && !c.reg.aai && addr < c.part.size
    requires eraser.size > 0 && Erases(c.part, eraser)
    requires sent <= |cmd| == c.reg.HeaderLen() && cmd[0] == eraser.cmd
    requires BigEndian(cmd[1..c.reg.HeaderLen()]) == addr
    ensures var d := Execute(c, cmd[..sent], dur);
      if sent == |cmd| then Accepted(c, d, Erase(Floor(addr, eraser.size), eraser.size)) else d == c
  {
    if sent > 0 {
      EraseDecode(c.part, c.reg, eraser, addr, cmd, sent);
      assert !IsFixedOpcode(cmd[..sent][0]);
      assert Execute(c, cmd[..sent], dur) == RunArray(c, cmd[..sent], dur);
    }
  }

  lemma EraseDecode(p: Part, r: Registers, eraser: Eraser, addr: nat, cmd: seq<byte>, sent: nat)
    requires p.WellFormed() && !r.aai && addr < p.size && eraser.size > 0 && Erases(p, eraser)
    requires 0 < sent <= |cmd| == r.HeaderLen() && cmd[0] == eraser.cmd && BigEndian(cmd[1..r.HeaderLen()]) == addr
    ensures Decode(p, r, cmd[..sent])
      == if sent == |cmd| then Some(Erase(Floor(addr, eraser.size), eraser.size)) else None
  {
    assert !IsFixedOpcode(cmd[0]);
    var got := cmd[..sent];
    if sent == |cmd| {
      assert got == cmd;
    }
  }

  /** The chip accepted exactly the first n operations of the plan, and refused none. */
  ghost predicate Progress(c: Chip, d: Chip, plan: seq<ArrayOp>, n: nat)
  {
    && n <= |plan|
    && d == Chip(c.part, Replay(c.mem, plan[..n]), d.reg, c.history + plan[..n], c.refused)
    && SameModes(c.reg, d.reg)
  }

  lemma ProgressStart(c: Chip, plan: seq<ArrayOp>)
    requires !c.reg.aai
    ensures Progress(c, c, plan, 0)
  {
  }

  method SendChipErase(flash: Flash) returns (err: Err)
    requires Described(flash) && flash.spi.chip.reg.Ready() && !flash.spi.chip.reg.aai
    modifies flash.spi`chip, flash.spi`faults, flash.spi`bare, flash.spi`intact
    ensures flash.spi.Guarded() ==> flash.spi.bare == old(flash.spi.bare)
    ensures var c, d := old(flash.spi.chip), flash.spi.chip;
      (d == c && !err.Success?) || Accepted(c, d, Erase(0, flash.capacity))
    ensures flash.spi.faults >= old(flash.spi.faults)
    ensures flash.spi.faults == old(flash.spi.faults) ==> err.Success? && flash.spi.chip.reg.busy <= flash.spi.patience
  {
    hide Execute;
    var cmd: seq<byte> := if Bit(flash.writeMode, WM_DUAL_BUFFER) then [ERASE_CHIP, 0x94, 0x80, 0x9A] else [ERASE_CHIP];
    ghost var c := flash.spi.chip;
    var read; ghost var sent, dur;
    err, read, sent, dur := flash.spi.Transfer(cmd, 0);
    ChipEraseCommand(c, cmd, sent, dur);
    assert cmd[..|cmd|] == cmd;
  }

  /** `sfud_chip_erase` up to its exit label: enable writing, send the command, wait. */
  method EraseAll(flash: Flash) returns (err: Err, ghost accepted: bool)
    requires Described(flash) && Attentive(flash.spi.chip)
    modifies flash.spi`chip, flash.spi`faults, flash.spi`bare, flash.spi`intact
    ensures flash.spi.Guarded() ==> flash.spi.bare == old(flash.spi.bare)
    ensures Attempted(old(flash.spi.chip), flash.spi.chip, Erase(0, flash.capacity), accepted)
    ensures err.Success? ==> accepted && Idle(flash.spi.chip) && !flash.spi.chip.reg.wel
    ensures flash.spi.faults >= old(flash.spi.faults)
    // with the bus at its best it succeeds exactly on an idle chip
    ensures flash.spi.faults == old(flash.spi.faults) && Patient(flash) ==>
      (err.Success? <==> old(flash.spi.chip.reg.busy) == 0) && Attentive(flash.spi.chip)
  {
    accepted := false;
    err := SetWriteEnabled(flash, true);
    if err.Success? {
      ghost var before := flash.spi.chip;
      err := SendChipErase(flash);
      accepted := flash.spi.chip != before;
      if err.Success? {
        ghost var answers;
        err, answers := WaitBusy(flash);
      }
    }
  }

  /** Erase everything. */
  method ChipErase(flash: Flash) returns (err: Err, ghost done: nat)
    requires Described(flash) && flash.initOk && Attentive(flash.spi.chip)
    modifies flash.spi
    // all transactions are made with the bus locked
    ensures (flash.spi.locking ==> old(flash.spi.depth) >= 0) ==> flash.spi.bare == old(flash.spi.bare)
    // and when those of the exit path arrive, they leave the chip write-disabled
    ensures flash.spi.intact > 0 ==> WriteDisabled(flash.spi.chip)
    ensures flash.spi.depth == old(flash.spi.depth) && Described(flash)
    ensures Progress(old(flash.spi.chip), flash.spi.chip, [Erase(0, flash.capacity)], done)
    ensures err.Success? ==> done == 1 && Idle(flash.spi.chip) && !flash.spi.chip.reg.wel
    ensures flash.spi.faults >= old(flash.spi.faults)
    // with the bus at its best it succeeds exactly on an idle chip
    ensures flash.spi.faults == old(flash.spi.faults) && Patient(flash) ==>
      (err.Success? <==> old(flash.spi.chip.reg.busy) == 0) && Attentive(flash.spi.chip)
  {
    hide Bit, ErasersDescribed, EraseTable.WellFormed, Replay, Effect;
    ghost var c, accepted := flash.spi.chip, false;
    ProgressStart(c, [Erase(0, flash.capacity)]);
    flash.spi.Lock();
    err, accepted := EraseAll(flash);
    ProgressStep(c, c, flash.spi.chip, [Erase(0, flash.capacity)], 0, accepted);
    done := if accepted then 1 else 0;
    var ignored := SetWriteEnabled(flash, false);
    flash.spi.Unlock();
  }

  lemma ChipEraseCommand(c: Chip, cmd: seq<byte>, sent: nat, dur: nat)
    requires c.WellFormed() && c.reg.Ready() && !c.reg.aai
    requires cmd == c.part.ChipEraseCommand() && sent <= |cmd|
    ensures sent < |cmd| ==> Execute(c, cmd[..sent], dur) == c
    ensures Accepted(c, Execute(c, cmd, dur), Erase(0, c.part.size))
  {
    if 0 < sent < |cmd| {
      assert cmd[..sent][0] == ERASE_CHIP && |cmd[..sent]| != |cmd|;
    }
  }

  /** The accepted operations of an erase of [addr, addr + size): one chip erase, or the block plan. */
  ghost function EraseOps(flash: Flash, addr: nat, size: nat): seq<ArrayOp>
    requires Described(flash)
    reads flash, flash.sfdp, flash.sfdp.eraser, flash.spi`chip
  {
    if addr == 0 && size == flash.capacity then [Erase(0, flash.capacity)] else ErasePlan(TableOf(flash), addr, size)
  }

  /** What an erase of [addr, addr + size) makes of the array: the aligned span becomes 0xFF. */
  ghost function ErasedArray(flash: Flash, mem: seq<byte>, addr: nat, size: nat): seq<byte>
    requires Described(flash)
    reads flash, flash.sfdp, flash.sfdp.eraser, flash.spi`chip
  {
    Filled(mem, Floor(addr, TableOf(flash).Smallest()), SpanEnd(TableOf(flash), addr, size))
  }

  /** Written out: for a size above 0 the bytes from addr / g * g up to (addr + size + g - 1) / g * g, with g the size
      of the smallest eraser, become 0xFF, and no other byte changes. */
  lemma ErasedArrayIs(flash: Flash, mem: seq<byte>, addr: nat, size: nat, k: nat)
    requires Described(flash) && k < |mem|
    ensures var g := if flash.sfdp.available then flash.sfdp.eraser[0].size else flash.eraseGran;
      && |ErasedArray(flash, mem, addr, size)| == |mem| && g > 0
      && ErasedArray(flash, mem, addr, size)[k]
         == if size > 0 && addr / g * g <= k < (addr + size + g - 1) / g * g then 0xFF else mem[k]
  {
    var g := TableOf(flash).Smallest();
    Rounded(addr, g);
    Rounded(addr + size, g);
  }

  /** The chip-erase shortcut and the block loop mean the same. */
  lemma EraseOpsMeaning(flash: Flash, mem: seq<byte>, addr: nat, size: nat, n: nat)
    requires Described(flash) && |mem| == flash.capacity && n <= |EraseOps(flash, addr, size)|
    ensures Between(mem, Replay(mem, EraseOps(flash, addr, size)[..n]), ErasedArray(flash, mem, addr, size))
    ensures n == |EraseOps(flash, addr, size)| ==>
      Replay(mem, EraseOps(flash, addr, size)[..n]) == ErasedArray(flash, mem, addr, size)
  {
    var t, ops := TableOf(flash), EraseOps(flash, addr, size);
    if addr == 0 && size == flash.capacity {
      ErasesBetween(mem, ops[..n], 0, flash.capacity);
      if n == 1 {
        assert ops[..n] == ops && Replay(mem, ops) == Replay(Effect(mem, ops[0]), []);
      }
    } else {
      PlanPrefixBetween(mem, t, addr, size, n);
      PlanFillsSpan(mem, t, addr, size);
      if n == |ops| { assert ops[..n] == ops; }
    }
  }

  /** Erase the blocks that contain [addr, addr + size). */
  method EraseRange(flash: Flash, addr: nat, size: nat) returns (err: Err, ghost done: nat)
    requires Described(flash) && flash.initOk && Attentive(flash.spi.chip)
    requires addr + size < 0x1_0000_0000_0000_0000
    modifies flash.spi
    // all transactions are made with the bus locked
    ensures (flash.spi.locking ==> old(flash.spi.depth) >= 0) ==> flash.spi.bare == old(flash.spi.bare)
    // and when those of the exit path arrive, they leave the chip write-disabled
    ensures addr + size <= flash.capacity && flash.spi.intact > 0 ==> WriteDisabled(flash.spi.chip)
    ensures flash.spi.depth == old(flash.spi.depth) && Described(flash)
    ensures addr + size > flash.capacity ==> err.OutOfBound? && flash.spi.chip == old(flash.spi.chip)
    // whatever fails: only a first part of the commands took effect, each of them on a ready chip
    ensures addr + size <= flash.capacity ==>
      Progress(old(flash.spi.chip), flash.spi.chip, EraseOps(flash, addr, size), done)
    ensures Between(old(flash.spi.chip.mem), flash.spi.chip.mem,
      ErasedArray(flash, old(flash.spi.chip.mem), addr, size))
    // success: the aligned span is erased, all else is as before, the chip is idle
    ensures err.Success? ==> addr + size <= flash.capacity
    ensures err.Success? ==> done == |EraseOps(flash, addr, size)| && Attentive(flash.spi.chip)
    ensures err.Success? && (size > 0 || old(Idle(flash.spi.chip))) ==> Idle(flash.spi.chip)
    ensures err.Success? ==> flash.spi.chip.mem == ErasedArray(flash, old(flash.spi.chip.mem), addr, size)
    // by one chip erase when the range is the whole chip, else block by block
    ensures err.Success? && addr == 0 && size == flash.capacity ==>
      flash.spi.chip.history == old(flash.spi.chip.history) + [Erase(0, flash.capacity)]
    ensures err.Success? && !(addr == 0 && size == flash.capacity) ==>
      flash.spi.chip.history == old(flash.spi.chip.history) + ErasePlan(TableOf(flash), addr, size)
    ensures err.Success? && size > 0 ==> !flash.spi.chip.reg.wel
    ensures flash.spi.faults >= old(flash.spi.faults)
    // with the bus at its best it succeeds exactly on an idle chip, or with nothing to do
    ensures flash.spi.faults == old(flash.spi.faults) && Patient(flash) ==>
      && (err.Success? <==> addr + size <= flash.capacity && (size == 0 || old(flash.spi.chip.reg.busy) == 0))
      && Attentive(flash.spi.chip)
  {
    ghost var c := flash.spi.chip;
    done := 0;
    if addr + size > flash.capacity {
      return OutOfBound, 0;
    }
    ghost var ops := EraseOps(flash, addr, size);
    if addr == 0 && size == flash.capacity {
      err, done := ChipErase(flash);
      EraseOpsMeaning(flash, c.mem, addr, size, done);
      return;
    }
    flash.spi.Lock();
    err, done := EraseBlocks(flash, addr, size);
    var ignored := SetWriteEnabled(flash, false);
    flash.spi.Unlock();
    EraseOpsMeaning(flash, c.mem, addr, size, done);
  }

  lemma ProgressStep(c: Chip, d: Chip, e: Chip, plan: seq<ArrayOp>, n: nat, accepted: bool)
    requires Progress(c, d, plan, n) && n < |plan| && Attempted(d, e, plan[n], accepted)
    ensures Progress(c, e, plan, if accepted then n + 1 else n)
  {
    if accepted {
      assert plan[..n + 1] == plan[..n] + [plan[n]];
      ReplayAppend(c.mem, plan[..n], plan[n]);
    }
  }

  /** One turn of the loop: enable writing, send the command, wait. */
  method EraseOne(flash: Flash, eraser: Eraser, addr: nat) returns (err: Err, ghost accepted: bool)
    requires Described(flash) && Attentive(flash.spi.chip)
    requires addr < flash.capacity && eraser.size > 0 && Erases(flash.spi.chip.part, eraser)
    modifies flash.spi`chip, flash.spi`faults, flash.spi`bare, flash.spi`intact
    ensures flash.spi.Guarded() ==> flash.spi.bare == old(flash.spi.bare)
    ensures Attempted(old(flash.spi.chip), flash.spi.chip, Erase(Floor(addr, eraser.size), eraser.size), accepted)
    ensures err.Success? ==> accepted && Idle(flash.spi.chip) && !flash.spi.chip.reg.wel
    ensures flash.spi.faults >= old(flash.spi.faults)
    // with the bus at its best it succeeds exactly on an idle chip
    ensures flash.spi.faults == old(flash.spi.faults) && Patient(flash) ==>
      (err.Success? <==> old(flash.spi.chip.reg.busy) == 0) && Attentive(flash.spi.chip)
  {
    accepted := false;
    err := SetWriteEnabled(flash, true);
    if err.Success? {
      ghost var before := flash.spi.chip;
      err := SendErase(flash, eraser, addr);
      accepted := flash.spi.chip != before;
      if err.Success? {
        ghost var answers;
        err, answers := WaitBusy(flash);
      }
    }
  }

  /** The SFDP table's suitable eraser when there is a table, else the erase granularity. */
  method CurrentEraser(flash: Flash, addr: nat, size: nat) returns (eraser: Eraser)
    requires TableOf(flash).WellFormed()
    ensures eraser == Choose(TableOf(flash), addr, size)
    ensures !flash.sfdp.available ==> eraser == Eraser(flash.eraseGran, flash.eraseGranCmd)
    ensures flash.sfdp.available ==> eraser in flash.sfdp.eraser[..]
  {
    if flash.sfdp.available {
      var index := GetSuitableEraser(flash, addr, size);
      eraser := flash.sfdp.eraser[index];
    } else {
      eraser := Eraser(flash.eraseGran, flash.eraseGranCmd);
    }
  }

  /** The next command of the plan, and where the loop goes from there. */
  lemma PlanAdvance(t: EraseTable, p: Part, plan: seq<ArrayOp>, done: nat, a: nat, s: nat)
    requires t.WellFormed() && ErasersDescribed(t, p) && s > 0 && done <= |plan| && plan[done..] == ErasePlan(t, a, s)
    ensures var e := Choose(t, a, s);
      && e.size > 0 && Erases(p, e)
      && done < |plan| && plan[done] == Erase(Floor(a, e.size), e.size)
      && (var step := StepLength(a, e.size);
          plan[done + 1..] == if s > step then ErasePlan(t, a + step, s - step) else [])
  {
    PlanStep(t, a, s);
    assert plan[done] == plan[done..][0];
    assert plan[done + 1..] == plan[done..][1..];
  }

  /** How far the loop moves after erasing the block that contains addr. */
  function StepLength(addr: nat, block: nat): (step: nat)
    requires block > 0
    ensures 0 < step <= block
  {
    if addr % block != 0 then block - addr % block else block
  }

  /** The loop of `sfud_erase`, up to its exit label. */
  method EraseBlocks(flash: Flash, addr: nat, size: nat) returns (err: Err, ghost done: nat)
    requires Described(flash) && Attentive(flash.spi.chip) && addr + size <= flash.capacity
    modifies flash.spi`chip, flash.spi`faults, flash.spi`bare, flash.spi`intact
    ensures flash.spi.Guarded() ==> flash.spi.bare == old(flash.spi.bare)
    ensures Progress(old(flash.spi.chip), flash.spi.chip, ErasePlan(TableOf(flash), addr, size), done)
    ensures err.Success? ==> done == |ErasePlan(TableOf(flash), addr, size)| && Attentive(flash.spi.chip)
    ensures err.Success? && (size > 0 || old(Idle(flash.spi.chip))) ==> Idle(flash.spi.chip)
    ensures err.Success? && size > 0 ==> !flash.spi.chip.reg.wel
    ensures flash.spi.faults >= old(flash.spi.faults)
    // with the bus at its best it succeeds exactly on an idle chip, or with nothing to do
    ensures flash.spi.faults == old(flash.spi.faults) && Patient(flash) ==>
      (err.Success? <==> (size == 0 || old(flash.spi.chip.reg.busy) == 0)) && Attentive(flash.spi.chip)
  {
    hide ErasePlan, Choose, StepLength, EraseTable.WellFormed, ErasersDescribed, Effect, Replay;
    ghost var c, t := flash.spi.chip, TableOf(flash);
    ghost var plan := ErasePlan(t, addr, size);
    var a: nat, s: nat := addr, size;
    err, done := Success, 0;
    ProgressStart(c, plan);
    while s > 0
      invariant a + s == addr + size && done <= |plan| && err.Success?
      invariant s > 0 || size == 0
      invariant plan[done..] == ErasePlan(t, a, s)
      invariant Progress(c, flash.spi.chip, plan, done) && Attentive(flash.spi.chip)
      invariant done > 0 ==> Idle(flash.spi.chip) && !flash.spi.chip.reg.wel
      invariant done == 0 ==> flash.spi.chip == c
      invariant flash.spi.faults >= old(flash.spi.faults)
      invariant flash.spi.Guarded() ==> flash.spi.bare == old(flash.spi.bare)
      invariant flash.spi.faults == old(flash.spi.faults) && Patient(flash) && done > 0 ==> c.reg.busy == 0
      invariant s == size || done > 0
      decreases s
    {
      var eraser := CurrentEraser(flash, a, s);
      PlanAdvance(t, c.part, plan, done, a, s);
      ghost var before, accepted := flash.spi.chip, false;
      err, accepted := EraseOne(flash, eraser, a);
      ProgressStep(c, before, flash.spi.chip, plan, done, accepted);
      done := if accepted then done + 1 else done;
      if !err.Success? {
        break;
      }
      var step := StepLength(a, eraser.size);
      if s > step {
        s, a := s - step, a + step;
      } else {
        break;
      }
    }
    PlanOfNothing(t, a);
  }

  lemma PlanOfNothing(t: EraseTable, a: nat)
    requires t.WellFormed()
    ensures ErasePlan(t, a, 0) == []
  {
  }
}
