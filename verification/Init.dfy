/** Initialisation: `hardware_init` and the register operations only it uses. */
module Initialising {
  import opened Bytes
  import opened ChipTable
  import opened DriverState
  import opened ErasePlanning
  import opened FlashDevice
  import opened NorChip
  import opened Options
  import opened SfdpReader
  import opened Spi

  /** d is c with other register contents: array, identity and history untouched. */
  ghost predicate OnlyRegisters(c: Chip, d: Chip) { d == c.(reg := d.reg) && d.WellFormed() }

  method ReadJedecId(flash: Flash) returns (err: Err)
    requires flash.spi.chip.WellFormed() && Idle(flash.spi.chip)
    modifies flash.spi`chip, flash.spi`faults, flash.spi`bare, flash.spi`intact
    modifies flash`mfId, flash`typeId, flash`capacityId
    ensures flash.spi.Guarded() ==> flash.spi.bare == old(flash.spi.bare)
    ensures flash.spi.chip == old(flash.spi.chip)
    ensures err.Success? ==> [flash.mfId, flash.typeId, flash.capacityId] == flash.spi.chip.part.id
    ensures flash.spi.faults >= old(flash.spi.faults)
    ensures err.Success? <==> flash.spi.faults == old(flash.spi.faults)
  {
    hide Execute;
    var cmd := [JEDEC_ID];
    ghost var c := flash.spi.chip;
    var read; ghost var sent, dur;
    err, read, sent, dur := flash.spi.Transfer(cmd, 3);
    RegisterCommand(c, cmd, sent, dur);
    if err.Success? {
      flash.mfId, flash.typeId, flash.capacityId := read[0], read[1], read[2];
    }
  }

  /** Enable reset, wait, reset, wait. The outcome of the first wait is overwritten. */
  method Reset(flash: Flash) returns (err: Err)
    requires flash.spi.chip.WellFormed() && Idle(flash.spi.chip)
    modifies flash.spi`chip, flash.spi`faults, flash.spi`bare, flash.spi`intact
    ensures flash.spi.Guarded() ==> flash.spi.bare == old(flash.spi.bare)
    ensures OnlyRegisters(old(flash.spi.chip), flash.spi.chip)
    ensures flash.spi.chip.reg.protect == old(flash.spi.chip.reg.protect) && !flash.spi.chip.reg.aai
    ensures err.Success? ==> Idle(flash.spi.chip) && !flash.spi.chip.reg.wel && !flash.spi.chip.reg.fourByte
    ensures flash.spi.faults >= old(flash.spi.faults)
    ensures flash.spi.faults == old(flash.spi.faults) && Patient(flash) ==> err.Success?
  {
    hide Execute;
    var read; ghost var sent, dur, answers;
    ghost var c := flash.spi.chip;
    err, read, sent, dur := flash.spi.Transfer([ENABLE_RESET], 0);
    RegisterCommand(c, [ENABLE_RESET], sent, dur);
    if !err.Success? {
      return;
    }
    err, answers := WaitBusy(flash);
    c := flash.spi.chip;
    err, read, sent, dur := flash.spi.Transfer([RESET], 0);
    RegisterCommand(c, [RESET], sent, dur);
    if err.Success? {
      err, answers := WaitBusy(flash);
    }
  }

  /** `sfud_write_status`. It does not wait for the register write to finish. */
  method WriteStatus(flash: Flash, isVolatile: bool, status: byte) returns (err: Err)
    requires flash.spi.chip.WellFormed() && Idle(flash.spi.chip)
    modifies flash.spi`chip, flash.spi`faults, flash.spi`bare, flash.spi`intact
    ensures flash.spi.Guarded() ==> flash.spi.bare == old(flash.spi.bare)
    ensures OnlyRegisters(old(flash.spi.chip), flash.spi.chip) && !flash.spi.chip.reg.aai
    ensures flash.spi.chip.reg.fourByte == old(flash.spi.chip.reg.fourByte)
    ensures err.Success? ==> flash.spi.chip.reg.protect == status / 4 % 16
    ensures err.Success? && isVolatile && flash.spi.chip.reg.busy > 0 ==>
      flash.spi.chip.reg.wel == old(flash.spi.chip.reg.wel)
    ensures err.Success? && !isVolatile && flash.spi.chip.reg.busy > 0 ==> flash.spi.chip.reg.wel
    ensures flash.spi.faults >= old(flash.spi.faults)
    ensures flash.spi.faults == old(flash.spi.faults) ==> err.Success? && flash.spi.chip.reg.busy <= flash.spi.patience
  {
    hide Execute;
    var read; ghost var sent, dur;
    ghost var c := flash.spi.chip;
    if isVolatile {
      err, read, sent, dur := flash.spi.Transfer([VOLATILE_SR_WRITE_ENABLE], 0);
      RegisterCommand(c, [VOLATILE_SR_WRITE_ENABLE], sent, dur);
    } else {
      err := SetWriteEnabled(flash, true);
    }
    if err.Success? {
      c := flash.spi.chip;
      var cmd := [WRITE_STATUS_REGISTER, status];
      err, read, sent, dur := flash.spi.Transfer(cmd, 0);
      WriteStatusCommand(c, cmd, sent, dur);
    }
  }

  lemma WriteStatusCommand(c: Chip, cmd: seq<byte>, sent: nat, dur: nat)
    requires c.WellFormed() && c.reg.busy == 0 && sent <= |cmd| == 2 && cmd[0] == WRITE_STATUS_REGISTER
    ensures sent < 2 ==> Execute(c, cmd[..sent], dur) == c
    ensures Execute(c, cmd, dur) == c.(reg := RunRegister(c.reg, cmd, dur))
    ensures sent == 2 ==> cmd[..sent] == cmd
  {
    assert !c.part.IsArrayOpcode(WRITE_STATUS_REGISTER);
    if sent == 1 { assert cmd[..sent] == [WRITE_STATUS_REGISTER]; }
  }

  method Set4ByteAddressMode(flash: Flash, enabled: bool) returns (err: Err)
    requires flash.spi.chip.WellFormed() && !flash.spi.chip.reg.aai
    modifies flash.spi`chip, flash.spi`faults, flash.spi`bare, flash.spi`intact, flash`addrIn4Byte
    ensures flash.spi.Guarded() ==> flash.spi.bare == old(flash.spi.bare)
    ensures OnlyRegisters(old(flash.spi.chip), flash.spi.chip) && !flash.spi.chip.reg.aai
    ensures flash.spi.chip.reg.protect == old(flash.spi.chip.reg.protect)
    ensures err.Success? ==> flash.addrIn4Byte == enabled
    // a chip that hears the command is in the mode the driver records, and WEL stays set
    ensures err.Success? && old(flash.spi.chip.reg.busy == 0 || !flash.spi.chip.reg.wel) ==>
      flash.spi.chip.reg.fourByte == enabled && flash.spi.chip.reg.wel && Idle(flash.spi.chip)
    // a busy one that shows WEL = 1 does not hear it, and stays in its mode
    ensures err.Success? && old(flash.spi.chip.reg.busy > 0) ==>
      flash.spi.chip.reg == old(flash.spi.chip.reg.Polled(1))
    ensures flash.spi.faults >= old(flash.spi.faults)
    // with the bus at its best it fails exactly on a chip that is busy and shows WEL = 0
    ensures flash.spi.faults == old(flash.spi.faults) ==>
      && (err.Success? <==> old(flash.spi.chip.reg.busy == 0 || flash.spi.chip.reg.wel))
      && flash.spi.chip.reg.busy <= flash.spi.patience
  {
    hide Execute;
    err := SetWriteEnabled(flash, true);
    if !err.Success? {
      return;
    }
    var cmd := [if enabled then ENTER_4B_ADDRESS_MODE else EXIT_4B_ADDRESS_MODE];
    ghost var c := flash.spi.chip;
    var read; ghost var sent, dur;
    err, read, sent, dur := flash.spi.Transfer(cmd, 0);
    RegisterCommand(c, cmd, sent, dur);
    if err.Success? {
      flash.addrIn4Byte := enabled;
    }
  }

  /** The test that decides whether the chip is asked for its parameters. */
  predicate Incomplete(flash: Flash)
    reads flash`capacity, flash`writeMode, flash`eraseGran, flash`eraseGranCmd
  {
    flash.capacity == 0 || flash.writeMode == 0 || flash.eraseGran == 0 || flash.eraseGranCmd == 0
  }

  /** MX25L3206E, by its id. */
  predicate IsMx(flash: Flash)
    reads flash
  {
    flash.mfId == 0xC2 && flash.typeId == 0x20 && flash.capacityId == 0x16
  }

  /** Initialisation writes the status register for these chips. */
  predicate Unprotects(flash: Flash)
    reads flash
  {
    Bit(flash.writeMode, WM_AAI) || IsMx(flash)
  }

  /** Initialisation may end with a status write still in progress and WEL set. */
  predicate Hasty(flash: Flash)
    reads flash
  {
    !Bit(flash.writeMode, WM_AAI) && IsMx(flash)
  }

  /** The one case where the address mode may go wrong: that status write is still in progress when 4-byte
      mode is entered. */
  predicate Races(flash: Flash)
    reads flash
  {
    Hasty(flash) && flash.capacity > 0x100_0000
  }

  /** Parts that are asked for 4-byte mode behind a status write that does not set WEL. */
  predicate LargeAai(flash: Flash)
    reads flash
  {
    Bit(flash.writeMode, WM_AAI) && flash.capacity > 0x100_0000
  }

  /** Reset, unprotect, choose the address mode: the second half of `hardware_init`. `writing` is how long the chip
      is busy with the status write, if there is one. */
  method Configure(flash: Flash) returns (err: Err, ghost writing: nat)
    requires flash.spi.chip.WellFormed() && Idle(flash.spi.chip)
    modifies flash.spi`chip, flash.spi`faults, flash.spi`bare, flash.spi`intact, flash`addrIn4Byte
    ensures flash.spi.Guarded() ==> flash.spi.bare == old(flash.spi.bare)
    ensures OnlyRegisters(old(flash.spi.chip), flash.spi.chip) && !flash.spi.chip.reg.aai
    ensures err.Success? ==> !Incomplete(flash)
    ensures err.Success? ==> (flash.addrIn4Byte <==> flash.capacity > 0x100_0000)
    // driver and chip agree on the address mode exactly unless the race is lost
    ensures err.Success? ==>
      (flash.addrIn4Byte == flash.spi.chip.reg.fourByte <==> !(Races(flash) && writing > 0))
    ensures err.Success? ==>
      flash.spi.chip.reg.protect == if Unprotects(flash) then 0 else old(flash.spi.chip.reg.protect)
    // protection is taken off chips written word by word and off id C2 20 16, and stays as it is on others
    ensures err.Success? ==>
      flash.spi.chip.reg.protect
      == if flash.writeMode / 4 % 2 == 1 || (flash.mfId == 0xC2 && flash.typeId == 0x20 && flash.capacityId == 0x16)
         then 0 else old(flash.spi.chip.reg.protect)
    ensures err.Success? ==> (Attentive(flash.spi.chip) <==>
      !(Hasty(flash) && writing > if flash.capacity > 0x100_0000 then 1 else 0))
    ensures err.Success? && !Unprotects(flash) ==> Idle(flash.spi.chip)
    ensures flash.spi.faults >= old(flash.spi.faults)
    // with the bus at its best it fails exactly when a parameter is missing, or a large AAI part is still writing
    ensures flash.spi.faults == old(flash.spi.faults) && Patient(flash) ==>
      && (err.Success? <==> !Incomplete(flash) && !(LargeAai(flash) && writing > 0))
      && flash.spi.chip.reg.busy <= flash.spi.patience
  {
    writing := 0;
    AaiBit(flash.writeMode);
    if flash.capacity == 0 || flash.writeMode == 0 || flash.eraseGran == 0 || flash.eraseGranCmd == 0 {
      return NotFound, 0;
    }
    err := Reset(flash);
    if !err.Success? {
      return;
    }
    if Bit(flash.writeMode, WM_AAI) {
      err := WriteStatus(flash, true, 0x00);
    } else if flash.mfId == 0xC2 && flash.typeId == 0x20 && flash.capacityId == 0x16 {
      err := WriteStatus(flash, false, 0x00);
    }
    writing := flash.spi.chip.reg.busy;
    if !err.Success? {
      return;
    }
    if flash.capacity > 0x100_0000 {
      err := Set4ByteAddressMode(flash, true);
    } else {
      flash.addrIn4Byte := false;
    }
  }

  lemma AaiBit(mode: nat)
    ensures Bit(mode, WM_AAI) <==> mode / 4 % 2 == 1
  {
    BitIs(mode, 2);
    assert Pow2(2) == 4;
  }

  /** The race is lost whenever there is one: the driver's own command sequence, with a status write that takes any
      number n > 0 of polls, reads WEL = 1 and yet leaves the chip in 3-byte mode. */
  lemma AddressModeRace(c: Chip, n: nat)
    requires c.WellFormed() && Idle(c) && !c.reg.fourByte && n > 0
    ensures var enabled := Execute(Execute(c, [WRITE_ENABLE], 0), [READ_STATUS_REGISTER], 0);
      var writing := Execute(enabled, [WRITE_STATUS_REGISTER, 0x00], n);
      var asked := Execute(writing, [WRITE_ENABLE], 0);
      && StatusWel(asked.reg.Status())
      && !Execute(Execute(asked, [READ_STATUS_REGISTER], 0), [ENTER_4B_ADDRESS_MODE], 0).reg.fourByte
  {
    hide Execute;
    var c1 := Execute(c, [WRITE_ENABLE], 0);
    RegisterCommand(c, [WRITE_ENABLE], 0, 0);
    StatusPoll(c1);
    var c2 := Execute(c1, [READ_STATUS_REGISTER], 0);
    var c3 := Execute(c2, [WRITE_STATUS_REGISTER, 0x00], n);
    WriteStatusCommand(c2, [WRITE_STATUS_REGISTER, 0x00], 0, n);
    var c4 := Execute(c3, [WRITE_ENABLE], 0);
    RegisterCommand(c3, [WRITE_ENABLE], 0, 0);
    StatusPoll(c4);
    var c5 := Execute(c4, [READ_STATUS_REGISTER], 0);
    RegisterCommand(c5, [ENTER_4B_ADDRESS_MODE], 0, 0);
  }

  /** The same status write can lose the first operation after initialisation and report success. When it takes n > 1
      polls, the write enable is not heard, WEL reads 1 all the same, the erase or program command behind it is refused,
      and `wait_busy` sees BUSY for n - 1 polls and then its end, with the array as it was. */
  lemma FirstOperationLost(c: Chip, cmd: seq<byte>, dur: nat, n: nat, k: nat)
    requires c.WellFormed() && Idle(c) && cmd != [] && c.part.IsArrayOpcode(cmd[0]) && n > 1
    ensures var enabled := Execute(Execute(c, [WRITE_ENABLE], 0), [READ_STATUS_REGISTER], 0);
      var writing := Execute(enabled, [WRITE_STATUS_REGISTER, 0x00], n);
      var asked := Execute(writing, [WRITE_ENABLE], 0);
      var sent := Execute(Execute(asked, [READ_STATUS_REGISTER], 0), cmd, dur);
      && StatusWel(asked.reg.Status()) && !Attentive(writing)
      && sent.refused == c.refused + 1
      && (StatusBusy(Polls(sent, k).reg.Status()) <==> k < n - 1)
      && Polls(sent, k).mem == c.mem && Polls(sent, k).history == c.history
  {
    hide Execute;
    var c1 := Execute(c, [WRITE_ENABLE], 0);
    RegisterCommand(c, [WRITE_ENABLE], 0, 0);
    StatusPoll(c1);
    var c2 := Execute(c1, [READ_STATUS_REGISTER], 0);
    WriteStatusCommand(c2, [WRITE_STATUS_REGISTER, 0x00], 0, n);
    var c3 := Execute(c2, [WRITE_STATUS_REGISTER, 0x00], n);
    RegisterCommand(c3, [WRITE_ENABLE], 0, 0);
    StatusPoll(c3);
    var c4 := Execute(c3, [READ_STATUS_REGISTER], 0);
    BusyRefuses(c4, cmd, dur);
    PollsAre(Execute(c4, cmd, dur), k);
  }

  // ---- finding the parameters

  /** The first row of the table for this id. */
  ghost function FirstMatch(rows: seq<ChipInfo>, mfId: byte, typeId: byte, capacityId: byte): (r: Option<ChipInfo>)
  {
    if rows == [] then None
    else if Matches(rows[0], mfId, typeId, capacityId) then Some(rows[0])
    else FirstMatch(rows[1..], mfId, typeId, capacityId)
  }

  /** Row k is the first with all three ids. */
  ghost predicate FirstRow(rows: seq<ChipInfo>, mfId: byte, typeId: byte, capacityId: byte, k: nat)
  {
    && k < |rows| && rows[k].mfId == mfId && rows[k].typeId == typeId && rows[k].capacityId == capacityId
    && forall j :: 0 <= j < k ==>
         !(rows[j].mfId == mfId && rows[j].typeId == typeId && rows[j].capacityId == capacityId)
  }

  lemma {:induction false} FirstMatchIs(rows: seq<ChipInfo>, mfId: byte, typeId: byte, capacityId: byte)
    ensures FirstMatch(rows, mfId, typeId, capacityId).None? <==>
      forall i :: 0 <= i < |rows| ==>
        !(rows[i].mfId == mfId && rows[i].typeId == typeId && rows[i].capacityId == capacityId)
    ensures FirstMatch(rows, mfId, typeId, capacityId).Some? ==>
      exists k: nat :: FirstRow(rows, mfId, typeId, capacityId, k)
        && FirstMatch(rows, mfId, typeId, capacityId) == Some(rows[k])
  {
    if rows != [] {
      if Matches(rows[0], mfId, typeId, capacityId) {
        assert FirstRow(rows, mfId, typeId, capacityId, 0);
      } else {
        var rest := rows[1..];
        FirstMatchIs(rest, mfId, typeId, capacityId);
        assert forall i :: 1 <= i < |rows| ==> rows[i] == rest[i - 1];
        if FirstMatch(rest, mfId, typeId, capacityId).Some? {
          var k: nat :| FirstRow(rest, mfId, typeId, capacityId, k)
            && FirstMatch(rest, mfId, typeId, capacityId) == Some(rest[k]);
          assert FirstRow(rows, mfId, typeId, capacityId, k + 1);
        }
      }
    }
  }

  /** The fields are those of this row. */
  ghost predicate Adopted(flash: Flash, row: ChipInfo)
    reads flash`capacity, flash`writeMode, flash`eraseGran, flash`eraseGranCmd
  {
    && flash.capacity == row.capacity && flash.writeMode == row.writeMode
    && flash.eraseGran == row.eraseGran && flash.eraseGranCmd == row.eraseGranCmd
  }

  method LookUp(flash: Flash, rows: seq<ChipInfo>)
    modifies flash`capacity, flash`writeMode, flash`eraseGran, flash`eraseGranCmd
    ensures var row := FirstMatch(rows, flash.mfId, flash.typeId, flash.capacityId);
      if row.Some? then Adopted(flash, row.value)
      else
        && flash.capacity == old(flash.capacity) && flash.writeMode == old(flash.writeMode)
        && flash.eraseGran == old(flash.eraseGran) && flash.eraseGranCmd == old(flash.eraseGranCmd)
    // the first row with all three ids, or no such row and nothing changed
    ensures
      || (exists k: nat :: FirstRow(rows, flash.mfId, flash.typeId, flash.capacityId, k) && Adopted(flash, rows[k]))
      || ((forall i :: 0 <= i < |rows| ==>
            !(rows[i].mfId == flash.mfId && rows[i].typeId == flash.typeId && rows[i].capacityId == flash.capacityId))
          && flash.capacity == old(flash.capacity) && flash.writeMode == old(flash.writeMode)
          && flash.eraseGran == old(flash.eraseGran) && flash.eraseGranCmd == old(flash.eraseGranCmd))
  {
    var i := 0;
    assert rows[0..] == rows;
    FirstMatchIs(rows, flash.mfId, flash.typeId, flash.capacityId);
    while i < |rows|
      invariant 0 <= i <= |rows|
      invariant FirstMatch(rows, flash.mfId, flash.typeId, flash.capacityId)
        == FirstMatch(rows[i..], flash.mfId, flash.typeId, flash.capacityId)
      invariant flash.capacity == old(flash.capacity) && flash.writeMode == old(flash.writeMode)
        && flash.eraseGran == old(flash.eraseGran) && flash.eraseGranCmd == old(flash.eraseGranCmd)
    {
      assert rows[i..][0] == rows[i] && rows[i..][1..] == rows[i + 1..];
      if rows[i].mfId == flash.mfId && rows[i].typeId == flash.typeId && rows[i].capacityId == flash.capacityId {
        flash.capacity, flash.writeMode := rows[i].capacity, rows[i].writeMode;
        flash.eraseGran, flash.eraseGranCmd := rows[i].eraseGran, rows[i].eraseGranCmd;
        return;
      }
      i := i + 1;
    }
    assert rows[i..] == [];
  }

  /** e is the first entry of least non-zero size; or entry 0 when that is unused, which makes init fail. */
  ghost predicate FirstLeast(s: seq<Eraser>, n: nat, e: Eraser)
    requires 0 < n <= |s|
  {
    if s[0].size == 0 then e == s[0]
    else exists k :: 0 <= k < n && LeastAt(s, n, k) && e == s[k]
  }

  ghost predicate LeastAt(s: seq<Eraser>, n: nat, k: nat)
    requires k < n <= |s|
  {
    && s[k].size != 0
    && (forall j :: 0 <= j < k && s[j].size != 0 ==> s[j].size > s[k].size)
    && (forall j :: k <= j < n && s[j].size != 0 ==> s[j].size >= s[k].size)
  }

  /** In a sorted table that is entry 0. */
  lemma LeastOfSorted(s: seq<Eraser>, e: Eraser)
    requires |s| > 0 && Ascending(s) && FirstLeast(s, |s|, e)
    ensures e == s[0]
  {
  }

  /** Take the parameters from the SFDP table; the loop looks for the least eraser. */
  method AdoptSfdp(flash: Flash)
    requires flash.sfdp.eraser.Length == ERASE_TYPES
    modifies flash`capacity, flash`writeMode, flash`eraseGran, flash`eraseGranCmd
    ensures flash.capacity == flash.sfdp.capacity
    ensures flash.writeMode == (if flash.sfdp.writeGran == 1 then BYTE else PAGE_256B)
    ensures FirstLeast(flash.sfdp.eraser[..], ERASE_TYPES, Eraser(flash.eraseGran, flash.eraseGranCmd))
  {
    ghost var s := flash.sfdp.eraser[..];
    flash.capacity := flash.sfdp.capacity;
    flash.writeMode := if flash.sfdp.writeGran == 1 then BYTE else PAGE_256B;
    flash.eraseGran, flash.eraseGranCmd := flash.sfdp.eraser[0].size, flash.sfdp.eraser[0].cmd;
    assert s[0].size != 0 ==> LeastAt(s, 1, 0);
    var i := 1;
    while i < ERASE_TYPES
      invariant 1 <= i <= ERASE_TYPES
      invariant flash.capacity == flash.sfdp.capacity
      invariant flash.writeMode == (if flash.sfdp.writeGran == 1 then BYTE else PAGE_256B)
      invariant FirstLeast(s, i, Eraser(flash.eraseGran, flash.eraseGranCmd))
    {
      ghost var before := Eraser(flash.eraseGran, flash.eraseGranCmd);
      if flash.sfdp.eraser[i].size != 0 && flash.eraseGran > flash.sfdp.eraser[i].size {
        flash.eraseGran, flash.eraseGranCmd := flash.sfdp.eraser[i].size, flash.sfdp.eraser[i].cmd;
      }
      LeastMore(s, i, before, Eraser(flash.eraseGran, flash.eraseGranCmd));
      i := i + 1;
    }
  }

  lemma LeastMore(s: seq<Eraser>, i: nat, e: Eraser, f: Eraser)
    requires 0 < i < |s| && FirstLeast(s, i, e)
    requires f == if s[i].size != 0 && e.size > s[i].size then s[i] else e
    ensures FirstLeast(s, i + 1, f)
  {
    hide LeastAt;
    if s[0].size != 0 {
      var k :| 0 <= k < i && LeastAt(s, i, k) && e == s[k];
      LeastAtMore(s, i, k);
    }
  }

  lemma LeastAtMore(s: seq<Eraser>, i: nat, k: nat)
    requires k < i < |s| && LeastAt(s, i, k)
    ensures s[i].size != 0 && s[k].size > s[i].size ==> LeastAt(s, i + 1, i)
    ensures s[i].size == 0 || s[k].size <= s[i].size ==> LeastAt(s, i + 1, k)
  {
  }

  /** Where the four chip fields come from after the first half of `hardware_init`. */
  ghost predicate FromSfdp(flash: Flash, p: Part)
    reads flash`capacity, flash`writeMode, flash`eraseGran, flash`eraseGranCmd, flash.sfdp, flash.sfdp.eraser
  {
    && flash.sfdp.available
    && SfdpSays(p.sfdp).Some? && Holds(flash.sfdp, SfdpSays(p.sfdp).value)
    && flash.capacity == flash.sfdp.capacity
    && flash.writeMode == (if flash.sfdp.writeGran == 1 then BYTE else PAGE_256B)
    && Eraser(flash.eraseGran, flash.eraseGranCmd) == flash.sfdp.eraser[0]
  }

  ghost predicate FromTable(flash: Flash, p: Part)
    reads flash`capacity, flash`writeMode, flash`eraseGran, flash`eraseGranCmd, flash.sfdp
    requires |p.id| == 3
  {
    && !flash.sfdp.available
    && var row := FirstMatch(CHIPS, p.id[0], p.id[1], p.id[2]);
      row.Some? && flash.capacity == row.value.capacity && flash.writeMode == row.value.writeMode
      && flash.eraseGran == row.value.eraseGran && flash.eraseGranCmd == row.value.eraseGranCmd
  }

  /** The parameters come from where they should. */
  ghost predicate Found(flash: Flash, p: Part)
    reads flash`capacity, flash`writeMode, flash`eraseGran, flash`eraseGranCmd, flash.sfdp, flash.sfdp.eraser
    requires |p.id| == 3
  {
    if SfdpSays(p.sfdp).Some? then FromSfdp(flash, p)
    else if FirstMatch(CHIPS, p.id[0], p.id[1], p.id[2]).Some? then FromTable(flash, p)
    else Incomplete(flash)
  }

  /** Static storage: no SFDP data yet. */
  ghost predicate Blank(info: SfdpInfo)
    reads info, info.eraser
  {
    && !info.available && info.eraser.Length == ERASE_TYPES
    && forall i :: 0 <= i < ERASE_TYPES ==> info.eraser[i] == Eraser(0, 0)
  }

  /** The first half of `hardware_init` for a device whose parameters are not configured. */
  method FindParameters(flash: Flash) returns (err: Err)
    requires flash.spi.chip.WellFormed() && Idle(flash.spi.chip) && Blank(flash.sfdp) && Incomplete(flash)
    modifies flash.spi`chip, flash.spi`faults, flash.spi`bare, flash.spi`intact, flash, flash.sfdp, flash.sfdp.eraser
    ensures flash.spi.Guarded() ==> flash.spi.bare == old(flash.spi.bare)
    ensures flash.spi.chip == old(flash.spi.chip) && flash.initOk == old(flash.initOk)
    ensures err.Success? ==>
      Incomplete(flash) || FromSfdp(flash, flash.spi.chip.part) || FromTable(flash, flash.spi.chip.part)
    ensures err.Success? && flash.sfdp.available ==> FromSfdp(flash, flash.spi.chip.part)
    ensures flash.spi.faults >= old(flash.spi.faults)
    // with the bus at its best: from the SFDP data if they are acceptable, else from the row, else not at all
    ensures flash.spi.faults == old(flash.spi.faults) ==>
      && err.Success?
      && Found(flash, flash.spi.chip.part)
  {
    hide SfdpSays, FirstMatch, Holds, Matches;
    err := ReadJedecId(flash);
    if !err.Success? {
      return;
    }
    assert flash.spi.chip.part.id == [flash.mfId, flash.typeId, flash.capacityId];
    var ok := ReadSfdp(flash);
    if ok {
      AdoptSfdp(flash);
      LeastOfSorted(flash.sfdp.eraser[..], Eraser(flash.eraseGran, flash.eraseGranCmd));
    } else {
      LookUp(flash, CHIPS);
    }
  }

  // ---- what success means

  /** The chip is what its SFDP data, if the driver accepts it, and its row of the table, if it has one, say. */
  ghost predicate Truthful(p: Part)
  {
    && p.WellFormed() && p.size < 0x1_0000_0000
    && (SfdpSays(p.sfdp).Some? ==> SfdpTrue(p, SfdpSays(p.sfdp).value))
    && (var row := FirstMatch(CHIPS, p.id[0], p.id[1], p.id[2]); row.Some? ==> RowTrue(p, row.value))
  }

  ghost predicate SfdpTrue(p: Part, d: Decoded)
  {
    && d.capacity == p.size && !p.dual
    && forall e :: e in d.erasers && e.size != 0 ==> Erases(p, e) && p.size % e.size == 0
  }

  ghost predicate RowTrue(p: Part, row: ChipInfo)
  {
    && row.capacity == p.size && p.dual == Bit(row.writeMode, WM_DUAL_BUFFER)
    && (row.eraseGran > 0 ==> Erases(p, Eraser(row.eraseGran, row.eraseGranCmd)) && p.size % row.eraseGran == 0)
  }

  /** A size the SFDP decoder can produce: none, or a power of two. */
  ghost predicate PowerOrNone(size: nat) { size == 0 || exists n: nat :: size == Pow2(n) }

  lemma {:induction false} UsedTypesArePowers(table: seq<byte>, n: nat)
    requires |table| == 4 * BASIC_TABLE_LEN && n <= ERASE_TYPES
    ensures forall e :: e in UsedTypes(table, n) ==> PowerOrNone(e.size)
  {
    if n > 0 {
      UsedTypesArePowers(table, n - 1);
      ShiftedSmall(table[28 + 2 * (n - 1)]);
    }
  }

  lemma DecodedArePowers(sfdp: seq<byte>)
    requires SfdpSays(sfdp).Some?
    ensures forall e :: e in SfdpSays(sfdp).value.erasers ==> PowerOrNone(e.size)
  {
    var table := Window(sfdp, DecodeHeader(Window(sfdp, 8, 8)).ptp, 4 * BASIC_TABLE_LEN);
    UsedTypesArePowers(table, ERASE_TYPES);
  }

  /** Ascending powers of two form a divisibility chain. */
  lemma PowersChain(a: nat, b: nat)
    requires 0 < a <= b && PowerOrNone(a) && PowerOrNone(b)
    ensures b % a == 0
  {
    var m: nat :| a == Pow2(m);
    var n: nat :| b == Pow2(n);
    if n < m {
      Pow2Divides(n, m);
    } else {
      Pow2Divides(m, n);
    }
  }

  lemma SortedPowersGood(s: seq<Eraser>, gran: Eraser)
    requires |s| == ERASE_TYPES && Ascending(s) && s[0].size > 0
    requires forall i :: 0 <= i < |s| ==> PowerOrNone(s[i].size)
    ensures EraseTable(true, s, gran).WellFormed() && EraseTable(true, s, gran).Chain()
    ensures forall i :: 0 <= i < |s| && s[i].size != 0 ==> s[0].size <= s[i].size
  {
    hide PowerOrNone;
    forall i, j | 0 <= i < j < |s| && s[i].size > 0 && s[j].size > 0 ensures s[j].size % s[i].size == 0 {
      PowersChain(s[i].size, s[j].size);
    }
  }

  /** Whatever the chip says: an accepted SFDP table with a usable first entry meets everything erasing needs, and the
      greedy choice is optimal on it. Its first entry is the least eraser, with its own opcode. */
  lemma SfdpTableGood(flash: Flash, p: Part)
    requires FromSfdp(flash, p) && !Incomplete(flash)
    ensures TableOf(flash).available && TableOf(flash).WellFormed() && TableOf(flash).Chain()
    ensures TableOf(flash).Smallest() == flash.eraseGran
    ensures flash.sfdp.eraser[0] == Eraser(flash.eraseGran, flash.eraseGranCmd)
    ensures forall i :: 0 <= i < ERASE_TYPES && flash.sfdp.eraser[i].size != 0 ==>
      flash.eraseGran <= flash.sfdp.eraser[i].size
  {
    hide PowerOrNone, SfdpSays, Ascending, HolesKept, EraseTable.WellFormed, EraseTable.Chain;
    var d, s := SfdpSays(p.sfdp).value, flash.sfdp.eraser[..];
    DecodedArePowers(p.sfdp);
    forall i | 0 <= i < ERASE_TYPES ensures s[i] in d.erasers {
      SortedFrom(s, d.erasers, i);
    }
    SortedPowersGood(s, Eraser(flash.eraseGran, flash.eraseGranCmd));
  }

  lemma SortedFrom(s: seq<Eraser>, t: seq<Eraser>, i: nat)
    requires multiset(s) == multiset(t) && i < |s|
    ensures s[i] in t
  {
    assert s[i] in multiset(s);
  }

  /** On a chip whose SFDP data are right every entry is one of its erase commands. */
  lemma SfdpTableTrue(flash: Flash, p: Part)
    requires FromSfdp(flash, p) && !Incomplete(flash) && SfdpTrue(p, SfdpSays(p.sfdp).value)
    ensures TableOf(flash).WellFormed() && ErasersDescribed(TableOf(flash), p)
  {
    hide PowerOrNone, SfdpSays, Ascending, HolesKept, EraseTable.WellFormed, EraseTable.Chain;
    SfdpTableGood(flash, p);
    forall i | 0 <= i < ERASE_TYPES ensures flash.sfdp.eraser[i] in SfdpSays(p.sfdp).value.erasers {
      SortedFrom(flash.sfdp.eraser[..], SfdpSays(p.sfdp).value.erasers, i);
    }
  }

  lemma WriteModeBits()
    ensures !Bit(PAGE_256B, WM_DUAL_BUFFER) && !Bit(BYTE, WM_DUAL_BUFFER)
    ensures !Bit(BYTE, WM_AAI) && !Bit(BYTE, WM_PAGE_256B) && Bit(PAGE_256B, WM_PAGE_256B) && !Bit(PAGE_256B, WM_AAI)
  {
    assert Bit(8, 3) <==> Bit(4, 2);
    assert Bit(1, 3) <==> Bit(0, 2);
    assert Bit(1, 2) <==> Bit(0, 1);
    assert Bit(2, 3) <==> Bit(1, 2);
    assert Bit(2, 2) <==> Bit(1, 1);
  }

  /** A device configured in full by the user, correctly. */
  ghost predicate ConfiguredTrue(flash: Flash, p: Part)
    reads flash`capacity, flash`writeMode, flash`eraseGran, flash`eraseGranCmd, flash.sfdp
  {
    && !Incomplete(flash) && !flash.sfdp.available
    && flash.capacity == p.size < 0x1_0000_0000 && p.dual == Bit(flash.writeMode, WM_DUAL_BUFFER)
    && Erases(p, Eraser(flash.eraseGran, flash.eraseGranCmd)) && p.size % flash.eraseGran == 0
  }

  /** The parameters found for a truthful chip, or configured correctly, describe it. */
  lemma ParametersTrue(flash: Flash, p: Part)
    requires p.WellFormed() && !Incomplete(flash)
    requires (Truthful(p) && (FromSfdp(flash, p) || FromTable(flash, p))) || ConfiguredTrue(flash, p)
    ensures flash.capacity == p.size < 0x1_0000_0000 && p.dual == Bit(flash.writeMode, WM_DUAL_BUFFER)
    ensures TableOf(flash).WellFormed() && ErasersDescribed(TableOf(flash), p)
    ensures TableOf(flash).Chain() && TableOf(flash).Smallest() == flash.eraseGran
  {
    hide SfdpSays, FirstMatch;
    WriteModeBits();
    if FromSfdp(flash, p) && Truthful(p) {
      SfdpTableGood(flash, p);
      SfdpTableTrue(flash, p);
    }
  }

  /** The chip's own data, or the user's configuration, is right. */
  ghost predicate Trusted(flash: Flash, p: Part)
    reads flash`capacity, flash`writeMode, flash`eraseGran, flash`eraseGranCmd, flash.sfdp
  {
    if Incomplete(flash) then Truthful(p) else ConfiguredTrue(flash, p)
  }

  /** However the parameters were found, erasing is well defined with them: no modulus is by zero, the erase
      granularity is the least eraser on offer. */
  lemma FoundTableGood(flash: Flash, p: Part)
    requires p.WellFormed() && !Incomplete(flash)
    requires FromSfdp(flash, p) || !flash.sfdp.available
    requires flash.sfdp.eraser.Length == ERASE_TYPES
    ensures TableOf(flash).WellFormed() && TableOf(flash).Chain() && TableOf(flash).Smallest() == flash.eraseGran
    ensures flash.sfdp.available ==> forall i :: 0 <= i < ERASE_TYPES && flash.sfdp.eraser[i].size != 0 ==>
      flash.eraseGran <= flash.sfdp.eraser[i].size
  {
    hide FromSfdp;
    if FromSfdp(flash, p) {
      SfdpTableGood(flash, p);
    }
  }

  /** `hardware_init` and `software_init` on an idle chip. Whatever transport errors occur on the way: if it reports
      success, erasing is well defined, and on a chip whose data are right the driver's beliefs about it are true, so
      every later erase and write is covered by the contracts above. */
  method DeviceInit(flash: Flash, portInit: Err) returns (err: Err, ghost writing: nat)
    requires flash.spi.chip.WellFormed() && Idle(flash.spi.chip) && Blank(flash.sfdp)
    modifies flash.spi`chip, flash.spi`faults, flash.spi`bare, flash.spi`intact, flash, flash.sfdp, flash.sfdp.eraser
    ensures flash.spi.Guarded() ==> flash.spi.bare == old(flash.spi.bare)
    ensures OnlyRegisters(old(flash.spi.chip), flash.spi.chip) && !flash.spi.chip.reg.aai
    ensures flash.initOk <==> err.Success?
    ensures err.Success? ==> !Incomplete(flash) && (flash.addrIn4Byte <==> flash.capacity > 0x100_0000)
    ensures err.Success? ==>
      flash.capacity != 0 && flash.writeMode != 0 && flash.eraseGran != 0 && flash.eraseGranCmd != 0
    // a configuration that has all four parameters is kept, and the chip is not asked
    ensures old(flash.capacity != 0 && flash.writeMode != 0 && flash.eraseGran != 0 && flash.eraseGranCmd != 0) ==>
      && flash.capacity == old(flash.capacity) && flash.writeMode == old(flash.writeMode)
      && flash.eraseGran == old(flash.eraseGran) && flash.eraseGranCmd == old(flash.eraseGranCmd)
      && flash.sfdp.available == old(flash.sfdp.available)
    // driver and chip agree on the address mode exactly unless the race is lost
    ensures err.Success? ==>
      (flash.addrIn4Byte == flash.spi.chip.reg.fourByte <==> !(Races(flash) && writing > 0))
    ensures err.Success? ==> (Attentive(flash.spi.chip) <==>
      !(Hasty(flash) && writing > if flash.capacity > 0x100_0000 then 1 else 0))
    ensures err.Success? && !Unprotects(flash) ==> Idle(flash.spi.chip)
    // whatever the chip says of itself: every modulus of the erase loop is defined, erase_gran is the least eraser
    ensures err.Success? ==>
      TableOf(flash).WellFormed() && TableOf(flash).Chain() && TableOf(flash).Smallest() == flash.eraseGran
    ensures err.Success? && flash.sfdp.available ==>
      forall i :: 0 <= i < ERASE_TYPES && flash.sfdp.eraser[i].size != 0 ==>
        flash.eraseGran <= flash.sfdp.eraser[i].size
    ensures err.Success? && old(Trusted(flash, flash.spi.chip.part)) ==>
      (Described(flash) <==>
        && !(Races(flash) && writing > 0)
        && (old(flash.spi.chip.reg.protect) == 0 || Unprotects(flash)))
    ensures flash.spi.faults >= old(flash.spi.faults)
    // with the bus at its best: the parameters come from where they should, and initialisation fails exactly when the
    // port does, when a parameter is missing, or on a large AAI part that is still writing its status
    ensures flash.spi.faults == old(flash.spi.faults) && Patient(flash) && portInit.Success? ==>
      && (old(flash.capacity == 0 || flash.writeMode == 0 || flash.eraseGran == 0 || flash.eraseGranCmd == 0) ==>
        Found(flash, flash.spi.chip.part))
      && (err.Success? <==> !Incomplete(flash) && !(LargeAai(flash) && writing > 0))
      && flash.spi.chip.reg.busy <= flash.spi.patience
  {
    hide Truthful, ConfiguredTrue, FromSfdp, FromTable, EraseTable.WellFormed, EraseTable.Chain, ErasersDescribed, Bit;
    ghost var trusted := Trusted(flash, flash.spi.chip.part);
    err, writing := portInit, 0;
    if err.Success? && Incomplete(flash) {
      err := FindParameters(flash);
    }
    if err.Success? {
      err, writing := Configure(flash);
    }
    flash.initOk := err.Success?;
    if err.Success? {
      FoundTableGood(flash, flash.spi.chip.part);
    }
    if err.Success? && trusted {
      ParametersTrue(flash, flash.spi.chip.part);
    }
  }
}
