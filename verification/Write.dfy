/** Programming: `page256_or_1_byte_write`, `aai_write`, `sfud_write`, `sfud_erase_write` and `sfud_read`. */
module Writing {
  import opened Alignment
  import opened Bytes
  import opened DriverState
  import opened ErasePlanning
  import opened Erasing
  import opened FlashDevice
  import opened Memory
  import opened NorChip
  import opened Options
  import opened Spi
  import opened WritePlanning

  /** `SFUD_WRITE_MAX_PAGE_SIZE` */
  const MAX_PAGE: nat := 256

  /** A write may be cut short, never go elsewhere: exactly data[..n] is programmed at addr, nothing was refused. */
  ghost predicate Wrote(c: Chip, d: Chip, addr: nat, data: seq<byte>, n: nat)
  {
    && n <= |data|
    && d == Chip(c.part, Programmed(c.mem, addr, data[..n]), d.reg, d.history, c.refused)
    && d.reg.fourByte == c.reg.fourByte && d.reg.protect == c.reg.protect
  }

  /** Build the page program command and send it. `took` bytes of the chunk reached the chip. */
  method SendProgram(flash: Flash, addr: nat, chunk: seq<byte>) returns (err: Err, ghost took: nat)
    requires Described(flash) && flash.spi.chip.reg.Ready() && !flash.spi.chip.reg.aai
    requires addr < flash.capacity && 0 < |chunk| <= MAX_PAGE
    modifies flash.spi`chip, flash.spi`faults, flash.spi`bare, flash.spi`intact
    ensures flash.spi.Guarded() ==> flash.spi.bare == old(flash.spi.bare)
    ensures took <= |chunk| && (err.Success? ==> took == |chunk|)
    ensures var c, d := old(flash.spi.chip), flash.spi.chip;
      if took == 0 then d == c else Accepted(c, d, Program(addr, chunk[..took]))
    ensures flash.spi.faults >= old(flash.spi.faults)
    ensures flash.spi.faults == old(flash.spi.faults) ==> err.Success? && flash.spi.chip.reg.busy <= flash.spi.patience
  {
    hide Execute;
    var cmd := BuildCommand(flash, PAGE_PROGRAM, addr, chunk, 5 + MAX_PAGE);
    ghost var c, h := flash.spi.chip, flash.spi.chip.reg.HeaderLen();
    var read; ghost var sent, dur;
    err, read, sent, dur := flash.spi.Transfer(cmd, 0);
    ProgramCommand(c, addr, chunk, cmd, sent, dur);
    took := if sent > h then sent - h else 0;
  }

  /** The chip's side of a page program command, whole or cut short. */
  lemma ProgramCommand(c: Chip, addr: nat, chunk: seq<byte>, cmd: seq<byte>, sent: nat, dur: nat)
    requires c.WellFormed() && c.reg.Ready() && !c.reg.aai && addr < c.part.size
    requires sent <= |cmd| == c.reg.HeaderLen() + |chunk| && cmd[0] == PAGE_PROGRAM
    requires BigEndian(cmd[1..c.reg.HeaderLen()]) == addr && cmd[c.reg.HeaderLen()..] == chunk
    ensures var d, h := Execute(c, cmd[..sent], dur), c.reg.HeaderLen();
      if sent <= h then d == c else Accepted(c, d, Program(addr, chunk[..sent - h]))
  {
    var h, got := c.reg.HeaderLen(), cmd[..sent];
    if sent > h {
      assert got[1..h] == cmd[1..h] && got[h..] == chunk[..sent - h];
      assert Decode(c.part, c.reg, got) == Some(Program(addr, chunk[..sent - h]));
    } else if sent > 0 {
      assert got[0] == PAGE_PROGRAM;
      assert Decode(c.part, c.reg, got) == None;
    }
  }

  /** One turn of the page loop: enable writing, send the chunk, wait. */
  method WriteOne(flash: Flash, addr: nat, chunk: seq<byte>) returns (err: Err, ghost took: nat)
    requires Described(flash) && Attentive(flash.spi.chip)
    requires addr < flash.capacity && 0 < |chunk| <= MAX_PAGE
    modifies flash.spi`chip, flash.spi`faults, flash.spi`bare, flash.spi`intact
    ensures flash.spi.Guarded() ==> flash.spi.bare == old(flash.spi.bare)
    ensures took <= |chunk|
    ensures Attempted(old(flash.spi.chip), flash.spi.chip, Program(addr, chunk[..took]), took > 0)
    ensures err.Success? ==> took == |chunk| && Idle(flash.spi.chip) && !flash.spi.chip.reg.wel
    ensures flash.spi.faults >= old(flash.spi.faults)
    // with the bus at its best it succeeds exactly on an idle chip
    ensures flash.spi.faults == old(flash.spi.faults) && Patient(flash) ==>
      (err.Success? <==> old(flash.spi.chip.reg.busy) == 0) && Attentive(flash.spi.chip)
  {
    took := 0;
    err := SetWriteEnabled(flash, true);
    if err.Success? {
      err, took := SendProgram(flash, addr, chunk);
      if err.Success? {
        ghost var answers;
        err, answers := WaitBusy(flash);
      }
    }
  }

  /** What one accepted or refused chunk does to a write in progress. */
  lemma WroteMore(c: Chip, d: Chip, e: Chip, addr: nat, data: seq<byte>, k: nat, chunk: seq<byte>, took: nat)
    requires Wrote(c, d, addr, data, k) && k + |chunk| <= |data| && chunk == data[k..k + |chunk|]
    requires (addr + k) % PAGE + |chunk| <= PAGE && took <= |chunk|
    requires Attempted(d, e, Program(addr + k, chunk[..took]), took > 0)
    ensures Wrote(c, e, addr, data, k + took)
  {
    assert chunk[..took] == data[k..k + took];
    if took > 0 {
      ProgrammedMore(c.mem, addr, data, k, took);
    }
  }

  lemma WroteNothing(c: Chip, addr: nat, data: seq<byte>)
    ensures Wrote(c, c, addr, data, 0)
  {
    assert Programmed(c.mem, addr, data[..0]) == c.mem;
  }

  /** Program data at addr, a page or a byte per command. */
  method Page256Or1ByteWrite(flash: Flash, addr: nat, writeGran: nat, data: seq<byte>)
    returns (err: Err, ghost written: nat)
    requires Described(flash) && flash.initOk && Attentive(flash.spi.chip)
    requires writeGran == 1 || writeGran == 256
    requires addr + |data| < 0x1_0000_0000_0000_0000
    modifies flash.spi
    // all transactions are made with the bus locked
    ensures (flash.spi.locking ==> old(flash.spi.depth) >= 0) ==> flash.spi.bare == old(flash.spi.bare)
    // and when those of the exit path arrive, they leave the chip write-disabled
    ensures addr + |data| <= flash.capacity && flash.spi.intact > 0 ==> WriteDisabled(flash.spi.chip)
    ensures flash.spi.depth == old(flash.spi.depth) && Described(flash)
    ensures addr + |data| > flash.capacity ==> err.OutOfBound? && flash.spi.chip == old(flash.spi.chip)
    ensures Wrote(old(flash.spi.chip), flash.spi.chip, addr, data, written) && !flash.spi.chip.reg.aai
    ensures err.Success? ==> addr + |data| <= flash.capacity && written == |data| && Attentive(flash.spi.chip)
    ensures err.Success? && (data != [] || old(Idle(flash.spi.chip))) ==> Idle(flash.spi.chip)
    ensures err.Success? ==> flash.spi.chip.history == old(flash.spi.chip.history) + PagePlan(writeGran, addr, data)
    ensures err.Success? && data != [] ==> !flash.spi.chip.reg.wel
    ensures flash.spi.faults >= old(flash.spi.faults)
    // with the bus at its best it succeeds exactly on an idle chip, or with nothing to do
    ensures flash.spi.faults == old(flash.spi.faults) && Patient(flash) ==>
      && (err.Success? <==> addr + |data| <= flash.capacity && (data == [] || old(flash.spi.chip.reg.busy) == 0))
      && Attentive(flash.spi.chip)
  {
    written := 0;
    WroteNothing(flash.spi.chip, addr, data);
    if addr + |data| > flash.capacity {
      return OutOfBound, 0;
    }
    flash.spi.Lock();
    err, written := WritePages(flash, addr, writeGran, data);
    var ignored := SetWriteEnabled(flash, false);
    flash.spi.Unlock();
  }

  /** The loop of `page256_or_1_byte_write`, up to its exit label. */
  method WritePages(flash: Flash, addr: nat, writeGran: nat, data: seq<byte>) returns (err: Err, ghost written: nat)
    requires Described(flash) && Attentive(flash.spi.chip) && addr + |data| <= flash.capacity
    requires writeGran == 1 || writeGran == 256
    modifies flash.spi`chip, flash.spi`faults, flash.spi`bare, flash.spi`intact
    ensures flash.spi.Guarded() ==> flash.spi.bare == old(flash.spi.bare)
    ensures Wrote(old(flash.spi.chip), flash.spi.chip, addr, data, written) && !flash.spi.chip.reg.aai
    ensures err.Success? ==> written == |data| && Attentive(flash.spi.chip)
    ensures err.Success? && (data != [] || old(Idle(flash.spi.chip))) ==> Idle(flash.spi.chip)
    ensures err.Success? ==> flash.spi.chip.history == old(flash.spi.chip.history) + PagePlan(writeGran, addr, data)
    ensures err.Success? && data != [] ==> !flash.spi.chip.reg.wel
    ensures flash.spi.faults >= old(flash.spi.faults)
    // with the bus at its best it succeeds exactly on an idle chip, or with nothing to do
    ensures flash.spi.faults == old(flash.spi.faults) && Patient(flash) ==>
      (err.Success? <==> data == [] || old(flash.spi.chip.reg.busy) == 0) && Attentive(flash.spi.chip)
  {
    hide PagePlan, ChunkLength, Effect, Programmed;
    ghost var c := flash.spi.chip;
    var k: nat := 0;
    err, written := Success, 0;
    assert data[0..] == data;
    WroteNothing(c, addr, data);
    while k < |data|
      invariant k <= |data| && written == k && err.Success?
      invariant Wrote(c, flash.spi.chip, addr, data, k) && Attentive(flash.spi.chip)
      invariant k == 0 ==> flash.spi.chip == c
      invariant flash.spi.chip.history + PagePlan(writeGran, addr + k, data[k..])
        == c.history + PagePlan(writeGran, addr, data)
      invariant k > 0 ==> Idle(flash.spi.chip) && !flash.spi.chip.reg.wel
      invariant flash.spi.faults >= old(flash.spi.faults)
      invariant flash.spi.Guarded() ==> flash.spi.bare == old(flash.spi.bare)
      invariant flash.spi.faults == old(flash.spi.faults) && Patient(flash) && k > 0 ==> c.reg.busy == 0
    {
      var n := ChunkLength(writeGran, addr + k, |data| - k);
      PagePlanAdvance(writeGran, addr, data, k, n);
      ghost var before, took := flash.spi.chip, 0;
      err, took := WriteOne(flash, addr + k, data[k..k + n]);
      WroteMore(c, before, flash.spi.chip, addr, data, k, data[k..k + n], took);
      written := k + took;
      if !err.Success? {
        break;
      }
      assert data[k..k + n][..took] == data[k..k + n];
      k := k + n;
    }
    if k == |data| {
      assert data[k..] == [];
      PagePlanOfNothing(writeGran, addr + k);
    }
  }

  lemma PagePlanAdvance(gran: nat, addr: nat, data: seq<byte>, k: nat, n: nat)
    requires (gran == 1 || gran == 256) && k < |data| && n == ChunkLength(gran, addr + k, |data| - k)
    ensures 0 < n <= |data| - k && (addr + k) % PAGE + n <= PAGE
    ensures PagePlan(gran, addr + k, data[k..])
      == [Program(addr + k, data[k..k + n])] + PagePlan(gran, addr + k + n, data[k + n..])
  {
    assert data[k..][..n] == data[k..k + n] && data[k..][n..] == data[k + n..];
  }

  lemma PagePlanOfNothing(gran: nat, addr: nat)
    requires gran > 0
    ensures PagePlan(gran, addr, []) == []
  {
  }

  /** d is c after it accepted the word at a: the AAI sequence is open and its pointer is behind the word. */
  ghost predicate AcceptedWord(c: Chip, d: Chip, a: nat, word: seq<byte>)
  {
    && d == Chip(c.part, Effect(c.mem, Program(a, word)), d.reg, c.history + [Program(a, word)], c.refused)
    && d.reg.Settled() == c.reg.(wel := true, aai := true, aaiPtr := a + 2)
  }

  /** Send one AAI word: with an address when it is the first, else at the chip's own pointer. */
  method SendWord(flash: Flash, first: bool, addr: nat, word: seq<byte>) returns (err: Err)
    requires flash.spi.chip.WellFormed() && flash.spi.chip.reg.Ready()
    requires flash.addrIn4Byte == flash.spi.chip.reg.fourByte
    requires addr < flash.spi.chip.part.size < 0x1_0000_0000 && (addr < 0x100_0000 || flash.addrIn4Byte)
    requires addr % 2 == 0 && |word| == 2
    requires flash.spi.chip.reg.aai == !first && (!first ==> flash.spi.chip.reg.aaiPtr == addr)
    modifies flash.spi`chip, flash.spi`faults, flash.spi`bare, flash.spi`intact
    ensures flash.spi.Guarded() ==> flash.spi.bare == old(flash.spi.bare)
    ensures var c, d := old(flash.spi.chip), flash.spi.chip;
      (d == c && !err.Success?) || AcceptedWord(c, d, addr, word)
    ensures flash.spi.faults >= old(flash.spi.faults)
    ensures flash.spi.faults == old(flash.spi.faults) ==> err.Success? && flash.spi.chip.reg.busy <= flash.spi.patience
  {
    hide Execute;
    var cmd: seq<byte>;
    if first {
      cmd := BuildCommand(flash, AAI_WORD_PROGRAM, addr, word, 8);
    } else {
      cmd := [AAI_WORD_PROGRAM] + word;
    }
    ghost var c := flash.spi.chip;
    var read; ghost var sent, dur;
    err, read, sent, dur := flash.spi.Transfer(cmd, 0);
    WordCommand(c, first, addr, word, cmd, sent, dur);
    assert cmd[..|cmd|] == cmd;
  }

  lemma WordCommand(c: Chip, first: bool, addr: nat, word: seq<byte>, cmd: seq<byte>, sent: nat, dur: nat)
    requires c.WellFormed() && c.reg.Ready() && addr < c.part.size && addr % 2 == 0 && |word| == 2
    requires c.reg.aai == !first && (!first ==> c.reg.aaiPtr == addr)
    requires sent <= |cmd| == (if first then c.reg.HeaderLen() else 1) + 2
    requires cmd[0] == AAI_WORD_PROGRAM && cmd[|cmd| - 2..] == word
    requires first ==> BigEndian(cmd[1..c.reg.HeaderLen()]) == addr
    ensures var d := Execute(c, cmd[..sent], dur);
      if sent < |cmd| then d == c else AcceptedWord(c, d, addr, word)
  {
    var got := cmd[..sent];
    if sent == |cmd| {
      assert got == cmd;
      if !first { assert cmd[1..] == word; }
      assert Decode(c.part, c.reg, got) == Some(Program(addr, word));
    } else if sent > 0 {
      assert got[0] == AAI_WORD_PROGRAM;
      assert Decode(c.part, c.reg, got) == None;
    }
  }

  /** A word whose wait fails can leave the chip inside the AAI sequence: while the word is being programmed the exit
      path's write disable is not heard, and once it is done reads are not served. */
  lemma AaiLeftBehind(c: Chip, addr: nat, word: seq<byte>, cmd: seq<byte>, dur: nat, k: nat, read: seq<byte>, n: nat)
    requires c.WellFormed() && c.reg.Ready() && !c.reg.aai && addr < c.part.size && addr % 2 == 0 && |word| == 2
    requires |cmd| == c.reg.HeaderLen() + 2 && cmd[0] == AAI_WORD_PROGRAM && cmd[|cmd| - 2..] == word
    requires BigEndian(cmd[1..c.reg.HeaderLen()]) == addr
    requires read != [] && read[0] == READ_DATA
    ensures var d := Polls(Execute(c, cmd, dur), k);
      && d.reg.aai && (d.reg.busy > 0 <==> k < dur)
      && (k < dur ==> Execute(d, [WRITE_DISABLE], 0) == d)
      && Reply(d, read, n) == seq(n, _ => DUMMY)
  {
    hide Execute, Polls;
    var d := Execute(c, cmd, dur);
    WordCommand(c, true, addr, word, cmd, |cmd|, dur);
    assert cmd[..|cmd|] == cmd;
    WordBusy(c, addr, word, cmd, dur);
    PollsAre(d, k);
    RegisterCommand(Polls(d, k), [WRITE_DISABLE], 0, 0);
  }

  lemma WordBusy(c: Chip, addr: nat, word: seq<byte>, cmd: seq<byte>, dur: nat)
    requires c.WellFormed() && c.reg.Ready() && !c.reg.aai
    requires cmd != [] && cmd[0] == AAI_WORD_PROGRAM && Execute(c, cmd, dur) != c
    ensures Execute(c, cmd, dur).reg.busy == dur
  {
  }

  /** Inside the AAI loop: data[..k] is programmed, and the chip is ready for the next word. */
  ghost predicate InAai(c: Chip, d: Chip, addr: nat, data: seq<byte>, k: nat, first: bool)
  {
    && Wrote(c, d, addr, data, k)
    && d.reg.busy == 0 && d.reg.wel && d.reg.aai == !first && (!first ==> d.reg.aaiPtr == addr + k)
  }

  lemma WordWritten(c: Chip, d: Chip, e: Chip, addr: nat, data: seq<byte>, k: nat)
    requires Wrote(c, d, addr, data, k) && k + 2 <= |data| && (addr + k) % 2 == 0
    requires AcceptedWord(d, e, addr + k, data[k..k + 2])
    ensures Wrote(c, e, addr, data, k + 2)
  {
    ProgrammedMore(c.mem, addr, data, k, 2);
    assert e.reg.Settled().fourByte == e.reg.fourByte && e.reg.Settled().protect == e.reg.protect;
  }

  /** A chip an AAI write of this data can start on: attentive; or, when there is nothing to write, any that is not
      busy, because the write then only sends write enable and write disable, which ends an AAI sequence. */
  predicate Startable(c: Chip, data: seq<byte>) { Attentive(c) || (c.reg.busy == 0 && data == []) }

  /** The word loop of `aai_write`: all complete words of data from an even address. */
  method WriteWords(flash: Flash, addr: nat, data: seq<byte>) returns (err: Err, ghost written: nat, k: nat)
    requires Described(flash) && flash.spi.chip.reg.busy == 0 && flash.spi.chip.reg.wel
    requires data != [] ==> !flash.spi.chip.reg.aai
    requires addr % 2 == 0 && addr + |data| <= flash.capacity
    modifies flash.spi`chip, flash.spi`faults, flash.spi`bare, flash.spi`intact
    ensures flash.spi.Guarded() ==> flash.spi.bare == old(flash.spi.bare)
    ensures Wrote(old(flash.spi.chip), flash.spi.chip, addr, data, written)
    ensures err.Success? ==> written == k <= |data| && |data| - k < 2 && (addr + k) % 2 == 0
    ensures err.Success? ==> flash.spi.chip.reg.busy == 0
    ensures err.Success? ==>
      flash.spi.chip.history + WordPlan(addr + k, data[k..]) == old(flash.spi.chip.history) + WordPlan(addr, data)
    ensures flash.spi.faults >= old(flash.spi.faults)
    ensures flash.spi.faults == old(flash.spi.faults) && Patient(flash) ==> err.Success?
  {
    hide WordPlan, Effect, Programmed, Bit, ErasersDescribed, EraseTable.WellFormed;
    ghost var c := flash.spi.chip;
    var first := true;
    err, k, written := Success, 0, 0;
    assert data[0..] == data;
    WroteNothing(c, addr, data);
    while |data| - k >= 2
      invariant k <= |data| && (addr + k) % 2 == 0 && written == k && err.Success?
      invariant data == [] ==> flash.spi.chip == c
      invariant data != [] ==> InAai(c, flash.spi.chip, addr, data, k, first)
      invariant flash.spi.faults >= old(flash.spi.faults)
      invariant flash.spi.Guarded() ==> flash.spi.bare == old(flash.spi.bare)
      invariant flash.spi.chip.history + WordPlan(addr + k, data[k..]) == c.history + WordPlan(addr, data)
    {
      WordPlanAdvance(addr, data, k);
      ghost var before := flash.spi.chip;
      err := SendWord(flash, first, addr + k, data[k..k + 2]);
      if flash.spi.chip != before {
        WordWritten(c, before, flash.spi.chip, addr, data, k);
        written := k + 2;
      }
      if !err.Success? {
        break;
      }
      first := false;
      ghost var answers;
      err, answers := WaitBusy(flash);
      if !err.Success? {
        break;
      }
      k := k + 2;
    }
  }

  lemma WordPlanAdvance(addr: nat, data: seq<byte>, k: nat)
    requires k + 2 <= |data|
    ensures WordPlan(addr + k, data[k..]) == [Program(addr + k, data[k..k + 2])] + WordPlan(addr + k + 2, data[k + 2..])
  {
    assert data[k..][..2] == data[k..k + 2] && data[k..][2..] == data[k + 2..];
  }

  lemma WroteJoin(c: Chip, d: Chip, e: Chip, addr: nat, data: seq<byte>, k: nat, n: nat)
    requires Wrote(c, d, addr, data, k) && Wrote(d, e, addr + k, data[k..], n)
    ensures Wrote(c, e, addr, data, k + n)
  {
    ProgrammedJoin(c.mem, addr, data[..k], data[k..][..n]);
    assert data[..k] + data[k..][..n] == data[..k + n];
  }

  lemma WroteLess(c: Chip, d: Chip, addr: nat, data: seq<byte>, part: seq<byte>, n: nat)
    requires part <= data && Wrote(c, d, addr, part, n)
    ensures Wrote(c, d, addr, data, n)
  {
    assert part[..n] == data[..n];
  }

  lemma OneBytePlan(addr: nat, b: byte)
    ensures PagePlan(1, addr, [b]) == [Program(addr, [b])] == WordPlan(addr, [b])
  {
    assert [b][..1] == [b] && [b][1..] == [];
    assert PagePlan(1, addr + 1, []) == [];
  }

  /** `aai_write` up to its exit label: odd head byte, words, leave AAI mode, odd tail byte. */
  method AaiSteps(flash: Flash, addr: nat, data: seq<byte>) returns (err: Err, ghost written: nat)
    requires Described(flash) && flash.initOk && Startable(flash.spi.chip, data)
    requires addr + |data| <= flash.capacity && (addr % 2 == 0 || data != [])
    modifies flash.spi
    ensures old(flash.spi.Guarded()) ==> flash.spi.bare == old(flash.spi.bare)
    ensures err.Success? && flash.spi.intact > 0 ==> WriteDisabled(flash.spi.chip)
    ensures flash.spi.depth == old(flash.spi.depth)
    ensures Wrote(old(flash.spi.chip), flash.spi.chip, addr, data, written)
    ensures err.Success? ==> written == |data| && Idle(flash.spi.chip)
    ensures err.Success? ==> flash.spi.chip.history == old(flash.spi.chip.history) + AaiPlan(addr, data)
    ensures flash.spi.faults >= old(flash.spi.faults)
    // with the bus at its best it succeeds exactly on an idle chip
    ensures flash.spi.faults == old(flash.spi.faults) && Patient(flash) ==>
      (err.Success? <==> old(flash.spi.chip.reg.busy) == 0) && Attentive(flash.spi.chip)
  {
    hide Programmed, PagePlan, WordPlan;
    ghost var c := flash.spi.chip;
    var k: nat := 0;
    written := 0;
    WroteNothing(c, addr, data);
    if addr % 2 != 0 {
      err, written := Page256Or1ByteWrite(flash, addr, 1, data[..1]);
      WroteLess(c, flash.spi.chip, addr, data, data[..1], written);
      if !err.Success? {
        return;
      }
      OneBytePlan(addr, data[0]);
      assert data[..1] == [data[0]];
      k := 1;
    }
    assert data[0..] == data;
    assert flash.spi.chip.history + WordPlan(addr + k, data[k..]) == c.history + AaiPlan(addr, data);
    err, written := WordsAndTail(flash, c, addr, data, k);
  }

  /** The part of `aai_write` behind the odd head byte. */
  method WordsAndTail(flash: Flash, ghost c: Chip, addr: nat, data: seq<byte>, head: nat)
    returns (err: Err, ghost written: nat)
    requires Described(flash) && flash.initOk && addr + |data| <= flash.capacity
    requires Wrote(c, flash.spi.chip, addr, data, head) && (addr + head) % 2 == 0
    requires Startable(flash.spi.chip, data[head..])
    modifies flash.spi
    ensures old(flash.spi.Guarded()) ==> flash.spi.bare == old(flash.spi.bare)
    ensures err.Success? && flash.spi.intact > 0 ==> WriteDisabled(flash.spi.chip)
    ensures flash.spi.depth == old(flash.spi.depth)
    ensures Wrote(c, flash.spi.chip, addr, data, written)
    ensures err.Success? ==> written == |data| && Idle(flash.spi.chip)
    ensures err.Success? ==>
      flash.spi.chip.history == old(flash.spi.chip.history) + WordPlan(addr + head, data[head..])
    ensures flash.spi.faults >= old(flash.spi.faults)
    // with the bus at its best it succeeds exactly on an idle chip
    ensures flash.spi.faults == old(flash.spi.faults) && Patient(flash) ==>
      (err.Success? <==> old(flash.spi.chip.reg.busy) == 0) && Attentive(flash.spi.chip)
  {
    hide Programmed, PagePlan, WordPlan, Bit, ErasersDescribed, EraseTable.WellFormed, Registers.Polled;
    var a, rest := addr + head, data[head..];
    written := head;
    err := SetWriteEnabled(flash, true);
    if !err.Success? {
      return;
    }
    ghost var before, w := flash.spi.chip, 0;
    var k;
    err, w, k := WriteWords(flash, a, rest);
    WroteJoin(c, before, flash.spi.chip, addr, data, head, w);
    written := head + w;
    if !err.Success? {
      return;
    }
    assert rest[k..] == data[head + k..];
    err, written := LeaveAai(flash, c, addr, data, head + k);
  }

  /** The end of `aai_write`: write disable, which leaves AAI mode, and the odd tail byte. */
  method LeaveAai(flash: Flash, ghost c: Chip, addr: nat, data: seq<byte>, at: nat)
    returns (err: Err, ghost written: nat)
    requires Described(flash) && flash.initOk && flash.spi.chip.reg.busy == 0 && addr + |data| <= flash.capacity
    requires at <= |data| < at + 2 && Wrote(c, flash.spi.chip, addr, data, at)
    modifies flash.spi
    ensures old(flash.spi.Guarded()) ==> flash.spi.bare == old(flash.spi.bare)
    ensures err.Success? && flash.spi.intact > 0 ==> WriteDisabled(flash.spi.chip)
    ensures flash.spi.depth == old(flash.spi.depth)
    ensures Wrote(c, flash.spi.chip, addr, data, written)
    ensures err.Success? ==> written == |data| && Idle(flash.spi.chip)
    ensures err.Success? ==>
      flash.spi.chip.history == old(flash.spi.chip.history) + WordPlan(addr + at, data[at..])
    ensures flash.spi.faults >= old(flash.spi.faults)
    ensures flash.spi.faults == old(flash.spi.faults) && Patient(flash) ==> err.Success?
  {
    hide Programmed, PagePlan, WordPlan, Bit, ErasersDescribed, EraseTable.WellFormed, Registers.Polled;
    var tail := data[at..];
    written := at;
    err := SetWriteEnabled(flash, false);
    if err.Success? && |tail| == 1 {
      ghost var before, w := flash.spi.chip, 0;
      assert tail == [tail[0]];
      OneBytePlan(addr + at, tail[0]);
      err, w := Page256Or1ByteWrite(flash, addr + at, 1, tail);
      WroteJoin(c, before, flash.spi.chip, addr, data, at, w);
      written := at + w;
    } else if err.Success? {
      assert tail == [];
      WordPlanOfNothing(addr + at);
    }
  }

  lemma WordPlanOfNothing(addr: nat)
    ensures WordPlan(addr, []) == []
  {
  }

  /** Program data at addr with auto address increment. */
  method AaiWrite(flash: Flash, addr: nat, data: seq<byte>) returns (err: Err, ghost written: nat)
    requires Described(flash) && flash.initOk && Startable(flash.spi.chip, data)
    requires addr + |data| < 0x1_0000_0000_0000_0000
    requires addr % 2 == 0 || data != []  // at an odd address the first byte is read and the size decremented unchecked
    modifies flash.spi
    // all transactions are made with the bus locked
    ensures (flash.spi.locking ==> old(flash.spi.depth) >= 0) ==> flash.spi.bare == old(flash.spi.bare)
    // and when those of the exit path arrive, they leave the chip write-disabled
    ensures addr + |data| <= flash.capacity && flash.spi.intact > 0 ==> WriteDisabled(flash.spi.chip)
    ensures flash.spi.depth == old(flash.spi.depth) && Described(flash)
    ensures addr + |data| > flash.capacity ==> err.OutOfBound? && flash.spi.chip == old(flash.spi.chip)
    ensures Wrote(old(flash.spi.chip), flash.spi.chip, addr, data, written)
    ensures err.Success? ==> addr + |data| <= flash.capacity && written == |data| && Idle(flash.spi.chip)
    ensures err.Success? ==> flash.spi.chip.history == old(flash.spi.chip.history) + AaiPlan(addr, data)
    ensures flash.spi.faults >= old(flash.spi.faults)
    // with the bus at its best it succeeds exactly on an idle chip
    ensures flash.spi.faults == old(flash.spi.faults) && Patient(flash) ==>
      && (err.Success? <==> addr + |data| <= flash.capacity && old(flash.spi.chip.reg.busy) == 0)
      && (err.Success? || old(Attentive(flash.spi.chip)) ==> Attentive(flash.spi.chip))
  {
    written := 0;
    WroteNothing(flash.spi.chip, addr, data);
    if addr + |data| > flash.capacity {
      return OutOfBound, 0;
    }
    flash.spi.Lock();
    err, written := AaiSteps(flash, addr, data);
    if !err.Success? {
      var ignored := SetWriteEnabled(flash, false);
    }
    flash.spi.Unlock();
  }

  /** The array operations a successful `sfud_write` adds, by write mode; other modes write nothing. */
  ghost function WriteOps(writeMode: nat, addr: nat, data: seq<byte>): seq<ArrayOp>
  {
    if Bit(writeMode, WM_PAGE_256B) then PagePlan(256, addr, data)
    else if Bit(writeMode, WM_AAI) then AaiPlan(addr, data)
    else []
  }

  /** A mode `sfud_write` implements. */
  predicate CanWrite(writeMode: nat) { Bit(writeMode, WM_PAGE_256B) || Bit(writeMode, WM_AAI) }

  /** A chip written word by word. */
  predicate AaiOnly(writeMode: nat) { !Bit(writeMode, WM_PAGE_256B) && Bit(writeMode, WM_AAI) }

  /** `sfud_write`: program data at addr. */
  method Write(flash: Flash, addr: nat, data: seq<byte>) returns (err: Err, ghost written: nat)
    requires Described(flash) && flash.initOk
    requires Attentive(flash.spi.chip) || (AaiOnly(flash.writeMode) && Startable(flash.spi.chip, data))
    requires addr + |data| < 0x1_0000_0000_0000_0000
    requires AaiOnly(flash.writeMode) ==> addr % 2 == 0 || data != []
    modifies flash.spi
    // all transactions are made with the bus locked
    ensures (flash.spi.locking ==> old(flash.spi.depth) >= 0) ==> flash.spi.bare == old(flash.spi.bare)
    // and when those of the exit path arrive, they leave the chip write-disabled
    ensures addr + |data| <= flash.capacity && CanWrite(flash.writeMode) && flash.spi.intact > 0 ==>
      WriteDisabled(flash.spi.chip)
    ensures flash.spi.depth == old(flash.spi.depth) && Described(flash)
    ensures Wrote(old(flash.spi.chip), flash.spi.chip, addr, data, written)
    ensures Between(old(flash.spi.chip.mem), flash.spi.chip.mem, Programmed(old(flash.spi.chip.mem), addr, data))
    ensures CanWrite(flash.writeMode) && addr + |data| > flash.capacity ==>
      err.OutOfBound? && flash.spi.chip == old(flash.spi.chip)
    ensures err.Success? ==> Attentive(flash.spi.chip)
    ensures !AaiOnly(flash.writeMode) ==> !flash.spi.chip.reg.aai
    ensures err.Success? && ((data != [] && CanWrite(flash.writeMode)) || AaiOnly(flash.writeMode)) ==>
      Idle(flash.spi.chip)
    ensures err.Success? && old(Idle(flash.spi.chip)) ==> Idle(flash.spi.chip)
    ensures err.Success? ==>
      flash.spi.chip.history == old(flash.spi.chip.history) + WriteOps(flash.writeMode, addr, data)
    ensures err.Success? && CanWrite(flash.writeMode) ==> addr + |data| <= flash.capacity && written == |data|
    ensures err.Success? && CanWrite(flash.writeMode) ==>
      flash.spi.chip.mem == Programmed(old(flash.spi.chip.mem), addr, data)
    // any other mode reports success and leaves the chip alone
    ensures !CanWrite(flash.writeMode) ==>
      err.Success? && flash.spi.chip == old(flash.spi.chip) && flash.spi.intact == old(flash.spi.intact)
    // by the bits of the mode: page commands with bit 0, words with bit 2 and not bit 0, else nothing
    ensures err.Success? && flash.writeMode % 2 == 1 ==>
      flash.spi.chip.history == old(flash.spi.chip.history) + PagePlan(256, addr, data)
    ensures err.Success? && flash.writeMode % 2 == 0 && flash.writeMode / 4 % 2 == 1 ==>
      flash.spi.chip.history == old(flash.spi.chip.history) + AaiPlan(addr, data)
    ensures flash.writeMode % 2 == 0 && flash.writeMode / 4 % 2 == 0 ==>
      err.Success? && flash.spi.chip == old(flash.spi.chip)
    ensures flash.spi.faults >= old(flash.spi.faults)
    // with the bus at its best an implemented mode succeeds exactly on an idle chip, or in page mode with nothing to do
    ensures flash.spi.faults == old(flash.spi.faults) && Patient(flash) ==>
      && (CanWrite(flash.writeMode) ==>
        (err.Success? <==>
          && addr + |data| <= flash.capacity
          && (old(flash.spi.chip.reg.busy) == 0 || (data == [] && Bit(flash.writeMode, WM_PAGE_256B)))))
      && (err.Success? || old(Attentive(flash.spi.chip)) ==> Attentive(flash.spi.chip))
  {
    err, written := Success, 0;
    WroteNothing(flash.spi.chip, addr, data);
    ModeBits(flash.writeMode);
    ghost var c := flash.spi.chip;
    if Bit(flash.writeMode, WM_PAGE_256B) {
      err, written := Page256Or1ByteWrite(flash, addr, 256, data);
    } else if Bit(flash.writeMode, WM_AAI) {
      err, written := AaiWrite(flash, addr, data);
    }
    PrefixBetween(c.mem, addr, data, written);
    assert written == |data| ==> data[..written] == data;
  }

  lemma ModeBits(mode: nat)
    ensures Bit(mode, WM_PAGE_256B) <==> mode % 2 == 1
    ensures Bit(mode, WM_AAI) <==> mode / 4 % 2 == 1
  {
    BitIs(mode, 2);
    assert Pow2(2) == 4;
  }

  /** `sfud_read`: wait until idle, then read [addr, addr + size). */
  method Read(flash: Flash, addr: nat, size: nat) returns (err: Err, data: seq<byte>)
    requires Described(flash) && flash.initOk && addr + size < 0x1_0000_0000_0000_0000
    modifies flash.spi
    // all transactions are made with the bus locked
    ensures (flash.spi.locking ==> old(flash.spi.depth) >= 0) ==> flash.spi.bare == old(flash.spi.bare)
    ensures flash.spi.depth == old(flash.spi.depth) && Described(flash)
    ensures Quiet(old(flash.spi.chip), flash.spi.chip)
    ensures addr + size > flash.capacity ==> err.OutOfBound? && flash.spi.chip == old(flash.spi.chip)
    // a chip still inside an AAI sequence does not serve reads, and the driver cannot tell
    ensures err.Success? ==> addr + size <= flash.capacity
    ensures err.Success? ==>
      data == if flash.spi.chip.reg.aai then seq(size, _ => DUMMY) else flash.spi.chip.mem[addr..addr + size]
    ensures err.Success? ==> flash.spi.chip.reg == old(flash.spi.chip.reg.Settled())
    ensures flash.spi.faults >= old(flash.spi.faults)
    // with the bus at its best it succeeds exactly when the operation in progress ends within the allowed polls
    ensures flash.spi.faults == old(flash.spi.faults) ==>
      (err.Success? <==> addr + size <= flash.capacity && old(flash.spi.chip.reg.busy) <= flash.retryTimes)
  {
    if addr + size > flash.capacity {
      return OutOfBound, [];
    }
    flash.spi.Lock();
    ghost var answers;
    err, answers := WaitBusy(flash);
    data := [];
    if err.Success? {
      err, data := SendRead(flash, addr, size);
    }
    flash.spi.Unlock();
  }

  method SendRead(flash: Flash, addr: nat, size: nat) returns (err: Err, data: seq<byte>)
    requires Described(flash) && flash.spi.chip.reg.busy == 0 && addr + size <= flash.capacity
    modifies flash.spi`chip, flash.spi`faults, flash.spi`bare, flash.spi`intact
    ensures flash.spi.Guarded() ==> flash.spi.bare == old(flash.spi.bare)
    ensures flash.spi.chip == old(flash.spi.chip)
    ensures err.Success? ==>
      data == if flash.spi.chip.reg.aai then seq(size, _ => DUMMY) else flash.spi.chip.mem[addr..addr + size]
    ensures flash.spi.faults >= old(flash.spi.faults) && (flash.spi.faults == old(flash.spi.faults) ==> err.Success?)
  {
    hide Execute, Reply;
    var cmd := BuildCommand(flash, READ_DATA, addr, [], 5);
    ghost var c := flash.spi.chip;
    ghost var sent, dur;
    err, data, sent, dur := flash.spi.Transfer(cmd, size);
    ReadCommand(c, addr, size, cmd, sent, dur);
  }

  lemma ReadCommand(c: Chip, addr: nat, size: nat, cmd: seq<byte>, sent: nat, dur: nat)
    requires c.WellFormed() && c.reg.busy == 0 && addr + size <= c.part.size
    requires sent <= |cmd| == c.reg.HeaderLen() && cmd[0] == READ_DATA
    requires size > 0 ==> BigEndian(cmd[1..c.reg.HeaderLen()]) == addr
    ensures Execute(c, cmd[..sent], dur) == c
    ensures Reply(c, cmd, size) == if c.reg.aai then seq(size, _ => DUMMY) else c.mem[addr..addr + size]
  {
    if sent > 0 {
      assert cmd[..sent][0] == READ_DATA && !c.part.IsArrayOpcode(READ_DATA);
    }
    assert size > 0 ==> Address(c.part, c.reg, cmd) == addr;
  }

  /** `sfud_erase_write`: erase the blocks of the range, then program it. */
  method EraseWrite(flash: Flash, addr: nat, data: seq<byte>) returns (err: Err)
    requires Described(flash) && flash.initOk && Attentive(flash.spi.chip)
    requires addr + |data| < 0x1_0000_0000_0000_0000
    requires AaiOnly(flash.writeMode) ==> addr % 2 == 0 || data != []
    modifies flash.spi
    // all transactions are made with the bus locked
    ensures (flash.spi.locking ==> old(flash.spi.depth) >= 0) ==> flash.spi.bare == old(flash.spi.bare)
    // and when those of the exit path arrive, they leave the chip write-disabled
    ensures addr + |data| <= flash.capacity && flash.spi.intact > 0 ==> WriteDisabled(flash.spi.chip)
    ensures flash.spi.depth == old(flash.spi.depth) && Described(flash)
    ensures addr + |data| > flash.capacity ==> err.OutOfBound? && flash.spi.chip == old(flash.spi.chip)
    // whatever fails, nothing outside the touched erase blocks changes and no command was refused
    ensures flash.spi.chip.refused == old(flash.spi.chip.refused)
    ensures SameOutside(old(flash.spi.chip.mem), flash.spi.chip.mem,
      Floor(addr, TableOf(flash).Smallest()), SpanEnd(TableOf(flash), addr, |data|))
    ensures !AaiOnly(flash.writeMode) ==> !flash.spi.chip.reg.aai
    // success in an implemented mode: the data, 0xFF in the rest of the blocks, all else as before
    ensures err.Success? ==> addr + |data| <= flash.capacity
    ensures err.Success? && (data != [] || old(Idle(flash.spi.chip))) ==> Idle(flash.spi.chip)
    ensures err.Success? && !CanWrite(flash.writeMode) ==> flash.spi.chip.mem == Filled(old(flash.spi.chip.mem),
      Floor(addr, TableOf(flash).Smallest()), SpanEnd(TableOf(flash), addr, |data|))
    ensures err.Success? && CanWrite(flash.writeMode) ==> flash.spi.chip.mem == Rewritten(old(flash.spi.chip.mem),
      Floor(addr, TableOf(flash).Smallest()), SpanEnd(TableOf(flash), addr, |data|), addr, data)
    // after success the range holds the data exactly when the mode is implemented, or there was nothing to program
    ensures err.Success? ==> (flash.spi.chip.mem[addr..addr + |data|] == data
      <==> CanWrite(flash.writeMode) || forall i :: 0 <= i < |data| ==> data[i] == ERASED)
    ensures flash.spi.faults >= old(flash.spi.faults)
    // with the bus at its best it succeeds exactly on an idle chip; only an empty write may also succeed on a busy one
    ensures flash.spi.faults == old(flash.spi.faults) && Patient(flash) ==>
      && (data != [] || old(flash.spi.chip.reg.busy) == 0 ==>
        (err.Success? <==> addr + |data| <= flash.capacity && old(flash.spi.chip.reg.busy) == 0))
      && Attentive(flash.spi.chip)
  {
    hide Filled, Programmed, Rewritten, Between, SameOutside, EraseOps;
    ghost var c, done, written := flash.spi.chip, 0, 0;
    ghost var lo, hi := Floor(addr, TableOf(flash).Smallest()), SpanEnd(TableOf(flash), addr, |data|);
    err, done := EraseRange(flash, addr, |data|);
    SpanGrows(TableOf(flash), addr, |data|);
    ghost var erased := flash.spi.chip.mem;
    NothingWritten(erased, addr, data);
    if err.Success? {
      err, written := Write(flash, addr, data);
      ProgramAfterErase(c.mem, lo, hi, addr, data);
      RewrittenHolds(c.mem, lo, hi, addr, data);
      FilledHolds(c.mem, lo, hi, addr, data);
    }
    RewriteInside(c.mem, erased, flash.spi.chip.mem, lo, hi, addr, data);
  }

  /** Store data and read it back: what the driver is for. */
  method StoreAndLoad(flash: Flash, addr: nat, data: seq<byte>) returns (err: Err, back: seq<byte>)
    requires Described(flash) && flash.initOk && Attentive(flash.spi.chip)
    requires addr + |data| < 0x1_0000_0000_0000_0000 && data != [] && CanWrite(flash.writeMode)
    modifies flash.spi
    // all transactions are made with the bus locked
    ensures (flash.spi.locking ==> old(flash.spi.depth) >= 0) ==> flash.spi.bare == old(flash.spi.bare)
    ensures flash.spi.depth == old(flash.spi.depth) && Described(flash)
    ensures err.Success? ==> back == data
    ensures flash.spi.faults >= old(flash.spi.faults)
    // with the bus at its best it succeeds exactly in bounds, on an idle chip
    ensures flash.spi.faults == old(flash.spi.faults) && Patient(flash) ==>
      (err.Success? <==> addr + |data| <= flash.capacity && old(flash.spi.chip.reg.busy) == 0)
  {
    back := [];
    err := EraseWrite(flash, addr, data);
    if err.Success? {
      err, back := Read(flash, addr, |data|);
    }
  }
}
