/**
 A serial NOR flash chip as the driver's SPI transactions see it: one complete chip-select
 cycle carries one command, and `Execute` is what the chip does with it.
 */
module NorChip {
  import opened Alignment
  import opened Bytes
  import opened Memory
  import opened Options

  const WRITE_STATUS_REGISTER: byte := 0x01
  const PAGE_PROGRAM: byte := 0x02
  const READ_DATA: byte := 0x03
  const WRITE_DISABLE: byte := 0x04
  const READ_STATUS_REGISTER: byte := 0x05
  const WRITE_ENABLE: byte := 0x06
  const VOLATILE_SR_WRITE_ENABLE: byte := 0x50
  const READ_SFDP_REGISTER: byte := 0x5A
  const ENABLE_RESET: byte := 0x66
  const RESET: byte := 0x99
  const JEDEC_ID: byte := 0x9F
  const AAI_WORD_PROGRAM: byte := 0xAD
  const ENTER_4B_ADDRESS_MODE: byte := 0xB7
  const ERASE_CHIP: byte := 0xC7
  const EXIT_4B_ADDRESS_MODE: byte := 0xE9
  const DUMMY: byte := 0xFF

  predicate IsFixedOpcode(op: byte)
  {
    || op == WRITE_STATUS_REGISTER || op == PAGE_PROGRAM || op == READ_DATA || op == WRITE_DISABLE
    || op == READ_STATUS_REGISTER || op == WRITE_ENABLE || op == VOLATILE_SR_WRITE_ENABLE
    || op == READ_SFDP_REGISTER || op == ENABLE_RESET || op == RESET || op == JEDEC_ID || op == AAI_WORD_PROGRAM
    || op == ENTER_4B_ADDRESS_MODE || op == ERASE_CHIP || op == EXIT_4B_ADDRESS_MODE
  }

  const PAGE: nat := 256

  /** What the part is; no transaction changes it. */
  datatype Part = Part(
    size: nat,                // bytes in the array
    erasers: map<byte, nat>,  // opcode -> size of the aligned block it erases
    sfdp: seq<byte>,          // the SFDP address space
    id: seq<byte>,            // manufacturer, type, capacity
    dual: bool)               // chip erase needs the AT45DB confirmation bytes
  {
    ghost predicate WellFormed() { size > 0 && |id| == 3 && GoodErasers(erasers) }

    function ChipEraseCommand(): seq<byte>
    {
      if dual then [ERASE_CHIP, 0x94, 0x80, 0x9A] else [ERASE_CHIP]
    }

    predicate IsArrayOpcode(op: byte)
    {
      op == PAGE_PROGRAM || op == AAI_WORD_PROGRAM || op == ERASE_CHIP || op in erasers
    }
  }

  /** Latches and mode bits. */
  datatype Registers = Registers(
    wel: bool,       // write enable latch
    busy: nat,       // how many more status polls will read BUSY
    fourByte: bool,  // 4-byte address mode
    aai: bool,       // inside an auto-address-increment sequence
    aaiPtr: nat,     // where its next word goes
    srUnlock: bool,  // a status register write is allowed without WEL
    armed: bool,     // the next RESET takes effect
    protect: nat)    // block protection bits
  {
    predicate Ready() { busy == 0 && wel && protect == 0 }

    function HeaderLen(): nat { if fourByte then 5 else 4 }

    function Status(): byte
      requires protect < 16
    {
      (if busy > 0 then 1 else 0) + (if wel then 2 else 0) + 4 * protect
    }

    /** The operation in progress completes: the latch falls, except between the words of an AAI sequence. */
    function Done(): Registers { this.(busy := 0, wel := aai) }

    /** An operation starts and will show BUSY to `dur` polls. */
    function Begin(dur: nat): Registers { if dur == 0 then Done() else this.(busy := dur) }

    /** The operation in progress, if any, has run to its end. */
    function Settled(): Registers { if busy == 0 then this else Done() }

    /** After k status polls. */
    function Polled(k: nat): Registers
    {
      if k < busy then this.(busy := busy - k) else Settled()
    }
  }

  /** An array operation the chip accepted. */
  datatype ArrayOp = Erase(start: nat, len: nat) | Program(start: nat, data: seq<byte>)

  datatype Chip = Chip(
    part: Part,
    mem: seq<byte>,
    reg: Registers,
    history: seq<ArrayOp>,  // array operations accepted so far
    refused: nat)           // array commands that arrived with BUSY = 1, WEL = 0 or protection on
  {
    ghost predicate WellFormed()
    {
      part.WellFormed() && |mem| == part.size && reg.protect < 16
    }
  }

  /** Erase opcodes do not collide with the fixed ones. */
  ghost predicate GoodErasers(erasers: map<byte, nat>)
  {
    forall op :: op in erasers ==> !IsFixedOpcode(op) && erasers[op] > 0
  }

  /** The page buffer after loading `data` from offset `off`: the address wraps inside the page, the last byte wins. */
  function PageBuffer(off: nat, data: seq<byte>): (r: seq<byte>)
    ensures |r| == PAGE
  {
    if data == [] then seq(PAGE, _ => ERASED)
    else var n := |data| - 1; PageBuffer(off, data[..n])[(off + n) % PAGE := data[n]]
  }

  /** Programming `data` from address a. */
  function ProgramPage(mem: seq<byte>, a: nat, data: seq<byte>): (r: seq<byte>)
    ensures |r| == |mem|
  {
    var base, buf := Floor(a, PAGE), PageBuffer(a % PAGE, data);
    seq(|mem|, i requires 0 <= i < |mem| =>
      if base <= i < base + PAGE then AndByte(mem[i], buf[i - base]) else mem[i])
  }

  /** What one array operation does to the array. */
  function Effect(mem: seq<byte>, op: ArrayOp): (r: seq<byte>)
    ensures |r| == |mem|
  {
    match op
    case Erase(start, len) => Filled(mem, start, start + len)
    case Program(start, data) => ProgramPage(mem, start, data)
  }

  /** The array repeats above its size. */
  function Wrap(a: nat, size: nat): (r: nat)
    requires size > 0
    ensures r < size && (a < size ==> r == a)
  {
    if a < size then a else a % size
  }

  /** The array address in bytes 1.. of a command. */
  function Address(p: Part, r: Registers, cmd: seq<byte>): nat
    requires |cmd| >= r.HeaderLen() && p.size > 0
  {
    Wrap(BigEndian(cmd[1..r.HeaderLen()]), p.size)
  }

  /** The operation an array command asks for, if the chip understands it in its present mode. */
  function Decode(p: Part, r: Registers, cmd: seq<byte>): (op: Option<ArrayOp>)
    requires p.WellFormed() && |cmd| > 0
  {
    var h := r.HeaderLen();
    if cmd[0] == ERASE_CHIP then
      if !r.aai && cmd == p.ChipEraseCommand() then Some(Erase(0, p.size)) else None
    else if cmd[0] == AAI_WORD_PROGRAM then
      // the first word carries an address, whose lowest bit is ignored; the next ones do not
      if !r.aai && |cmd| == h + 2 then Some(Program(Floor(Address(p, r, cmd), 2), cmd[h..]))
      else if r.aai && |cmd| == 3 then Some(Program(r.aaiPtr, cmd[1..]))
      else None
    else if r.aai then None
    else if cmd[0] == PAGE_PROGRAM then
      if |cmd| > h then Some(Program(Address(p, r, cmd), cmd[h..])) else None
    else if cmd[0] in p.erasers && |cmd| == h then
      Some(Erase(Floor(Address(p, r, cmd), p.erasers[cmd[0]]), p.erasers[cmd[0]]))
    else None
  }

  /** The registers once the operation has started. */
  function Started(r: Registers, opcode: byte, op: ArrayOp, dur: nat): Registers
  {
    (if opcode == AAI_WORD_PROGRAM then r.(aai := true, aaiPtr := op.start + 2) else r).Begin(dur)
  }

  /** An array command arriving with BUSY = 0, WEL = 1 and no protection. */
  function RunArray(c: Chip, cmd: seq<byte>, dur: nat): (r: Chip)
    requires c.WellFormed() && |cmd| > 0
    ensures r.WellFormed() && r.part == c.part && r.refused == c.refused
  {
    match Decode(c.part, c.reg, cmd)
    case None => c
    case Some(op) =>
      Chip(c.part, Effect(c.mem, op), Started(c.reg, cmd[0], op, dur), c.history + [op], c.refused)
  }

  /** Commands on the registers and latches, arriving with BUSY = 0. */
  function RunRegister(r: Registers, cmd: seq<byte>, dur: nat): (s: Registers)
    requires |cmd| > 0 && r.protect < 16
    ensures s.protect < 16
  {
    if cmd == [WRITE_ENABLE] then r.(wel := true)
    else if cmd == [WRITE_DISABLE] then r.(wel := false, aai := false, srUnlock := false)
    else if cmd == [VOLATILE_SR_WRITE_ENABLE] then r.(srUnlock := true)
    else if cmd[0] == WRITE_STATUS_REGISTER then
      if |cmd| == 2 && (r.wel || r.srUnlock) then r.(protect := cmd[1] / 4 % 16, srUnlock := false).Begin(dur) else r
    else if cmd == [ENTER_4B_ADDRESS_MODE] then (if r.wel then r.(fourByte := true) else r)
    else if cmd == [EXIT_4B_ADDRESS_MODE] then (if r.wel then r.(fourByte := false) else r)
    else if cmd == [ENABLE_RESET] then r.(armed := true)
    else if cmd == [RESET] then
      if r.armed then r.(wel := false, fourByte := false, aai := false, srUnlock := false, armed := false).Begin(dur)
      else r
    else r
  }

  /** One transaction. `dur` is how long the operation it starts, if any, will keep the chip busy. */
  function Execute(c: Chip, cmd: seq<byte>, dur: nat): (r: Chip)
    requires c.WellFormed()
    ensures r.WellFormed() && r.part == c.part
  {
    if cmd == [] then c
    else if cmd[0] == READ_STATUS_REGISTER then c.(reg := c.reg.Polled(1))
    else if c.part.IsArrayOpcode(cmd[0]) then
      if c.reg.Ready() then RunArray(c, cmd, dur) else c.(refused := c.refused + 1)
    else if c.reg.busy > 0 then c
    else c.(reg := RunRegister(c.reg, cmd, dur))
  }

  /** The n bytes the chip shifts out after the command. */
  function Reply(c: Chip, cmd: seq<byte>, n: nat): (r: seq<byte>)
    requires c.WellFormed()
    ensures |r| == n
  {
    if cmd == [READ_STATUS_REGISTER] then seq(n, _ => c.reg.Status())
    else if c.reg.busy > 0 || c.reg.aai || cmd == [] then seq(n, _ => DUMMY)
    else if cmd[0] == READ_DATA && |cmd| == c.reg.HeaderLen() then
      ArrayBytes(c.mem, Address(c.part, c.reg, cmd), n)
    else if cmd == [JEDEC_ID] then Window(c.part.id, 0, n)
    else if cmd[0] == READ_SFDP_REGISTER && |cmd| == 5 then Window(c.part.sfdp, BigEndian(cmd[1..4]), n)
    else seq(n, _ => DUMMY)
  }

  /** The n bytes from a on; nothing is stored behind the end. */
  function Window(s: seq<byte>, a: nat, n: nat): (r: seq<byte>)
    ensures |r| == n
    ensures forall i :: 0 <= i < n && a + i < |s| ==> r[i] == s[a + i]
  {
    if n == 0 then [] else Window(s, a, n - 1) + [if a + n - 1 < |s| then s[a + n - 1] else DUMMY]
  }

  /** The n array bytes from a on. */
  function ArrayBytes(mem: seq<byte>, a: nat, n: nat): (r: seq<byte>)
    requires |mem| > 0
    ensures |r| == n
    ensures a + n <= |mem| ==> r == mem[a..a + n]
  {
    if n == 0 then [] else ArrayBytes(mem, a, n - 1) + [mem[Wrap(a + n - 1, |mem|)]]
  }

  /** A command on the registers, whole or not sent at all: a busy chip does not hear it. */
  lemma RegisterCommand(c: Chip, cmd: seq<byte>, sent: nat, dur: nat)
    requires c.WellFormed() && sent <= |cmd| && |cmd| > 0
    requires cmd[0] != READ_STATUS_REGISTER && IsFixedOpcode(cmd[0])
    requires cmd[0] != PAGE_PROGRAM && cmd[0] != AAI_WORD_PROGRAM && cmd[0] != ERASE_CHIP
    ensures Execute(c, cmd[..0], dur) == c
    ensures sent == |cmd| ==> Execute(c, cmd[..sent], dur) == Execute(c, cmd, dur)
    ensures Execute(c, cmd, dur) == if c.reg.busy > 0 then c else c.(reg := RunRegister(c.reg, cmd, dur))
  {
    assert !c.part.IsArrayOpcode(cmd[0]);
    assert cmd[..|cmd|] == cmd;
  }

  /** PAGE PROGRAM that stays inside its page is the linear program. */
  lemma {:induction false} PageBufferAt(off: nat, data: seq<byte>, p: nat)
    requires off + |data| <= PAGE && p < PAGE
    ensures PageBuffer(off, data)[p] == if off <= p < off + |data| then data[p - off] else ERASED
  {
    if data != [] {
      PageBufferAt(off, data[..|data| - 1], p);
    }
  }

  lemma ProgramPageLinear(mem: seq<byte>, a: nat, data: seq<byte>)
    requires a % PAGE + |data| <= PAGE
    ensures ProgramPage(mem, a, data) == Programmed(mem, a, data)
  {
    var base := Floor(a, PAGE);
    var l, r := ProgramPage(mem, a, data), Programmed(mem, a, data);
    forall i | 0 <= i < |mem| ensures l[i] == r[i] {
      if base <= i < base + PAGE {
        ProgramPageByte(mem, a, data, i);
      }
    }
  }

  lemma ProgramPageByte(mem: seq<byte>, a: nat, data: seq<byte>, i: nat)
    requires a % PAGE + |data| <= PAGE && i < |mem|
    requires Floor(a, PAGE) <= i < Floor(a, PAGE) + PAGE
    ensures ProgramPage(mem, a, data)[i] == Programmed(mem, a, data)[i]
  {
    PageBufferAt(a % PAGE, data, i - Floor(a, PAGE));
    AndKeeps(mem[i]);
  }

  lemma AndKeeps(b: byte)
    ensures And(b, ERASED) == b
  {
    AndErased(b);
    AndCommutes(b, ERASED);
  }
}
