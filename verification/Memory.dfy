/** The simple view of a flash array: what an erase and a write of a byte range mean. */
module Memory {
  import opened Bytes

  const ERASED: byte := 0xFF

  /** Every byte of [lo, hi) set to 0xFF. */
  function Filled(mem: seq<byte>, lo: nat, hi: nat): (r: seq<byte>)
    ensures |r| == |mem|
  {
    seq(|mem|, i requires 0 <= i < |mem| => if lo <= i < hi then ERASED else mem[i])
  }

  /** The linear program: mem[k] := mem[k] AND data[k - addr], in no particular order. */
  function Programmed(mem: seq<byte>, addr: nat, data: seq<byte>): (r: seq<byte>)
    ensures |r| == |mem|
  {
    seq(|mem|, i requires 0 <= i < |mem| =>
      if addr <= i < addr + |data| then AndByte(mem[i], data[i - addr]) else mem[i])
  }

  /** What erase-then-write of a range leaves: the data, 0xFF in the rest of [lo, hi), the old bytes elsewhere. */
  function Rewritten(mem: seq<byte>, lo: nat, hi: nat, addr: nat, data: seq<byte>): (r: seq<byte>)
    ensures |r| == |mem|
  {
    seq(|mem|, i requires 0 <= i < |mem| =>
      if addr <= i < addr + |data| then data[i - addr] else if lo <= i < hi then ERASED else mem[i])
  }

  /** Each byte of `now` is the byte of `was` or the byte of `goal`: an interrupted step towards goal. */
  ghost predicate Between(was: seq<byte>, now: seq<byte>, goal: seq<byte>)
  {
    |was| == |now| == |goal| &&
    forall i :: 0 <= i < |now| ==> now[i] == was[i] || now[i] == goal[i]
  }

  lemma FilledJoin(mem: seq<byte>, lo: nat, mid: nat, hi: nat)
    requires lo <= mid <= hi
    ensures Filled(Filled(mem, lo, mid), mid, hi) == Filled(mem, lo, hi)
  {
  }

  lemma ProgrammedJoin(mem: seq<byte>, addr: nat, d: seq<byte>, e: seq<byte>)
    ensures Programmed(Programmed(mem, addr, d), addr + |d|, e) == Programmed(mem, addr, d + e)
  {
    var l, r := Programmed(Programmed(mem, addr, d), addr + |d|, e), Programmed(mem, addr, d + e);
    forall i | 0 <= i < |mem| ensures l[i] == r[i] {
    }
  }

  /** Programming clean bytes stores the data: the reason the driver erases first. */
  lemma ProgramAfterErase(mem: seq<byte>, lo: nat, hi: nat, addr: nat, data: seq<byte>)
    requires data != [] ==> lo <= addr && addr + |data| <= hi
    ensures Programmed(Filled(mem, lo, hi), addr, data) == Rewritten(mem, lo, hi, addr, data)
  {
    var l, r := Programmed(Filled(mem, lo, hi), addr, data), Rewritten(mem, lo, hi, addr, data);
    forall i | 0 <= i < |mem| ensures l[i] == r[i] {
      if addr <= i < addr + |data| {
        AndErased(data[i - addr]);
      }
    }
  }

  /** A write, finished or interrupted anywhere, never sets a bit. */
  lemma ProgramOnlyClears(was: seq<byte>, now: seq<byte>, addr: nat, data: seq<byte>, k: nat, bit: nat)
    requires Between(was, now, Programmed(was, addr, data))
    requires k < |was| && Bit(now[k], bit)
    ensures Bit(was[k], bit)
  {
    if now[k] != was[k] {
      AndBits(was[k], data[k - addr], bit);
    }
  }

  /** Nothing outside [lo, hi) differs. */
  ghost predicate SameOutside(was: seq<byte>, now: seq<byte>, lo: nat, hi: nat)
  {
    |was| == |now| && forall i :: 0 <= i < |now| && !(lo <= i < hi) ==> now[i] == was[i]
  }

  /** An interrupted erase followed by an interrupted write stays inside the erased span. */
  lemma RewriteInside(m: seq<byte>, e: seq<byte>, w: seq<byte>, lo: nat, hi: nat, addr: nat, data: seq<byte>)
    requires Between(m, e, Filled(m, lo, hi)) && Between(e, w, Programmed(e, addr, data))
    requires data != [] ==> lo <= addr && addr + |data| <= hi
    ensures SameOutside(m, w, lo, hi)
  {
  }

  lemma NothingWritten(m: seq<byte>, addr: nat, data: seq<byte>)
    ensures Between(m, m, Programmed(m, addr, data))
  {
  }

  lemma RewrittenHolds(m: seq<byte>, lo: nat, hi: nat, addr: nat, data: seq<byte>)
    requires addr + |data| <= |m|
    ensures Rewritten(m, lo, hi, addr, data)[addr..addr + |data|] == data
  {
  }

  lemma FilledHolds(m: seq<byte>, lo: nat, hi: nat, addr: nat, data: seq<byte>)
    requires addr + |data| <= |m| && (data != [] ==> lo <= addr && addr + |data| <= hi)
    ensures Filled(m, lo, hi)[addr..addr + |data|] == data <==> forall i :: 0 <= i < |data| ==> data[i] == ERASED
  {
    var part := Filled(m, lo, hi)[addr..addr + |data|];
    assert forall i :: 0 <= i < |data| ==> part[i] == ERASED;
  }
}
