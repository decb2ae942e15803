/** The SPI bus: `spi->wr`, `spi->lock` and `spi->unlock`, with the chip at the other end. */
module Spi {
  import opened Bytes
  import opened NorChip

  /** `sfud_err`. */
  datatype Err = Success | NotFound | WriteError | ReadError | Timeout | OutOfBound

  class SpiBus {
    var chip: Chip
    var depth: int         // how often the bus is locked
    const locking: bool    // the port may leave lock and unlock unset
    ghost const patience: nat  // how many polls an operation may keep the chip busy
    ghost var faults: nat      // transactions that were lost, or left the chip busy for longer than that
    ghost var intact: nat      // transactions delivered since the last one that was lost
    ghost var bare: nat        // transactions while the bus was not locked, though it could be

    constructor (chip: Chip, locking: bool, ghost patience: nat)
      ensures this.chip == chip && this.locking == locking && this.patience == patience
      ensures depth == faults == intact == bare == 0
    {
      this.chip, this.locking, this.patience := chip, locking, patience;
      depth, faults, intact, bare := 0, 0, 0, 0;
    }

    /** A transaction now would be inside the lock. */
    ghost predicate Guarded() reads this`depth { locking ==> depth > 0 }

    method Lock()
      modifies this`depth
      ensures depth == old(depth) + (if locking then 1 else 0)
    {
      if locking {
        depth := depth + 1;
      }
    }

    method Unlock()
      modifies this`depth
      ensures depth == old(depth) - (if locking then 1 else 0)
    {
      if locking {
        depth := depth - 1;
      }
    }

    /** One transaction: `write` goes out, n bytes come in. The transport may fail at any time, and then
        any prefix of the command may have reached the chip and the received bytes mean nothing. The chip
        chooses how long it stays busy. */
    method Transfer(write: seq<byte>, n: nat) returns (err: Err, read: seq<byte>, ghost sent: nat, ghost dur: nat)
      requires chip.WellFormed()
      modifies this`chip, this`faults, this`bare, this`intact
      ensures chip.WellFormed() && |read| == n
      ensures faults == old(faults) + if err.Success? && chip.reg.busy <= patience then 0 else 1
      ensures intact == if err.Success? then old(intact) + 1 else 0
      ensures bare == old(bare) + if Guarded() then 0 else 1
      ensures sent <= |write| && chip == Execute(old(chip), write[..sent], dur)
      ensures err.Success? ==>
        sent == |write| && chip == Execute(old(chip), write, dur) && read == Reply(old(chip), write, n)
    {
      err := *;
      var k: nat, busyFor: nat := *, *;
      dur := busyFor;
      if err.Success? || k > |write| {
        k := |write|;
      }
      sent := k;
      read := *;
      if err.Success? {
        assert write[..k] == write;
        read := Reply(chip, write, n);
      } else if |read| != n {
        read := seq(n, _ => 0);
      }
      chip := Execute(chip, write[..k], busyFor);
      faults := faults + if err.Success? && chip.reg.busy <= patience then 0 else 1;
      intact := if err.Success? then intact + 1 else 0;
      bare := bare + if Guarded() then 0 else 1;
    }
  }
}
