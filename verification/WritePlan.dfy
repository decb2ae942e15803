/** Which program commands a write of a byte range turns into, and what they add up to. */
module WritePlanning {
  import opened Alignment
  import opened Bytes
  import opened Memory
  import opened NorChip

  /** `data_size`: up to the end of the page. */
  function ChunkLength(gran: nat, addr: nat, size: nat): (n: nat)
    requires gran > 0
    ensures n <= size && (size > 0 ==> n > 0)
    ensures addr % gran + n <= gran
    ensures n == size || addr % gran + n == gran
  {
    if addr % gran != 0 then
      if size > gran - addr % gran then gran - addr % gran else size
    else
      if size > gran then gran else size
  }

  /** The commands of `page256_or_1_byte_write`. */
  function PagePlan(gran: nat, addr: nat, data: seq<byte>): (ops: seq<ArrayOp>)
    requires gran > 0
    decreases |data|
  {
    if data == [] then [] else
      var n := ChunkLength(gran, addr, |data|);
      [Program(addr, data[..n])] + PagePlan(gran, addr + n, data[n..])
  }

  /** The commands of `aai_write` from an even address: words, and a last byte when the length is odd. */
  function WordPlan(addr: nat, data: seq<byte>): (ops: seq<ArrayOp>)
    decreases |data|
  {
    if |data| >= 2 then [Program(addr, data[..2])] + WordPlan(addr + 2, data[2..])
    else if |data| == 1 then [Program(addr, data)]
    else []
  }

  /** The commands of `aai_write`. */
  function AaiPlan(addr: nat, data: seq<byte>): (ops: seq<ArrayOp>)
  {
    if addr % 2 != 0 && data != [] then [Program(addr, data[..1])] + WordPlan(addr + 1, data[1..])
    else WordPlan(addr, data)
  }

  /** The operations program consecutive, non-empty pieces that concatenate to data: each byte exactly once. */
  ghost predicate Tiles(ops: seq<ArrayOp>, addr: nat, data: seq<byte>)
    decreases |ops|
  {
    if ops == [] then data == []
    else
      && ops[0].Program? && ops[0].start == addr
      && 0 < |ops[0].data| <= |data| && ops[0].data == data[..|ops[0].data|]
      && Tiles(ops[1..], addr + |ops[0].data|, data[|ops[0].data|..])
  }

  /** No operation leaves the page it starts in. */
  ghost predicate WithinPages(ops: seq<ArrayOp>, gran: nat)
    requires gran > 0
  {
    forall op :: op in ops ==> op.Program? && op.start % gran + |op.data| <= gran
  }

  lemma {:induction false} PagePlanTiles(gran: nat, addr: nat, data: seq<byte>)
    requires gran > 0
    ensures Tiles(PagePlan(gran, addr, data), addr, data)
    ensures WithinPages(PagePlan(gran, addr, data), gran)
    decreases |data|
  {
    if data != [] {
      var n, plan := ChunkLength(gran, addr, |data|), PagePlan(gran, addr, data);
      PagePlanTiles(gran, addr + n, data[n..]);
      assert plan[1..] == PagePlan(gran, addr + n, data[n..]);
      assert plan[0] == Program(addr, data[..n]);
    }
  }

  /** One command for each page the range touches. */
  lemma {:induction false} PagePlanCount(gran: nat, addr: nat, data: seq<byte>)
    requires gran > 0 && data != []
    ensures |PagePlan(gran, addr, data)| == (addr + |data| - 1) / gran - addr / gran + 1
    decreases |data|
  {
    var n := ChunkLength(gran, addr, |data|);
    var q, r := addr / gran, addr % gran;
    Division(addr, gran);
    if n == |data| {
      ModUnique(addr + n - 1, gran, q, r + n - 1);
      assert PagePlan(gran, addr + n, data[n..]) == [];
    } else {
      PagePlanCount(gran, addr + n, data[n..]);
      assert (q + 1) * gran == q * gran + gran;
      ModUnique(addr + n, gran, q + 1, 0);
    }
  }

  lemma {:induction false} WordPlanTiles(addr: nat, data: seq<byte>)
    ensures Tiles(WordPlan(addr, data), addr, data)
    decreases |data|
  {
    var plan := WordPlan(addr, data);
    if |data| >= 2 {
      WordPlanTiles(addr + 2, data[2..]);
      assert plan[1..] == WordPlan(addr + 2, data[2..]);
    } else if |data| == 1 {
      assert plan[1..] == [] && data[1..] == [];
    }
  }

  lemma AaiPlanTiles(addr: nat, data: seq<byte>)
    ensures Tiles(AaiPlan(addr, data), addr, data)
  {
    if addr % 2 != 0 && data != [] {
      WordPlanTiles(addr + 1, data[1..]);
      assert AaiPlan(addr, data)[1..] == WordPlan(addr + 1, data[1..]);
    } else {
      WordPlanTiles(addr, data);
    }
  }

  /** The command that programs the word at offset `at`, or the last byte on its own. */
  ghost function WordAt(addr: nat, data: seq<byte>, at: nat): ArrayOp
    requires at < |data|
  {
    Program(addr + at, if at + 2 <= |data| then [data[at], data[at + 1]] else [data[at]])
  }

  /** The shape of the plan: command i of a write from an even address programs the word at offset 2i. */
  lemma {:induction false} WordPlanIs(addr: nat, data: seq<byte>)
    ensures |WordPlan(addr, data)| == (|data| + 1) / 2
    ensures forall i :: 0 <= i < |WordPlan(addr, data)| ==> WordPlan(addr, data)[i] == WordAt(addr, data, 2 * i)
    decreases |data|
  {
    var plan := WordPlan(addr, data);
    if |data| >= 2 {
      var rest := data[2..];
      WordPlanIs(addr + 2, rest);
      assert plan[1..] == WordPlan(addr + 2, rest);
      forall i | 0 <= i < |plan| ensures plan[i] == WordAt(addr, data, 2 * i) {
        if i > 0 {
          assert plan[i] == plan[1..][i - 1] == WordAt(addr + 2, rest, 2 * (i - 1));
        }
      }
    }
  }

  /** At an odd address the first byte goes on its own in front of the words. */
  lemma AaiPlanIs(addr: nat, data: seq<byte>)
    ensures addr % 2 == 0 ==>
      && |AaiPlan(addr, data)| == (|data| + 1) / 2
      && forall i :: 0 <= i < |AaiPlan(addr, data)| ==> AaiPlan(addr, data)[i] == WordAt(addr, data, 2 * i)
    ensures addr % 2 == 1 && data != [] ==>
      && |AaiPlan(addr, data)| == 1 + |data| / 2
      && AaiPlan(addr, data)[0] == Program(addr, [data[0]])
      && forall i :: 1 <= i < |AaiPlan(addr, data)| ==> AaiPlan(addr, data)[i] == WordAt(addr, data, 2 * i - 1)
  {
    var plan := AaiPlan(addr, data);
    if addr % 2 == 1 && data != [] {
      hide WordPlan;
      var rest := data[1..];
      WordPlanIs(addr + 1, rest);
      assert plan[1..] == WordPlan(addr + 1, rest);
      forall i | 1 <= i < |plan| ensures plan[i] == WordAt(addr, data, 2 * i - 1) {
        assert plan[i] == plan[1..][i - 1] == WordAt(addr + 1, rest, 2 * (i - 1));
      }
    } else {
      WordPlanIs(addr, data);
    }
  }

  /** A write cut short is the write of a first part of the data. */
  lemma PrefixBetween(mem: seq<byte>, addr: nat, data: seq<byte>, n: nat)
    requires n <= |data|
    ensures Between(mem, Programmed(mem, addr, data[..n]), Programmed(mem, addr, data))
  {
  }

  /** One accepted program operation extends the part written so far. */
  lemma ProgrammedMore(mem: seq<byte>, addr: nat, data: seq<byte>, k: nat, n: nat)
    requires k + n <= |data|
    requires (addr + k) % PAGE + n <= PAGE
    ensures ProgramPage(Programmed(mem, addr, data[..k]), addr + k, data[k..k + n])
      == Programmed(mem, addr, data[..k + n])
  {
    hide ProgramPage, Programmed;
    ProgramPageLinear(Programmed(mem, addr, data[..k]), addr + k, data[k..k + n]);
    ProgrammedJoin(mem, addr, data[..k], data[k..k + n]);
    assert data[..k] + data[k..k + n] == data[..k + n];
  }
}
