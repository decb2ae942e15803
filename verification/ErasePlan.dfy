/**
 Which erase commands an erase of a byte range turns into, what they add up to, and why no cover
 of the range by available blocks needs fewer.
 */
module ErasePlanning {
  import opened Alignment
  import opened Bytes
  import opened FlashDevice
  import opened Memory
  import opened NorChip

  /** The driver's erasers: the SFDP table when there is one, else the single granularity. */
  datatype EraseTable = EraseTable(available: bool, erasers: seq<Eraser>, gran: Eraser)
  {
    /** Every modulus is well defined and moving by any eraser keeps the alignment of the smallest. */
    ghost predicate WellFormed()
    {
      if available then
        && |erasers| == ERASE_TYPES && erasers[0].size > 0
        && forall i :: 0 <= i < |erasers| ==> erasers[i].size % erasers[0].size == 0
      else gran.size > 0
    }

    function Smallest(): (g: nat)
      requires WellFormed()
      ensures g > 0
    {
      if available then erasers[0].size else gran.size
    }

    /** Blocks of this size can be erased. */
    ghost predicate Offers(size: nat)
    {
      if available then size > 0 && exists i :: 0 <= i < |erasers| && erasers[i].size == size
      else size == gran.size
    }

    /** Larger erasers come later and are multiples of the smaller ones; unused entries may be anywhere. */
    ghost predicate Chain()
    {
      available ==> forall i, j :: 0 <= i < j < |erasers| && erasers[i].size > 0 && erasers[j].size > 0 ==>
        erasers[i].size <= erasers[j].size && erasers[j].size % erasers[i].size == 0
    }
  }

  predicate Fits(e: Eraser, addr: nat, size: nat)
  {
    e.size != 0 && size >= e.size && addr % e.size == 0
  }

  /** The search from entry i downwards: the last entry that fits, else entry 0. */
  function SuitableFrom(erasers: seq<Eraser>, addr: nat, size: nat, i: nat): (r: nat)
    requires i < |erasers|
    ensures r <= i
    ensures Fits(erasers[r], addr, size) || (r == 0 && forall k :: 0 <= k <= i ==> !Fits(erasers[k], addr, size))
    ensures forall k :: r < k <= i ==> !Fits(erasers[k], addr, size)
  {
    if Fits(erasers[i], addr, size) || i == 0 then i else SuitableFrom(erasers, addr, size, i - 1)
  }

  /** `sfud_sfdp_get_suitable_eraser` as a function. */
  function SuitableEraser(erasers: seq<Eraser>, addr: nat, size: nat): (r: nat)
    requires |erasers| == ERASE_TYPES && erasers[0].size > 0
    ensures r < ERASE_TYPES
  {
    if addr % erasers[0].size != 0 then 0 else SuitableFrom(erasers, addr, size, ERASE_TYPES - 1)
  }

  function Choose(t: EraseTable, addr: nat, size: nat): (e: Eraser)
    requires t.WellFormed()
  {
    if t.available then t.erasers[SuitableEraser(t.erasers, addr, size)] else t.gran
  }

  /** The three ways the choice can go. */
  lemma ChooseCases(t: EraseTable, addr: nat, size: nat)
    requires t.WellFormed()
    ensures var e, g := Choose(t, addr, size), t.Smallest();
      && e.size > 0 && e.size % g == 0 && t.Offers(e.size)
      && (addr % g != 0 ==> e.size == g)
      && (addr % g == 0 ==> addr % e.size == 0 && (e.size <= size || e.size == g))
  {
  }

  /** The commands `sfud_erase` issues for a range. */
  function ErasePlan(t: EraseTable, addr: nat, size: nat): (ops: seq<ArrayOp>)
    requires t.WellFormed()
    decreases size
  {
    if size == 0 then [] else
      ChooseCases(t, addr, size);
      var block := Choose(t, addr, size).size;
      var step := block - addr % block;
      [Erase(Floor(addr, block), block)] + (if size > step then ErasePlan(t, addr + step, size - step) else [])
  }

  /** What a sequence of accepted operations does to the array. */
  function Replay(mem: seq<byte>, ops: seq<ArrayOp>): (r: seq<byte>)
    ensures |r| == |mem|
    decreases |ops|
  {
    if ops == [] then mem else Replay(Effect(mem, ops[0]), ops[1..])
  }

  lemma {:induction false} ReplayAppend(mem: seq<byte>, ops: seq<ArrayOp>, op: ArrayOp)
    ensures Replay(mem, ops + [op]) == Effect(Replay(mem, ops), op)
    decreases |ops|
  {
    if ops == [] {
      assert Replay(Effect(mem, op), []) == Effect(mem, op);
    } else {
      assert (ops + [op])[1..] == ops[1..] + [op];
      ReplayAppend(Effect(mem, ops[0]), ops[1..], op);
    }
  }

  /** The aligned span an erase of [addr, addr + size) covers; empty when size is 0. */
  function SpanEnd(t: EraseTable, addr: nat, size: nat): (hi: nat)
    requires t.WellFormed()
  {
    if size == 0 then Floor(addr, t.Smallest()) else Ceil(addr + size, t.Smallest())
  }

  /** Where the loop stands after one command. */
  lemma PlanStep(t: EraseTable, addr: nat, size: nat)
    requires t.WellFormed() && size > 0
    ensures var e, g := Choose(t, addr, size), t.Smallest();
      var step := e.size - addr % e.size;
      && e.size > 0 && step > 0
      && Floor(addr, e.size) == Floor(addr, g)
      && Floor(addr, e.size) + e.size == addr + step
      && (addr + step) % g == 0
      && (size <= step ==> addr + step == SpanEnd(t, addr, size))
      && (size > step ==> SpanEnd(t, addr + step, size - step) == SpanEnd(t, addr, size))
  {
    hide Choose;
    var e, g := Choose(t, addr, size), t.Smallest();
    ChooseCases(t, addr, size);
    var step := e.size - addr % e.size;
    FloorAligned(addr, g);
    if addr % g == 0 {
      ModAdd(addr, e.size, g);
    } else {
      ModAdd(Floor(addr, g), g, g);
    }
    if size <= step {
      CeilUnique(addr + size, g, addr + step);
    }
  }

  /** The block size the driver takes at addr with size bytes to go: without a table the granularity; off the smallest
      grid the smallest eraser; else that of the last used entry that is aligned here and not too large, and of entry 0
      when there is none. */
  ghost predicate Takes(t: EraseTable, addr: nat, size: nat, block: nat)
    requires t.WellFormed()
  {
    if !t.available then block == t.gran.size
    else if addr % t.erasers[0].size != 0 then block == t.erasers[0].size
    else exists i :: 0 <= i < |t.erasers| && LastFitting(t.erasers, addr, size, i) && block == t.erasers[i].size
  }

  ghost predicate LastFitting(erasers: seq<Eraser>, addr: nat, size: nat, i: nat)
    requires i < |erasers|
  {
    && (i == 0 || (erasers[i].size != 0 && erasers[i].size <= size && addr % erasers[i].size == 0))
    && forall k :: i < k < |erasers| && erasers[k].size != 0 && erasers[k].size <= size ==> addr % erasers[k].size != 0
  }

  /** The plan begins with the block of this size around addr, and goes on from its end if bytes are left. */
  ghost predicate StartsWith(t: EraseTable, addr: nat, size: nat, block: nat)
    requires t.WellFormed() && block > 0 && size > 0
  {
    var step := block - addr % block;
    ErasePlan(t, addr, size)
    == [Erase(addr / block * block, block)] + if size > step then ErasePlan(t, addr + step, size - step) else []
  }

  /** The plan, command by command and for every address and size: the block around addr, and then the plan from the end
      of that block on, if bytes are left. */
  lemma PlanUnfolds(t: EraseTable, addr: nat, size: nat)
    requires t.WellFormed()
    ensures size == 0 ==> ErasePlan(t, addr, size) == []
    ensures size > 0 ==>
      exists block: nat :: block > 0 && Takes(t, addr, size, block) && StartsWith(t, addr, size, block)
  {
    if size > 0 {
      var block := Choose(t, addr, size).size;
      ChooseCases(t, addr, size);
      Division(addr, block);
      if t.available && addr % t.erasers[0].size == 0 {
        var i := SuitableEraser(t.erasers, addr, size);
        assert LastFitting(t.erasers, addr, size, i) by {
          forall k | i < k < |t.erasers| && t.erasers[k].size != 0 && t.erasers[k].size <= size
            ensures addr % t.erasers[k].size != 0
          {
            assert !Fits(t.erasers[k], addr, size);
          }
        }
      }
      assert Takes(t, addr, size, block) && StartsWith(t, addr, size, block);
    }
  }

  /** Rounding down and up, written out. */
  lemma Rounded(a: nat, g: nat)
    requires g > 0
    ensures Floor(a, g) == a / g * g
    ensures Ceil(a, g) == (a + g - 1) / g * g
  {
    Division(a, g);
    var q, r := a / g, a % g;
    if r == 0 {
      ModUnique(a + g - 1, g, q, g - 1);
    } else {
      assert (q + 1) * g == q * g + g;
      ModUnique(a + g - 1, g, q + 1, r - 1);
    }
  }

  /** The plan erases exactly the aligned span: every byte of it, and nothing else. */
  lemma {:induction false} PlanFillsSpan(mem: seq<byte>, t: EraseTable, addr: nat, size: nat)
    requires t.WellFormed()
    ensures Replay(mem, ErasePlan(t, addr, size)) == Filled(mem, Floor(addr, t.Smallest()), SpanEnd(t, addr, size))
    decreases size
  {
    hide Choose;
    var g, hi := t.Smallest(), SpanEnd(t, addr, size);
    if size > 0 {
      PlanStep(t, addr, size);
      var e := Choose(t, addr, size);
      var step := e.size - addr % e.size;
      var op, plan := Erase(Floor(addr, e.size), e.size), ErasePlan(t, addr, size);
      var mid := Effect(mem, op);
      assert plan[0] == op;
      if size > step {
        assert plan[1..] == ErasePlan(t, addr + step, size - step);
        PlanFillsSpan(mid, t, addr + step, size - step);
        SpanGrows(t, addr + step, size - step);
        FilledJoin(mem, op.start, addr + step, hi);
      } else {
        assert plan[1..] == [];
      }
    } else {
      assert Filled(mem, Floor(addr, g), hi) == mem;
    }
  }

  lemma SpanGrows(t: EraseTable, addr: nat, size: nat)
    requires t.WellFormed()
    ensures size > 0 ==> addr + size <= SpanEnd(t, addr, size)
    ensures Floor(addr, t.Smallest()) <= SpanEnd(t, addr, size)
  {
  }

  /** Every command stays inside the span. */
  lemma {:induction false} PlanInSpan(t: EraseTable, addr: nat, size: nat, k: nat)
    requires t.WellFormed() && k < |ErasePlan(t, addr, size)|
    ensures var op := ErasePlan(t, addr, size)[k];
      op.Erase? && Floor(addr, t.Smallest()) <= op.start && op.start + op.len <= SpanEnd(t, addr, size)
    decreases size
  {
    hide Choose;
    PlanStep(t, addr, size);
    var step := Choose(t, addr, size).size - addr % Choose(t, addr, size).size;
    if size > step {
      SpanGrows(t, addr + step, size - step);
      if k > 0 {
        PlanInSpan(t, addr + step, size - step, k - 1);
      }
    }
  }

  /** Stopping after any number of commands leaves each byte old or erased, and old outside the span. */
  lemma {:induction false} PlanPrefixBetween(mem: seq<byte>, t: EraseTable, addr: nat, size: nat, done: nat)
    requires t.WellFormed() && done <= |ErasePlan(t, addr, size)|
    ensures Between(mem, Replay(mem, ErasePlan(t, addr, size)[..done]),
                    Filled(mem, Floor(addr, t.Smallest()), SpanEnd(t, addr, size)))
  {
    var plan := ErasePlan(t, addr, size);
    forall k | 0 <= k < done
      ensures plan[..done][k].Erase? && Floor(addr, t.Smallest()) <= plan[..done][k].start
      ensures plan[..done][k].start + plan[..done][k].len <= SpanEnd(t, addr, size)
    {
      PlanInSpan(t, addr, size, k);
    }
    ErasesBetween(mem, plan[..done], Floor(addr, t.Smallest()), SpanEnd(t, addr, size));
  }

  lemma {:induction false} ErasesBetween(mem: seq<byte>, ops: seq<ArrayOp>, lo: nat, hi: nat)
    requires forall k :: 0 <= k < |ops| ==> ops[k].Erase? && lo <= ops[k].start && ops[k].start + ops[k].len <= hi
    ensures Between(mem, Replay(mem, ops), Filled(mem, lo, hi))
    decreases |ops|
  {
    if ops != [] {
      var mid := Effect(mem, ops[0]);
      ErasesBetween(mid, ops[1..], lo, hi);
      assert Filled(mid, lo, hi) == Filled(mem, lo, hi);
    }
  }

  /** Blocks the table offers, aligned, inside [lo, hi), that together contain every byte of it. */
  ghost predicate Covers(t: EraseTable, blocks: set<ArrayOp>, lo: nat, hi: nat)
  {
    && (forall b :: b in blocks ==>
         b.Erase? && t.Offers(b.len) && b.len > 0 && b.start % b.len == 0 && lo <= b.start && b.start + b.len <= hi)
    && (forall x: nat :: lo <= x < hi ==> Held(blocks, x))
  }

  ghost predicate Held(blocks: set<ArrayOp>, x: nat)
  {
    exists b :: b in blocks && b.Erase? && b.start <= x < b.start + b.len
  }

  ghost function OpSet(ops: seq<ArrayOp>): set<ArrayOp> { set op | op in ops }

  /** For an aligned range the plan itself is such a cover. */
  lemma {:induction false} PlanCovers(t: EraseTable, addr: nat, size: nat)
    requires t.WellFormed()
    requires addr % t.Smallest() == 0 && size % t.Smallest() == 0
    ensures Covers(t, OpSet(ErasePlan(t, addr, size)), addr, addr + size)
    decreases size
  {
    hide Choose, ErasePlan;
    PlanOfAligned(t, addr, size);
    if size > 0 {
      var first, plan := Choose(t, addr, size).size, ErasePlan(t, addr, size);
      ChooseCases(t, addr, size);
      assert plan[0] == Erase(addr, first);
      if size > first {
        PlanCovers(t, addr + first, size - first);
        assert plan[1..] == ErasePlan(t, addr + first, size - first);
        assert forall op :: op in plan <==> op == plan[0] || op in plan[1..];
      }
      forall x: nat | addr <= x < addr + size ensures Held(OpSet(plan), x) {
        if x < addr + first {
          assert plan[0] in OpSet(plan);
        } else {
          assert Held(OpSet(plan[1..]), x);
        }
      }
    }
  }

  /** Any two sizes on offer divide one another. */
  lemma OffersDivide(t: EraseTable, a: nat, b: nat)
    requires t.WellFormed() && t.Chain() && t.Offers(a) && t.Offers(b) && 0 < a <= b
    ensures b % a == 0
  {
    if t.available {
      var i :| 0 <= i < |t.erasers| && t.erasers[i].size == a;
      var j :| 0 <= j < |t.erasers| && t.erasers[j].size == b;
      if j < i { assert t.erasers[i].size % t.erasers[j].size == 0 && a == b; }
    }
  }

  /** The choice is the largest block on offer that starts here and does not overshoot. */
  lemma ChooseLargest(t: EraseTable, addr: nat, size: nat, len: nat)
    requires t.WellFormed() && t.Chain() && t.Offers(len)
    requires addr % t.Smallest() == 0 && size >= t.Smallest()
    requires 0 < len <= size && addr % len == 0
    ensures len <= Choose(t, addr, size).size <= size
  {
    if t.available {
      var i :| 0 <= i < |t.erasers| && t.erasers[i].size == len;
      assert Fits(t.erasers[i], addr, size);
      assert Fits(t.erasers[0], addr, size);
      var r := SuitableFrom(t.erasers, addr, size, ERASE_TYPES - 1);
      assert i <= r;
    }
  }

  /** In any cover, a block that starts before the end of the greedy first block lies inside it. */
  lemma NearBlocksInside(t: EraseTable, blocks: set<ArrayOp>, addr: nat, size: nat, b: ArrayOp)
    requires t.WellFormed() && t.Chain() && size > 0
    requires addr % t.Smallest() == 0 && size % t.Smallest() == 0
    requires Covers(t, blocks, addr, addr + size) && b in blocks
    requires b.start < addr + Choose(t, addr, size).size
    ensures b.start + b.len <= addr + Choose(t, addr, size).size
  {
    var first := Choose(t, addr, size).size;
    ChooseCases(t, addr, size);
    if b.len <= first {
      OffersDivide(t, b.len, first);
      ModTrans(addr, first, b.len);
      ModAdd(addr, first, b.len);
      AlignedApart(b.start, addr + first, b.len);
    } else {
      OffersDivide(t, first, b.len);
      ModTrans(b.start, b.len, first);
      if addr < b.start { AlignedApart(addr, b.start, first); }
      AlignedApart(0, size, t.Smallest());
      ChooseLargest(t, addr, size, b.len);
    }
  }

  /** Without the blocks inside the greedy first block, a cover still covers the rest. */
  lemma FarBlocksCover(t: EraseTable, blocks: set<ArrayOp>, far: set<ArrayOp>, addr: nat, size: nat)
    requires t.WellFormed() && t.Chain() && size > 0
    requires addr % t.Smallest() == 0 && size % t.Smallest() == 0
    requires Covers(t, blocks, addr, addr + size)
    requires far == set b | b in blocks && b.start >= addr + Choose(t, addr, size).size
    ensures Covers(t, far, addr + Choose(t, addr, size).size, addr + size)
    ensures |far| < |blocks|
  {
    hide Choose;
    var mid := addr + Choose(t, addr, size).size;
    ChooseCases(t, addr, size);
    forall x: nat | mid <= x < addr + size ensures Held(far, x) {
      assert Held(blocks, x);
      var b :| b in blocks && b.Erase? && b.start <= x < b.start + b.len;
      if b.start < mid {
        NearBlocksInside(t, blocks, addr, size, b);
      }
      assert b in far;
    }
    assert Held(blocks, addr);
    var b0 :| b0 in blocks && b0.Erase? && b0.start <= addr < b0.start + b0.len;
    assert b0 !in far;
    SubsetSize(far + {b0}, blocks);
  }

  /** For an aligned range, no cover by available blocks needs fewer commands than the plan. */
  lemma {:induction false} PlanIsMinimal(t: EraseTable, addr: nat, size: nat, blocks: set<ArrayOp>)
    requires t.WellFormed() && t.Chain()
    requires addr % t.Smallest() == 0 && size % t.Smallest() == 0
    requires Covers(t, blocks, addr, addr + size)
    ensures |ErasePlan(t, addr, size)| <= |blocks|
    decreases size
  {
    hide Choose, ErasePlan, Covers, EraseTable.WellFormed, EraseTable.Chain, EraseTable.Smallest;
    PlanOfAligned(t, addr, size);
    if size > 0 {
      var first := Choose(t, addr, size).size;
      var far := set b | b in blocks && b.start >= addr + first;
      FarBlocksCover(t, blocks, far, addr, size);
      if size > first {
        PlanIsMinimal(t, addr + first, size - first, far);
      }
    }
  }

  /** On an aligned range the plan starts with the chosen block, and the rest is aligned again. */
  lemma PlanOfAligned(t: EraseTable, addr: nat, size: nat)
    requires t.WellFormed() && addr % t.Smallest() == 0 && size % t.Smallest() == 0
    ensures size == 0 ==> ErasePlan(t, addr, size) == []
    ensures size > 0 ==> var first := Choose(t, addr, size).size;
      && 0 < first && first <= size
      && (addr + first) % t.Smallest() == 0 && (size - first) % t.Smallest() == 0
      && ErasePlan(t, addr, size)
         == [Erase(addr, first)] + if size > first then ErasePlan(t, addr + first, size - first) else []
  {
    hide Choose;
    if size > 0 {
      var first, g := Choose(t, addr, size).size, t.Smallest();
      ChooseCases(t, addr, size);
      AlignedApart(0, size, g);
      ModAdd(addr, first, g);
      ModSub(size, first, g);
    }
  }

  lemma SubsetSize<T>(a: set<T>, b: set<T>)
    requires a <= b
    ensures |a| <= |b|
  {
    assert b == a + (b - a);
  }
}
