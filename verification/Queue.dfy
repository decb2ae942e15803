/** `CdrawQueue`: the mutex-guarded ring buffer, alone and between threads. */
module RingQueue {
  import opened Options

  /** The abstract queue and what has passed through it since the last clear. */
  datatype Fifo<T> = Fifo(contents: seq<T>, accepted: seq<T>, removed: seq<T>)

  /** Ring position k steps behind head. */
  function At(head: nat, k: nat, capacity: nat): (i: nat)
    requires head < capacity && k <= capacity
    ensures i < capacity
  {
    if head + k < capacity then head + k else head + k - capacity
  }

  /** The `count` items from head on, around the ring. */
  function Ring<T>(data: seq<T>, head: nat, count: nat): (s: seq<T>)
    requires count <= |data| && (|data| > 0 ==> head < |data|)
    ensures |s| == count
  {
    seq(count, k requires 0 <= k < count => data[At(head, k, |data|)])
  }

  class CdrawQueue<T(0)> {
    const data: array<T>
    var head: nat
    var tail: nat
    var count: nat
    ghost var fifo: Fifo<T>

    constructor (size: nat)
      ensures Valid() && fresh(data) && data.Length == size && fifo == Fifo([], [], [])
    {
      data := new T[size];
      head, tail, count, fifo := 0, 0, 0, Fifo([], [], []);
    }

    /** The ring holds the abstract contents; nothing accepted is lost, doubled or reordered. */
    ghost predicate Valid()
      reads this, data
    {
      && count <= data.Length
      && (if data.Length == 0 then head == tail == 0 else head < data.Length && tail == At(head, count, data.Length))
      && fifo.contents == Ring(data[..], head, count)
      && fifo.accepted == fifo.removed + fifo.contents
    }

    predicate IsEmpty() reads this { count == 0 }
    predicate IsFull() reads this { count == data.Length }

    /** `(i + 1) % capacity_` */
    method Next(i: nat) returns (j: nat)
      requires i < data.Length
      ensures j == At(i, 1, data.Length)
    {
      j := (i + 1) % data.Length;
      if i + 1 == data.Length {
        SelfMod(data.Length);
      } else {
        SmallMod(i + 1, data.Length);
      }
    }

    method Enqueue(item: T) returns (ok: bool)
      requires Valid()
      modifies this, data
      ensures Valid() && ok == (|old(fifo.contents)| < data.Length)
      ensures ok ==> fifo == old(Fifo(fifo.contents + [item], fifo.accepted + [item], fifo.removed))
      ensures !ok ==> fifo == old(fifo)
      ensures Complete(old(fifo), data.Length, Enq(item)) == Some(fifo)
    {
      if IsFull() {
        return false;
      }
      data[tail] := item;
      ghost var was := old(data[..]);
      assert data[..] == was[tail := item];
      RingGrows(was, head, count, item);
      tail := Next(tail);
      count := count + 1;
      fifo := Fifo(fifo.contents + [item], fifo.accepted + [item], fifo.removed);
      assert fifo.accepted == fifo.removed + fifo.contents;
      return true;
    }

    /** Take the head item out: what every dequeue does once it holds the mutex and has found an item; the whole of
        a completing blocking dequeue. */
    method TakeHead() returns (item: T)
      requires Valid() && count > 0
      modifies this
      ensures Valid() && item == old(fifo.contents)[0] && count == old(count) - 1
      ensures fifo == old(Fifo(fifo.contents[1..], fifo.accepted, fifo.removed + [fifo.contents[0]]))
      ensures Complete(old(fifo), data.Length, DeqWait) == Some(fifo)
    {
      item := data[head];
      RingShrinks(data[..], head, count);
      fifo := Fifo(fifo.contents[1..], fifo.accepted, fifo.removed + [fifo.contents[0]]);
      assert fifo.accepted == fifo.removed + fifo.contents;
      head := Next(head);
      count := count - 1;
    }

    /** The first item, or `none` (the literal 0 of the source) when there is nothing: the caller cannot tell which. */
    method DequeueNotBlock(none: T) returns (item: T)
      requires Valid()
      modifies this
      ensures Valid()
      ensures old(fifo.contents) == [] ==> item == none && fifo == old(fifo)
      ensures old(fifo.contents) != [] ==> item == old(fifo.contents)[0] && fifo.contents == old(fifo.contents)[1..]
      ensures Complete(old(fifo), data.Length, Deq) == Some(fifo)
    {
      if IsEmpty() {
        return none;
      }
      item := TakeHead();
    }

    /** Both drain-all variants, once they hold the lock and have found an item: everything, first in first out. */
    method DequeueAll() returns (all: seq<T>)
      requires Valid()
      modifies this
      ensures Valid() && all == old(fifo.contents) && fifo.contents == [] && count == 0
      ensures Complete(old(fifo), data.Length, Drain) == Some(fifo)
    {
      hide Ring, At, Complete;
      all := [];
      ghost var start := fifo;
      assert start.removed + [] == start.removed;
      while !IsEmpty()
        invariant Valid() && all + fifo.contents == start.contents
        invariant fifo.accepted == start.accepted && fifo.removed == start.removed + all
        decreases count
      {
        ghost var before := fifo;
        var item := TakeHead();
        assert all + before.contents == (all + [item]) + fifo.contents;
        assert start.removed + all + [item] == start.removed + (all + [item]);
        all := all + [item];
      }
      assert all + [] == all;
      DrainsAll(start, data.Length);
    }

    method Clear()
      requires Valid()
      modifies this
      ensures Valid() && Complete(old(fifo), data.Length, Op.Clear) == Some(fifo)
      ensures fifo.contents == fifo.accepted == fifo.removed == [] && head == tail == count == 0
    {
      head, tail, count := 0, 0, 0;
      fifo := Fifo([], [], []);
    }
  }

  lemma DrainsAll<T>(q: Fifo<T>, capacity: nat)
    ensures Complete(q, capacity, Drain) == Some(Fifo([], q.accepted, q.removed + q.contents))
  {
  }

  lemma SelfMod(n: nat)
    requires n > 0
    ensures n % n == 0
  {
  }

  lemma SmallMod(i: nat, n: nat)
    requires i < n
    ensures i % n == i
  {
  }

  /** Writing the slot behind the last item extends the ring and disturbs nothing in it. */
  lemma RingGrows<T>(data: seq<T>, head: nat, count: nat, item: T)
    requires count < |data| && head < |data|
    ensures Ring(data[At(head, count, |data|) := item], head, count + 1) == Ring(data, head, count) + [item]
  {
  }

  lemma RingShrinks<T>(data: seq<T>, head: nat, count: nat)
    requires 0 < count <= |data| && head < |data|
    ensures Ring(data, head, count)[0] == data[head]
    ensures Ring(data, At(head, 1, |data|), count - 1) == Ring(data, head, count)[1..]
    ensures At(At(head, 1, |data|), count - 1, |data|) == At(head, count, |data|)
  {
    var l, r := Ring(data, At(head, 1, |data|), count - 1), Ring(data, head, count)[1..];
    forall k | 0 <= k < count - 1 ensures l[k] == r[k] {
      assert At(At(head, 1, |data|), k, |data|) == At(head, k + 1, |data|);
    }
  }

  // ---- what each operation does

  datatype Op<T> = Enq(item: T) | Deq | DeqWait | Drain | DrainWait | Clear

  /** What an operation that completes does, as the methods above do it. A blocking dequeue completes only on a
      non-empty queue: on an empty one its loop sleeps and tests again, with the mutex held. */
  function Complete<T>(q: Fifo<T>, capacity: nat, op: Op<T>): Option<Fifo<T>>
  {
    match op
    case Enq(x) =>
      Some(if |q.contents| < capacity then Fifo(q.contents + [x], q.accepted + [x], q.removed) else q)
    case Deq => Some(if q.contents == [] then q else Fifo(q.contents[1..], q.accepted, q.removed + [q.contents[0]]))
    case DeqWait =>
      if q.contents == [] then None else Some(Fifo(q.contents[1..], q.accepted, q.removed + [q.contents[0]]))
    case Drain => Some(Fifo([], q.accepted, q.removed + q.contents))
    case DrainWait => if q.contents == [] then None else Some(Fifo([], q.accepted, q.removed + q.contents))
    case Clear => Some(Fifo([], [], []))
  }
}
