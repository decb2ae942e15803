/** `CdrawQueue` between threads: its operations interleaved at single reads and writes of the fields. */
module QueueThreads {
  import opened Options
  import opened RingQueue

  /** The next access of a thread that holds the mutex. */
  datatype Pc =
    | Sleep                                           // a blocking dequeue's loop reads count
    | Check                                           // full, or empty?
    | LoadTail | Store | ReloadTail | BumpTail        // data[tail] = item; tail = (tail + 1) % capacity
    | LoadCountUp | CountUp                           // count++
    | Test                                            // the drain loop reads count
    | LoadHead | Take | ReloadHead | BumpHead         // item = data[head]; head = (head + 1) % capacity
    | LoadCountDown | CountDown                       // count--
    | ZeroHead | ZeroTail | ZeroCount
    | Release

  /** Inside, a thread has the index or count it loaded last and the items it has taken. `entered` is for the
      proofs: the queue as it was when the thread took the mutex. */
  datatype Thread<T> =
    | Outside
    | Waiting(op: Op<T>)
    | Inside(op: Op<T>, pc: Pc, loaded: nat, taken: seq<T>, entered: Fifo<T>)

  /** The fields of the object, the mutex, and what has been accepted and removed since the last clear. */
  datatype Fields<T> = Fields(
    data: seq<T>, head: nat, tail: nat, count: nat, owner: Option<nat>, accepted: seq<T>, removed: seq<T>)

  datatype System<T> = System(q: Fields<T>, threads: seq<Thread<T>>)

  /** A turn of one thread; `call` is what it calls when it is outside. */
  datatype Turn<T> = Turn(thread: nat, call: Op<T>)

  function Start<T>(op: Op<T>): Pc
  {
    match op
    case DeqWait => Sleep
    case DrainWait => Sleep
    case Clear => ZeroHead
    case _ => Check
  }

  /** The queue the fields stand for. */
  function Now<T>(q: Fields<T>): Fifo<T>
  {
    Fifo(if q.count <= |q.data| && (|q.data| > 0 ==> q.head < |q.data|) then Ring(q.data, q.head, q.count) else [],
         q.accepted, q.removed)
  }

  function Successor(i: nat, capacity: nat): nat { if capacity == 0 then 0 else (i + 1) % capacity }

  predicate Single<T>(op: Op<T>) { op.Deq? || op.DeqWait? }
  predicate Takes<T>(op: Op<T>) { Single(op) || op.Drain? || op.DrainWait? }

  /** One access of the thread that holds the mutex: it reads one field or writes one. */
  function Access<T>(q: Fields<T>, th: Thread<T>): (r: (Fields<T>, Thread<T>))
    requires th.Inside?
  {
    match th.pc
    case Sleep => (q, if q.count == 0 then th else th.(pc := if Single(th.op) then LoadHead else Check))
    case Check =>
      (q, th.(pc := if th.op.Enq? then (if q.count == |q.data| then Release else LoadTail)
                    else if q.count == 0 then Release
                    else if Single(th.op) then LoadHead else Test))
    case LoadTail => (q, th.(pc := Store, loaded := q.tail))
    case Store =>
      (if th.op.Enq? && th.loaded < |q.data| then q.(data := q.data[th.loaded := th.op.item]) else q,
       th.(pc := ReloadTail))
    case ReloadTail => (q, th.(pc := BumpTail, loaded := q.tail))
    case BumpTail => (q.(tail := Successor(th.loaded, |q.data|)), th.(pc := LoadCountUp))
    case LoadCountUp => (q, th.(pc := CountUp, loaded := q.count))
    case CountUp =>
      (q.(count := th.loaded + 1, accepted := q.accepted + if th.op.Enq? then [th.op.item] else []), th.(pc := Release))
    case Test => (q, th.(pc := if q.count == 0 then Release else LoadHead))
    case LoadHead => (q, th.(pc := Take, loaded := q.head))
    case Take =>
      (q, th.(pc := ReloadHead, taken := th.taken + if th.loaded < |q.data| then [q.data[th.loaded]] else []))
    case ReloadHead => (q, th.(pc := BumpHead, loaded := q.head))
    case BumpHead => (q.(head := Successor(th.loaded, |q.data|)), th.(pc := LoadCountDown))
    case LoadCountDown => (q, th.(pc := CountDown, loaded := q.count))
    case CountDown =>
      (q.(count := if th.loaded == 0 then 0 else th.loaded - 1,
          removed := q.removed + if th.taken == [] then [] else [th.taken[|th.taken| - 1]]),
       th.(pc := if Single(th.op) then Release else Test))
    case ZeroHead => (q.(head := 0), th.(pc := ZeroTail))
    case ZeroTail => (q.(tail := 0), th.(pc := ZeroCount))
    case ZeroCount => (q.(count := 0, accepted := [], removed := []), th.(pc := Release))
    case Release => (q.(owner := None), Outside)
  }

  /** One turn: call an operation, take the mutex if it is free, or make the next access. */
  function Step<T>(s: System<T>, turn: Turn<T>): (s': System<T>)
    requires turn.thread < |s.threads|
    ensures |s'.threads| == |s.threads|
  {
    var t := turn.thread;
    match s.threads[t]
    case Outside => s.(threads := s.threads[t := Waiting(turn.call)])
    case Waiting(op) =>
      if s.q.owner.Some? then s
      else System(s.q.(owner := Some(t)), s.threads[t := Inside(op, Start(op), 0, [], Now(s.q))])
    case Inside(_, _, _, _, _) =>
      var (q, th) := Access(s.q, s.threads[t]);
      System(q, s.threads[t := th])
  }

  ghost predicate Schedules<T>(schedule: seq<Turn<T>>, n: nat)
  {
    forall i :: 0 <= i < |schedule| ==> schedule[i].thread < n
  }

  ghost function Run<T>(s: System<T>, schedule: seq<Turn<T>>): (s': System<T>)
    requires Schedules(schedule, |s.threads|)
    ensures |s'.threads| == |s.threads|
    decreases |schedule|
  {
    if schedule == [] then s else Run(Step(s, schedule[0]), schedule[1..])
  }

  // ---- what holds in every interleaving

  /** Head in range and tail = (head + count) mod capacity, around the ring. */
  ghost predicate Around<T>(q: Fields<T>, count: nat)
  {
    && count <= |q.data|
    && (if |q.data| == 0 then q.head == q.tail == 0
        else q.head < |q.data| && q.tail == At(q.head, count, |q.data|))
  }

  /** The fields of a queue nobody is changing: what was accepted is what was removed, then the ring from head on. */
  ghost predicate AtRest<T>(q: Fields<T>)
  {
    Around(q, q.count) && q.accepted == q.removed + Ring(q.data, q.head, q.count)
  }

  /** The items taken so far and the ring make up what the thread found; `done` of them are counted as removed. */
  ghost predicate Taking<T>(q: Fields<T>, th: Thread<T>, count: nat, done: nat)
    requires th.Inside? && Around(q, count) && done <= |th.taken|
  {
    && Takes(th.op) && q.accepted == th.entered.accepted
    && q.removed == th.entered.removed + th.taken[..done]
    && th.entered.contents == th.taken[..done] + Ring(q.data, q.head, count)
    && (Single(th.op) ==> done == 0 || th.pc == Release)
  }

  ghost predicate Adding<T>(q: Fields<T>, th: Thread<T>)
    requires th.Inside? && Around(q, q.count)
  {
    th.op.Enq? && AtRest(q) && Now(q) == th.entered && q.count < |q.data|
  }

  /** How far the holder of the mutex is with its operation, access by access. */
  ghost predicate Holding<T>(q: Fields<T>, th: Thread<T>)
    requires th.Inside?
  {
    var n, got := |q.data|, |th.taken|;
    && |th.entered.contents| <= n && th.entered.accepted == th.entered.removed + th.entered.contents
    && match th.pc
       case Sleep => AtRest(q) && Now(q) == th.entered && got == 0 && (th.op.DeqWait? || th.op.DrainWait?)
       case Check => AtRest(q) && Now(q) == th.entered && got == 0 && !th.op.Clear? && !th.op.DeqWait?
         && (th.op.DrainWait? ==> q.count > 0)
       case LoadTail => Around(q, q.count) && Adding(q, th)
       case Store => Around(q, q.count) && Adding(q, th) && th.loaded == q.tail
       case ReloadTail => Around(q, q.count) && Adding(q, th) && q.data[q.tail] == th.op.item
       case BumpTail => Around(q, q.count) && Adding(q, th) && q.data[q.tail] == th.op.item && th.loaded == q.tail
       case LoadCountUp => Added(q, th)
       case CountUp => Added(q, th) && th.loaded == q.count
       case Test => AtRest(q) && Taking(q, th, q.count, got) && !Single(th.op)
         && (th.op.DrainWait? ==> th.entered.contents != [])
       case LoadHead => AtRest(q) && q.count > 0 && Taking(q, th, q.count, got)
       case Take => AtRest(q) && q.count > 0 && Taking(q, th, q.count, got) && th.loaded == q.head
       case ReloadHead => Took(q, th)
       case BumpHead => Took(q, th) && th.loaded == q.head
       case LoadCountDown => Dropping(q, th)
       case CountDown => Dropping(q, th) && th.loaded == q.count
       case ZeroHead => th.op.Clear? && AtRest(q)
       case ZeroTail => th.op.Clear? && q.head == 0
       case ZeroCount => th.op.Clear? && q.head == q.tail == 0
       case Release => AtRest(q) && Finished(q, th)
  }

  /** The new item is behind the tail that was; count does not know of it yet. */
  ghost predicate Added<T>(q: Fields<T>, th: Thread<T>)
    requires th.Inside?
  {
    && th.op.Enq? && q.count < |q.data| && Around(q, q.count + 1)
    && Ring(q.data, q.head, q.count + 1) == th.entered.contents + [th.op.item]
    && q.accepted == th.entered.accepted && q.removed == th.entered.removed
  }

  /** The head item is taken, head still points at it. */
  ghost predicate Took<T>(q: Fields<T>, th: Thread<T>)
    requires th.Inside?
  {
    && AtRest(q) && q.count > 0 && |th.taken| > 0 && Taking(q, th, q.count, |th.taken| - 1)
    && th.taken[|th.taken| - 1] == q.data[q.head]
  }

  /** The head item is taken and head is past it; count does not know yet. */
  ghost predicate Dropping<T>(q: Fields<T>, th: Thread<T>)
    requires th.Inside?
  {
    && q.count > 0 && |th.taken| > 0 && Around(q, q.count - 1)
    && Takes(th.op) && (Single(th.op) ==> |th.taken| == 1)
    && q.accepted == th.entered.accepted
    && q.removed == th.entered.removed + th.taken[..|th.taken| - 1]
    && th.entered.contents == th.taken + Ring(q.data, q.head, q.count - 1)
  }

  /** The operation did, from the queue it found, what it does alone, and has in hand what it returns. */
  ghost predicate Finished<T>(q: Fields<T>, th: Thread<T>)
    requires th.Inside?
  {
    && Complete(th.entered, |q.data|, th.op) == Some(Now(q))
    && (Single(th.op) ==> th.taken == if th.entered.contents == [] then [] else th.entered.contents[..1])
    && (th.op.Drain? || th.op.DrainWait? ==> th.taken == th.entered.contents)
  }

  /** Only the owner of the mutex is inside; without an owner the queue is at rest. */
  ghost predicate Good<T>(s: System<T>)
  {
    && (forall t :: 0 <= t < |s.threads| ==> (s.threads[t].Inside? <==> s.q.owner == Some(t)))
    && match s.q.owner
       case None => AtRest(s.q)
       case Some(t) => t < |s.threads| && s.threads[t].Inside? && Holding(s.q, s.threads[t])
  }

  /** An access of the holder takes it to its next point, with the ring as that point has it. */
  lemma AccessHolds<T>(q: Fields<T>, th: Thread<T>)
    requires th.Inside? && Holding(q, th)
    ensures var (q', th') := Access(q, th);
      && |q'.data| == |q.data|
      && (th.pc == Release ==> AtRest(q') && q'.owner == None && th' == Outside && Now(q') == Now(q))
      && (th.pc != Release ==> th'.Inside? && q'.owner == q.owner && th'.entered == th.entered && Holding(q', th'))
  {
    hide Holding, AtRest, Now;
    match th.pc
    case Store => StoreHolds(q, th);
    case BumpTail => BumpTailHolds(q, th);
    case CountUp => CountUpHolds(q, th);
    case Take => TakeHolds(q, th);
    case BumpHead => BumpHeadHolds(q, th);
    case CountDown => CountDownHolds(q, th);
    case Test => TestHolds(q, th);
    case Check => CheckHolds(q, th);
    case LoadTail => LoadHolds(q, th);
    case ReloadTail => LoadHolds(q, th);
    case LoadCountUp => LoadHolds(q, th);
    case LoadHead => LoadHolds(q, th);
    case ReloadHead => LoadHolds(q, th);
    case LoadCountDown => LoadHolds(q, th);
    case Sleep => SleepHolds(q, th);
    case Release => ReleaseHolds(q, th);
    case _ => ZeroHolds(q, th);
  }

  lemma LoadHolds<T>(q: Fields<T>, th: Thread<T>)
    requires th.Inside? && Holding(q, th)
    requires th.pc in {LoadTail, ReloadTail, LoadCountUp, LoadHead, ReloadHead, LoadCountDown}
    ensures var (q', th') := Access(q, th); q' == q && Holding(q', th')
  {
  }

  lemma SleepHolds<T>(q: Fields<T>, th: Thread<T>)
    requires th.Inside? && th.pc == Sleep && Holding(q, th)
    ensures var (q', th') := Access(q, th); q' == q && Holding(q', th')
  {
    assert th.taken == [];
    assert th.entered.removed + th.taken == th.entered.removed;
    assert th.taken + Ring(q.data, q.head, q.count) == Ring(q.data, q.head, q.count);
  }

  lemma ReleaseHolds<T>(q: Fields<T>, th: Thread<T>)
    requires th.Inside? && th.pc == Release && Holding(q, th)
    ensures var (q', th') := Access(q, th); AtRest(q') && Now(q') == Now(q)
  {
  }

  lemma ZeroHolds<T>(q: Fields<T>, th: Thread<T>)
    requires th.Inside? && Holding(q, th) && th.pc in {ZeroHead, ZeroTail, ZeroCount}
    ensures var (q', th') := Access(q, th); Holding(q', th')
  {
  }

  lemma StoreHolds<T>(q: Fields<T>, th: Thread<T>)
    requires th.Inside? && th.pc == Store && Holding(q, th)
    ensures var (q', th') := Access(q, th); Holding(q', th')
  {
    var (q', th') := Access(q, th);
    RingGrows(q.data, q.head, q.count, th.op.item);
    assert Ring(q'.data, q.head, q.count) == Ring(q'.data, q.head, q.count + 1)[..q.count];
    assert Ring(q'.data, q.head, q.count) == Ring(q.data, q.head, q.count);
  }

  lemma SuccessorIs(i: nat, capacity: nat)
    requires i < capacity
    ensures Successor(i, capacity) == At(i, 1, capacity)
  {
    if i + 1 == capacity { SelfMod(capacity); } else { SmallMod(i + 1, capacity); }
  }

  lemma BumpTailHolds<T>(q: Fields<T>, th: Thread<T>)
    requires th.Inside? && th.pc == BumpTail && Holding(q, th)
    ensures var (q', th') := Access(q, th); Holding(q', th')
  {
    SuccessorIs(q.tail, |q.data|);
    RingGrows(q.data, q.head, q.count, th.op.item);
    assert q.data[q.tail := th.op.item] == q.data;
  }

  lemma CountUpHolds<T>(q: Fields<T>, th: Thread<T>)
    requires th.Inside? && th.pc == CountUp && Holding(q, th)
    ensures var (q', th') := Access(q, th); Holding(q', th')
  {
    var (q', th') := Access(q, th);
    assert q'.accepted == q'.removed + Ring(q'.data, q'.head, q'.count);
  }

  lemma CheckHolds<T>(q: Fields<T>, th: Thread<T>)
    requires th.Inside? && th.pc == Check && Holding(q, th)
    ensures var (q', th') := Access(q, th); Holding(q', th')
  {
    assert th.taken == [];
    assert th.entered.removed + th.taken == th.entered.removed;
    assert th.taken + Ring(q.data, q.head, q.count) == Ring(q.data, q.head, q.count);
  }

  lemma TestHolds<T>(q: Fields<T>, th: Thread<T>)
    requires th.Inside? && th.pc == Test && Holding(q, th)
    ensures var (q', th') := Access(q, th); Holding(q', th')
  {
    assert th.taken[..|th.taken|] == th.taken;
    if q.count == 0 {
      assert th.taken + Ring(q.data, q.head, q.count) == th.taken;
    }
  }

  lemma TakeHolds<T>(q: Fields<T>, th: Thread<T>)
    requires th.Inside? && th.pc == Take && Holding(q, th)
    ensures var (q', th') := Access(q, th); Holding(q', th')
  {
    var (q', th') := Access(q, th);
    assert th.taken[..|th.taken|] == th.taken == th'.taken[..|th'.taken| - 1];
  }

  lemma BumpHeadHolds<T>(q: Fields<T>, th: Thread<T>)
    requires th.Inside? && th.pc == BumpHead && Holding(q, th)
    ensures var (q', th') := Access(q, th); Holding(q', th')
  {
    var front, ring := th.taken[..|th.taken| - 1], Ring(q.data, q.head, q.count);
    SuccessorIs(q.head, |q.data|);
    RingShrinks(q.data, q.head, q.count);
    assert th.taken == front + [q.data[q.head]];
    assert front + ring == th.taken + ring[1..];
  }

  lemma CountDownHolds<T>(q: Fields<T>, th: Thread<T>)
    requires th.Inside? && th.pc == CountDown && Holding(q, th)
    ensures var (q', th') := Access(q, th); Holding(q', th')
  {
    var (q', th') := Access(q, th);
    var front, ring := th.taken[..|th.taken| - 1], Ring(q'.data, q'.head, q'.count);
    assert th.taken == front + [th.taken[|th.taken| - 1]] == th.taken[..|th.taken|];
    assert q'.removed == th.entered.removed + th.taken;
    assert q'.accepted == th.entered.removed + (th.taken + ring) == q'.removed + ring;
    if Single(th.op) {
      assert th.entered.contents == th.taken + ring && th.taken == th.entered.contents[..1];
      assert ring == th.entered.contents[1..];
    }
  }

  lemma StepGood<T>(s: System<T>, turn: Turn<T>)
    requires Good(s) && turn.thread < |s.threads|
    ensures Good(Step(s, turn))
  {
    hide Holding, AtRest, Access;
    match s.threads[turn.thread]
    case Outside =>
    case Waiting(op) => if s.q.owner.None? { TakesMutex(s.q, op, turn.thread); }
    case Inside(_, _, _, _, _) => AccessHolds(s.q, s.threads[turn.thread]);
  }

  lemma TakesMutex<T>(q: Fields<T>, op: Op<T>, t: nat)
    requires AtRest(q)
    ensures Holding(q.(owner := Some(t)), Inside(op, Start(op), 0, [], Now(q)))
  {
  }

  /** In every interleaving: only the owner of the mutex is inside, whoever is about to release it has done exactly what
      its operation does alone, and whenever the mutex is free tail is (head + count) mod capacity and what was accepted
      since the last clear is what was removed followed by the ring from head on. */
  lemma {:induction false} RunGood<T>(s: System<T>, schedule: seq<Turn<T>>)
    requires Good(s) && Schedules(schedule, |s.threads|)
    ensures Good(Run(s, schedule))
    decreases |schedule|
  {
    hide Good;
    if schedule != [] {
      StepGood(s, schedule[0]);
      RunGood(Step(s, schedule[0]), schedule[1..]);
    }
  }

  /** A new queue of the given capacity (filled with x) and n threads, none of which has called it yet. */
  function Fresh<T>(x: T, capacity: nat, n: nat): System<T>
  {
    System(Fields(seq(capacity, _ => x), 0, 0, 0, None, [], []), seq(n, _ => Outside))
  }

  lemma FreshGood<T>(x: T, capacity: nat, n: nat)
    ensures Good(Fresh(x, capacity, n))
  {
    var q := Fresh(x, capacity, n).q;
    assert q.removed + Ring(q.data, 0, 0) == [];
  }

  /** So in every run from a new queue: whatever the threads call, in whatever order they are scheduled. */
  lemma EveryRun<T>(x: T, capacity: nat, n: nat, schedule: seq<Turn<T>>)
    requires Schedules(schedule, n)
    ensures Good(Run(Fresh(x, capacity, n), schedule))
  {
    FreshGood(x, capacity, n);
    RunGood(Fresh(x, capacity, n), schedule);
  }

  /** While one thread holds the mutex no other reads or writes a field, whatever the holder is in the middle of. */
  lemma OthersBlocked<T>(s: System<T>, turn: Turn<T>, t: nat)
    requires Good(s) && s.q.owner == Some(t) && turn.thread < |s.threads| && turn.thread != t
    ensures Step(s, turn).q == s.q && Step(s, turn).threads[t] == s.threads[t]
    ensures !s.threads[turn.thread].Inside? && !Step(s, turn).threads[turn.thread].Inside?
  {
  }

  // ---- which operations come back

  /** Thread t sleeps in a blocking dequeue and the queue is empty. */
  ghost predicate Stuck<T>(s: System<T>, t: nat)
  {
    && t < |s.threads| && s.q.owner == Some(t) && s.q.count == 0
    && s.threads[t].Inside? && s.threads[t].pc == Sleep
  }

  /** Then it never comes out: no thread can ever put an item in, because the sleeper keeps the mutex. */
  lemma {:induction false} StuckForever<T>(s: System<T>, schedule: seq<Turn<T>>, t: nat)
    requires Good(s) && Stuck(s, t) && Schedules(schedule, |s.threads|)
    ensures Stuck(Run(s, schedule), t) && Run(s, schedule).q == s.q
    decreases |schedule|
  {
    hide Good;
    if schedule != [] {
      StepGood(s, schedule[0]);
      if schedule[0].thread != t { OthersBlocked(s, schedule[0], t); }
      StuckForever(Step(s, schedule[0]), schedule[1..], t);
    }
  }

  /** One thread alone gets there in two turns on a new queue: it calls, it takes the mutex. */
  lemma StuckReachable<T>(x: T, capacity: nat, op: Op<T>)
    requires op.DeqWait? || op.DrainWait?
    ensures Stuck(Run(Fresh(x, capacity, 1), [Turn(0, op), Turn(0, op)]), 0)
  {
    var s, call := Fresh(x, capacity, 1), Turn(0, op);
    var two := [call, call];
    var next, one := Step(s, call), two[1..];
    assert one == [call] && one[1..] == [];
    assert Run(next, one) == Run(Step(next, one[0]), one[1..]) == Step(next, call);
    assert Run(s, two) == Run(next, one);
  }

  /** How often thread t is scheduled. */
  function Turns<T>(schedule: seq<Turn<T>>, t: nat): nat
  {
    if schedule == [] then 0 else (if schedule[0].thread == t then 1 else 0) + Turns(schedule[1..], t)
  }

  /** Thread t is out again after some of the turns. */
  ghost predicate Leaves<T>(s: System<T>, schedule: seq<Turn<T>>, t: nat)
    requires Schedules(schedule, |s.threads|) && t < |s.threads|
  {
    exists n :: 0 <= n <= |schedule| && OutAfter(s, schedule, t, n)
  }

  ghost predicate OutAfter<T>(s: System<T>, schedule: seq<Turn<T>>, t: nat, n: nat)
    requires Schedules(schedule, |s.threads|) && t < |s.threads| && n <= |schedule|
  {
    Run(s, schedule[..n]).threads[t].Outside?
  }

  /** At most this many accesses are left, when count items are in the ring. */
  function Left<T>(th: Thread<T>, count: nat): nat
    requires th.Inside?
  {
    var behind := if Single(th.op) then 1 else if count == 0 then 2 else 7 * (count - 1) + 2;
    match th.pc
    case Release => 1
    case CountUp => 2 case LoadCountUp => 3 case BumpTail => 4 case ReloadTail => 5 case Store => 6 case LoadTail => 7
    case ZeroCount => 2 case ZeroTail => 3 case ZeroHead => 4
    case CountDown => 1 + behind case LoadCountDown => 2 + behind case BumpHead => 3 + behind
    case ReloadHead => 4 + behind case Take => 5 + behind case LoadHead => 6 + behind
    case Test => 7 * count + 2
    case Check => 7 * count + 8
    case Sleep => 7 * count + 9
  }

  /** Unless it sleeps over an empty queue, every access brings the holder closer to the end of its operation. */
  lemma AccessProgress<T>(q: Fields<T>, th: Thread<T>)
    requires th.Inside? && Holding(q, th) && !(th.pc == Sleep && q.count == 0)
    ensures var (q', th') := Access(q, th);
      th'.Inside? ==> Left(th', q'.count) < Left(th, q.count) && !(th'.pc == Sleep && q'.count == 0)
  {
    hide AtRest, Taking, Finished, Adding;
  }

  lemma {:induction false} HolderLeaves<T>(s: System<T>, schedule: seq<Turn<T>>, t: nat)
    requires Good(s) && Schedules(schedule, |s.threads|)
    requires t < |s.threads| && s.threads[t].Inside? && !Stuck(s, t)
    requires Turns(schedule, t) >= Left(s.threads[t], s.q.count)
    ensures Leaves(s, schedule, t)
    decreases |schedule|
  {
    hide Left, Holding, Access;
    LeftPositive(s.threads[t], s.q.count);
    var next, rest := Step(s, schedule[0]), schedule[1..];
    StepGood(s, schedule[0]);
    if schedule[0].thread != t {
      OthersBlocked(s, schedule[0], t);
      HolderLeaves(next, rest, t);
      LeavesLater(s, schedule, t);
    } else {
      AccessHolds(s.q, s.threads[t]);
      AccessProgress(s.q, s.threads[t]);
      if next.threads[t].Inside? {
        HolderLeaves(next, rest, t);
      } else {
        assert Run(next, rest[..0]) == next;
        assert OutAfter(next, rest, t, 0);
      }
      LeavesLater(s, schedule, t);
    }
  }

  lemma LeftPositive<T>(th: Thread<T>, count: nat)
    requires th.Inside?
    ensures Left(th, count) > 0
  {
  }

  lemma LeavesLater<T>(s: System<T>, schedule: seq<Turn<T>>, t: nat)
    requires Schedules(schedule, |s.threads|) && t < |s.threads| && schedule != []
    requires Leaves(Step(s, schedule[0]), schedule[1..], t)
    ensures Leaves(s, schedule, t)
  {
    var n :| 0 <= n <= |schedule[1..]| && OutAfter(Step(s, schedule[0]), schedule[1..], t, n);
    assert schedule[..n + 1][1..] == schedule[1..][..n];
    assert OutAfter(s, schedule, t, n + 1);
  }

  /** A blocking dequeue that has just taken the mutex, given its turns, comes back if and only if the queue is not
      empty at that moment; how the other threads run makes no difference. */
  lemma BlockingCompletes<T>(s: System<T>, schedule: seq<Turn<T>>, t: nat)
    requires Good(s) && Schedules(schedule, |s.threads|)
    requires t < |s.threads| && s.threads[t].Inside? && s.threads[t].pc == Sleep
    requires Turns(schedule, t) >= Left(s.threads[t], s.q.count)
    ensures Leaves(s, schedule, t) <==> Now(s.q).contents != []
  {
    hide Good, Left, Run;
    HolderHolds(s, t);
    if s.q.count > 0 {
      HolderLeaves(s, schedule, t);
    } else {
      forall n | 0 <= n <= |schedule| ensures !OutAfter(s, schedule, t, n) {
        StuckForever(s, schedule[..n], t);
      }
    }
  }

  lemma HolderHolds<T>(s: System<T>, t: nat)
    requires Good(s) && t < |s.threads| && s.threads[t].Inside?
    ensures s.q.owner == Some(t) && Holding(s.q, s.threads[t])
  {
  }

  /** Every other operation comes back from wherever it is, given its turns. */
  lemma OthersComplete<T>(s: System<T>, schedule: seq<Turn<T>>, t: nat)
    requires Good(s) && Schedules(schedule, |s.threads|)
    requires t < |s.threads| && s.threads[t].Inside? && !s.threads[t].op.DeqWait? && !s.threads[t].op.DrainWait?
    requires Turns(schedule, t) >= Left(s.threads[t], s.q.count)
    ensures Leaves(s, schedule, t)
  {
    hide Left, Run, Leaves;
    HolderHolds(s, t);
    HolderLeaves(s, schedule, t);
  }
}
