/** The connection pool as steps of many threads: a queue under a mutex, and a condition variable. */
module MysqlConnPool {
  import opened Machine

  // Connections are named by their index in the array; threads by a number.
  type Conn = nat
  type Tid = nat

  /** Where a thread stands in get or put. A getter remembers whether it comes back from a wait. */
  datatype Pc =
    | Idle
    | GetLock
    | GetTest(woken: bool)
    | GetPop(woken: bool)
    | GetUnlock(c: Conn)
    | Sleeping
    | Woken
    | PutLock(c: Conn)
    | PutPush(c: Conn)
    | PutUnlock
    | PutSignal

  // pushed and popped record all connections that ever entered and left the queue.
  datatype Pool = Pool(
    queue: seq<Conn>, owner: Option<Tid>, pcs: map<Tid, Pc>, held: map<Tid, set<Conn>>,
    pushed: seq<Conn>, popped: seq<Conn>)

  datatype Action =
    | BeginGet(t: Tid)
    | BeginPut(t: Tid, c: Conn)
    | Acquire(t: Tid)
    | Test(t: Tid)
    | Pop(t: Tid)
    | Push(t: Tid)
    | Release(t: Tid)
    | Signal(t: Tid, wake: set<Tid>)
    | Spurious(t: Tid)

  predicate InCritical(pc: Pc) {
    pc.GetTest? || pc.GetPop? || pc.GetUnlock? || pc.PutPush? || pc.PutUnlock?
  }

  function Sleepers(pcs: map<Tid, Pc>): set<Tid> {
    set t | t in pcs.Keys && pcs[t].Sleeping?
  }

  predicate HasPushed(pc: Pc) {
    pc.PutUnlock? || pc.PutSignal?
  }

  predicate Rechecks(pc: Pc) {
    pc.Woken? || pc == GetTest(true) || pc == GetPop(true)
  }

  /** Threads that have pushed but not yet signalled. */
  function Pending(pcs: map<Tid, Pc>): set<Tid> {
    set t | t in pcs.Keys && HasPushed(pcs[t])
  }

  /** Getters back from a wait that have not yet taken a connection or gone to sleep again. */
  function Rechecking(pcs: map<Tid, Pc>): set<Tid> {
    set t | t in pcs.Keys && Rechecks(pcs[t])
  }

  predicate Enabled(s: Pool, a: Action) {
    && a.t in s.pcs && a.t in s.held
    && var pc := s.pcs[a.t];
       match a
       case BeginGet(_) => pc.Idle?
       case BeginPut(_, _) => pc.Idle?
       case Acquire(_) => (pc.GetLock? || pc.Woken? || pc.PutLock?) && s.owner.None?
       case Test(_) => pc.GetTest?
       case Pop(_) => pc.GetPop?
       case Push(_) => pc.PutPush?
       case Release(_) => pc.GetUnlock? || pc.PutUnlock?
       case Signal(_, wake) => pc.PutSignal? && wake <= Sleepers(s.pcs) && (Sleepers(s.pcs) != {} ==> wake != {})
       case Spurious(_) => pc.Sleeping?
  }

  /** A client gives back only a connection it has. */
  predicate Honest(s: Pool, a: Action) {
    a.BeginPut? ==> a.t in s.held && a.c in s.held[a.t]
  }

  /** The program counters after t's signal woke the threads in wake. */
  function Wake(pcs: map<Tid, Pc>, t: Tid, wake: set<Tid>): map<Tid, Pc> {
    map u | u in pcs :: if u == t then Idle else if u in wake then Woken else pcs[u]
  }

  function Next(s: Pool, a: Action): Pool
    requires Enabled(s, a)
  {
    var t, pc := a.t, s.pcs[a.t];
    match a
    case BeginGet(_) => s.(pcs := s.pcs[t := GetLock])
    case BeginPut(_, c) => s.(pcs := s.pcs[t := PutLock(c)])
    case Acquire(_) =>
      s.(owner := Some(t),
         pcs := s.pcs[t := if pc.PutLock? then PutPush(pc.c) else GetTest(pc.Woken?)])
    case Test(_) =>
      // An empty queue: pthread_cond_wait gives up the mutex and sleeps in one step.
      if s.queue == [] then s.(owner := None, pcs := s.pcs[t := Sleeping])
      else s.(pcs := s.pcs[t := GetPop(pc.woken)])
    case Pop(_) =>
      if s.queue == [] then s
      else s.(queue := s.queue[1..], popped := s.popped + [s.queue[0]],
              held := s.held[t := s.held[t] + {s.queue[0]}], pcs := s.pcs[t := GetUnlock(s.queue[0])])
    case Push(_) =>
      s.(queue := s.queue + [pc.c], pushed := s.pushed + [pc.c],
         held := s.held[t := s.held[t] - {pc.c}], pcs := s.pcs[t := PutUnlock])
    case Release(_) =>
      s.(owner := None, pcs := s.pcs[t := if pc.PutUnlock? then PutSignal else Idle])
    case Signal(_, wake) =>
      s.(pcs := Wake(s.pcs, t, wake))
    case Spurious(_) => s.(pcs := s.pcs[t := Woken])
  }

  function Initial(queue: seq<Conn>, threads: set<Tid>): Pool {
    Pool(queue, None, map t | t in threads :: Idle, map t | t in threads :: {}, queue, [])
  }

  // ---------- the mutex ----------

  ghost predicate Exclusive(s: Pool) {
    && s.pcs.Keys == s.held.Keys
    && (forall t :: t in s.pcs ==> (InCritical(s.pcs[t]) <==> s.owner == Some(t)))
    && (s.owner.Some? ==> s.owner.value in s.pcs)
    && (forall t :: t in s.pcs && s.pcs[t].GetPop? ==> s.queue != [])
  }

  /** At most one thread is between lock and unlock, and a getter about to pop finds a connection. */
  lemma StepKeepsExclusive(s: Pool, a: Action)
    requires Exclusive(s) && Enabled(s, a)
    ensures Exclusive(Next(s, a))
    ensures a.Pop? ==> s.queue != []
  {
  }

  // ---------- no lost wakeup ----------

  ghost predicate NoLostWakeup(s: Pool) {
    Sleepers(s.pcs) != {} ==> |s.queue| <= |Pending(s.pcs)| + |Rechecking(s.pcs)|
  }

  /** How one thread's move changes a set of threads. */
  lemma Moved(before: set<Tid>, after: set<Tid>, t: Tid)
    requires forall u :: u != t ==> (u in before <==> u in after)
    ensures |after| == |before| + (if t in after && t !in before then 1 else 0) - (if t in before && t !in after then 1 else 0)
  {
    if t in after && t !in before {
      assert after == before + {t};
    } else if t in before && t !in after {
      assert before == after + {t};
    } else {
      assert before == after;
    }
  }

  function Bit(b: bool): nat {
    if b then 1 else 0
  }

  lemma OneMoves(pcs: map<Tid, Pc>, pcs': map<Tid, Pc>, t: Tid)
    requires t in pcs && t in pcs' && pcs' == pcs[t := pcs'[t]]
    ensures |Pending(pcs')| == |Pending(pcs)| + Bit(HasPushed(pcs'[t])) - Bit(HasPushed(pcs[t]))
    ensures |Rechecking(pcs')| == |Rechecking(pcs)| + Bit(Rechecks(pcs'[t])) - Bit(Rechecks(pcs[t]))
  {
    Moved(Pending(pcs), Pending(pcs'), t);
    Moved(Rechecking(pcs), Rechecking(pcs'), t);
  }

  lemma MovedCounts(s: Pool, a: Action)
    requires Exclusive(s) && Enabled(s, a) && !a.Signal?
    ensures var (pc, pc') := (s.pcs[a.t], Next(s, a).pcs[a.t]);
            && |Pending(Next(s, a).pcs)| == |Pending(s.pcs)| + Bit(HasPushed(pc')) - Bit(HasPushed(pc))
            && |Rechecking(Next(s, a).pcs)| == |Rechecking(s.pcs)| + Bit(Rechecks(pc')) - Bit(Rechecks(pc))
  {
    OneMoves(s.pcs, Next(s, a).pcs, a.t);
  }

  lemma SignalCounts(pcs: map<Tid, Pc>, t: Tid, wake: set<Tid>)
    requires t in pcs && pcs[t].PutSignal? && wake <= Sleepers(pcs)
    ensures |Pending(Wake(pcs, t, wake))| == |Pending(pcs)| - 1
    ensures |Rechecking(Wake(pcs, t, wake))| == |Rechecking(pcs)| + |wake|
    ensures Sleepers(Wake(pcs, t, wake)) == Sleepers(pcs) - wake
  {
    var pcs' := Wake(pcs, t, wake);
    forall u | u in wake ensures u in pcs && pcs[u].Sleeping? && u != t {
      assert u in Sleepers(pcs);
    }
    assert Pending(pcs) == Pending(pcs') + {t} && t !in Pending(pcs');
    assert Rechecking(pcs') == Rechecking(pcs) + wake && Rechecking(pcs) !! wake;
    assert Sleepers(pcs') == Sleepers(pcs) - wake;
  }

  lemma StepKeepsWakeups(s: Pool, a: Action)
    requires Exclusive(s) && NoLostWakeup(s) && Enabled(s, a)
    ensures NoLostWakeup(Next(s, a))
  {
    hide Pending;
    hide Rechecking;
    var s' := Next(s, a);
    if a.Signal? {
      SignalCounts(s.pcs, a.t, a.wake);
      if Sleepers(s'.pcs) != {} {
        assert |a.wake| >= 1;
      }
    } else {
      MovedCounts(s, a);
      if !a.Test? {
        assert Sleepers(s'.pcs) <= Sleepers(s.pcs);
      }
    }
  }

  /** With no put between push and signal and no getter rechecking, a sleeping getter means an empty queue. */
  lemma SleeperMeansEmpty(s: Pool)
    requires NoLostWakeup(s) && Sleepers(s.pcs) != {} && Pending(s.pcs) == {} && Rechecking(s.pcs) == {}
    ensures s.queue == []
  {
  }

  /** Steps that threads inside get and put take on their own. */
  predicate Internal(a: Action) {
    a.Acquire? || a.Test? || a.Pop? || a.Push? || a.Release? || a.Signal?
  }

  lemma InsideCanMove(s: Pool, t: Tid) returns (a: Action)
    requires Exclusive(s) && t in s.pcs && !s.pcs[t].Idle? && !s.pcs[t].Sleeping?
    ensures Enabled(s, a) && Internal(a)
  {
    var u := if s.owner.Some? then s.owner.value else t;
    match s.pcs[u]
    case GetTest(_) => a := Test(u);
    case GetPop(_) => a := Pop(u);
    case PutPush(_) => a := Push(u);
    case GetUnlock(_) => a := Release(u);
    case PutUnlock => a := Release(u);
    case PutSignal => a := Signal(u, Sleepers(s.pcs));
    case GetLock => a := Acquire(u);
    case Woken => a := Acquire(u);
    case PutLock(_) => a := Acquire(u);
  }

  /** A getter never sleeps beside a non-empty queue with nobody left to wake it: some thread inside can still move. */
  lemma NoStuckSleeper(s: Pool) returns (a: Action)
    requires Exclusive(s) && NoLostWakeup(s) && Sleepers(s.pcs) != {} && s.queue != []
    ensures Enabled(s, a) && Internal(a)
  {
    var movers := Pending(s.pcs) + Rechecking(s.pcs);
    assert movers != {};
    var t :| t in movers;
    a := InsideCanMove(s, t);
  }

  // ---------- conservation ----------

  ghost predicate Distinct(q: seq<Conn>) {
    forall i, j :: 0 <= i < j < |q| ==> q[i] != q[j]
  }

  /** Every connection is in the queue once or held by one thread, and there are no others. */
  ghost predicate Partitioned(queue: seq<Conn>, held: map<Tid, set<Conn>>, all: set<Conn>) {
    && Distinct(queue)
    && (forall c :: c in queue ==> c in all)
    && (forall t, c :: t in held && c in held[t] ==> c in all && c !in queue)
    && (forall t, u, c :: t in held && u in held && c in held[t] && c in held[u] ==> t == u)
    && (forall c :: c in all ==> c in queue || exists t :: t in held && c in held[t])
  }

  ghost predicate Partition(s: Pool, all: set<Conn>) {
    Partitioned(s.queue, s.held, all)
  }

  /** What a thread is about to put, it holds. */
  ghost predicate HoldsWhatItPuts(s: Pool) {
    forall t :: t in s.pcs && t in s.held && (s.pcs[t].PutLock? || s.pcs[t].PutPush?) ==> s.pcs[t].c in s.held[t]
  }

  lemma TakeKeepsPartition(queue: seq<Conn>, held: map<Tid, set<Conn>>, t: Tid, all: set<Conn>)
    requires Partitioned(queue, held, all) && queue != [] && t in held
    ensures Partitioned(queue[1..], held[t := held[t] + {queue[0]}], all)
  {
    var c0, queue', held' := queue[0], queue[1..], held[t := held[t] + {queue[0]}];
    assert queue == [c0] + queue';
    assert c0 in queue && c0 !in queue';
    assert forall c :: c in queue <==> c == c0 || c in queue';
    assert forall u, c :: u in held' && c in held'[u] && c != c0 ==> u in held && c in held[u];
    assert forall u :: u in held && u != t ==> c0 !in held[u];
    assert forall i, j :: 0 <= i < j < |queue'| ==> queue'[i] == queue[i + 1] && queue'[j] == queue[j + 1];
    forall c | c in all ensures c in queue' || exists u :: u in held' && c in held'[u] {
      if c == c0 {
        assert c in held'[t];
      } else if c !in queue {
        var u :| u in held && c in held[u];
        assert c in held'[u];
      }
    }
  }

  lemma GiveKeepsPartition(queue: seq<Conn>, held: map<Tid, set<Conn>>, t: Tid, c0: Conn, all: set<Conn>)
    requires Partitioned(queue, held, all) && t in held && c0 in held[t]
    ensures Partitioned(queue + [c0], held[t := held[t] - {c0}], all)
  {
    var queue', held' := queue + [c0], held[t := held[t] - {c0}];
    assert forall c :: c in queue' <==> c in queue || c == c0;
    assert queue'[|queue|] == c0;
    assert c0 !in queue;
    forall u, c | u in held' && c in held'[u] ensures c != c0 && c in held[u] && c !in queue' {
      assert c == c0 ==> u == t;
    }
    forall c | c in all ensures c in queue' || exists u :: u in held' && c in held'[u] {
      if c != c0 && c !in queue {
        var u :| u in held && c in held[u];
        assert c in held'[u];
      }
    }
  }

  /** A connection the giver does not hold is in the queue already, with someone else, or foreign. */
  lemma GiveOnlyWhatYouHold(queue: seq<Conn>, held: map<Tid, set<Conn>>, t: Tid, c0: Conn, all: set<Conn>)
    requires Partitioned(queue, held, all) && t in held && c0 !in held[t]
    ensures !Partitioned(queue + [c0], held[t := held[t] - {c0}], all)
  {
    var queue', held' := queue + [c0], held[t := held[t] - {c0}];
    assert queue'[|queue|] == c0 && c0 in queue';
    if c0 in queue {
      var i :| 0 <= i < |queue| && queue[i] == c0;
      assert queue'[i] == queue'[|queue|];
    } else if c0 in all {
      var u :| u in held && c0 in held[u];
      assert c0 in held'[u];
    }
  }

  /** Pushing keeps the partition exactly when the thread holds what it pushes. */
  lemma PushKeepsPartitionIff(s: Pool, t: Tid, all: set<Conn>)
    requires Partition(s, all) && Enabled(s, Push(t))
    ensures Partition(Next(s, Push(t)), all) <==> s.pcs[t].c in s.held[t]
  {
    if s.pcs[t].c in s.held[t] {
      GiveKeepsPartition(s.queue, s.held, t, s.pcs[t].c, all);
    } else {
      GiveOnlyWhatYouHold(s.queue, s.held, t, s.pcs[t].c, all);
    }
  }

  lemma StepKeepsPartition(s: Pool, a: Action, all: set<Conn>)
    requires Exclusive(s) && Partition(s, all) && HoldsWhatItPuts(s) && Enabled(s, a) && Honest(s, a)
    ensures Partition(Next(s, a), all) && HoldsWhatItPuts(Next(s, a))
  {
    match a
    case Pop(t) => if s.queue != [] { TakeKeepsPartition(s.queue, s.held, t, all); }
    case Push(t) => PushKeepsPartitionIff(s, t, all);
    case _ => assert Next(s, a).queue == s.queue && Next(s, a).held == s.held;
  }

  /** The queue is first in, first out: what left it is a prefix of what entered it, in order. */
  ghost predicate InOrder(s: Pool) {
    s.pushed == s.popped + s.queue
  }

  lemma StepKeepsOrder(s: Pool, a: Action)
    requires InOrder(s) && Enabled(s, a)
    ensures InOrder(Next(s, a))
  {
    if a.Pop? && s.queue != [] {
      assert s.queue == [s.queue[0]] + s.queue[1..];
    }
  }

  /** get returns the connection that entered the queue first of those that have not left it, and the caller has it. */
  lemma PopReturnsTheOldest(s: Pool, t: Tid)
    requires Exclusive(s) && InOrder(s) && Enabled(s, Pop(t))
    ensures |s.popped| < |s.pushed|
    ensures var s' := Next(s, Pop(t)); var c := s.pushed[|s.popped|];
            && s'.pcs[t] == GetUnlock(c) && c in s'.held[t] && s'.popped == s.popped + [c]
  {
    assert s.pushed[|s.popped|] == s.queue[0];
  }

  /** A getter on its way out holds the connection it is about to return. */
  ghost predicate HoldsWhatItGot(s: Pool) {
    forall t :: t in s.pcs && t in s.held && s.pcs[t].GetUnlock? ==> s.pcs[t].c in s.held[t]
  }

  lemma StepKeepsHolding(s: Pool, a: Action)
    requires Exclusive(s) && HoldsWhatItGot(s) && Enabled(s, a)
    ensures HoldsWhatItGot(Next(s, a))
  {
  }

  /** A thread can take a step unless it waits for a mutex that another thread holds. */
  lemma OnlyTheMutexBlocks(s: Pool, t: Tid)
    requires Exclusive(s) && t in s.pcs
    ensures (exists a: Action :: a.t == t && Enabled(s, a)) <==>
      ((s.pcs[t].GetLock? || s.pcs[t].Woken? || s.pcs[t].PutLock?) ==> s.owner.None?)
  {
    match s.pcs[t]
    case Idle => assert Enabled(s, BeginGet(t)) && Enabled(s, BeginPut(t, 0));
    case Sleeping => assert Enabled(s, Spurious(t));
    case GetTest(_) => assert Enabled(s, Test(t));
    case GetPop(_) => assert Enabled(s, Pop(t));
    case GetUnlock(_) => assert Enabled(s, Release(t));
    case PutPush(_) => assert Enabled(s, Push(t));
    case PutUnlock => assert Enabled(s, Release(t));
    case PutSignal => assert Enabled(s, Signal(t, Sleepers(s.pcs)));
    case _ => assert s.owner.None? ==> Enabled(s, Acquire(t));
  }

  // ---------- runs ----------

  /** as is a run from s: each action is enabled where it is taken. */
  ghost predicate IsRun(s: Pool, actions: seq<Action>)
    decreases |actions|
  {
    actions == [] || (Enabled(s, actions[0]) && IsRun(Next(s, actions[0]), actions[1..]))
  }

  ghost function After(s: Pool, actions: seq<Action>): Pool
    requires IsRun(s, actions)
    decreases |actions|
  {
    if actions == [] then s else After(Next(s, actions[0]), actions[1..])
  }

  ghost predicate HonestRun(s: Pool, actions: seq<Action>)
    requires IsRun(s, actions)
    decreases |actions|
  {
    actions == [] || (Honest(s, actions[0]) && HonestRun(Next(s, actions[0]), actions[1..]))
  }

  lemma RunOne(s: Pool, a: Action, rest: seq<Action>)
    requires Enabled(s, a) && IsRun(Next(s, a), rest)
    ensures IsRun(s, [a] + rest) && After(s, [a] + rest) == After(Next(s, a), rest)
  {
    assert ([a] + rest)[1..] == rest;
  }

  /** A get that nobody disturbs takes the front of the queue, hands it over and gives the mutex back. */
  lemma GetAlone(s: Pool, t: Tid)
    requires Exclusive(s) && t in s.pcs && s.pcs[t].Idle? && s.owner.None? && s.queue != []
    ensures var get := [BeginGet(t), Acquire(t), Test(t), Pop(t), Release(t)];
            && IsRun(s, get)
            && After(s, get) == s.(queue := s.queue[1..], popped := s.popped + [s.queue[0]],
                                   held := s.held[t := s.held[t] + {s.queue[0]}])
  {
    var s1 := Next(s, BeginGet(t));
    var s2 := Next(s1, Acquire(t));
    var s3 := Next(s2, Test(t));
    var s4 := Next(s3, Pop(t));
    var s5 := Next(s4, Release(t));
    assert s5.pcs == s.pcs;
    RunOne(s4, Release(t), []);
    RunOne(s3, Pop(t), [Release(t)]);
    RunOne(s2, Test(t), [Pop(t), Release(t)]);
    RunOne(s1, Acquire(t), [Test(t), Pop(t), Release(t)]);
    RunOne(s, BeginGet(t), [Acquire(t), Test(t), Pop(t), Release(t)]);
  }

  lemma SignalAlone(s: Pool, t: Tid, wake: set<Tid>, pcs: map<Tid, Pc>)
    requires t in pcs && pcs[t].Idle? && s.pcs == pcs[t := PutSignal] && s.pcs.Keys == s.held.Keys
    requires wake <= Sleepers(pcs) && (Sleepers(pcs) != {} ==> wake != {})
    ensures Enabled(s, Signal(t, wake))
    ensures Next(s, Signal(t, wake)) == s.(pcs := map u | u in pcs :: if u in wake then Woken else pcs[u])
  {
    assert Sleepers(s.pcs) == Sleepers(pcs);
    assert t !in Sleepers(pcs);
  }

  /** A put that nobody disturbs appends its connection, and wakes somebody if anybody sleeps. */
  lemma PutAlone(s: Pool, t: Tid, c: Conn, wake: set<Tid>)
    requires Exclusive(s) && t in s.pcs && s.pcs[t].Idle? && s.owner.None?
    requires wake <= Sleepers(s.pcs) && (Sleepers(s.pcs) != {} ==> wake != {})
    ensures var put := [BeginPut(t, c), Acquire(t), Push(t), Release(t), Signal(t, wake)];
            && IsRun(s, put)
            && After(s, put) == s.(queue := s.queue + [c], pushed := s.pushed + [c],
                                   held := s.held[t := s.held[t] - {c}],
                                   pcs := map u | u in s.pcs :: if u in wake then Woken else s.pcs[u])
  {
    var s1 := Next(s, BeginPut(t, c));
    var s2 := Next(s1, Acquire(t));
    var s3 := Next(s2, Push(t));
    var s4 := Next(s3, Release(t));
    SignalAlone(s4, t, wake, s.pcs);
    hide Next;
    hide Enabled;
    RunOne(s4, Signal(t, wake), []);
    RunOne(s3, Release(t), [Signal(t, wake)]);
    RunOne(s2, Push(t), [Release(t), Signal(t, wake)]);
    RunOne(s1, Acquire(t), [Push(t), Release(t), Signal(t, wake)]);
    RunOne(s, BeginPut(t, c), [Acquire(t), Push(t), Release(t), Signal(t, wake)]);
  }

  /** On an empty queue a get falls asleep, without the mutex. */
  lemma GetSleeps(s: Pool, t: Tid)
    requires Exclusive(s) && t in s.pcs && s.pcs[t].Idle? && s.owner.None? && s.queue == []
    ensures IsRun(s, [BeginGet(t), Acquire(t), Test(t)])
    ensures After(s, [BeginGet(t), Acquire(t), Test(t)]) == s.(pcs := s.pcs[t := Sleeping])
  {
    var s1 := Next(s, BeginGet(t));
    var s2 := Next(s1, Acquire(t));
    var s3 := Next(s2, Test(t));
    assert s3.pcs == s.pcs[t := Sleeping];
    RunOne(s2, Test(t), []);
    RunOne(s1, Acquire(t), [Test(t)]);
    RunOne(s, BeginGet(t), [Acquire(t), Test(t)]);
  }

  ghost predicate Safe(s: Pool) {
    Exclusive(s) && NoLostWakeup(s) && InOrder(s) && HoldsWhatItGot(s)
  }

  /** Whatever clients do: mutual exclusion, no lost wakeup, first in first out, and getters that hold what they return,
      at every point of every run. */
  lemma {:induction false} RunIsSafe(s: Pool, actions: seq<Action>)
    requires Safe(s) && IsRun(s, actions)
    ensures Safe(After(s, actions))
    decreases |actions|
  {
    if actions != [] {
      StepKeepsExclusive(s, actions[0]);
      StepKeepsWakeups(s, actions[0]);
      StepKeepsOrder(s, actions[0]);
      StepKeepsHolding(s, actions[0]);
      RunIsSafe(Next(s, actions[0]), actions[1..]);
    }
  }

  /** If clients return only what they got, no connection is ever lost, duplicated or shared. */
  lemma {:induction false} RunConserves(s: Pool, actions: seq<Action>, all: set<Conn>)
    requires Exclusive(s) && Partition(s, all) && HoldsWhatItPuts(s) && IsRun(s, actions) && HonestRun(s, actions)
    ensures Partition(After(s, actions), all)
    decreases |actions|
  {
    if actions != [] {
      StepKeepsExclusive(s, actions[0]);
      StepKeepsPartition(s, actions[0], all);
      RunConserves(Next(s, actions[0]), actions[1..], all);
    }
  }

  lemma InitialIsGood(queue: seq<Conn>, threads: set<Tid>)
    requires Distinct(queue)
    ensures Safe(Initial(queue, threads)) && HoldsWhatItPuts(Initial(queue, threads))
    ensures Partition(Initial(queue, threads), set c | c in queue)
  {
    var s := Initial(queue, threads);
    assert Sleepers(s.pcs) == {};
    assert s.pushed == s.popped + s.queue;
  }

  /** initConnPool: connections are queued in array order up to the first one that cannot connect. */
  method InitConnPool(size: nat, connects: seq<bool>) returns (queue: seq<Conn>, failed: bool)
    requires |connects| == size
    ensures |queue| <= size && (forall i :: 0 <= i < |queue| ==> queue[i] == i && connects[i])
    ensures failed <==> |queue| < size
    ensures failed ==> !connects[|queue|]
    ensures Distinct(queue)
  {
    queue := [];
    for i := 0 to size
      invariant |queue| == i && forall k :: 0 <= k < i ==> queue[k] == k && connects[k]
    {
      if !connects[i] {
        return queue, true;
      }
      queue := queue + [i];
    }
    failed := false;
  }
}
