/** The thread scheduler as a state machine whose steps are its interrupts-off regions. */
module SchedSpec {
  import opened Sequences

  type Tid = int

  datatype Status = RUNNING | READY | BLOCKED | DYING

  const TIME_SLICE := 4

  /** `status` holds the threads whose `struct thread` has not been freed. */
  datatype Threads = Threads(
    status: map<Tid, Status>, current: Tid, ready: seq<Tid>, ticks: nat, idle: Tid, initial: Tid)

  /** Exactly one thread runs, and the ready list holds the other ready threads, idle aside. */
  ghost predicate Inv(th: Threads) {
    && th.current in th.status && th.status[th.current] == RUNNING
    && (forall t :: t in th.status && th.status[t] == RUNNING ==> t == th.current)
    && th.idle in th.status && th.status[th.idle] != DYING
    && Distinct(th.ready)
    && (forall t :: t in th.ready <==> t in th.status && th.status[t] == READY && t != th.idle)
    && th.ticks < TIME_SLICE
  }

  // ----- The operations -----

  /** `next_thread_to_run` */
  function Next(th: Threads): Tid {
    if th.ready == [] then th.idle else th.ready[0]
  }

  /** `schedule` and `thread_schedule_tail`, once the current thread's status is `st`. */
  function Schedule(th: Threads, st: Status): Threads {
    var prev, next := th.current, Next(th);
    var status := th.status[prev := st][next := RUNNING];
    th.(status := if prev != next && st == DYING && prev != th.initial then status - {prev} else status,
        current := next,
        ready := if th.ready == [] then [] else th.ready[1..],
        ticks := 0)
  }

  /** `thread_block` */
  function Block(th: Threads): Threads {
    Schedule(th, BLOCKED)
  }

  /** `thread_unblock` */
  function Unblock(th: Threads, t: Tid): Threads {
    th.(status := th.status[t := READY], ready := th.ready + [t])
  }

  /** `thread_yield` */
  function Yield(th: Threads): Threads {
    Schedule(if th.current == th.idle then th else th.(ready := th.ready + [th.current]), READY)
  }

  /** `thread_exit` */
  function Exit(th: Threads): Threads {
    Schedule(th, DYING)
  }

  /** `thread_tick`, with the yield on return from the interrupt when the time slice is used up. */
  function Tick(th: Threads): Threads {
    if th.ticks + 1 >= TIME_SLICE then Yield(th) else th.(ticks := th.ticks + 1)
  }

  /** `thread_create`: a new thread starts out blocked and is unblocked. */
  function Create(th: Threads, t: Tid): Threads {
    Unblock(th.(status := th.status[t := BLOCKED]), t)
  }

  // ----- Every operation keeps the invariant -----

  lemma ScheduleKeeps(th: Threads, st: Status)
    requires Inv(th) && st != RUNNING && st != READY && (st == DYING ==> th.current != th.idle)
    ensures Inv(Schedule(th, st))
    ensures Schedule(th, st).current == Next(th)
  {
  }

  lemma UnblockKeeps(th: Threads, t: Tid)
    requires Inv(th) && t in th.status && th.status[t] == BLOCKED && t != th.idle
    ensures Inv(Unblock(th, t))
  {
  }

  lemma YieldKeeps(th: Threads)
    requires Inv(th)
    ensures Inv(Yield(th))
  {
    var queue := if th.current == th.idle then th.ready else th.ready + [th.current];
    if queue != [] {
      TailOf(queue);
    }
  }

  lemma CreateKeeps(th: Threads, t: Tid)
    requires Inv(th) && t !in th.status
    ensures Inv(Create(th, t))
  {
  }

  // ----- What the operations do to the sleeping threads -----

  /** Blocked, and not the idle thread, which nobody unblocks. */
  predicate Sleeping(th: Threads, t: Tid) {
    t in th.status && th.status[t] == BLOCKED && t != th.idle
  }

  predicate Alive(th: Threads, t: Tid) {
    t in th.status && th.status[t] != DYING
  }

  lemma BlockSleeps(th: Threads)
    requires Inv(th)
    ensures forall t :: Sleeping(Block(th), t) <==> Sleeping(th, t) || (t == th.current && t != th.idle)
    ensures forall t :: Alive(Block(th), t) <==> Alive(th, t)
  {
  }

  lemma UnblockWakes(th: Threads, u: Tid)
    requires Inv(th) && Sleeping(th, u)
    ensures forall t :: Sleeping(Unblock(th, u), t) <==> Sleeping(th, t) && t != u
    ensures forall t :: Alive(Unblock(th, u), t) <==> Alive(th, t)
  {
  }

  lemma YieldWakesNone(th: Threads)
    requires Inv(th)
    ensures forall t :: Sleeping(Yield(th), t) <==> Sleeping(th, t)
    ensures forall t :: Alive(Yield(th), t) <==> Alive(th, t)
  {
  }

  lemma ExitWakesNone(th: Threads)
    requires Inv(th) && th.current != th.idle
    ensures forall t :: Sleeping(Exit(th), t) <==> Sleeping(th, t)
    ensures forall t :: Alive(Exit(th), t) <==> Alive(th, t) && t != th.current
  {
  }

  lemma CreateWakesNone(th: Threads, u: Tid)
    requires Inv(th) && u !in th.status
    ensures forall t :: Sleeping(Create(th, u), t) <==> Sleeping(th, t)
    ensures forall t :: Alive(Create(th, u), t) <==> Alive(th, t) || t == u
  {
  }

  // ----- Runs -----

  datatype Op = DoBlock | DoUnblock(t: Tid) | DoYield | DoExit | DoTick | DoCreate(t: Tid)

  /** What the source asserts or arranges before each operation. */
  predicate Enabled(th: Threads, op: Op) {
    match op
    case DoBlock | DoYield | DoTick => true
    case DoUnblock(t) => t in th.status && th.status[t] == BLOCKED && t != th.idle
    case DoExit => th.current != th.idle
    case DoCreate(t) => t !in th.status
  }

  function Step(th: Threads, op: Op): Threads {
    match op
    case DoBlock => Block(th)
    case DoUnblock(t) => Unblock(th, t)
    case DoYield => Yield(th)
    case DoExit => Exit(th)
    case DoTick => Tick(th)
    case DoCreate(t) => Create(th, t)
  }

  /** Whether the operation calls `schedule`. */
  predicate Schedules(th: Threads, op: Op) {
    op.DoBlock? || op.DoYield? || op.DoExit? || (op.DoTick? && th.ticks + 1 >= TIME_SLICE)
  }

  function Run(th: Threads, ops: seq<Op>): Threads
    decreases |ops|
  {
    if ops == [] then th else Run(Step(th, ops[0]), ops[1..])
  }

  predicate RunOk(th: Threads, ops: seq<Op>)
    decreases |ops|
  {
    ops == [] || (Enabled(th, ops[0]) && RunOk(Step(th, ops[0]), ops[1..]))
  }

  /** The number of calls to `schedule` in a run. */
  function ScheduleCalls(th: Threads, ops: seq<Op>): nat
    decreases |ops|
  {
    if ops == [] then 0
    else (if Schedules(th, ops[0]) then 1 else 0) + ScheduleCalls(Step(th, ops[0]), ops[1..])
  }

  function TickCount(ops: seq<Op>): nat {
    if ops == [] then 0 else (if ops[0].DoTick? then 1 else 0) + TickCount(ops[1..])
  }

  lemma StepKeeps(th: Threads, op: Op)
    requires Inv(th) && Enabled(th, op)
    ensures Inv(Step(th, op))
  {
    hide Inv, Schedule, Create, Yield, Unblock;
    match op
    case DoBlock => ScheduleKeeps(th, BLOCKED);
    case DoExit => ScheduleKeeps(th, DYING);
    case DoUnblock(t) => UnblockKeeps(th, t);
    case DoYield => YieldKeeps(th);
    case DoCreate(t) => CreateKeeps(th, t);
    case DoTick => YieldKeeps(th); TickKeeps(th);
  }

  lemma TickKeeps(th: Threads)
    requires Inv(th)
    ensures th.ticks + 1 < TIME_SLICE ==> Inv(th.(ticks := th.ticks + 1))
  {
  }

  lemma {:induction false} RunKeeps(th: Threads, ops: seq<Op>)
    requires Inv(th) && RunOk(th, ops)
    ensures Inv(Run(th, ops))
    decreases |ops|
  {
    hide Inv, Step, Enabled;
    if ops != [] {
      StepKeeps(th, ops[0]);
      RunKeeps(Step(th, ops[0]), ops[1..]);
    }
  }

  // ----- First come, first served -----

  /** One step moves a waiting thread up by one place exactly when it schedules. */
  lemma StepMovesUp(th: Threads, op: Op, k: nat)
    requires k < |th.ready|
    ensures !Schedules(th, op) ==> k < |Step(th, op).ready| && Step(th, op).ready[k] == th.ready[k]
    ensures Schedules(th, op) && k > 0 ==>
              k - 1 < |Step(th, op).ready| && Step(th, op).ready[k - 1] == th.ready[k]
    ensures Schedules(th, op) && k == 0 ==> Step(th, op).current == th.ready[0]
  {
  }

  /** After `n <= k` calls to `schedule`, the thread at place `k` waits at place `k - n`. */
  lemma {:induction false} WaitsItsTurn(th: Threads, ops: seq<Op>, k: nat)
    requires k < |th.ready| && ScheduleCalls(th, ops) <= k
    ensures k - ScheduleCalls(th, ops) < |Run(th, ops).ready|
    ensures Run(th, ops).ready[k - ScheduleCalls(th, ops)] == th.ready[k]
    decreases |ops|
  {
    hide Schedules, Step;
    if ops != [] {
      StepMovesUp(th, ops[0], k);
      WaitsItsTurn(Step(th, ops[0]), ops[1..], if Schedules(th, ops[0]) then k - 1 else k);
    }
  }

  lemma {:induction false} RunSnoc(th: Threads, ops: seq<Op>, op: Op)
    ensures Run(th, ops + [op]) == Step(Run(th, ops), op)
    ensures ScheduleCalls(th, ops + [op]) == ScheduleCalls(th, ops) + if Schedules(Run(th, ops), op) then 1 else 0
    decreases |ops|
  {
    hide Step, Schedules;
    if ops == [] {
      assert ops + [op] == [op];
    } else {
      assert (ops + [op])[1..] == ops[1..] + [op];
      RunSnoc(Step(th, ops[0]), ops[1..], op);
    }
  }

  /** The thread at place `k` runs at exactly the `k + 1`st call to `schedule`, and not before. */
  lemma RunsInTurn(th: Threads, ops: seq<Op>, op: Op, k: nat)
    requires Inv(th) && RunOk(th, ops) && k < |th.ready|
    requires ScheduleCalls(th, ops) == k && Schedules(Run(th, ops), op)
    ensures Run(th, ops + [op]).current == th.ready[k]
    ensures forall n :: 0 <= n <= |ops| ==> Run(th, ops[..n]).current != th.ready[k]
  {
    hide Schedules, Step;
    WaitsItsTurn(th, ops, k);
    RunSnoc(th, ops, op);
    StepMovesUp(Run(th, ops), op, 0);
    forall n | 0 <= n <= |ops| ensures Run(th, ops[..n]).current != th.ready[k] {
      PrefixOfRun(th, ops, n);
      WaitsItsTurn(th, ops[..n], k);
      RunKeeps(th, ops[..n]);
      var r := Run(th, ops[..n]);
      assert th.ready[k] in r.ready;
    }
  }

  lemma {:induction false} PrefixOfRun(th: Threads, ops: seq<Op>, n: nat)
    requires n <= |ops| && RunOk(th, ops)
    ensures RunOk(th, ops[..n]) && ScheduleCalls(th, ops[..n]) <= ScheduleCalls(th, ops)
    decreases |ops|
  {
    hide Step, Schedules, Enabled;
    if n > 0 {
      PrefixOfRun(Step(th, ops[0]), ops[1..], n - 1);
      assert ops[..n][1..] == ops[1..][..n - 1];
    }
  }

  // ----- Time slices -----

  /** A slice ends after `TIME_SLICE` ticks at the latest. */
  lemma {:induction false} TicksForceSchedules(th: Threads, ops: seq<Op>)
    requires th.ticks < TIME_SLICE
    ensures th.ticks + TickCount(ops) <= TIME_SLICE * ScheduleCalls(th, ops) + Run(th, ops).ticks
    ensures Run(th, ops).ticks < TIME_SLICE
    decreases |ops|
  {
    if ops != [] {
      TicksForceSchedules(Step(th, ops[0]), ops[1..]);
    }
  }

  /** `n` timer ticks in a row. */
  function Ticks(n: nat): (ops: seq<Op>)
    ensures |ops| == n && forall i :: 0 <= i < n ==> ops[i] == DoTick
  {
    seq(n, _ => DoTick)
  }

  /** A thread that has just been switched to runs through three ticks, and the fourth ends its slice. */
  lemma WholeSlice(th: Threads, op: Op, n: nat)
    requires Schedules(th, op) && n <= 4
    ensures var ops, next := [op] + Ticks(n), Step(th, op);
            && (n < 4 ==> Run(th, ops).current == next.current && ScheduleCalls(th, ops) == 1)
            && (n == 4 ==> ScheduleCalls(th, ops) == 2)
            && (n == 4 && next.ready != [] ==> Run(th, ops).current == next.ready[0])
  {
    var next := Step(th, op);
    assert next.ticks == 0;
    hide Schedules, Step;
    TicksPass(next, if n < 4 then n else 3);
    assert ([op] + Ticks(n))[1..] == Ticks(n);
    if n == 4 {
      LastTick(next);
    }
  }

  /** Ticks before the last one of a slice only count. */
  lemma {:induction false} TicksPass(th: Threads, n: nat)
    requires th.ticks + n < 4
    ensures Run(th, Ticks(n)) == th.(ticks := th.ticks + n) && ScheduleCalls(th, Ticks(n)) == 0
    decreases n
  {
    if n > 0 {
      assert Ticks(n)[1..] == Ticks(n - 1);
      TicksPass(th.(ticks := th.ticks + 1), n - 1);
    }
  }

  lemma LastTick(th: Threads)
    requires th.ticks == 0
    ensures ScheduleCalls(th, Ticks(4)) == 1
    ensures th.ready != [] ==> Run(th, Ticks(4)).current == th.ready[0]
  {
    TicksPass(th, 3);
    assert Ticks(4) == Ticks(3) + [DoTick];
    RunSnoc(th, Ticks(3), DoTick);
  }

  /** A thread other than the initial one that exits is freed at once; no other operation frees a thread. */
  lemma OnlyExitFrees(th: Threads, op: Op, t: Tid)
    requires Inv(th) && Enabled(th, op) && t in th.status
    ensures t !in Step(th, op).status <==> op.DoExit? && t == th.current && t != th.initial
    ensures op.DoExit? && t == th.current && t == th.initial ==> Step(th, op).status[t] == DYING
  {
  }

  /** So the thread at place `k` runs within `TIME_SLICE * (k + 1)` ticks. */
  lemma RunsInTime(th: Threads, ops: seq<Op>, k: nat) returns (n: nat)
    requires Inv(th) && k < |th.ready| && TickCount(ops) >= TIME_SLICE * (k + 1)
    ensures 0 < n <= |ops| && Run(th, ops[..n]).current == th.ready[k]
  {
    TicksInInv(th);
    TicksForceSchedules(th, ops);
    hide *;
    n := FindTurn(th, ops, k);
    WaitsItsTurn(th, ops[..n], k);
    RunSnoc(th, ops[..n], ops[n]);
    StepMovesUp(Run(th, ops[..n]), ops[n], 0);
    assert ops[..n + 1] == ops[..n] + [ops[n]];
    n := n + 1;
  }

  lemma TicksInInv(th: Threads)
    requires Inv(th)
    ensures th.ticks < TIME_SLICE
  {
  }

  lemma {:induction false} FindTurn(th: Threads, ops: seq<Op>, k: nat) returns (n: nat)
    requires ScheduleCalls(th, ops) > k
    ensures n < |ops| && ScheduleCalls(th, ops[..n]) == k && Schedules(Run(th, ops[..n]), ops[n])
    decreases |ops|
  {
    hide Step, Schedules;
    if Schedules(th, ops[0]) && k == 0 {
      n := 0;
    } else {
      n := FindTurn(Step(th, ops[0]), ops[1..], if Schedules(th, ops[0]) then k - 1 else k);
      n := n + 1;
      assert ops[..n][1..] == ops[1..][..n - 1];
    }
  }
}
