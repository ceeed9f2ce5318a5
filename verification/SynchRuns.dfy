/** Every run of threads that synchronise, and what holds in every state it reaches. */
module SynchRuns {
  import opened Options
  import opened Sequences
  import opened SchedSpec
  import opened SynchSpec
  import opened SynchInv

  // ----- Every step of every run -----

  lemma StepKeeps(st: State, a: Action)
    requires Consistent(st) && MayStep(st, a)
    ensures Consistent(Do(st, a))
  {
    hide Consistent, PcOf, Down, At, UpLock, SetHolder, Pop, Queue, Up, Take, Drain, Enqueue, SemaOf, HolderOf;
    var cur := st.th.current;
    match a
    case CallDown(n) => DownKeeps(st, Plain(n));
    case CallTryDown(n) => if SemaOf(st, Plain(n)).value > 0 { TakeKeeps(st, Plain(n)); }
    case CallUp(n) => UpPlainKeeps(st, n);
    case CallAcquire(l) => DownKeeps(st, Guard(l));
    case CallTryAcquire(l) => if SemaOf(st, Guard(l)).value > 0 { TakeKeeps(st, Guard(l)); }
    case CallRelease(l) => HolderKeeps(st, l, None, Releasing(l));
    case CallWait(c) => EnqueueKeeps(st, c);
    case CallSignal(c) => if Queue(st, c) != [] { PopKeeps(st, c, false); }
    case CallBroadcast(c) => AtKeeps(st, Broadcast(c));
    case Go => ContinueKeeps(st);
    case InterruptUp(n) => UpPlainKeeps(st, n);
    case InterruptTryDown(n) => if SemaOf(st, Plain(n)).value > 0 { DrainKeeps(st, n); }
    case _ => ThreadStepKeeps(st, a);
  }

  /** Threads exist; nobody is in any of the functions, waits or holds anything. */
  ghost predicate Init(st: State) {
    && SchedSpec.Inv(st.th) && (forall t :: !Sleeping(st.th, t))
    && st.pc == map[] && st.holder == map[] && st.conds == map[] && st.owner == map[] && st.token == map[]
    && forall s :: s in st.semas ==> s.Plain? && st.semas[s] == Sema(st.semas[s].init, [], st.semas[s].init, 0, 0)
  }

  function Run(st: State, actions: seq<Action>): State
    decreases |actions|
  {
    if actions == [] then st else Run(Do(st, actions[0]), actions[1..])
  }

  predicate MayRun(st: State, actions: seq<Action>)
    decreases |actions|
  {
    actions == [] || (MayStep(st, actions[0]) && MayRun(Do(st, actions[0]), actions[1..]))
  }

  lemma {:induction false} RunKeeps(st: State, actions: seq<Action>)
    requires Consistent(st) && MayRun(st, actions)
    ensures Consistent(Run(st, actions))
    decreases |actions|
  {
    hide Consistent, Do, MayStep;
    if actions != [] {
      StepKeeps(st, actions[0]);
      RunKeeps(Do(st, actions[0]), actions[1..]);
    }
  }

  lemma InitInv(st: State)
    requires Init(st)
    ensures Consistent(st)
  {
  }

  /** What can be reached from an initial state. */
  ghost predicate Reachable(st: State) {
    exists st0, actions :: Init(st0) && MayRun(st0, actions) && st == Run(st0, actions)
  }

  lemma ReachableInv(st: State)
    requires Reachable(st)
    ensures Consistent(st)
  {
    hide Init, Consistent, MayRun, Run;
    var st0, actions :| Init(st0) && MayRun(st0, actions) && st == Run(st0, actions);
    InitInv(st0);
    RunKeeps(st0, actions);
  }

  // ----- What holds in every reachable state -----

  /** Exactly one thread runs; list membership goes with status, so one `elem` per thread is enough. */
  lemma OneListEach(st: State, t: Tid)
    requires Reachable(st)
    ensures t in st.th.status && st.th.status[t] == RUNNING <==> t == st.th.current
    ensures t in st.th.ready <==> t in st.th.status && st.th.status[t] == READY && t != st.th.idle
    ensures Distinct(st.th.ready)
    ensures forall s :: t in SemaOf(st, s).waiters ==>
              t in st.th.status && st.th.status[t] == BLOCKED && t !in st.th.ready
    ensures forall s, r :: t in SemaOf(st, s).waiters && t in SemaOf(st, r).waiters ==> s == r
    ensures forall s :: Distinct(SemaOf(st, s).waiters)
    ensures t in st.th.status && st.th.status[t] == BLOCKED && t != st.th.idle ==>
              exists s :: t in SemaOf(st, s).waiters
  {
    ReachableInv(st);
    hide PcOf, SemaOf, Locks, Signals, Values, Reachable;
    assert Sleeping(st.th, t) ==> t in SemaOf(st, PcOf(st, t).s).waiters;
  }

  /** The value is the initial value plus ups minus completed downs; and no wakeup is lost. */
  lemma SemaphoreLaw(st: State, s: SemaId)
    requires Reachable(st)
    ensures var m := SemaOf(st, s);
            && m.value == m.init + m.ups - m.downs
            && (m.waiters != [] ==> m.value <= |Woken(st, s)|)
    ensures forall t :: t in Woken(st, s) ==> t == st.th.current || t in st.th.ready
  {
    ReachableInv(st);
    InWoken(st, s);
    hide PcOf, SemaOf, Locks, Signals, Reachable, Woken;
    assert Balanced(st, s);
  }

  /** At most one thread is past a lock's down and before its up; it alone can be the holder. */
  lemma MutualExclusion(st: State, l: LockId, t: Tid, u: Tid)
    requires Reachable(st) && InRegion(st, t, l) && InRegion(st, u, l)
    ensures t == u && SemaOf(st, Guard(l)).value == 0
    ensures PcOf(st, t) == GotLock(l) ==> HolderOf(st, l) == None
  {
    ReachableInv(st);
    hide PcOf, SemaOf, HolderOf, OwnerOf, Lists, Signals, Values, Reachable;
    assert LockOk(st, l);
    assert HolderOf(st, l).Some? ==> InRegion(st, HolderOf(st, l).value, l);
  }

  /** A lock is free, so that the next `sema_down` on it takes it, exactly when nobody is in it. */
  lemma FreeWhenUnused(st: State, l: LockId)
    requires Reachable(st)
    ensures SemaOf(st, Guard(l)).value == if exists t :: InRegion(st, t, l) then 0 else 1
  {
    ReachableInv(st);
    hide PcOf, SemaOf, HolderOf, OwnerOf, Lists, Signals, Values, Reachable;
    assert LockOk(st, l);
    assert OwnerOf(st, l).Some? ==> InRegion(st, OwnerOf(st, l).value, l);
  }

  /**
   * A thread in `cond_wait` is queued once with a zero semaphore, or popped by exactly one signal that
   * is on its way, or has been signalled and is not left asleep.
   */
  lemma NoLostSignal(st: State, t: Tid, c: CondId)
    requires Reachable(st) && WaitsFor(PcOf(st, t), t) == Some(c)
    ensures var v := SemaOf(st, Private(t, c)).value;
            || (t in Queue(st, c) && v == 0 && forall u :: !Carries(st, u, t))
            || (t !in Queue(st, c) && v == 0
                && exists u :: Carries(st, u, t) && forall u' :: Carries(st, u', t) ==> u' == u)
            || (t !in Queue(st, c) && v == 1 && (forall u :: !Carries(st, u, t)) && !Sleeping(st.th, t))
    ensures Distinct(Queue(st, c)) && forall d :: t in Queue(st, d) ==> d == c
  {
    ReachableInv(st);
    PrivateAwake(st, t, c);
    hide PcOf, SemaOf, Queue, TokenOf, HolderOf, OwnerOf, Lists, Locks, Values, Reachable, Sleeping, SchedSpec.Inv;
    assert TokenOk(st, t) && QueueOk(st, c);
    forall d ensures t in Queue(st, d) ==> d == c {
      assert QueueOk(st, d);
    }
    var k := TokenOf(st, t);
    forall u ensures Carries(st, u, t) ==> k == InFlight(c, u) {
      assert TokenOk(st, u);
    }
    if k.InFlight? {
      assert Carries(st, k.u, t);
    }
  }

  /** `u` has popped `t` in `cond_signal` and will up its semaphore. */
  predicate Carries(st: State, u: Tid, t: Tid) {
    PcOf(st, u).SignalUp? && PcOf(st, u).w == t
  }

  lemma PrivateAwake(st: State, t: Tid, c: CondId)
    requires Consistent(st) && WaitsFor(PcOf(st, t), t) == Some(c)
    ensures SemaOf(st, Private(t, c)).value > 0 ==> !Sleeping(st.th, t)
  {
    var s := Private(t, c);
    InWoken(st, s);
    assert Balanced(st, s);
    hide PcOf, SemaOf, Locks, Signals, Values, SchedSpec.Inv, Woken, Sleeping;
    assert Sleeping(st.th, t) ==> Woken(st, s) == {};
  }

  // ----- The scheduler underneath -----

  /** The scheduler operation a `sema_down(s)` or `sema_up(s)` of the running thread amounts to, if any. */
  function DownOp(st: State, s: SemaId): Option<Op> {
    if SemaOf(st, s).value == 0 then Some(DoBlock) else None
  }

  function UpOp(st: State, s: SemaId): Option<Op> {
    var q := SemaOf(st, s).waiters;
    if q == [] then None else Some(DoUnblock(q[0]))
  }

  function OpOf(st: State, a: Action): Option<Op> {
    var cur := st.th.current;
    match a
    case CallDown(n) => DownOp(st, Plain(n))
    case CallAcquire(l) => DownOp(st, Guard(l))
    case CallUp(n) => UpOp(st, Plain(n))
    case InterruptUp(n) => UpOp(st, Plain(n))
    case CallCreate(t) => Some(DoCreate(t))
    case CallYield => Some(DoYield)
    case CallExit => Some(DoExit)
    case IdleBlock => Some(DoBlock)
    case TimerTick => Some(DoTick)
    case Go =>
      (match PcOf(st, cur)
       case Asleep(s) => DownOp(st, s)
       case WaitDown(c) => DownOp(st, Private(cur, c))
       case WaitAcquire(c) => DownOp(st, Guard(c.lock))
       case Releasing(l) => UpOp(st, Guard(l))
       case WaitUp(c) => UpOp(st, Guard(c.lock))
       case SignalUp(w, c, _) => UpOp(st, Private(w, c))
       case _ => None)
    case _ => None
  }

  /**
   * Every step is at most one operation of the scheduler, taken where it is allowed; so the turn-taking
   * of the ready list holds for every run of threads that synchronise.
   */
  lemma StepIsSchedulerStep(st: State, a: Action)
    requires Consistent(st) && MayStep(st, a)
    ensures IsOp(st, OpOf(st, a), Do(st, a))
  {
    hide Block, Unblock, Create, Yield, Exit, Tick, SemaOf, Consistent, Down, Up, DownOp, UpOp, PcOf, HolderOf;
    hide Queue, Continue;
    match a
    case CallDown(n) => DownUpOps(st, Plain(n));
    case CallUp(n) => DownUpOps(st, Plain(n));
    case InterruptUp(n) => DownUpOps(st, Plain(n));
    case CallAcquire(l) => DownUpOps(st, Guard(l));
    case Go => ContinueOp(st);
    case _ =>
  }

  lemma ContinueOp(st: State)
    requires Consistent(st)
    ensures IsOp(st, OpOf(st, Go), Continue(st))
  {
    hide Block, Unblock, SemaOf, Down, Up, DownOp, UpOp, PcOf, Queue, SchedSpec.Step, Enabled, Consistent;
    match PcOf(st, st.th.current)
    case Asleep(s) => DownUpOps(st, s);
    case WaitDown(c) => DownUpOps(st, Private(st.th.current, c));
    case WaitAcquire(c) => DownUpOps(st, Guard(c.lock));
    case Releasing(l) => DownUpOps(st, Guard(l));
    case WaitUp(c) => DownUpOps(st, Guard(c.lock));
    case SignalUp(w, c, _) => DownUpOps(st, Private(w, c));
    case _ =>
  }

  /** From `st` to `st'` the scheduler takes the step `op`, if any. */
  predicate IsOp(st: State, op: Option<Op>, st': State) {
    if op.None? then st'.th == st.th else Enabled(st.th, op.value) && st'.th == SchedSpec.Step(st.th, op.value)
  }

  lemma DownUpOps(st: State, s: SemaId)
    requires Consistent(st)
    ensures IsOp(st, DownOp(st, s), Down(st, s)) && IsOp(st, UpOp(st, s), Up(st, s))
  {
    FirstIn(SemaOf(st, s).waiters);
  }

  function OneOp(op: Option<Op>): seq<Op> {
    if op.None? then [] else [op.value]
  }

  /** The scheduler operations of a run. */
  function OpsOf(st: State, actions: seq<Action>): seq<Op>
    decreases |actions|
  {
    if actions == [] then [] else OneOp(OpOf(st, actions[0])) + OpsOf(Do(st, actions[0]), actions[1..])
  }

  /** A run of threads that synchronise is a run of the scheduler. */
  lemma {:induction false} RunIsSchedulerRun(st: State, actions: seq<Action>)
    requires Consistent(st) && MayRun(st, actions)
    ensures RunOk(st.th, OpsOf(st, actions)) && SchedSpec.Run(st.th, OpsOf(st, actions)) == Run(st, actions).th
    decreases |actions|
  {
    hide Consistent, Do, MayStep, OpOf, SchedSpec.Step, Enabled;
    if actions != [] {
      var st', rest := Do(st, actions[0]), actions[1..];
      StepKeeps(st, actions[0]);
      StepIsSchedulerStep(st, actions[0]);
      RunIsSchedulerRun(st', rest);
      var op := OpOf(st, actions[0]);
      if op.None? {
        assert OpsOf(st, actions) == OpsOf(st', rest);
      } else {
        assert OpsOf(st, actions)[1..] == OpsOf(st', rest);
      }
    }
  }

  function TimerTicks(actions: seq<Action>): nat {
    if actions == [] then 0 else (if actions[0].TimerTick? then 1 else 0) + TimerTicks(actions[1..])
  }

  lemma {:induction false} TicksOfRun(st: State, actions: seq<Action>)
    ensures TickCount(OpsOf(st, actions)) == TimerTicks(actions)
    decreases |actions|
  {
    hide Do;
    if actions != [] {
      var rest := OpsOf(Do(st, actions[0]), actions[1..]);
      TicksOfRun(Do(st, actions[0]), actions[1..]);
      assert OneOp(OpOf(st, actions[0])) == [] ==> OpsOf(st, actions) == rest;
      assert OneOp(OpOf(st, actions[0])) != [] ==> OpsOf(st, actions)[1..] == rest;
      OnlyTicksTick(st, actions[0]);
    }
  }

  lemma OnlyTicksTick(st: State, a: Action)
    ensures OpOf(st, a) == Some(DoTick) <==> a.TimerTick?
  {
    hide SemaOf;
  }

  /** The first `n` scheduler operations of a run are those of a beginning of it. */
  lemma {:induction false} PrefixOfOps(st: State, actions: seq<Action>, n: nat) returns (m: nat)
    requires n <= |OpsOf(st, actions)|
    ensures m <= |actions| && OpsOf(st, actions[..m]) == OpsOf(st, actions)[..n]
    decreases |actions|
  {
    hide Do, OpOf;
    if n == 0 {
      m := 0;
    } else {
      var first, st', rest := OneOp(OpOf(st, actions[0])), Do(st, actions[0]), actions[1..];
      m := PrefixOfOps(st', rest, n - |first|);
      m := m + 1;
      assert actions[..m][1..] == rest[..m - 1];
      assert OpsOf(st, actions)[..n] == first + OpsOf(st', rest)[..n - |first|];
    }
  }

  lemma {:induction false} MayRunPrefix(st: State, actions: seq<Action>, m: nat)
    requires MayRun(st, actions) && m <= |actions|
    ensures MayRun(st, actions[..m])
    decreases m
  {
    hide Do, MayStep;
    if m > 0 {
      MayRunPrefix(Do(st, actions[0]), actions[1..], m - 1);
      assert actions[..m][1..] == actions[1..][..m - 1];
    }
  }

  /** Whatever the threads do, the thread at ready position `k` runs before `4 * (k + 1)` ticks have passed. */
  lemma ReadyRunsInTime(st: State, actions: seq<Action>, k: nat) returns (m: nat)
    requires Consistent(st) && MayRun(st, actions) && k < |st.th.ready|
    requires TimerTicks(actions) >= TIME_SLICE * (k + 1)
    ensures 0 < m <= |actions| && Run(st, actions[..m]).th.current == st.th.ready[k]
  {
    InvSched(st);
    hide *;
    TicksOfRun(st, actions);
    var n := RunsInTime(st.th, OpsOf(st, actions), k);
    m := PrefixOfOps(st, actions, n);
    MayRunPrefix(st, actions, m);
    RunIsSchedulerRun(st, actions[..m]);
    NoOps(st, actions[..m]);
  }

  lemma NoOps(st: State, actions: seq<Action>)
    ensures OpsOf(st, actions) != [] ==> actions != []
  {
  }

  /** Condition queues change only in the hands of a thread that holds the lock, as the source asserts. */
  lemma OnlyHolderQueues(st: State, a: Action, c: CondId)
    requires MayStep(st, a) && Queue(Do(st, a), c) != Queue(st, c)
    ensures HeldByCurrent(st, c.lock)
  {
    QueueInDowns(st, c);
    hide Create, Yield, Exit, Block, Tick, SemaOf, Down, Up;
    match a
    case Go => QueueInContinue(st, c);
    case _ =>
  }

  lemma QueueInDowns(st: State, c: CondId)
    ensures forall s :: Queue(Down(st, s), c) == Queue(st, c) && Queue(Up(st, s), c) == Queue(st, c)
  {
    hide Down, Up, Queue;
    forall s
      ensures Queue(Down(st, s), c) == Queue(st, c) && Queue(Up(st, s), c) == Queue(st, c)
    {
      QueueInDown(st, s, c);
    }
  }

  lemma QueueInDown(st: State, s: SemaId, c: CondId)
    ensures Queue(Down(st, s), c) == Queue(st, c) && Queue(Up(st, s), c) == Queue(st, c)
  {
    hide SemaOf, Queue, Sleep, Take, Up;
    SleepEffect(st, s);
    UpEffect(st, s);
    if SemaOf(st, s).value > 0 {
      TakeEffect(st, s);
    }
  }

  lemma QueueInContinue(st: State, c: CondId)
    requires !PcOf(st, st.th.current).Outside? && Queue(Continue(st), c) != Queue(st, c)
    ensures PcOf(st, st.th.current) == Broadcast(c) && Queue(st, c) != []
  {
    QueueInDowns(st, c);
    hide Down, Up, PcOf;
  }

  lemma HolderInDowns(st: State, l: LockId)
    ensures forall s :: HolderOf(Down(st, s), l) == HolderOf(st, l) && HolderOf(Up(st, s), l) == HolderOf(st, l)
  {
    hide Down, Up, HolderOf;
    forall s
      ensures HolderOf(Down(st, s), l) == HolderOf(st, l) && HolderOf(Up(st, s), l) == HolderOf(st, l)
    {
      HolderInDown(st, s, l);
    }
  }

  lemma HolderInDown(st: State, s: SemaId, l: LockId)
    ensures HolderOf(Down(st, s), l) == HolderOf(st, l) && HolderOf(Up(st, s), l) == HolderOf(st, l)
  {
    hide SemaOf, HolderOf, Sleep, Take, Up;
    SleepEffect(st, s);
    UpEffect(st, s);
    if SemaOf(st, s).value > 0 {
      TakeEffect(st, s);
    }
  }

  /** A lock that has a holder changes hands only in a step of that holder. */
  lemma OnlyHolderReleases(st: State, a: Action, l: LockId, u: Tid)
    requires Consistent(st) && MayStep(st, a) && HolderOf(st, l) == Some(u) && st.th.current != u
    ensures HolderOf(Do(st, a), l) == Some(u)
  {
    hide Create, Yield, Exit, Block, Tick, SemaOf, Down, Up, Consistent, PcOf, Queue;
    HolderInDowns(st, l);
    NotTurning(st, l, u);
    match a
    case Go => HolderInContinue(st, l, u);
    case _ =>
  }

  lemma HolderInContinue(st: State, l: LockId, u: Tid)
    requires HolderOf(st, l) == Some(u) && !Turning(PcOf(st, st.th.current), l)
    requires var pc := PcOf(st, st.th.current); pc.WaitRelease? ==> pc.c.lock != l
    ensures HolderOf(Continue(st), l) == Some(u)
  {
    hide SemaOf, Down, Up, PcOf, Queue;
    HolderInDowns(st, l);
  }

  lemma NotTurning(st: State, l: LockId, u: Tid)
    requires Consistent(st) && HolderOf(st, l) == Some(u) && st.th.current != u
    ensures !Turning(PcOf(st, st.th.current), l)
    ensures var pc := PcOf(st, st.th.current); pc.WaitRelease? ==> pc.c.lock != l
  {
    hide SchedSpec.Inv, Lists, Values, Signals;
    assert LockOk(st, l);
    assert InRegion(st, u, l);
  }

  /** Thread `u` takes no step of the run. */
  predicate Aside(st: State, actions: seq<Action>, u: Tid)
    decreases |actions|
  {
    actions == [] || (st.th.current != u && Aside(Do(st, actions[0]), actions[1..], u))
  }

  /**
   * While a thread holds the lock of a condition variable, nothing that runs between two of its steps,
   * threads or interrupts, changes the variable's queue or takes the lock: a signal or a wait is atomic.
   */
  lemma {:induction false} QueueUndisturbed(st: State, actions: seq<Action>, u: Tid, c: CondId)
    requires Consistent(st) && MayRun(st, actions) && HolderOf(st, c.lock) == Some(u) && Aside(st, actions, u)
    ensures Queue(Run(st, actions), c) == Queue(st, c) && HolderOf(Run(st, actions), c.lock) == Some(u)
    decreases |actions|
  {
    hide Consistent, MayStep, Do, Queue, HolderOf;
    if actions != [] {
      var st' := Do(st, actions[0]);
      StepKeeps(st, actions[0]);
      OnlyHolderReleases(st, actions[0], c.lock, u);
      if Queue(st', c) != Queue(st, c) {
        OnlyHolderQueues(st, actions[0], c);
      }
      QueueUndisturbed(st', actions[1..], u, c);
    }
  }
}
