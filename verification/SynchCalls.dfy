/**
 * What the calls on semaphores, locks and condition variables have done when they return, whatever other
 * threads and interrupt handlers did in between.
 */
module SynchCalls {
  import opened Options
  import opened Sequences
  import opened SchedSpec
  import opened SynchSpec
  import opened SynchInv
  import SynchRuns

  // ----- Who does what to a semaphore -----

  /** The semaphore that a step ups: by a call, at the end of a release, or in a signal. */
  function Upped(st: State, a: Action): Option<SemaId> {
    match a
    case CallUp(n) => Some(Plain(n))
    case InterruptUp(n) => Some(Plain(n))
    case Go =>
      (match PcOf(st, st.th.current)
       case Releasing(l) => Some(Guard(l))
       case WaitUp(c) => Some(Guard(c.lock))
       case SignalUp(w, c, _) => Some(Private(w, c))
       case _ => None)
    case _ => None
  }

  /** The semaphore that a step tests in `sema_down`. */
  function Downed(st: State, a: Action): Option<SemaId> {
    match a
    case CallDown(n) => Some(Plain(n))
    case CallAcquire(l) => Some(Guard(l))
    case Go =>
      (match PcOf(st, st.th.current)
       case Asleep(s) => Some(s)
       case WaitDown(c) => Some(Private(st.th.current, c))
       case WaitAcquire(c) => Some(Guard(c.lock))
       case _ => None)
    case _ => None
  }

  /** The semaphore that a step tests in `sema_try_down`. */
  function Tried(a: Action): Option<SemaId> {
    match a
    case CallTryDown(n) => Some(Plain(n))
    case InterruptTryDown(n) => Some(Plain(n))
    case CallTryAcquire(l) => Some(Guard(l))
    case _ => None
  }

  /** The step completes a down on `s`. */
  predicate Takes(st: State, a: Action, s: SemaId) {
    (Downed(st, a) == Some(s) || Tried(a) == Some(s)) && SemaOf(st, s).value > 0
  }

  /** The step puts the running thread to sleep on `s`. */
  predicate SleepsOn(st: State, a: Action, s: SemaId) {
    Downed(st, a) == Some(s) && SemaOf(st, s).value == 0
  }

  /** `m` is `m0` with the ups and completed downs added to its value and history. */
  predicate Moved(m0: Sema, m: Sema, ups: nat, takes: nat) {
    m.value == m0.value + ups - takes && m.ups == m0.ups + ups && m.downs == m0.downs + takes && m.init == m0.init
  }

  /** What a step does to the value and the wait list of `s`, a semaphore it does not initialise. */
  lemma SemaStep(st: State, a: Action, s: SemaId)
    requires MayStep(st, a) && !(a.CallWait? && s == Private(st.th.current, a.c))
    ensures var m, m' := SemaOf(st, s), SemaOf(Do(st, a), s);
            && Moved(m, m', if Upped(st, a) == Some(s) then 1 else 0, if Takes(st, a, s) then 1 else 0)
            && m'.waiters ==
                 if Upped(st, a) == Some(s) && m.waiters != [] then m.waiters[1..]
                 else if SleepsOn(st, a, s) then m.waiters + [st.th.current]
                 else m.waiters
  {
    hide SemaOf, PcOf, Queue, HolderOf, Create, Yield, Exit, Block, Tick, Down, Up, Take, Drain, Continue, Enqueue, Pop;
    match a
    case CallDown(n) => DownSema(st, Plain(n), s);
    case CallAcquire(l) => DownSema(st, Guard(l), s);
    case CallUp(n) => UpSema(st, Plain(n), s);
    case InterruptUp(n) => UpSema(st, Plain(n), s);
    case CallTryDown(n) => TrySema(st, Plain(n), s);
    case CallTryAcquire(l) => TrySema(st, Guard(l), s);
    case InterruptTryDown(n) => DrainSema(st, n, s);
    case CallRelease(l) => HolderEffect(st, l, None, Releasing(l));
    case CallWait(c) => EnqueueEffect(st, c);
    case CallSignal(c) => if Queue(st, c) != [] { PopEffect(st, c, false); }
    case CallBroadcast(c) => AtSema(st, Broadcast(c), s);
    case Go => ContinueSema(st, s);
    case _ => ThreadsSema(st, Do(st, a).th, s);
  }

  lemma ThreadsSema(st: State, th: Threads, s: SemaId)
    ensures SemaOf(st.(th := th), s) == SemaOf(st, s)
  {
  }

  lemma AtSema(st: State, pc: Pc, s: SemaId)
    ensures SemaOf(At(st, pc), s) == SemaOf(st, s)
  {
  }

  lemma DownSema(st: State, r: SemaId, s: SemaId)
    ensures var m, m' := SemaOf(st, s), SemaOf(Down(st, r), s);
            && Moved(m, m', 0, if r == s && m.value > 0 then 1 else 0)
            && m'.waiters == if r == s && m.value == 0 then m.waiters + [st.th.current] else m.waiters
  {
    hide SemaOf, Sleep, Take;
    SleepEffect(st, r);
    TrySema(st, r, s);
  }

  lemma TrySema(st: State, r: SemaId, s: SemaId)
    ensures var st', m := if SemaOf(st, r).value > 0 then Take(st, r) else st, SemaOf(st, s);
            && Moved(m, SemaOf(st', s), 0, if r == s && m.value > 0 then 1 else 0)
            && SemaOf(st', s).waiters == m.waiters
  {
    hide SemaOf, Take;
    if SemaOf(st, r).value > 0 {
      TakeEffect(st, r);
    }
  }

  lemma DrainSema(st: State, n: nat, s: SemaId)
    ensures var st', m := if SemaOf(st, Plain(n)).value > 0 then Drain(st, n) else st, SemaOf(st, s);
            && Moved(m, SemaOf(st', s), 0, if s == Plain(n) && m.value > 0 then 1 else 0)
            && SemaOf(st', s).waiters == m.waiters
  {
  }

  lemma UpSema(st: State, r: SemaId, s: SemaId)
    ensures var m, m' := SemaOf(st, s), SemaOf(Up(st, r), s);
            && Moved(m, m', if r == s then 1 else 0, 0)
            && m'.waiters == if r == s && m.waiters != [] then m.waiters[1..] else m.waiters
  {
    hide SemaOf, Up;
    UpEffect(st, r);
  }

  lemma ContinueSema(st: State, s: SemaId)
    requires !PcOf(st, st.th.current).Outside?
    ensures var m, m' := SemaOf(st, s), SemaOf(Continue(st), s);
            && Moved(m, m', if Upped(st, Go) == Some(s) then 1 else 0, if Takes(st, Go, s) then 1 else 0)
            && m'.waiters ==
                 if Upped(st, Go) == Some(s) && m.waiters != [] then m.waiters[1..]
                 else if SleepsOn(st, Go, s) then m.waiters + [st.th.current]
                 else m.waiters
  {
    hide SemaOf, PcOf, Queue, Down, Up, At, SetHolder, Pop, UpLock, Deliver;
    var cur := st.th.current;
    match PcOf(st, cur)
    case Asleep(r) => DownSema(st, r, s);
    case WaitDown(c) => DownSema(st, Private(cur, c), s);
    case WaitAcquire(c) => DownSema(st, Guard(c.lock), s);
    case GotLock(l) => HolderEffect(st, l, Some(cur), Outside);
    case WaitRelease(c) => HolderEffect(st, c.lock, None, WaitUp(c));
    case Releasing(l) => UnlockEffect(st, l, Outside); UpSema(st, Guard(l), s);
    case WaitUp(c) => UnlockEffect(st, c.lock, WaitDown(c)); UpSema(st, Guard(c.lock), s);
    case SignalUp(w, c, all) => DeliverEffect(st, w, c, all); UpSema(st, Private(w, c), s);
    case Broadcast(c) =>
      AtSema(st, Outside, s);
      if Queue(st, c) != [] {
        PopEffect(st, c, true);
      }
  }

  // ----- The value and the wait list over runs -----

  function UpCount(st: State, actions: seq<Action>, s: SemaId): nat
    decreases |actions|
  {
    if actions == [] then 0
    else (if Upped(st, actions[0]) == Some(s) then 1 else 0) + UpCount(Do(st, actions[0]), actions[1..], s)
  }

  function TakeCount(st: State, actions: seq<Action>, s: SemaId): nat
    decreases |actions|
  {
    if actions == [] then 0
    else (if Takes(st, actions[0], s) then 1 else 0) + TakeCount(Do(st, actions[0]), actions[1..], s)
  }

  /** The calls to `sema_up` in a run, by threads and interrupt handlers. */
  function UpCalls(actions: seq<Action>, n: nat): nat {
    if actions == [] then 0
    else (if actions[0] == CallUp(n) || actions[0] == InterruptUp(n) then 1 else 0) + UpCalls(actions[1..], n)
  }

  lemma {:induction false} UpCallsCount(st: State, actions: seq<Action>, n: nat)
    ensures UpCount(st, actions, Plain(n)) == UpCalls(actions, n)
    decreases |actions|
  {
    hide Do;
    if actions != [] {
      UpCallsCount(Do(st, actions[0]), actions[1..], n);
    }
  }

  /** Over every run the value changes by the ups made less the downs completed, and those are the ones recorded. */
  lemma {:induction false} ValueLaw(st: State, actions: seq<Action>, s: SemaId)
    requires SynchRuns.MayRun(st, actions) && !s.Private?
    ensures var m, m' := SemaOf(st, s), SemaOf(SynchRuns.Run(st, actions), s);
            Moved(m, m', UpCount(st, actions, s), TakeCount(st, actions, s))
    decreases |actions|
  {
    hide Do, MayStep, SemaOf, Upped, Takes;
    if actions != [] {
      SemaStep(st, actions[0], s);
      ValueLaw(Do(st, actions[0]), actions[1..], s);
    }
  }

  lemma PlainValueLaw(st: State, actions: seq<Action>, n: nat)
    requires SynchRuns.MayRun(st, actions)
    ensures var m, m' := SemaOf(st, Plain(n)), SemaOf(SynchRuns.Run(st, actions), Plain(n));
            Moved(m, m', UpCalls(actions, n), TakeCount(st, actions, Plain(n)))
  {
    ValueLaw(st, actions, Plain(n));
    UpCallsCount(st, actions, n);
  }

  /** First come, first served: after `j <= k` ups the thread at place `k` of a wait list waits at place `k - j`. */
  lemma {:induction false} WaitsInOrder(st: State, actions: seq<Action>, s: SemaId, k: nat)
    requires SynchRuns.MayRun(st, actions) && !s.Private?
    requires k < |SemaOf(st, s).waiters| && UpCount(st, actions, s) <= k
    ensures var q, j := SemaOf(SynchRuns.Run(st, actions), s).waiters, UpCount(st, actions, s);
            k - j < |q| && q[k - j] == SemaOf(st, s).waiters[k]
    decreases |actions|
  {
    hide Do, MayStep, SemaOf, Upped, SleepsOn, Takes;
    if actions != [] {
      SemaStep(st, actions[0], s);
      WaitsInOrder(Do(st, actions[0]), actions[1..], s, if Upped(st, actions[0]) == Some(s) then k - 1 else k);
    }
  }

  /** So it is woken by exactly the `k + 1`st up, and goes to the back of the ready list. */
  lemma WokenInTurn(st: State, actions: seq<Action>, a: Action, s: SemaId, k: nat)
    requires Consistent(st) && SynchRuns.MayRun(st, actions) && !s.Private?
    requires k < |SemaOf(st, s).waiters| && UpCount(st, actions, s) == k
    requires var r := SynchRuns.Run(st, actions); MayStep(r, a) && Upped(r, a) == Some(s)
    ensures var r, t := SynchRuns.Run(st, actions), SemaOf(st, s).waiters[k];
            && Sleeping(r.th, t) && t in SemaOf(r, s).waiters
            && Do(r, a).th.ready == r.th.ready + [t] && t !in SemaOf(Do(r, a), s).waiters
  {
    var r, t := SynchRuns.Run(st, actions), SemaOf(st, s).waiters[k];
    SynchRuns.RunKeeps(st, actions);
    WaitsInOrder(st, actions, s, k);
    SemaStep(r, a, s);
    SynchRuns.StepIsSchedulerStep(r, a);
    UpIsUnblock(r, a, s);
    WaitersAre(r, s);
    hide *;
    TailOf(SemaOf(r, s).waiters);
  }

  lemma WaitersAre(st: State, s: SemaId)
    requires Consistent(st)
    ensures Distinct(SemaOf(st, s).waiters) && forall t :: t in SemaOf(st, s).waiters ==> Sleeping(st.th, t)
  {
  }

  lemma UpIsUnblock(st: State, a: Action, s: SemaId)
    requires Upped(st, a) == Some(s) && SemaOf(st, s).waiters != []
    requires SynchRuns.IsOp(st, SynchRuns.OpOf(st, a), Do(st, a))
    ensures Do(st, a).th.ready == st.th.ready + [SemaOf(st, s).waiters[0]]
  {
    hide Do, SemaOf;
  }

  // ----- Threads inside a call -----

  /** Thread `u` has not returned from its call before the end of the run. */
  predicate Within(st: State, actions: seq<Action>, u: Tid)
    decreases |actions|
  {
    actions == [] || (!PcOf(st, u).Outside? && Within(Do(st, actions[0]), actions[1..], u))
  }

  /** A thread inside a call moves on in its own steps only. */
  lemma InsideStep(st: State, a: Action, u: Tid)
    requires Consistent(st) && MayStep(st, a) && !PcOf(st, u).Outside?
    ensures PcOf(Do(st, a), u) == if st.th.current == u && a.Go? then PcOf(Continue(st), u) else PcOf(st, u)
  {
    hide SemaOf, PcOf, Queue, HolderOf, Create, Yield, Exit, Block, Tick, Down, Up, Take, Drain, Continue, Enqueue, Pop;
    hide At, SetHolder, Consistent, MayStep;
    CallsFromOutside(st, a);
    match a
    case CallDown(n) => DownPc(st, Plain(n), u);
    case CallAcquire(l) => DownPc(st, Guard(l), u);
    case CallUp(n) => UpEffect(st, Plain(n));
    case InterruptUp(n) => UpEffect(st, Plain(n));
    case CallTryDown(n) => if SemaOf(st, Plain(n)).value > 0 { TakeEffect(st, Plain(n)); }
    case CallTryAcquire(l) => if SemaOf(st, Guard(l)).value > 0 { TakeEffect(st, Guard(l)); }
    case InterruptTryDown(n) => if SemaOf(st, Plain(n)).value > 0 { DrainPc(st, n, u); }
    case CallRelease(l) => HolderEffect(st, l, None, Releasing(l));
    case CallWait(c) => EnqueueEffect(st, c);
    case CallSignal(c) => if Queue(st, c) != [] { PopEffect(st, c, false); }
    case CallBroadcast(c) => AtPc(st, Broadcast(c), u);
    case Go => if st.th.current != u { ContinuePc(st, u); }
    case _ => ThreadsPc(st, Do(st, a).th, u);
  }

  /** Calls are made from outside, and `Go` is a step inside. */
  lemma CallsFromOutside(st: State, a: Action)
    requires Consistent(st) && MayStep(st, a)
    ensures PcOf(st, st.th.current).Outside? || a.Go? || a.TimerTick? || a.InterruptUp? || a.InterruptTryDown?
    ensures a.Go? ==> !PcOf(st, st.th.current).Outside?
  {
    IdleOutside(st);
    hide PcOf, Consistent;
  }

  lemma IdleOutside(st: State)
    requires Consistent(st)
    ensures PcOf(st, st.th.idle).Outside?
  {
  }

  lemma ThreadsPc(st: State, th: Threads, u: Tid)
    ensures PcOf(st.(th := th), u) == PcOf(st, u)
  {
  }

  lemma AtPc(st: State, pc: Pc, u: Tid)
    ensures PcOf(At(st, pc), u) == if u == st.th.current then pc else PcOf(st, u)
  {
  }

  lemma DrainPc(st: State, n: nat, u: Tid)
    requires SemaOf(st, Plain(n)).value > 0
    ensures PcOf(Drain(st, n), u) == PcOf(st, u)
  {
  }

  lemma DownPc(st: State, s: SemaId, u: Tid)
    ensures PcOf(Down(st, s), u) ==
              if u != st.th.current then PcOf(st, u) else if SemaOf(st, s).value == 0 then Asleep(s) else After(s)
  {
    hide SemaOf, PcOf, Sleep, Take;
    SleepEffect(st, s);
    if SemaOf(st, s).value > 0 {
      TakeEffect(st, s);
    }
  }

  /** Where the running thread goes next. */
  function NextPc(st: State): Pc {
    var cur := st.th.current;
    match PcOf(st, cur)
    case Outside => Outside
    case Asleep(s) => if SemaOf(st, s).value == 0 then Asleep(s) else After(s)
    case GotLock(_) => Outside
    case Releasing(_) => Outside
    case WaitRelease(c) => WaitUp(c)
    case WaitUp(c) => WaitDown(c)
    case WaitDown(c) => if SemaOf(st, Private(cur, c)).value == 0 then Asleep(Private(cur, c)) else WaitAcquire(c)
    case WaitAcquire(c) => if SemaOf(st, Guard(c.lock)).value == 0 then Asleep(Guard(c.lock)) else GotLock(c.lock)
    case SignalUp(_, c, all) => if all then Broadcast(c) else Outside
    case Broadcast(c) => if Queue(st, c) == [] then Outside else SignalUp(Queue(st, c)[0], c, true)
  }

  lemma ContinuePc(st: State, u: Tid)
    requires !PcOf(st, st.th.current).Outside?
    ensures PcOf(Continue(st), u) == if u == st.th.current then NextPc(st) else PcOf(st, u)
  {
    hide SemaOf, PcOf, Queue, Down, Up, At, SetHolder, Pop, UpLock, Deliver;
    var cur := st.th.current;
    match PcOf(st, cur)
    case Asleep(r) => DownPc(st, r, u);
    case WaitDown(c) => DownPc(st, Private(cur, c), u);
    case WaitAcquire(c) => DownPc(st, Guard(c.lock), u);
    case GotLock(l) => HolderEffect(st, l, Some(cur), Outside);
    case WaitRelease(c) => HolderEffect(st, c.lock, None, WaitUp(c));
    case Releasing(l) => UnlockEffect(st, l, Outside); UpEffect(st, Guard(l));
    case WaitUp(c) => UnlockEffect(st, c.lock, WaitDown(c)); UpEffect(st, Guard(c.lock));
    case SignalUp(w, c, all) => DeliverEffect(st, w, c, all); UpEffect(st, Private(w, c));
    case Broadcast(c) =>
      AtPc(st, Outside, u);
      if Queue(st, c) != [] {
        PopEffect(st, c, true);
      }
  }

  // ----- Locks -----

  predicate Entering(pc: Pc, l: LockId) {
    pc == Asleep(Guard(l)) || pc == GotLock(l)
  }

  /** Still in `lock_acquire`, or back with the lock. */
  predicate Acquiring(st: State, u: Tid, l: LockId) {
    Entering(PcOf(st, u), l) || (PcOf(st, u).Outside? && HolderOf(st, l) == Some(u))
  }

  lemma EnteringStep(st: State, a: Action, u: Tid, l: LockId)
    requires Consistent(st) && MayStep(st, a) && Entering(PcOf(st, u), l)
    ensures Acquiring(Do(st, a), u, l)
  {
    InsideStep(st, a, u);
    if st.th.current == u && a.Go? {
      ContinuePc(st, u);
      if PcOf(st, u) == GotLock(l) {
        HolderEffect(st, l, Some(u), Outside);
      }
    }
    hide Do, Continue, PcOf, HolderOf, SemaOf, Consistent, MayStep;
  }

  lemma {:induction false} EnteringRun(st: State, actions: seq<Action>, u: Tid, l: LockId)
    requires Consistent(st) && SynchRuns.MayRun(st, actions) && Within(st, actions, u) && Acquiring(st, u, l)
    ensures Acquiring(SynchRuns.Run(st, actions), u, l)
    decreases |actions|
  {
    hide Do, MayStep, Consistent, PcOf, HolderOf;
    if actions != [] {
      SynchRuns.StepKeeps(st, actions[0]);
      EnteringStep(st, actions[0], u, l);
      EnteringRun(Do(st, actions[0]), actions[1..], u, l);
    }
  }

  /** A thread returns from `lock_acquire` only as the holder of the lock. */
  lemma AcquireReturns(st: State, l: LockId, actions: seq<Action>)
    requires Consistent(st) && MayStep(st, CallAcquire(l))
    requires var st' := Do(st, CallAcquire(l));
             SynchRuns.MayRun(st', actions) && Within(st', actions, st.th.current)
    ensures var r := SynchRuns.Run(Do(st, CallAcquire(l)), actions);
            if PcOf(r, st.th.current).Outside? then HolderOf(r, l) == Some(st.th.current) && actions != []
            else Entering(PcOf(r, st.th.current), l)
  {
    AcquireStarts(st, l);
    if actions == [] {
      return;
    }
    hide Do, Consistent, PcOf, HolderOf, MayStep;
    SynchRuns.StepKeeps(st, CallAcquire(l));
    EnteringRun(Do(st, CallAcquire(l)), actions, st.th.current, l);
  }

  lemma AcquireStarts(st: State, l: LockId)
    ensures Acquiring(Do(st, CallAcquire(l)), st.th.current, l)
    ensures !PcOf(Do(st, CallAcquire(l)), st.th.current).Outside?
  {
    DownPc(st, Guard(l), st.th.current);
    hide Down, SemaOf, PcOf;
  }

  /** `lock_try_acquire` changes nothing when some thread is in the lock, and otherwise returns as its holder. */
  lemma TryAcquireReturns(st: State, l: LockId, actions: seq<Action>)
    requires Consistent(st) && MayStep(st, CallTryAcquire(l))
    requires var st' := Do(st, CallTryAcquire(l));
             SynchRuns.MayRun(st', actions) && Within(st', actions, st.th.current)
    ensures (exists t :: InRegion(st, t, l)) ==> Do(st, CallTryAcquire(l)) == st
    ensures (forall t :: !InRegion(st, t, l)) ==>
              var r := SynchRuns.Run(Do(st, CallTryAcquire(l)), actions);
              if PcOf(r, st.th.current).Outside? then HolderOf(r, l) == Some(st.th.current)
              else Entering(PcOf(r, st.th.current), l)
  {
    TryStarts(st, l);
    hide Do, Consistent, PcOf, HolderOf, MayStep;
    SynchRuns.StepKeeps(st, CallTryAcquire(l));
    if forall t :: !InRegion(st, t, l) {
      EnteringRun(Do(st, CallTryAcquire(l)), actions, st.th.current, l);
    }
  }

  lemma TryStarts(st: State, l: LockId)
    requires Consistent(st)
    ensures (exists t :: InRegion(st, t, l)) ==> Do(st, CallTryAcquire(l)) == st
    ensures (forall t :: !InRegion(st, t, l)) ==> PcOf(Do(st, CallTryAcquire(l)), st.th.current) == GotLock(l)
  {
    assert LockOk(st, l);
    if SemaOf(st, Guard(l)).value > 0 {
      TakeEffect(st, Guard(l));
    }
    hide Take, PcOf, SemaOf, HolderOf, OwnerOf, SchedSpec.Inv, Lists, Values, Signals;
    if OwnerOf(st, l).Some? {
      assert InRegion(st, OwnerOf(st, l).value, l);
    }
  }

  /** Nobody is given a lock by another thread. */
  lemma NotGiven(st: State, a: Action, u: Tid, l: LockId)
    requires MayStep(st, a) && st.th.current != u && HolderOf(st, l) != Some(u)
    ensures HolderOf(Do(st, a), l) != Some(u)
  {
    SynchRuns.HolderInDowns(st, l);
    hide Create, Yield, Exit, Block, Tick, SemaOf, Down, Up, Queue, PcOf, Continue;
    match a
    case Go => ContinueHolder(st, l);
    case _ =>
  }

  lemma ContinueHolder(st: State, l: LockId)
    ensures var cur := st.th.current; var pc := PcOf(st, cur);
            HolderOf(Continue(st), l) ==
              if pc == GotLock(l) then Some(cur)
              else if pc.WaitRelease? && pc.c.lock == l then None
              else HolderOf(st, l)
  {
    hide SemaOf, PcOf, Queue, HolderOf, Down, Up, At, SetHolder, Pop, UpLock, Deliver;
    var cur := st.th.current;
    SynchRuns.HolderInDowns(st, l);
    match PcOf(st, cur)
    case GotLock(k) => HolderEffect(st, k, Some(cur), Outside);
    case WaitRelease(c) => HolderEffect(st, c.lock, None, WaitUp(c));
    case Releasing(k) => UnlockEffect(st, k, Outside);
    case WaitUp(c) => UnlockEffect(st, c.lock, WaitDown(c));
    case SignalUp(w, c, all) => DeliverEffect(st, w, c, all);
    case Broadcast(c) =>
      AtHolder(st, Outside, l);
      if Queue(st, c) != [] {
        PopEffect(st, c, true);
      }
    case _ =>
  }

  lemma AtHolder(st: State, pc: Pc, l: LockId)
    ensures HolderOf(At(st, pc), l) == HolderOf(st, l)
  {
  }

  /** In `lock_release` after the holder has been cleared, or back; the lock is not held by `u`. */
  predicate LettingGo(st: State, u: Tid, l: LockId) {
    HolderOf(st, l) != Some(u) && (PcOf(st, u) == Releasing(l) || PcOf(st, u).Outside?)
  }

  lemma LettingGoStep(st: State, a: Action, u: Tid, l: LockId)
    requires Consistent(st) && MayStep(st, a) && LettingGo(st, u, l) && !PcOf(st, u).Outside?
    ensures LettingGo(Do(st, a), u, l)
  {
    InsideStep(st, a, u);
    if st.th.current != u {
      NotGiven(st, a, u, l);
    } else {
      InsideHolder(st, a, l);
      ContinuePc(st, u);
    }
    hide Do, Continue, PcOf, HolderOf, SemaOf, Consistent, MayStep;
  }

  /** The steps of a thread in the second half of `lock_release` leave all holders alone. */
  lemma InsideHolder(st: State, a: Action, l: LockId)
    requires Consistent(st) && MayStep(st, a) && PcOf(st, st.th.current).Releasing?
    ensures HolderOf(Do(st, a), l) == HolderOf(st, l)
  {
    IdleOutside(st);
    SynchRuns.HolderInDowns(st, l);
    hide Create, Yield, Exit, Block, Tick, SemaOf, Down, Up, Queue, PcOf, Consistent;
  }

  lemma {:induction false} LettingGoRun(st: State, actions: seq<Action>, u: Tid, l: LockId)
    requires Consistent(st) && SynchRuns.MayRun(st, actions) && Within(st, actions, u) && LettingGo(st, u, l)
    ensures LettingGo(SynchRuns.Run(st, actions), u, l)
    decreases |actions|
  {
    hide Do, MayStep, Consistent, PcOf, HolderOf;
    if actions != [] {
      SynchRuns.StepKeeps(st, actions[0]);
      LettingGoStep(st, actions[0], u, l);
      LettingGoRun(Do(st, actions[0]), actions[1..], u, l);
    }
  }

  /** A thread returns from `lock_release` out of the lock, which is free then unless somebody else is in it. */
  lemma ReleaseReturns(st: State, l: LockId, actions: seq<Action>)
    requires Consistent(st) && MayStep(st, CallRelease(l))
    requires var st' := Do(st, CallRelease(l));
             SynchRuns.MayRun(st', actions) && Within(st', actions, st.th.current)
    ensures var r, u := SynchRuns.Run(Do(st, CallRelease(l)), actions), st.th.current;
            && HolderOf(r, l) != Some(u)
            && (PcOf(r, u) == Releasing(l) || (PcOf(r, u).Outside? && !InRegion(r, u, l)))
            && (PcOf(r, u).Outside? && (forall t :: t != u ==> !InRegion(r, t, l)) ==> SemaOf(r, Guard(l)).value == 1)
  {
    var st' := Do(st, CallRelease(l));
    HolderEffect(st, l, None, Releasing(l));
    assert LettingGo(st', st.th.current, l);
    hide Do, Consistent, PcOf, HolderOf, MayStep, SemaOf;
    SynchRuns.StepKeeps(st, CallRelease(l));
    LettingGoRun(st', actions, st.th.current, l);
    SynchRuns.RunKeeps(st', actions);
    FreeIs(SynchRuns.Run(st', actions), l);
  }

  lemma FreeIs(st: State, l: LockId)
    requires Consistent(st)
    ensures (forall t :: !InRegion(st, t, l)) ==> SemaOf(st, Guard(l)).value == 1
  {
    assert LockOk(st, l);
    hide PcOf, SemaOf, HolderOf, OwnerOf, SchedSpec.Inv, Lists, Values, Signals;
    if OwnerOf(st, l).Some? {
      assert InRegion(st, OwnerOf(st, l).value, l);
    }
  }

  // ----- Semaphores -----

  /** The downs on `s` that thread `u` itself completes. */
  function TakesBy(st: State, actions: seq<Action>, u: Tid, s: SemaId): nat
    decreases |actions|
  {
    if actions == [] then 0
    else
      (if st.th.current == u && !actions[0].InterruptTryDown? && Takes(st, actions[0], s) then 1 else 0)
      + TakesBy(Do(st, actions[0]), actions[1..], u, s)
  }

  /** A thread that sleeps in `sema_down` completes one down on the way out, and none before. */
  lemma {:induction false} DownRun(st: State, actions: seq<Action>, u: Tid, n: nat)
    requires Consistent(st) && SynchRuns.MayRun(st, actions) && Within(st, actions, u)
    requires PcOf(st, u) == Asleep(Plain(n))
    ensures var r := SynchRuns.Run(st, actions);
            if TakesBy(st, actions, u, Plain(n)) == 0 then PcOf(r, u) == Asleep(Plain(n))
            else PcOf(r, u).Outside? && TakesBy(st, actions, u, Plain(n)) == 1
    decreases |actions|
  {
    if actions != [] {
      var a := actions[0];
      SynchRuns.StepKeeps(st, a);
      InsideStep(st, a, u);
      SleeperTakes(st, a, u, n);
      hide Do, MayStep, Consistent, PcOf, Continue, Takes;
      if PcOf(Do(st, a), u).Outside? {
        assert actions[1..] == [];
      } else {
        DownRun(Do(st, a), actions[1..], u, n);
      }
    }
  }

  lemma SleeperTakes(st: State, a: Action, u: Tid, n: nat)
    requires Consistent(st) && MayStep(st, a) && PcOf(st, u) == Asleep(Plain(n))
    ensures var takes := st.th.current == u && !a.InterruptTryDown? && Takes(st, a, Plain(n));
            PcOf(Do(st, a), u) == if takes then Outside else Asleep(Plain(n))
  {
    IdleOutside(st);
    InsideStep(st, a, u);
    if st.th.current == u {
      ContinuePc(st, u);
    }
    hide Do, Continue, PcOf, HolderOf, SemaOf, Consistent;
  }

  /** A thread returns from `sema_down` when it has completed exactly one down. */
  lemma DownReturns(st: State, n: nat, actions: seq<Action>)
    requires Consistent(st) && MayStep(st, CallDown(n))
    requires var st' := Do(st, CallDown(n));
             SynchRuns.MayRun(st', actions) && Within(st', actions, st.th.current)
    ensures var r, u := SynchRuns.Run(Do(st, CallDown(n)), actions), st.th.current;
            if PcOf(r, u).Outside? then TakesBy(st, [CallDown(n)] + actions, u, Plain(n)) == 1
            else PcOf(r, u) == Asleep(Plain(n)) && TakesBy(st, [CallDown(n)] + actions, u, Plain(n)) == 0
  {
    hide Down, PcOf, SemaOf, Consistent, MayStep;
    var st', u := Do(st, CallDown(n)), st.th.current;
    DownPc(st, Plain(n), u);
    assert ([CallDown(n)] + actions)[1..] == actions;
    SynchRuns.StepKeeps(st, CallDown(n));
    if SemaOf(st, Plain(n)).value == 0 {
      DownRun(st', actions, u, n);
    }
  }

  // ----- Condition variables -----

  /** The condition variable whose front waiter a step pops. */
  function Popped(st: State, a: Action): Option<CondId> {
    match a
    case CallSignal(c) => if Queue(st, c) == [] then None else Some(c)
    case Go =>
      var pc := PcOf(st, st.th.current);
      if pc.Broadcast? && Queue(st, pc.c) != [] then Some(pc.c) else None
    case _ => None
  }

  /** The step is the `sema_up` of a signal to `w`, popped from the queue of `c`. */
  predicate Delivers(st: State, a: Action, w: Tid, c: CondId) {
    a.Go? && PcOf(st, st.th.current).SignalUp? && PcOf(st, st.th.current).w == w && PcOf(st, st.th.current).c == c
  }

  /** What a step does to a queue. */
  lemma QueueStep(st: State, a: Action, c: CondId)
    requires MayStep(st, a)
    ensures Queue(Do(st, a), c) ==
              if Popped(st, a) == Some(c) then Queue(st, c)[1..]
              else if a == CallWait(c) then Queue(st, c) + [st.th.current]
              else Queue(st, c)
  {
    SynchRuns.QueueInDowns(st, c);
    hide Create, Yield, Exit, Block, Tick, SemaOf, Down, Up, Queue, PcOf, HolderOf, Continue, Enqueue, Pop, Take, Drain;
    match a
    case CallWait(d) => EnqueueEffect(st, d);
    case CallSignal(d) => if Queue(st, d) != [] { PopEffect(st, d, false); }
    case Go => ContinueQueue(st, c);
    case CallTryDown(n) => if SemaOf(st, Plain(n)).value > 0 { TakeEffect(st, Plain(n)); }
    case CallTryAcquire(l) => if SemaOf(st, Guard(l)).value > 0 { TakeEffect(st, Guard(l)); }
    case _ => OtherQueue(st, a, c);
  }

  lemma OtherQueue(st: State, a: Action, c: CondId)
    requires !a.CallWait? && !a.CallSignal? && !a.Go? && !a.CallTryDown? && !a.CallTryAcquire?
    ensures Queue(Do(st, a), c) == Queue(st, c)
  {
    SynchRuns.QueueInDowns(st, c);
    hide Create, Yield, Exit, Block, Tick, SemaOf, Down, Up;
  }

  lemma ContinueQueue(st: State, c: CondId)
    requires !PcOf(st, st.th.current).Outside?
    ensures Queue(Continue(st), c) == if Popped(st, Go) == Some(c) then Queue(st, c)[1..] else Queue(st, c)
  {
    hide SemaOf, PcOf, Queue, Down, Up, At, SetHolder, Pop, UpLock, Deliver;
    var cur := st.th.current;
    SynchRuns.QueueInDowns(st, c);
    match PcOf(st, cur)
    case GotLock(l) => HolderEffect(st, l, Some(cur), Outside);
    case WaitRelease(d) => HolderEffect(st, d.lock, None, WaitUp(d));
    case Releasing(l) => UnlockEffect(st, l, Outside);
    case WaitUp(d) => UnlockEffect(st, d.lock, WaitDown(d));
    case SignalUp(w, d, all) => DeliverEffect(st, w, d, all);
    case Broadcast(d) =>
      AtQueue(st, Outside, c);
      if Queue(st, d) != [] {
        PopEffect(st, d, true);
      }
    case _ =>
  }

  lemma AtQueue(st: State, pc: Pc, c: CondId)
    ensures Queue(At(st, pc), c) == Queue(st, c)
  {
  }

  function PopCount(st: State, actions: seq<Action>, c: CondId): nat
    decreases |actions|
  {
    if actions == [] then 0
    else (if Popped(st, actions[0]) == Some(c) then 1 else 0) + PopCount(Do(st, actions[0]), actions[1..], c)
  }

  /** Waiters are signalled in the order in which they came. */
  lemma {:induction false} SignalledInOrder(st: State, actions: seq<Action>, c: CondId, k: nat)
    requires SynchRuns.MayRun(st, actions) && k < |Queue(st, c)| && PopCount(st, actions, c) <= k
    ensures var q, j := Queue(SynchRuns.Run(st, actions), c), PopCount(st, actions, c);
            k - j < |q| && q[k - j] == Queue(st, c)[k]
    decreases |actions|
  {
    hide Do, MayStep, Queue, Popped;
    if actions != [] {
      QueueStep(st, actions[0], c);
      SignalledInOrder(Do(st, actions[0]), actions[1..], c, if Popped(st, actions[0]) == Some(c) then k - 1 else k);
    }
  }

  /** What a step does to the token of a thread. */
  lemma TokenStep(st: State, a: Action, u: Tid)
    requires MayStep(st, a)
    ensures var cur := st.th.current; var pc := PcOf(st, cur);
            TokenOf(Do(st, a), u) ==
              if a.CallWait? && u == cur then InQueue(a.c)
              else if Popped(st, a).Some? && Queue(st, Popped(st, a).value)[0] == u
              then InFlight(Popped(st, a).value, cur)
              else if a.Go? && pc.SignalUp? && pc.w == u then Delivered(pc.c)
              else if u == cur && Downed(st, a).Some? && Downed(st, a).value.Private?
                      && Takes(st, a, Downed(st, a).value)
              then NoToken
              else TokenOf(st, u)
  {
    hide Create, Yield, Exit, Block, Tick, SemaOf, Down, Up, Queue, PcOf, HolderOf, TokenOf, Continue, Enqueue, Pop;
    hide Take, Drain;
    match a
    case CallDown(n) => DownToken(st, Plain(n), u);
    case CallAcquire(l) => DownToken(st, Guard(l), u);
    case CallUp(n) => UpEffect(st, Plain(n));
    case InterruptUp(n) => UpEffect(st, Plain(n));
    case CallTryDown(n) => if SemaOf(st, Plain(n)).value > 0 { TakeEffect(st, Plain(n)); }
    case CallTryAcquire(l) => if SemaOf(st, Guard(l)).value > 0 { TakeEffect(st, Guard(l)); }
    case CallWait(c) => EnqueueEffect(st, c);
    case CallSignal(c) => if Queue(st, c) != [] { PopEffect(st, c, false); }
    case Go => ContinueToken(st, u);
    case _ => OtherToken(st, a, u);
  }

  lemma OtherToken(st: State, a: Action, u: Tid)
    requires a.InterruptTryDown? || a.CallRelease? || a.CallBroadcast? || a.CallCreate? || a.CallYield? || a.CallExit?
             || a.IdleBlock? || a.TimerTick?
    ensures TokenOf(Do(st, a), u) == TokenOf(st, u)
  {
    hide Create, Yield, Exit, Block, Tick, SemaOf;
  }

  lemma DownToken(st: State, s: SemaId, u: Tid)
    ensures TokenOf(Down(st, s), u) ==
              if u == st.th.current && s.Private? && SemaOf(st, s).value > 0 then NoToken else TokenOf(st, u)
  {
    hide SemaOf, TokenOf, Sleep, Take;
    SleepEffect(st, s);
    if SemaOf(st, s).value > 0 {
      TakeEffect(st, s);
    }
  }

  lemma ContinueToken(st: State, u: Tid)
    requires !PcOf(st, st.th.current).Outside?
    ensures var cur := st.th.current; var pc := PcOf(st, cur);
            TokenOf(Continue(st), u) ==
              if Popped(st, Go).Some? && Queue(st, Popped(st, Go).value)[0] == u
              then InFlight(Popped(st, Go).value, cur)
              else if pc.SignalUp? && pc.w == u then Delivered(pc.c)
              else if u == cur && Downed(st, Go).Some? && Downed(st, Go).value.Private?
                      && Takes(st, Go, Downed(st, Go).value)
              then NoToken
              else TokenOf(st, u)
  {
    hide SemaOf, PcOf, Queue, TokenOf, Down, Up, At, SetHolder, Pop, UpLock, Deliver;
    var cur := st.th.current;
    match PcOf(st, cur)
    case Asleep(r) => DownToken(st, r, u);
    case WaitDown(c) => DownToken(st, Private(cur, c), u);
    case WaitAcquire(c) => DownToken(st, Guard(c.lock), u);
    case GotLock(l) => HolderEffect(st, l, Some(cur), Outside);
    case WaitRelease(c) => HolderEffect(st, c.lock, None, WaitUp(c));
    case Releasing(l) => UnlockEffect(st, l, Outside); UpEffect(st, Guard(l));
    case WaitUp(c) => UnlockEffect(st, c.lock, WaitDown(c)); UpEffect(st, Guard(c.lock));
    case SignalUp(w, c, all) => DeliverEffect(st, w, c, all); UpEffect(st, Private(w, c));
    case Broadcast(c) =>
      AtToken(st, Outside, u);
      if Queue(st, c) != [] {
        PopEffect(st, c, true);
      }
  }

  lemma AtToken(st: State, pc: Pc, u: Tid)
    ensures TokenOf(At(st, pc), u) == TokenOf(st, u)
  {
  }

  /** The signals to `w` that arrive in a run. */
  function Deliveries(st: State, actions: seq<Action>, w: Tid, c: CondId): nat
    decreases |actions|
  {
    if actions == [] then 0
    else (if Delivers(st, actions[0], w, c) then 1 else 0) + Deliveries(Do(st, actions[0]), actions[1..], w, c)
  }

  /** `u` is in `cond_wait` and `d` signals have arrived, or it is back with the lock after one. */
  predicate WaitingAt(st: State, u: Tid, c: CondId, d: nat) {
    var pc := PcOf(st, u);
    if WaitsFor(pc, u) == Some(c) then d == if TokenOf(st, u) == Delivered(c) then 1 else 0
    else d == 1 && (pc == WaitAcquire(c) || Acquiring(st, u, c.lock))
  }

  lemma WaitStep(st: State, a: Action, u: Tid, c: CondId, d: nat)
    requires Consistent(st) && MayStep(st, a) && WaitingAt(st, u, c, d) && !PcOf(st, u).Outside?
    ensures WaitingAt(Do(st, a), u, c, d + if Delivers(st, a, u, c) then 1 else 0)
  {
    hide Do, Continue, PcOf, HolderOf, SemaOf, TokenOf, Queue, Consistent, MayStep;
    SignalFacts(st, a, u, c);
    if WaitsFor(PcOf(st, u), u) == Some(c) {
      WaiterStep(st, a, u, c);
    } else if PcOf(st, u) == WaitAcquire(c) {
      RetakeStep(st, a, u, c);
    } else {
      EnteringStep(st, a, u, c.lock);
      EnteringWaits(PcOf(Do(st, a), u), u, c);
    }
  }

  lemma EnteringWaits(pc: Pc, u: Tid, c: CondId)
    ensures Entering(pc, c.lock) || pc.Outside? ==> WaitsFor(pc, u) == None && pc != WaitAcquire(c)
  {
  }

  /** A step of any thread while `u` waits for its signal, or has got it and not yet taken it. */
  lemma WaiterStep(st: State, a: Action, u: Tid, c: CondId)
    requires Consistent(st) && MayStep(st, a) && WaitsFor(PcOf(st, u), u) == Some(c)
    ensures var d := if TokenOf(st, u) == Delivered(c) then 1 else 0;
            WaitingAt(Do(st, a), u, c, d + if Delivers(st, a, u, c) then 1 else 0)
  {
    hide Do, Continue, PcOf, HolderOf, SemaOf, TokenOf, Queue, Consistent, Acquiring;
    SignalFacts(st, a, u, c);
    InsideStep(st, a, u);
    TokenStep(st, a, u);
    if st.th.current == u && a.Go? {
      ContinuePc(st, u);
    }
    hide MayStep;
  }

  /** A step of any thread while `u` is about to take the lock back. */
  lemma RetakeStep(st: State, a: Action, u: Tid, c: CondId)
    requires Consistent(st) && MayStep(st, a) && PcOf(st, u) == WaitAcquire(c)
    ensures WaitingAt(Do(st, a), u, c, 1) && !Delivers(st, a, u, c)
  {
    hide Do, Continue, PcOf, HolderOf, SemaOf, TokenOf, Queue, Consistent, MayStep;
    SignalFacts(st, a, u, c);
    InsideStep(st, a, u);
    if st.th.current == u && a.Go? {
      ContinuePc(st, u);
    }
  }

  /** What the invariant says about the waiter `u`, the thread that steps and their tokens. */
  lemma SignalFacts(st: State, a: Action, u: Tid, c: CondId)
    requires Consistent(st)
    ensures var cur := st.th.current; var pc, k := PcOf(st, u), TokenOf(st, u);
            && WaitsFor(pc, u) == (if k.NoToken? then None else Some(k.c))
            && (PcOf(st, cur).SignalUp? && PcOf(st, cur).w == u ==> k == InFlight(PcOf(st, cur).c, cur))
            && (Popped(st, a).Some? && Queue(st, Popped(st, a).value)[0] == u ==> k == InQueue(Popped(st, a).value))
            && SemaOf(st, Private(u, c)).value == if k == Delivered(c) then 1 else 0
  {
    hide PcOf, SemaOf, Queue, TokenOf, Lists, Locks, Values, SchedSpec.Inv;
    assert TokenOk(st, u) && TokenOk(st, st.th.current);
    if Popped(st, a).Some? {
      var q := Queue(st, Popped(st, a).value);
      assert QueueOk(st, Popped(st, a).value) && q[0] in q;
    }
  }

  lemma {:induction false} WaitRun(st: State, actions: seq<Action>, u: Tid, c: CondId, d: nat)
    requires Consistent(st) && SynchRuns.MayRun(st, actions) && Within(st, actions, u) && WaitingAt(st, u, c, d)
    ensures WaitingAt(SynchRuns.Run(st, actions), u, c, d + Deliveries(st, actions, u, c))
    decreases |actions|
  {
    hide Do, MayStep, Consistent, PcOf, WaitingAt, Delivers;
    if actions != [] {
      var a := actions[0];
      SynchRuns.StepKeeps(st, a);
      WaitStep(st, a, u, c, d);
      WaitRun(Do(st, a), actions[1..], u, c, d + if Delivers(st, a, u, c) then 1 else 0);
    }
  }

  /** A thread returns from `cond_wait` as the holder of the lock, after exactly one signal to it. */
  lemma WaitReturns(st: State, c: CondId, actions: seq<Action>)
    requires Consistent(st) && MayStep(st, CallWait(c))
    requires var st' := Do(st, CallWait(c));
             SynchRuns.MayRun(st', actions) && Within(st', actions, st.th.current)
    ensures var st', u := Do(st, CallWait(c)), st.th.current; var r := SynchRuns.Run(st', actions);
            && Queue(st', c) == Queue(st, c) + [u]
            && Deliveries(st', actions, u, c) <= 1
            && (PcOf(r, u).Outside? ==> Deliveries(st', actions, u, c) == 1 && HolderOf(r, c.lock) == Some(u))
  {
    hide Do, MayStep, Consistent, PcOf, HolderOf, TokenOf, Queue, Delivers;
    var st', u := Do(st, CallWait(c)), st.th.current;
    WaitStarts(st, c);
    SynchRuns.StepKeeps(st, CallWait(c));
    WaitRun(st', actions, u, c, 0);
  }

  lemma WaitStarts(st: State, c: CondId)
    ensures var st' := Do(st, CallWait(c));
            Queue(st', c) == Queue(st, c) + [st.th.current] && WaitingAt(st', st.th.current, c, 0)
  {
    hide PcOf, HolderOf, Queue, TokenOf, Enqueue;
    EnqueueEffect(st, c);
  }

  /** Steps of others leave the holder of a lock and the queues it protects alone. */
  lemma HolderUndisturbed(st: State, a: Action, u: Tid, c: CondId)
    requires Consistent(st) && MayStep(st, a) && HolderOf(st, c.lock) == Some(u)
    requires st.th.current != u || (!PcOf(st, u).Outside? && !a.Go?)
    ensures HolderOf(Do(st, a), c.lock) == Some(u) && Queue(Do(st, a), c) == Queue(st, c)
  {
    if st.th.current != u {
      SynchRuns.OnlyHolderReleases(st, a, c.lock, u);
      if Queue(Do(st, a), c) != Queue(st, c) {
        SynchRuns.OnlyHolderQueues(st, a, c);
      }
    } else {
      IdleOutside(st);
      QueueStep(st, a, c);
      SynchRuns.HolderInDowns(st, c.lock);
      hide Create, Yield, Exit, Block, Tick, SemaOf, Down, Up, Queue, PcOf, Consistent, Continue;
    }
  }

  /** `u` holds the lock and is in a signal to `w`, or back after it. */
  predicate SignallingAt(st: State, u: Tid, w: Tid, c: CondId, d: nat) {
    && HolderOf(st, c.lock) == Some(u)
    && ((PcOf(st, u) == SignalUp(w, c, false) && d == 0) || (PcOf(st, u).Outside? && d == 1))
  }

  lemma SignalStep(st: State, a: Action, u: Tid, w: Tid, c: CondId)
    requires Consistent(st) && MayStep(st, a) && SignallingAt(st, u, w, c, 0)
    ensures SignallingAt(Do(st, a), u, w, c, if Delivers(st, a, w, c) then 1 else 0)
    ensures Queue(Do(st, a), c) == Queue(st, c)
  {
    hide Do, Continue, PcOf, HolderOf, SemaOf, TokenOf, Queue, Consistent, MayStep;
    InsideStep(st, a, u);
    OneCarrier(st, u, w);
    if st.th.current == u && a.Go? {
      ContinuePc(st, u);
      GoIsContinue(st);
      ContinueHolder(st, c.lock);
      ContinueQueue(st, c);
    } else {
      HolderUndisturbed(st, a, u, c);
    }
  }

  lemma GoIsContinue(st: State)
    ensures Do(st, Go) == Continue(st)
  {
  }

  /** Only one thread at a time is on its way to up the semaphore of `w`. */
  lemma OneCarrier(st: State, u: Tid, w: Tid)
    requires Consistent(st) && PcOf(st, u).SignalUp? && PcOf(st, u).w == w
    ensures var cur := st.th.current; PcOf(st, cur).SignalUp? && PcOf(st, cur).w == w ==> cur == u
  {
    hide PcOf, SemaOf, Queue, TokenOf, Lists, Locks, Values, SchedSpec.Inv;
    assert TokenOk(st, u) && TokenOk(st, st.th.current);
  }

  lemma {:induction false} SignalRun(st: State, actions: seq<Action>, u: Tid, w: Tid, c: CondId)
    requires Consistent(st) && SynchRuns.MayRun(st, actions) && Within(st, actions, u) && SignallingAt(st, u, w, c, 0)
    ensures SignallingAt(SynchRuns.Run(st, actions), u, w, c, Deliveries(st, actions, w, c))
    ensures Queue(SynchRuns.Run(st, actions), c) == Queue(st, c)
    decreases |actions|
  {
    hide Do, MayStep, Consistent, PcOf, HolderOf, Queue, Delivers;
    if actions != [] {
      var a := actions[0];
      SynchRuns.StepKeeps(st, a);
      SignalStep(st, a, u, w, c);
      if PcOf(Do(st, a), u).Outside? {
        assert actions[1..] == [];
      } else {
        SignalRun(Do(st, a), actions[1..], u, w, c);
      }
    }
  }

  /** `cond_signal` takes the front waiter off the queue, and has signalled it exactly once when it returns. */
  lemma SignalReturns(st: State, c: CondId, actions: seq<Action>)
    requires Consistent(st) && MayStep(st, CallSignal(c)) && Queue(st, c) != []
    requires var st' := Do(st, CallSignal(c));
             SynchRuns.MayRun(st', actions) && Within(st', actions, st.th.current)
    ensures var st', u, w := Do(st, CallSignal(c)), st.th.current, Queue(st, c)[0];
            var r := SynchRuns.Run(st', actions);
            && Queue(r, c) == Queue(st, c)[1..] && HolderOf(r, c.lock) == Some(u)
            && (if PcOf(r, u).Outside? then Deliveries(st', actions, w, c) == 1
                else PcOf(r, u) == SignalUp(w, c, false) && Deliveries(st', actions, w, c) == 0)
  {
    var st', u, w := Do(st, CallSignal(c)), st.th.current, Queue(st, c)[0];
    SignalStarts(st, c);
    hide Do, MayStep, Consistent, PcOf, HolderOf, Queue, Delivers;
    SynchRuns.StepKeeps(st, CallSignal(c));
    SignalRun(st', actions, u, w, c);
  }

  /** Undisturbed, `cond_signal` leaves the waiter awake with its semaphore at 1. */
  lemma SignalWakes(st: State, c: CondId)
    requires Consistent(st) && MayStep(st, CallSignal(c)) && Queue(st, c) != []
    ensures var w, r := Queue(st, c)[0], SynchRuns.Run(st, [CallSignal(c), Go]);
            && SynchRuns.MayRun(st, [CallSignal(c), Go]) && PcOf(r, st.th.current).Outside?
            && Queue(r, c) == Queue(st, c)[1..]
            && SemaOf(r, Private(w, c)).value == 1 && !Sleeping(r.th, w) && TokenOf(r, w) == Delivered(c)
  {
    hide Do, MayStep, Consistent, PcOf, HolderOf, Queue, TokenOf, SemaOf;
    var st1, u, w := Do(st, CallSignal(c)), st.th.current, Queue(st, c)[0];
    SignalStarts(st, c);
    assert [CallSignal(c), Go][1..] == [Go] && [Go][1..] == [];
    SynchRuns.StepKeeps(st, CallSignal(c));
    SynchRuns.StepKeeps(st1, Go);
    GoIsContinue(st1);
    ContinuePc(st1, u);
    TokenStep(st1, Go, w);
    QueueStep(st1, Go, c);
    DeliveredAwake(Do(st1, Go), w, c);
  }

  lemma SignalStarts(st: State, c: CondId)
    requires MayStep(st, CallSignal(c)) && Queue(st, c) != []
    ensures var st', u, q := Do(st, CallSignal(c)), st.th.current, Queue(st, c);
            && PcOf(st', u) == SignalUp(q[0], c, false) && st'.th == st.th && HolderOf(st', c.lock) == Some(u)
            && Queue(st', c) == q[1..] && MayStep(st', Go)
  {
    hide PcOf, HolderOf, Queue, Pop;
    PopEffect(st, c, false);
  }

  lemma DeliveredAwake(st: State, w: Tid, c: CondId)
    requires Consistent(st) && TokenOf(st, w) == Delivered(c)
    ensures SemaOf(st, Private(w, c)).value == 1 && !Sleeping(st.th, w)
  {
    SignalFacts(st, IdleBlock, w, c);
    SynchRuns.PrivateAwake(st, w, c);
  }

  /** A broadcast that returns has emptied the queue, and has signalled every thread that was on it. */
  lemma {:induction false} BroadcastRun(st: State, actions: seq<Action>, u: Tid, c: CondId)
    requires Consistent(st) && SynchRuns.MayRun(st, actions) && Within(st, actions, u)
    requires HolderOf(st, c.lock) == Some(u)
    requires PcOf(st, u) == Broadcast(c) || (PcOf(st, u).SignalUp? && PcOf(st, u).c == c && PcOf(st, u).all)
    ensures var r := SynchRuns.Run(st, actions);
            PcOf(r, u).Outside? ==>
              && Queue(r, c) == [] && HolderOf(r, c.lock) == Some(u)
              && (forall w :: w in Queue(st, c) ==> Deliveries(st, actions, w, c) >= 1)
              && (PcOf(st, u).SignalUp? ==> Deliveries(st, actions, PcOf(st, u).w, c) >= 1)
    decreases |actions|
  {
    hide Do, MayStep, Consistent, PcOf, HolderOf, Queue, Delivers;
    if actions != [] {
      var a := actions[0];
      SynchRuns.StepKeeps(st, a);
      BroadcastStep(st, a, u, c);
      if PcOf(Do(st, a), u).Outside? {
        assert actions[1..] == [];
      } else {
        BroadcastRun(Do(st, a), actions[1..], u, c);
      }
    }
  }

  lemma BroadcastStep(st: State, a: Action, u: Tid, c: CondId)
    requires Consistent(st) && MayStep(st, a) && HolderOf(st, c.lock) == Some(u)
    requires PcOf(st, u) == Broadcast(c) || (PcOf(st, u).SignalUp? && PcOf(st, u).c == c && PcOf(st, u).all)
    ensures var st', pc' := Do(st, a), PcOf(Do(st, a), u);
            && HolderOf(st', c.lock) == Some(u)
            && (pc'.Outside? ==> Queue(st', c) == [] == Queue(st, c) && PcOf(st, u) == Broadcast(c))
            && (!pc'.Outside? ==> pc' == Broadcast(c) || (pc'.SignalUp? && pc'.c == c && pc'.all))
            && (forall w :: w in Queue(st, c) ==> w in Queue(st', c) || (pc'.SignalUp? && pc'.w == w))
            && (PcOf(st, u).SignalUp? ==> pc' == PcOf(st, u) || Delivers(st, a, PcOf(st, u).w, c))
  {
    hide Do, Continue, PcOf, HolderOf, SemaOf, TokenOf, Queue, Consistent, MayStep;
    InsideStep(st, a, u);
    if st.th.current == u && a.Go? {
      ContinuePc(st, u);
      GoIsContinue(st);
      ContinueHolder(st, c.lock);
      ContinueQueue(st, c);
      var q := Queue(st, c);
      assert q != [] ==> q == [q[0]] + q[1..];
    } else {
      HolderUndisturbed(st, a, u, c);
    }
  }

  lemma BroadcastReturns(st: State, c: CondId, actions: seq<Action>)
    requires Consistent(st) && MayStep(st, CallBroadcast(c)) && HeldByCurrent(st, c.lock)
    requires var st' := Do(st, CallBroadcast(c));
             SynchRuns.MayRun(st', actions) && Within(st', actions, st.th.current)
    ensures var st', u := Do(st, CallBroadcast(c)), st.th.current; var r := SynchRuns.Run(st', actions);
            && !PcOf(st', u).Outside?
            && (PcOf(r, u).Outside? ==>
                  Queue(r, c) == [] && forall w :: w in Queue(st, c) ==> Deliveries(st', actions, w, c) >= 1)
  {
    var st', u := Do(st, CallBroadcast(c)), st.th.current;
    AtPc(st, Broadcast(c), u);
    AtQueue(st, Broadcast(c), c);
    AtHolder(st, Broadcast(c), c.lock);
    assert PcOf(st', u) == Broadcast(c) && Queue(st', c) == Queue(st, c) && HolderOf(st', c.lock) == Some(u);
    hide Do, MayStep, Consistent, PcOf, HolderOf, Queue, Delivers;
    SynchRuns.StepKeeps(st, CallBroadcast(c));
    BroadcastRun(st', actions, u, c);
  }
}
