/** The scheduler and the semaphores on the kernel's own data: statuses, values and linked lists. */
module Kernels {
  import opened Options
  import opened SchedSpec
  import opened SynchSpec
  import opened SynchInv
  import SynchRuns
  import opened ThreadQueues

  /** Values and wait lists of the semaphores that have been initialised. */
  ghost predicate SemasMatch(v: map<SemaId, nat>, w: map<SemaId, seq<Tid>>, st: State) {
    && v.Keys == w.Keys && st.semas.Keys <= v.Keys
    && forall s :: s in v ==> v[s] == SemaOf(st, s).value && w[s] == SemaOf(st, s).waiters
  }

  lemma SemasStep(v: map<SemaId, nat>, w: map<SemaId, seq<Tid>>, st: State, st': State, s: SemaId, m: Sema)
    requires SemasMatch(v, w, st) && SemaIs(st, st', s, m) && st'.semas.Keys <= st.semas.Keys + {s}
    ensures SemasMatch(v[s := m.value], w[s := m.waiters], st')
  {
    hide SemaOf;
  }

  class Kernel {
    const idle: Tid
    const initial: Tid
    const queues: Queues
    var status: map<Tid, Status>
    var current: Tid
    var threadTicks: nat
    var value: map<SemaId, nat>
    var holder: map<LockId, Option<Tid>>
    var conds: map<CondId, seq<Tid>>
    /** Where each thread stands. */
    var pc: map<Tid, Pc>

    ghost predicate ThreadsAre(th: Threads)
      reads this, queues, queues.repr
    {
      && this !in queues.repr && queues.Valid() && queues.Ready() == th.ready
      && status == th.status && current == th.current && threadTicks == th.ticks
      && idle == th.idle && initial == th.initial
      && status.Keys <= queues.elemOf.Keys
    }

    ghost predicate SemasAre(st: State)
      requires queues.Valid()
      reads this, queues, queues.repr
    {
      SemasMatch(value, queues.Waiting(), st)
    }

    /** The kernel's data stand for the state `st`, its history aside. */
    ghost predicate Mirrors(st: State)
      reads this, queues, queues.repr
    {
      ThreadsAre(st.th) && SemasAre(st) && pc == st.pc && holder == st.holder && conds == st.conds
    }

    constructor (queues: Queues, value: map<SemaId, nat>, st: State)
      requires queues.Valid() && queues.Ready() == st.th.ready && SemasMatch(value, queues.Waiting(), st)
      requires st.th.status.Keys <= queues.elemOf.Keys
      ensures Mirrors(st) && this.queues == queues
    {
      hide Queues.Valid, Queues.Ready, Queues.Waiting, SemasMatch;
      this.queues, idle, initial, this.value := queues, st.th.idle, st.th.initial, value;
      status, current, threadTicks := st.th.status, st.th.current, st.th.ticks;
      holder, conds, pc := st.holder, st.conds, st.pc;
    }

    // ----- The scheduler -----

    /** `next_thread_to_run` */
    method NextThreadToRun(ghost th: Threads) returns (t: Tid)
      requires queues.Valid() && queues.Ready() == th.ready && idle == th.idle
      modifies queues.repr
      ensures queues.Valid() && t == Next(th) && queues.Ready() == if th.ready == [] then [] else th.ready[1..]
      ensures queues.Valid() && queues.Waiting() == old(queues.Waiting()) && queues.repr == old(queues.repr)
    {
      hide Queues.Valid, Queues.Ready, Queues.Waiting;
      queues.EmptyIs();
      if queues.Empty(queues.readyList) {
        t := idle;
      } else {
        t := queues.PopReady();
      }
    }

    /** `schedule`, entered with the current thread's status already changed to `s`. */
    method Schedule(ghost th: Threads, ghost s: Status)
      requires ThreadsAre(th.(status := th.status[th.current := s])) && Next(th) in status
      modifies this`status, this`current, this`threadTicks, queues.repr
      ensures ThreadsAre(SchedSpec.Schedule(th, s))
      ensures queues.Valid() && queues.Waiting() == old(queues.Waiting()) && queues.repr == old(queues.repr)
    {
      hide Queues.Valid, Queues.Ready, Queues.Waiting;
      var cur := current;
      var next := NextThreadToRun(th);
      current := next;
      // `thread_schedule_tail`
      status := status[next := RUNNING];
      threadTicks := 0;
      if cur != next && status[cur] == DYING && cur != initial {
        status := status - {cur};
      }
    }

    /** `thread_block` */
    method ThreadBlock(ghost th: Threads)
      requires ThreadsAre(th) && SchedSpec.Inv(th)
      modifies this`status, this`current, this`threadTicks, queues.repr
      ensures ThreadsAre(Block(th))
      ensures queues.Valid() && queues.Waiting() == old(queues.Waiting()) && queues.repr == old(queues.repr)
    {
      hide Queues.Valid, Queues.Ready, Queues.Waiting;
      NextExists(th);
      status := status[current := BLOCKED];
      Schedule(th, BLOCKED);
    }

    /** `thread_unblock` */
    method ThreadUnblock(ghost th: Threads, t: Tid)
      requires ThreadsAre(th) && t in status && !queues.Queued(t)
      modifies this`status, queues.repr
      ensures ThreadsAre(Unblock(th, t))
      ensures queues.Valid() && queues.Waiting() == old(queues.Waiting()) && queues.repr == old(queues.repr)
    {
      hide Queues.Valid, Queues.Ready, Queues.Waiting, Queues.Queued;
      queues.PushReady(t);
      status := status[t := READY];
    }

    /** `thread_yield` */
    method ThreadYield(ghost th: Threads)
      requires ThreadsAre(th) && SchedSpec.Inv(th) && !queues.Queued(current)
      modifies this`status, this`current, this`threadTicks, queues.repr
      ensures ThreadsAre(Yield(th))
      ensures queues.Valid() && queues.Waiting() == old(queues.Waiting()) && queues.repr == old(queues.repr)
    {
      hide Queues.Valid, Queues.Ready, Queues.Waiting, Queues.Queued;
      NextExists(th);
      ghost var th' := th;
      if current != idle {
        queues.PushReady(current);
        th' := th.(ready := th.ready + [current]);
      }
      status := status[current := READY];
      Schedule(th', READY);
    }

    /** `thread_exit` */
    method ThreadExit(ghost th: Threads)
      requires ThreadsAre(th) && SchedSpec.Inv(th)
      modifies this`status, this`current, this`threadTicks, queues.repr
      ensures ThreadsAre(Exit(th))
      ensures queues.Valid() && queues.Waiting() == old(queues.Waiting()) && queues.repr == old(queues.repr)
    {
      hide Queues.Valid, Queues.Ready, Queues.Waiting;
      NextExists(th);
      status := status[current := DYING];
      Schedule(th, DYING);
    }

    /** `thread_tick`, and the yield on return from the interrupt. */
    method ThreadTick(ghost th: Threads)
      requires ThreadsAre(th) && SchedSpec.Inv(th) && !queues.Queued(current)
      modifies this`status, this`current, this`threadTicks, queues.repr
      ensures ThreadsAre(Tick(th))
      ensures queues.Valid() && queues.Waiting() == old(queues.Waiting()) && queues.repr == old(queues.repr)
    {
      hide Queues.Valid, Queues.Ready, Queues.Waiting, Queues.Queued;
      if threadTicks + 1 >= TIME_SLICE {
        ThreadYield(th);
      } else {
        threadTicks := threadTicks + 1;
      }
    }

    /** `thread_create`: the new thread's `elem` is linked nowhere. */
    method ThreadCreate(ghost th: Threads, t: Tid)
      requires ThreadsAre(th) && t in queues.elemOf && !queues.Queued(t)
      modifies this`status, queues.repr
      ensures ThreadsAre(Create(th, t))
      ensures queues.Valid() && queues.Waiting() == old(queues.Waiting()) && queues.repr == old(queues.repr)
    {
      hide Queues.Valid, Queues.Ready, Queues.Waiting, Queues.Queued;
      status := status[t := BLOCKED];
      ThreadUnblock(th.(status := status), t);
    }

    // ----- Semaphores -----

    /** The running thread is on no list, so its `elem` can be linked. */
    lemma CurrentFree(st: State)
      requires Mirrors(st) && Consistent(st)
      ensures current in queues.elemOf && !queues.Queued(current)
    {
      hide Queues.Valid, Values, Locks, Signals, SemaOf;
    }

    /** `sema_init` for a semaphore that is used for the first time. */
    method SemaInit(s: SemaId, ghost st: State)
      requires Mirrors(st)
      modifies this, queues.repr
      ensures Mirrors(st) && s in value && fresh(queues.repr - old(queues.repr))
    {
      hide Queues.Valid, Queues.Ready, Queues.Waiting;
      if s !in value {
        queues.InitWaiters(s);
        value := value[s := if s.Guard? then 1 else 0];
      }
    }

    /** The body of the loop of `sema_down`: the running thread joins the wait list and blocks. */
    method SemaSleep(s: SemaId, ghost st: State)
      requires Mirrors(st) && Consistent(st) && s in value
      modifies this, queues.repr
      ensures Mirrors(Sleep(st, s)) && queues.repr == old(queues.repr)
    {
      hide Queues.Valid, Queues.Ready, Queues.Waiting, Queues.Queued, Consistent, SemasMatch, SemaOf;
      hide SchedSpec.Inv, Block;
      CurrentFree(st);
      InvSched(st);
      ghost var m := SemaOf(st, s);
      SleepEffect(st, s);
      SemasStep(value, queues.Waiting(), st, Sleep(st, s), s, m.(waiters := m.waiters + [current]));
      SemasHere(st, s);
      queues.PushWaiter(s, current);
      pc := pc[current := Asleep(s)];
      ThreadBlock(st.th);
    }

    lemma SemasHere(st: State, s: SemaId)
      requires queues.Valid() && SemasAre(st) && s in value
      ensures s in queues.Waiting() && queues.Waiting()[s] == SemaOf(st, s).waiters && value[s] == SemaOf(st, s).value
      ensures value[s := value[s]] == value
      ensures queues.Waiting()[s := queues.Waiting()[s]] == queues.Waiting()
    {
    }

    /** The rest of `sema_down`, or a successful `sema_try_down`. */
    method SemaTake(s: SemaId, ghost st: State)
      requires Mirrors(st) && s in value && value[s] > 0
      modifies this
      ensures SemaOf(st, s).value > 0 && Mirrors(Take(st, s))
    {
      hide Queues.Valid, Queues.Ready, Queues.Waiting, SemasMatch, SemaOf;
      SemasHere(st, s);
      ghost var m := SemaOf(st, s);
      TakeEffect(st, s);
      SemasStep(value, queues.Waiting(), st, Take(st, s), s, m.(value := m.value - 1, downs := m.downs + 1));
      value := value[s := value[s] - 1];
      pc := pc[current := After(s)];
    }

    /** One turn of the loop of `sema_down`. */
    method SemaDown(s: SemaId, ghost st: State)
      requires Mirrors(st) && Consistent(st)
      modifies this, queues.repr
      ensures Mirrors(Down(st, s)) && fresh(queues.repr - old(queues.repr))
    {
      hide Mirrors, Consistent, Sleep, Take;
      SemaInit(s, st);
      ValueIs(st, s);
      if value[s] == 0 {
        SemaSleep(s, st);
      } else {
        SemaTake(s, st);
      }
    }

    lemma ValueIs(st: State, s: SemaId)
      requires Mirrors(st) && s in value
      ensures value[s] == SemaOf(st, s).value
    {
    }

    /** `sema_up` */
    method SemaUp(s: SemaId, ghost st: State)
      requires Mirrors(st) && Consistent(st)
      modifies this, queues.repr
      ensures Mirrors(Up(st, s)) && fresh(queues.repr - old(queues.repr))
    {
      hide Queues.Valid, Queues.Ready, Queues.Waiting, Consistent, SemasMatch, SemaOf, Unblock, Up;
      SemaInit(s, st);
      SemasHere(st, s);
      UpParts(value, queues.Waiting(), st, s);
      WakeOne(s, st);
      value := value[s := value[s] + 1];
    }

    method WakeOne(s: SemaId, ghost st: State)
      requires Mirrors(st) && Consistent(st) && s in value
      modifies this`status, queues.repr
      ensures var q := SemaOf(st, s).waiters; ThreadsAre(if q == [] then st.th else Unblock(st.th, q[0]))
      ensures var q := SemaOf(st, s).waiters;
              queues.Waiting() == old(queues.Waiting())[s := if q == [] then [] else q[1..]]
      ensures queues.repr == old(queues.repr)
    {
      hide Queues.Valid, Queues.Ready, Queues.Waiting, Consistent, SemasMatch, SemaOf, Unblock;
      SemasHere(st, s);
      queues.EmptyIs();
      if !queues.Empty(queues.waiters[s]) {
        WokenNowhere(value, queues.Waiting(), st, s);
        var t := queues.PopWaiter(s);
        ThreadUnblock(st.th, t);
      }
    }

    // ----- Locks and condition variables -----

    /** The running thread goes on, and perhaps changes a lock's holder. */
    method GoOn(p: Pc, ghost st: State)
      requires Mirrors(st)
      modifies this`pc
      ensures Mirrors(At(st, p))
    {
      hide Queues.Valid, Queues.Ready, Queues.Waiting;
      pc := pc[current := p];
      assert SameSemas(st, At(st, p));
    }

    method HandOver(l: LockId, h: Option<Tid>, p: Pc, ghost st: State)
      requires Mirrors(st)
      modifies this`pc, this`holder
      ensures Mirrors(SetHolder(At(st, p), l, h))
    {
      hide Queues.Valid, Queues.Ready, Queues.Waiting;
      holder := holder[l := h];
      pc := pc[current := p];
      HolderEffect(st, l, h, p);
    }

    /** The `sema_up` of `lock_release`. */
    method UpGuard(l: LockId, p: Pc, ghost st: State)
      requires Mirrors(st) && Consistent(st)
      modifies this, queues.repr
      ensures Mirrors(At(UpLock(st, l), p)) && fresh(queues.repr - old(queues.repr))
    {
      hide Mirrors, Consistent, Up;
      SemaUp(Guard(l), st);
      OwnerAside(Up(st, Guard(l)), UpLock(st, l));
      GoOn(p, UpLock(st, l));
    }

    /** The history is no part of the kernel's data. */
    lemma OwnerAside(st: State, st': State)
      requires Mirrors(st) && st' == st.(owner := st'.owner, token := st'.token)
      ensures Mirrors(st')
    {
      hide Queues.Valid, Queues.Ready, Queues.Waiting;
      assert SameSemas(st, st');
    }

    /** `cond_wait` up to its `lock_release`. */
    method StartWait(c: CondId, ghost st: State)
      requires Mirrors(st) && Consistent(st)
      modifies this, queues.repr
      ensures Mirrors(Enqueue(st, c)) && fresh(queues.repr - old(queues.repr))
    {
      hide Queues.Valid, Queues.Ready, Queues.Waiting, Consistent, SemasMatch, SemaOf;
      hide PcIs, QueueIs, TokenIs, SameLocks;
      var s := Private(current, c);
      NobodyWaits(value, queues.Waiting(), st, c);
      EnqueueEffect(st, c);
      SemasStep(value, queues.Waiting(), st, Enqueue(st, c), s, Sema(0, [], 0, 0, 0));
      queues.InitWaiters(s);
      value := value[s := 0];
      conds := conds[c := (if c in conds then conds[c] else []) + [current]];
      pc := pc[current := WaitRelease(c)];
    }

    /** `cond_signal` up to its `sema_up`. */
    method PopSignal(c: CondId, all: bool, ghost st: State)
      requires Mirrors(st) && Queue(st, c) != []
      modifies this`conds, this`pc
      ensures Mirrors(Pop(st, c, all))
    {
      hide Queues.Valid, Queues.Ready, Queues.Waiting;
      PopEffect(st, c, all);
      var w := conds[c][0];
      conds := conds[c := conds[c][1..]];
      pc := pc[current := SignalUp(w, c, all)];
    }

    /** The `sema_up` of `cond_signal`. */
    method DeliverSignal(w: Tid, c: CondId, all: bool, ghost st: State)
      requires Mirrors(st) && Consistent(st)
      modifies this, queues.repr
      ensures Mirrors(Deliver(st, w, c, all)) && fresh(queues.repr - old(queues.repr))
    {
      hide Mirrors, Consistent, Up;
      SemaUp(Private(w, c), st);
      GoOn(if all then Broadcast(c) else Outside, Up(st, Private(w, c)));
      OwnerAside(At(Up(st, Private(w, c)), if all then Broadcast(c) else Outside), Deliver(st, w, c, all));
    }

    // ----- Steps and runs -----

    function PcNow(): Pc
      reads this
    {
      if current in pc then pc[current] else Outside
    }

    lemma PcNowIs(st: State)
      requires Mirrors(st)
      ensures PcNow() == PcOf(st, st.th.current) && current == st.th.current
      ensures forall c :: Queue(st, c) == if c in conds then conds[c] else []
    {
    }

    /** The steps that concern the scheduler alone. */
    method ThreadStep(a: Action, ghost st: State)
      requires Mirrors(st) && Consistent(st) && MayStep(st, a) && (a.CallCreate? ==> a.t in queues.elemOf)
      requires a.CallCreate? || a.CallYield? || a.CallExit? || a.IdleBlock? || a.TimerTick?
      modifies this, queues.repr
      ensures Mirrors(Do(st, a)) && queues.repr == old(queues.repr)
    {
      hide Queues.Valid, Queues.Ready, Queues.Waiting, Queues.Queued, Consistent, SemasMatch, SchedSpec.Inv;
      hide Create, Yield, Exit, Tick, Block, Mirrors, ThreadsAre, HolderOf, PcOf;
      CurrentFree(st);
      InvSched(st);
      Parts(st);
      match a {
        case CallCreate(t) =>
          NewFree(st, t);
          ThreadCreate(st.th, t);
        case CallYield => ThreadYield(st.th);
        case CallExit => ThreadExit(st.th);
        case IdleBlock => ThreadBlock(st.th);
        case TimerTick => ThreadTick(st.th);
      }
      Whole(st, Do(st, a).th);
    }

    lemma Parts(st: State)
      requires Mirrors(st)
      ensures ThreadsAre(st.th) && queues.Valid() && SemasMatch(value, queues.Waiting(), st)
      ensures pc == st.pc && holder == st.holder && conds == st.conds
    {
    }

    lemma Whole(st: State, th: Threads)
      requires ThreadsAre(th) && queues.Valid() && SemasMatch(value, queues.Waiting(), st)
      requires pc == st.pc && holder == st.holder && conds == st.conds
      ensures Mirrors(st.(th := th))
    {
      hide Queues.Valid, Queues.Ready, Queues.Waiting;
      assert SameSemas(st, st.(th := th));
    }

    lemma NewFree(st: State, t: Tid)
      requires Mirrors(st) && Consistent(st) && t !in st.th.status
      ensures !queues.Queued(t)
    {
      hide Queues.Valid, Values, Locks, Signals, SemaOf;
    }

    /** The running thread goes on where it stands. */
    method Continue(ghost st: State)
      requires Mirrors(st) && Consistent(st) && MayStep(st, Go)
      modifies this, queues.repr
      ensures Mirrors(Do(st, Go)) && fresh(queues.repr - old(queues.repr))
    {
      hide Mirrors, Consistent, Down, At, UpLock, SetHolder, Pop, Queue, Deliver, HolderOf, PcOf, PcNow;
      PcNowIs(st);
      match PcNow()
      case Asleep(s) => SemaDown(s, st);
      case GotLock(l) => HandOver(l, Some(current), Outside, st);
      case Releasing(l) => UpGuard(l, Outside, st);
      case WaitRelease(c) => HandOver(c.lock, None, WaitUp(c), st);
      case WaitUp(c) => UpGuard(c.lock, WaitDown(c), st);
      case WaitDown(c) => SemaDown(Private(current, c), st);
      case WaitAcquire(c) => SemaDown(Guard(c.lock), st);
      case SignalUp(w, c, all) => DeliverSignal(w, c, all, st);
      case Broadcast(c) =>
        if c in conds && conds[c] != [] {
          PopSignal(c, true, st);
        } else {
          GoOn(Outside, st);
        }
    }

    /** A step of any kind on the kernel's data is the step of the state machine. */
    method Step(a: Action, ghost st: State)
      requires Mirrors(st) && Consistent(st) && MayStep(st, a) && (a.CallCreate? ==> a.t in queues.elemOf)
      modifies this, queues.repr
      ensures Mirrors(Do(st, a)) && fresh(queues.repr - old(queues.repr))
    {
      hide Mirrors, Consistent, Down, At, SetHolder, Pop, Queue, HolderOf, Up, Take, Drain, Enqueue, SemaOf, PcOf;
      hide MayStep, SynchSpec.Continue, Create, Yield, Exit, Block, Tick;
      PcNowIs(st);
      match a
      case CallDown(n) => SemaDown(Plain(n), st);
      case CallTryDown(n) => SemaTryDown(Plain(n), st);
      case CallUp(n) => SemaUp(Plain(n), st);
      case CallAcquire(l) => SemaDown(Guard(l), st);
      case CallTryAcquire(l) => SemaTryDown(Guard(l), st);
      case CallRelease(l) => HandOver(l, None, Releasing(l), st);
      case CallWait(c) => StartWait(c, st);
      case CallSignal(c) =>
        if c in conds && conds[c] != [] {
          PopSignal(c, false, st);
        }
      case CallBroadcast(c) => GoOn(Broadcast(c), st);
      case Go => Continue(st);
      case InterruptUp(n) => SemaUp(Plain(n), st);
      case InterruptTryDown(n) => SemaDrain(n, st);
      case _ => ThreadStep(a, st);
    }

    /** `sema_try_down` by a thread. */
    method SemaTryDown(s: SemaId, ghost st: State)
      requires Mirrors(st)
      modifies this, queues.repr
      ensures Mirrors(if SemaOf(st, s).value > 0 then Take(st, s) else st) && fresh(queues.repr - old(queues.repr))
    {
      hide Mirrors, Take;
      SemaInit(s, st);
      ValueIs(st, s);
      if value[s] > 0 {
        SemaTake(s, st);
      }
    }

    /** `sema_try_down` by an interrupt handler. */
    method SemaDrain(n: nat, ghost st: State)
      requires Mirrors(st)
      modifies this, queues.repr
      ensures Mirrors(if SemaOf(st, Plain(n)).value > 0 then Drain(st, n) else st)
      ensures fresh(queues.repr - old(queues.repr))
    {
      hide Queues.Valid, Queues.Ready, Queues.Waiting, SemasMatch, SemaOf;
      var s := Plain(n);
      SemaInit(s, st);
      SemasHere(st, s);
      if value[s] > 0 {
        DrainEffect(st, n);
        ghost var m := SemaOf(st, s);
        SemasStep(value, queues.Waiting(), st, Drain(st, n), s, m.(value := m.value - 1, downs := m.downs + 1));
        value := value[s := value[s] - 1];
      }
    }

    /** Every run of the state machine is a run on the kernel's data. */
    method Execute(actions: seq<Action>, ghost st: State)
      requires Mirrors(st) && Consistent(st) && SynchRuns.MayRun(st, actions)
      requires forall i :: 0 <= i < |actions| && actions[i].CallCreate? ==> actions[i].t in queues.elemOf
      modifies this, queues.repr
      ensures Mirrors(SynchRuns.Run(st, actions)) && fresh(queues.repr - old(queues.repr))
      decreases |actions|
    {
      hide Mirrors, Consistent, MayStep, Do;
      if actions != [] {
        Step(actions[0], st);
        SynchRuns.StepKeeps(st, actions[0]);
        Execute(actions[1..], Do(st, actions[0]));
      }
    }
  }

  lemma DrainEffect(st: State, n: nat)
    requires SemaOf(st, Plain(n)).value > 0
    ensures var m := SemaOf(st, Plain(n));
            SemaIs(st, Drain(st, n), Plain(n), m.(value := m.value - 1, downs := m.downs + 1))
  {
  }

  /** Nobody but its thread waits on a semaphore of `cond_wait`. */
  lemma NobodyWaits(v: map<SemaId, nat>, w: map<SemaId, seq<Tid>>, st: State, c: CondId)
    requires SemasMatch(v, w, st) && Consistent(st)
    ensures var s := Private(st.th.current, c); s in w ==> w[s] == []
  {
    hide Consistent, SemaOf;
    var s := Private(st.th.current, c);
    if s in w && w[s] != [] {
      WaiterIs(st, s, w[s][0]);
    }
  }

  lemma WaiterIs(st: State, s: SemaId, t: Tid)
    requires Consistent(st) && t in SemaOf(st, s).waiters
    ensures t != st.th.current && (s.Private? ==> s.t == t)
  {
    hide Values, Locks, Signals, SemaOf;
    assert PcOf(st, t) == Asleep(s);
  }

  lemma UpParts(v: map<SemaId, nat>, w: map<SemaId, seq<Tid>>, st: State, s: SemaId)
    requires SemasMatch(v, w, st) && s in v
    ensures var st', q := Up(st, s), SemaOf(st, s).waiters;
            && SemasMatch(v[s := v[s] + 1], w[s := if q == [] then [] else q[1..]], st')
            && st'.th == (if q == [] then st.th else Unblock(st.th, q[0]))
            && st'.pc == st.pc && st'.holder == st.holder && st'.conds == st.conds
  {
    hide SemaOf, Unblock;
    var m := SemaOf(st, s);
    UpEffect(st, s);
    SemasStep(v, w, st, Up(st, s), s,
              m.(value := m.value + 1, ups := m.ups + 1, waiters := if m.waiters == [] then [] else m.waiters[1..]));
  }

  /** The thread taken off a wait list is on no list then, so its `elem` can go to the ready list. */
  lemma WokenNowhere(v: map<SemaId, nat>, w: map<SemaId, seq<Tid>>, st: State, s: SemaId)
    requires Consistent(st) && SemasMatch(v, w, st) && s in w && w[s] != []
    ensures var t, w' := w[s][0], w[s := w[s][1..]];
            t in st.th.status && t !in st.th.ready && forall r :: r in w' ==> t !in w'[r]
  {
    hide Values, Locks, Signals, SemaOf, SchedSpec.Inv;
    var t := w[s][0];
    assert t in SemaOf(st, s).waiters;
    InvSched(st);
    OnlyThere(st.th, t);
  }

  lemma OnlyThere(th: Threads, t: Tid)
    requires SchedSpec.Inv(th) && Sleeping(th, t)
    ensures t !in th.ready
  {
  }

  lemma NextExists(th: Threads)
    requires SchedSpec.Inv(th)
    ensures th.current in th.status && Next(th) in th.status
    ensures th.ready == [] ==> Next(th.(ready := [th.current])) in th.status
  {
  }
}
