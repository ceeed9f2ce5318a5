/** What every step of the synchronisation primitives keeps. */
module SynchInv {
  import opened Options
  import opened Sequences
  import opened SchedSpec
  import opened SynchSpec

  // ----- The invariant -----

  /** Wait lists and statuses: a thread other than idle is blocked exactly when it is on a wait list. */
  ghost predicate Lists(st: State) {
    && PcOf(st, st.th.idle) == Outside
    && (forall s, t {:trigger t in SemaOf(st, s).waiters} :: t in SemaOf(st, s).waiters ==>
          Sleeping(st.th, t) && PcOf(st, t) == Asleep(s))
    && (forall s :: Distinct(SemaOf(st, s).waiters))
    && (forall t :: Sleeping(st.th, t) ==> PcOf(st, t).Asleep? && t in SemaOf(st, PcOf(st, t).s).waiters)
    && (forall t :: !PcOf(st, t).Outside? ==> Alive(st.th, t))
    && (forall t :: PcOf(st, t).Asleep? && PcOf(st, t).s.Private? ==> PcOf(st, t).s.t == t)
  }

  /** The threads woken in `sema_down` that have not tested the value again. */
  ghost function Woken(st: State, s: SemaId): set<Tid> {
    set t | t in st.pc && st.pc[t] == Asleep(s) && t !in SemaOf(st, s).waiters
  }

  ghost predicate Values(st: State) {
    forall s :: Balanced(st, s)
  }

  ghost predicate Balanced(st: State, s: SemaId) {
    var m := SemaOf(st, s);
    && m.value + m.downs == m.init + m.ups
    && (m.waiters != [] ==> m.value <= |Woken(st, s)|)
  }

  /** Past the down of a lock's semaphore and before its up. */
  predicate InRegion(st: State, t: Tid, l: LockId) {
    HolderOf(st, l) == Some(t) || Turning(PcOf(st, t), l)
  }

  /** In that region, but outside the time the lock is held. */
  predicate Turning(pc: Pc, l: LockId) {
    pc == GotLock(l) || pc == Releasing(l) || (pc.WaitUp? && pc.c.lock == l)
  }

  /** In `cond_wait` with the lock released, or asleep for the lock. */
  predicate Without(pc: Pc, l: LockId) {
    || ((pc.WaitDown? || pc.WaitAcquire?) && pc.c.lock == l)
    || (pc.Asleep? && pc.s.Guard? && pc.s.lock == l)
    || (pc.Asleep? && pc.s.Private? && pc.s.c.lock == l)
  }

  ghost predicate Locks(st: State) {
    && (forall l :: LockOk(st, l))
    && (forall t :: PcOf(st, t).WaitRelease? ==> HolderOf(st, PcOf(st, t).c.lock) == Some(t))
  }

  ghost predicate LockOk(st: State, l: LockId) {
    && SemaOf(st, Guard(l)).value == (if OwnerOf(st, l).None? then 1 else 0)
    && (forall t :: InRegion(st, t, l) <==> OwnerOf(st, l) == Some(t))
    && (forall t :: Turning(PcOf(st, t), l) || Without(PcOf(st, t), l) ==> HolderOf(st, l) != Some(t))
  }

  /** The condition variable of a thread in `cond_wait`, until its private semaphore's down completes. */
  function WaitsFor(pc: Pc, t: Tid): Option<CondId> {
    match pc
    case WaitRelease(c) => Some(c)
    case WaitUp(c) => Some(c)
    case WaitDown(c) => Some(c)
    case Asleep(s) => if s.Private? && s.t == t then Some(s.c) else None
    case _ => None
  }

  ghost predicate Signals(st: State) {
    && (forall c :: QueueOk(st, c))
    && (forall t :: TokenOk(st, t))
  }

  ghost predicate QueueOk(st: State, c: CondId) {
    Distinct(Queue(st, c)) && forall t :: t in Queue(st, c) <==> TokenOf(st, t) == InQueue(c)
  }

  /** A thread in `cond_wait` has one token; one that signals has a thread's token in its hands. */
  ghost predicate TokenOk(st: State, t: Tid) {
    var pc, k := PcOf(st, t), TokenOf(st, t);
    && (pc.SignalUp? ==> TokenOf(st, pc.w) == InFlight(pc.c, t))
    && (k.InFlight? ==> var p := PcOf(st, k.u); p.SignalUp? && p.w == t && p.c == k.c)
    && (forall c :: SemaOf(st, Private(t, c)).value == if k == Delivered(c) then 1 else 0)
    && WaitsFor(pc, t) == if k.NoToken? then None else Some(k.c)
  }

  ghost predicate Consistent(st: State) {
    SchedSpec.Inv(st.th) && Lists(st) && Values(st) && Locks(st) && Signals(st)
  }

  // ----- What a step changes -----

  ghost predicate PcIs(st: State, st': State, u: Tid, pc: Pc) {
    forall t :: PcOf(st', t) == if t == u then pc else PcOf(st, t)
  }

  ghost predicate SemaIs(st: State, st': State, r: SemaId, m: Sema) {
    forall s :: SemaOf(st', s) == if s == r then m else SemaOf(st, s)
  }

  ghost predicate HolderIs(st: State, st': State, k: LockId, h: Option<Tid>) {
    forall l :: HolderOf(st', l) == if l == k then h else HolderOf(st, l)
  }

  ghost predicate OwnerIs(st: State, st': State, k: LockId, h: Option<Tid>) {
    forall l :: OwnerOf(st', l) == if l == k then h else OwnerOf(st, l)
  }

  ghost predicate QueueIs(st: State, st': State, d: CondId, q: seq<Tid>) {
    forall c :: Queue(st', c) == if c == d then q else Queue(st, c)
  }

  ghost predicate TokenIs(st: State, st': State, u: Tid, k: Token) {
    forall t :: TokenOf(st', t) == if t == u then k else TokenOf(st, t)
  }

  ghost predicate SamePcs(st: State, st': State) {
    forall t :: PcOf(st', t) == PcOf(st, t)
  }

  ghost predicate SameSemas(st: State, st': State) {
    forall s :: SemaOf(st', s) == SemaOf(st, s)
  }

  ghost predicate SameLocks(st: State, st': State) {
    && (forall l :: HolderOf(st', l) == HolderOf(st, l))
    && (forall l :: OwnerOf(st', l) == OwnerOf(st, l))
  }

  ghost predicate SameSignals(st: State, st': State) {
    && (forall c :: Queue(st', c) == Queue(st, c))
    && (forall t :: TokenOf(st', t) == TokenOf(st, t))
  }

  /** Moving from `p` to `q` takes no part in any lock. */
  ghost predicate SameClaims(p: Pc, q: Pc) {
    && !p.WaitRelease? && !q.WaitRelease?
    && forall l :: Turning(q, l) == Turning(p, l) && (Without(q, l) ==> Without(p, l))
  }

  lemma NoClaims(p: Pc, q: Pc)
    requires p.Outside? || p.SignalUp? || p.Broadcast?
    requires q.Outside? || q.SignalUp? || q.Broadcast?
    ensures SameClaims(p, q)
  {
  }

  lemma NeutralLocks(st: State, st': State, u: Tid, pc: Pc)
    requires Locks(st) && SameLocks(st, st') && PcIs(st, st', u, pc)
    requires pc == PcOf(st, u) || SameClaims(PcOf(st, u), pc)
    requires forall l :: SemaOf(st', Guard(l)).value == SemaOf(st, Guard(l)).value
    ensures Locks(st')
  {
    hide PcOf, SemaOf, HolderOf, OwnerOf, Turning, Without;
    forall l ensures LockOk(st', l) {
      assert LockOk(st, l);
    }
  }

  // ----- Going to sleep -----

  /** The running thread may be in, or about to start, `sema_down(s)`. */
  predicate MayDown(st: State, s: SemaId) {
    var cur := st.th.current;
    var pc := PcOf(st, cur);
    && cur != st.th.idle
    && match s
       case Plain(_) => pc == Outside || pc == Asleep(s)
       case Guard(l) =>
         && (pc == Outside || pc == Asleep(s) || (pc.WaitAcquire? && pc.c.lock == l))
         && !HeldByCurrent(st, l)
       case Private(t, c) => t == cur && (pc == WaitDown(c) || pc == Asleep(s))
  }

  lemma SleepEffect(st: State, s: SemaId)
    ensures var st', m := Sleep(st, s), SemaOf(st, s);
            && PcIs(st, st', st.th.current, Asleep(s))
            && SemaIs(st, st', s, m.(waiters := m.waiters + [st.th.current]))
            && SameLocks(st, st') && SameSignals(st, st') && st'.th == Block(st.th)
  {
  }

  lemma RunningIsAwake(th: Threads)
    requires SchedSpec.Inv(th)
    ensures !Sleeping(th, th.current) && Alive(th, th.current)
  {
  }

  lemma SleepLists(st: State, s: SemaId)
    requires SchedSpec.Inv(st.th) && Lists(st) && MayDown(st, s)
    ensures Lists(Sleep(st, s))
  {
    BlockSleeps(st.th);
    RunningIsAwake(st.th);
    SleepEffect(st, s);
    assert Block(st.th).idle == st.th.idle;
    var st', cur := Sleep(st, s), st.th.current;
    hide Sleep, PcOf, SemaOf, Block, Sleeping, Alive, SchedSpec.Inv;
    assert cur !in SemaOf(st, s).waiters;
    assert forall r :: Distinct(SemaOf(st', r).waiters);
    assert forall r, t :: t in SemaOf(st', r).waiters ==> t in SemaOf(st, r).waiters || (r == s && t == cur);
    assert forall r, t :: t in SemaOf(st, r).waiters ==> t in SemaOf(st', r).waiters;
    assert cur in SemaOf(st', s).waiters;
  }

  lemma SleepLocks(st: State, s: SemaId)
    requires Locks(st) && MayDown(st, s)
    ensures Locks(Sleep(st, s))
  {
    SleepEffect(st, s);
    var st' := Sleep(st, s);
    hide Sleep, PcOf, SemaOf, HolderOf, OwnerOf, Block;
    forall l ensures LockOk(st', l) {
      assert LockOk(st, l);
    }
  }

  lemma SleepSignals(st: State, s: SemaId)
    requires Signals(st) && MayDown(st, s)
    ensures Signals(Sleep(st, s))
  {
    SleepEffect(st, s);
    var st' := Sleep(st, s);
    hide Sleep, PcOf, SemaOf, Queue, TokenOf, Block;
    forall c ensures QueueOk(st', c) {
      assert QueueOk(st, c);
    }
    forall t ensures TokenOk(st', t) {
      assert TokenOk(st, t) && TokenOk(st, st.th.current);
    }
  }

  lemma InWoken(st: State, s: SemaId)
    ensures forall t {:trigger t in Woken(st, s)} ::
              t in Woken(st, s) <==> PcOf(st, t) == Asleep(s) && t !in SemaOf(st, s).waiters
  {
  }

  lemma SleepValues(st: State, s: SemaId)
    requires Values(st) && MayDown(st, s) && SemaOf(st, s).value == 0
    ensures Values(Sleep(st, s))
  {
    SleepEffect(st, s);
    var st' := Sleep(st, s);
    forall r ensures Balanced(st', r) {
      assert Balanced(st, r);
      if r != s {
        InWoken(st, r);
        InWoken(st', r);
        assert Woken(st', r) == Woken(st, r);
      }
    }
  }

  lemma SleepKeeps(st: State, s: SemaId)
    requires Consistent(st) && MayDown(st, s) && SemaOf(st, s).value == 0
    ensures Consistent(Sleep(st, s))
  {
    SleepLists(st, s);
    SleepLocks(st, s);
    SleepSignals(st, s);
    SleepValues(st, s);
    ScheduleKeeps(st.th, BLOCKED);
    assert Sleep(st, s).th == Block(st.th);
    hide Lists, Locks, Signals, Values, SchedSpec.Inv, Sleep, Block;
  }

  // ----- Completing a down -----

  function After(s: SemaId): Pc {
    match s
    case Plain(_) => Outside
    case Guard(l) => GotLock(l)
    case Private(_, c) => WaitAcquire(c)
  }

  lemma TakeEffect(st: State, s: SemaId)
    requires SemaOf(st, s).value > 0
    ensures var st', m := Take(st, s), SemaOf(st, s);
            && PcIs(st, st', st.th.current, After(s))
            && SemaIs(st, st', s, m.(value := m.value - 1, downs := m.downs + 1))
            && (forall l :: HolderOf(st', l) == HolderOf(st, l))
            && (forall c :: Queue(st', c) == Queue(st, c))
            && (forall l :: OwnerOf(st', l) == if s == Guard(l) then Some(st.th.current) else OwnerOf(st, l))
            && (if s.Private? then TokenIs(st, st', st.th.current, NoToken)
                else forall t :: TokenOf(st', t) == TokenOf(st, t))
            && st'.th == st.th
  {
  }

  lemma TakeLists(st: State, s: SemaId)
    requires SchedSpec.Inv(st.th) && Lists(st) && MayDown(st, s) && SemaOf(st, s).value > 0
    ensures Lists(Take(st, s))
  {
    RunningIsAwake(st.th);
    TakeEffect(st, s);
    hide Take, PcOf, SemaOf, Sleeping, Alive, SchedSpec.Inv, HolderOf, OwnerOf, Queue, TokenOf;
  }

  lemma TakeLocks(st: State, s: SemaId)
    requires Locks(st) && MayDown(st, s) && SemaOf(st, s).value > 0
    ensures Locks(Take(st, s))
  {
    TakeEffect(st, s);
    var cur := st.th.current;
    if s.Guard? {
      TakeGuard(st, s.lock);
    } else {
      TakeClaims(PcOf(st, cur), s);
      hide Take, PcOf, SemaOf, HolderOf, OwnerOf, Queue, TokenOf, Locks, SameClaims;
      NeutralLocks(st, Take(st, s), cur, After(s));
    }
  }

  lemma TakeGuard(st: State, k: LockId)
    requires Locks(st) && MayDown(st, Guard(k)) && SemaOf(st, Guard(k)).value > 0
    ensures Locks(Take(st, Guard(k)))
  {
    hide Take, PcOf, SemaOf, HolderOf, OwnerOf, Queue, TokenOf;
    var st' := Take(st, Guard(k));
    TakeEffect(st, Guard(k));
    assert LockOk(st, k);
    forall l ensures LockOk(st', l) {
      assert LockOk(st, l);
    }
  }

  lemma TakeClaims(pc: Pc, s: SemaId)
    requires !s.Guard? && (pc == Asleep(s) || (s.Plain? && pc == Outside) || (s.Private? && pc == WaitDown(s.c)))
    ensures SameClaims(pc, After(s))
  {
  }

  lemma TakeSignals(st: State, s: SemaId)
    requires Signals(st) && MayDown(st, s) && SemaOf(st, s).value > 0
    ensures Signals(Take(st, s))
  {
    TakeEffect(st, s);
    var st' := Take(st, s);
    hide Take, PcOf, SemaOf, HolderOf, OwnerOf, Queue, TokenOf;
    forall c ensures QueueOk(st', c) {
      assert QueueOk(st, c);
    }
    forall t ensures TokenOk(st', t) {
      assert TokenOk(st, t) && TokenOk(st, st.th.current);
    }
  }

  lemma TakeWoken(st: State, s: SemaId, r: SemaId)
    requires SchedSpec.Inv(st.th) && Lists(st) && MayDown(st, s) && SemaOf(st, s).value > 0
    ensures Woken(Take(st, s), r) == if r == s then Woken(st, s) - {st.th.current} else Woken(st, r)
  {
    RunningIsAwake(st.th);
    TakeEffect(st, s);
    InWoken(st, r);
    InWoken(Take(st, s), r);
    hide Take, PcOf, SemaOf, HolderOf, OwnerOf, Queue, TokenOf, Woken, SchedSpec.Inv, Sleeping, Alive;
  }

  lemma TakeValues(st: State, s: SemaId)
    requires SchedSpec.Inv(st.th) && Lists(st) && Values(st) && MayDown(st, s) && SemaOf(st, s).value > 0
    ensures Values(Take(st, s))
  {
    TakeEffect(st, s);
    var st' := Take(st, s);
    hide Take, PcOf, SemaOf, HolderOf, OwnerOf, Queue, TokenOf, Woken, Lists, SchedSpec.Inv, MayDown;
    forall r ensures Balanced(st', r) {
      assert Balanced(st, r);
      TakeWoken(st, s, r);
    }
  }

  lemma TakeKeeps(st: State, s: SemaId)
    requires Consistent(st) && MayDown(st, s) && SemaOf(st, s).value > 0
    ensures Consistent(Take(st, s))
  {
    TakeLists(st, s);
    TakeLocks(st, s);
    TakeSignals(st, s);
    TakeValues(st, s);
    assert Take(st, s).th == st.th;
    hide Lists, Locks, Signals, Values, SchedSpec.Inv, Take;
  }

  lemma DownKeeps(st: State, s: SemaId)
    requires Consistent(st) && MayDown(st, s)
    ensures Consistent(Down(st, s))
  {
    hide Consistent, MayDown;
    if SemaOf(st, s).value == 0 {
      SleepKeeps(st, s);
    } else {
      TakeKeeps(st, s);
    }
  }

  // ----- Ups -----

  lemma UpEffect(st: State, s: SemaId)
    ensures var st', m := Up(st, s), SemaOf(st, s);
            && SamePcs(st, st') && SameLocks(st, st') && SameSignals(st, st')
            && SemaIs(st, st', s, m.(value := m.value + 1, ups := m.ups + 1,
                                     waiters := if m.waiters == [] then [] else m.waiters[1..]))
            && st'.th == if m.waiters == [] then st.th else Unblock(st.th, m.waiters[0])
  {
    hide Unblock;
  }

  lemma UpLists(st: State, s: SemaId)
    requires SchedSpec.Inv(st.th) && Lists(st)
    ensures Lists(Up(st, s)) && SchedSpec.Inv(Up(st, s).th)
  {
    UpEffect(st, s);
    var st', m := Up(st, s), SemaOf(st, s);
    if m.waiters == [] {
      hide Up, PcOf, SemaOf, Sleeping, Alive, SchedSpec.Inv;
    } else {
      var w := m.waiters[0];
      assert w in m.waiters;
      UnblockWakes(st.th, w);
      UnblockKeeps(st.th, w);
      TailOf(m.waiters);
      assert forall r :: Distinct(SemaOf(st', r).waiters) by {
        hide Up, PcOf, SemaOf, Sleeping, Alive, SchedSpec.Inv;
      }
      hide Up, PcOf, SemaOf, Sleeping, Alive, SchedSpec.Inv, Distinct, Unblock;
      assert forall r, t :: t in SemaOf(st', r).waiters ==> t in SemaOf(st, r).waiters && t != w;
      assert forall r, t :: t in SemaOf(st, r).waiters && t != w ==> t in SemaOf(st', r).waiters;
    }
  }

  lemma UpValues(st: State, s: SemaId)
    requires Lists(st) && Values(st)
    ensures Values(Up(st, s))
  {
    UpEffect(st, s);
    var st', m := Up(st, s), SemaOf(st, s);
    hide Up, PcOf, SemaOf, Woken;
    forall r ensures Balanced(st', r) {
      assert Balanced(st, r);
      InWoken(st, r);
      InWoken(st', r);
      if r != s || m.waiters == [] {
        assert Woken(st', r) == Woken(st, r);
      } else {
        TailOf(m.waiters);
        assert m.waiters[0] in m.waiters;
        assert Woken(st', s) == Woken(st, s) + {m.waiters[0]};
      }
    }
  }

  /** Steps that leave the queues, the tokens and the private semaphores alone. */
  lemma NeutralSignals(st: State, st': State, u: Tid, pc: Pc)
    requires Signals(st) && SameSignals(st, st') && PcIs(st, st', u, pc)
    requires WaitsFor(PcOf(st, u), u) == WaitsFor(pc, u)
    requires pc == PcOf(st, u) || !(PcOf(st, u).SignalUp? || pc.SignalUp?)
    requires forall t, c :: SemaOf(st', Private(t, c)).value == SemaOf(st, Private(t, c)).value
    ensures Signals(st')
  {
    hide PcOf, SemaOf, Queue, TokenOf;
    forall c ensures QueueOk(st', c) {
      assert QueueOk(st, c);
    }
    forall t ensures TokenOk(st', t) {
      assert TokenOk(st, t) && TokenOk(st, u);
    }
  }

  lemma UpPlainKeeps(st: State, n: nat)
    requires Consistent(st)
    ensures Consistent(Up(st, Plain(n)))
  {
    UpLists(st, Plain(n));
    UpValues(st, Plain(n));
    UpEffect(st, Plain(n));
    var st', cur := Up(st, Plain(n)), st.th.current;
    hide Up, PcOf, SemaOf, HolderOf, OwnerOf, Queue, TokenOf, Lists, Values, SchedSpec.Inv, Locks, Signals;
    NeutralLocks(st, st', cur, PcOf(st, cur));
    NeutralSignals(st, st', cur, PcOf(st, cur));
  }

  /** A step of the running thread that touches no semaphore. */
  lemma Move(st: State, st': State, pc: Pc)
    requires SchedSpec.Inv(st.th) && st'.th == st.th && st.th.current != st.th.idle
    requires SameSemas(st, st') && PcIs(st, st', st.th.current, pc)
    requires !PcOf(st, st.th.current).Asleep? && !pc.Asleep?
    ensures Lists(st) ==> Lists(st')
    ensures Values(st) ==> Values(st')
  {
    RunningIsAwake(st.th);
    hide PcOf, SemaOf, SchedSpec.Inv, Sleeping, Alive, Woken, Balanced;
    forall r ensures Balanced(st, r) ==> Balanced(st', r) {
      MoveBalanced(st, st', pc, r);
    }
  }

  lemma MoveBalanced(st: State, st': State, pc: Pc, r: SemaId)
    requires SameSemas(st, st') && PcIs(st, st', st.th.current, pc)
    requires !PcOf(st, st.th.current).Asleep? && !pc.Asleep?
    ensures Balanced(st, r) ==> Balanced(st', r)
  {
    InWoken(st, r);
    InWoken(st', r);
    hide PcOf, SemaOf, Woken;
    assert Woken(st', r) == Woken(st, r);
  }

  /** The second half of releasing a lock, on its own or in `cond_wait`. */
  lemma UnlockKeeps(st: State, l: LockId, pc: Pc)
    requires Consistent(st)
    requires var was := PcOf(st, st.th.current);
             || (was == Releasing(l) && pc == Outside)
             || (was.WaitUp? && was.c.lock == l && pc == WaitDown(was.c))
    ensures Consistent(At(UpLock(st, l), pc))
  {
    var st1, st' := Up(st, Guard(l)), At(UpLock(st, l), pc);
    UnlockEffect(st, l, pc);
    UpEffect(st, Guard(l));
    UpLists(st, Guard(l));
    UpValues(st, Guard(l));
    NotIdle(st);
    hide Up, At, UpLock, PcOf, SemaOf, HolderOf, OwnerOf, Queue, TokenOf, Lists, Locks, Signals, Values, SchedSpec.Inv;
    Move(st1, st', pc);
    UnlockLocks(st, st1, st', l, pc);
    NeutralSignals(st, st', st.th.current, pc);
  }

  lemma NotIdle(st: State)
    requires Lists(st)
    ensures !PcOf(st, st.th.current).Outside? ==> st.th.current != st.th.idle
  {
  }

  lemma UnlockEffect(st: State, l: LockId, pc: Pc)
    ensures var st1, st' := Up(st, Guard(l)), At(UpLock(st, l), pc);
            && PcIs(st1, st', st.th.current, pc) && SameSemas(st1, st') && OwnerIs(st1, st', l, None)
            && (forall k :: HolderOf(st', k) == HolderOf(st1, k)) && SameSignals(st1, st')
            && st1.th.current == st.th.current && st1.th.idle == st.th.idle && st'.th == st1.th
  {
  }

  lemma UnlockLocks(st: State, st1: State, st': State, l: LockId, pc: Pc)
    requires Locks(st)
    requires PcIs(st1, st', st.th.current, pc) && SamePcs(st, st1) && SameSemas(st1, st')
    requires SemaIs(st, st1, Guard(l), SemaOf(st1, Guard(l)))
    requires SemaOf(st1, Guard(l)).value == SemaOf(st, Guard(l)).value + 1
    requires SameLocks(st, st1) && OwnerIs(st1, st', l, None)
    requires forall k :: HolderOf(st', k) == HolderOf(st1, k)
    requires var was := PcOf(st, st.th.current);
             || (was == Releasing(l) && pc == Outside)
             || (was.WaitUp? && was.c.lock == l && pc == WaitDown(was.c))
    ensures Locks(st')
  {
    hide PcOf, SemaOf, HolderOf, OwnerOf;
    forall k ensures LockOk(st', k) {
      assert LockOk(st, k);
    }
  }

  // ----- Holding a lock -----

  /** Setting or clearing the holder while the semaphore is down. */
  lemma HolderEffect(st: State, l: LockId, h: Option<Tid>, pc: Pc)
    ensures var st' := SetHolder(At(st, pc), l, h);
            && PcIs(st, st', st.th.current, pc) && SameSemas(st, st') && SameSignals(st, st')
            && HolderIs(st, st', l, h) && (forall k :: OwnerOf(st', k) == OwnerOf(st, k)) && st'.th == st.th
  {
  }

  /** The end of `lock_acquire`, and the start of `lock_release` on its own or in `cond_wait`. */
  lemma HolderKeeps(st: State, l: LockId, h: Option<Tid>, pc: Pc)
    requires Consistent(st) && st.th.current != st.th.idle
    requires var was := PcOf(st, st.th.current);
             || (was == GotLock(l) && h == Some(st.th.current) && pc == Outside)
             || (was == Outside && HeldByCurrent(st, l) && h == None && pc == Releasing(l))
             || (was.WaitRelease? && was.c.lock == l && h == None && pc == WaitUp(was.c))
    ensures Consistent(SetHolder(At(st, pc), l, h))
  {
    var st' := SetHolder(At(st, pc), l, h);
    HolderEffect(st, l, h, pc);
    hide At, SetHolder, PcOf, SemaOf, HolderOf, OwnerOf, Queue, TokenOf, SchedSpec.Inv;
    assert Lists(st') && Values(st') && Signals(st') by {
      hide Lists, Locks, Signals, Values;
      Move(st, st', pc);
      NeutralSignals(st, st', st.th.current, pc);
    }
    hide Lists, Values, Signals;
    forall k ensures LockOk(st', k) {
      assert LockOk(st, k);
      assert LockOk(st, l);
    }
  }

  // ----- Condition variables -----

  lemma EnqueueEffect(st: State, c: CondId)
    ensures var st', cur := Enqueue(st, c), st.th.current;
            && PcIs(st, st', cur, WaitRelease(c)) && SemaIs(st, st', Private(cur, c), Sema(0, [], 0, 0, 0))
            && SameLocks(st, st') && QueueIs(st, st', c, Queue(st, c) + [cur]) && TokenIs(st, st', cur, InQueue(c))
            && st'.th == st.th
  {
  }

  lemma EnqueueKeeps(st: State, c: CondId)
    requires Consistent(st) && Free(st) && HeldByCurrent(st, c.lock)
    ensures Consistent(Enqueue(st, c))
  {
    EnqueueEffect(st, c);
    EnqueueLists(st, c);
    EnqueueValues(st, c);
    EnqueueSignals(st, c);
    var st' := Enqueue(st, c);
    hide Enqueue, PcOf, SemaOf, HolderOf, OwnerOf, Queue, TokenOf, SchedSpec.Inv, Lists, Values, Signals;
    forall l ensures LockOk(st', l) {
      assert LockOk(st, l);
    }
  }

  lemma NoPrivateWaiters(st: State, c: CondId)
    requires Lists(st) && Free(st)
    ensures SemaOf(st, Private(st.th.current, c)).waiters == []
  {
    hide PcOf, SemaOf, Sleeping;
    var q := SemaOf(st, Private(st.th.current, c)).waiters;
    assert forall t :: t !in q;
    FirstIn(q);
  }

  lemma FirstIn(s: seq<Tid>)
    ensures s == [] || s[0] in s
  {
  }

  lemma EnqueueLists(st: State, c: CondId)
    requires SchedSpec.Inv(st.th) && Lists(st) && Free(st)
    ensures Lists(Enqueue(st, c))
  {
    RunningIsAwake(st.th);
    EnqueueEffect(st, c);
    NoPrivateWaiters(st, c);
    hide Enqueue, PcOf, SemaOf, HolderOf, OwnerOf, Queue, TokenOf, SchedSpec.Inv, Sleeping, Alive;
  }

  lemma EnqueueValues(st: State, c: CondId)
    requires Values(st) && Free(st)
    ensures Values(Enqueue(st, c))
  {
    EnqueueEffect(st, c);
    var st' := Enqueue(st, c);
    hide Enqueue, PcOf, SemaOf, HolderOf, OwnerOf, Queue, TokenOf, Woken;
    forall r ensures Balanced(st', r) {
      assert Balanced(st, r);
      InWoken(st, r);
      InWoken(st', r);
      assert r != Private(st.th.current, c) ==> Woken(st', r) == Woken(st, r);
    }
  }

  lemma EnqueueSignals(st: State, c: CondId)
    requires Signals(st) && Free(st)
    ensures Signals(Enqueue(st, c))
  {
    EnqueueEffect(st, c);
    var st' := Enqueue(st, c);
    hide Enqueue, PcOf, SemaOf, HolderOf, OwnerOf, Queue, TokenOf;
    forall d ensures QueueOk(st', d) {
      assert QueueOk(st, d) && TokenOk(st, st.th.current);
    }
    forall t ensures TokenOk(st', t) {
      assert TokenOk(st, t) && TokenOk(st, st.th.current);
    }
  }

  lemma PopEffect(st: State, c: CondId, all: bool)
    requires Queue(st, c) != []
    ensures var st', cur, q := Pop(st, c, all), st.th.current, Queue(st, c);
            && PcIs(st, st', cur, SignalUp(q[0], c, all)) && SameSemas(st, st') && SameLocks(st, st')
            && QueueIs(st, st', c, q[1..]) && TokenIs(st, st', q[0], InFlight(c, cur)) && st'.th == st.th
  {
  }

  /** The running thread is outside, or broadcasting. */
  predicate MaySignal(st: State) {
    Free(st) || PcOf(st, st.th.current).Broadcast?
  }

  lemma PopSignals(st: State, c: CondId, all: bool)
    requires Signals(st) && MaySignal(st) && Queue(st, c) != []
    ensures Signals(Pop(st, c, all))
  {
    PopEffect(st, c, all);
    var st', q := Pop(st, c, all), Queue(st, c);
    assert QueueOk(st, c) && q[0] in q;
    TailOf(q);
    assert Distinct(q[1..]);
    hide Pop, PcOf, SemaOf, HolderOf, OwnerOf, Queue, TokenOf, Distinct;
    forall d ensures QueueOk(st', d) {
      assert QueueOk(st, d) && QueueOk(st, c);
    }
    forall t ensures TokenOk(st', t) {
      assert QueueOk(st, c);
      assert TokenOk(st, t) && TokenOk(st, st.th.current);
    }
  }

  lemma PopKeeps(st: State, c: CondId, all: bool)
    requires Consistent(st) && MaySignal(st) && Queue(st, c) != []
    ensures Consistent(Pop(st, c, all))
  {
    NotIdle(st);
    PopEffect(st, c, all);
    PopSignals(st, c, all);
    var st', pc := Pop(st, c, all), SignalUp(Queue(st, c)[0], c, all);
    hide Pop, PcOf, SemaOf, HolderOf, OwnerOf, Queue, TokenOf, SchedSpec.Inv, Lists, Values, Signals, Locks;
    NoClaims(PcOf(st, st.th.current), pc);
    hide SameClaims;
    Move(st, st', pc);
    NeutralLocks(st, st', st.th.current, pc);
  }

  lemma DeliverEffect(st: State, w: Tid, c: CondId, all: bool)
    ensures var st1, st' := Up(st, Private(w, c)), Deliver(st, w, c, all);
            && PcIs(st1, st', st.th.current, if all then Broadcast(c) else Outside) && SameSemas(st1, st')
            && SameLocks(st1, st') && (forall d :: Queue(st', d) == Queue(st1, d)) && TokenIs(st1, st', w, Delivered(c))
            && st1.th.current == st.th.current && st1.th.idle == st.th.idle && st'.th == st1.th
  {
  }

  lemma DeliverSignals(st: State, st1: State, st': State, w: Tid, c: CondId, all: bool, pc: Pc)
    requires Signals(st) && PcOf(st, st.th.current) == SignalUp(w, c, all)
    requires !pc.SignalUp? && WaitsFor(pc, st.th.current).None?
    requires PcIs(st1, st', st.th.current, pc) && SamePcs(st, st1) && SameSemas(st1, st')
    requires SemaIs(st, st1, Private(w, c), SemaOf(st1, Private(w, c)))
    requires SemaOf(st1, Private(w, c)).value == SemaOf(st, Private(w, c)).value + 1
    requires SameSignals(st, st1) && (forall d :: Queue(st', d) == Queue(st1, d)) && TokenIs(st1, st', w, Delivered(c))
    ensures Signals(st')
  {
    hide PcOf, SemaOf, Queue, TokenOf;
    assert TokenOk(st, w) && TokenOk(st, st.th.current);
    forall d ensures QueueOk(st', d) {
      assert QueueOk(st, d);
    }
    forall t ensures TokenOk(st', t) {
      assert TokenOk(st, t);
    }
  }

  lemma DeliverKeeps(st: State, w: Tid, c: CondId, all: bool)
    requires Consistent(st) && PcOf(st, st.th.current) == SignalUp(w, c, all)
    ensures Consistent(Deliver(st, w, c, all))
  {
    var s, pc := Private(w, c), if all then Broadcast(c) else Outside;
    var st1, st' := Up(st, s), Deliver(st, w, c, all);
    DeliverEffect(st, w, c, all);
    UpEffect(st, s);
    UpLists(st, s);
    UpValues(st, s);
    NotIdle(st);
    hide Up, Deliver, PcOf, SemaOf, HolderOf, OwnerOf, Queue, TokenOf, Lists, Values, SchedSpec.Inv, Locks, Signals;
    NoClaims(PcOf(st, st.th.current), pc);
    hide SameClaims, WaitsFor;
    Move(st1, st', pc);
    DeliverSignals(st, st1, st', w, c, all, pc);
    NeutralLocks(st, st', st.th.current, pc);
  }

  // ----- Steps of the scheduler alone, and the rest -----

  lemma ThreadsOnly(st: State, th: Threads)
    requires Consistent(st) && SchedSpec.Inv(th) && th.idle == st.th.idle
    requires forall t :: Sleeping(th, t) <==> Sleeping(st.th, t)
    requires forall t :: Alive(st.th, t) ==> Alive(th, t) || PcOf(st, t).Outside?
    ensures Consistent(st.(th := th))
  {
    var st' := st.(th := th);
    assert SamePcs(st, st') && SameSemas(st, st') && SameLocks(st, st') && SameSignals(st, st');
    assert Woken(st', Plain(0)) == Woken(st, Plain(0));
    hide PcOf, SemaOf, HolderOf, OwnerOf, Queue, TokenOf, Sleeping, Alive, SchedSpec.Inv;
    assert Lists(st') by {
      hide Locks, Signals, Values;
    }
    assert Values(st') by {
      hide Lists, Locks, Signals;
      forall s ensures Balanced(st', s) {
        assert Balanced(st, s);
        InWoken(st, s);
        InWoken(st', s);
        assert Woken(st', s) == Woken(st, s);
      }
    }
    hide Lists, Locks, Signals, Values;
    NeutralLocks(st, st', st.th.current, PcOf(st, st.th.current));
    NeutralSignals(st, st', st.th.current, PcOf(st, st.th.current));
  }

  lemma AtKeeps(st: State, pc: Pc)
    requires Consistent(st) && st.th.current != st.th.idle
    requires (PcOf(st, st.th.current).Outside? && pc.Broadcast?) || (PcOf(st, st.th.current).Broadcast? && pc.Outside?)
    ensures Consistent(At(st, pc))
  {
    var st' := At(st, pc);
    assert SameSemas(st, st') && SameLocks(st, st') && SameSignals(st, st') && PcIs(st, st', st.th.current, pc);
    hide At, PcOf, SemaOf, HolderOf, OwnerOf, Queue, TokenOf, Lists, Locks, Signals, Values, SchedSpec.Inv;
    NoClaims(PcOf(st, st.th.current), pc);
    hide SameClaims;
    Move(st, st', pc);
    NeutralLocks(st, st', st.th.current, pc);
    NeutralSignals(st, st', st.th.current, pc);
  }

  lemma DrainKeeps(st: State, n: nat)
    requires Consistent(st) && SemaOf(st, Plain(n)).value > 0
    ensures Consistent(Drain(st, n))
  {
    var st', m := Drain(st, n), SemaOf(st, Plain(n));
    assert SamePcs(st, st') && SameLocks(st, st') && SameSignals(st, st');
    assert SemaIs(st, st', Plain(n), m.(value := m.value - 1, downs := m.downs + 1));
    hide Drain, PcOf, SemaOf, HolderOf, OwnerOf, Queue, TokenOf, Sleeping, Alive, SchedSpec.Inv;
    assert Lists(st') by {
      hide Locks, Signals, Values;
    }
    assert Values(st') by {
      hide Lists, Locks, Signals;
      forall s ensures Balanced(st', s) {
        assert Balanced(st, s);
        InWoken(st, s);
        InWoken(st', s);
        assert Woken(st', s) == Woken(st, s);
      }
    }
    hide Lists, Locks, Signals, Values;
    NeutralLocks(st, st', st.th.current, PcOf(st, st.th.current));
    NeutralSignals(st, st', st.th.current, PcOf(st, st.th.current));
  }

  lemma ThreadStepKeeps(st: State, a: Action)
    requires Consistent(st) && MayStep(st, a)
    requires a.CallCreate? || a.CallYield? || a.CallExit? || a.IdleBlock? || a.TimerTick?
    ensures Consistent(Do(st, a))
  {
    hide Consistent, PcOf;
    assert SchedSpec.Inv(st.th) by { InvSched(st); }
    hide SchedSpec.Inv;
    match a
    case CallCreate(t) =>
      CreateKeeps(st.th, t);
      CreateWakesNone(st.th, t);
      ThreadsOnly(st, Create(st.th, t));
    case CallYield =>
      YieldKeeps(st.th);
      YieldWakesNone(st.th);
      ThreadsOnly(st, Yield(st.th));
    case CallExit =>
      ScheduleKeeps(st.th, DYING);
      ExitWakesNone(st.th);
      ThreadsOnly(st, Exit(st.th));
    case IdleBlock =>
      ScheduleKeeps(st.th, BLOCKED);
      BlockSleeps(st.th);
      ThreadsOnly(st, Block(st.th));
    case TimerTick =>
      YieldKeeps(st.th);
      YieldWakesNone(st.th);
      TickKeeps(st.th);
      ThreadsOnly(st, Tick(st.th));
  }

  lemma InvSched(st: State)
    requires Consistent(st)
    ensures SchedSpec.Inv(st.th)
  {
  }

  lemma ContinueKeeps(st: State)
    requires Consistent(st) && !PcOf(st, st.th.current).Outside?
    ensures Consistent(Continue(st))
  {
    var cur := st.th.current;
    var pc := PcOf(st, cur);
    if pc.Asleep? || pc.WaitDown? || pc.WaitAcquire? {
      ContinueAllowed(st);
      hide Consistent, PcOf, Down, MayDown;
      match pc
      case Asleep(s) => DownKeeps(st, s);
      case WaitDown(c) => DownKeeps(st, Private(cur, c));
      case WaitAcquire(c) => DownKeeps(st, Guard(c.lock));
    } else {
      NotIdle(st);
      ContinueOther(st, pc);
    }
  }

  lemma ContinueOther(st: State, pc: Pc)
    requires Consistent(st) && st.th.current != st.th.idle
    requires PcOf(st, st.th.current) == pc && !pc.Outside? && !pc.Asleep? && !pc.WaitDown? && !pc.WaitAcquire?
    ensures Consistent(Continue(st))
  {
    hide Consistent, PcOf, Down, At, UpLock, SetHolder, Deliver, Pop, Queue;
    match pc
    case GotLock(l) => HolderKeeps(st, l, Some(st.th.current), Outside);
    case Releasing(l) => UnlockKeeps(st, l, Outside);
    case WaitRelease(c) => HolderKeeps(st, c.lock, None, WaitUp(c));
    case WaitUp(c) => UnlockKeeps(st, c.lock, WaitDown(c));
    case SignalUp(w, c, all) => DeliverKeeps(st, w, c, all);
    case Broadcast(c) =>
      if Queue(st, c) == [] {
        AtKeeps(st, Outside);
      } else {
        PopKeeps(st, c, true);
      }
  }

  /** What the callees inside `sema_down`, `lock_acquire` and `cond_wait` assert. */
  predicate MayContinue(st: State) {
    var cur := st.th.current;
    match PcOf(st, cur)
    case Asleep(s) => MayDown(st, s)
    case WaitDown(c) => MayDown(st, Private(cur, c))
    case WaitRelease(c) => HeldByCurrent(st, c.lock)
    case WaitAcquire(c) => MayDown(st, Guard(c.lock))
    case _ => true
  }

  /** No assertion inside `sema_down`, `lock_acquire` or `cond_wait` fails. */
  lemma ContinueAllowed(st: State)
    requires Consistent(st)
    ensures MayContinue(st)
  {
    NotIdle(st);
    hide PcOf, SemaOf, HolderOf, OwnerOf, Signals, Values;
    var pc := PcOf(st, st.th.current);
    match pc
    case Asleep(s) => if s.Guard? { assert LockOk(st, s.lock); }
    case WaitAcquire(c) => assert LockOk(st, c.lock);
    case _ =>
  }
}
