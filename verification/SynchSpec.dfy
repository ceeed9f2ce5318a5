/**
 * Semaphores, locks and condition variables as a state machine. Its steps are the interrupts-off
 * regions and the single assignments between them, taken by the running thread in any order the
 * scheduler and the interrupts allow.
 */
module SynchSpec {
  import opened Options
  import opened SchedSpec

  type LockId = int

  /** A condition variable, with the one lock that protects it. */
  datatype CondId = CondId(n: nat, lock: LockId)

  /** A semaphore of its own, the one inside a lock, or the one on a waiter's stack in `cond_wait`. */
  datatype SemaId = Plain(n: nat) | Guard(lock: LockId) | Private(t: Tid, c: CondId)

  /** The last three fields are history: the initial value, the ups and the completed downs. */
  datatype Sema = Sema(value: nat, waiters: seq<Tid>, init: nat, ups: nat, downs: nat)

  /** Where a thread stands. */
  datatype Pc =
    | Outside                                 // in none of the functions below
    | Asleep(s: SemaId)                       // in `sema_down`, put to sleep at least once
    | GotLock(l: LockId)                      // in `lock_acquire`, holder not yet set
    | Releasing(l: LockId)                    // in `lock_release`, holder cleared
    | WaitRelease(c: CondId)                  // in `cond_wait`, queued
    | WaitUp(c: CondId)                       // ... in its `lock_release`, holder cleared
    | WaitDown(c: CondId)                     // ... lock released
    | WaitAcquire(c: CondId)                  // ... signalled
    | SignalUp(w: Tid, c: CondId, all: bool)  // in `cond_signal`, `w` popped
    | Broadcast(c: CondId)                    // in `cond_broadcast`, between signals

  /** History: where the signal for a thread in `cond_wait` is. */
  datatype Token = NoToken | InQueue(c: CondId) | InFlight(c: CondId, u: Tid) | Delivered(c: CondId)

  /** The last two fields are history: who is past the down and before the up of each lock; the tokens. */
  datatype State = State(
    th: Threads, pc: map<Tid, Pc>, semas: map<SemaId, Sema>, holder: map<LockId, Option<Tid>>,
    conds: map<CondId, seq<Tid>>, owner: map<LockId, Option<Tid>>, token: map<Tid, Token>)

  function PcOf(st: State, t: Tid): Pc {
    if t in st.pc then st.pc[t] else Outside
  }

  /** `sema_init` gives a lock's semaphore the value 1. */
  function SemaOf(st: State, s: SemaId): Sema {
    if s in st.semas then st.semas[s]
    else if s.Guard? then Sema(1, [], 1, 0, 0)
    else Sema(0, [], 0, 0, 0)
  }

  function HolderOf(st: State, l: LockId): Option<Tid> {
    if l in st.holder then st.holder[l] else None
  }

  function OwnerOf(st: State, l: LockId): Option<Tid> {
    if l in st.owner then st.owner[l] else None
  }

  function Queue(st: State, c: CondId): seq<Tid> {
    if c in st.conds then st.conds[c] else []
  }

  function TokenOf(st: State, t: Tid): Token {
    if t in st.token then st.token[t] else NoToken
  }

  // ----- The steps -----

  function At(st: State, pc: Pc): State {
    st.(pc := st.pc[st.th.current := pc])
  }

  /** The running thread finds the semaphore at zero in `sema_down`: it queues and blocks. */
  function Sleep(st: State, s: SemaId): State {
    var m := SemaOf(st, s);
    At(st, Asleep(s)).(semas := st.semas[s := m.(waiters := m.waiters + [st.th.current])], th := Block(st.th))
  }

  /** The running thread finds it positive, in `sema_down` or `sema_try_down`. */
  function Take(st: State, s: SemaId): State
    requires SemaOf(st, s).value > 0
  {
    var m, cur := SemaOf(st, s), st.th.current;
    var st' := st.(semas := st.semas[s := m.(value := m.value - 1, downs := m.downs + 1)]);
    match s
    case Plain(_) => At(st', Outside)
    case Guard(l) => At(st', GotLock(l)).(owner := st.owner[l := Some(cur)])
    case Private(_, c) => At(st', WaitAcquire(c)).(token := st.token[cur := NoToken])
  }

  function Down(st: State, s: SemaId): State {
    if SemaOf(st, s).value == 0 then Sleep(st, s) else Take(st, s)
  }

  /** `sema_up` */
  function Up(st: State, s: SemaId): State {
    var m := SemaOf(st, s);
    var m' := m.(value := m.value + 1, ups := m.ups + 1);
    if m.waiters == [] then st.(semas := st.semas[s := m'])
    else st.(semas := st.semas[s := m'.(waiters := m.waiters[1..])], th := Unblock(st.th, m.waiters[0]))
  }

  /** The `sema_up` of `lock_release`. */
  function UpLock(st: State, l: LockId): State {
    Up(st, Guard(l)).(owner := st.owner[l := None])
  }

  /** `cond_wait` up to its `lock_release`. */
  function Enqueue(st: State, c: CondId): State {
    var cur := st.th.current;
    At(st, WaitRelease(c)).(
      semas := st.semas[Private(cur, c) := Sema(0, [], 0, 0, 0)],
      conds := st.conds[c := Queue(st, c) + [cur]],
      token := st.token[cur := InQueue(c)])
  }

  /** `cond_signal` up to its `sema_up`. */
  function Pop(st: State, c: CondId, all: bool): State
    requires Queue(st, c) != []
  {
    var w := Queue(st, c)[0];
    At(st, SignalUp(w, c, all)).(
      conds := st.conds[c := Queue(st, c)[1..]],
      token := st.token[w := InFlight(c, st.th.current)])
  }

  /** The `sema_up` of `cond_signal`. */
  function Deliver(st: State, w: Tid, c: CondId, all: bool): State {
    At(Up(st, Private(w, c)), if all then Broadcast(c) else Outside).(token := st.token[w := Delivered(c)])
  }

  function SetHolder(st: State, l: LockId, h: Option<Tid>): State {
    st.(holder := st.holder[l := h])
  }

  /** The next step of a thread that stands inside one of the functions. */
  function Continue(st: State): State {
    var cur := st.th.current;
    match PcOf(st, cur)
    case Outside => st
    case Asleep(s) => Down(st, s)
    case GotLock(l) => SetHolder(At(st, Outside), l, Some(cur))
    case Releasing(l) => At(UpLock(st, l), Outside)
    case WaitRelease(c) => SetHolder(At(st, WaitUp(c)), c.lock, None)
    case WaitUp(c) => At(UpLock(st, c.lock), WaitDown(c))
    case WaitDown(c) => Down(st, Private(cur, c))
    case WaitAcquire(c) => Down(st, Guard(c.lock))
    case SignalUp(w, c, all) => Deliver(st, w, c, all)
    case Broadcast(c) => if Queue(st, c) == [] then At(st, Outside) else Pop(st, c, true)
  }

  datatype Action =
    | CallDown(n: nat) | CallTryDown(n: nat) | CallUp(n: nat)
    | CallAcquire(l: LockId) | CallTryAcquire(l: LockId) | CallRelease(l: LockId)
    | CallWait(c: CondId) | CallSignal(c: CondId) | CallBroadcast(c: CondId)
    | CallCreate(t: Tid) | CallYield | CallExit
    | Go
    | IdleBlock
    | TimerTick | InterruptUp(n: nat) | InterruptTryDown(n: nat)

  predicate HeldByCurrent(st: State, l: LockId) {
    HolderOf(st, l) == Some(st.th.current)
  }

  /** The running thread is outside, and a thread that may make calls. */
  predicate Free(st: State) {
    st.th.current != st.th.idle && PcOf(st, st.th.current).Outside?
  }

  /**
   * When a step may be taken: calls in the caller's state the source asserts, the idle thread only
   * blocks, and a thread that wakes up in `sema_down` still has interrupts off.
   */
  predicate MayStep(st: State, a: Action) {
    var pc := PcOf(st, st.th.current);
    match a
    case CallDown(_) | CallTryDown(_) | CallUp(_) | CallYield | CallExit | CallBroadcast(_) => Free(st)
    case CallAcquire(l) => Free(st) && !HeldByCurrent(st, l)
    case CallTryAcquire(l) => Free(st) && !HeldByCurrent(st, l)
    case CallRelease(l) => Free(st) && HeldByCurrent(st, l)
    case CallWait(c) => Free(st) && HeldByCurrent(st, c.lock)
    case CallSignal(c) => Free(st) && HeldByCurrent(st, c.lock)
    case CallCreate(t) => Free(st) && t !in st.th.status
    case Go => !pc.Outside? && (pc.Broadcast? && Queue(st, pc.c) != [] ==> HeldByCurrent(st, pc.c.lock))
    case IdleBlock => st.th.current == st.th.idle
    case TimerTick | InterruptUp(_) | InterruptTryDown(_) => !pc.Asleep?
  }

  function Do(st: State, a: Action): State {
    match a
    case CallDown(n) => Down(st, Plain(n))
    case CallTryDown(n) => if SemaOf(st, Plain(n)).value > 0 then Take(st, Plain(n)) else st
    case CallUp(n) => Up(st, Plain(n))
    case CallAcquire(l) => Down(st, Guard(l))
    case CallTryAcquire(l) => if SemaOf(st, Guard(l)).value > 0 then Take(st, Guard(l)) else st
    case CallRelease(l) => SetHolder(At(st, Releasing(l)), l, None)
    case CallWait(c) => Enqueue(st, c)
    case CallSignal(c) => if Queue(st, c) == [] then st else Pop(st, c, false)
    case CallBroadcast(c) => At(st, Broadcast(c))
    case CallCreate(t) => st.(th := Create(st.th, t))
    case CallYield => st.(th := Yield(st.th))
    case CallExit => st.(th := Exit(st.th))
    case Go => Continue(st)
    case IdleBlock => st.(th := Block(st.th))
    case TimerTick => st.(th := Tick(st.th))
    case InterruptUp(n) => Up(st, Plain(n))
    case InterruptTryDown(n) => if SemaOf(st, Plain(n)).value > 0 then Drain(st, n) else st
  }

  /** A successful `sema_try_down` in an interrupt handler. */
  function Drain(st: State, n: nat): State
    requires SemaOf(st, Plain(n)).value > 0
  {
    var m := SemaOf(st, Plain(n));
    st.(semas := st.semas[Plain(n) := m.(value := m.value - 1, downs := m.downs + 1)])
  }
}
