/** The threads of `xh_core.c` as a state machine over their steps: callers of refresh, the refresh
    worker and clear, with two mutexes, one condition variable and the flags between them. */
module AsyncRefresh {

  datatype Owner = Nobody | Worker | Caller(id: nat) | Clearer

  /** Steps of the worker thread. A state names the statement that comes next. */
  datatype WorkerPc =
    | NoThread
    | LoopTest      // while(xh_core_refresh_thread_running)
    | LockM
    | WaitTest      // while(!do && running), mutex held
    | Asleep        // in pthread_cond_wait
    | Woken         // signalled, wants the mutex back
    | RunTest       // if(!running)
    | UnlockBreak
    | UnlockTaken   // do = 0 was set
    | LockR
    | Impl          // in xh_core_refresh_impl
    | UnlockR
    | Exited

  /** Steps of a caller of refresh. */
  datatype CallerPc =
    | InitTest | InitLock | InitTest2 | InitHandler | InitUnlock | InitCheck
    | AsyncTest | AsyncLock | AsyncTest2 | AsyncRun | AsyncCreate | AsyncOk | AsyncUnlock | AsyncCheck
    | ReqLock | ReqDo | ReqSignal | ReqUnlock
    | SyncLock | SyncImpl | SyncUnlock

  datatype CallerState = CallerState(pc: CallerPc, isAsync: bool)

  /** Steps of clear. */
  datatype ClearPc =
    | Outside | OkTest | StopLock | StopRun | StopSignal | StopUnlock | Join | ResetAsyncOk
    | ResetAsync | ResetInitOk | ResetInit | FreeLockM | FreeLockR | Freeing | FreeUnlockR | FreeUnlockM

  /** `requests` counts the asynchronous requests made, `taken` those made when the worker last reset the
      flag, `served` those covered by a worker refresh that has started. */
  datatype Locks = Locks(m: Owner, r: Owner)

  datatype Flags = Flags(inited: bool, initOk: bool, asyncInited: bool, asyncInitOk: bool, running: bool, todo: bool)

  datatype Tickets = Tickets(requests: nat, taken: nat, served: nat)

  datatype State = State(
    locks: Locks, flags: Flags, worker: WorkerPc, callers: map<nat, CallerState>, clear: ClearPc, tickets: Tickets)

  datatype Action =
    | WorkerStep
    | SpuriousWake
    | Call(id: nat, isAsync: bool)
    | CallerStep(id: nat, ok: bool)  // ok: outcome of the system call, where there is one
    | ClearCall
    | ClearStep

  const INITIAL := State(Locks(Nobody, Nobody), Flags(false, false, false, false, false, false), NoThread,
    map[], Outside, Tickets(0, 0, 0))

  function Signalled(w: WorkerPc): WorkerPc {
    if w == Asleep then Woken else w
  }

  predicate WorkerReady(s: State) {
    && !s.worker.NoThread? && !s.worker.Asleep? && !s.worker.Exited?
    && (s.worker.LockM? || s.worker.Woken? ==> s.locks.m == Nobody)
    && (s.worker.LockR? ==> s.locks.r == Nobody)
  }

  predicate CallerReady(s: State, id: nat) {
    && id in s.callers
    && (s.callers[id].pc.InitLock? || s.callers[id].pc.AsyncLock? || s.callers[id].pc.ReqLock? ==> s.locks.m == Nobody)
    && (s.callers[id].pc.SyncLock? ==> s.locks.r == Nobody)
  }

  predicate ClearReady(s: State) {
    && s.clear != Outside
    && (s.clear.StopLock? || s.clear.FreeLockM? ==> s.locks.m == Nobody)
    && (s.clear.FreeLockR? ==> s.locks.r == Nobody)
    && (s.clear.Join? ==> s.worker.Exited?)
  }

  predicate Enabled(s: State, a: Action) {
    match a
    case WorkerStep => WorkerReady(s)
    case SpuriousWake => s.worker.Asleep?
    case Call(id, _) => id !in s.callers && s.clear.Outside?
    case CallerStep(id, _) => CallerReady(s, id)
    case ClearCall => s.clear.Outside? && s.callers == map[]
    case ClearStep => ClearReady(s)
  }

  /** `xh_core_refresh_thread_func`. */
  function WorkerNext(s: State): State
    requires WorkerReady(s)
  {
    match s.worker
    case LoopTest => s.(worker := if s.flags.running then LockM else Exited)
    case LockM => s.(locks := s.locks.(m := Worker), worker := WaitTest)
    case WaitTest =>
      if !s.flags.todo && s.flags.running then s.(locks := s.locks.(m := Nobody), worker := Asleep)
      else s.(worker := RunTest)
    case Woken => s.(locks := s.locks.(m := Worker), worker := WaitTest)
    case RunTest =>
      if !s.flags.running then s.(worker := UnlockBreak)
      else s.(flags := s.flags.(todo := false),
             tickets := s.tickets.(taken := s.tickets.requests), worker := UnlockTaken)
    case UnlockBreak => s.(locks := s.locks.(m := Nobody), worker := Exited)
    case UnlockTaken => s.(locks := s.locks.(m := Nobody), worker := LockR)
    case LockR => s.(locks := s.locks.(r := Worker), tickets := s.tickets.(served := s.tickets.taken), worker := Impl)
    case Impl => s.(worker := UnlockR)
    case UnlockR => s.(locks := s.locks.(r := Nobody), worker := LoopTest)
    case _ => s
  }

  function Goto(s: State, id: nat, pc: CallerPc): State
    requires id in s.callers
  {
    s.(callers := s.callers[id := s.callers[id].(pc := pc)])
  }

  function Return(s: State, id: nat): State {
    s.(callers := s.callers - {id})
  }

  /** `xh_core_init_once`, and the test of its outcome. */
  function InitNext(s: State, id: nat, ok: bool): State
    requires CallerReady(s, id)
  {
    match s.callers[id].pc
    case InitTest => Goto(s, id, if s.flags.inited then InitCheck else InitLock)
    case InitLock => Goto(s, id, InitTest2).(locks := s.locks.(m := Caller(id)))
    case InitTest2 =>
      if s.flags.inited then Goto(s, id, InitUnlock) else Goto(s, id, InitHandler).(flags := s.flags.(inited := true))
    case InitHandler => Goto(s, id, InitUnlock).(flags := s.flags.(initOk := s.flags.initOk || ok))
    case InitUnlock => Goto(s, id, InitCheck).(locks := s.locks.(m := Nobody))
    case InitCheck =>
      if !s.flags.initOk then Return(s, id) else Goto(s, id, if s.callers[id].isAsync then AsyncTest else SyncLock)
    case _ => s
  }

  /** `xh_core_init_async_once`, and the test of its outcome. */
  function AsyncInitNext(s: State, id: nat, ok: bool): State
    requires CallerReady(s, id)
  {
    match s.callers[id].pc
    case AsyncTest => Goto(s, id, if s.flags.asyncInited then AsyncCheck else AsyncLock)
    case AsyncLock => Goto(s, id, AsyncTest2).(locks := s.locks.(m := Caller(id)))
    case AsyncTest2 =>
      if s.flags.asyncInited then Goto(s, id, AsyncUnlock)
      else Goto(s, id, AsyncRun).(flags := s.flags.(asyncInited := true))
    case AsyncRun => Goto(s, id, AsyncCreate).(flags := s.flags.(running := true))
    case AsyncCreate =>
      if ok then Goto(s, id, AsyncOk).(worker := LoopTest)
      else Goto(s, id, AsyncUnlock).(flags := s.flags.(running := false))
    case AsyncOk => Goto(s, id, AsyncUnlock).(flags := s.flags.(asyncInitOk := true))
    case AsyncUnlock => Goto(s, id, AsyncCheck).(locks := s.locks.(m := Nobody))
    case AsyncCheck => if !s.flags.asyncInitOk then Return(s, id) else Goto(s, id, ReqLock)
    case _ => s
  }

  /** The request or the refresh itself in `xh_core_refresh`. */
  function RequestNext(s: State, id: nat): State
    requires CallerReady(s, id)
  {
    match s.callers[id].pc
    case ReqLock => Goto(s, id, ReqDo).(locks := s.locks.(m := Caller(id)))
    case ReqDo =>
      var tickets := s.tickets.(requests := s.tickets.requests + 1);
      Goto(s, id, ReqSignal).(flags := s.flags.(todo := true), tickets := tickets)
    case ReqSignal => Goto(s, id, ReqUnlock).(worker := Signalled(s.worker))
    case ReqUnlock => Return(s, id).(locks := s.locks.(m := Nobody))
    case SyncLock => Goto(s, id, SyncImpl).(locks := s.locks.(r := Caller(id)))
    case SyncImpl => Goto(s, id, SyncUnlock)
    case SyncUnlock => Return(s, id).(locks := s.locks.(r := Nobody))
    case _ => s
  }

  predicate Initing(c: CallerPc) {
    c.InitTest? || c.InitLock? || c.InitTest2? || c.InitHandler? || c.InitUnlock? || c.InitCheck?
  }

  predicate Requesting(c: CallerPc) {
    c.ReqLock? || c.ReqDo? || c.ReqSignal? || c.ReqUnlock? || c.SyncLock? || c.SyncImpl? || c.SyncUnlock?
  }

  function CallerNext(s: State, id: nat, ok: bool): State
    requires CallerReady(s, id)
  {
    if Initing(s.callers[id].pc) then InitNext(s, id, ok)
    else if Requesting(s.callers[id].pc) then RequestNext(s, id)
    else AsyncInitNext(s, id, ok)
  }

  /** `xh_core_clear`: the worker is stopped and joined, the flags are reset, everything is freed. */
  function ClearNext(s: State): State
    requires ClearReady(s)
  {
    match s.clear
    case OkTest => s.(clear := if s.flags.asyncInitOk then StopLock else ResetAsync)
    case StopLock => s.(locks := s.locks.(m := Clearer), clear := StopRun)
    case StopRun => s.(flags := s.flags.(running := false), clear := StopSignal)
    case StopSignal => s.(worker := Signalled(s.worker), clear := StopUnlock)
    case StopUnlock => s.(locks := s.locks.(m := Nobody), clear := Join)
    case Join => s.(worker := NoThread, clear := ResetAsyncOk)
    case ResetAsyncOk => s.(flags := s.flags.(asyncInitOk := false), clear := ResetAsync)
    case ResetAsync => s.(flags := s.flags.(asyncInited := false), clear := ResetInitOk)
    case ResetInitOk => s.(flags := s.flags.(initOk := false), clear := ResetInit)
    case ResetInit => s.(flags := s.flags.(inited := false), clear := FreeLockM)
    case FreeLockM => s.(locks := s.locks.(m := Clearer), clear := FreeLockR)
    case FreeLockR => s.(locks := s.locks.(r := Clearer), clear := Freeing)
    case Freeing => s.(clear := FreeUnlockR)
    case FreeUnlockR => s.(locks := s.locks.(r := Nobody), clear := FreeUnlockM)
    case FreeUnlockM => s.(locks := s.locks.(m := Nobody), clear := Outside)
    case Outside => s
  }

  function Apply(s: State, a: Action): State
    requires Enabled(s, a)
  {
    match a
    case WorkerStep => WorkerNext(s)
    case SpuriousWake => s.(worker := Woken)
    case Call(id, isAsync) => s.(callers := s.callers[id := CallerState(InitTest, isAsync)])
    case CallerStep(id, ok) => CallerNext(s, id, ok)
    case ClearCall => s.(clear := OkTest)
    case ClearStep => ClearNext(s)
  }

  /** A run: `states` starts in `states[0]` and follows `actions`. */
  ghost predicate IsRun(states: seq<State>, actions: seq<Action>) {
    && |states| == |actions| + 1
    && forall i :: 0 <= i < |actions| ==>
        Enabled(states[i], actions[i]) && states[i + 1] == Apply(states[i], actions[i])
  }

  ghost predicate Reachable(s: State) {
    exists states, actions :: IsRun(states, actions) && states[0] == INITIAL && states[|actions|] == s
  }

  // ---------------------------------------------------------------- the invariant

  predicate WorkerHoldsM(w: WorkerPc) { (w.WaitTest? || w.RunTest? || w.UnlockBreak? || w.UnlockTaken?) }

  predicate WorkerHoldsR(w: WorkerPc) { (w.Impl? || w.UnlockR?) }

  predicate CallerHoldsM(c: CallerPc) {
    || c.InitTest2? || c.InitHandler? || c.InitUnlock?
    || c.AsyncTest2? || c.AsyncRun? || c.AsyncCreate? || c.AsyncOk? || c.AsyncUnlock?
    || c.ReqDo? || c.ReqSignal? || c.ReqUnlock?
  }

  predicate CallerHoldsR(c: CallerPc) { (c.SyncImpl? || c.SyncUnlock?) }

  predicate ClearHoldsM(k: ClearPc) {
    (k.StopRun? || k.StopSignal? || k.StopUnlock? || k.FreeLockR? || k.Freeing? || k.FreeUnlockR? || k.FreeUnlockM?)
  }

  predicate ClearHoldsR(k: ClearPc) { (k.Freeing? || k.FreeUnlockR?) }

  /** The worker and clear hold each mutex exactly between their lock and their unlock of it. */
  predicate Mutexes(s: State) {
    && (WorkerHoldsM(s.worker) <==> s.locks.m == Worker)
    && (WorkerHoldsR(s.worker) <==> s.locks.r == Worker)
    && (ClearHoldsM(s.clear) <==> s.locks.m == Clearer)
    && (ClearHoldsR(s.clear) <==> s.locks.r == Clearer)
  }

  /** So does each caller; what the flags say while a caller is at work. */
  predicate CallerFits(s: State, id: nat) {
    if id !in s.callers then s.locks.m != Caller(id) && s.locks.r != Caller(id) else
      var pc := s.callers[id].pc;
      && s.clear.Outside?
      && (CallerHoldsM(pc) <==> s.locks.m == Caller(id))
      && (CallerHoldsR(pc) <==> s.locks.r == Caller(id))
      && (pc.InitHandler? ==> s.flags.inited)
      && (pc.AsyncRun? || pc.AsyncCreate? ==> s.worker.NoThread? && s.flags.asyncInited && !s.flags.asyncInitOk)
      && (pc.AsyncCreate? ==> s.flags.running)
      && (pc.AsyncOk? ==> !s.worker.NoThread? && s.flags.asyncInited && s.flags.running)
      && (pc.ReqLock? || pc.ReqDo? || pc.ReqSignal? || pc.ReqUnlock? ==> s.flags.asyncInitOk)
  }

  /** Clear has signalled the worker and now waits for it to end. */
  predicate Stopping(k: ClearPc) { k.StopSignal? || k.StopUnlock? || k.Join? }

  predicate Stopped(k: ClearPc) {
    || k.ResetAsyncOk? || k.ResetAsync? || k.ResetInitOk? || k.ResetInit?
    || k.FreeLockM? || k.FreeLockR? || k.Freeing? || k.FreeUnlockR? || k.FreeUnlockM?
  }

  /** The worker has been created and the flag that says so still has to be set. */
  predicate Creating(s: State) {
    s.locks.m.Caller? && s.locks.m.id in s.callers && s.callers[s.locks.m.id].pc.AsyncOk?
  }

  /** The worker exists from its creation until clear has joined it, and runs until clear stops it. */
  predicate Lifetimes(s: State) {
    && (s.clear.Outside? || s.callers == map[])
    && (s.flags.asyncInitOk ==> s.flags.asyncInited)
    && (s.flags.asyncInitOk && !s.clear.ResetAsyncOk? ==> !s.worker.NoThread?)
    && (!s.flags.asyncInited ==> s.worker.NoThread?)
    && (!s.worker.NoThread? && !s.flags.asyncInitOk ==> Creating(s))
    && (s.clear.StopLock? || s.clear.StopRun? || Stopping(s.clear) || s.clear.ResetAsyncOk? ==> s.flags.asyncInitOk)
    && (s.clear.ResetAsync? ==> !s.flags.asyncInitOk)
    && (Stopped(s.clear) ==> s.worker.NoThread?)
    && (!s.worker.NoThread? ==> (!s.flags.running <==> Stopping(s.clear)))
    && (s.worker.UnlockBreak? || s.worker.Exited? ==> !s.flags.running)
  }

  /** The flag or the end of the running state is set and the signal for it still has to be sent. */
  predicate AboutToSignal(s: State) {
    || s.clear.StopSignal?
    || (s.locks.m.Caller? && s.locks.m.id in s.callers && s.callers[s.locks.m.id].pc.ReqSignal?)
  }

  /** A sleeping worker has nothing to do, unless the signal is on its way; one that left the waiting has. */
  predicate Wakeups(s: State) {
    && (s.worker.Asleep? ==> (!s.flags.todo && s.flags.running) || AboutToSignal(s))
    && (s.worker.RunTest? ==> s.flags.todo || !s.flags.running)
  }

  /** The worker has taken a request and has not started the refresh for it. */
  predicate Window(w: WorkerPc) { (w.UnlockTaken? || w.LockR?) }

  predicate TicketsFit(s: State) {
    && s.tickets.served <= s.tickets.taken <= s.tickets.requests
    && (!s.flags.todo <==> s.tickets.taken == s.tickets.requests)
    && (Window(s.worker) <==> s.tickets.served < s.tickets.taken)
  }

  ghost predicate Inv(s: State) {
    && Mutexes(s) && Lifetimes(s) && Wakeups(s) && TicketsFit(s)
    && (forall id :: CallerFits(s, id))
  }

  // ---------------------------------------------------------------- every step keeps the invariant

  lemma InitialInv()
    ensures Inv(INITIAL)
  {
  }

  /** The part of the invariant that does not speak of a particular caller. */
  predicate Shared(s: State) {
    Mutexes(s) && Lifetimes(s) && Wakeups(s) && TicketsFit(s)
  }

  lemma WorkerKeeps(s: State)
    requires Shared(s) && WorkerReady(s)
    ensures Shared(WorkerNext(s))
  {
  }

  lemma ClearKeeps(s: State)
    requires Shared(s) && ClearReady(s)
    ensures Shared(ClearNext(s))
  {
  }

  lemma InitKeeps(s: State, id: nat, ok: bool)
    requires Shared(s) && CallerReady(s, id) && CallerFits(s, id) && Initing(s.callers[id].pc)
    ensures Shared(InitNext(s, id, ok))
  {
  }

  lemma AsyncInitKeeps(s: State, id: nat, ok: bool)
    requires Shared(s) && CallerReady(s, id) && CallerFits(s, id)
    requires !Initing(s.callers[id].pc) && !Requesting(s.callers[id].pc)
    ensures Shared(AsyncInitNext(s, id, ok))
  {
  }

  lemma RequestKeeps(s: State, id: nat)
    requires Shared(s) && CallerReady(s, id) && CallerFits(s, id) && Requesting(s.callers[id].pc)
    ensures Shared(RequestNext(s, id))
  {
  }

  lemma WorkerSpares(s: State, id: nat)
    requires Shared(s) && WorkerReady(s) && CallerFits(s, id)
    ensures CallerFits(WorkerNext(s), id)
  {
  }

  lemma ClearSpares(s: State, id: nat)
    requires Shared(s) && ClearReady(s) && CallerFits(s, id)
    ensures CallerFits(ClearNext(s), id)
  {
  }

  lemma InitProceeds(s: State, id: nat, ok: bool)
    requires Shared(s) && CallerReady(s, id) && CallerFits(s, id) && Initing(s.callers[id].pc)
    ensures CallerFits(InitNext(s, id, ok), id)
  {
    hide Wakeups, TicketsFit, AsyncInitNext;
  }

  lemma InitSpares(s: State, id: nat, ok: bool, other: nat)
    requires id != other
    requires Shared(s) && CallerReady(s, id) && CallerFits(s, id) && CallerFits(s, other) && Initing(s.callers[id].pc)
    ensures CallerFits(InitNext(s, id, ok), other)
  {
  }

  lemma AsyncInitProceeds(s: State, id: nat, ok: bool)
    requires Shared(s) && CallerReady(s, id) && CallerFits(s, id)
    requires !Initing(s.callers[id].pc) && !Requesting(s.callers[id].pc)
    ensures CallerFits(AsyncInitNext(s, id, ok), id)
  {
    hide Wakeups, TicketsFit, InitNext;
  }

  lemma AsyncInitSpares(s: State, id: nat, ok: bool, other: nat)
    requires id != other
    requires Shared(s) && CallerReady(s, id) && CallerFits(s, id) && CallerFits(s, other)
    requires !Initing(s.callers[id].pc) && !Requesting(s.callers[id].pc)
    ensures CallerFits(AsyncInitNext(s, id, ok), other)
  {
  }

  lemma RequestSpares(s: State, id: nat, other: nat)
    requires Shared(s) && CallerReady(s, id) && CallerFits(s, id)
    requires CallerFits(s, other) && Requesting(s.callers[id].pc)
    ensures CallerFits(RequestNext(s, id), other)
  {
  }

  lemma CallerKeeps(s: State, id: nat, ok: bool)
    requires Inv(s) && CallerReady(s, id)
    ensures Inv(CallerNext(s, id, ok))
  {
    assert CallerFits(s, id);
    if Initing(s.callers[id].pc) {
      InitKeeps(s, id, ok);
      InitProceeds(s, id, ok);
      forall other | id != other ensures CallerFits(InitNext(s, id, ok), other) { InitSpares(s, id, ok, other); }
    } else if Requesting(s.callers[id].pc) {
      RequestKeeps(s, id);
      forall other ensures CallerFits(RequestNext(s, id), other) { RequestSpares(s, id, other); }
    } else {
      AsyncInitKeeps(s, id, ok);
      AsyncInitProceeds(s, id, ok);
      forall other | id != other ensures CallerFits(AsyncInitNext(s, id, ok), other) {
        AsyncInitSpares(s, id, ok, other); }
    }
  }

  lemma StepKeeps(s: State, a: Action)
    requires Inv(s) && Enabled(s, a)
    ensures Inv(Apply(s, a))
  {
    match a {
      case WorkerStep =>
        WorkerKeeps(s);
        forall id ensures CallerFits(Apply(s, a), id) { WorkerSpares(s, id); }
      case ClearStep =>
        ClearKeeps(s);
        forall id ensures CallerFits(Apply(s, a), id) { ClearSpares(s, id); }
      case CallerStep(id, ok) =>
        CallerKeeps(s, id, ok);
      case _ =>
        forall id ensures CallerFits(Apply(s, a), id) { assert CallerFits(s, id); }
    }
  }

  lemma {:induction false} RunKeeps(states: seq<State>, actions: seq<Action>, k: nat)
    requires IsRun(states, actions) && Inv(states[0]) && k < |states|
    ensures Inv(states[k])
  {
    hide Inv, Enabled, Apply;
    if k > 0 {
      RunKeeps(states, actions, k - 1);
      StepKeeps(states[k - 1], actions[k - 1]);
    }
  }

  lemma ReachableInv(s: State)
    requires Reachable(s)
    ensures Inv(s)
  {
    var states, actions :| IsRun(states, actions) && states[0] == INITIAL && states[|actions|] == s;
    InitialInv();
    RunKeeps(states, actions, |actions|);
  }

  // ---------------------------------------------------------------- safety

  /** `who` is in `xh_core_refresh_impl`, or is clear freeing what that works on. */
  predicate InRefresh(s: State, who: Owner) {
    match who
    case Nobody => false
    case Worker => s.worker.Impl?
    case Caller(id) => id in s.callers && s.callers[id].pc.SyncImpl?
    case Clearer => s.clear.Freeing?
  }

  lemma OneRefresh(s: State, a: Owner, b: Owner)
    requires Reachable(s) && InRefresh(s, a) && InRefresh(s, b)
    ensures a == b == s.locks.r
  {
    ReachableInv(s);
    assert a.Caller? ==> CallerFits(s, a.id);
    assert b.Caller? ==> CallerFits(s, b.id);
  }

  lemma NoLostWakeup(s: State)
    requires Reachable(s) && s.locks.m.Nobody? && s.worker.Asleep?
    ensures !s.flags.todo && s.flags.running && s.tickets.served == s.tickets.requests
  {
    ReachableInv(s);
  }

  predicate CanStep(s: State, who: Owner) {
    match who
    case Nobody => false
    case Worker => Enabled(s, WorkerStep)
    case Caller(id) => Enabled(s, CallerStep(id, true))
    case Clearer => Enabled(s, ClearStep)
  }

  /** No lock cycle: whoever holds a mutex waits for nothing. */
  lemma HoldersRun(s: State)
    requires Reachable(s)
    ensures s.locks.m != Nobody ==> CanStep(s, s.locks.m)
    ensures s.locks.r != Nobody ==> CanStep(s, s.locks.r)
  {
    ReachableInv(s);
    assert s.locks.m.Caller? ==> CallerFits(s, s.locks.m.id);
    assert s.locks.r.Caller? ==> CallerFits(s, s.locks.r.id);
  }

  /** There is work left: a caller or clear has not returned, or the worker is neither asleep nor gone. */
  predicate Busy(s: State) {
    s.callers != map[] || !s.clear.Outside? || !(s.worker.NoThread? || s.worker.Asleep? || s.worker.Exited?)
  }

  lemma NoDeadlock(s: State)
    requires Reachable(s) && Busy(s)
    ensures exists who :: CanStep(s, who)
  {
    HoldersRun(s);
    ReachableInv(s);
    if s.locks.m.Nobody? && s.locks.r.Nobody? {
      if s.callers != map[] {
        var id :| id in s.callers;
        assert CanStep(s, Caller(id));
      } else if !s.clear.Outside? && !s.clear.Join? {
        assert CanStep(s, Clearer);
      } else if s.worker.Exited? {
        assert CanStep(s, Clearer);
      } else {
        assert CanStep(s, Worker);
      }
    }
  }

  /** No refresh covers request `n` yet, and no clear is under way. */
  ghost predicate Unserved(s: State, n: nat) {
    Inv(s) && s.clear.Outside? && s.tickets.served < n <= s.tickets.requests
  }

  /** ... and there is a worker. */
  ghost predicate Pending(s: State, n: nat) {
    Unserved(s, n) && !s.worker.NoThread?
  }

  /** Whose mutex the worker waits for, if it waits. */
  function Blocker(s: State): Owner {
    if s.worker.LockR? then s.locks.r else s.locks.m
  }

  /** While a request is pending the worker can step, or it waits for a caller that can. */
  lemma PendingProgress(s: State, n: nat)
    requires Pending(s, n)
    ensures WorkerReady(s) || (Blocker(s).Caller? && CanStep(s, Blocker(s)))
  {
    assert s.locks.m.Caller? ==> CallerFits(s, s.locks.m.id);
    assert s.locks.r.Caller? ==> CallerFits(s, s.locks.r.id);
  }

  // ---------------------------------------------------------------- every request is answered

  /** How many worker steps are at most left until a refresh starts that covers request `n`. */
  function Rank(s: State, n: nat): nat {
    if s.tickets.served >= n then 0 else
    match s.worker
    case UnlockTaken => if s.tickets.taken >= n then 2 else 10
    case LockR => if s.tickets.taken >= n then 1 else 9
    case Impl => 8
    case UnlockR => 7
    case NoThread => 7
    case LoopTest => 6
    case WaitTest => 4
    case RunTest => 3
    case _ => 5
  }

  lemma WorkerNears(s: State, n: nat)
    requires Inv(s) && WorkerReady(s) && s.clear.Outside? && n <= s.tickets.requests
    ensures WorkerNext(s).tickets.requests == s.tickets.requests
    ensures Rank(WorkerNext(s), n) <= Rank(s, n)
    ensures Rank(s, n) > 0 ==> Rank(WorkerNext(s), n) < Rank(s, n)
  {
  }

  /** What a caller can do to the worker and to the requests. */
  lemma CallerFrame(s: State, id: nat, ok: bool)
    requires CallerReady(s, id) && CallerFits(s, id)
    ensures var t := CallerNext(s, id, ok);
      && t.clear == s.clear && t.tickets.served == s.tickets.served && t.tickets.taken == s.tickets.taken
      && t.tickets.requests == s.tickets.requests + (if s.callers[id].pc.ReqDo? then 1 else 0)
      && (t.worker == s.worker || (s.worker.Asleep? && t.worker.Woken?) || (s.worker.NoThread? && t.worker.LoopTest?))
  {
  }

  /** A step of the worker brings the refresh nearer, no other step delays it. */
  lemma {:induction false} RankStep(s: State, a: Action, n: nat)
    requires Inv(s) && Enabled(s, a) && s.clear.Outside? && !a.ClearCall?
    requires n <= s.tickets.requests
    ensures n <= Apply(s, a).tickets.requests && Apply(s, a).clear.Outside?
    ensures Rank(Apply(s, a), n) <= Rank(s, n)
    ensures a.WorkerStep? && Rank(s, n) > 0 ==> Rank(Apply(s, a), n) < Rank(s, n)
  {
    match a {
      case WorkerStep => WorkerNears(s, n);
      case CallerStep(id, ok) =>
        assert CallerFits(s, id);
        CallerFrame(s, id, ok);
      case _ =>
    }
  }

  function WorkerSteps(actions: seq<Action>): nat {
    if actions == [] then 0
    else WorkerSteps(actions[..|actions| - 1]) + if actions[|actions| - 1].WorkerStep? then 1 else 0
  }

  ghost predicate ClearFree(actions: seq<Action>) {
    forall i :: 0 <= i < |actions| ==> !actions[i].ClearCall?
  }

  lemma {:induction false} RankRun(states: seq<State>, actions: seq<Action>, n: nat)
    requires IsRun(states, actions) && ClearFree(actions) && Inv(states[0])
    requires states[0].clear.Outside? && n <= states[0].tickets.requests
    ensures states[|actions|].clear.Outside? && n <= states[|actions|].tickets.requests
    ensures Rank(states[|actions|], n) == 0 || Rank(states[|actions|], n) + WorkerSteps(actions) <= Rank(states[0], n)
  {
    hide Inv, Rank, Enabled, Apply;
    var k := |actions|;
    if k > 0 {
      RankRun(states[..k], actions[..k - 1], n);
      RunKeeps(states, actions, k - 1);
      RankStep(states[k - 1], actions[k - 1], n);
    }
  }

  /** The worker enters `xh_core_refresh_impl` from `s` to `t`. */
  predicate Enters(s: State, a: Action, t: State) {
    a.WorkerStep? && !InRefresh(s, Worker) && InRefresh(t, Worker)
  }

  /** Step `i` of the run is the worker entering `xh_core_refresh_impl`. */
  predicate StartsRefresh(states: seq<State>, actions: seq<Action>, i: nat) {
    i < |actions| && i + 1 < |states| && Enters(states[i], actions[i], states[i + 1])
  }

  /** Only that step covers requests, and it covers those taken, of which at least one was not covered before. */
  lemma ServedExact(s: State, a: Action)
    requires Inv(s) && Enabled(s, a)
    ensures var t := Apply(s, a);
      if Enters(s, a, t) then s.tickets.served < t.tickets.served == s.tickets.taken
      else t.tickets.served == s.tickets.served
  {
    assert a.CallerStep? ==> CallerFits(s, a.id);
    if a.CallerStep? { CallerFrame(s, a.id, a.ok); }
  }

  lemma ServedStep(s: State, a: Action)
    requires Inv(s) && Enabled(s, a) && !Enters(s, a, Apply(s, a))
    ensures Apply(s, a).tickets.served == s.tickets.served
  {
    assert a.CallerStep? ==> CallerFits(s, a.id);
    if a.CallerStep? { CallerFrame(s, a.id, a.ok); }
  }

  lemma {:induction false} ServedOnlyByRefresh(states: seq<State>, actions: seq<Action>, k: nat)
    requires IsRun(states, actions) && Inv(states[0]) && k <= |actions|
    requires forall i: nat :: i < k ==> !StartsRefresh(states, actions, i)
    ensures states[k].tickets.served == states[0].tickets.served
  {
    if k > 0 {
      ServedOnlyByRefresh(states, actions, k - 1);
      RunKeeps(states, actions, k - 1);
      assert !StartsRefresh(states, actions, k - 1);
      ServedStep(states[k - 1], actions[k - 1]);
    }
  }

  lemma {:induction false} FirstIsCaller(actions: seq<Action>)
    requires actions != [] && !actions[0].WorkerStep?
    ensures WorkerSteps(actions[1..]) == WorkerSteps(actions)
  {
    if |actions| > 1 {
      var init := actions[..|actions| - 1];
      FirstIsCaller(init);
      assert init[1..] == actions[1..][..|actions| - 2];
    }
  }

  lemma RankBound(s: State, n: nat)
    ensures Rank(s, n) <= 10
    ensures Rank(s, n) == 0 ==> s.tickets.served >= n
  {
  }

  /** Ten steps of the worker are enough for a refresh to start that covers what was requested before. */
  lemma PendingServed(states: seq<State>, actions: seq<Action>, n: nat)
    requires IsRun(states, actions) && ClearFree(actions) && Inv(states[0]) && states[0].clear.Outside?
    requires states[0].tickets.served < n <= states[0].tickets.requests
    requires WorkerSteps(actions) >= 10
    ensures exists i: nat :: StartsRefresh(states, actions, i)
    ensures states[|actions|].tickets.served >= n
  {
    hide Inv, Rank, WorkerSteps;
    RankRun(states, actions, n);
    RankBound(states[0], n);
    RankBound(states[|actions|], n);
    if forall i: nat :: !StartsRefresh(states, actions, i) {
      ServedOnlyByRefresh(states, actions, |actions|);
    }
  }

  /** Every asynchronous request is followed by a worker refresh that starts after it. */
  lemma RequestAnswered(states: seq<State>, actions: seq<Action>)
    requires IsRun(states, actions) && Reachable(states[0]) && ClearFree(actions) && |actions| > 0
    requires actions[0].CallerStep? && states[0].callers[actions[0].id].pc.ReqDo?
    requires WorkerSteps(actions) >= 10
    ensures exists i: nat :: i > 0 && StartsRefresh(states, actions, i)
  {
    hide Inv, WorkerSteps;
    ReachableInv(states[0]);
    RequestMade(states[0], actions[0].id, actions[0].ok);
    StepKeeps(states[0], actions[0]);
    FirstIsCaller(actions);
    PendingServed(states[1..], actions[1..], states[1].tickets.requests);
    var i: nat :| StartsRefresh(states[1..], actions[1..], i);
    assert StartsRefresh(states, actions, i + 1);
  }

  lemma RequestMade(s: State, id: nat, ok: bool)
    requires Inv(s) && CallerReady(s, id) && s.callers[id].pc.ReqDo?
    ensures var t := CallerNext(s, id, ok);
      t.clear.Outside? && t.tickets.served < t.tickets.requests && t.flags.todo
  {
  }

  // ---------------------------------------------------------------- requests and clear

  /** Without a worker there is an unserved request exactly when the flag is set, and nothing but a new
      worker resets it. */
  lemma ClearLeaves(s: State)
    requires Reachable(s) && s.worker.NoThread?
    ensures s.tickets.served < s.tickets.requests <==> s.flags.todo
  {
    ReachableInv(s);
  }

  lemma ReachStep(s: State, a: Action)
    requires Reachable(s) && Enabled(s, a)
    ensures Reachable(Apply(s, a))
  {
    var states, actions :| IsRun(states, actions) && states[0] == INITIAL && states[|actions|] == s;
    var states', actions' := states + [Apply(s, a)], actions + [a];
    assert IsRun(states', actions');
    assert states'[0] == INITIAL && states'[|actions'|] == Apply(s, a);
  }

  lemma ReachInitial()
    ensures Reachable(INITIAL)
  {
    var states, actions: seq<Action> := [INITIAL], [];
    assert IsRun(states, actions) && states[|actions|] == INITIAL;
  }

  lemma Onward(s: State, a: Action, t: State)
    requires Reachable(s) && Enabled(s, a) && Apply(s, a) == t
    ensures Reachable(t)
  {
    ReachStep(s, a);
  }

  /** One asynchronous caller at `pc`. */
  function Asking(pc: CallerPc, m: Owner, flags: Flags, worker: WorkerPc, requests: nat): State {
    State(Locks(m, Nobody), flags, worker, map[0 := CallerState(pc, true)], Outside, Tickets(requests, 0, 0))
  }

  lemma Ask(s: State, t: State)
    requires Reachable(s) && s.callers.Keys == {0} == t.callers.Keys && Enabled(s, CallerStep(0, true))
    requires var n := CallerNext(s, 0, true);
      0 in n.callers && n.callers[0] == t.callers[0] && n == t.(callers := n.callers)
    ensures Reachable(t)
  {
    var n := CallerNext(s, 0, true);
    assert n.callers == t.callers;
    Onward(s, CallerStep(0, true), t);
  }

  /** The flags after the two initialisations. */
  const INITED := Flags(true, true, false, false, false, false)
  const STARTED := Flags(true, true, true, true, true, false)

  lemma FirstInit()
    ensures Reachable(Asking(AsyncTest, Nobody, INITED, NoThread, 0))
  {
    hide Reachable;
    ReachInitial();
    var f := INITIAL.flags;
    var g := f.(inited := true);
    var h := g.(initOk := true);
    Onward(INITIAL, Call(0, true), Asking(InitTest, Nobody, f, NoThread, 0));
    Ask(Asking(InitTest, Nobody, f, NoThread, 0), Asking(InitLock, Nobody, f, NoThread, 0));
    Ask(Asking(InitLock, Nobody, f, NoThread, 0), Asking(InitTest2, Caller(0), f, NoThread, 0));
    Ask(Asking(InitTest2, Caller(0), f, NoThread, 0), Asking(InitHandler, Caller(0), g, NoThread, 0));
    Ask(Asking(InitHandler, Caller(0), g, NoThread, 0), Asking(InitUnlock, Caller(0), h, NoThread, 0));
    Ask(Asking(InitUnlock, Caller(0), h, NoThread, 0), Asking(InitCheck, Nobody, h, NoThread, 0));
    Ask(Asking(InitCheck, Nobody, h, NoThread, 0), Asking(AsyncTest, Nobody, h, NoThread, 0));
  }

  lemma StartingWorker()
    ensures Reachable(Asking(AsyncCreate, Caller(0), Flags(true, true, true, false, true, false), NoThread, 0))
  {
    hide Reachable;
    FirstInit();
    var f := INITED;
    var g := f.(asyncInited := true);
    var h := g.(running := true);
    Ask(Asking(AsyncTest, Nobody, f, NoThread, 0), Asking(AsyncLock, Nobody, f, NoThread, 0));
    Ask(Asking(AsyncLock, Nobody, f, NoThread, 0), Asking(AsyncTest2, Caller(0), f, NoThread, 0));
    Ask(Asking(AsyncTest2, Caller(0), f, NoThread, 0), Asking(AsyncRun, Caller(0), g, NoThread, 0));
    Ask(Asking(AsyncRun, Caller(0), g, NoThread, 0), Asking(AsyncCreate, Caller(0), h, NoThread, 0));
  }

  lemma StartedWorker()
    ensures Reachable(Asking(AsyncUnlock, Caller(0), STARTED, LoopTest, 0))
  {
    hide Reachable;
    StartingWorker();
    var h := Flags(true, true, true, false, true, false);
    var k := STARTED;
    Ask(Asking(AsyncCreate, Caller(0), h, NoThread, 0), Asking(AsyncOk, Caller(0), h, LoopTest, 0));
    Ask(Asking(AsyncOk, Caller(0), h, LoopTest, 0), Asking(AsyncUnlock, Caller(0), k, LoopTest, 0));
  }

  lemma WorkerStarted()
    ensures Reachable(Asking(ReqLock, Nobody, STARTED, LoopTest, 0))
  {
    hide Reachable;
    StartedWorker();
    var k := STARTED;
    Ask(Asking(AsyncUnlock, Caller(0), k, LoopTest, 0), Asking(AsyncCheck, Nobody, k, LoopTest, 0));
    Ask(Asking(AsyncCheck, Nobody, k, LoopTest, 0), Asking(ReqLock, Nobody, k, LoopTest, 0));
  }

  /** A request is made and no worker step was taken yet. */
  lemma RequestPending()
    ensures Reachable(State(Locks(Nobody, Nobody), STARTED.(todo := true), LoopTest, map[], Outside, Tickets(1, 0, 0)))
  {
    hide Reachable;
    WorkerStarted();
    var f := STARTED;
    var g := f.(todo := true);
    Ask(Asking(ReqLock, Nobody, f, LoopTest, 0), Asking(ReqDo, Caller(0), f, LoopTest, 0));
    Ask(Asking(ReqDo, Caller(0), f, LoopTest, 0), Asking(ReqSignal, Caller(0), g, LoopTest, 1));
    Ask(Asking(ReqSignal, Caller(0), g, LoopTest, 1), Asking(ReqUnlock, Caller(0), g, LoopTest, 1));
    var s := Asking(ReqUnlock, Caller(0), g, LoopTest, 1);
    assert s.callers - {0} == map[];
    Onward(s, CallerStep(0, true), State(Locks(Nobody, Nobody), g, LoopTest, map[], Outside, Tickets(1, 0, 0)));
  }

  /** The state of clear at `k`. */
  function Clearing(k: ClearPc, m: Owner, r: Owner, flags: Flags, worker: WorkerPc): State {
    State(Locks(m, r), flags, worker, map[], k, Tickets(1, 0, 0))
  }

  /** Clear stops the worker before it took the request, ... */
  lemma ClearStops()
    ensures Reachable(Clearing(ResetAsyncOk, Nobody, Nobody, Flags(true, true, true, true, false, true), NoThread))
  {
    hide Reachable;
    RequestPending();
    var f := STARTED.(todo := true);
    var g := f.(running := false);
    Onward(State(Locks(Nobody, Nobody), f, LoopTest, map[], Outside, Tickets(1, 0, 0)), ClearCall,
           Clearing(OkTest, Nobody, Nobody, f, LoopTest));
    Onward(Clearing(OkTest, Nobody, Nobody, f, LoopTest), ClearStep, Clearing(StopLock, Nobody, Nobody, f, LoopTest));
    Onward(Clearing(StopLock, Nobody, Nobody, f, LoopTest), ClearStep, Clearing(StopRun, Clearer, Nobody, f, LoopTest));
    Onward(Clearing(StopRun, Clearer, Nobody, f, LoopTest), ClearStep,
           Clearing(StopSignal, Clearer, Nobody, g, LoopTest));
    Onward(Clearing(StopSignal, Clearer, Nobody, g, LoopTest), ClearStep,
           Clearing(StopUnlock, Clearer, Nobody, g, LoopTest));
    Onward(Clearing(StopUnlock, Clearer, Nobody, g, LoopTest), ClearStep, Clearing(Join, Nobody, Nobody, g, LoopTest));
    Onward(Clearing(Join, Nobody, Nobody, g, LoopTest), WorkerStep, Clearing(Join, Nobody, Nobody, g, Exited));
    Onward(Clearing(Join, Nobody, Nobody, g, Exited), ClearStep, Clearing(ResetAsyncOk, Nobody, Nobody, g, NoThread));
  }

  /** ... resets the other flags ... */
  lemma ClearResets()
    ensures Reachable(Clearing(FreeLockM, Nobody, Nobody, Flags(false, false, false, false, false, true), NoThread))
  {
    hide Reachable;
    ClearStops();
    var f := Flags(true, true, true, true, false, true);
    var g := f.(asyncInitOk := false);
    var h := g.(asyncInited := false);
    var k := h.(initOk := false);
    var l := k.(inited := false);
    Onward(Clearing(ResetAsyncOk, Nobody, Nobody, f, NoThread), ClearStep,
           Clearing(ResetAsync, Nobody, Nobody, g, NoThread));
    Onward(Clearing(ResetAsync, Nobody, Nobody, g, NoThread), ClearStep,
           Clearing(ResetInitOk, Nobody, Nobody, h, NoThread));
    Onward(Clearing(ResetInitOk, Nobody, Nobody, h, NoThread), ClearStep,
           Clearing(ResetInit, Nobody, Nobody, k, NoThread));
    Onward(Clearing(ResetInit, Nobody, Nobody, k, NoThread), ClearStep,
           Clearing(FreeLockM, Nobody, Nobody, l, NoThread));
  }

  /** ... and returns: a run in which a request survives a clear, unserved and with its flag set. */
  lemma RequestOutlivesClear() returns (s: State)
    ensures Reachable(s) && s.clear.Outside? && s.callers == map[] && s.worker.NoThread?
    ensures s.flags == Flags(false, false, false, false, false, true) && s.tickets == Tickets(1, 0, 0)
  {
    hide Reachable;
    ClearResets();
    var f := Flags(false, false, false, false, false, true);
    Onward(Clearing(FreeLockM, Nobody, Nobody, f, NoThread), ClearStep,
           Clearing(FreeLockR, Clearer, Nobody, f, NoThread));
    Onward(Clearing(FreeLockR, Clearer, Nobody, f, NoThread), ClearStep,
           Clearing(Freeing, Clearer, Clearer, f, NoThread));
    Onward(Clearing(Freeing, Clearer, Clearer, f, NoThread), ClearStep,
           Clearing(FreeUnlockR, Clearer, Clearer, f, NoThread));
    Onward(Clearing(FreeUnlockR, Clearer, Clearer, f, NoThread), ClearStep,
           Clearing(FreeUnlockM, Clearer, Nobody, f, NoThread));
    Onward(Clearing(FreeUnlockM, Clearer, Nobody, f, NoThread), ClearStep,
           Clearing(Outside, Nobody, Nobody, f, NoThread));
    s := Clearing(Outside, Nobody, Nobody, f, NoThread);
  }
}
