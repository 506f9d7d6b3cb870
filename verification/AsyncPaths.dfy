/** What the calls of `xh_core.c` do from their start to their return, whatever the other threads do meanwhile. */
module AsyncPaths {
  import opened AsyncRefresh
  import AsyncLiveness

  /** Step `k` of the run is a step of caller `id`. */
  predicate Acts(actions: seq<Action>, k: nat, id: nat) {
    k < |actions| && actions[k].CallerStep? && actions[k].id == id
  }

  predicate Returned(s: State, id: nat) { id !in s.callers }

  /** Step `k` is the return of a caller that found no initialised core, ... */
  ghost predicate Refused(states: seq<State>, actions: seq<Action>, k: nat, id: nat) {
    k + 1 < |states| && Acts(actions, k, id) && !states[k].flags.initOk && Returned(states[k + 1], id)
  }

  /** ... or no worker. */
  ghost predicate RefusedAsync(states: seq<State>, actions: seq<Action>, k: nat, id: nat) {
    k + 1 < |states| && Acts(actions, k, id) && !states[k].flags.asyncInitOk && Returned(states[k + 1], id)
  }

  /** Nobody else changes where a caller is. */
  lemma OthersSpare(s: State, a: Action, id: nat)
    requires Enabled(s, a) && id in s.callers && !(a.CallerStep? && a.id == id)
    ensures id in Apply(s, a).callers && Apply(s, a).callers[id] == s.callers[id]
  {
    if a.CallerStep? { OtherCaller(s, a.id, a.ok, id); }
  }

  lemma OtherCaller(s: State, id: nat, ok: bool, other: nat)
    requires CallerReady(s, id) && other in s.callers && other != id
    ensures other in CallerNext(s, id, ok).callers && CallerNext(s, id, ok).callers[other] == s.callers[other]
  {
  }

  // ---------------------------------------------------------------- single steps

  /** Who takes a step. */
  function Actor(a: Action): Owner {
    match a
    case WorkerStep | SpuriousWake => Worker
    case Call(id, _) => Caller(id)
    case CallerStep(id, _) => Caller(id)
    case ClearCall | ClearStep => Clearer
  }

  predicate Passes(from: Owner, to: Owner, actor: Owner) {
    from == to || (from == Nobody && to == actor) || (from == actor && to == Nobody)
  }

  /** A mutex is taken only when nobody holds it, by the thread that steps, and given back only by its holder. */
  lemma MutexPasses(s: State, a: Action)
    requires Enabled(s, a)
    ensures s.locks.m == Apply(s, a).locks.m || s.locks.m == Nobody || Apply(s, a).locks.m == Nobody
    ensures s.locks.r == Apply(s, a).locks.r || s.locks.r == Nobody || Apply(s, a).locks.r == Nobody
    ensures Inv(s) ==>
      Passes(s.locks.m, Apply(s, a).locks.m, Actor(a)) && Passes(s.locks.r, Apply(s, a).locks.r, Actor(a))
  {
    match a {
      case CallerStep(id, ok) =>
        assert Inv(s) ==> CallerFits(s, id);
        hide Inv;
        CallerMutex(s, id, ok);
      case WorkerStep => WorkerMutex(s);
      case ClearStep => ClearMutex(s);
      case _ =>
    }
  }

  lemma CallerMutex(s: State, id: nat, ok: bool)
    requires CallerReady(s, id)
    ensures var t := CallerNext(s, id, ok);
      && (s.locks.m == t.locks.m || s.locks.m == Nobody || t.locks.m == Nobody)
      && (s.locks.r == t.locks.r || s.locks.r == Nobody || t.locks.r == Nobody)
      && (CallerFits(s, id) ==>
            Passes(s.locks.m, t.locks.m, Caller(id)) && Passes(s.locks.r, t.locks.r, Caller(id)))
  {
  }

  lemma WorkerMutex(s: State)
    requires WorkerReady(s)
    ensures var t := WorkerNext(s);
      && (s.locks.m == t.locks.m || s.locks.m == Nobody || t.locks.m == Nobody)
      && (s.locks.r == t.locks.r || s.locks.r == Nobody || t.locks.r == Nobody)
      && (Mutexes(s) ==> Passes(s.locks.m, t.locks.m, Worker) && Passes(s.locks.r, t.locks.r, Worker))
  {
  }

  lemma ClearMutex(s: State)
    requires ClearReady(s)
    ensures var t := ClearNext(s);
      && (s.locks.m == t.locks.m || s.locks.m == Nobody || t.locks.m == Nobody)
      && (s.locks.r == t.locks.r || s.locks.r == Nobody || t.locks.r == Nobody)
      && (Mutexes(s) ==> Passes(s.locks.m, t.locks.m, Clearer) && Passes(s.locks.r, t.locks.r, Clearer))
  {
  }

  /** Every step of a thread takes it to another statement. */
  lemma StepMoves(s: State, a: Action)
    requires Enabled(s, a)
    ensures a.WorkerStep? || a.SpuriousWake? ==> Apply(s, a).worker != s.worker
    ensures a.ClearStep? ==> Apply(s, a).clear != s.clear
    ensures a.CallerStep? && a.id in Apply(s, a).callers ==> Apply(s, a).callers[a.id] != s.callers[a.id]
  {
  }

  // ---------------------------------------------------------------- synchronous and asynchronous refreshes

  /** A synchronous caller that has not refreshed yet. */
  predicate BeforeRefresh(s: State, id: nat) {
    id in s.callers && !s.callers[id].isAsync && (Initing(s.callers[id].pc) || s.callers[id].pc.SyncLock?)
  }

  lemma SyncStep(s: State, id: nat, ok: bool)
    requires BeforeRefresh(s, id) && CallerReady(s, id)
    ensures var t := CallerNext(s, id, ok);
      || BeforeRefresh(t, id)
      || (InRefresh(t, Caller(id)) && t.locks.r == Caller(id))
      || (Returned(t, id) && !s.flags.initOk)
  {
  }

  /** A synchronous refresh that returns was in `xh_core_refresh_impl` with the mutex for it, unless it was refused. */
  lemma {:induction false} SyncRefreshes(states: seq<State>, actions: seq<Action>, id: nat, from: nat) returns (k: nat)
    requires IsRun(states, actions) && from <= |actions| && BeforeRefresh(states[from], id)
    requires Returned(states[|actions|], id)
    ensures from <= k <= |actions|
    ensures Refused(states, actions, k, id) || (InRefresh(states[k], Caller(id)) && states[k].locks.r == Caller(id))
    decreases |actions| - from
  {
    assert from < |actions|;
    hide Enabled, Apply, InRefresh;
    var s, a := states[from], actions[from];
    assert Enabled(s, a) && states[from + 1] == Apply(s, a);
    if Acts(actions, from, id) {
      CallerStepIs(s, a);
      SyncStep(s, id, a.ok);
      hide BeforeRefresh;
      if BeforeRefresh(states[from + 1], id) {
        k := SyncRefreshes(states, actions, id, from + 1);
      } else {
        k := if Returned(states[from + 1], id) then from else from + 1;
      }
    } else {
      OthersSpare(s, a, id);
      k := SyncRefreshes(states, actions, id, from + 1);
    }
  }

  lemma CallerStepIs(s: State, a: Action)
    requires Enabled(s, a) && a.CallerStep?
    ensures CallerReady(s, a.id) && Apply(s, a) == CallerNext(s, a.id, a.ok)
  {
  }

  /** An asynchronous caller that has not made its request yet. */
  predicate BeforeRequest(s: State, id: nat) {
    && id in s.callers && s.callers[id].isAsync
    && (!Requesting(s.callers[id].pc) || s.callers[id].pc.ReqLock? || s.callers[id].pc.ReqDo?)
  }

  /** The step from `s` to `t` counts one more request and sets the flag for it. */
  predicate Requests(s: State, t: State) {
    t.tickets.requests == s.tickets.requests + 1 && t.flags.todo
  }

  lemma AsyncStep(s: State, id: nat, ok: bool)
    requires BeforeRequest(s, id) && CallerReady(s, id)
    ensures var t := CallerNext(s, id, ok);
      || BeforeRequest(t, id)
      || (Requests(s, t) && !Returned(t, id))
      || (Returned(t, id) && (!s.flags.initOk || !s.flags.asyncInitOk))
  {
  }

  /** An asynchronous refresh that returns made a request before, unless it was refused. */
  lemma {:induction false} AsyncRequests(states: seq<State>, actions: seq<Action>, id: nat, from: nat) returns (k: nat)
    requires IsRun(states, actions) && from <= |actions| && BeforeRequest(states[from], id)
    requires Returned(states[|actions|], id)
    ensures from <= k < |actions| && Acts(actions, k, id)
    ensures || Refused(states, actions, k, id) || RefusedAsync(states, actions, k, id)
            || Requests(states[k], states[k + 1])
    decreases |actions| - from
  {
    assert from < |actions|;
    hide Enabled, Apply, Requests;
    var s, a := states[from], actions[from];
    assert Enabled(s, a) && states[from + 1] == Apply(s, a);
    if Acts(actions, from, id) {
      CallerStepIs(s, a);
      AsyncStep(s, id, a.ok);
      hide BeforeRequest;
      if BeforeRequest(states[from + 1], id) {
        k := AsyncRequests(states, actions, id, from + 1);
      } else {
        k := from;
      }
    } else {
      OthersSpare(s, a, id);
      k := AsyncRequests(states, actions, id, from + 1);
    }
  }

  /** Where a caller of either kind can be: a synchronous one makes no request, an asynchronous one does not refresh. */
  predicate OfKind(s: State, id: nat) {
    id in s.callers &&
    var c := s.callers[id];
    && (c.isAsync ==> !(c.pc.SyncLock? || c.pc.SyncImpl? || c.pc.SyncUnlock?))
    && (!c.isAsync ==> Initing(c.pc) || c.pc.SyncLock? || c.pc.SyncImpl? || c.pc.SyncUnlock?)
  }

  lemma KindStep(s: State, id: nat, ok: bool)
    requires OfKind(s, id) && CallerReady(s, id)
    ensures var t := CallerNext(s, id, ok);
      Returned(t, id) || (OfKind(t, id) && t.callers[id].isAsync == s.callers[id].isAsync)
  {
  }

  lemma {:induction false} KindKept(states: seq<State>, actions: seq<Action>, id: nat, from: nat, k: nat)
    requires IsRun(states, actions) && from <= k < |states| && OfKind(states[from], id)
    requires forall j :: from <= j <= k ==> !Returned(states[j], id)
    ensures OfKind(states[k], id) && states[k].callers[id].isAsync == states[from].callers[id].isAsync
    decreases k - from
  {
    hide Enabled, Apply, OfKind, CallerNext;
    if k > from {
      KindKept(states, actions, id, from, k - 1);
      assert !Returned(states[k], id);
      var s, a := states[k - 1], actions[k - 1];
      assert Enabled(s, a) && states[k] == Apply(s, a);
      if Acts(actions, k - 1, id) {
        CallerStepIs(s, a);
        KindStep(s, id, a.ok);
      } else {
        OthersSpare(s, a, id);
        SameKind(s, states[k], id);
      }
    }
  }

  lemma SameKind(s: State, t: State, id: nat)
    requires OfKind(s, id) && id in t.callers && t.callers[id] == s.callers[id]
    ensures OfKind(t, id)
  {
  }

  // ---------------------------------------------------------------- initialisation happens once

  predicate At(s: State, id: nat, pc: CallerPc) {
    id in s.callers && s.callers[id].pc == pc
  }

  /** The first initialisation is over, ... */
  ghost predicate Settled(s: State) {
    s.clear.Outside? && s.flags.inited && forall id :: !At(s, id, InitHandler)
  }

  /** ... and the second. */
  ghost predicate SettledAsync(s: State) {
    s.clear.Outside? && s.flags.asyncInited && forall id :: !At(s, id, AsyncRun) && !At(s, id, AsyncCreate)
  }

  /** Where a caller goes next, and what it does to the flags and the worker. */
  lemma InitPart(s: State, id: nat, ok: bool)
    requires CallerReady(s, id) && Initing(s.callers[id].pc)
    ensures var t := InitNext(s, id, ok);
      && t.clear == s.clear && t.worker == s.worker
      && t.flags == s.flags.(inited := t.flags.inited, initOk := t.flags.initOk)
      && (s.flags.inited ==> t.flags.inited && !At(t, id, InitHandler))
      && !At(t, id, AsyncRun) && !At(t, id, AsyncCreate)
      && (t.flags.initOk && !s.flags.initOk ==> ok && At(s, id, InitHandler))
  {
  }

  lemma AsyncPart(s: State, id: nat, ok: bool)
    requires CallerReady(s, id) && !Initing(s.callers[id].pc) && !Requesting(s.callers[id].pc)
    ensures var t := AsyncInitNext(s, id, ok);
      && t.clear == s.clear && t.flags.inited == s.flags.inited && t.flags.initOk == s.flags.initOk
      && (s.flags.asyncInited ==> t.flags.asyncInited) && !At(t, id, InitHandler)
      && (s.flags.asyncInited && !At(s, id, AsyncRun) ==> !At(t, id, AsyncRun) && !At(t, id, AsyncCreate))
      && (t.worker != s.worker ==> ok && At(s, id, AsyncCreate) && t.worker.LoopTest?)
      && (t.flags.asyncInitOk && !s.flags.asyncInitOk ==> At(s, id, AsyncOk))
  {
  }

  lemma RequestPart(s: State, id: nat)
    requires CallerReady(s, id) && Requesting(s.callers[id].pc)
    ensures var t := RequestNext(s, id);
      && t.clear == s.clear && t.flags == s.flags.(todo := t.flags.todo)
      && (t.worker == s.worker || (s.worker.Asleep? && t.worker.Woken?))
      && !At(t, id, InitHandler) && !At(t, id, AsyncRun) && !At(t, id, AsyncCreate)
  {
  }

  lemma SelfSettles(s: State, id: nat, ok: bool)
    requires CallerReady(s, id)
    ensures var t := CallerNext(s, id, ok);
      && t.clear == s.clear
      && (s.flags.inited ==> t.flags.inited && !At(t, id, InitHandler))
      && (s.flags.asyncInited ==> t.flags.asyncInited)
      && (s.flags.asyncInited && !At(s, id, AsyncRun) ==> !At(t, id, AsyncRun) && !At(t, id, AsyncCreate))
  {
    hide InitNext, AsyncInitNext, RequestNext, Initing, Requesting, At;
    if Initing(s.callers[id].pc) { InitPart(s, id, ok); }
    else if Requesting(s.callers[id].pc) { RequestPart(s, id); }
    else { AsyncPart(s, id, ok); }
  }

  lemma StaysSettled(s: State, a: Action)
    requires Enabled(s, a) && !a.ClearCall?
    ensures Settled(s) ==> Settled(Apply(s, a))
    ensures SettledAsync(s) ==> SettledAsync(Apply(s, a))
  {
    var t := Apply(s, a);
    if s.clear.Outside? {
      match a {
        case CallerStep(id, ok) =>
          CallerSettled(s, id, ok);
        case WorkerStep =>
          WorkerSpares(s);
          SameCallers(s, t);
        case SpuriousWake =>
          SameCallers(s, t);
        case Call(id, isAsync) =>
          CallSpares(s, id, isAsync);
        case _ =>
      }
    }
  }

  lemma SameCallers(s: State, t: State)
    requires t.callers == s.callers
    ensures forall id, pc :: At(t, id, pc) == At(s, id, pc)
  {
  }

  lemma CallSpares(s: State, id: nat, isAsync: bool)
    ensures var t := s.(callers := s.callers[id := CallerState(InitTest, isAsync)]);
      forall other, pc :: At(t, other, pc) ==> At(s, other, pc) || pc.InitTest?
  {
  }

  lemma WorkerSpares(s: State)
    requires WorkerReady(s)
    ensures var t := WorkerNext(s);
      t.callers == s.callers && t.clear == s.clear && t.flags == s.flags.(todo := t.flags.todo)
  {
  }

  lemma CallerSettled(s: State, id: nat, ok: bool)
    requires CallerReady(s, id) && s.clear.Outside?
    ensures Settled(s) ==> Settled(CallerNext(s, id, ok))
    ensures SettledAsync(s) ==> SettledAsync(CallerNext(s, id, ok))
  {
    hide CallerNext, CallerReady;
    SelfSettles(s, id, ok);
    var t := CallerNext(s, id, ok);
    forall other, pc | other != id && At(t, other, pc) ensures At(s, other, pc) {
      OthersOnly(s, id, ok, other);
    }
  }

  lemma OthersOnly(s: State, id: nat, ok: bool, other: nat)
    requires CallerReady(s, id) && other != id && other in CallerNext(s, id, ok).callers
    ensures other in s.callers && CallerNext(s, id, ok).callers[other] == s.callers[other]
  {
  }

  lemma HandlerSettles(s: State, id: nat, ok: bool)
    requires Inv(s) && CallerReady(s, id)
    ensures At(s, id, InitHandler) ==> Settled(CallerNext(s, id, ok))
    ensures At(s, id, AsyncCreate) ==> SettledAsync(CallerNext(s, id, ok))
  {
    assert CallerFits(s, id);
    var t := CallerNext(s, id, ok);
    if At(s, id, InitHandler) || At(s, id, AsyncCreate) {
      SelfSettles(s, id, ok);
      forall other | other != id && other in t.callers
        ensures !At(t, other, InitHandler) && !At(t, other, AsyncRun) && !At(t, other, AsyncCreate)
      {
        assert CallerFits(s, other);
        OthersOnly(s, id, ok, other);
      }
    }
  }

  lemma {:induction false} RunSettled(states: seq<State>, actions: seq<Action>, i: nat, j: nat)
    requires IsRun(states, actions) && ClearFree(actions) && i <= j < |states|
    ensures Settled(states[i]) ==> Settled(states[j])
    ensures SettledAsync(states[i]) ==> SettledAsync(states[j])
    decreases j - i
  {
    hide Settled, SettledAsync, Enabled, Apply;
    if i < j {
      RunSettled(states, actions, i, j - 1);
      StaysSettled(states[j - 1], actions[j - 1]);
    }
  }

  /** Between two clears the signal handler is registered at most once, and a worker is created at most once. */
  lemma InitOnce(states: seq<State>, actions: seq<Action>, i: nat, j: nat, id: nat, other: nat)
    requires IsRun(states, actions) && Inv(states[0]) && ClearFree(actions) && i < j
    requires Acts(actions, i, id) && Acts(actions, j, other)
    ensures !(At(states[i], id, InitHandler) && At(states[j], other, InitHandler))
    ensures !(At(states[i], id, AsyncCreate) && At(states[j], other, AsyncCreate))
  {
    hide Inv, Apply, Settled, SettledAsync, At;
    RunKeeps(states, actions, i);
    CallerStepIs(states[i], actions[i]);
    HandlerSettles(states[i], id, actions[i].ok);
    RunSettled(states, actions, i + 1, j);
    NotSettled(states[j], other);
  }

  lemma NotSettled(s: State, id: nat)
    ensures At(s, id, InitHandler) ==> !Settled(s)
    ensures At(s, id, AsyncCreate) ==> !SettledAsync(s)
  {
  }

  /** The core counts as initialised, and there is a worker, only after a system call that succeeded; a worker is
      given up only when it has ended. */
  lemma OutcomesCount(s: State, a: Action)
    requires Inv(s) && Enabled(s, a)
    ensures var t := Apply(s, a);
      && (t.flags.initOk && !s.flags.initOk ==> a.CallerStep? && a.ok && At(s, a.id, InitHandler))
      && (t.flags.asyncInitOk && !s.flags.asyncInitOk ==> a.CallerStep? && !t.worker.NoThread?)
      && (s.worker.NoThread? && !t.worker.NoThread? ==> a.CallerStep? && a.ok && At(s, a.id, AsyncCreate))
      && (!s.worker.NoThread? && t.worker.NoThread? ==> a.ClearStep? && s.worker.Exited?)
  {
    if a.CallerStep? {
      assert CallerFits(s, a.id);
      hide Inv;
      CallerOutcome(s, a.id, a.ok);
      CallerStepIs(s, a);
      hide Apply, CallerNext, CallerFits;
    } else {
      hide Inv, CallerNext, CallerFits, At;
    }
  }

  lemma CallerOutcome(s: State, id: nat, ok: bool)
    requires CallerReady(s, id) && CallerFits(s, id)
    ensures var t := CallerNext(s, id, ok);
      && (t.flags.initOk && !s.flags.initOk ==> ok && At(s, id, InitHandler))
      && (t.flags.asyncInitOk && !s.flags.asyncInitOk ==> !t.worker.NoThread?)
      && (s.worker.NoThread? && !t.worker.NoThread? ==> ok && At(s, id, AsyncCreate))
      && (!s.worker.NoThread? ==> !t.worker.NoThread?)
  {
    assert At(s, id, AsyncOk) ==> !s.worker.NoThread?;
    hide InitNext, AsyncInitNext, RequestNext, Initing, Requesting, At, CallerFits;
    if Initing(s.callers[id].pc) { InitPart(s, id, ok); }
    else if Requesting(s.callers[id].pc) { RequestPart(s, id); }
    else { AsyncPart(s, id, ok); }
  }

  // ---------------------------------------------------------------- the worker comes to rest

  /** Steps of a worker without a request until it sleeps or ends. */
  function IdleRank(w: WorkerPc): nat {
    match w
    case UnlockTaken => 10
    case LockR => 9
    case Impl => 8
    case UnlockR => 7
    case LoopTest => 6
    case LockM | Woken => 5
    case WaitTest => 4
    case RunTest => 3
    case UnlockBreak => 2
    case _ => 0
  }

  /** A worker without a request sleeps or ends after at most ten steps of its own. */
  lemma {:induction false} WorkerRests(states: seq<State>, actions: seq<Action>)
    requires IsRun(states, actions) && Inv(states[0]) && !states[0].flags.todo
    requires forall i :: 0 <= i < |actions| ==> actions[i].WorkerStep?
    ensures |actions| + IdleRank(states[|actions|].worker) <= IdleRank(states[0].worker) <= 10
    ensures !states[|actions|].flags.todo
  {
    hide Inv, Enabled, Apply;
    var n := |actions|;
    if n > 0 {
      WorkerRests(states[..n], actions[..n - 1]);
      RunKeeps(states, actions, n - 1);
      assert actions[n - 1].WorkerStep?;
      RestStep(states[n - 1]);
    }
  }

  lemma RestStep(s: State)
    requires Inv(s) && Enabled(s, WorkerStep) && !s.flags.todo
    ensures IdleRank(Apply(s, WorkerStep).worker) < IdleRank(s.worker) && !Apply(s, WorkerStep).flags.todo
  {
  }

  /** Steps of a worker that has to stop until it has ended. */
  function StopRank(w: WorkerPc): nat {
    match w
    case UnlockTaken | Asleep => 5
    case LockR | LockM | Woken => 4
    case Impl | WaitTest => 3
    case UnlockR | RunTest => 2
    case LoopTest | UnlockBreak => 1
    case _ => 0
  }

  /** Once the running flag is reset each step of the worker brings its end nearer, and nobody puts that off; so
      clear waits for at most five steps of the worker. */
  lemma WorkerStops(s: State, a: Action)
    requires Inv(s) && Enabled(s, a) && !s.worker.NoThread? && !s.flags.running
    ensures var t := Apply(s, a);
      && StopRank(s.worker) <= 5 && StopRank(t.worker) <= StopRank(s.worker)
      && (a.WorkerStep? ==> StopRank(t.worker) < StopRank(s.worker))
      && (!t.worker.NoThread? ==> !t.flags.running)
  {
    if a.CallerStep? {
      assert CallerFits(s, a.id);
      CallerFrame(s, a.id, a.ok);
    }
  }

  // ---------------------------------------------------------------- clear

  /** The running flag is set only for a worker, or by the caller that creates one. */
  predicate RunningFits(s: State) {
    s.flags.running ==>
      || s.flags.asyncInitOk
      || (s.locks.m.Caller? && (At(s, s.locks.m.id, AsyncCreate) || At(s, s.locks.m.id, AsyncOk)))
  }

  /** What clear has reset so far. */
  predicate ResetSoFar(s: State) {
    var k := s.clear;
    var last := k.FreeLockM? || k.FreeLockR? || k.Freeing? || k.FreeUnlockR? || k.FreeUnlockM?;
    && (k.StopSignal? || k.StopUnlock? || k.Join? || k.ResetAsyncOk? ==> !s.flags.running)
    && (last || k.ResetInit? || k.ResetInitOk? || k.ResetAsync? ==> !s.flags.asyncInitOk)
    && (last || k.ResetInit? || k.ResetInitOk? ==> !s.flags.asyncInited)
    && (last || k.ResetInit? ==> !s.flags.initOk)
    && (last ==> !s.flags.inited)
  }

  lemma CallerRunning(s: State, id: nat, ok: bool)
    requires CallerReady(s, id) && CallerFits(s, id) && RunningFits(s)
    requires s.locks.m.Caller? ==> s.locks.m.id in s.callers
    ensures RunningFits(CallerNext(s, id, ok)) && CallerNext(s, id, ok).clear.Outside?
  {
    var m := s.locks.m;
    if m.Caller? && m.id != id { AsyncLiveness.OtherStep(s, id, ok, m.id); }
  }

  lemma ResetKept(s: State, a: Action)
    requires Inv(s) && Enabled(s, a) && RunningFits(s) && ResetSoFar(s)
    ensures RunningFits(Apply(s, a)) && ResetSoFar(Apply(s, a))
  {
    match a {
      case CallerStep(id, ok) =>
        assert CallerFits(s, id);
        assert s.locks.m.Caller? ==> CallerFits(s, s.locks.m.id);
        CallerRunning(s, id, ok);
      case WorkerStep => WorkerReset(s);
      case ClearStep => ClearReset(s);
      case _ =>
    }
  }

  lemma WorkerReset(s: State)
    requires Inv(s) && WorkerReady(s) && RunningFits(s) && ResetSoFar(s)
    ensures RunningFits(WorkerNext(s)) && ResetSoFar(WorkerNext(s))
  {
  }

  lemma ClearReset(s: State)
    requires Inv(s) && ClearReady(s) && RunningFits(s) && ResetSoFar(s)
    ensures RunningFits(ClearNext(s)) && ResetSoFar(ClearNext(s))
  {
  }

  lemma {:induction false} RunReset(states: seq<State>, actions: seq<Action>, k: nat)
    requires IsRun(states, actions) && states[0] == INITIAL && k < |states|
    ensures Inv(states[k]) && RunningFits(states[k]) && ResetSoFar(states[k])
  {
    hide Inv, Enabled, Apply, RunningFits, ResetSoFar;
    InitialInv();
    RunKeeps(states, actions, k);
    if k == 0 {
      InitialReset();
    } else {
      RunReset(states, actions, k - 1);
      ResetKept(states[k - 1], actions[k - 1]);
    }
  }

  lemma InitialReset()
    ensures RunningFits(INITIAL) && ResetSoFar(INITIAL)
  {
  }

  /** When clear returns everything is as it was at the start, but for the requests made and the flag for them. */
  lemma ClearRestores(s: State)
    requires Reachable(s) && s.clear.FreeUnlockM?
    ensures Enabled(s, ClearStep)
    ensures Apply(s, ClearStep) ==
      State(Locks(Nobody, Nobody), Flags(false, false, false, false, false, s.flags.todo),
            NoThread, map[], Outside, s.tickets)
    ensures Apply(s, ClearStep) == INITIAL.(flags := INITIAL.flags.(todo := s.flags.todo), tickets := s.tickets)
  {
    var states, actions :| IsRun(states, actions) && states[0] == INITIAL && states[|actions|] == s;
    RunReset(states, actions, |actions|);
    assert s.locks.r.Caller? ==> CallerFits(s, s.locks.r.id);
  }

  /** Clear changes neither the requests nor the flag for them. */
  lemma ClearSpares(s: State)
    requires ClearReady(s)
    ensures ClearNext(s).tickets == s.tickets && ClearNext(s).flags.todo == s.flags.todo
    ensures ClearNext(s).callers == s.callers
  {
  }

  predicate BeforeFreeing(k: ClearPc) {
    !k.Outside? && !k.Freeing? && !k.FreeUnlockR? && !k.FreeUnlockM?
  }

  lemma FreeingStep(s: State, a: Action)
    requires Enabled(s, a) && BeforeFreeing(s.clear)
    ensures var t := Apply(s, a);
      BeforeFreeing(t.clear) || InRefresh(t, Clearer)
  {
    if a.CallerStep? { SelfSettles(s, a.id, a.ok); }
  }

  /** A clear that returns has freed the map with both mutexes held. */
  lemma {:induction false} ClearFrees(states: seq<State>, actions: seq<Action>, from: nat) returns (k: nat)
    requires IsRun(states, actions) && Inv(states[0]) && from <= |actions| && BeforeFreeing(states[from].clear)
    requires states[|actions|].clear.Outside?
    ensures from < k <= |actions| && InRefresh(states[k], Clearer) && states[k].locks == Locks(Clearer, Clearer)
    decreases |actions| - from
  {
    hide Enabled, Apply;
    var s, a := states[from], actions[from];
    assert Enabled(s, a) && states[from + 1] == Apply(s, a);
    FreeingStep(s, a);
    if BeforeFreeing(states[from + 1].clear) {
      k := ClearFrees(states, actions, from + 1);
    } else {
      k := from + 1;
      RunKeeps(states, actions, k);
    }
  }
}
