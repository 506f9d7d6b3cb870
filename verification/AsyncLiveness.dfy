/** Infinite runs of the threads of `xh_core.c`: under a fair scheduler every asynchronous request is served. */
module AsyncLiveness {
  import opened AsyncRefresh

  type Run = nat -> State

  type Schedule = nat -> Action

  ghost predicate Follows(run: Run, act: Schedule, i: nat) {
    Enabled(run(i), act(i)) && run(i + 1) == Apply(run(i), act(i))
  }

  ghost predicate Infinite(run: Run, act: Schedule) {
    run(0) == INITIAL && forall i: nat :: Follows(run, act, i)
  }

  predicate Acts(act: Schedule, i: nat, id: nat) {
    act(i).CallerStep? && act(i).id == id
  }

  /** A caller that holds a mutex takes its next step at some time. */
  ghost predicate HoldersFair(run: Run, act: Schedule) {
    forall k: nat, id: nat :: Caller(id) in {run(k).locks.m, run(k).locks.r} ==>
      exists i: nat :: i >= k && Acts(act, i, id)
  }

  ghost predicate ReadyAfter(run: Run, k: nat) {
    exists i: nat :: i >= k && WorkerReady(run(i))
  }

  ghost predicate WorkerActsAfter(act: Schedule, k: nat) {
    exists i: nat :: i >= k && act(i).WorkerStep?
  }

  /** A worker that can step again and again does so at some time. */
  ghost predicate WorkerFair(run: Run, act: Schedule) {
    forall k: nat :: (forall j: nat :: j >= k ==> ReadyAfter(run, j)) ==> WorkerActsAfter(act, k)
  }

  ghost predicate ClearFreeFrom(act: Schedule, k: nat) {
    forall i: nat :: i >= k ==> !act(i).ClearCall?
  }

  // ---------------------------------------------------------------- one step

  /** Steps the caller still takes before it releases the mutex it holds. */
  function ToUnlock(c: CallerPc): nat {
    match c
    case AsyncTest2 => 5
    case AsyncRun => 4
    case InitTest2 | AsyncCreate | ReqDo => 3
    case InitHandler | AsyncOk | ReqSignal | SyncImpl => 2
    case InitUnlock | AsyncUnlock | ReqUnlock | SyncUnlock => 1
    case _ => 0
  }

  function Left(s: State): nat {
    var b := Blocker(s);
    if b.Caller? && b.id in s.callers then ToUnlock(s.callers[b.id].pc) else 0
  }

  /** Only the worker can end the waiting for request `n`. */
  lemma PendingStep(s: State, a: Action, n: nat)
    requires Pending(s, n) && Enabled(s, a) && !a.ClearCall?
    ensures var t := Apply(s, a); Inv(t) && t.clear.Outside? && !t.worker.NoThread? && n <= t.tickets.requests
    ensures !a.WorkerStep? ==> Pending(Apply(s, a), n)
  {
    hide Inv, Rank;
    StepKeeps(s, a);
    RankStep(s, a, n);
    WorkerStays(s, a);
    UnservedStep(s, a, n);
  }

  lemma WorkerStays(s: State, a: Action)
    requires Inv(s) && Enabled(s, a) && s.clear.Outside? && !s.worker.NoThread?
    ensures !Apply(s, a).worker.NoThread?
  {
    if a.CallerStep? {
      assert CallerFits(s, a.id);
      CallerFrame(s, a.id, a.ok);
    }
  }

  lemma UnservedStep(s: State, a: Action, n: nat)
    requires Unserved(s, n) && Enabled(s, a) && !a.ClearCall?
    ensures !a.WorkerStep? ==> Unserved(Apply(s, a), n)
  {
    hide Inv, Rank;
    StepKeeps(s, a);
    RankStep(s, a, n);
    if !a.WorkerStep? { ServedStep(s, a); }
  }

  /** A step of a caller that holds a mutex brings its unlock nearer, or is the unlock. */
  lemma OwnStep(s: State, id: nat, ok: bool)
    requires CallerReady(s, id) && CallerFits(s, id)
    requires CallerHoldsM(s.callers[id].pc) || CallerHoldsR(s.callers[id].pc)
    ensures var t := CallerNext(s, id, ok);
      if ToUnlock(s.callers[id].pc) > 1
      then t.locks == s.locks && id in t.callers && ToUnlock(t.callers[id].pc) < ToUnlock(s.callers[id].pc)
      else t.locks == if s.locks.m == Caller(id) then s.locks.(m := Nobody) else s.locks.(r := Nobody)
  {
    hide CallerFits;
    HeldLocks(s, id);
  }

  lemma HeldLocks(s: State, id: nat)
    requires id in s.callers && CallerFits(s, id)
    ensures CallerHoldsM(s.callers[id].pc) <==> s.locks.m == Caller(id)
    ensures CallerHoldsR(s.callers[id].pc) <==> s.locks.r == Caller(id)
  {
  }

  /** Nobody else touches a mutex that is held. */
  lemma OtherStep(s: State, id: nat, ok: bool, other: nat)
    requires CallerReady(s, id) && CallerFits(s, id) && other in s.callers && id != other
    ensures var t := CallerNext(s, id, ok);
      && other in t.callers && t.callers[other] == s.callers[other]
      && (s.locks.m == Caller(other) ==> t.locks.m == s.locks.m)
      && (s.locks.r == Caller(other) ==> t.locks.r == s.locks.r)
  {
  }

  /** Where the worker waits: for a mutex that a caller holds, or for the signal that caller is about to send. */
  lemma Blocked(s: State, n: nat)
    requires Pending(s, n) && !WorkerReady(s)
    ensures s.worker.LockR? || s.worker.LockM? || s.worker.Woken? || s.worker.Asleep?
    ensures Blocker(s).Caller? && Blocker(s).id in s.callers && Left(s) > 0
    ensures s.worker.Asleep? ==> s.callers[Blocker(s).id].pc.ReqSignal?
    ensures CallerHoldsM(s.callers[Blocker(s).id].pc) || CallerHoldsR(s.callers[Blocker(s).id].pc)
  {
    PendingProgress(s, n);
    assert CallerFits(s, Blocker(s).id);
  }

  /** A step of the blocking caller brings the unlock nearer, no other step puts it off. */
  lemma BlockerStep(s: State, a: Action, n: nat)
    requires Pending(s, n) && !WorkerReady(s) && Enabled(s, a) && !a.ClearCall?
    ensures var t := Apply(s, a);
      || WorkerReady(t)
      || (Blocker(t) == Blocker(s) && Left(t) <= Left(s) &&
           (a.CallerStep? && Caller(a.id) == Blocker(s) ==> Left(t) < Left(s)))
  {
    Blocked(s, n);
    var b := Blocker(s).id;
    assert CallerFits(s, b);
    HeldLocks(s, b);
    if a.CallerStep? {
      assert CallerFits(s, a.id);
      CallerFrame(s, a.id, a.ok);
      if a.id == b { OwnStep(s, b, a.ok); } else { OtherStep(s, a.id, a.ok, b); }
      hide CallerNext, Inv, CallerFits;
      assert Apply(s, a) == CallerNext(s, a.id, a.ok);
    } else {
      assert a.SpuriousWake? || a.Call?;
    }
  }

  // ---------------------------------------------------------------- infinite runs

  lemma {:induction false} RunInv(run: Run, act: Schedule, k: nat)
    requires Infinite(run, act)
    ensures Inv(run(k))
  {
    if k == 0 {
      InitialInv();
    } else {
      RunInv(run, act, k - 1);
      assert Follows(run, act, k - 1);
      StepKeeps(run(k - 1), act(k - 1));
    }
  }

  /** While the worker does not step, the request stays pending and its refresh is not put off. */
  lemma {:induction false} PendingStays(run: Run, act: Schedule, n: nat, k: nat, j: nat)
    requires Infinite(run, act) && ClearFreeFrom(act, k) && Pending(run(k), n) && k <= j
    requires forall i: nat :: k <= i < j ==> !act(i).WorkerStep?
    ensures Pending(run(j), n) && Rank(run(j), n) <= Rank(run(k), n)
  {
    hide Inv, Rank, Enabled, Apply;
    if k < j {
      PendingStays(run, act, n, k, j - 1);
      assert Follows(run, act, j - 1);
      assert !act(j - 1).WorkerStep?;
      PendingStep(run(j - 1), act(j - 1), n);
      RankStep(run(j - 1), act(j - 1), n);
    }
  }

  /** A waiting worker can step at the latest when the caller that blocks it has unlocked. */
  lemma {:induction false} ReadyBy(run: Run, act: Schedule, n: nat, k: nat, i: nat)
    requires Infinite(run, act) && ClearFreeFrom(act, k) && HoldersFair(run, act) && Pending(run(k), n)
    requires forall j: nat :: k <= j ==> !act(j).WorkerStep?
    requires !WorkerReady(run(k)) ==> Blocker(run(k)).Caller? && k <= i && Acts(act, i, Blocker(run(k)).id)
    ensures ReadyAfter(run, k)
    decreases Left(run(k)), if k <= i then i - k else 0
  {
    hide Inv, Enabled, Apply, WorkerReady, Left;
    if !WorkerReady(run(k)) {
      var b := Blocker(run(k)).id;
      assert Follows(run, act, k);
      BlockerStep(run(k), act(k), n);
      PendingStays(run, act, n, k, k + 1);
      if !WorkerReady(run(k + 1)) {
        if Acts(act, k, b) {
          Blocked(run(k + 1), n);
          var i': nat :| i' >= k + 1 && Acts(act, i', b);
          ReadyBy(run, act, n, k + 1, i');
        } else {
          ReadyBy(run, act, n, k + 1, i);
        }
        assert ReadyAfter(run, k + 1);
      }
    }
  }

  lemma ReadyLater(run: Run, act: Schedule, n: nat, k: nat)
    requires Infinite(run, act) && ClearFreeFrom(act, k) && HoldersFair(run, act) && Pending(run(k), n)
    requires forall j: nat :: k <= j ==> !act(j).WorkerStep?
    ensures ReadyAfter(run, k)
  {
    hide Inv, Enabled, Apply, WorkerReady;
    if !WorkerReady(run(k)) {
      Blocked(run(k), n);
      var b := Blocker(run(k)).id;
      var i: nat :| i >= k && Acts(act, i, b);
      ReadyBy(run, act, n, k, i);
    }
  }

  lemma WorkerActs(run: Run, act: Schedule, n: nat, k: nat)
    requires Infinite(run, act) && ClearFreeFrom(act, k) && HoldersFair(run, act) && WorkerFair(run, act)
    requires Pending(run(k), n)
    ensures WorkerActsAfter(act, k)
  {
    hide Inv, Enabled, Apply, WorkerReady;
    if !WorkerActsAfter(act, k) {
      forall j: nat | j >= k ensures ReadyAfter(run, j) {
        PendingStays(run, act, n, k, j);
        ReadyLater(run, act, n, j);
      }
    }
  }

  /** The worker enters `xh_core_refresh_impl` at step `j`, and covers request `n` for the first time. */
  ghost predicate Serves(run: Run, act: Schedule, j: nat, n: nat) {
    Enters(run(j), act(j), run(j + 1)) && run(j).tickets.served < n <= run(j + 1).tickets.served
  }

  lemma {:induction false} FirstAct(act: Schedule, k: nat, i: nat) returns (j: nat)
    requires k <= i && act(i).WorkerStep?
    ensures k <= j <= i && act(j).WorkerStep? && forall l: nat :: k <= l < j ==> !act(l).WorkerStep?
    decreases i
  {
    if l: nat :| k <= l < i && act(l).WorkerStep? {
      j := FirstAct(act, k, l);
    } else {
      j := i;
    }
  }

  lemma {:induction false} PendingServedLater(run: Run, act: Schedule, n: nat, k: nat) returns (j: nat)
    requires Infinite(run, act) && ClearFreeFrom(act, k) && HoldersFair(run, act) && WorkerFair(run, act)
    requires Pending(run(k), n)
    ensures j >= k && Serves(run, act, j, n)
    decreases Rank(run(k), n)
  {
    hide Inv, Enabled, Apply, HoldersFair, WorkerFair;
    WorkerActs(run, act, n, k);
    var i: nat :| i >= k && act(i).WorkerStep?;
    j := FirstAct(act, k, i);
    PendingStays(run, act, n, k, j);
    assert Follows(run, act, j);
    PendingStep(run(j), act(j), n);
    RankStep(run(j), act(j), n);
    if !Enters(run(j), act(j), run(j + 1)) { ServedStep(run(j), act(j)); }
    if run(j + 1).tickets.served < n {
      j := PendingServedLater(run, act, n, j + 1);
    }
  }

  /** Every asynchronous request that no clear follows is covered by a worker refresh that starts after it. */
  lemma RequestServed(run: Run, act: Schedule, k: nat) returns (j: nat)
    requires Infinite(run, act) && HoldersFair(run, act) && WorkerFair(run, act) && ClearFreeFrom(act, k)
    requires act(k).CallerStep? && act(k).id in run(k).callers && run(k).callers[act(k).id].pc.ReqDo?
    ensures j > k && Serves(run, act, j, run(k + 1).tickets.requests)
  {
    hide HoldersFair, WorkerFair;
    RunInv(run, act, k);
    RunInv(run, act, k + 1);
    assert Follows(run, act, k);
    assert CallerFits(run(k), act(k).id);
    RequestMade(run(k), act(k).id, act(k).ok);
    WorkerStays(run(k), act(k));
    j := PendingServedLater(run, act, run(k + 1).tickets.requests, k + 1);
  }

  // ---------------------------------------------------------------- requests that outlive a clear

  ghost predicate WorkerAfter(run: Run, k: nat) {
    exists i: nat :: i >= k && !run(i).worker.NoThread?
  }

  ghost predicate ServedAfter(run: Run, act: Schedule, k: nat, n: nat) {
    exists j: nat :: j >= k && Serves(run, act, j, n)
  }

  /** Until there is a worker a request stays unserved. */
  lemma {:induction false} StaysUnserved(run: Run, act: Schedule, n: nat, k: nat, i: nat)
    requires Infinite(run, act) && ClearFreeFrom(act, k) && Unserved(run(k), n) && k <= i
    requires forall j: nat :: k <= j < i ==> run(j).worker.NoThread?
    ensures Unserved(run(i), n)
  {
    hide Inv, Apply;
    if k < i {
      StaysUnserved(run, act, n, k, i - 1);
      assert Follows(run, act, i - 1);
      assert run(i - 1).worker.NoThread?;
      UnservedStep(run(i - 1), act(i - 1), n);
    }
  }

  lemma {:induction false} FirstWorker(run: Run, k: nat, i: nat) returns (j: nat)
    requires k <= i && !run(i).worker.NoThread?
    ensures k <= j <= i && !run(j).worker.NoThread? && forall l: nat :: k <= l < j ==> run(l).worker.NoThread?
    decreases i
  {
    if l: nat :| k <= l < i && !run(l).worker.NoThread? {
      j := FirstWorker(run, k, l);
    } else {
      j := i;
    }
  }

  /** A request that is unserved when the last clear has returned is covered by a later refresh exactly when there
      is a worker at some time after. */
  lemma SurvivorServed(run: Run, act: Schedule, n: nat, k: nat)
    requires Infinite(run, act) && HoldersFair(run, act) && WorkerFair(run, act) && ClearFreeFrom(act, k)
    requires run(k).clear.Outside? && run(k).tickets.served < n <= run(k).tickets.requests
    ensures ServedAfter(run, act, k, n) <==> WorkerAfter(run, k)
  {
    hide HoldersFair, WorkerFair, Inv, Infinite;
    RunInv(run, act, k);
    if WorkerAfter(run, k) {
      var i: nat :| i >= k && !run(i).worker.NoThread?;
      i := FirstWorker(run, k, i);
      StaysUnserved(run, act, n, k, i);
      var j := PendingServedLater(run, act, n, i);
      assert Serves(run, act, j, n);
    }
    if ServedAfter(run, act, k, n) {
      var j: nat :| j >= k && Serves(run, act, j, n);
      FollowsAt(run, act, j);
      assert !run(j).worker.NoThread?;
    }
  }

  lemma FollowsAt(run: Run, act: Schedule, j: nat)
    requires Infinite(run, act)
    ensures Follows(run, act, j)
  {
  }

  /** So it is once a caller has created the next worker. */
  lemma RestartServed(run: Run, act: Schedule, n: nat, k: nat, i: nat) returns (j: nat)
    requires Infinite(run, act) && HoldersFair(run, act) && WorkerFair(run, act) && ClearFreeFrom(act, k)
    requires run(k).clear.Outside? && run(k).tickets.served < n <= run(k).tickets.requests
    requires k <= i && act(i).CallerStep? && act(i).ok
    requires act(i).id in run(i).callers && run(i).callers[act(i).id].pc.AsyncCreate?
    ensures j >= k && Serves(run, act, j, n)
  {
    hide HoldersFair, WorkerFair;
    assert Follows(run, act, i);
    assert !run(i + 1).worker.NoThread?;
    hide Follows, Infinite;
    SurvivorServed(run, act, n, k);
    j :| j >= k && Serves(run, act, j, n);
  }
}
