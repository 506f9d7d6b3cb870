/** The I/O statistics of `native-lib.cpp`: counters updated operation by operation, against their definition
    over the whole history. */
module IoStats {
  import opened Results

  /** One read or write: the size asked for, its cost and the time at its end. */
  datatype Op = Op(size: int, cost: int, at: int)

  /** Microseconds. */
  const CONTINUAL_THRESHOLD := 8000

  // ---------------------------------------------------------------- the counters, defined over all operations

  function TotalSize(ops: seq<Op>): int {
    if ops == [] then 0 else TotalSize(ops[..|ops| - 1]) + ops[|ops| - 1].size
  }

  function TotalCost(ops: seq<Op>): int {
    if ops == [] then 0 else TotalCost(ops[..|ops| - 1]) + ops[|ops| - 1].cost
  }

  function Max(a: int, b: int): int { if b > a then b else a }

  function MaxSize(ops: seq<Op>): int {
    if ops == [] then 0 else Max(MaxSize(ops[..|ops| - 1]), ops[|ops| - 1].size)
  }

  function MaxCost(ops: seq<Op>): int {
    if ops == [] then 0 else Max(MaxCost(ops[..|ops| - 1]), ops[|ops| - 1].cost)
  }

  /** They are the largest of 0 and what single operations had. */
  lemma {:induction false} MaximaExact(ops: seq<Op>)
    ensures forall i :: 0 <= i < |ops| ==> ops[i].size <= MaxSize(ops) && ops[i].cost <= MaxCost(ops)
    ensures MaxSize(ops) == 0 || exists i :: 0 <= i < |ops| && ops[i].size == MaxSize(ops)
    ensures MaxCost(ops) == 0 || exists i :: 0 <= i < |ops| && ops[i].cost == MaxCost(ops)
    ensures MaxSize(ops) >= 0 && MaxCost(ops) >= 0
  {
    if ops != [] {
      var before := ops[..|ops| - 1];
      MaximaExact(before);
      assert forall i :: 0 <= i < |before| ==> before[i] == ops[i];
    }
  }

  /** Operation `i` goes on where the one before it ended. */
  predicate Continues(ops: seq<Op>, i: nat)
    requires i < |ops|
  {
    i > 0 && ops[i - 1].at > 0 && ops[i].at - ops[i - 1].at < 8000
  }

  /** From operation `i` up to operation `j - 1` there is no gap. */
  ghost predicate Gapless(ops: seq<Op>, i: nat, j: nat) {
    i <= j <= |ops| && forall k: nat :: i < k < j ==> Continues(ops, k)
  }

  /** Where the gapless run at the end of the history starts. */
  function RunStart(ops: seq<Op>): (i: nat)
    ensures i <= |ops|
    ensures ops != [] ==> i < |ops|
  {
    if ops == [] then 0
    else if Continues(ops, |ops| - 1) then RunStart(ops[..|ops| - 1])
    else |ops| - 1
  }

  /** What the run at the end of the history has cost. */
  function RunCost(ops: seq<Op>): int {
    TotalCost(ops[RunStart(ops)..])
  }

  /** The largest of 0 and what any run had cost at any time. */
  function MaxRunCost(ops: seq<Op>): int {
    if ops == [] then 0 else
    Max(MaxRunCost(ops[..|ops| - 1]), RunCost(ops))
  }

  lemma {:induction false} TotalCostConcat(a: seq<Op>, b: seq<Op>)
    ensures TotalCost(a + b) == TotalCost(a) + TotalCost(b)
  {
    if b == [] {
      assert a + b == a;
    } else {
      TotalCostConcat(a, b[..|b| - 1]);
      assert (a + b)[..|a + b| - 1] == a + b[..|b| - 1];
    }
  }

  /** The next operation goes on where the last one ended. */
  predicate GoesOn(ops: seq<Op>, op: Op) {
    ops != [] && ops[|ops| - 1].at > 0 && op.at - ops[|ops| - 1].at < 8000
  }

  lemma RunStartSnoc(ops: seq<Op>, op: Op)
    ensures RunStart(ops + [op]) == if GoesOn(ops, op) then RunStart(ops) else |ops|
  {
  }

  /** What one more operation makes of the run at the end. */
  lemma RunCostSnoc(ops: seq<Op>, op: Op)
    ensures RunCost(ops + [op]) == (if GoesOn(ops, op) then RunCost(ops) else 0) + op.cost
  {
    hide RunStart, TotalCost;
    RunStartSnoc(ops, op);
    var run := if GoesOn(ops, op) then ops[RunStart(ops)..] else [];
    assert (ops + [op])[RunStart(ops + [op])..] == run + [op];
    TotalCostConcat(run, [op]);
    OneCost(op);
  }

  lemma OneCost(op: Op)
    ensures TotalCost([op]) == op.cost && TotalCost([]) == 0
  {
  }

  /** What it makes of the sums and of the maximum. */
  lemma SumsSnoc(ops: seq<Op>, op: Op)
    ensures var more := ops + [op];
      && TotalSize(more) == TotalSize(ops) + op.size && TotalCost(more) == TotalCost(ops) + op.cost
      && MaxRunCost(more) == Max(MaxRunCost(ops), RunCost(more))
      && MaxSize(more) == Max(MaxSize(ops), op.size) && MaxCost(more) == Max(MaxCost(ops), op.cost)
  {
  }

  lemma GaplessPrefix(ops: seq<Op>, n: nat, i: nat, j: nat)
    requires j <= n <= |ops|
    ensures Gapless(ops, i, j) <==> Gapless(ops[..n], i, j)
  {
    assert forall k: nat :: k < n ==> Continues(ops, k) == Continues(ops[..n], k);
  }

  lemma {:induction false} RunIsGapless(ops: seq<Op>)
    ensures Gapless(ops, RunStart(ops), |ops|)
    ensures RunStart(ops) == 0 || !Continues(ops, RunStart(ops))
  {
    if ops != [] && Continues(ops, |ops| - 1) {
      var n := |ops| - 1;
      RunIsGapless(ops[..n]);
      GaplessPrefix(ops, n, RunStart(ops), n);
    }
  }

  lemma {:induction false} TotalCostNonNegative(ops: seq<Op>)
    requires forall i :: 0 <= i < |ops| ==> ops[i].cost >= 0
    ensures TotalCost(ops) >= 0
  {
    if ops != [] {
      TotalCostNonNegative(ops[..|ops| - 1]);
    }
  }

  /** A gapless stretch that ends with the history lies in its last run. */
  lemma {:induction false} StretchInRun(ops: seq<Op>, i: nat)
    requires i < |ops| && Gapless(ops, i, |ops|)
    ensures RunStart(ops) <= i
  {
    var n := |ops| - 1;
    if i < n {
      assert Continues(ops, n);
      GaplessPrefix(ops, n, i, n);
      StretchInRun(ops[..n], i);
    }
  }

  /** No gapless stretch costs more than the maximum, ... */
  lemma {:induction false} StretchBound(ops: seq<Op>, i: nat, j: nat)
    requires forall k :: 0 <= k < |ops| ==> ops[k].cost >= 0
    requires Gapless(ops, i, j)
    ensures TotalCost(ops[i..j]) <= MaxRunCost(ops)
    decreases |ops|
  {
    if ops != [] {
      var n := |ops| - 1;
      MaxRunCostLast(ops, ops[..n], n);
      if j <= n {
        GaplessPrefix(ops, n, i, j);
        SlicePrefix(ops, n, i, j);
        StretchBound(ops[..n], i, j);
      } else {
        StretchCost(ops, i);
      }
    }
  }

  /** ... and one costs that much. */
  lemma {:induction false} MaxRunCostAttained(ops: seq<Op>) returns (from: nat, to: nat)
    ensures Gapless(ops, from, to) && TotalCost(ops[from..to]) == MaxRunCost(ops)
  {
    if ops == [] {
      return 0, 0;
    }
    var n := |ops| - 1;
    MaxRunCostLast(ops, ops[..n], n);
    if RunCost(ops) > MaxRunCost(ops[..n]) {
      RunIsGapless(ops);
      from, to := RunStart(ops), |ops|;
      assert ops[from..to] == ops[from..];
    } else {
      from, to := MaxRunCostAttained(ops[..n]);
      GaplessPrefix(ops, n, from, to);
      SlicePrefix(ops, n, from, to);
    }
  }

  lemma SlicePrefix(ops: seq<Op>, n: nat, i: nat, j: nat)
    requires i <= j <= n <= |ops|
    ensures ops[..n][i..j] == ops[i..j]
  {
  }

  lemma MaxRunCostLast(ops: seq<Op>, before: seq<Op>, n: nat)
    requires |ops| == n + 1 && before == ops[..n]
    ensures MaxRunCost(ops) == Max(MaxRunCost(before), RunCost(ops))
  {
  }

  lemma StretchCost(ops: seq<Op>, i: nat)
    requires forall k :: 0 <= k < |ops| ==> ops[k].cost >= 0
    requires i <= |ops| && Gapless(ops, i, |ops|) && ops != []
    ensures TotalCost(ops[i..|ops|]) <= RunCost(ops)
  {
    var s := RunStart(ops);
    if i < |ops| {
      StretchInRun(ops, i);
      assert ops[s..] == ops[s..i] + ops[i..|ops|];
      TotalCostConcat(ops[s..i], ops[i..|ops|]);
      TotalCostNonNegative(ops[s..i]);
    } else {
      TotalCostNonNegative(ops[s..]);
    }
  }

  // ---------------------------------------------------------------- the history of a file descriptor

  /** What the proxies see. */
  datatype Event = Opened(fd: int) | Done(fd: int, op: Op) | Closed(fd: int)

  /** The operations on `fd` since it was opened, if it is open: opening it again does not start anew. */
  function Tracked(events: seq<Event>, fd: int): Option<seq<Op>> {
    if events == [] then None else
    var before := Tracked(events[..|events| - 1], fd);
    var last := events[|events| - 1];
    if last.fd != fd then before else
    match last
    case Opened(_) => if before.None? then Some([]) else before
    case Done(_, op) => if before.None? then None else Some(before.value + [op])
    case Closed(_) => None
  }

  class IOInfo {
    const startTime: int
    var opCnt: int
    var bufferSize: int
    var opSize: int
    var rwCost: int
    var maxContinualRwCostTime: int
    var maxOnceRwCostTime: int
    var currentContinualRwTime: int
    var lastRwTime: int
    var fileSize: int
    var totalCost: int

    constructor (now: int)
      ensures Counts([]) && startTime == now && fileSize == 0 && totalCost == 0
    {
      startTime := now;
      opCnt, bufferSize, opSize, rwCost, maxContinualRwCostTime, maxOnceRwCostTime := 0, 0, 0, 0, 0, 0;
      currentContinualRwTime, lastRwTime, fileSize, totalCost := 0, 0, 0, 0;
    }

    /** The counters are those of `ops`. */
    ghost predicate Counts(ops: seq<Op>) reads this {
      && opCnt == |ops| && opSize == TotalSize(ops) && rwCost == TotalCost(ops)
      && bufferSize == MaxSize(ops) && maxOnceRwCostTime == MaxCost(ops)
      && currentContinualRwTime == RunCost(ops) && maxContinualRwCostTime == MaxRunCost(ops)
      && lastRwTime == if ops == [] then 0 else ops[|ops| - 1].at
    }

    /** The body of `CountRWInfo`. */
    method Count(size: int, cost: int, now: int, ghost ops: seq<Op>)
      requires Counts(ops)
      modifies this
      ensures Counts(ops + [Op(size, cost, now)]) && fileSize == old(fileSize) && totalCost == old(totalCost)
    {
      ghost var op := Op(size, cost, now);
      hide TotalSize, TotalCost, RunCost, MaxRunCost, MaxSize, MaxCost;
      RunCostSnoc(ops, op);
      SumsSnoc(ops, op);
      opCnt := opCnt + 1;
      opSize := opSize + size;
      rwCost := rwCost + cost;
      if cost > maxOnceRwCostTime {
        maxOnceRwCostTime := cost;
      }
      if lastRwTime > 0 && now - lastRwTime < CONTINUAL_THRESHOLD {
        currentContinualRwTime := currentContinualRwTime + cost;
      } else {
        currentContinualRwTime := cost;
      }
      if currentContinualRwTime > maxContinualRwCostTime {
        maxContinualRwCostTime := currentContinualRwTime;
      }
      lastRwTime := now;
      if bufferSize < size {
        bufferSize := size;
      }
    }

    /** The totals that `ProxyClose` fills in. */
    method Finish(now: int, size: int, ghost ops: seq<Op>)
      requires Counts(ops)
      modifies this
      ensures Counts(ops) && totalCost == now - startTime && fileSize == size
    {
      totalCost := now - startTime;
      fileSize := size;
    }
  }

  class Monitor {
    var infoMap: map<int, IOInfo>
    ghost var events: seq<Event>

    constructor ()
      ensures Valid() && infoMap == map[] && events == []
    {
      infoMap, events := map[], [];
    }

    /** The map holds exactly the tracked descriptors, each with the counters of its operations. */
    ghost predicate Valid() reads this, infoMap.Values {
      && (forall fd :: fd in infoMap <==> Tracked(events, fd).Some?)
      && (forall fd, other :: fd in infoMap && other in infoMap && fd != other ==> infoMap[fd] != infoMap[other])
      && (forall fd :: fd in infoMap ==> Tracked(events, fd).Some? && infoMap[fd].Counts(Tracked(events, fd).value))
    }

    /** `ProxyOpen`; `ret` is what the real call returned. */
    method Open(ret: int, now: int)
      requires Valid()
      modifies this
      ensures Valid() && events == old(events) + if ret == -1 then [] else [Opened(ret)]
      ensures if ret == -1 || ret in old(infoMap) then infoMap == old(infoMap)
        else ret in infoMap && infoMap == old(infoMap)[ret := infoMap[ret]] && infoMap[ret].startTime == now
    {
      if ret != -1 {
        if ret !in infoMap {
          var info := new IOInfo(now);
          infoMap := infoMap[ret := info];
        }
        events := events + [Opened(ret)];
        assert events[..|events| - 1] == old(events);
      }
    }

    /** `ProxyOpen64`: the record is made and dropped. */
    method Open64(ret: int, now: int)
      requires Valid()
      ensures Valid() && events == old(events) && infoMap == old(infoMap)
    {
      if ret != -1 {
        if ret !in infoMap {
          var info := new IOInfo(now);
        }
      }
    }

    /** `ProxyRead`, `ProxyWrite` and their checked forms. */
    method ReadWrite(fd: int, ret: int, size: int, cost: int, now: int)
      requires Valid()
      modifies this, infoMap.Values
      ensures Valid() && infoMap == old(infoMap)
      ensures events == old(events) + if ret < 0 then [] else [Done(fd, Op(size, cost, now))]
    {
      hide IOInfo.Counts;
      if ret < 0 { return; }
      events := events + [Done(fd, Op(size, cost, now))];
      assert events[..|events| - 1] == old(events);
      if fd !in infoMap { return; }
      infoMap[fd].Count(size, cost, now, Tracked(old(events), fd).value);
    }

    /** `ProxyClose`: the totals are filled in and the record is dropped, whatever the real call returned. */
    method Close(fd: int, now: int, size: int)
      requires Valid()
      modifies this, infoMap.Values
      ensures Valid() && events == old(events) + [Closed(fd)] && infoMap == old(infoMap) - {fd}
      ensures fd in old(infoMap) ==> old(infoMap)[fd].Counts(Tracked(old(events), fd).value)
      ensures fd in old(infoMap) ==> old(infoMap)[fd].totalCost == now - old(infoMap)[fd].startTime
      ensures fd in old(infoMap) ==> old(infoMap)[fd].fileSize == size
    {
      hide IOInfo.Counts;
      events := events + [Closed(fd)];
      assert events[..|events| - 1] == old(events);
      if fd !in infoMap { return; }
      infoMap[fd].Finish(now, size, Tracked(old(events), fd).value);
      infoMap := infoMap - {fd};
    }
  }
}
