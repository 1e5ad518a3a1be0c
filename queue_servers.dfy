/**
 * Server bookkeeping of the queueing MDP: the static description of each
 * server type and the dynamic `ServerDynamicState`, whose ragged table
 * `busyOn[k][j]` counts the servers of type `k` busy on the `j`-th job type
 * of that type's `canServe` list.
 *
 * `int64_t` counts are modelled as unbounded `int` and `double` rates as
 * `real`; the pointer to the MDP's static table is an `Option` holding the
 * table itself (the table is never written after construction).
 */
module QueueServers {
  import opened Wrappers

  /** One server type: how many servers, their service rate, the job types they serve. */
  datatype ServerStaticInfo = ServerStaticInfo(servers: int, mu: real, canServe: seq<int>)

  /** `std::find` followed by `std::distance`: first position of `x` in `v`, or -1. */
  function IndexOf(v: seq<int>, x: int): (r: int)
    ensures -1 <= r < |v|
    ensures r == -1 <==> x !in v
    ensures r >= 0 ==> v[r] == x && x !in v[..r]
  {
    if |v| == 0 then -1
    else if v[0] == x then 0
    else
      var t := IndexOf(v[1..], x);
      assert v[1..][..t + 1] == v[..t + 2][1..] by { assert v[1..][..t + 1] == v[1..t + 2]; }
      if t < 0 then -1 else t + 1
  }

  /** `canServeIndex`: position of `job` in the `canServe` list of type `k`, or -1. */
  function CanServeIndex(S: seq<ServerStaticInfo>, k: int, job: int): (r: int)
    requires 0 <= k < |S|
    ensures -1 <= r < |S[k].canServe|
    ensures r == -1 <==> job !in S[k].canServe
    ensures r >= 0 ==> S[k].canServe[r] == job && forall j :: 0 <= j < r ==> S[k].canServe[j] != job
  {
    var r := IndexOf(S[k].canServe, job);
    assert r >= 0 ==> forall j :: 0 <= j < r ==> S[k].canServe[..r][j] == S[k].canServe[j];
    r
  }

  /** The table covers every cell the static info addresses. */
  predicate Fits(busy: seq<seq<int>>, S: seq<ServerStaticInfo>) {
    |S| <= |busy| && forall k :: 0 <= k < |S| ==> |S[k].canServe| <= |busy[k]|
  }

  /** The table has exactly one row per server type, each as long as its `canServe` list. */
  predicate Shaped(busy: seq<seq<int>>, S: seq<ServerStaticInfo>) {
    |busy| == |S| && forall k :: 0 <= k < |S| ==> |busy[k]| == |S[k].canServe|
  }

  function Max0(x: int): int {
    if x < 0 then 0 else x
  }

  /** Every addressed cell holds a count between 0 and the (non-negative part of the) type's server count. */
  predicate Bounded(busy: seq<seq<int>>, S: seq<ServerStaticInfo>) {
    Fits(busy, S) &&
    forall k, j :: 0 <= k < |S| && 0 <= j < |S[k].canServe| ==> 0 <= busy[k][j] <= Max0(S[k].servers)
  }

  /** The all-zero table of the given shape, as `initialize` and `GetInitialState` build it. */
  function ZeroTable(S: seq<ServerStaticInfo>): (busy: seq<seq<int>>)
    ensures Shaped(busy, S)
    ensures forall k, j :: 0 <= k < |S| && 0 <= j < |busy[k]| ==> busy[k][j] == 0
  {
    seq(|S|, k requires 0 <= k < |S| => seq(|S[k].canServe|, _ => 0))
  }

  /** `assign_job` on a table: the success flag and the resulting table. */
  function Assign(busy: seq<seq<int>>, S: seq<ServerStaticInfo>, k: int, job: int): (r: (bool, seq<seq<int>>))
    requires 0 <= k < |S| && Fits(busy, S)
    ensures r.0 <==> job in S[k].canServe && busy[k][CanServeIndex(S, k, job)] < S[k].servers
    ensures |r.1| == |busy| && forall k' :: 0 <= k' < |busy| ==> |r.1[k']| == |busy[k']|
    ensures forall k', j :: 0 <= k' < |busy| && 0 <= j < |busy[k']| ==>
      r.1[k'][j] == if r.0 && k' == k && j == CanServeIndex(S, k, job) then busy[k'][j] + 1 else busy[k'][j]
  {
    var idx := CanServeIndex(S, k, job);
    if idx < 0 then (false, busy)
    else if busy[k][idx] >= S[k].servers then (false, busy)
    else (true, busy[k := busy[k][idx := busy[k][idx] + 1]])
  }

  /** `complete_job` on a table: the resulting table. */
  function Complete(busy: seq<seq<int>>, S: seq<ServerStaticInfo>, k: int, job: int): (r: seq<seq<int>>)
    requires 0 <= k < |S| && Fits(busy, S)
    ensures |r| == |busy| && forall k' :: 0 <= k' < |busy| ==> |r[k']| == |busy[k']|
    ensures forall k', j :: 0 <= k' < |busy| && 0 <= j < |busy[k']| ==>
      r[k'][j] == if job in S[k].canServe && k' == k && j == CanServeIndex(S, k, job) && busy[k'][j] > 0
                  then busy[k'][j] - 1 else busy[k'][j]
  {
    var idx := CanServeIndex(S, k, job);
    if idx < 0 then busy
    else if busy[k][idx] <= 0 then busy
    else busy[k := busy[k][idx := busy[k][idx] - 1]]
  }

  /** A successful `assign_job` never pushes a cell above the server count; bounds are kept. */
  lemma AssignKeepsBounds(busy: seq<seq<int>>, S: seq<ServerStaticInfo>, k: int, job: int)
    requires 0 <= k < |S| && Bounded(busy, S)
    ensures Bounded(Assign(busy, S, k, job).1, S)
  {
    var r := Assign(busy, S, k, job).1;
    forall k', j | 0 <= k' < |S| && 0 <= j < |S[k'].canServe|
      ensures 0 <= r[k'][j] <= Max0(S[k'].servers)
    {
      assert busy[k'][j] <= Max0(S[k'].servers);
    }
  }

  /** `complete_job` never makes a count negative; bounds are kept. */
  lemma CompleteKeepsBounds(busy: seq<seq<int>>, S: seq<ServerStaticInfo>, k: int, job: int)
    requires 0 <= k < |S| && Bounded(busy, S)
    ensures Bounded(Complete(busy, S, k, job), S)
  {
    var r := Complete(busy, S, k, job);
    forall k', j | 0 <= k' < |S| && 0 <= j < |S[k'].canServe|
      ensures 0 <= r[k'][j] <= Max0(S[k'].servers)
    {
      assert 0 <= busy[k'][j];
    }
  }

  /** A job event applied to the busy table. */
  datatype Op = AssignOp(k: int, job: int) | CompleteOp(k: int, job: int)

  /** Applies a sequence of `assign_job`/`complete_job` calls in order. */
  function Run(busy: seq<seq<int>>, S: seq<ServerStaticInfo>, ops: seq<Op>): (r: seq<seq<int>>)
    requires Fits(busy, S)
    requires forall i :: 0 <= i < |ops| ==> 0 <= ops[i].k < |S|
    ensures |r| == |busy| && forall k' :: 0 <= k' < |busy| ==> |r[k']| == |busy[k']|
    decreases |ops|
  {
    if |ops| == 0 then busy
    else
      var next := match ops[0]
        case AssignOp(k, job) => Assign(busy, S, k, job).1
        case CompleteOp(k, job) => Complete(busy, S, k, job);
      Run(next, S, ops[1..])
  }

  /** Starting from any bounded table, every count stays in `[0, servers]` under any sequence of events. */
  lemma {:induction false} RunKeepsBounds(busy: seq<seq<int>>, S: seq<ServerStaticInfo>, ops: seq<Op>)
    requires Bounded(busy, S)
    requires forall i :: 0 <= i < |ops| ==> 0 <= ops[i].k < |S|
    ensures Bounded(Run(busy, S, ops), S)
    decreases |ops|
  {
    if |ops| > 0 {
      match ops[0]
      case AssignOp(k, job) =>
        AssignKeepsBounds(busy, S, k, job);
        RunKeepsBounds(Assign(busy, S, k, job).1, S, ops[1..]);
      case CompleteOp(k, job) =>
        CompleteKeepsBounds(busy, S, k, job);
        RunKeepsBounds(Complete(busy, S, k, job), S, ops[1..]);
    }
  }

  /** The zero table is bounded, so every reachable table is. */
  lemma ReachableTablesBounded(S: seq<ServerStaticInfo>, ops: seq<Op>)
    requires forall i :: 0 <= i < |ops| ==> 0 <= ops[i].k < |S|
    ensures Bounded(Run(ZeroTable(S), S, ops), S)
  {
    RunKeepsBounds(ZeroTable(S), S, ops);
  }

  /**
   * The guard of `assign_job` is per cell, not per server type: a type with a
   * single server that can serve two job types accepts one job of each, so two
   * servers' worth of work is assigned to it.
   */
  lemma PerCellGuardOverbooksType()
    ensures var S := [ServerStaticInfo(1, 1.0, [0, 1])];
      var first := Assign([[0, 0]], S, 0, 0);
      var second := Assign(first.1, S, 0, 1);
      first.0 && second.0 && second.1 == [[1, 1]] && second.1[0][0] + second.1[0][1] > S[0].servers
  {
    var S := [ServerStaticInfo(1, 1.0, [0, 1])];
    assert CanServeIndex(S, 0, 0) == 0;
    assert CanServeIndex(S, 0, 1) == 1;
    var first := Assign([[0, 0]], S, 0, 0);
    assert first.0 && first.1[0][0] == 1 && first.1[0][1] == 0;
    assert first.1[0] == [1, 0];
    assert first.1 == [[1, 0]];
    var second := Assign(first.1, S, 0, 1);
    assert second.0 && second.1[0][0] == 1 && second.1[0][1] == 1;
    assert second.1[0] == [1, 1];
    assert second.1 == [[1, 1]];
  }

  // ----- total service rate -----

  /** Busy-weighted rate of the first `n` cells of one row, summed left to right. */
  function RowRate(row: seq<int>, mu: real, n: nat): real
    requires n <= |row|
  {
    if n == 0 then 0.0 else RowRate(row, mu, n - 1) + (row[n - 1] as real) * mu
  }

  /** Σ over the first `m` types and their `canServe` positions of `busy[k][j] * mu_k`. */
  function TotalRate(busy: seq<seq<int>>, S: seq<ServerStaticInfo>, m: nat): real
    requires m <= |S| && Fits(busy, S)
  {
    if m == 0 then 0.0
    else TotalRate(busy, S, m - 1) + RowRate(busy[m - 1], S[m - 1].mu, |S[m - 1].canServe|)
  }

  lemma {:induction false} RowRateUpdate(row: seq<int>, mu: real, n: nat, idx: nat, v: int)
    requires n <= |row| && idx < |row|
    ensures RowRate(row[idx := v], mu, n) ==
      RowRate(row, mu, n) + (if idx < n then ((v - row[idx]) as real) * mu else 0.0)
  {
    if n > 0 {
      RowRateUpdate(row, mu, n - 1, idx, v);
      assert ((v - row[idx]) as real) * mu == (v as real) * mu - (row[idx] as real) * mu;
    }
  }

  lemma {:induction false} TotalRateUpdate(busy: seq<seq<int>>, S: seq<ServerStaticInfo>, m: nat, k: nat, idx: nat, v: int)
    requires m <= |S| && Fits(busy, S) && k < |S| && idx < |S[k].canServe|
    ensures Fits(busy[k := busy[k][idx := v]], S)
    ensures TotalRate(busy[k := busy[k][idx := v]], S, m) ==
      TotalRate(busy, S, m) + (if k < m then ((v - busy[k][idx]) as real) * S[k].mu else 0.0)
  {
    var b := busy[k := busy[k][idx := v]];
    assert Fits(b, S) by {
      forall k' | 0 <= k' < |S| ensures |S[k'].canServe| <= |b[k']| {
        assert |b[k']| == |busy[k']|;
      }
    }
    if m > 0 {
      TotalRateUpdate(busy, S, m - 1, k, idx, v);
      var n := |S[m - 1].canServe|;
      assert TotalRate(b, S, m) == TotalRate(b, S, m - 1) + RowRate(b[m - 1], S[m - 1].mu, n);
      assert TotalRate(busy, S, m) == TotalRate(busy, S, m - 1) + RowRate(busy[m - 1], S[m - 1].mu, n);
      if m - 1 == k {
        var d := ((v - busy[k][idx]) as real) * S[k].mu;
        assert TotalRate(b, S, m - 1) == TotalRate(busy, S, m - 1);
        RowRateUpdate(busy[k], S[k].mu, n, idx, v);
        assert RowRate(b[m - 1], S[m - 1].mu, n) == RowRate(busy[m - 1], S[m - 1].mu, n) + d;
      } else {
        assert b[m - 1] == busy[m - 1];
      }
    }
  }

  /** A successful `assign_job(k, job)` raises the total service rate by exactly `mu_k`. */
  lemma AssignRaisesRate(busy: seq<seq<int>>, S: seq<ServerStaticInfo>, k: int, job: int)
    requires 0 <= k < |S| && Fits(busy, S) && Assign(busy, S, k, job).0
    ensures Fits(Assign(busy, S, k, job).1, S)
    ensures TotalRate(Assign(busy, S, k, job).1, S, |S|) == TotalRate(busy, S, |S|) + S[k].mu
  {
    var idx := CanServeIndex(S, k, job);
    TotalRateUpdate(busy, S, |S|, k, idx, busy[k][idx] + 1);
  }

  /** A `complete_job(k, job)` that frees a server lowers the total service rate by exactly `mu_k`. */
  lemma CompleteLowersRate(busy: seq<seq<int>>, S: seq<ServerStaticInfo>, k: int, job: int)
    requires 0 <= k < |S| && Fits(busy, S)
    requires job in S[k].canServe && busy[k][CanServeIndex(S, k, job)] > 0
    ensures Fits(Complete(busy, S, k, job), S)
    ensures TotalRate(Complete(busy, S, k, job), S, |S|) == TotalRate(busy, S, |S|) - S[k].mu
  {
    var idx := CanServeIndex(S, k, job);
    TotalRateUpdate(busy, S, |S|, k, idx, busy[k][idx] - 1);
  }

  /** A table of zeros has total service rate 0, the value `initialize` stores. */
  lemma {:induction false} ZeroTableRate(S: seq<ServerStaticInfo>, m: nat)
    requires m <= |S|
    ensures TotalRate(ZeroTable(S), S, m) == 0.0
  {
    if m > 0 {
      ZeroTableRate(S, m - 1);
      ZeroRowRate(ZeroTable(S)[m - 1], S[m - 1].mu, |S[m - 1].canServe|);
    }
  }

  lemma {:induction false} ZeroRowRate(row: seq<int>, mu: real, n: nat)
    requires n <= |row| && forall j :: 0 <= j < |row| ==> row[j] == 0
    ensures RowRate(row, mu, n) == 0.0
  {
    if n > 0 {
      ZeroRowRate(row, mu, n - 1);
    }
  }

  // ----- idle capacity -----

  /**
   * What `update_idle_capacity` needs to stay inside the table: it sizes its
   * result by row 0 and reads `busy[k][n]` with the job id `n` as column, so
   * every job id below `|busy[0]|` that type `k` serves must be a valid
   * column of row `k`.
   */
  predicate IdleIndexSafe(S: seq<ServerStaticInfo>, busy: seq<seq<int>>) {
    |S| > 0 && |busy| > 0 ==>
      |S| <= |busy| &&
      forall k, n :: 0 <= k < |S| && 0 <= n < |busy[0]| && n in S[k].canServe ==> n < |busy[k]|
  }

  /** Idle servers of type `k` counted for job `n` (0 when `k` cannot serve `n` or none are idle). */
  function IdleTerm(st: ServerStaticInfo, row: seq<int>, n: int): (r: int)
    requires n in st.canServe ==> 0 <= n < |row|
    ensures r >= 0
  {
    if n in st.canServe && st.servers - row[n] > 0 then st.servers - row[n] else 0
  }

  /** Idle servers available for job `n` among the first `m` server types. */
  function IdleAt(S: seq<ServerStaticInfo>, busy: seq<seq<int>>, n: nat, m: nat): (r: int)
    requires |S| > 0 && |busy| > 0 && IdleIndexSafe(S, busy) && n < |busy[0]| && m <= |S|
    ensures r >= 0
  {
    if m == 0 then 0 else IdleAt(S, busy, n, m - 1) + IdleTerm(S[m - 1], busy[m - 1], n)
  }

  /** The idle counts of the first `len` job ids. */
  function IdleVector(S: seq<ServerStaticInfo>, busy: seq<seq<int>>, len: nat): (r: seq<int>)
    requires |S| > 0 && |busy| > 0 && IdleIndexSafe(S, busy) && len <= |busy[0]|
    ensures |r| == len
    ensures forall n :: 0 <= n < len ==> r[n] == IdleAt(S, busy, n, |S|)
  {
    if len == 0 then [] else IdleVector(S, busy, len - 1) + [IdleAt(S, busy, len - 1, |S|)]
  }

  /** The vector `update_idle_capacity` computes: empty without static info or rows. */
  function IdleCapacity(info: Option<seq<ServerStaticInfo>>, busy: seq<seq<int>>): (r: seq<int>)
    requires info.Some? ==> IdleIndexSafe(info.value, busy)
    ensures info.None? || |info.value| == 0 || |busy| == 0 ==> r == []
    ensures info.Some? && |info.value| > 0 && |busy| > 0 ==> |r| == |busy[0]|
    ensures forall n :: 0 <= n < |r| ==> r[n] >= 0
  {
    if info.None? || |info.value| == 0 || |busy| == 0 then []
    else IdleVector(info.value, busy, |busy[0]|)
  }

  /** Job `n` has idle capacity iff some type serving `n` has fewer busy servers than servers. */
  lemma {:induction false} IdleAtPositiveIff(S: seq<ServerStaticInfo>, busy: seq<seq<int>>, n: nat, m: nat)
    requires |S| > 0 && |busy| > 0 && IdleIndexSafe(S, busy) && n < |busy[0]| && m <= |S|
    ensures IdleAt(S, busy, n, m) > 0 <==>
      exists k :: 0 <= k < m && n in S[k].canServe && busy[k][n] < S[k].servers
  {
    if m > 0 {
      IdleAtPositiveIff(S, busy, n, m - 1);
      if n in S[m - 1].canServe && busy[m - 1][n] < S[m - 1].servers {
        assert IdleTerm(S[m - 1], busy[m - 1], n) > 0;
      }
    }
  }

  /**
   * Because the column read is the job id, not the `canServe` position, a type
   * whose servers are all busy on job 1 (stored at position 0) is reported as
   * having two idle servers for job 1.
   */
  lemma IdleCapacityReadsJobIdColumn()
    ensures var S := [ServerStaticInfo(2, 1.0, [1, 0])];
      CanServeIndex(S, 0, 1) == 0 &&
      IdleCapacity(Some(S), [[2, 0]]) == [0, 2]
  {
    var S := [ServerStaticInfo(2, 1.0, [1, 0])];
    assert 1 in S[0].canServe && 0 in S[0].canServe;
    assert IdleVector(S, [[2, 0]], 2) == IdleVector(S, [[2, 0]], 1) + [IdleAt(S, [[2, 0]], 1, 1)];
  }

  /** Total servers, over the first `m` types, of the types that can serve job `n`. */
  function ServingCapacity(S: seq<ServerStaticInfo>, n: int, m: nat): int
    requires m <= |S|
  {
    if m == 0 then 0
    else ServingCapacity(S, n, m - 1) + (if n in S[m - 1].canServe then Max0(S[m - 1].servers) else 0)
  }

  /** In a fresh all-zero table every server of a type that serves job `n` counts as idle for `n`. */
  lemma {:induction false} ZeroTableIdle(S: seq<ServerStaticInfo>, n: nat, m: nat)
    requires |S| > 0 && IdleIndexSafe(S, ZeroTable(S)) && n < |S[0].canServe| && m <= |S|
    ensures IdleAt(S, ZeroTable(S), n, m) == ServingCapacity(S, n, m)
  {
    if m > 0 {
      ZeroTableIdle(S, n, m - 1);
      if n in S[m - 1].canServe {
        assert ZeroTable(S)[m - 1][n] == 0;
      }
    }
  }

  /** `ServerDynamicState`: busy counts, derived idle capacity and total service rate. */
  class ServerDynamicState {
    /** `has_idle_capacity_per_job`: idle servers per job type. */
    var idlePerJob: seq<int>
    /** `has_idle_capacity`: some job type has idle servers. */
    var hasIdleCapacity: bool
    /** `static_info`: the MDP's server table, or null. */
    var staticInfo: Option<seq<ServerStaticInfo>>
    var busyOn: seq<seq<int>>
    var totalServiceRate: real

    /** A value-initialised state: no table, no rows, no capacity, rate 0. */
    constructor()
      ensures idlePerJob == [] && !hasIdleCapacity && staticInfo.None? && busyOn == []
      ensures totalServiceRate == 0.0
    {
      idlePerJob := [];
      hasIdleCapacity := false;
      staticInfo := None;
      busyOn := [];
      totalServiceRate := 0.0;
    }

    /**
     * `initialize`: link the static table, build the all-zero table with one
     * row per server type, reset the rate and recompute the idle capacity.
     * Without a table only the rows are cleared.
     */
    method Initialize(info: Option<seq<ServerStaticInfo>>, nJobs: nat)
      requires info.Some? ==> IdleIndexSafe(info.value, ZeroTable(info.value))
      modifies this
      ensures staticInfo == info
      ensures info.None? ==>
        busyOn == [] && idlePerJob == old(idlePerJob) &&
        hasIdleCapacity == old(hasIdleCapacity) && totalServiceRate == old(totalServiceRate)
      ensures info.Some? ==>
        busyOn == ZeroTable(info.value) && totalServiceRate == 0.0 &&
        idlePerJob == IdleCapacity(info, busyOn) &&
        (hasIdleCapacity <==> exists n :: 0 <= n < |idlePerJob| && idlePerJob[n] > 0)
    {
      staticInfo := info;
      busyOn := [];
      if info.None? {
        return;
      }
      var S := info.value;
      busyOn := seq(|S|, _ => []);
      for k := 0 to |S|
        invariant staticInfo == info && |busyOn| == |S|
        invariant forall k' :: 0 <= k' < k ==> busyOn[k'] == ZeroTable(S)[k']
      {
        busyOn := busyOn[k := seq(|S[k].canServe|, _ => 0)];
      }
      assert busyOn == ZeroTable(S);
      idlePerJob := seq(nJobs, _ => 0);
      hasIdleCapacity := false;
      totalServiceRate := 0.0;
      UpdateIdleCapacity();
    }

    /** `complete_job`: free one server of type `k` busy on `job`, if there is one. */
    method CompleteJob(k: int, job: int)
      requires staticInfo.Some? && 0 <= k < |staticInfo.value| && Fits(busyOn, staticInfo.value)
      modifies this
      ensures staticInfo == old(staticInfo) && idlePerJob == old(idlePerJob)
      ensures busyOn == Complete(old(busyOn), staticInfo.value, k, job)
      ensures hasIdleCapacity == old(hasIdleCapacity) && totalServiceRate == old(totalServiceRate)
    {
      var idx := CanServeIndex(staticInfo.value, k, job);
      if idx < 0 {
        return;
      }
      if busyOn[k][idx] <= 0 {
        return;
      }
      busyOn := busyOn[k := busyOn[k][idx := busyOn[k][idx] - 1]];
    }

    /**
     * `update_idle_capacity`: for each job id `n` below the length of row 0,
     * add up the idle servers of every type that can serve `n`.
     */
    method UpdateIdleCapacity()
      requires staticInfo.Some? ==> IdleIndexSafe(staticInfo.value, busyOn)
      modifies this
      ensures staticInfo == old(staticInfo) && busyOn == old(busyOn)
      ensures idlePerJob == IdleCapacity(staticInfo, busyOn)
      ensures hasIdleCapacity <==> exists n :: 0 <= n < |idlePerJob| && idlePerJob[n] > 0
      ensures totalServiceRate == old(totalServiceRate)
    {
      if staticInfo.None? || |staticInfo.value| == 0 || |busyOn| == 0 {
        idlePerJob := [];
        hasIdleCapacity := false;
        return;
      }
      var S, busy := staticInfo.value, busyOn;
      var nJobs := |busy[0]|;
      var idle := seq(nJobs, _ => 0);
      var flag := false;
      for n := 0 to nJobs
        invariant |idle| == nJobs
        invariant forall i :: 0 <= i < n ==> idle[i] == IdleAt(S, busy, i, |S|)
        invariant forall i :: n <= i < nJobs ==> idle[i] == 0
        invariant flag <==> exists i :: 0 <= i < n && idle[i] > 0
      {
        for k := 0 to |S|
          invariant |idle| == nJobs
          invariant forall i :: 0 <= i < n ==> idle[i] == IdleAt(S, busy, i, |S|)
          invariant forall i :: n < i < nJobs ==> idle[i] == 0
          invariant idle[n] == IdleAt(S, busy, n, k)
          invariant flag <==> (exists i :: 0 <= i < n && idle[i] > 0) || idle[n] > 0
        {
          if n in S[k].canServe {
            var free := S[k].servers - busy[k][n];
            if free > 0 {
              idle := idle[n := idle[n] + free];
              flag := true;
            }
          }
        }
      }
      idlePerJob := idle;
      hasIdleCapacity := flag;
    }

    /** `update_total_service_rate`: store the current total rate, or 0 without a table. */
    method UpdateTotalServiceRate()
      requires staticInfo.Some? ==> Fits(busyOn, staticInfo.value)
      modifies this
      ensures staticInfo == old(staticInfo) && busyOn == old(busyOn)
      ensures staticInfo.None? ==> totalServiceRate == 0.0
      ensures staticInfo.Some? ==> totalServiceRate == TotalRate(busyOn, staticInfo.value, |staticInfo.value|)
      ensures idlePerJob == old(idlePerJob) && hasIdleCapacity == old(hasIdleCapacity)
    {
      if staticInfo.None? {
        totalServiceRate := 0.0;
        return;
      }
      totalServiceRate := GetTotalServiceRate(this, staticInfo.value);
    }

    /** `get_total_service_rate`: Σ_k Σ_j `busy_on[k][j] * mu_k`, accumulated in loop order. */
    static method GetTotalServiceRate(dyn: ServerDynamicState, S: seq<ServerStaticInfo>) returns (r: real)
      requires Fits(dyn.busyOn, S)
      ensures r == TotalRate(dyn.busyOn, S, |S|)
    {
      r := 0.0;
      for k := 0 to |S|
        invariant r == TotalRate(dyn.busyOn, S, k)
      {
        var row := 0.0;
        for j := 0 to |S[k].canServe|
          invariant r + row == TotalRate(dyn.busyOn, S, k) + RowRate(dyn.busyOn[k], S[k].mu, j)
        {
          row := row + (dyn.busyOn[k][j] as real) * S[k].mu;
        }
        r := r + row;
      }
    }

    /** `assign_job`: occupy one more server of type `k` on `job` if that cell has room. */
    static method AssignJob(dyn: ServerDynamicState, S: seq<ServerStaticInfo>, k: int, job: int) returns (ok: bool)
      requires 0 <= k < |S| && Fits(dyn.busyOn, S)
      modifies dyn
      ensures (ok, dyn.busyOn) == Assign(old(dyn.busyOn), S, k, job)
      ensures dyn.staticInfo == old(dyn.staticInfo) && dyn.idlePerJob == old(dyn.idlePerJob)
      ensures dyn.hasIdleCapacity == old(dyn.hasIdleCapacity) && dyn.totalServiceRate == old(dyn.totalServiceRate)
    {
      var idx := CanServeIndex(S, k, job);
      if idx < 0 {
        return false;
      }
      if dyn.busyOn[k][idx] >= S[k].servers {
        return false;
      }
      dyn.busyOn := dyn.busyOn[k := dyn.busyOn[k][idx := dyn.busyOn[k][idx] + 1]];
      return true;
    }
  }
}
