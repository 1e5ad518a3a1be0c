/**
 * The queueing MDP itself: its parameters, its state (server manager, queue
 * manager and category) and the parts of the MDP interface that have bodies:
 * the initial state, the state category and the static information.
 */
module QueueMdp {
  import opened Wrappers
  import opened Categories
  import opened QueueServers
  import opened QueueLines

  /** The MDP's parameters (`discount_factor`, `server_static_info`, `n_jobs`, ...). */
  datatype Mdp = Mdp(
    discountFactor: real,
    serverStaticInfo: seq<ServerStaticInfo>,
    nJobs: int,
    kServers: int,
    arrivalRates: seq<real>,
    tickRate: real,
    uniformizationRate: real)

  /** What `GetStaticInfo` reports. */
  datatype QueueStaticInfo = QueueStaticInfo(validActions: int)

  /** `State`: the server manager, the queue manager and the category. */
  class State {
    const serverManager: ServerDynamicState
    const queueManager: MultiQueue
    var cat: StateCategory

    /** A value-initialised state (`State state{}`). */
    constructor()
      ensures fresh(serverManager) && fresh(queueManager)
      ensures serverManager.staticInfo.None? && serverManager.busyOn == []
      ensures serverManager.idlePerJob == [] && !serverManager.hasIdleCapacity
      ensures queueManager.filWaiting == []
      ensures serverManager.totalServiceRate == 0.0
      ensures queueManager.totalTickRate == 0.0 && queueManager.totalArrivalRate == 0.0
      ensures cat == AwaitEvent
    {
      serverManager := new ServerDynamicState();
      queueManager := new MultiQueue();
      cat := AwaitEvent;
    }
  }

  /** `GetStaticInfo`: one valid action. */
  function GetStaticInfo(mdp: Mdp): (info: QueueStaticInfo)
    ensures info.validActions == 1
  {
    QueueStaticInfo(1)
  }

  /** `GetStateCategory`: the category stored in the state. */
  function GetStateCategory(state: State): (c: StateCategory)
    reads state
    ensures c == state.cat
  {
    state.cat
  }

  /**
   * `GetInitialState`: a fresh state awaiting an event, with one all-zero
   * busy row per server type, linked to the MDP's server table and with its
   * idle capacity computed from that table.
   */
  method GetInitialState(mdp: Mdp) returns (state: State)
    requires IdleIndexSafe(mdp.serverStaticInfo, ZeroTable(mdp.serverStaticInfo))
    ensures fresh(state) && fresh(state.serverManager) && fresh(state.queueManager)
    ensures GetStateCategory(state) == AwaitEvent
    ensures state.serverManager.busyOn == ZeroTable(mdp.serverStaticInfo)
    ensures state.serverManager.staticInfo == Some(mdp.serverStaticInfo)
    ensures state.serverManager.idlePerJob == IdleCapacity(Some(mdp.serverStaticInfo), ZeroTable(mdp.serverStaticInfo))
    ensures state.serverManager.hasIdleCapacity <==>
      exists n :: 0 <= n < |state.serverManager.idlePerJob| && state.serverManager.idlePerJob[n] > 0
    ensures state.queueManager.filWaiting == []
    ensures state.serverManager.totalServiceRate == 0.0 ==
      TotalRate(state.serverManager.busyOn, mdp.serverStaticInfo, |mdp.serverStaticInfo|)
    ensures state.queueManager.totalTickRate == 0.0 && state.queueManager.totalArrivalRate == 0.0
  {
    state := new State();
    state.cat := AwaitEvent;
    var S := mdp.serverStaticInfo;
    var manager := state.serverManager;
    manager.busyOn := seq(|S|, _ => []);
    for k := 0 to |S|
      invariant state.cat == AwaitEvent && state.queueManager.filWaiting == []
      invariant manager.totalServiceRate == 0.0
      invariant state.queueManager.totalTickRate == 0.0 && state.queueManager.totalArrivalRate == 0.0
      invariant |manager.busyOn| == |S|
      invariant forall k' :: 0 <= k' < k ==> manager.busyOn[k'] == ZeroTable(S)[k']
    {
      manager.busyOn := manager.busyOn[k := seq(|S[k].canServe|, _ => 0)];
    }
    assert manager.busyOn == ZeroTable(S);
    manager.staticInfo := Some(S);
    manager.UpdateIdleCapacity();
    ZeroTableRate(S, |S|);
  }

  /** The initial state carries no service rate yet: its busy table contributes 0. */
  lemma InitialStateRateZero(mdp: Mdp)
    ensures TotalRate(ZeroTable(mdp.serverStaticInfo), mdp.serverStaticInfo, |mdp.serverStaticInfo|) == 0.0
  {
    ZeroTableRate(mdp.serverStaticInfo, |mdp.serverStaticInfo|);
  }
}
