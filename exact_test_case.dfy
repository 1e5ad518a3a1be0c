/**
 * The `exact_test_case` MDP: a four-node walk driven by actions, followed by
 * a coin-flip event that either ends the run or starts the walk again.
 * Actions cost 0, events cost 10.
 */
module ExactTestCase {
  import opened Wrappers
  import opened Categories

  /** What `GetStaticInfo` reports. */
  datatype ExactStaticInfo = ExactStaticInfo(validActions: int, horizonType: string)

  /** `GetStaticInfo`: five valid actions, finite horizon. */
  function GetStaticInfo(): (info: ExactStaticInfo)
    ensures info.validActions == 5 && info.horizonType == "finite"
  {
    ExactStaticInfo(5, "finite")
  }

  /** `IsAllowedAction`: every action is allowed in every state. */
  function IsAllowedAction(cat: StateCategory, currentNode: int, action: int): (allowed: bool)
    ensures allowed
  {
    true
  }

  /** The event distribution `{0.5, 0.5}` over events 0 and 1. */
  function EventProbabilities(): (d: seq<(int, real)>)
    ensures |d| == 2 && d[0].0 == 0 && d[1].0 == 1 && d[0].1 + d[1].1 == 1.0
  {
    [(0, 0.5), (1, 0.5)]
  }

  /** The state as a value: category and current node. */
  datatype Snapshot = Snapshot(cat: StateCategory, currentNode: int)

  /** The effect of one action: walk to the next node, or from node 3 back to 0 and await an event. */
  function ActionStep(s: Snapshot): (t: Snapshot)
    ensures s.currentNode != 3 ==> t == s.(currentNode := s.currentNode + 1)
    ensures s.currentNode == 3 ==> t == Snapshot(AwaitEvent, 0)
  {
    if s.currentNode != 3 then s.(currentNode := s.currentNode + 1)
    else Snapshot(AwaitEvent, 0)
  }

  /** The effect of one event: event 0 ends the run, any other starts the walk again. */
  function EventStep(s: Snapshot, event: int): (t: Snapshot)
    ensures t.currentNode == s.currentNode
    ensures t.cat == if event == 0 then Final else AwaitAction(0)
  {
    if event == 0 then s.(cat := Final) else s.(cat := AwaitAction(0))
  }

  const ActionCost: real := 0.0
  const EventCost: real := 10.0

  /** The node stays in `[0, 3]` under actions. */
  lemma ActionKeepsNodeInRange(s: Snapshot)
    requires 0 <= s.currentNode <= 3
    ensures 0 <= ActionStep(s).currentNode <= 3
  {
  }

  /** Applies `n` actions. */
  function Actions(s: Snapshot, n: nat): Snapshot {
    if n == 0 then s else ActionStep(Actions(s, n - 1))
  }

  /**
   * From node `v` in `[0, 3]` and an AwaitAction category, each of the next
   * `3 - v` actions keeps the category and moves one node on.
   */
  lemma {:induction false} WalkFromNode(s: Snapshot, i: nat)
    requires s.cat.AwaitAction? && 0 <= s.currentNode <= 3
    requires i <= 3 - s.currentNode
    ensures Actions(s, i) == s.(currentNode := s.currentNode + i)
    decreases i
  {
    if i > 0 {
      WalkFromNode(s, i - 1);
    }
  }

  /** From AwaitAction at node 0 exactly four actions reach AwaitEvent; fewer stay in AwaitAction. */
  lemma FourActionsToEvent(index: int)
    ensures forall i :: 0 <= i < 4 ==> Actions(Snapshot(AwaitAction(index), 0), i).cat == AwaitAction(index)
    ensures Actions(Snapshot(AwaitAction(index), 0), 4) == Snapshot(AwaitEvent, 0)
  {
    var s := Snapshot(AwaitAction(index), 0);
    forall i | 0 <= i < 4
      ensures Actions(s, i).cat == AwaitAction(index)
    {
      WalkFromNode(s, i);
    }
    WalkFromNode(s, 3);
  }

  /** One step of a run: an action or an event. */
  datatype Step = Act(action: int) | Ev(event: int)

  /** Final snapshot and accumulated cost of a run, steps applied in order. */
  function Run(s: Snapshot, steps: seq<Step>): (Snapshot, real)
    decreases |steps|
  {
    if |steps| == 0 then (s, 0.0)
    else
      var (t, c) := match steps[0]
        case Act(_) => (ActionStep(s), ActionCost)
        case Ev(e) => (EventStep(s, e), EventCost);
      var (u, rest) := Run(t, steps[1..]);
      (u, c + rest)
  }

  function CountEvents(steps: seq<Step>): nat {
    if |steps| == 0 then 0 else (if steps[0].Ev? then 1 else 0) + CountEvents(steps[1..])
  }

  /** Along any run from a node in `[0, 3]` the node stays in `[0, 3]`. */
  lemma {:induction false} RunKeepsNodeInRange(s: Snapshot, steps: seq<Step>)
    requires 0 <= s.currentNode <= 3
    ensures 0 <= Run(s, steps).0.currentNode <= 3
    decreases |steps|
  {
    if |steps| > 0 {
      match steps[0]
      case Act(_) =>
        ActionKeepsNodeInRange(s);
        RunKeepsNodeInRange(ActionStep(s), steps[1..]);
      case Ev(e) =>
        RunKeepsNodeInRange(EventStep(s, e), steps[1..]);
    }
  }

  /** A run costs 10 per event and nothing per action. */
  lemma {:induction false} RunCost(s: Snapshot, steps: seq<Step>)
    ensures Run(s, steps).1 == 10.0 * (CountEvents(steps) as real)
    decreases |steps|
  {
    if |steps| > 0 {
      match steps[0]
      case Act(_) =>
        RunCost(ActionStep(s), steps[1..]);
      case Ev(e) =>
        RunCost(EventStep(s, e), steps[1..]);
    }
  }

  /**
   * The expected cost of the next `k` steps from `s`, undiscounted (the
   * default discount factor is 1): an action follows `ActionStep` at its
   * cost, an event weighs each outcome of `EventProbabilities` by its
   * probability, and a final state costs nothing more. Every action has the
   * same effect, so no choice of action changes this value.
   */
  function ExpectedCost(s: Snapshot, k: nat): (r: real)
    ensures 0.0 <= r <= EventCost * (k as real)
    ensures s.cat.Final? ==> r == 0.0
    decreases k
  {
    if k == 0 || s.cat.Final? then 0.0
    else if s.cat.AwaitAction? then ActionCost + ExpectedCost(ActionStep(s), k - 1)
    else
      var d := EventProbabilities();
      d[0].1 * (EventCost + ExpectedCost(EventStep(s, d[0].0), k - 1)) +
      d[1].1 * (EventCost + ExpectedCost(EventStep(s, d[1].0), k - 1))
  }

  /** The initial snapshot of `GetInitialState`. */
  const Start: Snapshot := Snapshot(AwaitAction(0), 0)

  /** The four free actions of a cycle lead from the initial state to the event at node 0. */
  lemma WalkCost(k: nat)
    requires k >= 4
    ensures ExpectedCost(Start, k) == ExpectedCost(Snapshot(AwaitEvent, 0), k - 4)
  {
    WalkFromNode(Start, 3);
    assert ExpectedCost(Start, k) == ExpectedCost(Start.(currentNode := 1), k - 1);
    assert ExpectedCost(Start.(currentNode := 1), k - 1) == ExpectedCost(Start.(currentNode := 2), k - 2);
    assert ExpectedCost(Start.(currentNode := 2), k - 2) == ExpectedCost(Start.(currentNode := 3), k - 3);
  }

  /** The event at node 0 costs 10 and restarts the walk with probability 1/2. */
  lemma EventCostStep(k: nat)
    requires k >= 1
    ensures ExpectedCost(Snapshot(AwaitEvent, 0), k) == EventCost + 0.5 * ExpectedCost(Start, k - 1)
  {
    var atEvent := Snapshot(AwaitEvent, 0);
    assert EventProbabilities() == [(0, 0.5), (1, 0.5)];
    assert EventStep(atEvent, 0).cat.Final? && EventStep(atEvent, 1) == Start;
  }

  /**
   * One more cycle of four free actions and one event: the event costs 10,
   * ends the run on outcome 0 and restarts the cycle on outcome 1, so the
   * expected cost over `c + 1` cycles is `10 + 1/2` of that over `c`.
   */
  lemma CycleCost(c: nat)
    ensures ExpectedCost(Start, 5 * c + 5) == EventCost + 0.5 * ExpectedCost(Start, 5 * c)
  {
    WalkCost(5 * c + 5);
    EventCostStep(5 * c + 1);
  }

  /** `1/2` to the power `c`. */
  function Half(c: nat): (h: real)
    ensures 0.0 < h <= 1.0
  {
    if c == 0 then 1.0 else 0.5 * Half(c - 1)
  }

  /**
   * The halving shrinks at least as fast as `1 / (c + 1)`: with
   * `ExpectedCostOfCycles`, the expected cost over `c` cycles is within
   * `20 / (c + 1)` of 20.
   */
  lemma {:induction false} HalfBound(c: nat)
    ensures (c as real + 1.0) * Half(c) <= 1.0
  {
    if c > 0 {
      HalfBound(c - 1);
      assert (c as real + 1.0) * Half(c) == 0.5 * ((c as real) * Half(c - 1) + Half(c - 1));
    }
  }

  /**
   * Over `c` whole cycles from the initial state the expected cost is
   * `20 * (1 - (1/2)^c)`, below 20; it tends to the cost 20 the exact
   * solver reports, as `HalfBound` shows.
   */
  lemma {:induction false} ExpectedCostOfCycles(c: nat)
    ensures ExpectedCost(Start, 5 * c) == 20.0 - 20.0 * Half(c)
    ensures ExpectedCost(Start, 5 * c) < 20.0
  {
    if c > 0 {
      ExpectedCostOfCycles(c - 1);
      CycleCost(c - 1);
      assert 5 * c == 5 * (c - 1) + 5;
      assert Half(c) == 0.5 * Half(c - 1);
    }
  }

  /** `GetStateCategory`: the category stored in the state. */
  function GetStateCategory(state: State): (c: StateCategory)
    reads state
    ensures c == state.cat
  {
    state.cat
  }

  /** `State`: category and current node. */
  class State {
    var cat: StateCategory
    var currentNode: int

    /** A value-initialised state. */
    constructor()
      ensures cat == AwaitEvent && currentNode == 0
    {
      cat := AwaitEvent;
      currentNode := 0;
    }

    function Snap(): Snapshot
      reads this
    {
      Snapshot(cat, currentNode)
    }

    /** `ToVarGroup`: the category under "cat" and the node under "currentNode". */
    function ToVarGroup(): (vars: VarGroup)
      reads this
      ensures vars == ToVars(Snap())
    {
      map["cat" := CatVar(cat), "currentNode" := IntVar(currentNode)]
    }
  }

  /** A framework variable group: named values of a few kinds. */
  datatype Var = CatVar(c: StateCategory) | IntVar(i: int)
  type VarGroup = map<string, Var>

  datatype VarError = MissingKey(key: string) | WrongKind(key: string)

  function ToVars(s: Snapshot): VarGroup {
    map["cat" := CatVar(s.cat), "currentNode" := IntVar(s.currentNode)]
  }

  /** Reading the two state variables back; a missing or mistyped key is an error. */
  function FromVars(vars: VarGroup): (r: Result<Snapshot, VarError>)
    ensures r.Success? <==>
      "cat" in vars && vars["cat"].CatVar? && "currentNode" in vars && vars["currentNode"].IntVar?
    ensures r.Success? ==> r.value.cat == vars["cat"].c && r.value.currentNode == vars["currentNode"].i
  {
    if "cat" !in vars then Failure(MissingKey("cat"))
    else if !vars["cat"].CatVar? then Failure(WrongKind("cat"))
    else if "currentNode" !in vars then Failure(MissingKey("currentNode"))
    else if !vars["currentNode"].IntVar? then Failure(WrongKind("currentNode"))
    else Success(Snapshot(vars["cat"].c, vars["currentNode"].i))
  }

  /** Writing a state and reading it back gives the same state. */
  lemma VarsRoundTrip(s: Snapshot)
    ensures FromVars(ToVars(s)) == Success(s)
  {
  }

  /** A group that reads back agrees with the written form of what was read on both keys. */
  lemma VarsReadBack(vars: VarGroup)
    requires FromVars(vars).Success?
    ensures var w := ToVars(FromVars(vars).value);
      w["cat"] == vars["cat"] && w["currentNode"] == vars["currentNode"]
  {
  }

  /** `GetState`: a fresh state holding the values read from `vars`. */
  method GetState(vars: VarGroup) returns (r: Result<State, VarError>)
    ensures r.Failure? <==> FromVars(vars).Failure?
    ensures r.Failure? ==> r.error == FromVars(vars).error
    ensures r.Success? ==> fresh(r.value) && r.value.Snap() == FromVars(vars).value
  {
    var read := FromVars(vars);
    if read.Failure? {
      return Failure(read.error);
    }
    var state := new State();
    state.cat := read.value.cat;
    state.currentNode := read.value.currentNode;
    return Success(state);
  }

  /** `GetInitialState`: AwaitAction(0) at node 0. */
  method GetInitialState() returns (state: State)
    ensures fresh(state) && state.Snap() == Snapshot(AwaitAction(0), 0)
  {
    state := new State();
    state.cat := AwaitAction(0);
    state.currentNode := 0;
  }

  /** `ModifyStateWithAction`: one walk step, at cost 0. */
  method ModifyStateWithAction(state: State, action: int) returns (cost: real)
    modifies state
    ensures state.Snap() == ActionStep(old(state.Snap()))
    ensures cost == ActionCost
  {
    if state.currentNode != 3 {
      state.currentNode := state.currentNode + 1;
    } else {
      state.currentNode := 0;
      state.cat := AwaitEvent;
    }
    return 0.0;
  }

  /** `ModifyStateWithEvent`: end the run on event 0, otherwise await an action; cost 10. */
  method ModifyStateWithEvent(state: State, event: int) returns (cost: real)
    modifies state
    ensures state.Snap() == EventStep(old(state.Snap()), event)
    ensures cost == EventCost
  {
    if event == 0 {
      state.cat := Final;
    } else {
      state.cat := AwaitAction(0);
    }
    return 10.0;
  }
}
