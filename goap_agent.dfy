/**
 * GOAPAgent.cs: the agent that plans with the GOAP planner and executes the plan through its
 * finite state machine. What the agent asks of the world (IAIAgent) and of the actions at run
 * time are inputs of the state bodies, and the calls it makes on them are recorded as events.
 */
module GoapAgents {
  import opened Wrappers
  import opened WorldState
  import opened SeqUtil
  import opened GoapActions
  import opened DataStore
  import opened Collections
  import opened PlannerHelper
  import opened PlanSpec
  import opened Planner
  import opened Fsms

  /** A call the agent makes on its IAIAgent or on an action. */
  datatype Event =
    | PlanFound(goal: Goal, plan: seq<GoapAction>)
    | PlanFailed(goals: seq<Goal>)
    | PlanAborted(action: GoapAction)
    | ActionsFinished
    | MoveAgent(action: GoapAction)
    | Performed(action: GoapAction)

  /** What one FSM tick receives from the world and from the actions it queries. */
  datatype TickInput = TickInput(
    world: State,            // IAIAgent.CreateWorldState
    goals: seq<Goal>,        // IAIAgent.CreateGoalState, in enumeration order
    order: seq<GoapAction>,  // the enumeration order of the available-action set
    headDone: bool,          // IsDone of the queue head
    requiresInRange: bool,   // RequiresInRange of the action about to run
    inRange: bool,           // IsInRange of that action
    performed: bool,         // what Perform returns
    moved: bool)             // what IAIAgent.MoveAgent returns

  /** `order` lists every element of `s` exactly once: an enumeration of a HashSet. */
  ghost predicate Enumerates(order: seq<GoapAction>, s: set<GoapAction>)
  {
    Distinct(order) && (forall a | a in order :: a in s) && (forall a | a in s :: a in order)
  }

  /** The index of the first goal the planner finds a plan for, or |goals| when there is none. */
  ghost function FirstFound(usable: seq<GoapAction>, start: State, goals: seq<Goal>): (i: nat)
    requires PositiveActions(usable)
    ensures i <= |goals|
    ensures forall j | 0 <= j < i :: PlanOf(usable, start, goals[j]).None?
    ensures i < |goals| ==> PlanOf(usable, start, goals[i]).Some?
    decreases |goals|
  {
    if goals == [] then 0
    else if PlanOf(usable, start, goals[0]).Some? then 0
    else 1 + FirstFound(usable, start, goals[1..])
  }

  /** FirstFound is the only index before which every goal fails and at which one succeeds. */
  lemma {:induction false} FirstFoundIs(usable: seq<GoapAction>, start: State, goals: seq<Goal>, k: nat)
    requires PositiveActions(usable) && k <= |goals|
    requires forall j | 0 <= j < k :: PlanOf(usable, start, goals[j]).None?
    requires k < |goals| ==> PlanOf(usable, start, goals[k]).Some?
    ensures FirstFound(usable, start, goals) == k
    decreases k
  {
    if k > 0 {
      assert PlanOf(usable, start, goals[0]).None?;
      forall j | 0 <= j < k - 1 ensures PlanOf(usable, start, goals[1..][j]).None? {
        assert goals[1..][j] == goals[j + 1];
      }
      if k < |goals| {
        assert goals[1..][k - 1] == goals[k];
      }
      FirstFoundIs(usable, start, goals[1..], k - 1);
    }
  }

  /** What Plan leaves in every action it is given: reset, with the store's "Player" as target. */
  ghost predicate Prepared(a: GoapAction, store: DataStorage)
    reads a, store
  {
    !a.inRange && !a.hasAttacked && a.target == Lookup(store.data, PlayerKey)
  }

  /**
   * The goal loop of the idle state: plans for each goal in turn and stops at the first plan.
   * A failed Plan leaves its nodes in use, so the pools only grow until a plan is found.
   */
  method PlanFirst(pool: Pool, order: seq<GoapAction>, store: DataStorage, worldState: StateDict, goals: seq<Goal>)
    returns (plan: Option<seq<GoapAction>>, k: nat)
    requires Good(pool) && worldState !in pool.freeStates
    requires Distinct(order) && PositiveActions(order)
    modifies pool, pool.ids, set x | x in pool.freeNodes, set x | x in pool.freeStates, set x | x in pool.freeSets
    modifies set a | a in order
    ensures Good(pool) && worldState.m == old(worldState.m)
    ensures k == FirstFound(Usable(order, store.data), worldState.m, goals)
    ensures plan == if k < |goals| then PlanOf(Usable(order, store.data), worldState.m, goals[k]) else None
    ensures goals != [] ==> forall a | a in order :: Prepared(a, store)
    ensures goals == [] ==> forall a | a in order :: unchanged(a)
  {
    ghost var fn0, fs0, fa0 := pool.freeNodes, pool.freeStates, pool.freeSets;
    ghost var un0, ua0 := pool.usedNodes, pool.usedSets;
    ghost var usable, start := Usable(order, store.data), worldState.m;
    plan := None;
    k := 0;
    ghost var ran := false;
    while k < |goals|
      invariant k <= |goals| && plan.None?
      invariant ran <==> k > 0
      invariant ran ==> forall a | a in order :: Prepared(a, store)
      invariant !ran ==> forall a | a in order :: unchanged(a)
      invariant forall j | 0 <= j < k :: PlanOf(usable, start, goals[j]).None?
      invariant Good(pool) && GrownFrom(pool, fn0, fs0, fa0, un0, ua0)
      invariant worldState.m == start && worldState !in pool.freeStates
    {
      plan := Plan(pool, order, store, worldState, goals[k]);
      ran := true;
      if plan.Some? {
        break;
      }
      k := k + 1;
    }
    FirstFoundIs(usable, start, goals, k);
  }

  class GoapAgent {
    const fsm: Fsm
    /** The planner's static pools (GOAPPlannerHelper); the planner object itself holds nothing. */
    const pool: Pool
    /** IAIAgent.DataHolder. */
    const store: DataStorage
    /** _availableActions. */
    var available: set<GoapAction>
    /** _currentActions, head first. */
    var current: seq<GoapAction>
    /** The calls made so far on the IAIAgent and on actions, oldest first. */
    var events: seq<Event>

    /** Start: a fresh machine holding only the idle state, and the agent's action set loaded. */
    constructor (pool: Pool, store: DataStorage, actions: set<GoapAction>)
      ensures this.pool == pool && this.store == store && fresh(fsm)
      ensures fsm.stack == [Idle] && available == actions && current == [] && events == []
    {
      this.pool := pool;
      this.store := store;
      available := {};
      current := [];
      events := [];
      var m := new Fsm();
      fsm := m;
      new;
      fsm.PushState(Idle);
      available := actions;
    }

    method AddAction(a: GoapAction)
      modifies this`available
      ensures available == old(available) + {a}
    {
      available := available + {a};
    }

    method RemoveAction(a: GoapAction)
      modifies this`available
      ensures available == old(available) - {a}
    {
      available := available - {a};
    }

    /** The first available action, in enumeration order, of the given runtime type; null if none. */
    method GetAction(t: ActionKind, order: seq<GoapAction>) returns (r: GoapAction?)
      requires Enumerates(order, available)
      ensures r == null <==> forall a | a in available :: a.kind != t
      ensures r != null ==> r in available && r.kind == t
      ensures r != null ==> exists i | 0 <= i < |order| :: order[i] == r && forall j | 0 <= j < i :: order[j].kind != t
    {
      for i := 0 to |order|
        invariant forall j | 0 <= j < i :: order[j].kind != t
      {
        if order[i].kind == t {
          return order[i];
        }
      }
      r := null;
    }

    /** The machine is reset to the idle state alone. */
    method AbortFsm()
      modifies fsm
      ensures fsm.stack == [Idle]
    {
      fsm.ClearState();
      fsm.PushState(Idle);
    }

    function HasActionPlan(): (r: bool)
      reads this
      ensures r <==> |current| > 0
    {
      current != []
    }

    /**
     * The idle state: plans for the goals in order and keeps the first plan found. The agent
     * then performs it; when no goal can be planned for, the machine restarts from idle.
     */
    method IdleState(world: State, goals: seq<Goal>, order: seq<GoapAction>)
      requires fsm.stack != [] && Good(pool)
      requires Enumerates(order, available) && PositiveActions(order)
      modifies this`current, this`events, fsm, pool, pool.ids
      modifies set x | x in pool.freeNodes, set x | x in pool.freeStates, set x | x in pool.freeSets
      modifies set a | a in order
      ensures Good(pool) && IdleEffect(old(current), old(events), old(fsm.stack), world, goals, order)
      ensures goals == [] ==> forall a | a in order :: unchanged(a)
    {
      var worldState := new StateDict.Of(world);
      var plan, k := PlanFirst(pool, order, store, worldState, goals);
      Conclude(plan, if k < |goals| then goals[k] else Goal("", false), goals);
    }

    /**
     * What a run of the idle state leaves: the queue is the plan for the first goal that has
     * one, reported as found, with performAction in place of the top state; when no goal has a
     * plan the failure is reported and the machine restarts from idle. Planning resets every
     * action and points it at the store's "Player". The arguments ending in 0 are the queue,
     * the event log and the stack the state started from.
     */
    ghost predicate IdleEffect(current0: seq<GoapAction>, events0: seq<Event>, stack0: seq<StateKind>,
                               world: State, goals: seq<Goal>, order: seq<GoapAction>)
      requires PositiveActions(order)
      reads this, fsm, store, set a | a in order
    {
      && (var k := FirstFound(Usable(order, store.data), world, goals);
          if k < |goals| then
            && current == PlanOf(Usable(order, store.data), world, goals[k]).value
            && events == events0 + [PlanFound(goals[k], current)]
            && stack0 != []
            && fsm.stack == stack0[..|stack0| - 1] + [PerformAction]
          else
            && current == current0
            && events == events0 + [PlanFailed(goals)]
            && fsm.stack == [Idle])
      && (goals != [] ==> forall a | a in order :: Prepared(a, store))
    }

    /**
     * The end of the idle state: a found plan becomes the action queue and replaces the idle
     * state by performAction; otherwise the failure is reported and the machine restarts.
     */
    method Conclude(plan: Option<seq<GoapAction>>, goal: Goal, goals: seq<Goal>)
      requires fsm.stack != []
      modifies this`current, this`events, fsm
      ensures plan.Some? ==>
        && current == plan.value
        && events == old(events) + [PlanFound(goal, plan.value)]
        && fsm.stack == old(fsm.stack)[..|old(fsm.stack)| - 1] + [PerformAction]
      ensures plan.None? ==>
        && current == old(current)
        && events == old(events) + [PlanFailed(goals)]
        && fsm.stack == [Idle]
    {
      if plan.Some? {
        current := plan.value;
        events := events + [PlanFound(goal, plan.value)];
        var _ := fsm.PopState();
        fsm.PushState(PerformAction);
      } else {
        events := events + [PlanFailed(goals)];
        fsm.ClearState();
        fsm.PushState(Idle);
      }
    }

    /**
     * What a run of the moveTo state leaves: an empty queue throws and changes nothing; an
     * action that needs a missing target restarts the machine from idle; otherwise the agent is
     * moved towards the head and, when it arrives, moveTo is popped. The queue is kept.
     */
    ghost predicate MoveToEffect(current0: seq<GoapAction>, events0: seq<Event>, stack0: seq<StateKind>,
                                 r: Outcome, requiresInRange: bool, hasTarget: bool, moved: bool)
      reads this, fsm
    {
      && current == current0
      && (r.Fail? <==> current0 == [])
      && (r.Fail? ==> r.error == InvalidOperationException && events == events0 && fsm.stack == stack0)
      && (r.Pass? && requiresInRange && !hasTarget ==> events == events0 && fsm.stack == [Idle])
      && (r.Pass? && !(requiresInRange && !hasTarget) ==>
        && events == events0 + [MoveAgent(current[0])]
        && stack0 != []
        && fsm.stack == if moved then stack0[..|stack0| - 1] else stack0)
    }

    /**
     * The moveTo state: an action that needs a target it does not have sends the machine back
     * to idle without moving; otherwise the agent moves and, once there, leaves this state.
     * Queue.Peek throws on an empty action queue.
     */
    method MoveToState(requiresInRange: bool, moved: bool) returns (r: Outcome)
      requires fsm.stack != []
      modifies this`events, fsm
      ensures MoveToEffect(old(current), old(events), old(fsm.stack), r, requiresInRange,
                           old(current != [] && current[0].target.Some?), moved)
    {
      if current == [] {
        return Fail(InvalidOperationException);
      }
      var action := current[0];
      r := Pass;
      if requiresInRange && action.target.None? {
        fsm.ClearState();
        fsm.PushState(Idle);
        return;
      }
      events := events + [MoveAgent(action)];
      if moved {
        var _ := fsm.PopState();
      }
    }

    /**
     * What a run of the performAction state leaves: a done head is dequeued; an exhausted queue
     * is reported finished and restarts the machine; an action out of range pushes moveTo;
     * otherwise the head is performed, and when that fails the plan is aborted and the machine
     * restarts from idle.
     */
    ghost predicate PerformEffect(current0: seq<GoapAction>, events0: seq<Event>, stack0: seq<StateKind>,
                                  headDone: bool, requiresInRange: bool, inRange: bool, performed: bool)
      reads this, fsm
    {
      && (current0 == [] ==> current == [] && events == events0 + [ActionsFinished] && fsm.stack == [Idle])
      && (current0 != [] ==> current == if headDone then current0[1..] else current0)
      && (current0 != [] && current == [] ==> events == events0 + [ActionsFinished] && fsm.stack == [Idle])
      && (current != [] && requiresInRange && !inRange ==>
        events == events0 && fsm.stack == stack0 + [MoveTo])
      && (current != [] && !(requiresInRange && !inRange) && performed ==>
        events == events0 + [Performed(current[0])] && fsm.stack == stack0)
      && (current != [] && !(requiresInRange && !inRange) && !performed ==>
        events == events0 + [Performed(current[0]), PlanAborted(current[0])] && fsm.stack == [Idle])
    }

    /**
     * The performAction state: drops the head once it is done, then performs the next action
     * when it is in range (or needs no range) and otherwise moves towards it first. A failed
     * action aborts the plan; an exhausted queue finishes it. Either restarts from idle.
     */
    method PerformActionState(headDone: bool, requiresInRange: bool, inRange: bool, performed: bool)
      modifies this`current, this`events, fsm
      ensures PerformEffect(old(current), old(events), old(fsm.stack), headDone, requiresInRange, inRange, performed)
    {
      if !HasActionPlan() {
        events := events + [ActionsFinished];
        fsm.ClearState();
        fsm.PushState(Idle);
        return;
      }
      if headDone {
        current := current[1..];
      }
      if HasActionPlan() {
        var action := current[0];
        var ready := if requiresInRange then inRange else true;
        if ready {
          events := events + [Performed(action)];
          if !performed {
            events := events + [PlanAborted(action)];
            fsm.ClearState();
            fsm.PushState(Idle);
          }
        } else {
          fsm.PushState(MoveTo);
        }
      } else {
        events := events + [ActionsFinished];
        fsm.ClearState();
        fsm.PushState(Idle);
      }
    }

    /**
     * One frame: the FSM runs the body of its top state with this frame's inputs. On an empty
     * stack Stack.Peek throws and nothing changes.
     */
    method Update(t: TickInput) returns (r: Outcome)
      requires Good(pool) && Enumerates(t.order, available) && PositiveActions(t.order)
      modifies this`current, this`events, fsm, pool, pool.ids
      modifies set x | x in pool.freeNodes, set x | x in pool.freeStates, set x | x in pool.freeSets
      modifies set a | a in t.order
      ensures Good(pool)
      ensures old(fsm.stack) == [] ==> r == Fail(InvalidOperationException) && fsm.stack == [] && events == old(events)
      ensures r.Fail? ==> current == old(current) && events == old(events) && fsm.stack == old(fsm.stack)
      ensures r.Fail? <==> old(fsm.stack) == [] || (Peek(old(fsm.stack)) == Ok(MoveTo) && old(current) == [])
      ensures Peek(old(fsm.stack)) == Ok(Idle) ==>
        && IdleEffect(old(current), old(events), old(fsm.stack), t.world, t.goals, t.order)
        && (t.goals == [] ==> forall a | a in t.order :: unchanged(a))
      ensures Peek(old(fsm.stack)) == Ok(MoveTo) ==>
        MoveToEffect(old(current), old(events), old(fsm.stack), r, t.requiresInRange,
                     old(current != [] && current[0].target.Some?), t.moved)
      ensures Peek(old(fsm.stack)) == Ok(PerformAction) ==>
        PerformEffect(old(current), old(events), old(fsm.stack), t.headDone, t.requiresInRange, t.inRange, t.performed)
    {
      var top := fsm.Update();
      match top {
        case Err(e) =>
          r := Fail(e);
        case Ok(Idle) =>
          IdleState(t.world, t.goals, t.order);
          r := Pass;
        case Ok(MoveTo) =>
          r := MoveToState(t.requiresInRange, t.moved);
        case Ok(PerformAction) =>
          PerformActionState(t.headDone, t.requiresInRange, t.inRange, t.performed);
          r := Pass;
      }
    }
  }
}
