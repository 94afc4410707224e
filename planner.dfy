/**
 * GOAPPlanner.cs: the depth-first search over pooled nodes, states and action sets, proved
 * to compute the leaves and the plan of the specification functions in PlanSpec.
 */
module Planner {
  import opened Wrappers
  import opened WorldState
  import opened GoapActions
  import opened DataStore
  import opened SeqUtil
  import opened Collections
  import opened GoapNodes
  import opened PlannerHelper
  import opened PlanSpec

  /** The node carries the search node `s`: its path, the contents of its state, its cost and weight. */
  ghost predicate Holds(n: Node, s: SearchNode)
    reads n, n.state
  {
    && n.state != null && n.state.m == s.state
    && n.path == s.path && n.runningCost == s.cost && n.weight == s.weight
  }

  /**
   * The leaf nodes `ls` carry, one for one, the paths, running costs and weights of the
   * search nodes `e`: all that Plan reads from a leaf.
   */
  ghost predicate Denotes(ls: seq<Node>, e: seq<SearchNode>)
    reads set l | l in ls
    decreases |ls|
  {
    && |ls| == |e|
    && (|ls| > 0 ==>
        && Denotes(ls[..|ls| - 1], e[..|e| - 1])
        && var n, s := ls[|ls| - 1], e[|e| - 1];
           n.path == s.path && n.runningCost == s.cost && n.weight == s.weight)
  }

  /** A used node's parent is a used node, and its ghost depth and path follow the parent link. */
  ghost predicate Linked(pool: Pool, n: Node)
    reads pool, n, set x | x in pool.usedNodes
  {
    if n.parent == null then
      n.depth == 0 && n.path == (if n.action == null then [] else [n.action])
    else
      && n.parent in pool.usedNodes
      && n.depth == n.parent.depth + 1
      && n.path == n.parent.path + (if n.action == null then [] else [n.action])
  }

  /** The pool is valid, and every used node has a state that is not free and a linked parent. */
  ghost predicate Good(pool: Pool)
    reads pool, pool.ids, set x | x in pool.usedNodes
  {
    && pool.Valid()
    && forall n | n in pool.usedNodes :: n.state != null && n.state !in pool.freeStates && Linked(pool, n)
  }

  /** A node's action is the last one of its path; the root has neither. */
  ghost predicate ActionIsLast(n: Node)
    reads n
  {
    if n.action == null then n.path == [] else n.path != [] && n.path[|n.path| - 1] == n.action
  }

  /** Nothing becomes free, and the used nodes and action sets stay in use. */
  twostate predicate Grown(pool: Pool)
    reads pool
  {
    GrownFrom(pool, old(pool.freeNodes), old(pool.freeStates), old(pool.freeSets), old(pool.usedNodes), old(pool.usedSets))
  }

  /** Since the snapshots were taken, the free stacks only shrank and the used stacks only grew. */
  ghost predicate GrownFrom(pool: Pool, fn0: seq<Node>, fs0: seq<StateDict>, fa0: seq<ActionSet>, un0: seq<Node>, ua0: seq<ActionSet>)
    reads pool
  {
    && (forall x | x in pool.freeNodes :: x in fn0)
    && (forall x | x in pool.freeStates :: x in fs0)
    && (forall x | x in pool.freeSets :: x in fa0)
    && (forall x | x in un0 :: x in pool.usedNodes)
    && (forall x | x in ua0 :: x in pool.usedSets)
  }

  /** InState's loop: stops at the first precondition the state lacks or contradicts. */
  method InStateScan(preconditions: State, parentState: State) returns (allMatch: bool)
    ensures allMatch == InState(preconditions, parentState)
  {
    allMatch := true;
    var keys := preconditions.Keys;
    while keys != {}
      invariant keys <= preconditions.Keys
      invariant forall k | k in preconditions && k !in keys :: k in parentState && parentState[k] == preconditions[k]
      decreases keys
    {
      var k :| k in keys;
      var matches := k in parentState && parentState[k] == preconditions[k];
      if !matches {
        allMatch := false;
        break;
      }
      keys := keys - {k};
    }
  }

  /** CondRelation's loop: stops at the first precondition some effect equals. */
  method CondRelationScan(preconditions: State, effects: State) returns (found: bool)
    ensures found == CondRelation(preconditions, effects)
  {
    var keys := preconditions.Keys;
    while keys != {}
      invariant keys <= preconditions.Keys
      invariant forall k | k in preconditions && k !in keys :: !(k in effects && effects[k] == preconditions[k])
      decreases keys
    {
      var k :| k in keys;
      if k in effects && effects[k] == preconditions[k] {
        return true;
      }
      keys := keys - {k};
    }
    return false;
  }

  /**
   * PopulateState: a pooled dictionary holding the parent state overwritten by the effects.
   * A recycled dictionary still holds an old state, so it is cleared first.
   */
  method PopulateState(pool: Pool, parentState: StateDict, effects: State,
                       ghost leaves0: seq<Node>, ghost e0: seq<SearchNode>) returns (st: StateDict)
    requires Good(pool) && parentState !in pool.freeStates && Denotes(leaves0, e0)
    modifies pool, if |pool.freeStates| > 0 then {pool.freeStates[|pool.freeStates| - 1]} else {}
    ensures Good(pool) && Grown(pool)
    ensures st.m == Overlay(parentState.m, effects)
    ensures pool.usedStates == old(pool.usedStates) + [st]
    ensures old(|pool.freeStates|) > 0 ==> pool.freeStates == old(pool.freeStates[..|pool.freeStates| - 1])
    ensures old(|pool.freeStates|) == 0 ==> fresh(st) && pool.freeStates == []
    ensures pool.usedNodes == old(pool.usedNodes) && pool.freeNodes == old(pool.freeNodes)
    ensures pool.allNodes == old(pool.allNodes)
    ensures pool.usedSets == old(pool.usedSets) && pool.freeSets == old(pool.freeSets)
    ensures Denotes(leaves0, e0)
  {
    st := pool.GetFreeState();
    GoodAfterPop(pool);
    st.Clear();
    FillState(st, parentState.m, effects);
  }

  /** Taking a dictionary, node or set from the pool leaves the used nodes as they were linked. */
  twostate lemma GoodAfterPop(pool: Pool)
    requires old(Good(pool)) && pool.Valid()
    requires pool.usedNodes == old(pool.usedNodes) && pool.freeStates <= old(pool.freeStates)
    requires forall n | n in old(pool.usedNodes) :: unchanged(n)
    ensures Good(pool)
  {
    forall n | n in pool.usedNodes
      ensures n.state != null && n.state !in pool.freeStates && Linked(pool, n)
    {
      assert old(Linked(pool, n));
      if n.parent != null {
        assert unchanged(n.parent);
      }
    }
  }

  /** The two loops of PopulateState on a cleared dictionary. */
  method FillState(st: StateDict, parent: State, effects: State)
    requires st.m == map[]
    modifies st
    ensures st.m == Overlay(parent, effects)
  {
    CopyState(st, parent);
    OverwriteState(st, parent, effects);
  }

  /** The first loop: it only adds keys to an empty dictionary, so its Add never throws. */
  method CopyState(st: StateDict, parent: State)
    requires st.m == map[]
    modifies st
    ensures st.m == parent
  {
    var keys := parent.Keys;
    while keys != {}
      invariant keys <= parent.Keys
      invariant st.m.Keys == parent.Keys - keys
      invariant forall k | k in st.m :: st.m[k] == parent[k]
      decreases keys
    {
      var k :| k in keys;
      var r := st.Add(k, parent[k]);
      assert r == Pass;
      keys := keys - {k};
    }
  }

  /** The second loop: each effect overwrites the key when present and is added otherwise. */
  method OverwriteState(st: StateDict, parent: State, effects: State)
    requires st.m == parent
    modifies st
    ensures st.m == Overlay(parent, effects)
  {
    var keys := effects.Keys;
    while keys != {}
      invariant keys <= effects.Keys
      invariant st.m.Keys == parent.Keys + (effects.Keys - keys)
      invariant forall k | k in st.m :: st.m[k] == if k in effects && k !in keys then effects[k] else parent[k]
      decreases keys
    {
      var k :| k in keys;
      if k in st.m {
        st.Put(k, effects[k]);
      } else {
        var r := st.Add(k, effects[k]);
        assert r == Pass;
      }
      keys := keys - {k};
    }
  }

  /** A pooled action set holding the actions other than `remove`, in their order. */
  method ActionSubset(pool: Pool, actions: ActionSet, remove: GoapAction) returns (subset: ActionSet)
    requires Good(pool) && actions !in pool.freeSets && Distinct(actions.elems)
    modifies pool, if |pool.freeSets| > 0 then {pool.freeSets[|pool.freeSets| - 1]} else {}
    ensures Good(pool) && Grown(pool)
    ensures subset.elems == Without(actions.elems, remove)
    ensures pool.usedSets == old(pool.usedSets) + [subset]
    ensures old(|pool.freeSets|) > 0 ==> pool.freeSets == old(pool.freeSets[..|pool.freeSets| - 1])
    ensures old(|pool.freeSets|) == 0 ==> fresh(subset) && pool.freeSets == []
    ensures pool.usedNodes == old(pool.usedNodes) && pool.freeNodes == old(pool.freeNodes)
    ensures pool.allNodes == old(pool.allNodes)
    ensures pool.usedStates == old(pool.usedStates) && pool.freeStates == old(pool.freeStates)
  {
    subset := pool.GetFreeActionSet();
    GoodAfterPop(pool);
    FillSubset(subset, actions.elems, remove);
  }

  /** The loop of ActionSubset: every action but `remove` is added to the empty set. */
  method FillSubset(subset: ActionSet, elems: seq<GoapAction>, remove: GoapAction)
    requires subset.elems == [] && Distinct(elems)
    modifies subset
    ensures subset.elems == Without(elems, remove)
  {
    var i := 0;
    while i < |elems|
      invariant 0 <= i <= |elems|
      invariant subset.elems == Without(elems[..i], remove)
    {
      var a := elems[i];
      assert elems[..i + 1] == elems[..i] + [a];
      WithoutAppend(elems[..i], a, remove);
      if a != remove {
        assert a !in elems[..i] by {
          forall j | 0 <= j < i ensures elems[..i][j] != a {
            assert elems[..i][j] == elems[j];
          }
        }
        subset.Add(a);
      }
      i := i + 1;
    }
    assert elems[..i] == elems;
  }

  /** GetFreeNode on a good pool, for a node whose parent and state are in use. */
  method TakeNode(pool: Pool, parent: Node?, runningCost: real, weight: real, state: StateDict, action: GoapAction?,
                  ghost s: SearchNode, ghost leaves0: seq<Node>, ghost e0: seq<SearchNode>)
    returns (node: Node)
    requires Good(pool) && state !in pool.freeStates
    requires parent != null ==> parent in pool.usedNodes
    requires state.m == s.state && runningCost == s.cost && weight == s.weight
    requires s.path == (if parent == null then [] else parent.path) + (if action == null then [] else [action])
    requires (forall l | l in leaves0 :: l in pool.usedNodes) && Denotes(leaves0, e0)
    modifies pool, pool.ids, if |pool.freeNodes| > 0 then {pool.freeNodes[|pool.freeNodes| - 1]} else {}
    ensures Good(pool) && Grown(pool)
    ensures node.parent == parent && node.runningCost == runningCost && node.weight == weight
    ensures node.state == state && node.action == action
    ensures Holds(node, s)
    ensures pool.usedNodes == old(pool.usedNodes) + [node]
    ensures pool.usedStates == old(pool.usedStates) && pool.freeStates == old(pool.freeStates)
    ensures pool.usedSets == old(pool.usedSets) && pool.freeSets == old(pool.freeSets)
    ensures parent != null ==> parent.path == old(parent.path) && parent.action == old(parent.action)
    ensures (forall l | l in leaves0 :: l in pool.usedNodes) && Denotes(leaves0, e0)
  {
    pool.UsedNotFree();
    node := pool.GetFreeNode(parent, runningCost, weight, state, action);
    forall n | n in pool.usedNodes
      ensures n.state != null && n.state !in pool.freeStates && Linked(pool, n)
    {
      if n != node {
        assert n in old(pool.usedNodes) && old(Linked(pool, n));
      }
    }
  }

  /**
   * Lines 111-112 of BuildGraph: a pooled state holding the parent's state overwritten by the
   * action's effects, and a pooled node for the action under `parent`.
   */
  method MakeChild(pool: Pool, parent: Node, ghost p: SearchNode, a: GoapAction,
                   ghost leaves0: seq<Node>, ghost e0: seq<SearchNode>) returns (node: Node)
    requires Good(pool) && parent in pool.usedNodes && Holds(parent, p) && ActionIsLast(parent)
    requires (forall l | l in leaves0 :: l in pool.usedNodes) && Denotes(leaves0, e0)
    modifies pool, pool.ids
    modifies if |pool.freeNodes| > 0 then {pool.freeNodes[|pool.freeNodes| - 1]} else {}
    modifies if |pool.freeStates| > 0 then {pool.freeStates[|pool.freeStates| - 1]} else {}
    ensures Good(pool) && Grown(pool)
    ensures node in pool.usedNodes && node.parent == parent && node.action == a
    ensures Holds(node, Child(p, a)) && ActionIsLast(node)
    ensures ActionIsLast(parent) && parent.path == p.path
    ensures (forall l | l in leaves0 :: l in pool.usedNodes) && Denotes(leaves0, e0)
    ensures pool.usedSets == old(pool.usedSets) && pool.freeSets == old(pool.freeSets)
  {
    pool.UsedNotFree();
    var cur := PopulateState(pool, parent.state, a.effects, leaves0, e0);
    pool.UsedNotFree();
    node := TakeNode(pool, parent, parent.runningCost + a.GetCost(), parent.weight + a.GetWeight(), cur, a, Child(p, a), leaves0, e0);
  }

  /** The pruning test of line 115, on the action just taken at `parent`. */
  method PruneCheck(parent: Node, ghost p: SearchNode, a: GoapAction) returns (pruned: bool)
    requires ActionIsLast(parent) && parent.path == p.path
    ensures pruned == Pruned(p, a)
  {
    pruned := false;
    if parent.action != null {
      if |a.preconditions| == 0 {
        pruned := true;
      } else {
        var related := CondRelationScan(a.preconditions, parent.action.effects);
        pruned := !related;
      }
    }
  }

  /** No leaves before the first action. */
  lemma UpToZero(e0: seq<SearchNode>, p: SearchNode, acts: seq<GoapAction>, goal: Goal)
    ensures e0 + ExpandUpTo(p, acts, 0, goal) == e0
  {
    assert ExpandUpTo(p, acts, 0, goal) == [];
  }

  /** The leaves of one more action follow those of the actions before it. */
  lemma UpToNext(e0: seq<SearchNode>, p: SearchNode, acts: seq<GoapAction>, i: nat, goal: Goal)
    requires i < |acts|
    ensures (e0 + ExpandUpTo(p, acts, i, goal)) + Branch(p, acts, acts[i], goal) == e0 + ExpandUpTo(p, acts, i + 1, goal)
  {
    assert ExpandUpTo(p, acts, i + 1, goal) == ExpandUpTo(p, acts, i, goal) + Branch(p, acts, acts[i], goal);
  }

  /** An action not taken adds no leaves. */
  lemma BranchSkipped(e0: seq<SearchNode>, p: SearchNode, acts: seq<GoapAction>, a: GoapAction, goal: Goal)
    requires a in acts && !Takes(p, a)
    ensures e0 + Branch(p, acts, a, goal) == e0
  {
    assert Branch(p, acts, a, goal) == [];
  }

  /** A taken action whose child satisfies the goal adds the child as the one leaf. */
  lemma BranchGoal(p: SearchNode, acts: seq<GoapAction>, a: GoapAction, goal: Goal)
    requires a in acts && Takes(p, a) && GoalInState(goal, Child(p, a).state)
    ensures Branch(p, acts, a, goal) == [Child(p, a)]
  {
  }

  /** Appending a node that carries `s` keeps the leaves carrying their search nodes. */
  lemma DenotesSnoc(ls: seq<Node>, e: seq<SearchNode>, n: Node, s: SearchNode)
    requires Denotes(ls, e) && Holds(n, s)
    ensures Denotes(ls + [n], e + [s])
  {
    assert (ls + [n])[..|ls|] == ls && (e + [s])[..|e|] == e;
  }

  /** The `j`-th leaf carries the path, cost and weight of the `j`-th search node. */
  lemma {:induction false} DenotesAt(ls: seq<Node>, e: seq<SearchNode>, j: nat)
    requires Denotes(ls, e) && j < |ls|
    ensures ls[j].path == e[j].path && ls[j].runningCost == e[j].cost && ls[j].weight == e[j].weight
    decreases |ls|
  {
    if j < |ls| - 1 {
      DenotesAt(ls[..|ls| - 1], e[..|e| - 1], j);
    }
  }

  /**
   * BuildGraph: appends to `leaves0` the leaves the search finds below `parent` with the
   * actions of `usable`, and answers whether it found any. Every node, state and action set
   * it takes from the pool stays in use.
   */
  method BuildGraph(pool: Pool, parent: Node, ghost p: SearchNode, leaves0: seq<Node>, ghost e0: seq<SearchNode>,
                    usable: ActionSet, goal: Goal)
    returns (found: bool, leaves: seq<Node>)
    requires Good(pool)
    requires parent in pool.usedNodes && Holds(parent, p) && ActionIsLast(parent)
    requires usable in pool.usedSets && Distinct(usable.elems)
    requires (forall l | l in leaves0 :: l in pool.usedNodes) && Denotes(leaves0, e0)
    modifies pool, pool.ids, set x | x in pool.freeNodes, set x | x in pool.freeStates, set x | x in pool.freeSets
    ensures Good(pool) && Grown(pool)
    ensures forall l | l in leaves :: l in pool.usedNodes
    ensures Denotes(leaves, e0 + Expand(p, old(usable.elems), goal))
    ensures found <==> |leaves| > |leaves0|
    decreases |usable.elems|, 4
  {
    found := false;
    leaves := leaves0;
    var acts := usable.elems;
    var i := 0;
    ghost var fn0, fs0, fa0, un0, ua0 := pool.freeNodes, pool.freeStates, pool.freeSets, pool.usedNodes, pool.usedSets;
    UpToZero(e0, p, acts, goal);
    while i < |acts|
      invariant 0 <= i <= |acts|
      invariant Good(pool) && GrownFrom(pool, fn0, fs0, fa0, un0, ua0)
      invariant parent in pool.usedNodes && Holds(parent, p) && ActionIsLast(parent)
      invariant usable in pool.usedSets && usable.elems == acts
      invariant forall l | l in leaves :: l in pool.usedNodes
      invariant Denotes(leaves, e0 + ExpandUpTo(p, acts, i, goal))
      invariant found <==> |leaves| > |leaves0|
    {
      var f;
      var next := i + 1;
      f, leaves := Iterate(pool, parent, p, usable, acts, i, next, leaves, e0, goal, fn0, fs0, fa0, un0, ua0);
      if f {
        found := true;
      }
      i := next;
    }
  }

  /** One pass of BuildGraph's loop over the usable actions: expands the action at index `i`. */
  method Iterate(pool: Pool, parent: Node, ghost p: SearchNode, usable: ActionSet, acts: seq<GoapAction>, i: nat, next: nat,
                 leaves0: seq<Node>, ghost e0: seq<SearchNode>, goal: Goal,
                 ghost fn0: seq<Node>, ghost fs0: seq<StateDict>, ghost fa0: seq<ActionSet>, ghost un0: seq<Node>, ghost ua0: seq<ActionSet>)
    returns (found: bool, leaves: seq<Node>)
    requires Good(pool) && GrownFrom(pool, fn0, fs0, fa0, un0, ua0)
    requires parent in pool.usedNodes && Holds(parent, p) && ActionIsLast(parent)
    requires usable in pool.usedSets && usable.elems == acts && Distinct(acts) && i < |acts| && next == i + 1
    requires (forall l | l in leaves0 :: l in pool.usedNodes) && Denotes(leaves0, e0 + ExpandUpTo(p, acts, i, goal))
    modifies pool, pool.ids, set x | x in pool.freeNodes, set x | x in pool.freeStates, set x | x in pool.freeSets
    ensures Good(pool) && GrownFrom(pool, fn0, fs0, fa0, un0, ua0)
    ensures parent in pool.usedNodes && Holds(parent, p) && ActionIsLast(parent)
    ensures usable in pool.usedSets && usable.elems == acts
    ensures forall l | l in leaves :: l in pool.usedNodes
    ensures Denotes(leaves, e0 + ExpandUpTo(p, acts, next, goal))
    ensures |leaves| >= |leaves0| && (found <==> |leaves| > |leaves0|)
    decreases |acts|, 3
  {
    ghost var done := e0 + ExpandUpTo(p, acts, i, goal);
    pool.UsedNotFree();
    found, leaves := Step(pool, parent, p, usable, acts, acts[i], leaves0, done, goal);
    UpToNext(e0, p, acts, i, goal);
  }

  /**
   * One iteration of BuildGraph's loop, for action `a` of the usable actions `acts`: when its
   * preconditions hold, a state and a node are taken from the pool and placed by Place.
   */
  method Step(pool: Pool, parent: Node, ghost p: SearchNode, usable: ActionSet, acts: seq<GoapAction>,
              a: GoapAction, leaves0: seq<Node>, ghost e0: seq<SearchNode>, goal: Goal)
    returns (found: bool, leaves: seq<Node>)
    requires Good(pool)
    requires parent in pool.usedNodes && Holds(parent, p) && ActionIsLast(parent)
    requires usable in pool.usedSets && usable.elems == acts && Distinct(acts) && a in acts
    requires (forall l | l in leaves0 :: l in pool.usedNodes) && Denotes(leaves0, e0)
    modifies pool, pool.ids, set x | x in pool.freeNodes, set x | x in pool.freeStates, set x | x in pool.freeSets
    ensures Good(pool) && Grown(pool)
    ensures forall l | l in leaves :: l in pool.usedNodes
    ensures Denotes(leaves, e0 + Branch(p, acts, a, goal))
    ensures found <==> |leaves| > |leaves0|
    decreases |acts|, 2
  {
    found, leaves := false, leaves0;
    var ok := InStateScan(a.preconditions, parent.state.m);
    if !ok {
      BranchSkipped(e0, p, acts, a, goal);
      return;
    }
    pool.UsedNotFree();
    var node := MakeChild(pool, parent, p, a, leaves0, e0);
    found, leaves := Place(pool, parent, p, node, usable, acts, a, leaves0, e0, goal);
  }

  /**
   * The rest of the iteration once `node` is made for `a` under `parent`: unless the action is
   * pruned, the node is a leaf when it satisfies the goal, and the search continues below it
   * otherwise.
   */
  method Place(pool: Pool, parent: Node, ghost p: SearchNode, node: Node, usable: ActionSet,
               acts: seq<GoapAction>, a: GoapAction, leaves0: seq<Node>, ghost e0: seq<SearchNode>, goal: Goal)
    returns (found: bool, leaves: seq<Node>)
    requires Good(pool) && ActionIsLast(parent) && parent.path == p.path && InState(a.preconditions, p.state)
    requires node in pool.usedNodes && Holds(node, Child(p, a)) && ActionIsLast(node)
    requires usable in pool.usedSets && usable.elems == acts && Distinct(acts) && a in acts
    requires (forall l | l in leaves0 :: l in pool.usedNodes) && Denotes(leaves0, e0)
    modifies pool, pool.ids, set x | x in pool.freeNodes, set x | x in pool.freeStates, set x | x in pool.freeSets
    ensures Good(pool) && Grown(pool)
    ensures forall l | l in leaves :: l in pool.usedNodes
    ensures Denotes(leaves, e0 + Branch(p, acts, a, goal))
    ensures found <==> |leaves| > |leaves0|
    decreases |acts|, 1
  {
    found, leaves := false, leaves0;
    var pruned := PruneCheck(parent, p, a);
    if pruned {
      BranchSkipped(e0, p, acts, a, goal);
      return;
    }
    if GoalInState(goal, node.state.m) {
      BranchGoal(p, acts, a, goal);
      DenotesSnoc(leaves, e0, node, Child(p, a));
      leaves := leaves + [node];
      found := true;
    } else {
      found, leaves := Descend(pool, p, node, usable, acts, a, leaves, e0, goal);
    }
  }

  /**
   * The recursion of BuildGraph below the node `node` made for `a` under the search node `p`,
   * when the node does not yet satisfy the goal: the search goes on with `a` removed.
   */
  method Descend(pool: Pool, ghost p: SearchNode, node: Node, usable: ActionSet, acts: seq<GoapAction>, a: GoapAction,
                 leaves0: seq<Node>, ghost e0: seq<SearchNode>, goal: Goal)
    returns (found: bool, leaves: seq<Node>)
    requires Good(pool)
    requires node in pool.usedNodes && Holds(node, Child(p, a)) && ActionIsLast(node)
    requires usable in pool.usedSets && usable.elems == acts && Distinct(acts) && a in acts
    requires (forall l | l in leaves0 :: l in pool.usedNodes) && Denotes(leaves0, e0)
    requires Takes(p, a) && !GoalInState(goal, Child(p, a).state)
    modifies pool, pool.ids, set x | x in pool.freeNodes, set x | x in pool.freeStates, set x | x in pool.freeSets
    ensures Good(pool) && Grown(pool)
    ensures forall l | l in leaves :: l in pool.usedNodes
    ensures Denotes(leaves, e0 + Branch(p, acts, a, goal))
    ensures found <==> |leaves| > |leaves0|
    decreases |acts|, 0
  {
    pool.UsedNotFree();
    var subset := ActionSubset(pool, usable, a);
    WithoutDistinct(acts, a);
    found, leaves := BuildGraph(pool, node, Child(p, a), leaves0, e0, subset, goal);
  }

  /**
   * GOAPPlanner.Plan on the available actions, listed in the order the HashSet enumerates
   * them: every action is reset, the ones whose procedural check passes are collected, the
   * tree is searched from a root holding `worldState`, and the kept leaf's actions are
   * returned from the root down, or nothing when no leaf was found.
   */
  method Plan(pool: Pool, available: seq<GoapAction>, store: DataStorage, worldState: StateDict, goal: Goal)
    returns (plan: Option<seq<GoapAction>>)
    requires Good(pool) && worldState !in pool.freeStates
    requires Distinct(available) && PositiveActions(available)
    modifies pool, pool.ids, set x | x in pool.freeNodes, set x | x in pool.freeStates, set x | x in pool.freeSets
    modifies set a | a in available
    ensures plan == PlanOf(Usable(available, old(store.data)), old(worldState.m), goal)
    ensures worldState.m == old(worldState.m)
    ensures forall a | a in available :: !a.inRange && !a.hasAttacked && a.target == Lookup(store.data, PlayerKey)
    ensures plan.Some? ==> pool.Valid() && pool.usedNodes == [] && pool.usedStates == [] && pool.usedSets == []
    ensures plan.None? ==> Good(pool) && Grown(pool) && pool.usedNodes != [] && pool.usedSets != []
  {
    var usable, root := Prepare(pool, available, store, worldState);
    plan := Search(pool, root, worldState, Root(worldState.m), usable, goal);
  }

  /**
   * The part of Plan before the search: the actions are reset, the usable ones collected in
   * a pooled set, and the root node holding `worldState` taken from the pool.
   */
  method Prepare(pool: Pool, available: seq<GoapAction>, store: DataStorage, worldState: StateDict)
    returns (usable: ActionSet, root: Node)
    requires Good(pool) && worldState !in pool.freeStates && Distinct(available)
    modifies pool, pool.ids, set x | x in pool.freeNodes, set x | x in pool.freeSets
    modifies set a | a in available
    ensures Good(pool) && Grown(pool)
    ensures usable in pool.usedSets && usable.elems == Usable(available, store.data) && Distinct(usable.elems)
    ensures root in pool.usedNodes && root.state == worldState && Holds(root, Root(worldState.m)) && ActionIsLast(root)
    ensures worldState.m == old(worldState.m) && store.data == old(store.data)
    ensures forall a | a in available :: !a.inRange && !a.hasAttacked && a.target == Lookup(store.data, PlayerKey)
  {
    ResetActions(available);
    usable := TakeUsable(pool, available, store);
    root := TakeNode(pool, null, 0.0, 0.0, worldState, null, Root(worldState.m), [], []);
  }

  /** A pooled action set filled with the usable actions, the actions' checks having run. */
  method TakeUsable(pool: Pool, available: seq<GoapAction>, store: DataStorage) returns (usable: ActionSet)
    requires Good(pool) && Distinct(available)
    modifies pool, set x | x in pool.freeSets, set a | a in available
    ensures Good(pool) && Grown(pool)
    ensures usable in pool.usedSets && usable.elems == Usable(available, store.data) && Distinct(usable.elems)
    ensures pool.freeStates == old(pool.freeStates) && store.data == old(store.data)
    ensures forall a | a in available :: a.target == Lookup(store.data, PlayerKey)
    ensures forall a | a in available :: a.inRange == old(a.inRange) && a.hasAttacked == old(a.hasAttacked)
  {
    usable := pool.GetFreeActionSet();
    GoodAfterPop(pool);
    CollectUsable(usable, available, store);
    UsableDistinct(available, store.data);
  }

  /**
   * The part of Plan from the search on: the leaves below `root`, and the plan Finish makes
   * of them when there is one.
   */
  method Search(pool: Pool, root: Node, worldState: StateDict, ghost r: SearchNode, usable: ActionSet, goal: Goal)
    returns (plan: Option<seq<GoapAction>>)
    requires Good(pool) && root in pool.usedNodes && Holds(root, r) && ActionIsLast(root)
    requires root.state == worldState && r == Root(r.state)
    requires usable in pool.usedSets && Distinct(usable.elems) && PositiveActions(usable.elems)
    modifies pool, pool.ids, set x | x in pool.freeNodes, set x | x in pool.freeStates, set x | x in pool.freeSets
    ensures plan == PlanOf(old(usable.elems), r.state, goal)
    ensures worldState.m == old(worldState.m)
    ensures plan.Some? ==> pool.Valid() && pool.usedNodes == [] && pool.usedStates == [] && pool.usedSets == []
    ensures plan.None? ==> Good(pool) && Grown(pool) && pool.usedNodes != [] && pool.usedSets != []
  {
    ghost var acts := usable.elems;
    var found, leaves := BuildGraph(pool, root, r, [], [], usable, goal);
    ghost var e := Expand(r, acts, goal);
    assert [] + e == e;
    if !found {
      return None;
    }
    LeavesPositive(r.state, acts, goal);
    plan := Finish(pool, leaves, e);
  }

  /**
   * The end of Plan once leaves were found: the kept leaf, its actions from the root down,
   * the release of the pools, and the queue of those actions.
   */
  method Finish(pool: Pool, leaves: seq<Node>, ghost e: seq<SearchNode>) returns (plan: Option<seq<GoapAction>>)
    requires Good(pool) && |leaves| > 0 && (forall l | l in leaves :: l in pool.usedNodes)
    requires Denotes(leaves, e) && forall l | l in e :: Positive(l)
    modifies pool
    ensures plan == Some(e[Pick(e)].path)
    ensures pool.Valid() && pool.usedNodes == [] && pool.usedStates == [] && pool.usedSets == []
  {
    var cheapest := Choose(leaves, e);
    var result := Reconstruct(pool, cheapest);
    DenotesAt(leaves, e, Pick(e));
    pool.Release();
    var queue := ToQueue(result);
    plan := Some(queue);
  }

  /** The last loop of Plan: the actions are enqueued in order. */
  method ToQueue(actions: seq<GoapAction>) returns (queue: seq<GoapAction>)
    ensures queue == actions
  {
    queue := [];
    for j := 0 to |actions|
      invariant queue == actions[..j]
    {
      queue := queue + [actions[j]];
    }
    assert actions[..|actions|] == actions;
  }

  /** The first loop of Plan: every available action is reset. */
  method ResetActions(actions: seq<GoapAction>)
    modifies set a | a in actions
    ensures forall a | a in actions :: !a.inRange && !a.hasAttacked && a.target == None
  {
    for i := 0 to |actions|
      invariant forall j | 0 <= j < i :: !actions[j].inRange && !actions[j].hasAttacked && actions[j].target == None
    {
      actions[i].DoReset();
    }
  }

  /** The second loop of Plan: the actions whose procedural check passes go into `usable`. */
  method CollectUsable(usable: ActionSet, actions: seq<GoapAction>, store: DataStorage)
    requires usable.elems == [] && Distinct(actions)
    modifies usable, set a | a in actions
    ensures usable.elems == Usable(actions, store.data)
    ensures forall a | a in actions :: a.target == Lookup(store.data, PlayerKey)
    ensures forall a | a in actions :: a.inRange == old(a.inRange) && a.hasAttacked == old(a.hasAttacked)
  {
    for i := 0 to |actions|
      invariant usable.elems == Usable(actions[..i], store.data)
      invariant forall j | 0 <= j < i :: actions[j].target == Lookup(store.data, PlayerKey)
      invariant forall a | a in actions :: a.inRange == old(a.inRange) && a.hasAttacked == old(a.hasAttacked)
    {
      CollectOne(usable, actions, i, store);
    }
    assert actions[..|actions|] == actions;
  }

  /** One turn of the usable-action scan: checks `actions[i]` and keeps it when it passes. */
  method CollectOne(usable: ActionSet, actions: seq<GoapAction>, i: nat, store: DataStorage)
    requires i < |actions| && Distinct(actions) && usable.elems == Usable(actions[..i], store.data)
    modifies usable, actions[i]
    ensures usable.elems == Usable(actions[..i + 1], store.data)
    ensures actions[i].target == Lookup(store.data, PlayerKey)
    ensures actions[i].inRange == old(actions[i].inRange) && actions[i].hasAttacked == old(actions[i].hasAttacked)
  {
    var a := actions[i];
    var ok := a.CheckProceduralPrecondition(store);
    assert actions[..i + 1] == actions[..i] + [a];
    UsableSnoc(actions[..i], a, store.data);
    if ok {
      NotBefore(actions, i);
      usable.Add(a);
    }
  }

  /** The scan of Plan over the leaves: the first leaf, replaced by each later BetterThen one. */
  method Choose(leaves: seq<Node>, ghost e: seq<SearchNode>) returns (cheapest: Node)
    requires |leaves| > 0 && Denotes(leaves, e) && forall l | l in e :: Positive(l)
    ensures cheapest == leaves[Pick(e)]
  {
    var best: Node? := null;
    for i := 0 to |leaves|
      invariant i == 0 ==> best == null
      invariant i > 0 ==> |e[..i]| > 0 && (forall l | l in e[..i] :: Positive(l)) && best == leaves[Pick(e[..i])]
    {
      var leaf := leaves[i];
      assert e[..i + 1][..i] == e[..i] && e[..i + 1][i] == e[i];
      assert forall l | l in e[..i + 1] :: l in e;
      if best == null {
        best := leaf;
      } else {
        var k := Pick(e[..i]);
        DenotesAt(leaves, e, k);
        DenotesAt(leaves, e, i);
        assert e[..i][k] == e[k];
        assert e[k] in e;
        if leaf.BetterThen(best) {
          best := leaf;
        }
      }
    }
    assert e[..|leaves|] == e;
    cheapest := best;
  }

  /** What Good says of one used node: its parent is used and shallower, and its path extends the parent's. */
  lemma ParentLink(pool: Pool, n: Node)
    requires Good(pool) && n in pool.usedNodes
    ensures n.parent != null ==> n.parent in pool.usedNodes && n.parent.depth < n.depth
    ensures n.path == (if n.parent == null then [] else n.parent.path) + (if n.action == null then [] else [n.action])
  {
    assert Linked(pool, n);
  }

  /** The walk of Plan from the kept leaf up the parent links, putting each action in front. */
  method Reconstruct(pool: Pool, leaf: Node) returns (result: seq<GoapAction>)
    requires Good(pool) && leaf in pool.usedNodes
    ensures result == leaf.path
  {
    result := [];
    var n: Node? := leaf;
    while n != null
      invariant n != null ==> n in pool.usedNodes && n.path + result == leaf.path
      invariant n == null ==> result == leaf.path
      decreases if n == null then 0 else n.depth + 1
    {
      ParentLink(pool, n);
      ghost var above := if n.parent == null then [] else n.parent.path;
      var step := if n.action == null then [] else [n.action];
      ConcatAssoc(above, step, result);
      result := step + result;
      n := n.parent;
    }
  }
}
