/**
 * GOAPPlannerHelper.cs: the process-wide pools of search nodes, world-state dictionaries
 * and action sets. Each pool is a pair of stacks, used and free (the top of a stack is the
 * last element of its sequence). Getting an item takes the top free one, or allocates a
 * new one when none is free, and pushes it on the used stack; releasing moves every used
 * item onto the free stack.
 */
module PlannerHelper {
  import opened SeqUtil
  import opened GoapActions
  import opened Collections
  import opened GoapNodes

  class Pool {
    var usedNodes: seq<Node>
    var freeNodes: seq<Node>
    var usedStates: seq<StateDict>
    var freeStates: seq<StateDict>
    var usedSets: seq<ActionSet>
    var freeSets: seq<ActionSet>
    /** GOAPNode.MaxID, which only this pool's node allocations advance. */
    const ids: IdCounter
    /** Every node ever constructed, in construction order. */
    ghost var allNodes: seq<Node>

    /** No item is in two places at once, and the node ids are the construction indices. */
    ghost predicate Valid()
      reads this, ids
    {
      && NodesDistinct() && StatesDistinct() && SetsDistinct()
      && IdsValid()
    }

    ghost predicate NodesDistinct() reads this { Distinct(usedNodes + freeNodes) }
    ghost predicate StatesDistinct() reads this { Distinct(usedStates + freeStates) }
    ghost predicate SetsDistinct() reads this { Distinct(usedSets + freeSets) }

    /** Every pooled node was constructed here, and its id is its construction index. */
    ghost predicate IdsValid()
      reads this, ids
    {
      && ids.maxId == |allNodes|
      && (forall i | 0 <= i < |allNodes| :: allNodes[i].id == i)
      && (forall n | n in usedNodes :: n in allNodes)
      && (forall n | n in freeNodes :: n in allNodes)
    }

    constructor ()
      ensures Valid() && fresh(ids)
      ensures usedNodes == [] && freeNodes == [] && usedStates == [] && freeStates == []
      ensures usedSets == [] && freeSets == []
    {
      usedNodes, freeNodes := [], [];
      usedStates, freeStates := [], [];
      usedSets, freeSets := [], [];
      ids := new IdCounter();
      allNodes := [];
    }

    /** Nothing is both in use and free. */
    lemma UsedNotFree()
      requires Valid()
      ensures forall n | n in usedNodes :: n !in freeNodes
      ensures forall s | s in usedStates :: s !in freeStates
      ensures forall s | s in usedSets :: s !in freeSets
    {
      forall n | n in usedNodes ensures n !in freeNodes {
        DistinctDisjoint(usedNodes, freeNodes, n);
      }
      forall s | s in usedStates ensures s !in freeStates {
        DistinctDisjoint(usedStates, freeStates, s);
      }
      forall s | s in usedSets ensures s !in freeSets {
        DistinctDisjoint(usedSets, freeSets, s);
      }
    }

    /** Distinct ids: two different pooled nodes never share an id. */
    lemma IdsUnique(n: Node, n': Node)
      requires Valid()
      requires n in usedNodes + freeNodes && n' in usedNodes + freeNodes && n != n'
      ensures n.id != n'.id
    {
      var i :| 0 <= i < |allNodes| && allNodes[i] == n;
      var j :| 0 <= j < |allNodes| && allNodes[j] == n';
    }

    /** A node carrying exactly the given fields, reused from the free stack when possible. */
    method GetFreeNode(parent: Node?, runningCost: real, weight: real, state: StateDict?, action: GoapAction?)
      returns (node: Node)
      requires Valid()
      modifies this, ids, if |freeNodes| > 0 then {freeNodes[|freeNodes| - 1]} else {}
      ensures Valid()
      ensures node.parent == parent && node.runningCost == runningCost && node.weight == weight
      ensures node.state == state && node.action == action
      ensures node.depth == (if parent == null then 0 else old(parent.depth) + 1)
      ensures node.path == (if parent == null then [] else old(parent.path)) + (if action == null then [] else [action])
      ensures usedNodes == old(usedNodes) + [node]
      ensures old(|freeNodes|) > 0 ==>
        && node == old(freeNodes[|freeNodes| - 1])
        && freeNodes == old(freeNodes[..|freeNodes| - 1])
        && ids.maxId == old(ids.maxId)
      ensures old(|freeNodes|) == 0 ==>
        && fresh(node) && freeNodes == []
        && node.id == old(ids.maxId) && ids.maxId == old(ids.maxId) + 1
      ensures usedStates == old(usedStates) && freeStates == old(freeStates)
      ensures usedSets == old(usedSets) && freeSets == old(freeSets)
    {
      if |freeNodes| <= 0 {
        node := new Node(ids, parent, runningCost, weight, state, action);
        PushNew(node);
      } else {
        node := MoveTopFreeNode();
        node.Reinitialize(parent, runningCost, weight, state, action);
      }
    }

    /** Records a node just constructed with the next id and pushes it on the used stack. */
    method PushNew(node: Node)
      requires NodesDistinct() && StatesDistinct() && SetsDistinct()
      requires freeNodes == [] && node !in usedNodes
      requires ids.maxId == |allNodes| + 1 && node.id == |allNodes|
      requires forall i | 0 <= i < |allNodes| :: allNodes[i].id == i
      requires forall n | n in usedNodes :: n in allNodes
      modifies this
      ensures Valid()
      ensures usedNodes == old(usedNodes) + [node] && freeNodes == [] && allNodes == old(allNodes) + [node]
      ensures usedStates == old(usedStates) && freeStates == old(freeStates)
      ensures usedSets == old(usedSets) && freeSets == old(freeSets)
    {
      assert usedNodes + freeNodes == usedNodes;
      DistinctAppend(usedNodes, node);
      allNodes := allNodes + [node];
      usedNodes := usedNodes + [node];
      assert usedNodes + freeNodes == usedNodes;
      forall i | 0 <= i < |allNodes| ensures allNodes[i].id == i {
        if i < |old(allNodes)| { assert allNodes[i] == old(allNodes)[i]; }
      }
    }

    /** Moves the top free node onto the used stack and returns it. */
    method MoveTopFreeNode() returns (node: Node)
      requires Valid() && |freeNodes| > 0
      modifies this
      ensures Valid()
      ensures node == old(freeNodes[|freeNodes| - 1]) && freeNodes == old(freeNodes[..|freeNodes| - 1])
      ensures usedNodes == old(usedNodes) + [node] && allNodes == old(allNodes)
      ensures usedStates == old(usedStates) && freeStates == old(freeStates)
      ensures usedSets == old(usedSets) && freeSets == old(freeSets)
    {
      node := freeNodes[|freeNodes| - 1];
      var rest := freeNodes[..|freeNodes| - 1];
      assert usedNodes + freeNodes == usedNodes + rest + [node];
      DistinctPerm(usedNodes + rest + [node], usedNodes + [node] + rest);
      freeNodes := rest;
      usedNodes := usedNodes + [node];
    }

    /** Pops every used node onto the free stack. */
    method ReleaseNode()
      requires Valid()
      modifies this
      ensures Valid()
      ensures usedNodes == [] && freeNodes == old(freeNodes) + Reversed(old(usedNodes))
      ensures usedStates == old(usedStates) && freeStates == old(freeStates)
      ensures usedSets == old(usedSets) && freeSets == old(freeSets)
      ensures allNodes == old(allNodes)
    {
      while |usedNodes| > 0
        invariant Valid()
        invariant freeNodes + Reversed(usedNodes) == old(freeNodes) + Reversed(old(usedNodes))
        invariant usedStates == old(usedStates) && freeStates == old(freeStates)
        invariant usedSets == old(usedSets) && freeSets == old(freeSets)
        invariant allNodes == old(allNodes)
      {
        var n := usedNodes[|usedNodes| - 1];
        var rest := usedNodes[..|usedNodes| - 1];
        assert usedNodes == rest + [n];
        ghost var before := freeNodes;
        label Top:
        usedNodes := rest;
        freeNodes := freeNodes + [n];
        assert old@Top(usedNodes + freeNodes) == rest + [n] + before;
        assert usedNodes + freeNodes == rest + before + [n];
        DistinctPerm(rest + [n] + before, rest + before + [n]);
      }
    }

    /** A dictionary for a world state. A recycled one is NOT cleared: callers must clear it. */
    method GetFreeState() returns (s: StateDict)
      requires Valid()
      modifies this
      ensures Valid()
      ensures usedStates == old(usedStates) + [s]
      ensures old(|freeStates|) > 0 ==>
        && s == old(freeStates[|freeStates| - 1])
        && freeStates == old(freeStates[..|freeStates| - 1])
        && s.m == old(s.m)
      ensures old(|freeStates|) == 0 ==> fresh(s) && s.m == map[] && freeStates == []
      ensures usedNodes == old(usedNodes) && freeNodes == old(freeNodes) && allNodes == old(allNodes)
      ensures usedSets == old(usedSets) && freeSets == old(freeSets)
    {
      if |freeStates| > 0 {
        s := freeStates[|freeStates| - 1];
        var rest := freeStates[..|freeStates| - 1];
        assert usedStates + freeStates == usedStates + rest + [s];
        DistinctPerm(usedStates + rest + [s], usedStates + [s] + rest);
        freeStates := rest;
      } else {
        s := new StateDict();
        assert usedStates + freeStates == usedStates;
        DistinctAppend(usedStates, s);
      }
      usedStates := usedStates + [s];
    }

    method ReleaseState()
      requires Valid()
      modifies this
      ensures Valid()
      ensures usedStates == [] && freeStates == old(freeStates) + Reversed(old(usedStates))
      ensures usedNodes == old(usedNodes) && freeNodes == old(freeNodes) && allNodes == old(allNodes)
      ensures usedSets == old(usedSets) && freeSets == old(freeSets)
    {
      while |usedStates| > 0
        invariant Valid()
        invariant freeStates + Reversed(usedStates) == old(freeStates) + Reversed(old(usedStates))
        invariant usedNodes == old(usedNodes) && freeNodes == old(freeNodes) && allNodes == old(allNodes)
        invariant usedSets == old(usedSets) && freeSets == old(freeSets)
      {
        var s := usedStates[|usedStates| - 1];
        var rest := usedStates[..|usedStates| - 1];
        assert usedStates == rest + [s];
        ghost var before := freeStates;
        label Top:
        usedStates := rest;
        freeStates := freeStates + [s];
        assert old@Top(usedStates + freeStates) == rest + [s] + before;
        assert usedStates + freeStates == rest + before + [s];
        DistinctPerm(rest + [s] + before, rest + before + [s]);
      }
    }

    /** An action set, always empty: a recycled one is cleared. */
    method GetFreeActionSet() returns (s: ActionSet)
      requires Valid()
      modifies this, if |freeSets| > 0 then {freeSets[|freeSets| - 1]} else {}
      ensures Valid()
      ensures s.elems == []
      ensures usedSets == old(usedSets) + [s]
      ensures old(|freeSets|) > 0 ==>
        && s == old(freeSets[|freeSets| - 1])
        && freeSets == old(freeSets[..|freeSets| - 1])
      ensures old(|freeSets|) == 0 ==> fresh(s) && freeSets == []
      ensures usedNodes == old(usedNodes) && freeNodes == old(freeNodes) && allNodes == old(allNodes)
      ensures usedStates == old(usedStates) && freeStates == old(freeStates)
    {
      if |freeSets| > 0 {
        s := MoveTopFreeSet();
        s.Clear();
      } else {
        s := new ActionSet();
        PushNewSet(s);
      }
    }

    /** Moves the top free action set onto the used stack and returns it. */
    method MoveTopFreeSet() returns (s: ActionSet)
      requires Valid() && |freeSets| > 0
      modifies this
      ensures Valid()
      ensures s == old(freeSets[|freeSets| - 1]) && freeSets == old(freeSets[..|freeSets| - 1])
      ensures usedSets == old(usedSets) + [s]
      ensures usedNodes == old(usedNodes) && freeNodes == old(freeNodes) && allNodes == old(allNodes)
      ensures usedStates == old(usedStates) && freeStates == old(freeStates)
    {
      s := freeSets[|freeSets| - 1];
      var rest := freeSets[..|freeSets| - 1];
      assert usedSets + freeSets == usedSets + rest + [s];
      DistinctPerm(usedSets + rest + [s], usedSets + [s] + rest);
      freeSets := rest;
      usedSets := usedSets + [s];
    }

    /** Pushes an action set just allocated (so in no stack yet) on the used stack. */
    method PushNewSet(s: ActionSet)
      requires Valid() && freeSets == [] && s !in usedSets
      modifies this
      ensures Valid()
      ensures usedSets == old(usedSets) + [s] && freeSets == []
      ensures usedNodes == old(usedNodes) && freeNodes == old(freeNodes) && allNodes == old(allNodes)
      ensures usedStates == old(usedStates) && freeStates == old(freeStates)
    {
      assert usedSets + freeSets == usedSets;
      DistinctAppend(usedSets, s);
      usedSets := usedSets + [s];
      assert usedSets + freeSets == usedSets;
    }

    method ReleaseSubset()
      requires Valid()
      modifies this
      ensures Valid()
      ensures usedSets == [] && freeSets == old(freeSets) + Reversed(old(usedSets))
      ensures usedNodes == old(usedNodes) && freeNodes == old(freeNodes) && allNodes == old(allNodes)
      ensures usedStates == old(usedStates) && freeStates == old(freeStates)
    {
      while |usedSets| > 0
        invariant Valid()
        invariant freeSets + Reversed(usedSets) == old(freeSets) + Reversed(old(usedSets))
        invariant usedNodes == old(usedNodes) && freeNodes == old(freeNodes) && allNodes == old(allNodes)
        invariant usedStates == old(usedStates) && freeStates == old(freeStates)
      {
        var s := usedSets[|usedSets| - 1];
        var rest := usedSets[..|usedSets| - 1];
        assert usedSets == rest + [s];
        ghost var before := freeSets;
        label Top:
        usedSets := rest;
        freeSets := freeSets + [s];
        assert old@Top(usedSets + freeSets) == rest + [s] + before;
        assert usedSets + freeSets == rest + before + [s];
        DistinctPerm(rest + [s] + before, rest + before + [s]);
      }
    }

    /** Moves every used node, state and action set onto its free stack. */
    method Release()
      requires Valid()
      modifies this
      ensures Valid()
      ensures usedNodes == [] && freeNodes == old(freeNodes) + Reversed(old(usedNodes))
      ensures usedStates == [] && freeStates == old(freeStates) + Reversed(old(usedStates))
      ensures usedSets == [] && freeSets == old(freeSets) + Reversed(old(usedSets))
      ensures allNodes == old(allNodes)
    {
      ReleaseNode();
      ReleaseState();
      ReleaseSubset();
    }
  }
}
