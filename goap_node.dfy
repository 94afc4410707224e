/** GOAPNode.cs: a node of the planner's search tree, its id counter and its comparator. */
module GoapNodes {
  import opened GoapActions
  import opened Collections

  /** The static GOAPNode.MaxID counter. */
  class IdCounter {
    var maxId: int

    constructor ()
      ensures maxId == 0
    {
      maxId := 0;
    }
  }

  /**
   * The comparator BetterThen of a node with weight `w` and cost `c` against one with
   * weight `w'` and cost `c'`. Costs and weights are floats in the source; here they are
   * reals, and the node compared against must have a positive weight and cost because
   * its values are divisors.
   */
  function Better(w: real, c: real, w': real, c': real): (r: bool)
    requires w' > 0.0 && c' > 0.0
    ensures w > w' && c < c' ==> r
    ensures w < w' && c > c' ==> !r
    ensures w == w' ==> (r <==> c <= c')
    ensures r <==> w * c' >= c * w'
  {
    if w > w' && c < c' then true
    else if w < w' && c > c' then false
    else
      RatioOrder(w, c, w', c');
      w / w' - 1.0 >= c / c' - 1.0
  }

  /** For positive divisors, comparing relative improvements is comparing cross products. */
  lemma RatioOrder(w: real, c: real, w': real, c': real)
    requires w' > 0.0 && c' > 0.0
    ensures (w / w' - 1.0 >= c / c' - 1.0) <==> w * c' >= c * w'
  {
    var x, y := w / w', c / c';
    assert w == x * w' && c == y * c';
    assert w * c' - c * w' == (x - y) * (w' * c');
  }

  class Node {
    /** `_ID`: assigned once, from the counter, when the node object is constructed. */
    const id: int
    var action: GoapAction?
    var parent: Node?
    var runningCost: real
    var state: StateDict?
    var weight: real
    /** Number of parent links from this node up to the root. */
    ghost var depth: nat
    /** The actions on the parent chain, root first: what Plan reads back from a leaf. */
    ghost var path: seq<GoapAction>

    constructor (ids: IdCounter, parent: Node?, runningCost: real, weight: real, state: StateDict?, action: GoapAction?)
      modifies ids
      ensures id == old(ids.maxId) && ids.maxId == old(ids.maxId) + 1
      ensures this.parent == parent && this.runningCost == runningCost && this.weight == weight
      ensures this.state == state && this.action == action
      ensures depth == (if parent == null then 0 else old(parent.depth) + 1)
      ensures path == (if parent == null then [] else old(parent.path)) + (if action == null then [] else [action])
    {
      id := ids.maxId;
      new;
      ids.maxId := ids.maxId + 1;
      Reinitialize(parent, runningCost, weight, state, action);
    }

    /** Overwrites every field but the id with the arguments. */
    method Reinitialize(parent: Node?, runningCost: real, weight: real, state: StateDict?, action: GoapAction?)
      modifies this
      ensures this.parent == parent && this.runningCost == runningCost && this.weight == weight
      ensures this.state == state && this.action == action
      ensures depth == (if parent == null then 0 else old(parent.depth) + 1)
      ensures path == (if parent == null then [] else old(parent.path)) + (if action == null then [] else [action])
    {
      ghost var d := if parent == null then 0 else parent.depth + 1;
      ghost var p := (if parent == null then [] else parent.path) + (if action == null then [] else [action]);
      Clear();
      this.parent := parent;
      this.runningCost := runningCost;
      this.weight := weight;
      this.state := state;
      this.action := action;
      depth, path := d, p;
    }

    method Clear()
      modifies this
      ensures parent == null && runningCost == 0.0 && weight == 0.0 && state == null && action == null
      ensures depth == 0 && path == []
    {
      parent := null;
      runningCost := 0.0;
      weight := 0.0;
      state := null;
      action := null;
      depth, path := 0, [];
    }

    /** Whether this node is preferred over `other`. */
    function BetterThen(other: Node): (r: bool)
      reads this, other
      requires other.weight > 0.0 && other.runningCost > 0.0
      ensures r <==> weight * other.runningCost >= runningCost * other.weight
    {
      Better(weight, runningCost, other.weight, other.runningCost)
    }
  }
}
