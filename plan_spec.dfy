/**
 * What GOAPPlanner.Plan computes, as pure functions of the usable actions, the start
 * state and the goal: the leaves BuildGraph collects in depth-first order, the leaf the
 * BetterThen scan keeps, and the characterisation of the search as the set of action
 * sequences it is allowed to follow.
 */
module PlanSpec {
  import opened Wrappers
  import opened WorldState
  import opened GoapActions
  import opened SeqUtil
  import opened GoapNodes
  import opened DataStore

  /** The content of a search-tree node: actions from the root, state, running cost and weight. */
  datatype SearchNode = SearchNode(path: seq<GoapAction>, state: State, cost: real, weight: real)

  /** The node Plan starts from (GOAPPlanner.cs:45): no action, the world state, zero cost and weight. */
  function Root(start: State): SearchNode
  {
    SearchNode([], start, 0.0, 0.0)
  }

  /** The node BuildGraph creates for action `a` under `n` (GOAPPlanner.cs:111-112). */
  function Child(n: SearchNode, a: GoapAction): SearchNode
  {
    SearchNode(n.path + [a], Overlay(n.state, a.effects), n.cost + a.GetCost(), n.weight + a.GetWeight())
  }

  /**
   * The pruning test of GOAPPlanner.cs:115: below the root, an action is skipped when it has
   * no preconditions or when none of them equals an effect of the action just taken.
   */
  predicate Pruned(n: SearchNode, a: GoapAction)
  {
    n.path != [] && (|a.preconditions| == 0 || !CondRelation(a.preconditions, n.path[|n.path| - 1].effects))
  }

  /** BuildGraph takes `a` under `n`: its preconditions hold (line 108) and it is not pruned. */
  predicate Takes(n: SearchNode, a: GoapAction)
  {
    InState(a.preconditions, n.state) && !Pruned(n, a)
  }

  /** The leaves BuildGraph(n, usable) appends, in the order it appends them. */
  function Expand(n: SearchNode, usable: seq<GoapAction>, goal: Goal): seq<SearchNode>
    decreases |usable|, 1
  {
    ExpandUpTo(n, usable, |usable|, goal)
  }

  /** The leaves appended while enumerating the first `i` usable actions. */
  function ExpandUpTo(n: SearchNode, usable: seq<GoapAction>, i: nat, goal: Goal): seq<SearchNode>
    requires i <= |usable|
    decreases |usable|, 0, i
  {
    if i == 0 then []
    else ExpandUpTo(n, usable, i - 1, goal) + Branch(n, usable, usable[i - 1], goal)
  }

  /**
   * The leaves one loop iteration appends: none for an action not taken, the child itself
   * when it satisfies the goal, otherwise the leaves below it, searched with `a` removed.
   */
  function Branch(n: SearchNode, usable: seq<GoapAction>, a: GoapAction, goal: Goal): seq<SearchNode>
    requires a in usable
    decreases |usable|, 0, 0
  {
    if !Takes(n, a) then []
    else
      var c := Child(n, a);
      if GoalInState(goal, c.state) then [c]
      else Expand(c, Without(usable, a), goal)
  }

  /** The state reached from `st` by applying the effects of `ext` in order. */
  function Apply(st: State, ext: seq<GoapAction>): State
    decreases |ext|
  {
    if ext == [] then st else Apply(Overlay(st, ext[0].effects), ext[1..])
  }

  function TotalCost(ext: seq<GoapAction>): real
  {
    if ext == [] then 0.0 else ext[0].GetCost() + TotalCost(ext[1..])
  }

  function TotalWeight(ext: seq<GoapAction>): real
  {
    if ext == [] then 0.0 else ext[0].GetWeight() + TotalWeight(ext[1..])
  }

  /** The node reached from `n` by taking the actions of `ext` one after another. */
  function Follow(n: SearchNode, ext: seq<GoapAction>): (r: SearchNode)
    ensures r.path == n.path + ext
    decreases |ext|
  {
    if ext == [] then n else Follow(Child(n, ext[0]), ext[1..])
  }

  /**
   * The node reached along `ext` holds the effects of `ext` applied in order, and its running
   * cost and weight are the node's plus the sums of GetCost and GetWeight over `ext`.
   */
  lemma {:induction false} FollowTotals(n: SearchNode, ext: seq<GoapAction>)
    ensures Follow(n, ext).state == Apply(n.state, ext)
    ensures Follow(n, ext).cost == n.cost + TotalCost(ext)
    ensures Follow(n, ext).weight == n.weight + TotalWeight(ext)
    decreases |ext|
  {
    if ext != [] {
      FollowTotals(Child(n, ext[0]), ext[1..]);
    }
  }

  /**
   * `ext` is a branch the search follows from `n` to a leaf: every action is taken in turn,
   * the goal holds after the last one and after no earlier one.
   */
  predicate Reaches(n: SearchNode, ext: seq<GoapAction>, goal: Goal)
    decreases |ext|
  {
    && ext != []
    && Takes(n, ext[0])
    && var c := Child(n, ext[0]);
       if GoalInState(goal, c.state) then |ext| == 1 else Reaches(c, ext[1..], goal)
  }

  /** Every leaf of the search is reached along a branch of distinct usable actions. */
  lemma {:induction false} ExpandSound(n: SearchNode, usable: seq<GoapAction>, goal: Goal, l: SearchNode)
    requires l in Expand(n, usable, goal)
    ensures |l.path| > |n.path| && l.path[..|n.path|] == n.path
    ensures Reaches(n, l.path[|n.path|..], goal)
    ensures l == Follow(n, l.path[|n.path|..])
    ensures Distinct(l.path[|n.path|..])
    ensures forall x | x in l.path[|n.path|..] :: x in usable
    decreases |usable|, 2
  {
    ExpandUpToSound(n, usable, |usable|, goal, l);
  }

  lemma {:induction false} ExpandUpToSound(n: SearchNode, usable: seq<GoapAction>, i: nat, goal: Goal, l: SearchNode)
    requires i <= |usable| && l in ExpandUpTo(n, usable, i, goal)
    ensures |l.path| > |n.path| && l.path[..|n.path|] == n.path
    ensures Reaches(n, l.path[|n.path|..], goal)
    ensures l == Follow(n, l.path[|n.path|..])
    ensures Distinct(l.path[|n.path|..])
    ensures forall x | x in l.path[|n.path|..] :: x in usable
    decreases |usable|, 1, i
  {
    if l in ExpandUpTo(n, usable, i - 1, goal) {
      ExpandUpToSound(n, usable, i - 1, goal, l);
    } else {
      BranchSound(n, usable, usable[i - 1], goal, l);
    }
  }

  /** What every leaf found below `n` in `usable` satisfies. */
  ghost predicate SoundLeaf(n: SearchNode, usable: seq<GoapAction>, goal: Goal, l: SearchNode)
  {
    && |l.path| > |n.path| && l.path[..|n.path|] == n.path
    && Reaches(n, l.path[|n.path|..], goal)
    && l == Follow(n, l.path[|n.path|..])
    && Distinct(l.path[|n.path|..])
    && (forall x | x in l.path[|n.path|..] :: x in usable)
  }

  lemma {:induction false} BranchSound(n: SearchNode, usable: seq<GoapAction>, a: GoapAction, goal: Goal, l: SearchNode)
    requires a in usable && l in Branch(n, usable, a, goal)
    ensures |l.path| > |n.path| && l.path[..|n.path|] == n.path
    ensures Reaches(n, l.path[|n.path|..], goal)
    ensures l == Follow(n, l.path[|n.path|..])
    ensures Distinct(l.path[|n.path|..])
    ensures forall x | x in l.path[|n.path|..] :: x in usable
    decreases |usable|, 0, 1
  {
    var c := Child(n, a);
    if GoalInState(goal, c.state) {
      GoalChildSound(n, usable, a, goal);
    } else {
      ExpandSound(c, Without(usable, a), goal, l);
      DeepSound(n, usable, a, goal, l);
    }
    assert SoundLeaf(n, usable, goal, l);
  }

  lemma GoalChildSound(n: SearchNode, usable: seq<GoapAction>, a: GoapAction, goal: Goal)
    requires a in usable && Takes(n, a) && GoalInState(goal, Child(n, a).state)
    ensures SoundLeaf(n, usable, goal, Child(n, a))
  {
    var c := Child(n, a);
    assert c.path[|n.path|..] == [a];
    assert Follow(c, []) == c;
    assert [a][1..] == [];
  }

  lemma DeepSound(n: SearchNode, usable: seq<GoapAction>, a: GoapAction, goal: Goal, l: SearchNode)
    requires a in usable && Takes(n, a) && !GoalInState(goal, Child(n, a).state)
    requires SoundLeaf(Child(n, a), Without(usable, a), goal, l)
    ensures SoundLeaf(n, usable, goal, l)
  {
    var c, k := Child(n, a), |n.path|;
    assert l.path[k] == l.path[..|c.path|][k] == c.path[k] == a;
    assert l.path[..k] == l.path[..|c.path|][..k] == c.path[..k] == n.path;
    DropFirst(l.path, k, a);
    StepSound(n, usable, a, goal, l.path[k + 1..]);
  }

  /** One taken step in front of a branch found below the child. */
  lemma StepSound(n: SearchNode, usable: seq<GoapAction>, a: GoapAction, goal: Goal, rest: seq<GoapAction>)
    requires a in usable && Takes(n, a) && !GoalInState(goal, Child(n, a).state)
    requires Reaches(Child(n, a), rest, goal) && Distinct(rest)
    requires forall x | x in rest :: x in Without(usable, a)
    ensures Reaches(n, [a] + rest, goal)
    ensures Follow(n, [a] + rest) == Follow(Child(n, a), rest)
    ensures Distinct([a] + rest)
    ensures forall x | x in [a] + rest :: x in usable
  {
    var ext := [a] + rest;
    assert ext[0] == a && ext[1..] == rest;
    DistinctCons(a, rest);
  }

  /** Every branch of distinct usable actions that reaches the goal ends in a leaf of the search. */
  lemma {:induction false} ExpandComplete(n: SearchNode, usable: seq<GoapAction>, goal: Goal, ext: seq<GoapAction>)
    requires Reaches(n, ext, goal) && Distinct(ext)
    requires forall x | x in ext :: x in usable
    ensures Follow(n, ext) in Expand(n, usable, goal)
    decreases |usable|, 1
  {
    var a := ext[0];
    assert a in ext;
    var j :| 0 <= j < |usable| && usable[j] == a;
    BranchComplete(n, usable, goal, ext);
    UpToContains(n, usable, |usable|, j, goal, Follow(n, ext));
  }

  lemma {:induction false} BranchComplete(n: SearchNode, usable: seq<GoapAction>, goal: Goal, ext: seq<GoapAction>)
    requires Reaches(n, ext, goal) && Distinct(ext)
    requires forall x | x in ext :: x in usable
    ensures Follow(n, ext) in Branch(n, usable, ext[0], goal)
    decreases |usable|, 0
  {
    var a := ext[0];
    var c := Child(n, a);
    if GoalInState(goal, c.state) {
      assert ext == [a];
      assert Follow(n, ext) == Follow(c, []);
    } else {
      var w := Without(usable, a);
      DistinctTail(ext);
      forall x | x in ext[1..] ensures x in w {
        assert x in ext && x != a;
      }
      ExpandComplete(c, w, goal, ext[1..]);
    }
  }

  /** The leaves of an earlier iteration stay among the leaves of every later prefix. */
  lemma {:induction false} UpToContains(n: SearchNode, usable: seq<GoapAction>, i: nat, j: nat, goal: Goal, l: SearchNode)
    requires j < i <= |usable| && l in Branch(n, usable, usable[j], goal)
    ensures l in ExpandUpTo(n, usable, i, goal)
    decreases i
  {
    if j < i - 1 {
      UpToContains(n, usable, i - 1, j, goal, l);
    }
  }

  /** Each action of a branch had its preconditions in the state just before it. */
  lemma {:induction false} ReachesPreconditions(n: SearchNode, ext: seq<GoapAction>, goal: Goal, i: nat)
    requires Reaches(n, ext, goal) && i < |ext|
    ensures InState(ext[i].preconditions, Follow(n, ext[..i]).state)
    decreases i
  {
    if i > 0 {
      var c := Child(n, ext[0]);
      ReachesPreconditions(c, ext[1..], goal, i - 1);
      assert ext[..i] == [ext[0]] + ext[1..][..i - 1];
    }
  }

  /**
   * Each action after the first step has a precondition, and one of its preconditions is an
   * effect of the action just before it.
   */
  lemma {:induction false} ReachesLinked(n: SearchNode, ext: seq<GoapAction>, goal: Goal, i: nat)
    requires Reaches(n, ext, goal) && i < |ext|
    requires n.path + ext[..i] != []
    ensures |ext[i].preconditions| > 0
    ensures CondRelation(ext[i].preconditions, (n.path + ext)[|n.path| + i - 1].effects)
    decreases i
  {
    if i > 0 {
      var c := Child(n, ext[0]);
      ReachesLinked(c, ext[1..], goal, i - 1);
      assert (c.path + ext[1..])[|c.path| + i - 2] == (n.path + ext)[|n.path| + i - 1];
    }
  }

  /** The goal holds after the whole branch and after no shorter non-empty part of it. */
  lemma {:induction false} ReachesGoal(n: SearchNode, ext: seq<GoapAction>, goal: Goal)
    requires Reaches(n, ext, goal)
    ensures GoalInState(goal, Follow(n, ext).state)
    ensures forall k | 0 < k < |ext| :: !GoalInState(goal, Follow(n, ext[..k]).state)
    decreases |ext|
  {
    var c := Child(n, ext[0]);
    if GoalInState(goal, c.state) {
      assert Follow(n, ext) == c;
    } else {
      ReachesGoal(c, ext[1..], goal);
      forall k | 0 < k < |ext| ensures !GoalInState(goal, Follow(n, ext[..k]).state) {
        assert ext[..k] == [ext[0]] + ext[1..][..k - 1];
        assert Follow(n, ext[..k]) == Follow(c, ext[1..][..k - 1]);
        if k == 1 {
          assert ext[1..][..0] == [];
        }
      }
    }
  }

  /** Every action has a positive cost and weight, so BetterThen can divide by any leaf's. */
  ghost predicate PositiveActions(actions: seq<GoapAction>)
  {
    forall a | a in actions :: a.GetCost() > 0.0 && a.GetWeight() > 0.0
  }

  lemma {:induction false} TotalsPositive(ext: seq<GoapAction>)
    requires ext != [] && PositiveActions(ext)
    ensures TotalCost(ext) > 0.0 && TotalWeight(ext) > 0.0
    decreases |ext|
  {
    assert ext[0] in ext;
    if |ext| > 1 {
      assert forall a | a in ext[1..] :: a in ext;
      TotalsPositive(ext[1..]);
    }
  }

  predicate Positive(l: SearchNode)
  {
    l.cost > 0.0 && l.weight > 0.0
  }

  /** With positive actions, every leaf below the root has a positive cost and weight. */
  lemma LeavesPositive(start: State, usable: seq<GoapAction>, goal: Goal)
    requires PositiveActions(usable)
    ensures forall l | l in Expand(Root(start), usable, goal) :: Positive(l)
  {
    forall l | l in Expand(Root(start), usable, goal) ensures Positive(l) {
      ExpandSound(Root(start), usable, goal, l);
      var ext := l.path[0..];
      assert forall a | a in ext :: a in usable;
      TotalsPositive(ext);
      FollowTotals(Root(start), ext);
    }
  }

  /** The leaf-against-leaf comparison the scan makes: `x.BetterThen(y)`. */
  predicate BetterLeaf(x: SearchNode, y: SearchNode)
    requires Positive(y)
  {
    Better(x.weight, x.cost, y.weight, y.cost)
  }

  /**
   * The index of the leaf GOAPPlanner.cs:53-63 keeps: the first leaf, replaced by every
   * later leaf that is BetterThen the current choice.
   */
  function Pick(leaves: seq<SearchNode>): (k: nat)
    requires |leaves| > 0 && forall l | l in leaves :: Positive(l)
    ensures k < |leaves|
  {
    if |leaves| == 1 then 0
    else
      var k := Pick(leaves[..|leaves| - 1]);
      if BetterLeaf(leaves[|leaves| - 1], leaves[k]) then |leaves| - 1 else k
  }

  /** `x` has at least the weight-per-cost of `y`. */
  predicate RatioAtLeast(x: SearchNode, y: SearchNode)
  {
    x.weight * y.cost >= x.cost * y.weight
  }

  /** The ratio order is transitive on positive nodes. */
  lemma RatioTrans(x: SearchNode, y: SearchNode, z: SearchNode)
    requires Positive(x) && Positive(y) && Positive(z)
    requires RatioAtLeast(x, y) && RatioAtLeast(y, z)
    ensures RatioAtLeast(x, z)
  {
    var p := x.weight * y.cost;
    var q := x.cost * y.weight;
    var u := y.weight * z.cost;
    var v := y.cost * z.weight;
    assert p * u >= q * u by {
      assert (p - q) * u >= 0.0;
    }
    assert q * u >= q * v by {
      assert q * (u - v) >= 0.0;
    }
    assert p * u == (x.weight * z.cost) * (y.cost * y.weight);
    assert q * v == (x.cost * z.weight) * (y.cost * y.weight);
    var m := y.cost * y.weight;
    assert m > 0.0;
    assert (x.weight * z.cost - x.cost * z.weight) * m >= 0.0;
  }

  /** On a positive node BetterThen is exactly the ratio order. */
  lemma BetterIsRatio(x: SearchNode, y: SearchNode)
    requires Positive(y)
    ensures BetterLeaf(x, y) <==> RatioAtLeast(x, y)
  {
  }

  /**
   * The kept leaf has the largest weight-per-cost of all, and every leaf after it has a
   * strictly smaller one: it is the LAST leaf of maximal ratio, because ties replace.
   */
  lemma {:induction false} PickIsLastBest(leaves: seq<SearchNode>)
    requires |leaves| > 0 && forall l | l in leaves :: Positive(l)
    ensures forall j | 0 <= j < |leaves| :: RatioAtLeast(leaves[Pick(leaves)], leaves[j])
    ensures forall j | Pick(leaves) < j < |leaves| :: !RatioAtLeast(leaves[j], leaves[Pick(leaves)])
    decreases |leaves|
  {
    if |leaves| > 1 {
      var init := leaves[..|leaves| - 1];
      assert forall l | l in init :: l in leaves;
      PickIsLastBest(init);
      var k0 := Pick(init);
      assert init[k0] == leaves[k0];
      var last := leaves[|leaves| - 1];
      BetterIsRatio(last, leaves[k0]);
      if BetterLeaf(last, leaves[k0]) {
        LastWins(leaves, k0);
      } else {
        EarlierStays(leaves, k0);
      }
    }
  }

  lemma LastWins(leaves: seq<SearchNode>, k0: nat)
    requires |leaves| > 1 && k0 < |leaves| - 1 && forall l | l in leaves :: Positive(l)
    requires forall j | 0 <= j < |leaves| - 1 :: RatioAtLeast(leaves[k0], leaves[j])
    requires RatioAtLeast(leaves[|leaves| - 1], leaves[k0])
    ensures forall j | 0 <= j < |leaves| :: RatioAtLeast(leaves[|leaves| - 1], leaves[j])
  {
    var last := leaves[|leaves| - 1];
    forall j | 0 <= j < |leaves| ensures RatioAtLeast(last, leaves[j]) {
      if j < |leaves| - 1 {
        assert leaves[j] in leaves && leaves[k0] in leaves && last in leaves;
        RatioTrans(last, leaves[k0], leaves[j]);
      }
    }
  }

  lemma EarlierStays(leaves: seq<SearchNode>, k0: nat)
    requires |leaves| > 1 && k0 < |leaves| - 1
    requires forall j | 0 <= j < |leaves| - 1 :: RatioAtLeast(leaves[k0], leaves[j])
    requires forall j | k0 < j < |leaves| - 1 :: !RatioAtLeast(leaves[j], leaves[k0])
    requires !RatioAtLeast(leaves[|leaves| - 1], leaves[k0])
    ensures forall j | 0 <= j < |leaves| :: RatioAtLeast(leaves[k0], leaves[j])
    ensures forall j | k0 < j < |leaves| :: !RatioAtLeast(leaves[j], leaves[k0])
  {
  }

  /** The actions of usable, in enumeration order, whose procedural check passes on `data`. */
  function Usable(actions: seq<GoapAction>, data: map<string, Option<Obj>>): (r: seq<GoapAction>)
    ensures forall a | a in r :: a in actions && a.PassesProceduralCheck(data)
    ensures forall a | a in actions && a.PassesProceduralCheck(data) :: a in r
  {
    if actions == [] then []
    else (if actions[0].PassesProceduralCheck(data) then [actions[0]] else []) + Usable(actions[1..], data)
  }

  /** Checking one more action appends it exactly when its procedural check passes. */
  lemma {:induction false} UsableSnoc(actions: seq<GoapAction>, a: GoapAction, data: map<string, Option<Obj>>)
    ensures Usable(actions + [a], data) == Usable(actions, data) + (if a.PassesProceduralCheck(data) then [a] else [])
    decreases |actions|
  {
    if actions == [] {
      assert [] + [a] == [a] && [a][1..] == [];
    } else {
      assert (actions + [a])[1..] == actions[1..] + [a];
      UsableSnoc(actions[1..], a, data);
    }
  }

  /** The usable actions of a set of actions hold each action at most once. */
  lemma {:induction false} UsableDistinct(actions: seq<GoapAction>, data: map<string, Option<Obj>>)
    requires Distinct(actions)
    ensures Distinct(Usable(actions, data))
    decreases |actions|
  {
    if actions != [] {
      DistinctTail(actions);
      UsableDistinct(actions[1..], data);
      if actions[0].PassesProceduralCheck(data) {
        DistinctCons(actions[0], Usable(actions[1..], data));
      }
    }
  }

  /** The plan Plan returns: None without a leaf, else the kept leaf's actions from the root. */
  function PlanOf(usable: seq<GoapAction>, start: State, goal: Goal): Option<seq<GoapAction>>
    requires PositiveActions(usable)
  {
    var leaves := Expand(Root(start), usable, goal);
    if leaves == [] then None
    else
      LeavesPositive(start, usable, goal);
      Some(leaves[Pick(leaves)].path)
  }

  /**
   * The planner finds a plan exactly when some sequence of distinct usable actions reaches the
   * goal; a plan it returns is such a sequence, non-empty and no longer than the usable set.
   */
  lemma PlanCorrect(usable: seq<GoapAction>, start: State, goal: Goal)
    requires PositiveActions(usable) && Distinct(usable)
    ensures PlanOf(usable, start, goal).None? <==>
      forall ext | Distinct(ext) && (forall x | x in ext :: x in usable) :: !Reaches(Root(start), ext, goal)
    ensures PlanOf(usable, start, goal).Some? ==>
      var p := PlanOf(usable, start, goal).value;
      && Reaches(Root(start), p, goal) && Distinct(p) && p != []
      && (forall x | x in p :: x in usable) && |p| <= |usable|
  {
    if Expand(Root(start), usable, goal) == [] {
      NoLeafNoBranch(usable, start, goal);
    } else {
      PlanIsBranch(usable, start, goal);
      var p := PlanOf(usable, start, goal).value;
      assert Distinct(p) && (forall x | x in p :: x in usable) && Reaches(Root(start), p, goal);
    }
  }

  /** Without a leaf, no branch of distinct usable actions reaches the goal. */
  lemma NoLeafNoBranch(usable: seq<GoapAction>, start: State, goal: Goal)
    requires Distinct(usable) && Expand(Root(start), usable, goal) == []
    ensures forall ext | Distinct(ext) && (forall x | x in ext :: x in usable) :: !Reaches(Root(start), ext, goal)
  {
    forall ext | Distinct(ext) && (forall x | x in ext :: x in usable)
      ensures !Reaches(Root(start), ext, goal)
    {
      if Reaches(Root(start), ext, goal) {
        ExpandComplete(Root(start), usable, goal, ext);
      }
    }
  }

  /** The kept leaf's actions form a branch of distinct usable actions that reaches the goal. */
  lemma PlanIsBranch(usable: seq<GoapAction>, start: State, goal: Goal)
    requires PositiveActions(usable) && Distinct(usable) && Expand(Root(start), usable, goal) != []
    ensures PlanOf(usable, start, goal).Some?
    ensures var p := PlanOf(usable, start, goal).value;
      && Reaches(Root(start), p, goal) && Distinct(p) && p != []
      && (forall x | x in p :: x in usable) && |p| <= |usable|
  {
    var leaves := Expand(Root(start), usable, goal);
    LeavesPositive(start, usable, goal);
    var l := leaves[Pick(leaves)];
    ExpandSound(Root(start), usable, goal, l);
    assert l.path[0..] == l.path;
    DistinctSubsetLength(l.path, usable);
  }

}
