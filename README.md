# Blight GOAP core and entity managers in Dafny

This project models the enemy AI core of the Blight game and the managers next to it:

- **GOAP planning.** `GOAPPlanner.Plan` resets the agent's actions and keeps the usable ones. It
  then grows a depth-first search tree (`BuildGraph`) whose nodes, states and action sets come
  from the pooled stacks of `GOAPPlannerHelper`. It keeps the leaf that is `BetterThen` every
  other leaf and walks that leaf's parent chain back into an action queue.
- **The agent.** `GOAPAgent` runs a stack-based `FSM` with three states: idle (plan for each goal
  in priority order), moveTo and performAction. The goal priorities come from the
  `LesserGhoul` and `Ravager` behaviours. The one concrete action is `LesserGhoulAttackAction`,
  and `DataStorage` holds the world data the actions read.
- **The entity ID registry.** `EntityManager` keeps a list of slots and a FIFO queue of freed
  slots. Its client `BaseEntity` accepts ID and flag changes only while the registry acts for it.
- **The byte codec.** `NetworkManager` packs and pulls ints, chars and strings at an advancing
  cursor. `MessageEvent` builds its byte buffer with that codec, or reads a message back from
  one.
- **The observed value.** `EParam` and its `UEClass`/`UEStruct`/`UEEnum` subclasses hold a
  lockable value. Changing it runs listeners on a lazily created `SubParam`, and the value then
  takes what the listeners leave there.

Each file of the model follows one source file or one concern:

| file | models |
|---|---|
| `world_state.dfy` | `InState`, `CondRelation`, `GoalInState`, and the state a child node gets (`PopulateState`) |
| `collections.dfy` | the pooled `Dictionary<string,bool>` and `HashSet<GOAPAction>` |
| `goap_action.dfy` | `GOAPAction` and `LesserGhoulAttackAction` (a `kind` field stands for the subclass) |
| `goap_node.dfy` | `GOAPNode` and the `MaxID` counter |
| `data_storage.dfy` | `DataStorage` |
| `planner_helper.dfy` | `GOAPPlannerHelper`, one pool object holding the six stacks |
| `plan_spec.dfy` | what `Plan` computes, as pure functions, and the lemmas about it |
| `planner.dfy` | `GOAPPlanner` itself, imperative, proved equal to `plan_spec.dfy` |
| `fsm.dfy` | `FSM` |
| `goap_agent.dfy` | `GOAPAgent` and its three state bodies |
| `behaviours.dfy` | `LesserGhoulBehaviour` and `RavagerBehaviour` (the two differ only in name) |
| `entities.dfy` | `EntityManager`, `ActiveSlot` and `BaseEntity` |
| `network.dfy` | the int, char and string codec of `NetworkManager` |
| `message_event.dfy` | `MessageEvent` and `EVENT_TYPE` |
| `eparam.dfy` | `EParam`, `UEParam`, `UEClass`, `UEStruct`, `UEEnum`, `SubParam` |
| `seq_util.dfy`, `wrappers.dfy` | sequence lemmas, and the `Option`/`Result`/`Outcome` types that carry exceptions |

Exceptions the .NET collections throw (`Dictionary.Add` on a present key, `Stack.Peek` on an
empty stack, `BitConverter` reading past the end) are modelled as `Fail` or `Err` results that
name the exception. So are the null dereferences the model's nullable references can reach; the
null and cast failures the model's types rule out are listed under "Left out".
Where the code and its documented intent disagree,
the model follows the code:

- `PopulateState` is called with its two arguments in swapped positions, so on a key both
  maps hold, the action's effect wins over the parent state. `Overlay` is defined that way.
- `Plan` returns null before it calls `GOAPPlannerHelper.Release`, so a failed plan leaves its
  nodes, states and sets in use.
- `ForceCreateEntity` never queues the gap slots it appends.
- `UnregisterID` leaves the entity's networking ID in place.

## Model

| member | source | states |
|---|---|---|
| WorldState.InStateItems | Blight/Assets/Scripts/AI/GOAP/GOAPPlanner.cs:190-205 | an action's preconditions hold in a state exactly when each of their (key, value) pairs is in it; empty preconditions always hold |
| WorldState.CondRelationItems | Blight/Assets/Scripts/AI/GOAP/GOAPPlanner.cs:143-153 | the relation holds exactly when the preconditions and effects share a (key, value) pair, so it never holds when either map is empty |
| WorldState.OverlayContents | Blight/Assets/Scripts/AI/GOAP/GOAPPlanner.cs:212-237 | a child state has the keys of both maps, holds every effect, and keeps the parent's value on every key the effects do not name |
| WorldState.GoalInState | Blight/Assets/Scripts/AI/GOAP/GOAPPlanner.cs:178-183 | the body is the source's expression: the goal's key is present with the goal's value |
| Collections.StateDict.constructor | Blight/Assets/Scripts/AI/GOAP/GOAPPlannerHelper.cs:62 | a new dictionary is empty |
| Collections.StateDict.Of | Blight/Assets/Scripts/AI/GOAP/GOAPPlanner.cs:24 | the world-state dictionary handed to Plan holds the given state |
| Collections.StateDict.Clear | Blight/Assets/Scripts/AI/GOAP/GOAPPlanner.cs:216 | the dictionary ends empty |
| Collections.StateDict.Add | Blight/Assets/Scripts/AI/GOAP/GOAPPlanner.cs:220 | a new key is inserted; a present key throws ArgumentException and leaves the map unchanged |
| Collections.StateDict.Put | Blight/Assets/Scripts/AI/GOAP/GOAPPlanner.cs:228 | the indexer overwrites or inserts the key and leaves every other key alone |
| Collections.ActionSet.constructor | Blight/Assets/Scripts/AI/GOAP/GOAPPlannerHelper.cs:89-102 | a new set is empty |
| Collections.ActionSet.Clear | Blight/Assets/Scripts/AI/GOAP/GOAPPlannerHelper.cs:89-102 | the set ends empty |
| Collections.ActionSet.Add | Blight/Assets/Scripts/AI/GOAP/GOAPPlanner.cs:167 | a new action is enumerated after the ones already there; adding a present action changes nothing |
| GoapActions.AddCondition | Blight/Assets/Scripts/AI/GOAP/GOAPAction.cs:135-138 | AddPrecondition / AddEffect: the key is added with its value and the others are kept; a present key throws ArgumentException |
| GoapActions.RemoveCondition | Blight/Assets/Scripts/AI/GOAP/GOAPAction.cs:144-148 | RemovePrecondition / RemoveEffect: the key is gone, every other key keeps its value, and a missing key changes nothing |
| GoapActions.AddThenRemove | Blight/Assets/Scripts/AI/GOAP/GOAPAction.cs:135-148 | adding a new condition and then removing it restores the map |
| GoapActions.RemoveThenAdd | Blight/Assets/Scripts/AI/GOAP/GOAPAction.cs:135-148 | removing a condition and adding it back with its old value restores the map |
| GoapActions.GoapAction.LesserGhoulAttack | Blight/Assets/Scripts/AI/Enemies/LesserGhoul/Actions/LesserGhoulAttackAction.cs:19-24 | no preconditions, effects exactly {AttackPlayer: true}, cost 1, risk 0, return 1 and so weight (1 - risk) * return = 1, no target, not in range, not attacked |
| GoapActions.GoapAction.DoReset | Blight/Assets/Scripts/AI/GOAP/GOAPAction.cs:75-80 | after a reset the action is not in range, has no target and has not attacked, whatever it was before, so a second reset changes nothing |
| GoapActions.GoapAction.DoSubReset | Blight/Assets/Scripts/AI/Enemies/LesserGhoul/Actions/LesserGhoulAttackAction.cs:26-30 | the attack's own reset clears the attacked flag and the target |
| GoapActions.GoapAction.CheckProceduralPrecondition | Blight/Assets/Scripts/AI/Enemies/LesserGhoul/Actions/LesserGhoulAttackAction.cs:42-52 | the target becomes the store's "Player" entry (null when absent), and the check passes exactly when that target is not null |
| GoapActions.GoapAction.Perform | Blight/Assets/Scripts/AI/Enemies/LesserGhoul/Actions/LesserGhoulAttackAction.cs:54-61 | the attack succeeds and is done afterwards |
| GoapActions.GoapAction.SetInRange | Blight/Assets/Scripts/AI/GOAP/GOAPAction.cs:116-128 | IsInRange afterwards answers the value just set |
| GoapActions.GoapAction.GetCost | Blight/Assets/Scripts/AI/GOAP/GOAPAction.cs:59-62 | the body is the source's expression: the action's cost |
| GoapActions.GoapAction.GetWeight | Blight/Assets/Scripts/AI/GOAP/GOAPAction.cs:67-70 | the body is the source's expression: (1 - risk) * return |
| GoapActions.GoapAction.IsInRange | Blight/Assets/Scripts/AI/GOAP/GOAPAction.cs:116-119 | the body is the source's expression: the in-range flag |
| GoapActions.GoapAction.RequiresInRange | Blight/Assets/Scripts/AI/Enemies/LesserGhoul/Actions/LesserGhoulAttackAction.cs:32-35 | the body is the source's expression: the attack always needs to be in range |
| GoapActions.GoapAction.IsDone | Blight/Assets/Scripts/AI/Enemies/LesserGhoul/Actions/LesserGhoulAttackAction.cs:37-40 | the body is the source's expression: the attacked flag |
| GoapNodes.IdCounter.constructor | Blight/Assets/Scripts/AI/GOAP/GOAPNode.cs:11 | the ID counter starts at 0 |
| GoapNodes.Better | Blight/Assets/Scripts/AI/GOAP/GOAPNode.cs:60-72 | more weight at lower cost is better; less weight at higher cost is not; at equal weight, not costing more is better (ties count as better); in general the comparison is w·c' ≥ c·w' |
| GoapNodes.RatioOrder | Blight/Assets/Scripts/AI/GOAP/GOAPNode.cs:69-71 | the source's test (w/w' - 1) ≥ (c/c' - 1) is equivalent to w·c' ≥ c·w' for positive w', c' |
| GoapNodes.Node.constructor | Blight/Assets/Scripts/AI/GOAP/GOAPNode.cs:23-28 | a new node takes the counter's value as its ID and the counter grows by one; the fields are the arguments and the path from the root is the parent's path plus the action |
| GoapNodes.Node.Reinitialize | Blight/Assets/Scripts/AI/GOAP/GOAPNode.cs:33-42 | every field becomes its argument and the ID is kept (the frame excludes it) |
| GoapNodes.Node.Clear | Blight/Assets/Scripts/AI/GOAP/GOAPNode.cs:47-54 | parent, state and action become null and both totals 0 |
| GoapNodes.Node.BetterThen | Blight/Assets/Scripts/AI/GOAP/GOAPNode.cs:60-72 | this node is better exactly when weight·other.cost ≥ cost·other.weight |
| DataStore.DataStorage.constructor | Blight/Assets/Scripts/AI/GOAP/DataStorage.cs:12 | a new store is empty |
| DataStore.DataStorage.AddData | Blight/Assets/Scripts/AI/GOAP/DataStorage.cs:19-25 | the key now maps to the value, whether or not it was present, and every other key is unchanged |
| DataStore.DataStorage.GetData | Blight/Assets/Scripts/AI/GOAP/DataStorage.cs:31-36 | the stored value for a present key, null for a missing one; the store is not modified |
| PlannerHelper.Pool.constructor | Blight/Assets/Scripts/AI/GOAP/GOAPPlannerHelper.cs:13-14 | all six stacks start empty and the pool invariant holds |
| PlannerHelper.Pool.UsedNotFree | Blight/Assets/Scripts/AI/GOAP/GOAPPlannerHelper.cs:13-14 | no node, state or set is on its used stack and its free stack at once |
| PlannerHelper.Pool.IdsUnique | Blight/Assets/Scripts/AI/GOAP/GOAPNode.cs:26 | two different pooled nodes have different IDs |
| PlannerHelper.Pool.GetFreeNode | Blight/Assets/Scripts/AI/GOAP/GOAPPlannerHelper.cs:19-33 | the top free node is reused when there is one, else a fresh node with the next ID is made; either way it carries exactly the given fields and is pushed on the used stack, and the pool grows only in the second case |
| PlannerHelper.Pool.PushNew | Blight/Assets/Scripts/AI/GOAP/GOAPPlannerHelper.cs:24-31 | a freshly built node goes on the used stack and the pool invariant is restored |
| PlannerHelper.Pool.MoveTopFreeNode | Blight/Assets/Scripts/AI/GOAP/GOAPPlannerHelper.cs:27-31 | the top free node moves to the top of the used stack |
| PlannerHelper.Pool.ReleaseNode | Blight/Assets/Scripts/AI/GOAP/GOAPPlannerHelper.cs:38-44 | the used stack ends empty and its nodes go onto the free stack in reverse order |
| PlannerHelper.Pool.GetFreeState | Blight/Assets/Scripts/AI/GOAP/GOAPPlannerHelper.cs:56-66 | the top free dictionary is reused with its old contents (it is not cleared), else a fresh empty one; it is pushed on the used stack |
| PlannerHelper.Pool.ReleaseState | Blight/Assets/Scripts/AI/GOAP/GOAPPlannerHelper.cs:71-77 | the used states end empty and go onto the free stack in reverse order |
| PlannerHelper.Pool.GetFreeActionSet | Blight/Assets/Scripts/AI/GOAP/GOAPPlannerHelper.cs:89-102 | the set handed out is always empty, reused from the top of the free stack when there is one, and pushed on the used stack |
| PlannerHelper.Pool.MoveTopFreeSet | Blight/Assets/Scripts/AI/GOAP/GOAPPlannerHelper.cs:92-99 | the top free set moves to the top of the used stack |
| PlannerHelper.Pool.PushNewSet | Blight/Assets/Scripts/AI/GOAP/GOAPPlannerHelper.cs:96-99 | a fresh set goes on the used stack |
| PlannerHelper.Pool.ReleaseSubset | Blight/Assets/Scripts/AI/GOAP/GOAPPlannerHelper.cs:107-113 | the used sets end empty and go onto the free stack in reverse order |
| PlannerHelper.Pool.Release | Blight/Assets/Scripts/AI/GOAP/GOAPPlannerHelper.cs:119-124 | every used node, state and set moves to its free stack; the used stacks end empty, each free stack grows by the old used count, and with nothing in use nothing changes |
| PlanSpec.Follow | Blight/Assets/Scripts/AI/GOAP/GOAPPlanner.cs:111-112 | following actions from a node extends its path by exactly those actions |
| PlanSpec.FollowTotals | Blight/Assets/Scripts/AI/GOAP/GOAPPlanner.cs:45 | a node's state is its start state with each action's effects applied in turn, and its running cost and weight are the sums of GetCost / GetWeight over its actions, from 0 at the root |
| PlanSpec.ExpandSound | Blight/Assets/Scripts/AI/GOAP/GOAPPlanner.cs:100-136 | every leaf BuildGraph collects lies on a branch of distinct usable actions that the search takes and that ends at the goal |
| PlanSpec.ExpandUpToSound | Blight/Assets/Scripts/AI/GOAP/GOAPPlanner.cs:105-133 | the same for the leaves collected by the first i loop iterations |
| PlanSpec.BranchSound | Blight/Assets/Scripts/AI/GOAP/GOAPPlanner.cs:108-131 | the same for the leaves one loop iteration collects |
| PlanSpec.GoalChildSound | Blight/Assets/Scripts/AI/GOAP/GOAPPlanner.cs:118-123 | a child that satisfies the goal is itself a sound leaf |
| PlanSpec.DeepSound | Blight/Assets/Scripts/AI/GOAP/GOAPPlanner.cs:127-131 | a sound leaf of the recursive call on the subset is a sound leaf of the parent |
| PlanSpec.StepSound | Blight/Assets/Scripts/AI/GOAP/GOAPPlanner.cs:127-128 | prefixing one taken action to a branch of the subset gives a branch of the parent, still without repeats |
| PlanSpec.ExpandComplete | Blight/Assets/Scripts/AI/GOAP/GOAPPlanner.cs:100-136 | every branch of distinct usable actions that reaches the goal ends at a leaf BuildGraph collects |
| PlanSpec.BranchComplete | Blight/Assets/Scripts/AI/GOAP/GOAPPlanner.cs:108-131 | such a branch is collected by the iteration for its first action |
| PlanSpec.UpToContains | Blight/Assets/Scripts/AI/GOAP/GOAPPlanner.cs:105 | a leaf of iteration j stays among the leaves after any later iteration |
| PlanSpec.ReachesPreconditions | Blight/Assets/Scripts/AI/GOAP/GOAPPlanner.cs:108 | every action on a branch has all its preconditions in the state just before it |
| PlanSpec.ReachesLinked | Blight/Assets/Scripts/AI/GOAP/GOAPPlanner.cs:115-116 | below the root, every action on a branch has at least one precondition, and one of them is an effect of the action before it |
| PlanSpec.ReachesGoal | Blight/Assets/Scripts/AI/GOAP/GOAPPlanner.cs:118-130 | the goal holds after the last action of a branch and after no shorter non-empty prefix |
| PlanSpec.TotalsPositive | Blight/Assets/Scripts/AI/GOAP/GOAPPlanner.cs:112 | a non-empty path of actions with positive cost and weight has positive totals |
| PlanSpec.LeavesPositive | Blight/Assets/Scripts/AI/GOAP/GOAPPlanner.cs:60 | every leaf has positive cost and weight, so BetterThen never divides by zero |
| PlanSpec.Pick | Blight/Assets/Scripts/AI/GOAP/GOAPPlanner.cs:53-63 | the kept leaf is one of the leaves |
| PlanSpec.RatioTrans | Blight/Assets/Scripts/AI/GOAP/GOAPNode.cs:69 | the BetterThen ratio order is transitive on positive nodes |
| PlanSpec.BetterIsRatio | Blight/Assets/Scripts/AI/GOAP/GOAPNode.cs:60-72 | BetterThen between leaves is the ratio order |
| PlanSpec.PickIsLastBest | Blight/Assets/Scripts/AI/GOAP/GOAPPlanner.cs:53-63 | the kept leaf is at least as good as every leaf, and no later leaf is at least as good as it: it is the last best leaf |
| PlanSpec.LastWins | Blight/Assets/Scripts/AI/GOAP/GOAPPlanner.cs:60-61 | a new leaf that is better than the best so far is the best of all |
| PlanSpec.EarlierStays | Blight/Assets/Scripts/AI/GOAP/GOAPPlanner.cs:60-61 | a new leaf that is not better leaves the choice, which stays the last best |
| PlanSpec.Usable | Blight/Assets/Scripts/AI/GOAP/GOAPPlanner.cs:35-41 | the usable actions are exactly the available ones whose procedural check passes |
| PlanSpec.UsableSnoc | Blight/Assets/Scripts/AI/GOAP/GOAPPlanner.cs:36-41 | the usable set keeps the enumeration order: one more action adds it at the end exactly when its check passes |
| PlanSpec.UsableDistinct | Blight/Assets/Scripts/AI/GOAP/GOAPPlanner.cs:35-41 | the usable actions hold no action twice |
| PlanSpec.PlanCorrect | Blight/Assets/Scripts/AI/GOAP/GOAPPlanner.cs:22-90 | the planner returns null exactly when no branch of distinct usable actions reaches the goal; a returned plan is such a branch, non-empty and no longer than the usable set |
| PlanSpec.NoLeafNoBranch | Blight/Assets/Scripts/AI/GOAP/GOAPPlanner.cs:46-50 | with no leaf, no branch reaches the goal |
| PlanSpec.PlanIsBranch | Blight/Assets/Scripts/AI/GOAP/GOAPPlanner.cs:53-88 | with some leaf, the returned plan is a goal-reaching branch of distinct usable actions |
| Planner.InStateScan | Blight/Assets/Scripts/AI/GOAP/GOAPPlanner.cs:190-205 | the scan with early exit answers InState |
| Planner.CondRelationScan | Blight/Assets/Scripts/AI/GOAP/GOAPPlanner.cs:143-153 | the scan with early return answers CondRelation |
| Planner.PopulateState | Blight/Assets/Scripts/AI/GOAP/GOAPPlanner.cs:212-237 | the child state is a pooled dictionary, cleared, holding the parent state with the effects overwriting; one state is taken from the pool and nothing else changes |
| Planner.FillState | Blight/Assets/Scripts/AI/GOAP/GOAPPlanner.cs:218-234 | both loops together turn the cleared dictionary into the overlay |
| Planner.CopyState | Blight/Assets/Scripts/AI/GOAP/GOAPPlanner.cs:218-221 | the first loop copies the parent state (passed in the effects' parameter) |
| Planner.OverwriteState | Blight/Assets/Scripts/AI/GOAP/GOAPPlanner.cs:223-234 | the second loop overwrites or adds each effect |
| Planner.ActionSubset | Blight/Assets/Scripts/AI/GOAP/GOAPPlanner.cs:160-171 | the subset is a pooled set holding the actions other than the removed one, in order |
| Planner.FillSubset | Blight/Assets/Scripts/AI/GOAP/GOAPPlanner.cs:164-168 | the loop copies every action but the removed one |
| Planner.TakeNode | Blight/Assets/Scripts/AI/GOAP/GOAPPlanner.cs:112 | the node taken from the pool carries the given parent, totals, state and action and stands for the intended search node |
| Planner.MakeChild | Blight/Assets/Scripts/AI/GOAP/GOAPPlanner.cs:111-112 | the new node stands for the child search node: the parent's path plus the action, the overlaid state and the summed totals |
| Planner.PruneCheck | Blight/Assets/Scripts/AI/GOAP/GOAPPlanner.cs:115 | the skip test answers Pruned |
| Planner.UpToZero | Blight/Assets/Scripts/AI/GOAP/GOAPPlanner.cs:102 | before the loop no leaf has been added |
| Planner.UpToNext | Blight/Assets/Scripts/AI/GOAP/GOAPPlanner.cs:105 | one more iteration appends that action's branch |
| Planner.BranchSkipped | Blight/Assets/Scripts/AI/GOAP/GOAPPlanner.cs:108-116 | an action not taken adds no leaf |
| Planner.BranchGoal | Blight/Assets/Scripts/AI/GOAP/GOAPPlanner.cs:118-123 | a child at the goal is the iteration's only leaf |
| Planner.DenotesSnoc | Blight/Assets/Scripts/AI/GOAP/GOAPPlanner.cs:121 | appending a node to the leaves appends its search node |
| Planner.DenotesAt | Blight/Assets/Scripts/AI/GOAP/GOAPPlanner.cs:54-63 | each leaf node carries its search node's path and totals |
| Planner.BuildGraph | Blight/Assets/Scripts/AI/GOAP/GOAPPlanner.cs:100-136 | the nodes appended to the leaves stand for exactly Expand of the usable actions, in order, and the result is true exactly when some leaf was added |
| Planner.Iterate | Blight/Assets/Scripts/AI/GOAP/GOAPPlanner.cs:105-133 | one loop iteration extends the leaves from the first i actions' expansion to the first i+1's |
| Planner.Step | Blight/Assets/Scripts/AI/GOAP/GOAPPlanner.cs:108-132 | one action's iteration appends that action's branch |
| Planner.Place | Blight/Assets/Scripts/AI/GOAP/GOAPPlanner.cs:115-131 | after the child exists: skipped when pruned, a leaf at the goal, otherwise the recursion's leaves |
| Planner.Descend | Blight/Assets/Scripts/AI/GOAP/GOAPPlanner.cs:127-130 | the recursive call on the subset appends the child's expansion |
| Planner.Plan | Blight/Assets/Scripts/AI/GOAP/GOAPPlanner.cs:22-90 | the queue returned is PlanOf the usable actions, the world state and the goal; every action is reset and then checked; the world state is not changed; a plan releases the pools and a null result leaves them in use |
| Planner.Prepare | Blight/Assets/Scripts/AI/GOAP/GOAPPlanner.cs:28-45 | all actions reset, the usable set collected and the root node taken, standing for the root search node |
| Planner.TakeUsable | Blight/Assets/Scripts/AI/GOAP/GOAPPlanner.cs:35-41 | the pooled usable set holds exactly the actions whose check passes, in order, and each action's target is the store's Player |
| Planner.Search | Blight/Assets/Scripts/AI/GOAP/GOAPPlanner.cs:44-88 | from the root node the method returns PlanOf the usable actions |
| Planner.Finish | Blight/Assets/Scripts/AI/GOAP/GOAPPlanner.cs:53-88 | the kept leaf's path is returned and the pools are released |
| Planner.ToQueue | Blight/Assets/Scripts/AI/GOAP/GOAPPlanner.cs:82-88 | the queue holds the plan's actions in order |
| Planner.ResetActions | Blight/Assets/Scripts/AI/GOAP/GOAPPlanner.cs:29-32 | every available action ends reset |
| Planner.CollectUsable | Blight/Assets/Scripts/AI/GOAP/GOAPPlanner.cs:36-41 | the loop leaves exactly the usable actions in the set |
| Planner.CollectOne | Blight/Assets/Scripts/AI/GOAP/GOAPPlanner.cs:38-40 | one iteration adds the action exactly when its check passes |
| Planner.Choose | Blight/Assets/Scripts/AI/GOAP/GOAPPlanner.cs:53-63 | the scan keeps the leaf Pick names, the last best one |
| Planner.ParentLink | Blight/Assets/Scripts/AI/GOAP/GOAPPlanner.cs:75 | a used node's parent is a used node one level up, and the node's path is the parent's plus its action |
| Planner.Reconstruct | Blight/Assets/Scripts/AI/GOAP/GOAPPlanner.cs:66-76 | walking the parent chain and inserting each action at the front yields the leaf's path from the root |
| Fsms.Peek | Blight/Assets/Scripts/AI/GOAP/FSM.cs:24 | the top of a non-empty stack; an empty stack throws InvalidOperationException |
| Fsms.Popped | Blight/Assets/Scripts/AI/GOAP/FSM.cs:46 | the stack below the top, one shorter; an empty stack throws InvalidOperationException |
| Fsms.PushThenPop | Blight/Assets/Scripts/AI/GOAP/FSM.cs:36-47 | after a push the pushed state is on top, the height grows by one, and a pop restores the old stack |
| Fsms.Fsm.constructor | Blight/Assets/Scripts/AI/GOAP/FSM.cs:16 | a new machine has an empty stack |
| Fsms.Fsm.Update | Blight/Assets/Scripts/AI/GOAP/FSM.cs:22-30 | the state run is the top one, an empty stack throws, and the stack is not changed |
| Fsms.Fsm.PushState | Blight/Assets/Scripts/AI/GOAP/FSM.cs:36-39 | the state goes on top of the old stack |
| Fsms.Fsm.PopState | Blight/Assets/Scripts/AI/GOAP/FSM.cs:44-47 | the top is removed; on an empty stack it throws and nothing changes |
| Fsms.Fsm.ClearState | Blight/Assets/Scripts/AI/GOAP/FSM.cs:52-55 | the stack ends empty |
| GoapAgents.FirstFound | Blight/Assets/Scripts/AI/GOAP/GOAPAgent.cs:152-159 | the index of the first goal with a plan: every earlier goal has none, and it is the number of goals when none has one |
| GoapAgents.FirstFoundIs | Blight/Assets/Scripts/AI/GOAP/GOAPAgent.cs:152-159 | an index before which every goal fails and at which one succeeds is FirstFound |
| GoapAgents.PlanFirst | Blight/Assets/Scripts/AI/GOAP/GOAPAgent.cs:152-159 | the goal loop plans in priority order and stops at FirstFound with that goal's plan; once a goal has been planned for, every action is reset and targets the store's "Player", and with no goal no action changes |
| GoapAgents.GoapAgent.constructor | Blight/Assets/Scripts/AI/GOAP/GOAPAgent.cs:66-82 | Start: a fresh machine holding only the idle state, the loaded action set, an empty action queue |
| GoapAgents.GoapAgent.AddAction | Blight/Assets/Scripts/AI/GOAP/GOAPAgent.cs:94-97 | the action joins the available set |
| GoapAgents.GoapAgent.RemoveAction | Blight/Assets/Scripts/AI/GOAP/GOAPAgent.cs:112-115 | the action leaves the available set |
| GoapAgents.GoapAgent.GetAction | Blight/Assets/Scripts/AI/GOAP/GOAPAgent.cs:99-110 | null exactly when no available action has the type; otherwise the first such action in enumeration order |
| GoapAgents.GoapAgent.AbortFsm | Blight/Assets/Scripts/AI/GOAP/GOAPAgent.cs:117-121 | the stack ends as exactly [idle] |
| GoapAgents.GoapAgent.HasActionPlan | Blight/Assets/Scripts/AI/GOAP/GOAPAgent.cs:130-133 | true exactly when the action queue is not empty |
| GoapAgents.GoapAgent.IdleState | Blight/Assets/Scripts/AI/GOAP/GOAPAgent.cs:142-177 | IdleEffect: the first goal with a plan gets it: the queue is that plan, PlanFound is reported and performAction replaces the top; with no plan PlanFailed is reported and the stack becomes [idle]; planning leaves every action reset and targeting the store's "Player", and with no goal no action changes |
| GoapAgents.GoapAgent.Conclude | Blight/Assets/Scripts/AI/GOAP/GOAPAgent.cs:161-175 | a found plan is stored, reported and replaces the top by performAction; no plan reports PlanFailed with the goals and resets the stack to [idle] |
| GoapAgents.GoapAgent.MoveToState | Blight/Assets/Scripts/AI/GOAP/GOAPAgent.cs:182-202 | MoveToEffect: an empty queue throws and changes nothing; a head that needs range and whose own target field is null resets to [idle] without moving; otherwise the agent moves and the state is popped only once it arrives; the queue is kept |
| GoapAgents.GoapAgent.PerformActionState | Blight/Assets/Scripts/AI/GOAP/GOAPAgent.cs:207-258 | PerformEffect: the head is dequeued only when done; an empty queue reports ActionsFinished and resets to [idle]; an out-of-range head pushes moveTo without performing; a failed Perform reports PlanAborted with that action and resets to [idle] |
| GoapAgents.GoapAgent.Update | Blight/Assets/Scripts/AI/GOAP/GOAPAgent.cs:87-90 | the body of the top state runs and nothing else: with idle on top the result is IdleEffect, with moveTo MoveToEffect, with performAction PerformEffect, each taken from the queue, events and stack before the call; an empty stack, or moveTo with an empty queue, throws and changes nothing |
| Behaviours.OrderedDict.constructor | Blight/Assets/Scripts/AI/Enemies/LesserGhoul/LesserGhoulBehaviour.cs:34-39 | a new dictionary is empty |
| Behaviours.OrderedDict.Clear | Blight/Assets/Scripts/AI/Enemies/LesserGhoul/LesserGhoulBehaviour.cs:64 | the dictionary ends empty |
| Behaviours.OrderedDict.Add | Blight/Assets/Scripts/AI/Enemies/LesserGhoul/LesserGhoulBehaviour.cs:43 | a new key is added last; a present key throws ArgumentException and nothing changes |
| Behaviours.OrderedDict.Set | Blight/Assets/Scripts/AI/Enemies/LesserGhoul/LesserGhoulBehaviour.cs:58 | a present key is overwritten in its place, a new one is added last |
| Behaviours.SortedCons | Blight/Assets/Scripts/AI/Enemies/LesserGhoul/LesserGhoulBehaviour.cs:60-62 | a sequence is heaviest-first exactly when its head dominates its heaviest-first tail |
| Behaviours.InsertByWeight | Blight/Assets/Scripts/AI/Enemies/LesserGhoul/LesserGhoulBehaviour.cs:60-62 | inserting a key adds exactly that key |
| Behaviours.InsertDominated | Blight/Assets/Scripts/AI/Enemies/LesserGhoul/LesserGhoulBehaviour.cs:60-62 | a key that dominates both the inserted key and the sequence dominates the result |
| Behaviours.InsertSorted | Blight/Assets/Scripts/AI/Enemies/LesserGhoul/LesserGhoulBehaviour.cs:60-62 | inserting into a heaviest-first sequence keeps it heaviest-first |
| Behaviours.SortByWeight | Blight/Assets/Scripts/AI/Enemies/LesserGhoul/LesserGhoulBehaviour.cs:60-62 | `orderby pair.Value descending` returns a permutation of the keys |
| Behaviours.SortSorted | Blight/Assets/Scripts/AI/Enemies/LesserGhoul/LesserGhoulBehaviour.cs:60-62 | the sorted keys come in non-increasing weight order |
| Behaviours.SortedKeys | Blight/Assets/Scripts/AI/Enemies/LesserGhoul/LesserGhoulBehaviour.cs:60-62 | sorting a dictionary's keys yields each key once, heaviest first, and no other |
| Behaviours.Behaviour.constructor | Blight/Assets/Scripts/AI/Enemies/Ravager/RavagerBehaviour.cs:34-39 | both dictionaries start empty |
| Behaviours.Behaviour.Initialize | Blight/Assets/Scripts/AI/Enemies/LesserGhoul/LesserGhoulBehaviour.cs:41-44 | AttackPlayer is added with weight LOW (0); a second call throws ArgumentException on the duplicate key and changes nothing |
| Behaviours.Behaviour.GoalsByPriority | Blight/Assets/Scripts/AI/Enemies/LesserGhoul/LesserGhoulBehaviour.cs:56-71 | AttackPlayer's weight becomes HIGH (2); the same sorted-tags instance is returned, cleared and refilled with exactly the weighted keys, each mapped to true, heaviest first |
| Behaviours.Refill | Blight/Assets/Scripts/AI/Enemies/Ravager/RavagerBehaviour.cs:64-68 | the cleared dictionary ends holding exactly the given keys, in order, each mapped to true |
| Behaviours.GoalsOf | Blight/Assets/Scripts/AI/GOAP/GOAPAgent.cs:152-159 | the goals the agent tries are the dictionary's pairs in enumeration order, one per key; what that gives for a behaviour's dictionary is PriorityGoals |
| Behaviours.PriorityGoals | Blight/Assets/Scripts/AI/Enemies/LesserGhoul/LesserGhoulBehaviour.cs:56-71 | for the dictionary GoalsByPriority returns, the goals are every weighted key exactly once, each wanted true, in non-increasing weight order, and their keys are the dictionary's keys in its order |
| Entities.ActiveSlot.constructor | Blight/Assets/Scripts/Managers/EntityManager.cs:187-191 | a new slot has listID -1 and no owner |
| Entities.BaseEntity.constructor | Blight/Assets/Scripts/Managers/BaseEntity.cs:7-23 | a new entity is not written, has both IDs -1, no slot, and may register itself |
| Entities.BaseEntity.Clone | Blight/Assets/Scripts/Managers/EntityManager.cs:66-69 | an instantiated copy keeps the template's serialized fields (written and both IDs) and may register itself |
| Entities.BaseEntity.SetSlot | Blight/Assets/Scripts/Managers/BaseEntity.cs:61-64 | the slot is stored unconditionally |
| Entities.BaseEntity.QueueIds | Blight/Assets/Scripts/Managers/BaseEntity.cs:66-73 | both IDs are taken only while the registry acts for this entity; otherwise nothing changes |
| Entities.BaseEntity.ResetIds | Blight/Assets/Scripts/Managers/BaseEntity.cs:75-82 | an authorised reset sets both IDs to -1; otherwise nothing changes |
| Entities.BaseEntity.AllowSelfAssignment | Blight/Assets/Scripts/Managers/BaseEntity.cs:84-90 | the flag changes only while the registry acts for this entity |
| Entities.BaseEntity.SetWritten | Blight/Assets/Scripts/Managers/BaseEntity.cs:92-98 | the written flag changes only while the registry acts for this entity |
| Entities.BaseEntity.SelfInitialize | Blight/Assets/Scripts/Managers/BaseEntity.cs:35-41 | an entity that may register itself and is not written takes a slot: it owns the slot at its networking ID, is written, has individual ID -1, and one more slot is occupied; any other entity changes nothing |
| Entities.BaseEntity.Spawn | Blight/Assets/Scripts/Managers/BaseEntity.cs:25-33 | Awake followed by OnEnable registers once: exactly one more slot is occupied |
| Entities.BaseEntity.SelfDestruct | Blight/Assets/Scripts/Managers/BaseEntity.cs:48-59 | an entity that is not written changes nothing and unregisters nothing |
| Entities.EntityManager.constructor | Blight/Assets/Scripts/Managers/EntityManager.cs:23-27 | the slot list and the free queue start empty and the registry invariant holds |
| Entities.EntityManager.CheckRequest | Blight/Assets/Scripts/Managers/EntityManager.cs:18-21 | the body is the source's expression: the entity is the one the registry acts for |
| Entities.EntityManager.NoRequestOutside | Blight/Assets/Scripts/Managers/EntityManager.cs:16-21 | between calls CheckRequest holds for no entity |
| Entities.EntityManager.AppendSlot | Blight/Assets/Scripts/Managers/EntityManager.cs:33-38 | the new slot is appended with listID equal to its index and no owner |
| Entities.EntityManager.AssignIds | Blight/Assets/Scripts/Managers/EntityManager.cs:146-151 | the requester takes both IDs and nothing else of it changes; a null requester throws NullReferenceException; afterwards no entity is being acted for |
| Entities.EntityManager.SetSelfAssignment | Blight/Assets/Scripts/Managers/EntityManager.cs:153-172 | RevokeIDs, DenySelfAssignment and PermitSelfAssignment set the requester's flag; afterwards no entity is being acted for |
| Entities.EntityManager.SetWrittenFor | Blight/Assets/Scripts/Managers/EntityManager.cs:174-179 | the requester's written flag is set; afterwards no entity is being acted for |
| Entities.EntityManager.RegisterId | Blight/Assets/Scripts/Managers/EntityManager.cs:71-109 | the oldest freed slot is reused before a new one is appended; the entity then owns the slot, has that slot's index as networking ID, individual ID -1, and is written; in the editor a null entity or an owned queued slot is logged and refused |
| Entities.EntityManager.UnregisterId | Blight/Assets/Scripts/Managers/EntityManager.cs:113-144 | the slot at the entity's networking ID loses its owner and joins the free queue; the entity may no longer register itself and is not written, but keeps its IDs; an ID outside the list throws; the editor refuses null and negative IDs and logs a mismatched owner |
| Entities.EntityManager.GrowTo | Blight/Assets/Scripts/Managers/EntityManager.cs:33-40 | empty slots are appended until tempID is an index; the old slots stay |
| Entities.EntityManager.Install | Blight/Assets/Scripts/Managers/EntityManager.cs:53-63 | the template keeps its IDs and ends unable to register itself; the new copy is written, has the template's IDs and owns the slot |
| Entities.EntityManager.ForceCreateEntity | Blight/Assets/Scripts/Managers/EntityManager.cs:29-64 | a negative ID throws ArgumentOutOfRangeException; the list grows to reach the ID and the gap slots are not queued; in the editor an occupied slot gives null; a null template then throws NullReferenceException after the list has grown; on that refusal and that throw no slot changes owner and a refused template is untouched; otherwise a fresh written entity with the given IDs owns the slot |
| Network.Pow256 | Blight/Assets/Scripts/Managers/NetworkManager.cs:113-117 | the place value of a byte position is positive |
| Network.Digits | Blight/Assets/Scripts/Managers/NetworkManager.cs:115 | a value is written as exactly n little-endian bytes |
| Network.Value | Blight/Assets/Scripts/Managers/NetworkManager.cs:73 | the value little-endian bytes stand for is below 256 to the number of bytes |
| Network.ValueOfDigits | Blight/Assets/Scripts/Managers/NetworkManager.cs:73 | reading back the bytes of a value that fits yields the value |
| Network.DigitsOfValue | Blight/Assets/Scripts/Managers/NetworkManager.cs:115 | writing the value of some bytes yields those bytes |
| Network.Unsigned | Blight/Assets/Scripts/Managers/NetworkManager.cs:115 | an int's two's-complement bit pattern is below 2^32 |
| Network.IntBytes | Blight/Assets/Scripts/Managers/NetworkManager.cs:115 | an int is written as sizeof(int) = 4 bytes |
| Network.IntRoundTrip | Blight/Assets/Scripts/Managers/NetworkManager.cs:71-77 | PullInt of PackInt's bytes returns the packed int |
| Network.IntBytesRoundTrip | Blight/Assets/Scripts/Managers/NetworkManager.cs:113-117 | packing the int pulled from 4 bytes gives those bytes back |
| Network.CharBytes | Blight/Assets/Scripts/Managers/NetworkManager.cs:127 | a char is written as sizeof(char) = 2 bytes |
| Network.CharRoundTrip | Blight/Assets/Scripts/Managers/NetworkManager.cs:87-93 | PullChar of PackChar's bytes returns the packed char, and packing a pulled char gives its bytes back |
| Network.CharsBytes | Blight/Assets/Scripts/Managers/NetworkManager.cs:135-138 | the chars of a string take 2 bytes each |
| Network.CharsAt | Blight/Assets/Scripts/Managers/NetworkManager.cs:135-138 | char i of a string sits at bytes 2i and 2i+1 of its char bytes |
| Network.StringBytes | Blight/Assets/Scripts/Managers/NetworkManager.cs:131-139 | a packed string is 4 + 2·len bytes |
| Network.StringLayout | Blight/Assets/Scripts/Managers/NetworkManager.cs:131-139 | a packed string's first 4 bytes encode its length and char i sits at bytes 4 + 2i and 5 + 2i |
| Network.CopyCheck | Blight/Assets/Scripts/Managers/NetworkManager.cs:115 | CopyTo succeeds exactly when the cursor is not negative and the bytes fit between it and the end; otherwise it throws ArgumentOutOfRangeException for a negative cursor and ArgumentException for too few bytes |
| Network.ReadCheck | Blight/Assets/Scripts/Managers/NetworkManager.cs:73 | a BitConverter read succeeds exactly when the cursor is not negative and the value's bytes lie inside the buffer; otherwise it throws ArgumentOutOfRangeException for a cursor outside the buffer and ArgumentException for too few bytes |
| Network.Put | Blight/Assets/Scripts/Managers/NetworkManager.cs:115 | copying bytes at the cursor changes exactly the bytes in [iter, iter + size) and keeps every other byte; it is only called once CopyCheck has found that the bytes fit |
| Network.PackInt | Blight/Assets/Scripts/Managers/NetworkManager.cs:113-117 | the int's 4 bytes are written at the cursor, nothing else changes, and the cursor advances by 4; past the end it throws and writes nothing |
| Network.PackChar | Blight/Assets/Scripts/Managers/NetworkManager.cs:125-129 | the char's 2 bytes are written at the cursor, nothing else changes, and the cursor advances by 2; past the end it throws and writes nothing |
| Network.PullInt | Blight/Assets/Scripts/Managers/NetworkManager.cs:71-77 | the int the 4 bytes at the cursor encode, with the cursor advanced by 4; a read past the end throws |
| Network.PullChar | Blight/Assets/Scripts/Managers/NetworkManager.cs:87-93 | the char the 2 bytes at the cursor encode, with the cursor advanced by 2; a read past the end throws |
| Network.Fitting | Blight/Assets/Scripts/Managers/NetworkManager.cs:135-138 | the number k of chars PackString writes before running out of room: k chars fit before the end and k + 1 do not |
| Network.PackNext | Blight/Assets/Scripts/Managers/NetworkManager.cs:135-138 | one loop iteration appends the next char's 2 bytes after those already packed, or throws leaving the buffer as it was |
| Network.PackString | Blight/Assets/Scripts/Managers/NetworkManager.cs:131-139 | the length and then each char are written at the cursor, which advances by 4 + 2·len; bytes outside that range are unchanged; a string that does not fit throws after the bytes that did fit |
| Network.Declared | Blight/Assets/Scripts/Managers/NetworkManager.cs:98 | the length a string's first 4 bytes declare |
| Network.PullError | Blight/Assets/Scripts/Managers/NetworkManager.cs:95-106 | the exception a PullString that runs off the buffer throws |
| Network.PullString | Blight/Assets/Scripts/Managers/NetworkManager.cs:95-106 | as written: succeeds exactly when the declared length and all declared chars fit, advances the cursor by 4 + 2·n, and always returns "" |
| Network.PullStringCollected | Blight/Assets/Scripts/Managers/NetworkManager.cs:95-106 | as intended: the same cursor and errors, returning the n chars the bytes hold |
| Network.PullPacked | Blight/Assets/Scripts/Managers/NetworkManager.cs:95-139 | pulling a packed string gives the string back |
| MessageEvents.MessageEvent.FromString | Blight/Assets/Scripts/Managers/EntityEvents/MessageEvent.cs:13-21 | type MESSAGE, message msg, and a fresh buffer of exactly 2·len + 4 bytes holding the length and then the chars, filled to its end |
| MessageEvents.MessageEvent.Of | Blight/Assets/Scripts/Managers/EntityEvents/MessageEvent.cs:24-30 | the byte constructor's fields: type MESSAGE, the given buffer and message |
| MessageEvents.FromBytes | Blight/Assets/Scripts/Managers/EntityEvents/MessageEvent.cs:24-30 | as written: the event aliases the given bytes and its message is always ""; bytes too short for the declared string throw |
| MessageEvents.FromBytesCollected | Blight/Assets/Scripts/Managers/EntityEvents/MessageEvent.cs:24-30 | as intended: the message is the declared number of chars the bytes hold |
| MessageEvents.Echo | Blight/Assets/Scripts/Managers/EntityEvents/MessageEvent.cs:13-30 | as written: an event rebuilt from a message's bytes has those bytes but an empty message, so every non-empty message is lost |
| MessageEvents.EchoCollected | Blight/Assets/Scripts/Managers/EntityEvents/MessageEvent.cs:13-30 | as intended: the rebuilt event has the sent message |
| MessageEvents.Fits | Blight/Assets/Scripts/Managers/EntityEvents/MessageEvent.cs:17-20 | a message's own buffer declares its length and holds all its chars |
| EParams.Fired | Blight/Assets/Scripts/Managers/EParam.cs:67-74 | at most one call per listener |
| EParams.NotifySilent | Blight/Assets/Scripts/Managers/EParam.cs:67-74 | with no listener set, the SubParam value is untouched and nothing fires |
| EParams.NotifyAppend | Blight/Assets/Scripts/Managers/EParam.cs:131-156 | running two listener lists one after the other is running their concatenation, for both the value and the calls |
| EParams.FirstMatch | Blight/Assets/Scripts/Managers/EParam.cs:137-144 | the index of the first entry whose state equals the value, none before it; none when no entry matches |
| EParams.ScanFirst | Blight/Assets/Scripts/Managers/EParam.cs:137-144 | the scan with break finds FirstMatch |
| EParams.FirstFrom | Blight/Assets/Scripts/Managers/EParam.cs:137-144 | resuming the scan at i finds FirstMatch unless a match lies before i |
| EParams.Picked | Blight/Assets/Scripts/Managers/EParam.cs:137-153 | at most one specific listener runs: none exactly when no entry's state equals Value, else the first matching entry's listener |
| EParams.RunHooks | Blight/Assets/Scripts/Managers/EParam.cs:69-72 | each listener runs in order on the SubParam with its old value and Value |
| EParams.PickOne | Blight/Assets/Scripts/Managers/EParam.cs:137-153 | the loop picks the listener Picked names |
| EParams.SubParam.constructor | Blight/Assets/Scripts/Managers/EParam.cs:160-164 | a SubParam holds the given value |
| EParams.EParam.constructor | Blight/Assets/Scripts/Managers/EParam.cs:8-24 | as written: unlocked, no SubParam yet, no general delegate and a null specific-delegate list |
| EParams.EParam.Initialized | Blight/Assets/Scripts/Managers/EParam.cs:116 | as intended: the same with an empty specific-delegate list |
| EParams.EParam.AddSpecificDelegate | Blight/Assets/Scripts/Managers/EParam.cs:116 | while the list is null (always, as written) the add throws NullReferenceException and nothing changes; otherwise an entry is appended to the list and nothing else changes |
| EParams.EParam.Param | Blight/Assets/Scripts/Managers/EParam.cs:15-24 | the SubParam is created with the default value on first use and the same one is returned afterwards |
| EParams.EParam.Stage | Blight/Assets/Scripts/Managers/EParam.cs:69-71 | the old SubParam value is remembered and the SubParam takes Value |
| EParams.EParam.GeneralInnerSet | Blight/Assets/Scripts/Managers/EParam.cs:67-74 | the general event and delegate run with (old SubParam value, Value), and afterwards Value equals the SubParam value they left |
| EParams.EParam.EnumInnerSet | Blight/Assets/Scripts/Managers/EParam.cs:131-156 | as written: the general event and the first matching specific event run; with a null delegate list it throws NullReferenceException and Value keeps the assigned value; otherwise the first matching delegate runs too and Value equals the SubParam value |
| EParams.EParam.InnerSet | Blight/Assets/Scripts/Managers/EParam.cs:58-74 | the subclass's listeners run and Value settles as above |
| EParams.EParam.SetValue | Blight/Assets/Scripts/Managers/EParam.cs:26-36 | while locked nothing changes and no listener fires; otherwise the assigned value settles through InnerSet |
| EParams.EParam.OnValidate | Blight/Assets/Scripts/Managers/EParam.cs:38-46 | while locked, Value is reset from the SubParam and nothing fires; otherwise DoValidate runs |
| EParams.EParam.DoValidate | Blight/Assets/Scripts/Managers/EParam.cs:80-124 | InnerSet runs only when Value differs from the SubParam value; otherwise nothing changes |
| EParams.EParam.ForceValidate | Blight/Assets/Scripts/Managers/EParam.cs:88-129 | InnerSet always runs |
| EParams.EParam.HardSet | Blight/Assets/Scripts/Managers/EParam.cs:52-56 | both Value and the SubParam value become the argument, whether locked or not, and no listener fires |
| EParams.EnumAssignAsWritten | Blight/Assets/Scripts/Managers/EParam.cs:131-156 | any unlocked assignment to a new UEEnum throws NullReferenceException after the specific event, so Value is never taken from the SubParam |
| EParams.EnumAssignInitialized | Blight/Assets/Scripts/Managers/EParam.cs:131-156 | with the list created empty, the assignment succeeds and Value is what the listeners leave |

## Left out

- Floating point: costs, weights, risk and return are `real`. `BetterThen` requires a positive cost and weight on the node it divides by; NaN and infinity from a zero divisor are not modelled.
- Planner.Plan, GoapAgents.PlanFirst and the agent's state methods require every available action to have a positive cost and weight, including actions whose procedural check fails; the source only needs that of the usable actions, and only so that `BetterThen` does not divide by zero.
- `PackFloat` and `PullFloat` are not modelled, because they need IEEE single-precision bits.
- `BitConverter` byte order is taken to be little-endian, as on every platform Unity targets.
- Enumeration order of `HashSet` and `Dictionary`: the pooled action sets and the dictionaries the model fills are sequences in insertion order. The agent's available-action set is a `set` with an enumeration order given as an input.
- Unity glue is not modelled: `FindAndLinkAIAgent`, `LoadActions`, `GameObject.Find*`, the `LesserGhoul` and `Ravager` factories, and `Controller`. `Object.Instantiate` is `BaseEntity.Clone`, which copies the serialized fields; the clone's own `Awake` and `OnEnable`, which Unity runs inside `Instantiate`, are not run on it.
- `Application.isEditor` is a parameter, and `Debug.Log` / `LogError` are a `logged` result.
- Runtime answers are inputs of the agent's state bodies: what `IsDone`, `RequiresInRange`, `IsInRange`, `Perform`, `MoveAgent`, `CreateWorldState` and `CreateGoalState` return. The goals a tick receives are not tied to a behaviour object; Behaviours.PriorityGoals states what a behaviour's `GoalsByPriority` answer is. GoapAgents.GoapAgent.PerformActionState does not apply `Perform`'s own change to the action (the attack sets `_hasAttacked`, which `IsDone` then reports); the `headDone` input of the next tick stands in for it. The `IAIAgent` callbacks are recorded as events.
- `NetworkManager.SendEvent`, `ReconstructEvent` and `DeliverEvent`, and `InvokeEvent`, are network plumbing and are not modelled.
- Concurrency is not modelled: the static pools and the singletons are one pool object and one registry, used sequentially.
- UnityEvent and delegate bodies are functions of (old SubParam value, Value, current SubParam value) that may only rewrite the SubParam value.
- `UEClass` compares Value and the SubParam value by reference; the model compares them with `==`.
- Unity's serialization makes serialized listener lists non-null; the plain `EParams.EParam.constructor` leaves only the non-serialized delegate list null.
- Behaviours.Behaviour.Tick and Behaviours.Behaviour.Release have empty bodies in the source; their frames say nothing changes, and they carry no ensures.
- Behaviours.SortByWeight: the stability of `orderby` (equal weights keep their order) is built into the definition but not stated as a lemma.
- Planner.BuildGraph: the collected leaves are tied to the search nodes by path, running cost and weight only. Their pooled state dictionaries are not tracked once a leaf is collected, because Plan never reads them again.
- Entities.BaseEntity.SelfDestruct: only the not-written case is stated; the written case is what `UnregisterId` states.
- GoapActions.GoapAction.CheckProceduralPrecondition: the `(GameObject)` cast of the "Player" entry is not modelled. Every stored object is taken to be a GameObject, so the InvalidCastException a different object would raise is not captured; the planner that calls the check has no exception path.
- GoapActions.AddCondition and GoapActions.RemoveCondition model `AddPrecondition`, `AddEffect`, `RemovePrecondition` and `RemoveEffect` on condition maps, and an action's preconditions and effects are fixed once it is constructed. The model does not capture changing them in place on a live action. The only caller is the `LesserGhoulAttackAction` constructor, and the planner's proofs rely on the conditions not changing while `Plan` resets and checks the actions.
- MessageEvents.MessageEvent.FromString, MessageEvents.FromBytes, Network.PackString and Network.PullString take strings and byte buffers that cannot be null. The NullReferenceException of `msg.Length` or `toPack.Length` on a null string, and the ArgumentNullException of `BitConverter.ToInt32`, `BitConverter.ToChar` and `Array.CopyTo` on a null buffer, are not modelled.
- Network.PackString requires a string shorter than 2^31 chars, since a longer one cannot be a .NET string.

## Findings

| source | as written | input that shows it | evidently intended | confidence | as-written member | corrected member |
|---|---|---|---|---|---|---|
| Blight/Assets/Scripts/Managers/NetworkManager.cs:95-106 | PullString reads the length, steps over each char and returns the empty string it started with | the bytes of `new MessageEvent("A")`; the event rebuilt from them has message "" | return the chars read | not executed | MessageEvents.Echo | MessageEvents.EchoCollected |
| Blight/Assets/Scripts/Managers/EParam.cs:116 | `onValueChangedToSpecificDelegate` has a private setter and is never assigned, so the delegate loop of `UEEnum.InnerSet` (line 146) throws NullReferenceException before `Value = Param.value` | any unlocked assignment to a new UEEnum | the list created empty | not executed | EParams.EnumAssignAsWritten | EParams.EnumAssignInitialized |
