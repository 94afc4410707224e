/**
 * GOAPAction.cs and its one concrete subclass, LesserGhoulAttackAction.cs.
 * Without inheritance, the subclass is a `kind` of the one action class: every member the
 * subclass overrides dispatches on it.
 */
module GoapActions {
  import opened Wrappers
  import opened WorldState
  import opened DataStore

  /** The concrete GOAPAction subclasses of the game. */
  datatype ActionKind = LesserGhoulAttackAction

  /** LesserGhoulGoalStateKeys.AttackPlayer (the same string as RavagerGoalStateKeys.AttackPlayer). */
  const AttackPlayer: string := "AttackPlayer"

  /** The DataStorage key under which the player object is kept. */
  const PlayerKey: string := "Player"

  /**
   * AddPrecondition / AddEffect on a condition map: Dictionary.Add, which throws on a key that
   * is already present.
   */
  function AddCondition(conds: State, key: string, val: bool): (r: Result<State>)
    ensures r.Err? <==> key in conds
    ensures r.Err? ==> r.error == ArgumentException
    ensures r.Ok? ==> r.value.Keys == conds.Keys + {key} && r.value[key] == val
    ensures r.Ok? ==> forall k | k in conds :: r.value[k] == conds[k]
  {
    if key in conds then Err(ArgumentException) else Ok(conds[key := val])
  }

  /** RemovePrecondition / RemoveEffect: drops the key when present; a missing key changes nothing. */
  function RemoveCondition(conds: State, key: string): (r: State)
    ensures key !in r
    ensures r.Keys == conds.Keys - {key}
    ensures forall k | k in r :: r[k] == conds[k]
  {
    if key in conds then conds - {key} else conds
  }

  /** Removing a condition just added restores the map it was added to. */
  lemma AddThenRemove(conds: State, key: string, val: bool)
    requires key !in conds
    ensures AddCondition(conds, key, val).Ok?
    ensures RemoveCondition(AddCondition(conds, key, val).value, key) == conds
  {
  }

  /** Adding back a removed condition with its old value restores the map. */
  lemma RemoveThenAdd(conds: State, key: string)
    requires key in conds
    ensures AddCondition(RemoveCondition(conds, key), key, conds[key]) == Ok(conds)
  {
    assert RemoveCondition(conds, key)[key := conds[key]] == conds;
  }

  /**
   * A GOAPAction. The preconditions, effects, cost, risk and return are what planning reads;
   * they are set while the action is constructed and never change afterwards.
   */
  class GoapAction {
    const kind: ActionKind
    const preconditions: State
    const effects: State
    /** `_target`: the object the action is performed on, possibly null. */
    var target: Option<Obj>
    var inRange: bool
    const cost: real
    const risk: real
    /** `_return`: the benefit of the action. */
    const ret: real
    /** LesserGhoulAttackAction._hasAttacked. */
    var hasAttacked: bool

    /**
     * `new LesserGhoulAttackAction()`: the GOAPAction defaults (no conditions, cost 1, risk 0,
     * return 1), then the effect AttackPlayer = true and cost 1.
     */
    constructor LesserGhoulAttack()
      ensures kind == LesserGhoulAttackAction
      ensures preconditions == map[] && effects == map[AttackPlayer := true]
      ensures cost == 1.0 && risk == 0.0 && ret == 1.0 && GetWeight() == 1.0
      ensures target == None && !inRange && !hasAttacked
    {
      kind := LesserGhoulAttackAction;
      preconditions := map[];
      var e := AddCondition(map[], AttackPlayer, true);
      effects := e.value;
      target := None;
      inRange := false;
      risk := 0.0;
      ret := 1.0;
      hasAttacked := false;
      cost := 1.0;
    }

    function GetCost(): real
    {
      cost
    }

    function GetWeight(): real
    {
      (1.0 - risk) * ret
    }

    /** Clears in-range and target, then runs the subclass reset. */
    method DoReset()
      modifies this
      ensures !inRange && target == None && !hasAttacked
    {
      inRange := false;
      target := None;
      DoSubReset();
    }

    method DoSubReset()
      modifies this`hasAttacked, this`target
      ensures !hasAttacked && target == None
    {
      match kind
      case LesserGhoulAttackAction =>
        hasAttacked := false;
        target := None;
    }

    function IsDone(): bool
      reads this
    {
      match kind
      case LesserGhoulAttackAction => hasAttacked
    }

    function RequiresInRange(): bool
    {
      match kind
      case LesserGhoulAttackAction => true
    }

    /** What CheckProceduralPrecondition answers for a store holding `data`. */
    function PassesProceduralCheck(data: map<string, Option<Obj>>): bool
    {
      match kind
      case LesserGhoulAttackAction => Lookup(data, PlayerKey).Some?
    }

    /** The attack is possible exactly when the store holds a non-null "Player"; that becomes the target. */
    method CheckProceduralPrecondition(store: DataStorage) returns (ok: bool)
      modifies this`target
      ensures target == Lookup(store.data, PlayerKey)
      ensures ok <==> target != None
      ensures ok == PassesProceduralCheck(store.data)
    {
      match kind
      case LesserGhoulAttackAction =>
        target := store.GetData(PlayerKey);
        ok := target != None;
    }

    /** The attack completes in one tick and never fails. */
    method Perform(store: DataStorage) returns (ok: bool)
      modifies this`hasAttacked
      ensures ok && IsDone()
    {
      match kind
      case LesserGhoulAttackAction =>
        hasAttacked := true;
        ok := true;
    }

    function IsInRange(): bool
      reads this
    {
      inRange
    }

    method SetInRange(val: bool)
      modifies this`inRange
      ensures IsInRange() == val
    {
      inRange := val;
    }

  }
}
