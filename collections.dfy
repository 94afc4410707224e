/**
 * The two .NET collections the planner pools and shares by reference: a
 * Dictionary<string, bool> world state and a HashSet<GOAPAction> of actions.
 */
module Collections {
  import opened Wrappers
  import opened WorldState
  import opened GoapActions
  import opened SeqUtil

  /** A Dictionary<string, bool> object. */
  class StateDict {
    var m: State

    constructor ()
      ensures m == map[]
    {
      m := map[];
    }

    constructor Of(s: State)
      ensures m == s
    {
      m := s;
    }

    method Clear()
      modifies this
      ensures m == map[]
    {
      m := map[];
    }

    /** Dictionary.Add: a key that is already present throws and leaves the map as it was. */
    method Add(key: string, val: bool) returns (r: Outcome)
      modifies this
      ensures r == (if key in old(m) then Fail(ArgumentException) else Pass)
      ensures m == if key in old(m) then old(m) else old(m)[key := val]
    {
      if key in m {
        return Fail(ArgumentException);
      }
      m := m[key := val];
      return Pass;
    }

    /** The indexer assignment `d[key] = val`: inserts or overwrites. */
    method Put(key: string, val: bool)
      modifies this
      ensures m == old(m)[key := val]
    {
      m := m[key := val];
    }
  }

  /**
   * A HashSet<GOAPAction>, listed in its enumeration order. The planner only fills cleared
   * sets, for which .NET enumerates in insertion order.
   */
  class ActionSet {
    var elems: seq<GoapAction>

    constructor ()
      ensures elems == []
    {
      elems := [];
    }

    method Clear()
      modifies this
      ensures elems == []
    {
      elems := [];
    }

    /** Adds an action that is not yet present (reference equality); a present one is ignored. */
    method Add(a: GoapAction)
      modifies this
      ensures elems == if a in old(elems) then old(elems) else old(elems) + [a]
    {
      if a !in elems {
        elems := elems + [a];
      }
    }
  }
}
