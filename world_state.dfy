/**
 * World states, preconditions, effects and goals of the GOAP planner: maps from fact
 * names to booleans, and the read-only checks the planner makes on them
 * (GOAPPlanner.cs: InState, CondRelation, GoalInState, and the state PopulateState builds).
 */
module WorldState {

  /** A Dictionary<string, bool>: absence of a key means "unknown", never "false". */
  type State = map<string, bool>

  /** A goal: one fact name with the value the planner must make it have. */
  datatype Goal = Goal(key: string, value: bool)

  /** Every precondition is present in the state with the same value (an empty map always matches). */
  predicate InState(pre: State, st: State)
  {
    forall k | k in pre :: k in st && st[k] == pre[k]
  }

  /** InState is inclusion of the (key, value) pairs: the state is a supermap of the preconditions. */
  lemma InStateItems(pre: State, st: State)
    ensures InState(pre, st) <==> pre.Items <= st.Items
  {
    if InState(pre, st) {
      forall p | p in pre.Items ensures p in st.Items {
        assert p.0 in pre && pre[p.0] == p.1;
      }
    }
    if pre.Items <= st.Items {
      forall k | k in pre ensures k in st && st[k] == pre[k] {
        assert (k, pre[k]) in pre.Items;
      }
    }
  }

  /** Some precondition equals a (key, value) pair of the effects. */
  predicate CondRelation(pre: State, eff: State)
  {
    exists k | k in pre :: k in eff && eff[k] == pre[k]
  }

  /** CondRelation holds exactly when the two maps share a (key, value) pair; never for an empty map. */
  lemma CondRelationItems(pre: State, eff: State)
    ensures CondRelation(pre, eff) <==> pre.Items * eff.Items != {}
    ensures pre == map[] || eff == map[] ==> !CondRelation(pre, eff)
  {
    if CondRelation(pre, eff) {
      var k :| k in pre && k in eff && eff[k] == pre[k];
      assert (k, pre[k]) in pre.Items * eff.Items;
    }
    if pre.Items * eff.Items != {} {
      var p :| p in pre.Items * eff.Items;
      assert p.0 in pre && p.0 in eff && eff[p.0] == pre[p.0];
    }
  }

  /** The goal's key is present with the goal's value. */
  predicate GoalInState(goal: Goal, st: State)
  {
    goal.key in st && st[goal.key] == goal.value
  }

  /**
   * The state PopulateState(parent._state, action.Effects) builds: a copy of the parent
   * state in which every key of the effects is (over)written with the effect's value.
   */
  function Overlay(parent: State, eff: State): State
  {
    parent + eff
  }

  /**
   * The child state has the keys of both maps, takes the effect's value on every effect key
   * (effects win over the parent on a conflict) and the parent's value everywhere else.
   */
  lemma OverlayContents(parent: State, eff: State)
    ensures Overlay(parent, eff).Keys == parent.Keys + eff.Keys
    ensures eff.Items <= Overlay(parent, eff).Items
    ensures forall k | k in parent && k !in eff :: Overlay(parent, eff)[k] == parent[k]
  {
  }
}
