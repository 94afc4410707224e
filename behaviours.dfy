/**
 * LesserGhoulBehaviour.cs and RavagerBehaviour.cs: the goal weights of an enemy type and the
 * goals ordered by priority that the agent plans for. The two classes differ only in their
 * names, so one class with a `kind` models both.
 */
module Behaviours {
  import opened Wrappers
  import opened WorldState
  import opened SeqUtil

  /** The enemy types that have a behaviour. */
  datatype EnemyKind = LesserGhoul | Ravager

  /** The AttackPlayer goal key of both enemy types. */
  const AttackPlayerKey: string := "AttackPlayer"

  /** The priority weights LOW, NORMAL and HIGH as the ints the enum casts to. */
  const Low: int := 0
  const Normal: int := 1
  const High: int := 2

  /**
   * A Dictionary<string, V> with its enumeration order: `keys` in insertion order. Nothing is
   * ever removed from these dictionaries except by Clear, so that order is the order .NET
   * enumerates them in.
   */
  class OrderedDict<V> {
    var keys: seq<string>
    var m: map<string, V>

    ghost predicate Valid()
      reads this
    {
      && Distinct(keys)
      && (forall k | k in keys :: k in m)
      && (forall k | k in m :: k in keys)
    }

    constructor ()
      ensures Valid() && keys == [] && m == map[]
    {
      keys := [];
      m := map[];
    }

    method Clear()
      modifies this
      ensures Valid() && keys == [] && m == map[]
    {
      keys := [];
      m := map[];
    }

    /** Dictionary.Add: a new key goes last; a key already present throws and nothing changes. */
    method Add(key: string, val: V) returns (r: Outcome)
      requires Valid()
      modifies this
      ensures Valid()
      ensures r.Fail? <==> key in old(m)
      ensures r.Fail? ==> r.error == ArgumentException && keys == old(keys) && m == old(m)
      ensures r.Pass? ==> keys == old(keys) + [key] && m == old(m)[key := val]
    {
      if key in m {
        return Fail(ArgumentException);
      }
      DistinctAppend(keys, key);
      keys := keys + [key];
      m := m[key := val];
      r := Pass;
    }

    /** The indexer's setter: overwrites a present key in its place, or adds a new key last. */
    method Set(key: string, val: V)
      requires Valid()
      modifies this
      ensures Valid() && m == old(m)[key := val]
      ensures keys == if key in old(m) then old(keys) else old(keys) + [key]
    {
      if key !in m {
        DistinctAppend(keys, key);
        keys := keys + [key];
      }
      m := m[key := val];
    }
  }

  /** The keys are in non-increasing order of weight. */
  ghost predicate SortedDesc(s: seq<string>, w: map<string, int>)
  {
    forall i, j | 0 <= i < j < |s| :: s[i] in w && s[j] in w && w[s[i]] >= w[s[j]]
  }

  /** `x` weighs at least as much as every key of `s`. */
  ghost predicate Dominates(x: string, s: seq<string>, w: map<string, int>)
  {
    x in w && forall j | 0 <= j < |s| :: s[j] in w && w[x] >= w[s[j]]
  }

  /** A sequence is sorted exactly when its head dominates its sorted tail. */
  lemma SortedCons(x: string, s: seq<string>, w: map<string, int>)
    requires x in w
    ensures SortedDesc([x] + s, w) <==> Dominates(x, s, w) && SortedDesc(s, w)
  {
    var r := [x] + s;
    if Dominates(x, s, w) && SortedDesc(s, w) {
      forall i, j | 0 <= i < j < |r| ensures r[i] in w && r[j] in w && w[r[i]] >= w[r[j]] {
        assert r[j] == s[j - 1];
        if i > 0 {
          assert r[i] == s[i - 1];
        }
      }
    }
    if SortedDesc(r, w) {
      forall j | 0 <= j < |s| ensures s[j] in w && w[x] >= w[s[j]] {
        assert r[0] == x && r[j + 1] == s[j];
      }
      forall i, j | 0 <= i < j < |s| ensures s[i] in w && s[j] in w && w[s[i]] >= w[s[j]] {
        assert r[i + 1] == s[i] && r[j + 1] == s[j];
      }
    }
  }

  /** Puts `k` before the first key of `s` whose weight is not above its own. */
  function InsertByWeight(k: string, s: seq<string>, w: map<string, int>): (r: seq<string>)
    requires k in w && forall x | x in s :: x in w
    ensures multiset(r) == multiset(s) + multiset{k}
    decreases |s|
  {
    if s == [] then [k]
    else if w[k] >= w[s[0]] then [k] + s
    else
      assert s == [s[0]] + s[1..];
      [s[0]] + InsertByWeight(k, s[1..], w)
  }

  /** Whatever dominates `k` and `s` dominates `k` inserted into `s`. */
  lemma InsertDominated(x: string, k: string, s: seq<string>, w: map<string, int>)
    requires k in w && (forall y | y in s :: y in w) && x in w && w[x] >= w[k] && Dominates(x, s, w)
    ensures Dominates(x, InsertByWeight(k, s, w), w)
  {
    var r := InsertByWeight(k, s, w);
    forall j | 0 <= j < |r| ensures r[j] in w && w[x] >= w[r[j]] {
      assert r[j] in multiset(r);
      if r[j] != k {
        assert r[j] in multiset(s);
        var i :| 0 <= i < |s| && s[i] == r[j];
      }
    }
  }

  /** Inserting into a sorted sequence keeps it sorted. */
  lemma {:induction false} InsertSorted(k: string, s: seq<string>, w: map<string, int>)
    requires k in w && (forall x | x in s :: x in w) && SortedDesc(s, w)
    ensures SortedDesc(InsertByWeight(k, s, w), w)
    decreases |s|
  {
    if s == [] {
    } else if w[k] >= w[s[0]] {
      assert s == [s[0]] + s[1..];
      SortedCons(s[0], s[1..], w);
      forall j | 0 <= j < |s| ensures s[j] in w && w[k] >= w[s[j]] {
        if j > 0 {
          assert s[0] in w && w[s[0]] >= w[s[j]];
        }
      }
      SortedCons(k, s, w);
    } else {
      assert s == [s[0]] + s[1..];
      SortedCons(s[0], s[1..], w);
      InsertSorted(k, s[1..], w);
      InsertDominated(s[0], k, s[1..], w);
      SortedCons(s[0], InsertByWeight(k, s[1..], w), w);
    }
  }

  /**
   * `orderby weight descending`: a stable sort, so keys of equal weight keep their
   * enumeration order (an earlier key is inserted before the equal ones after it).
   */
  function SortByWeight(s: seq<string>, w: map<string, int>): (r: seq<string>)
    requires forall x | x in s :: x in w
    ensures multiset(r) == multiset(s)
    decreases |s|
  {
    if s == [] then []
    else
      assert s == [s[0]] + s[1..];
      var t := SortByWeight(s[1..], w);
      assert forall x | x in t :: x in multiset(t);
      InsertByWeight(s[0], t, w)
  }

  /** The sort orders its keys heaviest first. */
  lemma {:induction false} SortSorted(s: seq<string>, w: map<string, int>)
    requires forall x | x in s :: x in w
    ensures SortedDesc(SortByWeight(s, w), w)
    decreases |s|
  {
    if s != [] {
      var t := SortByWeight(s[1..], w);
      SortSorted(s[1..], w);
      assert forall x | x in t :: x in multiset(t);
      InsertSorted(s[0], t, w);
    }
  }

  /** The sorted keys of a dictionary are its keys, each once, heaviest first. */
  lemma SortedKeys(keys: seq<string>, w: map<string, int>)
    requires Distinct(keys) && forall x | x in keys :: x in w
    ensures Distinct(SortByWeight(keys, w)) && SortedDesc(SortByWeight(keys, w), w)
    ensures forall x :: x in SortByWeight(keys, w) <==> x in keys
  {
    var r := SortByWeight(keys, w);
    SortSorted(keys, w);
    DistinctPerm(keys, r);
    forall x ensures x in r <==> x in keys {
      assert x in r <==> x in multiset(r);
      assert x in keys <==> x in multiset(keys);
    }
  }

  class Behaviour {
    const kind: EnemyKind
    /** _goalsWeight. */
    const goalsWeight: OrderedDict<int>
    /** _sortedTags: the one dictionary every GoalsByPriority call refills and returns. */
    const sortedTags: OrderedDict<bool>

    ghost predicate Valid()
      reads this, goalsWeight, sortedTags
    {
      goalsWeight.Valid() && sortedTags.Valid()
    }

    constructor (kind: EnemyKind)
      ensures Valid() && this.kind == kind && fresh(goalsWeight) && fresh(sortedTags)
      ensures goalsWeight.m == map[] && sortedTags.m == map[]
    {
      this.kind := kind;
      goalsWeight := new OrderedDict<int>();
      sortedTags := new OrderedDict<bool>();
    }

    /** Adds AttackPlayer with weight LOW; a second call throws on the duplicate key. */
    method Initialize() returns (r: Outcome)
      requires Valid()
      modifies goalsWeight
      ensures Valid()
      ensures r.Fail? <==> AttackPlayerKey in old(goalsWeight.m)
      ensures r.Fail? ==> r.error == ArgumentException && goalsWeight.m == old(goalsWeight.m)
      ensures r.Pass? ==> goalsWeight.m == old(goalsWeight.m)[AttackPlayerKey := Low]
    {
      r := goalsWeight.Add(AttackPlayerKey, Low);
    }

    /** Nothing to update over time: the body is empty, and the frame says nothing changes. */
    method Tick()
    {
    }

    /** Nothing to release: the body is empty, and the frame says nothing changes. */
    method Release()
    {
    }

    /**
     * Raises AttackPlayer to HIGH, then refills the sorted-goals dictionary with every weighted
     * key, mapped to true, heaviest first, and returns that same dictionary.
     */
    method GoalsByPriority() returns (r: OrderedDict<bool>)
      requires Valid()
      modifies goalsWeight, sortedTags
      ensures Valid() && r == sortedTags
      ensures goalsWeight.m == old(goalsWeight.m)[AttackPlayerKey := High]
      ensures r.keys == SortByWeight(goalsWeight.keys, goalsWeight.m)
      ensures Distinct(r.keys) && SortedDesc(r.keys, goalsWeight.m)
      ensures r.m.Keys == goalsWeight.m.Keys && forall k | k in r.m :: r.m[k]
    {
      goalsWeight.Set(AttackPlayerKey, High);
      var items := SortByWeight(goalsWeight.keys, goalsWeight.m);
      SortedKeys(goalsWeight.keys, goalsWeight.m);
      sortedTags.Clear();
      Refill(sortedTags, items);
      r := sortedTags;
    }
  }

  /** The refill loop of GoalsByPriority: each key added, mapped to true, in the given order. */
  method Refill(tags: OrderedDict<bool>, items: seq<string>)
    requires tags.Valid() && tags.keys == [] && tags.m == map[] && Distinct(items)
    modifies tags
    ensures tags.Valid() && tags.keys == items
    ensures forall k :: k in tags.m <==> k in items
    ensures forall k | k in tags.m :: tags.m[k]
  {
    for i := 0 to |items|
      invariant tags.Valid() && tags.keys == items[..i]
      invariant forall k | k in tags.m :: tags.m[k]
    {
      NotBefore(items, i);
      var _ := tags.Add(items[i], true);
      assert items[..i + 1] == items[..i] + [items[i]];
    }
    assert items[..|items|] == items;
  }

  /** The goals the agent plans for, in the order a sorted-goals dictionary enumerates them. */
  function GoalsOf(keys: seq<string>, m: map<string, bool>): (goals: seq<Goal>)
    requires forall k | k in keys :: k in m
    ensures |goals| == |keys|
    ensures forall i | 0 <= i < |keys| :: goals[i] == Goal(keys[i], m[keys[i]])
  {
    seq(|keys|, i requires 0 <= i < |keys| => Goal(keys[i], m[keys[i]]))
  }

  /** The keys of a goal sequence, in order. */
  function GoalKeys(goals: seq<Goal>): (keys: seq<string>)
    ensures |keys| == |goals| && forall i | 0 <= i < |goals| :: keys[i] == goals[i].key
  {
    seq(|goals|, i requires 0 <= i < |goals| => goals[i].key)
  }

  /**
   * What the agent receives from a behaviour: the goals of the dictionary GoalsByPriority
   * returns are each weighted key once, each wanted true, heaviest first.
   */
  lemma PriorityGoals(keys: seq<string>, m: map<string, bool>, w: map<string, int>)
    requires Distinct(keys) && SortedDesc(keys, w)
    requires forall k :: k in m <==> k in keys
    requires forall k | k in m :: m[k]
    ensures forall g | g in GoalsOf(keys, m) :: g.key in m && g.value
    ensures forall k | k in m :: Goal(k, true) in GoalsOf(keys, m)
    ensures GoalKeys(GoalsOf(keys, m)) == keys
    ensures Distinct(GoalKeys(GoalsOf(keys, m))) && SortedDesc(GoalKeys(GoalsOf(keys, m)), w)
  {
    var goals := GoalsOf(keys, m);
    forall k | k in m ensures Goal(k, true) in goals {
      var i :| 0 <= i < |keys| && keys[i] == k;
      assert goals[i] == Goal(k, true);
    }
  }
}
