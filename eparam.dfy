/**
 * EParam.cs: a lockable observed value. `val` is the value the game reads; `param` is the
 * SubParam handed to listeners, created on first use, which a listener may rewrite. A change
 * runs the listeners and then takes the value they leave in the SubParam. UEClass, UEStruct
 * and UEEnum differ only in how InnerSet picks its listeners, so one class with a `kind`
 * models all three.
 */
module EParams {
  import opened Wrappers

  /** The concrete subclass. */
  datatype ParamKind = ClassParam | StructParam | EnumParam

  /**
   * A listener: given the old SubParam value, the new Value and the SubParam's current value,
   * the value it leaves in the SubParam. A null event or delegate is None.
   */
  type Listener<!T> = (T, T, T) -> T

  /** UEEnumType / DEnumType: a listener that runs only for one enum value. */
  datatype EnumListener<!T> = EnumListener(state: T, onValueChanged: Option<Listener<T>>)

  /** Which listener ran: the general event, the general delegate, or a specific entry. */
  datatype Channel = General | Delegate | SpecificUnity(i: nat) | SpecificDelegate(i: nat)

  /** A listener together with the channel it is reached through. */
  datatype Hook<!T> = Hook(channel: Channel, listener: Option<Listener<T>>)

  /** A listener call, with the old and new values it was passed. */
  datatype Firing<T> = Firing(channel: Channel, oldVal: T, newVal: T)

  /** The SubParam value after running `hooks` in order, each one that is set. */
  function Notify<T>(hooks: seq<Hook<T>>, oldVal: T, newVal: T, cur: T): T
  {
    if hooks == [] then cur
    else
      var h := hooks[|hooks| - 1];
      var before := Notify(hooks[..|hooks| - 1], oldVal, newVal, cur);
      if h.listener.Some? then h.listener.value(oldVal, newVal, before) else before
  }

  /** The calls running `hooks` makes: one per hook that is set, in order. */
  function Fired<T>(hooks: seq<Hook<T>>, oldVal: T, newVal: T): (r: seq<Firing<T>>)
    ensures |r| <= |hooks|
  {
    if hooks == [] then []
    else
      var h := hooks[|hooks| - 1];
      Fired(hooks[..|hooks| - 1], oldVal, newVal)
        + (if h.listener.Some? then [Firing(h.channel, oldVal, newVal)] else [])
  }

  /** Hooks without listeners leave the SubParam value alone and call nothing. */
  lemma {:induction false} NotifySilent<T>(hooks: seq<Hook<T>>, oldVal: T, newVal: T, cur: T)
    requires forall h | h in hooks :: h.listener.None?
    ensures Notify(hooks, oldVal, newVal, cur) == cur
    ensures Fired(hooks, oldVal, newVal) == []
  {
    if hooks != [] {
      assert hooks[|hooks| - 1] in hooks;
      assert forall h | h in hooks[..|hooks| - 1] :: h in hooks;
      NotifySilent(hooks[..|hooks| - 1], oldVal, newVal, cur);
    }
  }

  /** Running two lists of hooks one after the other is running their concatenation. */
  lemma {:induction false} NotifyAppend<T>(a: seq<Hook<T>>, b: seq<Hook<T>>, oldVal: T, newVal: T, cur: T)
    ensures Notify(a + b, oldVal, newVal, cur) == Notify(b, oldVal, newVal, Notify(a, oldVal, newVal, cur))
    ensures Fired(a + b, oldVal, newVal) == Fired(a, oldVal, newVal) + Fired(b, oldVal, newVal)
    decreases |b|
  {
    if b == [] {
      assert a + b == a;
    } else {
      var n := |b| - 1;
      assert (a + b)[..|a + b| - 1] == a + b[..n];
      assert (a + b)[|a + b| - 1] == b[n];
      NotifyAppend(a, b[..n], oldVal, newVal, cur);
    }
  }

  /** The index of the first entry for `v`, if there is one. */
  function FirstMatch<T(==)>(entries: seq<EnumListener<T>>, v: T): (r: Option<nat>)
    ensures r.Some? ==> r.value < |entries| && entries[r.value].state == v
    ensures r.Some? ==> forall j | 0 <= j < r.value :: entries[j].state != v
    ensures r.None? ==> forall j | 0 <= j < |entries| :: entries[j].state != v
  {
    if entries == [] then None
    else if entries[0].state == v then Some(0)
    else match FirstMatch(entries[1..], v)
      case None => None
      case Some(i) => Some(i + 1)
  }

  /**
   * The foreach with break over a list of enum listeners: stops at the first entry whose
   * state equals `v`.
   */
  method ScanFirst<T(==)>(entries: seq<EnumListener<T>>, v: T) returns (r: Option<nat>)
    ensures r == FirstMatch(entries, v)
  {
    var i := 0;
    while i < |entries|
      invariant 0 <= i <= |entries|
      invariant FirstMatch(entries, v) == FirstFrom(entries, v, i)
    {
      if entries[i].state == v {
        return Some(i);
      }
      i := i + 1;
    }
    r := None;
  }

  /** FirstMatch of the entries from `i` on, as an index into the whole list. */
  function FirstFrom<T(==)>(entries: seq<EnumListener<T>>, v: T, i: nat): (r: Option<nat>)
    requires i <= |entries|
    ensures r == FirstMatch(entries, v) || exists j | 0 <= j < i :: entries[j].state == v
    decreases |entries| - i
  {
    if i == |entries| then None
    else if entries[i].state == v then Some(i)
    else FirstFrom(entries, v, i + 1)
  }

  /**
   * The specific listener a UEEnum runs from one list: the first entry for `v`, which runs
   * when its listener is set. At most one is picked, and none when no entry is for `v`.
   */
  function Picked<T(==)>(entries: seq<EnumListener<T>>, v: T, unity: bool): (r: seq<Hook<T>>)
    ensures |r| <= 1
    ensures r == [] <==> forall j | 0 <= j < |entries| :: entries[j].state != v
    ensures forall h | h in r ::
      && (if unity then h.channel.SpecificUnity? else h.channel.SpecificDelegate?)
      && h.channel.i < |entries| && entries[h.channel.i].state == v
      && (forall j | 0 <= j < h.channel.i :: entries[j].state != v)
      && h.listener == entries[h.channel.i].onValueChanged
  {
    match FirstMatch(entries, v)
      case None => []
      case Some(i) =>
        [Hook(if unity then SpecificUnity(i) else SpecificDelegate(i), entries[i].onValueChanged)]
  }

  /** The listeners InnerSet runs when Value is `v`, by subclass. */
  function HooksOf<T(==)>(kind: ParamKind, onUnity: Option<Listener<T>>, onDelegate: Option<Listener<T>>,
                          specificUnity: seq<EnumListener<T>>, specificDelegate: Option<seq<EnumListener<T>>>, v: T): seq<Hook<T>>
  {
    if kind == EnumParam then EnumHooks(onUnity, specificUnity, specificDelegate, v)
    else GeneralHooks(onUnity, onDelegate)
  }

  /** Runs `hooks` in order, each listener rewriting the SubParam it is handed. */
  method RunHooks<T>(p: SubParam<T>, hooks: seq<Hook<T>>, oldVal: T, newVal: T)
    modifies p
    ensures p.value == Notify(hooks, oldVal, newVal, old(p.value))
  {
    for i := 0 to |hooks|
      invariant p.value == Notify(hooks[..i], oldVal, newVal, old(p.value))
    {
      assert hooks[..i + 1][..i] == hooks[..i];
      if hooks[i].listener.Some? {
        p.value := hooks[i].listener.value(oldVal, newVal, p.value);
      }
    }
    assert hooks[..|hooks|] == hooks;
  }

  /** The listeners UEParam.InnerSet runs: the general event, then the general delegate. */
  function GeneralHooks<T>(onUnity: Option<Listener<T>>, onDelegate: Option<Listener<T>>): seq<Hook<T>>
  {
    [Hook(General, onUnity), Hook(Delegate, onDelegate)]
  }

  /**
   * The listeners UEEnum.InnerSet runs for `v`: the general event, then the first specific
   * event for `v`, then (when the list exists) the first specific delegate for `v`.
   */
  function EnumHooks<T(==)>(onUnity: Option<Listener<T>>, specificUnity: seq<EnumListener<T>>,
                            specificDelegate: Option<seq<EnumListener<T>>>, v: T): seq<Hook<T>>
  {
    [Hook(General, onUnity)] + Picked(specificUnity, v, true)
      + (if specificDelegate.Some? then Picked(specificDelegate.value, v, false) else [])
  }

  /** The foreach with break over one list: the hook of the first entry for `v`, if any. */
  method PickOne<T(==)>(entries: seq<EnumListener<T>>, v: T, unity: bool) returns (r: seq<Hook<T>>)
    ensures r == Picked(entries, v, unity)
  {
    var i := ScanFirst(entries, v);
    if i.None? {
      return [];
    }
    r := [Hook(if unity then SpecificUnity(i.value) else SpecificDelegate(i.value), entries[i.value].onValueChanged)];
  }

  /** SubParam<T>. */
  class SubParam<T> {
    var value: T

    constructor (value: T)
      ensures this.value == value
    {
      this.value := value;
    }
  }

  class EParam<T(==)> {
    const kind: ParamKind
    /** default(T): the value a freshly created SubParam holds. */
    const zero: T
    var locked: bool
    /** Value. */
    var val: T
    /** param: null until the Param getter first runs. */
    var param: SubParam?<T>
    /** onValueChangedUnityEvent, as serialized. */
    const onUnity: Option<Listener<T>>
    /** onValueChangedDelegate. */
    var onDelegate: Option<Listener<T>>
    /** onValueChangedToSpecificUnityEvent, as serialized (UEEnum only). */
    const specificUnity: seq<EnumListener<T>>
    /** onValueChangedToSpecificDelegate (UEEnum only): None while null. */
    var specificDelegate: Option<seq<EnumListener<T>>>
    /** Every listener call so far, in order. */
    ghost var fired: seq<Firing<T>>

    /** Param.value, reading a not yet created SubParam as the one the getter would create. */
    ghost function Current(): T
      reads this, param
    {
      if param == null then zero else param.value
    }

    /** Value agrees with the SubParam. */
    ghost predicate Synced()
      reads this, param
    {
      val == Current()
    }

    /**
     * A fresh parameter as deserialized: unlocked, no SubParam yet, no delegate. As written,
     * nothing ever assigns the specific-delegate list, so it stays null.
     */
    constructor (kind: ParamKind, zero: T, initial: T, onUnity: Option<Listener<T>>, specificUnity: seq<EnumListener<T>>)
      ensures this.kind == kind && this.zero == zero && val == initial && !locked && param == null
      ensures this.onUnity == onUnity && onDelegate == None && this.specificUnity == specificUnity
      ensures specificDelegate == None && fired == []
    {
      this.kind := kind;
      this.zero := zero;
      this.onUnity := onUnity;
      this.specificUnity := specificUnity;
      locked := false;
      val := initial;
      param := null;
      onDelegate := None;
      specificDelegate := None;
      fired := [];
    }

    /** The same, with the specific-delegate list created empty. */
    constructor Initialized(kind: ParamKind, zero: T, initial: T, onUnity: Option<Listener<T>>, specificUnity: seq<EnumListener<T>>)
      ensures this.kind == kind && this.zero == zero && val == initial && !locked && param == null
      ensures this.onUnity == onUnity && onDelegate == None && this.specificUnity == specificUnity
      ensures specificDelegate == Some([]) && fired == []
    {
      this.kind := kind;
      this.zero := zero;
      this.onUnity := onUnity;
      this.specificUnity := specificUnity;
      locked := false;
      val := initial;
      param := null;
      onDelegate := None;
      specificDelegate := Some([]);
      fired := [];
    }

    /**
     * Adding to the specific-delegate list through its getter. While the list is null the Add
     * call throws NullReferenceException and nothing changes.
     */
    method AddSpecificDelegate(e: EnumListener<T>) returns (r: Outcome)
      modifies this
      ensures r.Fail? <==> old(specificDelegate).None?
      ensures r.Fail? ==> r.error == NullReferenceException && specificDelegate == None
      ensures r.Pass? ==> specificDelegate == Some(old(specificDelegate).value + [e])
      ensures locked == old(locked) && val == old(val) && param == old(param)
      ensures onDelegate == old(onDelegate) && fired == old(fired)
    {
      if specificDelegate.None? {
        return Fail(NullReferenceException);
      }
      specificDelegate := Some(specificDelegate.value + [e]);
      r := Pass;
    }

    /** The Param getter: creates the SubParam once, holding default(T), and then reuses it. */
    method Param() returns (p: SubParam<T>)
      modifies this
      ensures p == param
      ensures old(param) != null ==> p == old(param)
      ensures old(param) == null ==> fresh(p) && p.value == zero
      ensures p.value == old(Current())
      ensures locked == old(locked) && val == old(val) && onDelegate == old(onDelegate)
      ensures specificDelegate == old(specificDelegate) && fired == old(fired)
    {
      if param == null {
        param := new SubParam(zero);
      }
      p := param;
    }

    /** The start of every InnerSet: the SubParam's old value, then Value copied into it. */
    method Stage() returns (p: SubParam<T>, oldVal: T)
      modifies this, param
      ensures p == param && (old(param) != null ==> p == old(param)) && (old(param) == null ==> fresh(p))
      ensures oldVal == old(Current()) && p.value == val
      ensures locked == old(locked) && val == old(val) && onDelegate == old(onDelegate)
      ensures specificDelegate == old(specificDelegate) && fired == old(fired)
    {
      p := Param();
      oldVal := p.value;
      p.value := val;
    }

    /**
     * UEParam.InnerSet: copies Value into the SubParam, runs the listeners with the SubParam's
     * old value and Value, and takes back whatever they left in it, so Value and Param.value
     * agree afterwards.
     */
    method GeneralInnerSet()
      modifies this, param
      ensures param != null && (old(param) != null ==> param == old(param))
      ensures Synced()
      ensures val == Notify(GeneralHooks(onUnity, old(onDelegate)), old(Current()), old(val), old(val))
      ensures fired == old(fired) + Fired(GeneralHooks(onUnity, old(onDelegate)), old(Current()), old(val))
      ensures locked == old(locked) && onDelegate == old(onDelegate) && specificDelegate == old(specificDelegate)
    {
      var p, oldVal := Stage();
      var hooks := GeneralHooks(onUnity, onDelegate);
      RunHooks(p, hooks, oldVal, val);
      fired := fired + Fired(hooks, oldVal, val);
      val := p.value;
    }

    /**
     * UEEnum.InnerSet as written: the general event, the first specific event for Value, and
     * then a foreach over the specific-delegate list, which throws while that list is null;
     * Value then keeps the value the listeners were given.
     */
    method EnumInnerSet() returns (r: Outcome)
      modifies this, param
      ensures param != null && (old(param) != null ==> param == old(param))
      ensures r.Fail? <==> old(specificDelegate).None?
      ensures r.Fail? ==> r.error == NullReferenceException && val == old(val)
      ensures param.value == Notify(EnumHooks(onUnity, specificUnity, old(specificDelegate), old(val)), old(Current()), old(val), old(val))
      ensures fired == old(fired) + Fired(EnumHooks(onUnity, specificUnity, old(specificDelegate), old(val)), old(Current()), old(val))
      ensures r.Pass? ==> Synced()
      ensures locked == old(locked) && onDelegate == old(onDelegate) && specificDelegate == old(specificDelegate)
    {
      var unity := PickOne(specificUnity, val, true);
      var first := [Hook(General, onUnity)] + unity;
      var delegates := [];
      if specificDelegate.Some? {
        delegates := PickOne(specificDelegate.value, val, false);
      }
      assert EnumHooks(onUnity, specificUnity, specificDelegate, val) == first + delegates;
      var p, oldVal := Stage();
      RunHooks(p, first, oldVal, val);
      if specificDelegate.None? {
        assert first + delegates == first;
        fired := fired + Fired(first, oldVal, val);
        return Fail(NullReferenceException);
      }
      RunHooks(p, delegates, oldVal, val);
      NotifyAppend(first, delegates, oldVal, val, val);
      fired := fired + Fired(first + delegates, oldVal, val);
      val := p.value;
      r := Pass;
    }

    /**
     * The state InnerSet leaves, run with Value `v`: the listeners for `v` ran with the
     * SubParam's old value and `v`; Value takes what they left in the SubParam, except after
     * UEEnum's throw on the null specific-delegate list, when it keeps `v`.
     */
    twostate predicate Settled(r: Outcome, v: T)
      reads this, param
    {
      var hooks := HooksOf(kind, onUnity, old(onDelegate), specificUnity, old(specificDelegate), v);
      && param != null && (old(param) != null ==> param == old(param))
      && (r.Fail? <==> kind == EnumParam && old(specificDelegate).None?)
      && (r.Fail? ==> r.error == NullReferenceException && val == v)
      && param.value == Notify(hooks, old(Current()), v, v)
      && fired == old(fired) + Fired(hooks, old(Current()), v)
      && (r.Pass? ==> val == param.value)
      && locked == old(locked) && onDelegate == old(onDelegate) && specificDelegate == old(specificDelegate)
    }

    /** InnerSet, dispatched on the subclass. */
    method InnerSet() returns (r: Outcome)
      modifies this, param
      ensures Settled(r, old(val))
    {
      if kind == EnumParam {
        r := EnumInnerSet();
      } else {
        GeneralInnerSet();
        r := Pass;
      }
    }

    /**
     * The `value` setter: ignored while locked (nothing changes and no listener runs);
     * otherwise Value becomes `v` and InnerSet runs.
     */
    method SetValue(v: T) returns (r: Outcome)
      modifies this, param
      ensures old(locked) ==> r == Pass && val == old(val) && param == old(param) && Current() == old(Current())
      ensures old(locked) ==> fired == old(fired) && onDelegate == old(onDelegate) && specificDelegate == old(specificDelegate)
      ensures !old(locked) ==> Settled(r, v)
    {
      if locked {
        return Pass;
      }
      val := v;
      r := InnerSet();
    }

    /**
     * OnValidate: while locked, Value is reset from the SubParam and no listener runs;
     * otherwise DoValidate.
     */
    method OnValidate() returns (r: Outcome)
      modifies this, param
      ensures old(locked) ==> r == Pass && Synced() && Current() == old(Current()) && fired == old(fired)
      ensures old(locked) ==> param != null && (old(param) != null ==> param == old(param))
      ensures !old(locked) && old(Synced()) ==> r == Pass && val == old(val) && Current() == old(Current()) && fired == old(fired)
      ensures !old(locked) && !old(Synced()) ==> Settled(r, old(val))
    {
      if locked {
        var p := Param();
        val := p.value;
        return Pass;
      }
      r := DoValidate();
    }

    /**
     * DoValidate (the same in UEClass, UEStruct and UEEnum): InnerSet runs only when Value
     * differs from Param.value; otherwise nothing changes but the SubParam's creation.
     */
    method DoValidate() returns (r: Outcome)
      modifies this, param
      ensures old(Synced()) ==> r == Pass && val == old(val) && Current() == old(Current()) && fired == old(fired)
      ensures old(Synced()) ==> locked == old(locked) && onDelegate == old(onDelegate) && specificDelegate == old(specificDelegate)
      ensures !old(Synced()) ==> Settled(r, old(val))
    {
      var p := Param();
      if val != p.value {
        r := InnerSet();
      } else {
        r := Pass;
      }
    }

    /** ForceValidate: InnerSet, whether or not Value and Param.value differ. */
    method ForceValidate() returns (r: Outcome)
      modifies this, param
      ensures Settled(r, old(val))
    {
      r := InnerSet();
    }

    /** HardSet: Value and Param.value both become `v`, locked or not, and no listener runs. */
    method HardSet(v: T)
      modifies this, param
      ensures val == v && Current() == v && Synced()
      ensures param != null && (old(param) != null ==> param == old(param))
      ensures fired == old(fired) && locked == old(locked)
      ensures onDelegate == old(onDelegate) && specificDelegate == old(specificDelegate)
    {
      var p := Param();
      p.value := v;
      val := v;
    }
  }

  /**
   * As written, every UEEnum throws on an unlocked assignment: its specific-delegate list is
   * never created, and InnerSet enumerates it. Value then keeps the assigned value while the
   * SubParam holds what the listeners made of it.
   */
  method EnumAssignAsWritten<T(==)>(zero: T, initial: T, onUnity: Option<Listener<T>>,
                                    specificUnity: seq<EnumListener<T>>, v: T)
    returns (e: EParam<T>, r: Outcome)
    ensures r == Fail(NullReferenceException)
    ensures e.val == v && e.param != null
    ensures e.param.value == Notify([Hook(General, onUnity)] + Picked(specificUnity, v, true), zero, v, v)
  {
    e := new EParam(EnumParam, zero, initial, onUnity, specificUnity);
    ghost var hooks := [Hook(General, onUnity)] + Picked(specificUnity, v, true);
    assert HooksOf(EnumParam, onUnity, None, specificUnity, None, v) == hooks + [] == hooks;
    assert e.Current() == zero;
    r := e.SetValue(v);
  }

  /**
   * With the specific-delegate list created empty, an unlocked assignment to a UEEnum
   * succeeds and leaves Value and Param.value equal.
   */
  method EnumAssignInitialized<T(==)>(zero: T, initial: T, onUnity: Option<Listener<T>>,
                                      specificUnity: seq<EnumListener<T>>, v: T)
    returns (e: EParam<T>, r: Outcome)
    ensures r == Pass && e.param != null && e.Synced()
    ensures e.val == Notify([Hook(General, onUnity)] + Picked(specificUnity, v, true), zero, v, v)
  {
    e := new EParam.Initialized(EnumParam, zero, initial, onUnity, specificUnity);
    assert Picked([], v, false) == [];
    ghost var hooks := [Hook(General, onUnity)] + Picked(specificUnity, v, true);
    assert HooksOf(EnumParam, onUnity, None, specificUnity, Some([]), v) == hooks + [] == hooks;
    assert e.Current() == zero;
    r := e.SetValue(v);
  }
}
