/**
 * EntityManager.cs and BaseEntity.cs: the registry that hands out networking IDs as slots of a
 * list, recycling freed slots first-in first-out, and the entity whose ID fields only the
 * registry may write. Application.isEditor is the `isEditor` parameter; an error the editor
 * build logs and returns on is reported as `logged`.
 */
module Entities {
  import opened Wrappers

  /** ActiveSlot: one networking ID and the entity that holds it. */
  class ActiveSlot {
    var listId: int
    var owner: BaseEntity?

    constructor ()
      ensures listId == -1 && owner == null
    {
      listId := -1;
      owner := null;
    }
  }

  /** BaseEntity, the one IHaveAnID of the game. */
  class BaseEntity {
    var written: bool
    var individualId: int
    var networkingId: int
    var slot: ActiveSlot?
    var allowSelfAssignment: bool

    /** A new entity: not written, both IDs -1, and allowed to register itself. */
    constructor ()
      ensures !written && individualId == -1 && networkingId == -1
      ensures slot == null && allowSelfAssignment
    {
      written := false;
      individualId := -1;
      networkingId := -1;
      slot := null;
      allowSelfAssignment := true;
    }

    /**
     * Object.Instantiate of a template: a new entity with the template's serialized fields
     * (written, the two IDs); the rest start as in a new entity.
     */
    constructor Clone(template: BaseEntity)
      ensures written == template.written && individualId == template.individualId
      ensures networkingId == template.networkingId
      ensures slot == null && allowSelfAssignment
    {
      written := template.written;
      individualId := template.individualId;
      networkingId := template.networkingId;
      slot := null;
      allowSelfAssignment := true;
    }

    method SetSlot(s: ActiveSlot?)
      modifies this`slot
      ensures slot == s
    {
      slot := s;
    }

    /** Takes both IDs, but only while the registry is acting for this entity. */
    method QueueIds(em: EntityManager, networkId: int, uniqueId: int)
      modifies this`networkingId, this`individualId
      ensures em.CheckRequest(this) ==> networkingId == networkId && individualId == uniqueId
      ensures !em.CheckRequest(this) ==> networkingId == old(networkingId) && individualId == old(individualId)
    {
      if em.CheckRequest(this) {
        networkingId := networkId;
        individualId := uniqueId;
      }
    }

    /** Sets both IDs back to -1, but only while the registry is acting for this entity. */
    method ResetIds(em: EntityManager)
      modifies this`networkingId, this`individualId
      ensures em.CheckRequest(this) ==> networkingId == -1 && individualId == -1
      ensures !em.CheckRequest(this) ==> networkingId == old(networkingId) && individualId == old(individualId)
    {
      if em.CheckRequest(this) {
        networkingId := -1;
        individualId := -1;
      }
    }

    method AllowSelfAssignment(em: EntityManager, allow: bool)
      modifies this`allowSelfAssignment
      ensures allowSelfAssignment == if em.CheckRequest(this) then allow else old(allowSelfAssignment)
    {
      if em.CheckRequest(this) {
        allowSelfAssignment := allow;
      }
    }

    method SetWritten(em: EntityManager, w: bool)
      modifies this`written
      ensures written == if em.CheckRequest(this) then w else old(written)
    {
      if em.CheckRequest(this) {
        written := w;
      }
    }

    /** Awake and OnEnable: registers the entity unless it is written or may not register itself. */
    method SelfInitialize(em: EntityManager, isEditor: bool) returns (logged: bool)
      requires em.Valid()
      modifies em, this, set s | s in em.allActive
      ensures em.Valid()
      ensures forall s | s in em.allActive :: s in old(em.allActive) || fresh(s)
      ensures !(old(allowSelfAssignment) && !old(written)) ==>
        && !logged && unchanged(this) && em.allActive == old(em.allActive) && em.inactive == old(em.inactive)
        && forall s | s in em.allActive :: s.owner == old(s.owner)
      ensures old(allowSelfAssignment) && !old(written) && !logged ==>
        && written && individualId == -1
        && 0 <= networkingId < |em.allActive| && em.allActive[networkingId].owner == this
        && |em.allActive| - |em.inactive| == |old(em.allActive)| - |old(em.inactive)| + 1
    {
      logged := false;
      if allowSelfAssignment && !written {
        var r;
        r, logged := em.RegisterId(this, isEditor);
      }
    }

    /**
     * Awake followed by OnEnable: both try to register, but the first registration makes the
     * entity written, so one slot is taken, not two.
     */
    method Spawn(em: EntityManager, isEditor: bool) returns (logged: bool)
      requires em.Valid()
      modifies em, this, set s | s in em.allActive
      ensures em.Valid()
      ensures old(allowSelfAssignment) && !old(written) && !logged ==>
        && written && 0 <= networkingId < |em.allActive| && em.allActive[networkingId].owner == this
        && |em.allActive| - |em.inactive| == |old(em.allActive)| - |old(em.inactive)| + 1
    {
      var first := SelfInitialize(em, isEditor);
      var second := SelfInitialize(em, isEditor);
      logged := first || second;
    }

    /** OnDestroy: gives the ID back, but only if the entity is written. */
    method SelfDestruct(em: EntityManager, isEditor: bool) returns (r: Outcome, logged: bool)
      requires em.Valid()
      modifies em, this, set s | s in em.allActive
      ensures em.Valid()
      ensures !old(written) ==> r.Pass? && !logged && unchanged(this) && em.inactive == old(em.inactive)
    {
      r, logged := Pass, false;
      if written {
        r, logged := em.UnregisterId(this, isEditor);
      }
    }
  }

  /** EntityManager: the slot list, the queue of freed slots (head first) and the current requester. */
  class EntityManager {
    var allActive: seq<ActiveSlot>
    var inactive: seq<ActiveSlot>
    var requesting: BaseEntity?

    /**
     * Every slot's listId is its index, every queued slot is a slot of the list, and no
     * entity is being acted for between calls.
     */
    ghost predicate Valid()
      reads this, set s | s in allActive
    {
      && (forall i | 0 <= i < |allActive| :: allActive[i].listId == i)
      && (forall s | s in inactive :: s in allActive)
      && requesting == null
    }

    constructor ()
      ensures Valid() && allActive == [] && inactive == []
    {
      allActive := [];
      inactive := [];
      requesting := null;
    }

    /** Whether the registry is acting for `be` right now. */
    predicate CheckRequest(be: BaseEntity?)
      reads this
    {
      be == requesting
    }

    /** Between calls the registry acts for no entity, so every gated setter is refused. */
    lemma NoRequestOutside(be: BaseEntity)
      requires Valid()
      ensures !CheckRequest(be)
    {
    }

    /** Appends a new slot whose listId is its index; the queue is left alone. */
    method AppendSlot() returns (s: ActiveSlot)
      requires Valid()
      modifies this`allActive
      ensures Valid() && fresh(s) && s.owner == null
      ensures allActive == old(allActive) + [s] && s.listId == |old(allActive)|
    {
      s := new ActiveSlot();
      allActive := allActive + [s];
      s.listId := |allActive| - 1;
    }

    /** AssignIDs: acts for `requester` while it takes both IDs. */
    method AssignIds(requester: BaseEntity?, tempId: int, uniqueId: int) returns (r: Outcome)
      requires requesting == null
      modifies this`requesting, requester
      ensures requesting == null
      ensures r.Fail? <==> requester == null
      ensures r.Fail? ==> r.error == NullReferenceException
      ensures requester != null ==> requester.networkingId == tempId && requester.individualId == uniqueId
      ensures requester != null ==>
        && requester.written == old(requester.written)
        && requester.allowSelfAssignment == old(requester.allowSelfAssignment) && requester.slot == old(requester.slot)
    {
      requesting := requester;
      if requester == null {
        requesting := null;
        return Fail(NullReferenceException);
      }
      requester.QueueIds(this, tempId, uniqueId);
      requesting := null;
      r := Pass;
    }

    /** RevokeIDs, DenySelfAssignment and PermitSelfAssignment: acts for `requester` while it (dis)allows self-assignment. */
    method SetSelfAssignment(requester: BaseEntity, allow: bool)
      requires requesting == null
      modifies this`requesting, requester`allowSelfAssignment
      ensures requesting == null && requester.allowSelfAssignment == allow
    {
      requesting := requester;
      requester.AllowSelfAssignment(this, allow);
      requesting := null;
    }

    /** SetWritten: acts for `requester` while it sets its written flag. */
    method SetWrittenFor(requester: BaseEntity, w: bool)
      requires requesting == null
      modifies this`requesting, requester`written
      ensures requesting == null && requester.written == w
    {
      requesting := requester;
      requester.SetWritten(this, w);
      requesting := null;
    }

    /**
     * Gives `needsId` a slot: the oldest freed one, or a new one at the end of the list. The
     * entity becomes the slot's owner, takes its index as networking ID and -1 as individual
     * ID, and is written. In the editor, a null entity is refused, and so is a freed slot that
     * is still owned (that slot has then left the queue). Outside the editor a null entity
     * takes a slot and then throws.
     */
    method RegisterId(needsId: BaseEntity?, isEditor: bool) returns (r: Outcome, logged: bool)
      requires Valid()
      modifies this, needsId, set s | s in allActive
      ensures Valid()
      ensures logged ==> isEditor && r.Pass? && (forall s | s in old(allActive) :: s.owner == old(s.owner))
      ensures logged ==> allActive == old(allActive) && (needsId == null || unchanged(needsId))
      ensures logged <==> isEditor && (needsId == null || (old(inactive) != [] && old(inactive[0].owner) != null))
      ensures logged && needsId == null ==> inactive == old(inactive)
      ensures logged && needsId != null ==> inactive == old(inactive)[1..]
      ensures !logged ==> (r.Fail? <==> needsId == null)
      ensures !logged && old(inactive) == [] ==>
        && inactive == [] && |allActive| == |old(allActive)| + 1
        && allActive == old(allActive) + [allActive[|old(allActive)|]] && fresh(allActive[|old(allActive)|])
      ensures !logged && old(inactive) != [] ==> inactive == old(inactive)[1..] && allActive == old(allActive)
      ensures !logged ==>
        var s := if old(inactive) == [] then allActive[|old(allActive)|] else old(inactive[0]);
        && s.owner == needsId
        && (forall t | t in old(allActive) && t != s :: t.owner == old(t.owner))
        && (needsId != null ==>
            && needsId.networkingId == s.listId && needsId.individualId == -1 && needsId.written
            && needsId.allowSelfAssignment == old(needsId.allowSelfAssignment) && needsId.slot == old(needsId.slot))
    {
      logged := false;
      if isEditor && needsId == null {
        return Pass, true;
      }
      var s: ActiveSlot;
      if inactive == [] {
        s := AppendSlot();
      } else {
        s := inactive[0];
        inactive := inactive[1..];
        if isEditor && s.owner != null {
          return Pass, true;
        }
      }
      s.owner := needsId;
      r := AssignIds(needsId, s.listId, -1);
      if r.Fail? {
        return;
      }
      SetWrittenFor(needsId, true);
    }

    /**
     * Frees the slot at the entity's networking ID: it joins the queue and loses its owner; the
     * entity may no longer register itself and is no longer written, and keeps its IDs. In the
     * editor a null entity or a negative ID is refused; an entity that does not own that slot
     * is logged and freed all the same. An ID outside the list throws.
     */
    method UnregisterId(toReturn: BaseEntity?, isEditor: bool) returns (r: Outcome, logged: bool)
      requires Valid()
      modifies this, toReturn, set s | s in allActive
      ensures Valid() && allActive == old(allActive)
      ensures isEditor && (toReturn == null || old(toReturn.networkingId) < 0) ==>
        r.Pass? && logged && inactive == old(inactive) && (toReturn == null || unchanged(toReturn))
        && forall s | s in allActive :: s.owner == old(s.owner)
      ensures !isEditor && toReturn == null ==>
        r == Fail(NullReferenceException) && !logged && inactive == old(inactive)
      ensures toReturn != null && !(0 <= old(toReturn.networkingId) < |allActive|) && !(isEditor && old(toReturn.networkingId) < 0) ==>
        r == Fail(ArgumentOutOfRangeException) && inactive == old(inactive) && unchanged(toReturn)
      ensures toReturn != null && 0 <= old(toReturn.networkingId) < |allActive| ==>
        var s := allActive[old(toReturn.networkingId)];
        && r.Pass?
        && (logged <==> isEditor && old(s.owner) != toReturn)
        && inactive == old(inactive) + [s] && s.owner == null
        && (forall t | t in allActive && t != s :: t.owner == old(t.owner))
        && !toReturn.written && !toReturn.allowSelfAssignment
        && toReturn.networkingId == old(toReturn.networkingId) && toReturn.individualId == old(toReturn.individualId)
    {
      logged := false;
      if isEditor {
        if toReturn == null || toReturn.networkingId < 0 {
          return Pass, true;
        }
        if 0 <= toReturn.networkingId < |allActive| && allActive[toReturn.networkingId].owner != toReturn {
          logged := true;
        }
      }
      if toReturn == null {
        return Fail(NullReferenceException), false;
      }
      var id := toReturn.networkingId;
      if !(0 <= id < |allActive|) {
        return Fail(ArgumentOutOfRangeException), logged;
      }
      inactive := inactive + [allActive[id]];
      allActive[id].owner := null;
      SetSelfAssignment(toReturn, false);
      SetWrittenFor(toReturn, false);
      r := Pass;
    }

    /** The growth loop of ForceCreateEntity: new empty slots are appended until `tempId` is an index. */
    method GrowTo(tempId: int)
      requires Valid()
      modifies this`allActive
      ensures Valid()
      ensures |allActive| == if tempId < |old(allActive)| then |old(allActive)| else tempId + 1
      ensures allActive[..|old(allActive)|] == old(allActive)
      ensures forall i | |old(allActive)| <= i < |allActive| :: fresh(allActive[i]) && allActive[i].owner == null
    {
      while tempId >= |allActive|
        invariant Valid()
        invariant |old(allActive)| <= |allActive| <= if tempId < |old(allActive)| then |old(allActive)| else tempId + 1
        invariant allActive[..|old(allActive)|] == old(allActive)
        invariant forall i | |old(allActive)| <= i < |allActive| :: fresh(allActive[i]) && allActive[i].owner == null
        decreases tempId - |allActive|
      {
        var _ := AppendSlot();
      }
    }

    /**
     * The rest of ForceCreateEntity once the template holds its IDs: it is copied with
     * self-assignment denied and then permitted, has it revoked, and the written copy owns `s`.
     */
    method Install(template: BaseEntity, s: ActiveSlot) returns (e: BaseEntity)
      requires requesting == null
      modifies this`requesting, template, s`owner
      ensures requesting == null && fresh(e)
      ensures e.slot == s && s.owner == e
      ensures e.written && e.networkingId == old(template.networkingId) && e.individualId == old(template.individualId)
      ensures template.networkingId == old(template.networkingId) && template.individualId == old(template.individualId)
      ensures !template.allowSelfAssignment && template.written == old(template.written)
    {
      SetSelfAssignment(template, false);
      e := new BaseEntity.Clone(template);
      SetSelfAssignment(template, true);
      SetSelfAssignment(template, false);
      s.owner := e;
      e.SetSlot(s);
      SetWrittenFor(e, true);
    }

    /**
     * Puts a copy of `template` in slot `tempId`, growing the list with new empty slots until
     * that index exists; those gap slots are not queued. The template takes the IDs before it
     * is copied and ends unable to register itself; the copy owns the slot and is written. In
     * the editor an occupied slot is refused with a null result. A null template throws when
     * it is handed its IDs, after the list has grown.
     */
    method ForceCreateEntity(template: BaseEntity?, tempId: int, uniqueId: int, isEditor: bool)
      returns (r: Result<BaseEntity?>)
      requires Valid()
      modifies this, template, set s | s in allActive
      ensures Valid() && inactive == old(inactive)
      ensures |allActive| == if tempId < |old(allActive)| then |old(allActive)| else tempId + 1
      ensures allActive[..|old(allActive)|] == old(allActive)
      ensures forall i | |old(allActive)| <= i < |allActive| :: fresh(allActive[i])
      ensures tempId < 0 ==> r == Err(ArgumentOutOfRangeException)
      ensures r == Ok(null) <==> 0 <= tempId && isEditor && (tempId < |old(allActive)| && old(allActive[tempId].owner) != null)
      ensures 0 <= tempId && r != Ok(null) && template == null ==> r == Err(NullReferenceException)
      ensures r.Err? <==> tempId < 0 || (template == null && r != Ok(null))
      ensures r.Err? && template != null ==> unchanged(template)
      ensures r.Ok? && r.value != null ==>
        var e := r.value;
        && template != null
        && fresh(e) && e.slot == allActive[tempId] && allActive[tempId].owner == e
        && e.written && e.networkingId == tempId && e.individualId == uniqueId
        && template.networkingId == tempId && template.individualId == uniqueId
        && !template.allowSelfAssignment
      ensures forall i | 0 <= i < |allActive| && i != tempId :: allActive[i].owner == (if i < |old(allActive)| then old(allActive[i].owner) else null)
      ensures !(r.Ok? && r.value != null) ==>
        forall i | 0 <= i < |allActive| :: allActive[i].owner == (if i < |old(allActive)| then old(allActive[i].owner) else null)
      ensures r == Ok(null) && template != null ==> unchanged(template)
    {
      GrowTo(tempId);
      if tempId < 0 {
        return Err(ArgumentOutOfRangeException);
      }
      var s := allActive[tempId];
      if isEditor && s.owner != null {
        return Ok(null);
      }
      var given := AssignIds(template, tempId, uniqueId);
      if given.Fail? {
        return Err(given.error);
      }
      var e := Install(template, s);
      r := Ok(e);
    }
  }
}
