/** MemberService: the administration of memberships (role, status, removal,
    the finished flag) and the activation of a PENDING membership on first
    access. The administrative operations check, in order: the inventory
    exists (NotFound), the caller is the owner or an ACTIVE ADMIN
    (NotAuthorized), the membership exists and belongs to this inventory
    (NotFound). None of them publishes an event.
 */
module Members {
  import opened Outcomes
  import opened Domain
  import opened Access
  import opened Events
  import Finite

  // ---------------------------------------------------------------------------
  // Guards
  // ---------------------------------------------------------------------------

  /** `memberRepository.findById` followed by the same-inventory check: both
      failures are NotFound. */
  function MemberOfInventory(s: Store, inv: InventoryId, m: MemberId): (r: Result<Member>)
    ensures r.Ok? <==> m in s.members && s.members[m].inventory == inv
    ensures r.Ok? ==> r.value == s.members[m]
    ensures r.Fail? ==> r.error == NotFound
  {
    if m in s.members && s.members[m].inventory == inv then Ok(s.members[m]) else Fail(NotFound)
  }

  /** The caller may manage the inventory and `m` is one of its memberships. */
  predicate Manageable(s: Store, u: UserId, inv: InventoryId, m: MemberId) {
    inv in s.inventories && CanEdit(s, inv, u) && m in s.members && s.members[m].inventory == inv
  }

  /** The failure the guards of an administrative operation produce. */
  function GuardError(s: Store, u: UserId, inv: InventoryId): Error {
    if inv !in s.inventories then NotFound
    else if !CanEdit(s, inv, u) then NotAuthorized
    else NotFound
  }

  /** The store with membership `m`'s finish time replaced. */
  function WithFinish(s: Store, m: MemberId, f: Option<Instant>): (s2: Store)
    requires m in s.members
    ensures m in s2.members && s2.members[m].finishedAt == f
  {
    s.(members := s.members[m := s.members[m].(finishedAt := f)])
  }

  /** No membership appears, and none changes its inventory or user. */
  predicate KeepsIdentities(s: Store, s2: Store) {
    forall m :: m in s2.members ==> (
      m in s.members
      && s2.members[m].inventory == s.members[m].inventory
      && s2.members[m].user == s.members[m].user)
  }

  // ---------------------------------------------------------------------------
  // Administrative operations
  // ---------------------------------------------------------------------------

  /** `getMembers`: the ACTIVE memberships of the inventory. */
  function GetMembers(s: Store, u: UserId, inv: InventoryId): (r: Result<seq<MemberId>>)
    ensures r.Fail? <==> EditAccess(s, u, inv).Fail?
    ensures r.Fail? ==> r.error == EditAccess(s, u, inv).error
    ensures r.Ok? ==> forall m :: m in r.value <==> m in s.members && s.members[m].inventory == inv && s.members[m].status == Active
    ensures r.Ok? ==> forall i, j :: 0 <= i < j < |r.value| ==> r.value[i] < r.value[j]
  {
    var _ :- EditAccess(s, u, inv);
    Ok(Finite.SortedSet(set m | m in s.members && s.members[m].inventory == inv && s.members[m].status == Active))
  }

  /** `updateMemberRole`. */
  function UpdateMemberRole(s: Store, u: UserId, inv: InventoryId, m: MemberId, role: Role): (r: Result<Committed<Member>>)
    ensures r.Ok? <==> Manageable(s, u, inv, m)
    ensures r.Fail? ==> r.error == GuardError(s, u, inv)
    ensures r.Ok? ==> r.value.value == s.members[m].(role := role)
    ensures r.Ok? ==> r.value.store == s.(members := s.members[m := r.value.value])
    ensures r.Ok? ==> r.value.events == []
    ensures r.Ok? ==> KeepsIdentities(s, r.value.store)
  {
    var _ :- EditAccess(s, u, inv);
    var member :- MemberOfInventory(s, inv, m);
    var updated := member.(role := role);
    Ok(Committed(s.(members := s.members[m := updated]), updated, []))
  }

  /** `updateMemberStatus`. */
  function UpdateMemberStatus(s: Store, u: UserId, inv: InventoryId, m: MemberId, status: MemberStatus): (r: Result<Committed<Member>>)
    ensures r.Ok? <==> Manageable(s, u, inv, m)
    ensures r.Fail? ==> r.error == GuardError(s, u, inv)
    ensures r.Ok? ==> r.value.value == s.members[m].(status := status)
    ensures r.Ok? ==> r.value.store == s.(members := s.members[m := r.value.value])
    ensures r.Ok? ==> r.value.events == []
    ensures r.Ok? ==> KeepsIdentities(s, r.value.store)
  {
    var _ :- EditAccess(s, u, inv);
    var member :- MemberOfInventory(s, inv, m);
    var updated := member.(status := status);
    Ok(Committed(s.(members := s.members[m := updated]), updated, []))
  }

  /** `removeMember`: BadInput for a membership held by the owner. */
  function RemoveMember(s: Store, u: UserId, inv: InventoryId, m: MemberId): (r: Result<Committed<()>>)
    ensures !Manageable(s, u, inv, m) ==> r == Fail(GuardError(s, u, inv))
    ensures Manageable(s, u, inv, m) && s.members[m].user == s.inventories[inv].owner ==> r == Fail(BadInput)
    ensures r.Ok? <==> Manageable(s, u, inv, m) && s.members[m].user != s.inventories[inv].owner
    ensures r.Ok? ==> r.value.store == s.(members := s.members - {m})
    ensures r.Ok? ==> r.value.events == []
    ensures r.Ok? ==> KeepsIdentities(s, r.value.store)
  {
    var inventory :- EditAccess(s, u, inv);
    var member :- MemberOfInventory(s, inv, m);
    :- Require(member.user != inventory.owner, BadInput);
    Ok(Committed(s.(members := s.members - {m}), (), []))
  }

  /** `setMemberFinished`: `true` stamps `now` only when no time is set;
      `false` clears a set time; every other case changes nothing. */
  function SetMemberFinished(s: Store, u: UserId, inv: InventoryId, m: MemberId, finished: bool, now: Instant): (r: Result<Committed<()>>)
    ensures r.Ok? <==> Manageable(s, u, inv, m)
    ensures r.Fail? ==> r.error == GuardError(s, u, inv)
    ensures r.Ok? ==> m in s.members && m in r.value.store.members && r.value.store.members[m].finishedAt.Some? == finished
    ensures r.Ok? ==> m in s.members && m in r.value.store.members && r.value.store == WithFinish(s, m, r.value.store.members[m].finishedAt)
    ensures r.Ok? && finished && s.members[m].finishedAt.Some? ==> r.value.store == s
    ensures r.Ok? && finished && s.members[m].finishedAt.None? ==> r.value.store.members[m].finishedAt == Some(now)
    ensures r.Ok? ==> r.value.events == []
    ensures r.Ok? ==> KeepsIdentities(s, r.value.store)
  {
    var _ :- EditAccess(s, u, inv);
    var member :- MemberOfInventory(s, inv, m);
    if finished && member.finishedAt.None? then
      Ok(Committed(s.(members := s.members[m := member.(finishedAt := Some(now))]), (), []))
    else if !finished && member.finishedAt.Some? then
      Ok(Committed(s.(members := s.members[m := member.(finishedAt := None)]), (), []))
    else
      assert s.members[m := member] == s.members;
      Ok(Committed(s, (), []))
  }

  // ---------------------------------------------------------------------------
  // Self-service operations
  // ---------------------------------------------------------------------------

  /** `activateMemberOnFirstAccess`: the caller's membership becomes ACTIVE if
      and only if it is PENDING; nothing else changes. */
  function ActivateMemberOnFirstAccess(s: Store, u: UserId, inv: InventoryId): (r: Result<Store>)
    ensures r.Ok? <==> inv in s.inventories
    ensures r.Fail? ==> r.error == NotFound
    ensures r.Ok? ==> r.value.members.Keys == s.members.Keys && r.value == s.(members := r.value.members)
    ensures r.Ok? ==> forall m :: m in s.members && Some(m) != MembershipOf(s, inv, u) ==> r.value.members[m] == s.members[m]
    ensures r.Ok? && MembershipOf(s, inv, u).Some? ==> (
      var m := MembershipOf(s, inv, u).value;
      r.value.members[m] == if s.members[m].status == Pending then s.members[m].(status := Active) else s.members[m])
    ensures r.Ok? ==> KeepsIdentities(s, r.value)
  {
    var _ :- FindInventory(s, inv);
    match MembershipOf(s, inv, u)
    case Some(m) =>
      if s.members[m].status == Pending then Ok(s.(members := s.members[m := s.members[m].(status := Active)]))
      else Ok(s)
    case None => Ok(s)
  }

  /** `markAsFinished`: a member marks itself finished. The owner is refused
      with BadInput, a non-member with NotAuthorized; an existing finish time
      is kept. */
  function MarkAsFinished(s: Store, u: UserId, inv: InventoryId, now: Instant): (r: Result<Committed<()>>)
    ensures inv !in s.inventories ==> r == Fail(NotFound)
    ensures IsOwner(s, inv, u) ==> r == Fail(BadInput)
    ensures inv in s.inventories && !IsOwner(s, inv, u) && MembershipOf(s, inv, u).None? ==> r == Fail(NotAuthorized)
    ensures r.Ok? <==> inv in s.inventories && !IsOwner(s, inv, u) && MembershipOf(s, inv, u).Some?
    ensures r.Ok? ==> (
      var m := MembershipOf(s, inv, u).value;
      r.value.store == WithFinish(s, m, if s.members[m].finishedAt.Some? then s.members[m].finishedAt else Some(now)))
    ensures r.Ok? ==> r.value.events == []
    ensures r.Ok? ==> KeepsIdentities(s, r.value.store)
  {
    var inventory :- FindInventory(s, inv);
    :- Require(inventory.owner != u, BadInput);
    match MembershipOf(s, inv, u)
    case None => Fail(NotAuthorized)
    case Some(m) =>
      if s.members[m].finishedAt.None? then
        Ok(Committed(s.(members := s.members[m := s.members[m].(finishedAt := Some(now))]), (), []))
      else
        assert s.members[m := s.members[m]] == s.members;
        Ok(Committed(s, (), []))
  }

  // ---------------------------------------------------------------------------
  // Properties
  // ---------------------------------------------------------------------------

  /** Every administrative operation refuses a caller who is neither the owner
      nor an ACTIVE ADMIN. */
  lemma AdminOperationsNeedManageRights(s: Store, u: UserId, inv: InventoryId, m: MemberId, role: Role, status: MemberStatus, finished: bool, now: Instant)
    requires inv in s.inventories && !CanEdit(s, inv, u)
    ensures GetMembers(s, u, inv) == Fail(NotAuthorized)
    ensures UpdateMemberRole(s, u, inv, m, role) == Fail(NotAuthorized)
    ensures UpdateMemberStatus(s, u, inv, m, status) == Fail(NotAuthorized)
    ensures RemoveMember(s, u, inv, m) == Fail(NotAuthorized)
    ensures SetMemberFinished(s, u, inv, m, finished, now) == Fail(NotAuthorized)
  {
  }

  /** A membership of another inventory is NotFound to every administrative
      operation, and so changes nothing. */
  lemma ForeignMemberIsNotFound(s: Store, u: UserId, inv: InventoryId, m: MemberId, role: Role, status: MemberStatus, finished: bool, now: Instant)
    requires inv in s.inventories && CanEdit(s, inv, u)
    requires m in s.members && s.members[m].inventory != inv
    ensures UpdateMemberRole(s, u, inv, m, role) == Fail(NotFound)
    ensures UpdateMemberStatus(s, u, inv, m, status) == Fail(NotFound)
    ensures RemoveMember(s, u, inv, m) == Fail(NotFound)
    ensures SetMemberFinished(s, u, inv, m, finished, now) == Fail(NotFound)
  {
  }

  /** Marking finished twice keeps the first time: the second call changes
      nothing. */
  lemma MarkAsFinishedIsIdempotent(s: Store, u: UserId, inv: InventoryId, t1: Instant, t2: Instant)
    requires UniqueMemberships(s)
    requires MarkAsFinished(s, u, inv, t1).Ok?
    ensures MarkAsFinished(MarkAsFinished(s, u, inv, t1).value.store, u, inv, t2).Ok?
    ensures MarkAsFinished(MarkAsFinished(s, u, inv, t1).value.store, u, inv, t2).value.store
            == MarkAsFinished(s, u, inv, t1).value.store
  {
    var m := MembershipOf(s, inv, u).value;
    var s1 := MarkAsFinished(s, u, inv, t1).value.store;
    assert UniqueMemberships(s1);
    MembershipOfUnique(s1, inv, u, m);
  }

  /** An administrator's reset undoes a member's own mark exactly, when the
      member was not finished before. */
  lemma ResetUndoesMark(s: Store, admin: UserId, u: UserId, inv: InventoryId, t1: Instant, t2: Instant)
    requires UniqueMemberships(s)
    requires MarkAsFinished(s, u, inv, t1).Ok?
    requires s.members[MembershipOf(s, inv, u).value].finishedAt.None?
    requires CanEdit(s, inv, admin)
    ensures SetMemberFinished(MarkAsFinished(s, u, inv, t1).value.store, admin, inv, MembershipOf(s, inv, u).value, false, t2)
            == Ok(Committed(s, (), []))
  {
    var m := MembershipOf(s, inv, u).value;
    var s1 := MarkAsFinished(s, u, inv, t1).value.store;
    RightsDependOnMembershipsOnlyUpToFinish(s, inv, admin, m, Some(t1));
    assert s1.members[m := s1.members[m].(finishedAt := None)] == s.members;
  }

  /** The finish time plays no part in who may edit. */
  lemma RightsDependOnMembershipsOnlyUpToFinish(s: Store, inv: InventoryId, u: UserId, m: MemberId, f: Option<Instant>)
    requires m in s.members
    ensures CanEdit(WithFinish(s, m, f), inv, u) == CanEdit(s, inv, u)
  {
    var s2 := WithFinish(s, m, f);
    assert forall x :: x in s.members ==> x in s2.members && s2.members[x].(finishedAt := s.members[x].finishedAt) == s.members[x];
    if CanEdit(s, inv, u) && !IsOwner(s, inv, u) {
      var x :| x in s.members && IsMembership(s, x, inv, u) && s.members[x].status == Active && s.members[x].role in {Admin};
      assert x in s2.members && IsMembership(s2, x, inv, u) && s2.members[x].status == Active && s2.members[x].role in {Admin};
    }
    if CanEdit(s2, inv, u) && !IsOwner(s2, inv, u) {
      var x :| x in s2.members && IsMembership(s2, x, inv, u) && s2.members[x].status == Active && s2.members[x].role in {Admin};
      assert x in s.members && IsMembership(s, x, inv, u) && s.members[x].status == Active && s.members[x].role in {Admin};
    }
  }

  /** A CLAIMANT who marks itself finished is then refused by the finished lock
      of the claim operations. */
  lemma MarkAsFinishedLocksClaimant(s: Store, u: UserId, inv: InventoryId, now: Instant)
    requires UniqueMemberships(s)
    requires MarkAsFinished(s, u, inv, now).Ok?
    requires s.members[MembershipOf(s, inv, u).value].role == Claimant
    ensures CheckNotFinishedClaimant(MarkAsFinished(s, u, inv, now).value.store, inv, u) == Refuse(BadInput)
  {
    var m := MembershipOf(s, inv, u).value;
    var s1 := MarkAsFinished(s, u, inv, now).value.store;
    assert UniqueMemberships(s1);
    MembershipOfUnique(s1, inv, u, m);
  }

  /** Activation on first access lets a PENDING member view the inventory. */
  lemma ActivationGrantsView(s: Store, u: UserId, inv: InventoryId)
    requires UniqueMemberships(s)
    requires inv in s.inventories && MembershipOf(s, inv, u).Some?
    requires s.members[MembershipOf(s, inv, u).value].status == Pending
    ensures CanView(ActivateMemberOnFirstAccess(s, u, inv).value, inv, u)
  {
    var m := MembershipOf(s, inv, u).value;
    var s1 := ActivateMemberOnFirstAccess(s, u, inv).value;
    assert UniqueMemberships(s1);
    MembershipOfUnique(s1, inv, u, m);
  }

  /** Activating twice is the same as activating once. */
  lemma ActivationIsIdempotent(s: Store, u: UserId, inv: InventoryId)
    requires UniqueMemberships(s) && inv in s.inventories
    ensures ActivateMemberOnFirstAccess(ActivateMemberOnFirstAccess(s, u, inv).value, u, inv)
            == ActivateMemberOnFirstAccess(s, u, inv)
  {
    var s1 := ActivateMemberOnFirstAccess(s, u, inv).value;
    if MembershipOf(s, inv, u).Some? {
      var m := MembershipOf(s, inv, u).value;
      assert UniqueMemberships(s1);
      MembershipOfUnique(s1, inv, u, m);
    } else {
      assert s1 == s;
    }
  }

  /** The owner's own membership, if any, is never removed. */
  lemma OwnerMembershipIsNeverRemoved(s: Store, u: UserId, inv: InventoryId, m: MemberId)
    requires inv in s.inventories && m in s.members && s.members[m].user == s.inventories[inv].owner
    ensures RemoveMember(s, u, inv, m).Fail?
  {
  }

  /** Operations that keep every membership's identity keep memberships
      unique; every operation of this service is one. */
  lemma KeepsIdentitiesKeepsUniqueness(s: Store, s2: Store)
    requires UniqueMemberships(s) && KeepsIdentities(s, s2)
    ensures UniqueMemberships(s2)
  {
  }
}
