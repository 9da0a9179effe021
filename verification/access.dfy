/** Who may do what in an inventory: the authorization predicates that
    InventoryService exposes and that ClaimService, MemberService and
    InvitationService repeat privately with the same definitions.
 */
module Access {
  import opened Outcomes
  import opened Domain

  /** The user owns the inventory. */
  predicate IsOwner(s: Store, inv: InventoryId, u: UserId) {
    inv in s.inventories && s.inventories[inv].owner == u
  }

  /** `existsByInventoryAndUserAndStatusAndRoleIn(inv, u, ACTIVE, roles)`. */
  predicate HasActiveRole(s: Store, inv: InventoryId, u: UserId, roles: set<Role>) {
    exists m :: m in s.members && IsMembership(s, m, inv, u) && s.members[m].status == Active && s.members[m].role in roles
  }

  /** The user holds an ACTIVE membership of the inventory, in any role. */
  ghost predicate HasActiveMembership(s: Store, inv: InventoryId, u: UserId) {
    exists m :: IsMembership(s, m, inv, u) && s.members[m].status == Active
  }

  /** `canUserViewInventory`: the owner, or a user whose membership is ACTIVE. */
  predicate CanView(s: Store, inv: InventoryId, u: UserId) {
    IsOwner(s, inv, u)
    || match MembershipOf(s, inv, u)
       case Some(m) => s.members[m].status == Active
       case None => false
  }

  /** `canUserEditInventory` / `canUserManageInventory`: the owner or an ACTIVE ADMIN. */
  predicate CanEdit(s: Store, inv: InventoryId, u: UserId) {
    IsOwner(s, inv, u) || HasActiveRole(s, inv, u, {Admin})
  }

  /** `canUserClaim`: the owner or an ACTIVE ADMIN or CLAIMANT. */
  predicate CanClaim(s: Store, inv: InventoryId, u: UserId) {
    IsOwner(s, inv, u) || HasActiveRole(s, inv, u, {Admin, Claimant})
  }

  /** The guard of every read (`getInventoryWithAccess`): the inventory
      exists (NotFound) and the caller may view it (NotAuthorized). */
  function ViewAccess(s: Store, u: UserId, inv: InventoryId): (r: Result<Inventory>)
    ensures inv !in s.inventories ==> r == Fail(NotFound)
    ensures inv in s.inventories && !CanView(s, inv, u) ==> r == Fail(NotAuthorized)
    ensures r.Ok? <==> inv in s.inventories && CanView(s, inv, u)
    ensures r.Ok? ==> r.value == s.inventories[inv]
  {
    var inventory :- FindInventory(s, inv);
    :- Require(CanView(s, inv, u), NotAuthorized);
    Ok(inventory)
  }

  /** The guard of every change to an inventory's contents and settings
      (`getInventoryWithEditAccess`, `getInventoryWithAdminAccess`): the
      inventory exists (NotFound) and the caller may edit it (NotAuthorized). */
  function EditAccess(s: Store, u: UserId, inv: InventoryId): (r: Result<Inventory>)
    ensures inv !in s.inventories ==> r == Fail(NotFound)
    ensures inv in s.inventories && !CanEdit(s, inv, u) ==> r == Fail(NotAuthorized)
    ensures r.Ok? <==> inv in s.inventories && CanEdit(s, inv, u)
    ensures r.Ok? ==> r.value == s.inventories[inv]
  {
    var inventory :- FindInventory(s, inv);
    :- Require(CanEdit(s, inv, u), NotAuthorized);
    Ok(inventory)
  }

  /** Membership `m` has role CLAIMANT and a finishedAt time. */
  predicate IsFinishedMembership(s: Store, m: MemberId)
    requires m in s.members
  {
    s.members[m].role == Claimant && s.members[m].finishedAt.Some?
  }

  /** The condition `checkNotFinishedClaimant` rejects: a non-owner whose
      membership has role CLAIMANT and a finishedAt time. */
  predicate IsFinishedClaimant(s: Store, inv: InventoryId, u: UserId) {
    !IsOwner(s, inv, u)
    && match MembershipOf(s, inv, u)
       case Some(m) => IsFinishedMembership(s, m)
       case None => false
  }

  /** `checkNotFinishedClaimant` as a guard: BadInput for a finished claimant. */
  function CheckNotFinishedClaimant(s: Store, inv: InventoryId, u: UserId): (g: Guard)
    ensures IsOwner(s, inv, u) ==> g.Pass?
    ensures g.Refuse? ==> g.error == BadInput
    ensures g.Refuse? ==> exists m :: IsMembership(s, m, inv, u) && IsFinishedMembership(s, m)
  {
    Require(!IsFinishedClaimant(s, inv, u), BadInput)
  }

  /** With one membership per user and inventory, viewing means owning the
      inventory or holding an ACTIVE membership of it. */
  lemma CanViewCharacterised(s: Store, inv: InventoryId, u: UserId)
    requires UniqueMemberships(s)
    ensures CanView(s, inv, u) <==> IsOwner(s, inv, u) || HasActiveMembership(s, inv, u)
  {
    if m :| IsMembership(s, m, inv, u) && s.members[m].status == Active {
      MembershipOfUnique(s, inv, u, m);
    }
  }

  /** Rights are nested: every editor may claim, and every claimant may view. */
  lemma RightsAreNested(s: Store, inv: InventoryId, u: UserId)
    requires UniqueMemberships(s)
    ensures CanEdit(s, inv, u) ==> CanClaim(s, inv, u)
    ensures CanClaim(s, inv, u) ==> CanView(s, inv, u)
  {
    if CanClaim(s, inv, u) && !IsOwner(s, inv, u) {
      var m :| IsMembership(s, m, inv, u) && s.members[m].status == Active && s.members[m].role in {Admin, Claimant};
      MembershipOfUnique(s, inv, u, m);
    }
  }

  /** A VIEWER membership never grants claiming or editing. */
  lemma ViewerMayNotClaim(s: Store, inv: InventoryId, u: UserId)
    requires UniqueMemberships(s)
    requires !IsOwner(s, inv, u)
    requires forall m :: IsMembership(s, m, inv, u) ==> s.members[m].role == Viewer
    ensures !CanClaim(s, inv, u) && !CanEdit(s, inv, u)
  {
  }

  /** The finished lock binds only CLAIMANT members: the owner and ADMIN or
      VIEWER members are never refused by it. */
  lemma FinishedLockBindsOnlyClaimants(s: Store, inv: InventoryId, u: UserId)
    requires UniqueMemberships(s)
    requires IsOwner(s, inv, u) || forall m :: IsMembership(s, m, inv, u) ==> s.members[m].role != Claimant
    ensures CheckNotFinishedClaimant(s, inv, u) == Pass
  {
  }

  /** The rights depend on the inventories and memberships alone. */
  lemma RightsDependOnMembershipsOnly(s: Store, s2: Store, inv: InventoryId, u: UserId)
    requires s2.inventories == s.inventories && s2.members == s.members
    ensures CanView(s2, inv, u) == CanView(s, inv, u)
    ensures CanEdit(s2, inv, u) == CanEdit(s, inv, u)
    ensures CanClaim(s2, inv, u) == CanClaim(s, inv, u)
    ensures IsFinishedClaimant(s2, inv, u) == IsFinishedClaimant(s, inv, u)
  {
    assert MembershipsOf(s2, inv, u) == MembershipsOf(s, inv, u);
  }
}
