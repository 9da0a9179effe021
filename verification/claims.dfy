/** The claim lifecycle of ClaimService: a user's interest in an item goes from
    absent to INTERESTED, a manager turns one claim per item into ASSIGNED and
    back, and claims are removed by their claimant or by a manager.
 */
module Claims {
  import opened Outcomes
  import opened Domain
  import opened Access
  import opened Events
  import Finite

  // ---------------------------------------------------------------------------
  // Invariants the claim operations keep
  // ---------------------------------------------------------------------------

  /** A user holds at most one claim per item. */
  ghost predicate OneClaimPerItemAndUser(s: Store) {
    forall c1, c2 :: c1 in s.claims && c2 in s.claims && c1 != c2 && s.claims[c1].item == s.claims[c2].item
      ==> s.claims[c1].user != s.claims[c2].user
  }

  /** At most one claim per item is ASSIGNED. */
  ghost predicate OneAssignedPerItem(s: Store) {
    forall c1, c2 :: c1 in s.claims && c2 in s.claims && c1 != c2 && s.claims[c1].item == s.claims[c2].item
      ==> !(s.claims[c1].status == Assigned && s.claims[c2].status == Assigned)
  }

  ghost predicate ClaimInvariants(s: Store) {
    OneClaimPerItemAndUser(s) && OneAssignedPerItem(s)
  }

  /** `s2` differs from `s` at most in its claims. */
  predicate OnlyClaimsChanged(s: Store, s2: Store) {
    s2 == s.(claims := s2.claims)
  }

  // ---------------------------------------------------------------------------
  // Shared guard
  // ---------------------------------------------------------------------------

  /** `getItemWithAccess`: the inventory must exist (NotFound), the caller must
      be able to view it (NotAuthorized), and the item must be a non-deleted
      item of it (NotFound). */
  function ItemWithAccess(s: Store, u: UserId, inv: InventoryId, item: ItemId): (r: Result<ItemId>)
    ensures r.Ok? <==> inv in s.inventories && CanView(s, inv, u) && IsLiveItem(s, inv, item)
    ensures r.Ok? ==> r.value == item
    ensures inv !in s.inventories ==> r == Fail(NotFound)
    ensures inv in s.inventories && !CanView(s, inv, u) ==> r == Fail(NotAuthorized)
    ensures inv in s.inventories && CanView(s, inv, u) && !IsLiveItem(s, inv, item) ==> r == Fail(NotFound)
  {
    var _ :- FindInventory(s, inv);
    :- Require(CanView(s, inv, u), NotAuthorized);
    :- Require(IsLiveItem(s, inv, item), NotFound);
    Ok(item)
  }

  // ---------------------------------------------------------------------------
  // Operations
  // ---------------------------------------------------------------------------

  /** `createClaim`, with `id` the id the database gives the new claim and
      `now` the event's timestamp. */
  function CreateClaim(s: Store, u: UserId, inv: InventoryId, item: ItemId, id: ClaimId, now: Instant)
    : (r: Result<Committed<ClaimId>>)
    requires id !in s.claims
    ensures ItemWithAccess(s, u, inv, item).Fail? ==> r == Fail(ItemWithAccess(s, u, inv, item).error)
    ensures ItemWithAccess(s, u, inv, item).Ok? && !CanClaim(s, inv, u) ==> r == Fail(NotAuthorized)
    ensures ItemWithAccess(s, u, inv, item).Ok? && CanClaim(s, inv, u) && IsFinishedClaimant(s, inv, u)
      ==> r == Fail(BadInput)
    ensures r.Ok? <==>
      ItemWithAccess(s, u, inv, item).Ok? && CanClaim(s, inv, u) && !IsFinishedClaimant(s, inv, u)
      && ClaimOf(s, item, u).None?
    ensures r.Fail? && ItemWithAccess(s, u, inv, item).Ok? && CanClaim(s, inv, u) ==> r.error == BadInput
    ensures r.Ok? ==> r.value.value == id && OnlyClaimsChanged(s, r.value.store)
    ensures r.Ok? ==> r.value.store.claims == s.claims[id := Claim(item, u, Interested)]
    ensures r.Ok? ==> r.value.events == [ClaimEvent(ClaimCreated, inv, item, id, now)]
  {
    var _ :- ItemWithAccess(s, u, inv, item);
    :- Require(CanClaim(s, inv, u), NotAuthorized);
    :- CheckNotFinishedClaimant(s, inv, u);
    :- Require(ClaimOf(s, item, u).None?, BadInput);
    var s2 := s.(claims := s.claims[id := Claim(item, u, Interested)]);
    Ok(Committed(s2, id, [ClaimEvent(ClaimCreated, inv, item, id, now)]))
  }

  /** `withdrawClaim`: the caller removes their own claim unless it is ASSIGNED. */
  function WithdrawClaim(s: Store, u: UserId, inv: InventoryId, item: ItemId, now: Instant)
    : (r: Result<Committed<()>>)
    ensures ItemWithAccess(s, u, inv, item).Fail? ==> r == Fail(ItemWithAccess(s, u, inv, item).error)
    ensures ItemWithAccess(s, u, inv, item).Ok? && IsFinishedClaimant(s, inv, u) ==> r == Fail(BadInput)
    ensures ItemWithAccess(s, u, inv, item).Ok? && !IsFinishedClaimant(s, inv, u) && ClaimOf(s, item, u).None?
      ==> r == Fail(NotFound)
    ensures ItemWithAccess(s, u, inv, item).Ok? && !IsFinishedClaimant(s, inv, u) && ClaimOf(s, item, u).Some?
      && s.claims[ClaimOf(s, item, u).value].status == Assigned
      ==> r == Fail(BadInput)
    ensures r.Ok? <==>
      ItemWithAccess(s, u, inv, item).Ok? && !IsFinishedClaimant(s, inv, u)
      && ClaimOf(s, item, u).Some? && s.claims[ClaimOf(s, item, u).value].status == Interested
    ensures r.Ok? ==> OnlyClaimsChanged(s, r.value.store)
    ensures r.Ok? ==> r.value.store.claims == s.claims - {ClaimOf(s, item, u).value}
    ensures r.Ok? ==> r.value.events == [ClaimEvent(ClaimDeleted, inv, item, ClaimOf(s, item, u).value, now)]
  {
    var _ :- ItemWithAccess(s, u, inv, item);
    :- CheckNotFinishedClaimant(s, inv, u);
    :- Require(ClaimOf(s, item, u).Some?, NotFound);
    var c := ClaimOf(s, item, u).value;
    :- Require(s.claims[c].status != Assigned, BadInput);
    Ok(Committed(s.(claims := s.claims - {c}), (), [ClaimEvent(ClaimDeleted, inv, item, c, now)]))
  }

  /** `getClaims`: every claim on a non-deleted item, for any viewer. The
      service repeats the view check after `getItemWithAccess`; having
      already passed, it cannot fail and is not modelled again. */
  function GetClaims(s: Store, u: UserId, inv: InventoryId, item: ItemId): (r: Result<seq<ClaimId>>)
    ensures ItemWithAccess(s, u, inv, item).Fail? ==> r == Fail(ItemWithAccess(s, u, inv, item).error)
    ensures r.Ok? <==> ItemWithAccess(s, u, inv, item).Ok?
    ensures r.Ok? ==> forall c :: c in r.value <==> c in s.claims && s.claims[c].item == item
    ensures r.Ok? ==> forall i, j :: 0 <= i < j < |r.value| ==> r.value[i] < r.value[j]
  {
    var _ :- ItemWithAccess(s, u, inv, item);
    Ok(Finite.SortedSet(ClaimsOn(s, item)))
  }

  /** `assignItem`: a manager turns claim `c` on the item into the ASSIGNED one.
      An item that already has an ASSIGNED claim is refused before the claim
      is even looked up, so re-assigning the same claim fails too. */
  function AssignItem(s: Store, u: UserId, inv: InventoryId, item: ItemId, c: ClaimId, now: Instant)
    : (r: Result<Committed<ClaimId>>)
    ensures ItemWithAccess(s, u, inv, item).Fail? ==> r == Fail(ItemWithAccess(s, u, inv, item).error)
    ensures ItemWithAccess(s, u, inv, item).Ok? && !CanEdit(s, inv, u) ==> r == Fail(NotAuthorized)
    ensures ItemWithAccess(s, u, inv, item).Ok? && CanEdit(s, inv, u) && HasAssignedClaim(s, item)
      ==> r == Fail(BadInput)
    ensures ItemWithAccess(s, u, inv, item).Ok? && CanEdit(s, inv, u) && !HasAssignedClaim(s, item) && c !in s.claims
      ==> r == Fail(NotFound)
    ensures ItemWithAccess(s, u, inv, item).Ok? && CanEdit(s, inv, u) && !HasAssignedClaim(s, item)
      && c in s.claims && s.claims[c].item != item
      ==> r == Fail(BadInput)
    ensures r.Ok? <==>
      ItemWithAccess(s, u, inv, item).Ok? && CanEdit(s, inv, u) && !HasAssignedClaim(s, item)
      && c in s.claims && s.claims[c].item == item
    ensures r.Ok? ==> r.value.value == c && OnlyClaimsChanged(s, r.value.store)
    ensures r.Ok? ==> r.value.store.claims == s.claims[c := s.claims[c].(status := Assigned)]
    ensures r.Ok? ==> r.value.events == [ClaimEvent(ItemAssigned, inv, item, c, now)]
  {
    var _ :- ItemWithAccess(s, u, inv, item);
    :- Require(CanEdit(s, inv, u), NotAuthorized);
    :- Require(AssignedClaimOn(s, item).None?, BadInput);
    :- Require(c in s.claims, NotFound);
    :- Require(s.claims[c].item == item, BadInput);
    var s2 := s.(claims := s.claims[c := s.claims[c].(status := Assigned)]);
    Ok(Committed(s2, c, [ClaimEvent(ItemAssigned, inv, item, c, now)]))
  }

  /** `unassignItem`: the item's ASSIGNED claim goes back to INTERESTED. */
  function UnassignItem(s: Store, u: UserId, inv: InventoryId, item: ItemId, now: Instant)
    : (r: Result<Committed<()>>)
    ensures ItemWithAccess(s, u, inv, item).Fail? ==> r == Fail(ItemWithAccess(s, u, inv, item).error)
    ensures ItemWithAccess(s, u, inv, item).Ok? && !CanEdit(s, inv, u) ==> r == Fail(NotAuthorized)
    ensures r.Ok? <==> ItemWithAccess(s, u, inv, item).Ok? && CanEdit(s, inv, u) && HasAssignedClaim(s, item)
    ensures r.Fail? && ItemWithAccess(s, u, inv, item).Ok? && CanEdit(s, inv, u) ==> r.error == NotFound
    ensures r.Ok? ==> OnlyClaimsChanged(s, r.value.store)
    ensures r.Ok? ==> r.value.store.claims.Keys == s.claims.Keys
    ensures r.Ok? ==> (forall c :: c in s.claims && s.claims[c].item != item ==> r.value.store.claims[c] == s.claims[c])
    ensures r.Ok? && OneAssignedPerItem(s) ==>
      (forall c :: c in s.claims && s.claims[c].item == item ==> r.value.store.claims[c] == s.claims[c].(status := Interested))
    ensures r.Ok? ==> r.value.events == [ItemEvent(ItemUnassigned, inv, item, now)]
  {
    var _ :- ItemWithAccess(s, u, inv, item);
    :- Require(CanEdit(s, inv, u), NotAuthorized);
    var found := AssignedClaimOn(s, item);
    :- Require(found.Some?, NotFound);
    var c := found.value;
    var s2 := s.(claims := s.claims[c := s.claims[c].(status := Interested)]);
    OnlyOneAssigned(s, item, c);
    Ok(Committed(s2, (), [ItemEvent(ItemUnassigned, inv, item, now)]))
  }

  /** Under one ASSIGNED claim per item, the found one is the only one. */
  lemma OnlyOneAssigned(s: Store, item: ItemId, c: ClaimId)
    requires c in s.claims && s.claims[c].item == item && s.claims[c].status == Assigned
    ensures OneAssignedPerItem(s) ==>
      (forall d :: d in s.claims && s.claims[d].item == item && d != c ==> s.claims[d].status == Interested)
  {
  }

  /** `deleteClaim`: a manager removes claim `c` of the item, whatever its status. */
  function DeleteClaim(s: Store, u: UserId, inv: InventoryId, item: ItemId, c: ClaimId, now: Instant)
    : (r: Result<Committed<()>>)
    ensures ItemWithAccess(s, u, inv, item).Fail? ==> r == Fail(ItemWithAccess(s, u, inv, item).error)
    ensures ItemWithAccess(s, u, inv, item).Ok? && !CanEdit(s, inv, u) ==> r == Fail(NotAuthorized)
    ensures ItemWithAccess(s, u, inv, item).Ok? && CanEdit(s, inv, u) && c !in s.claims ==> r == Fail(NotFound)
    ensures ItemWithAccess(s, u, inv, item).Ok? && CanEdit(s, inv, u) && c in s.claims && s.claims[c].item != item
      ==> r == Fail(BadInput)
    ensures r.Ok? <==>
      ItemWithAccess(s, u, inv, item).Ok? && CanEdit(s, inv, u) && c in s.claims && s.claims[c].item == item
    ensures r.Ok? ==> OnlyClaimsChanged(s, r.value.store) && r.value.store.claims == s.claims - {c}
    ensures r.Ok? ==> r.value.events == [ClaimEvent(ClaimDeleted, inv, item, c, now)]
  {
    var _ :- ItemWithAccess(s, u, inv, item);
    :- Require(CanEdit(s, inv, u), NotAuthorized);
    :- Require(c in s.claims, NotFound);
    :- Require(s.claims[c].item == item, BadInput);
    Ok(Committed(s.(claims := s.claims - {c}), (), [ClaimEvent(ClaimDeleted, inv, item, c, now)]))
  }

  // ---------------------------------------------------------------------------
  // The invariants are preserved
  // ---------------------------------------------------------------------------

  lemma CreateClaimPreservesInvariants(s: Store, u: UserId, inv: InventoryId, item: ItemId, id: ClaimId, now: Instant)
    requires id !in s.claims
    requires ClaimInvariants(s)
    ensures CreateClaim(s, u, inv, item, id, now).Ok? ==> ClaimInvariants(CreateClaim(s, u, inv, item, id, now).value.store)
  {
    var r := CreateClaim(s, u, inv, item, id, now);
    if r.Ok? {
      var s2 := r.value.store;
      forall c | c in s.claims && s.claims[c].item == item
        ensures s.claims[c].user != u
      {
      }
    }
  }

  lemma WithdrawClaimPreservesInvariants(s: Store, u: UserId, inv: InventoryId, item: ItemId, now: Instant)
    requires ClaimInvariants(s)
    ensures WithdrawClaim(s, u, inv, item, now).Ok? ==> ClaimInvariants(WithdrawClaim(s, u, inv, item, now).value.store)
  {
  }

  lemma AssignItemPreservesInvariants(s: Store, u: UserId, inv: InventoryId, item: ItemId, c: ClaimId, now: Instant)
    requires ClaimInvariants(s)
    ensures AssignItem(s, u, inv, item, c, now).Ok? ==> ClaimInvariants(AssignItem(s, u, inv, item, c, now).value.store)
  {
    var r := AssignItem(s, u, inv, item, c, now);
    if r.Ok? {
      var s2 := r.value.store;
      forall d | d in s.claims && d != c && s.claims[d].item == item
        ensures s.claims[d].status != Assigned
      {
        assert !HasAssignedClaim(s, item);
      }
    }
  }

  lemma UnassignItemPreservesInvariants(s: Store, u: UserId, inv: InventoryId, item: ItemId, now: Instant)
    requires ClaimInvariants(s)
    ensures UnassignItem(s, u, inv, item, now).Ok? ==> ClaimInvariants(UnassignItem(s, u, inv, item, now).value.store)
  {
  }

  lemma DeleteClaimPreservesInvariants(s: Store, u: UserId, inv: InventoryId, item: ItemId, c: ClaimId, now: Instant)
    requires ClaimInvariants(s)
    ensures DeleteClaim(s, u, inv, item, c, now).Ok? ==> ClaimInvariants(DeleteClaim(s, u, inv, item, c, now).value.store)
  {
  }

  /** Assigning and then unassigning an item restores its claims exactly. */
  lemma AssignThenUnassignRestores(s: Store, u: UserId, inv: InventoryId, item: ItemId, c: ClaimId, now: Instant)
    requires ClaimInvariants(s)
    requires AssignItem(s, u, inv, item, c, now).Ok?
    requires s.claims[c].status == Interested
    ensures UnassignItem(AssignItem(s, u, inv, item, c, now).value.store, u, inv, item, now).Ok?
    ensures UnassignItem(AssignItem(s, u, inv, item, c, now).value.store, u, inv, item, now).value.store == s
  {
    var s2 := AssignItem(s, u, inv, item, c, now).value.store;
    AssignItemPreservesInvariants(s, u, inv, item, c, now);
    assert s2.claims[c].status == Assigned;
    assert HasAssignedClaim(s2, item);
    RightsDependOnMembershipsOnly(s, s2, inv, u);
    var found := AssignedClaimOn(s2, item).value;
    assert found == c;
    assert s2.claims[c := s2.claims[c].(status := Interested)] == s.claims;
  }
}
