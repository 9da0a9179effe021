/** The persistent entities of the registry and the abstract store that holds
    them, with the repository finders the services use.

    Each JPA repository becomes a finite map from id to entity. An `Optional`
    finder whose query could in principle match several rows is modelled as
    the least matching id, so every lookup is a deterministic function; an
    `exists…` query is an existential over the map.
 */
module Domain {
  import opened Outcomes
  import Finite

  type UserId = nat
  type InventoryId = nat
  type MemberId = nat
  type CategoryId = nat
  type ItemId = nat
  type ClaimId = nat
  type InvitationId = nat

  /** A point in time, in milliseconds since the epoch. */
  type Instant = int

  /** Raw image data; empty when there is none. */
  type Bytes = seq<bv8>

  datatype Role = Admin | Claimant | Viewer

  /** `Inactive` stands for every membership status other than PENDING and ACTIVE. */
  datatype MemberStatus = Pending | Active | Inactive

  datatype ClaimStatus = Interested | Assigned

  datatype User = User(firstName: string, lastName: string, email: string)

  datatype Inventory = Inventory(owner: UserId, name: string, description: string)

  /** A user's membership of an inventory. The owner normally has none. */
  datatype Member = Member(
    inventory: InventoryId,
    user: UserId,
    role: Role,
    status: MemberStatus,
    finishedAt: Option<Instant>)

  datatype Category = Category(
    inventory: InventoryId,
    name: string,
    description: string,
    displayOrder: int,
    hidden: bool)

  datatype Item = Item(
    inventory: InventoryId,
    category: Option<CategoryId>,
    referenceNumber: int,
    description: string,
    image: Bytes,
    thumbnail: Bytes,
    isDeleted: bool,
    isCollected: bool,
    createdAt: Instant,
    updatedAt: Instant)

  /** One user's interest in one item. "No interest" is the absence of a claim. */
  datatype Claim = Claim(item: ItemId, user: UserId, status: ClaimStatus)

  datatype Invitation = Invitation(
    inventory: InventoryId,
    email: string,
    role: Role,
    token: string,
    invitedBy: UserId,
    expiresAt: Instant,
    acceptedAt: Option<Instant>,
    createdAt: Instant)

  /** The database: one table per entity, keyed by id. */
  datatype Store = Store(
    users: map<UserId, User>,
    inventories: map<InventoryId, Inventory>,
    members: map<MemberId, Member>,
    categories: map<CategoryId, Category>,
    items: map<ItemId, Item>,
    claims: map<ClaimId, Claim>,
    invitations: map<InvitationId, Invitation>)

  // ---------------------------------------------------------------------------
  // Finders
  // ---------------------------------------------------------------------------

  /** `inventoryRepository.findById`, failing with NotFound. */
  function FindInventory(s: Store, inv: InventoryId): (r: Result<Inventory>)
    ensures r.Ok? <==> inv in s.inventories
    ensures r.Ok? ==> r.value == s.inventories[inv]
    ensures r.Fail? ==> r.error == NotFound
  {
    if inv in s.inventories then Ok(s.inventories[inv]) else Fail(NotFound)
  }

  /** Membership `m` is user `u`'s membership of inventory `inv`. */
  predicate IsMembership(s: Store, m: MemberId, inv: InventoryId, u: UserId) {
    m in s.members && s.members[m].inventory == inv && s.members[m].user == u
  }

  /** The ids of the memberships of user `u` in inventory `inv`. */
  function MembershipsOf(s: Store, inv: InventoryId, u: UserId): set<MemberId> {
    set m | m in s.members && IsMembership(s, m, inv, u)
  }

  /** `memberRepository.findByInventoryAndUser`. */
  function MembershipOf(s: Store, inv: InventoryId, u: UserId): (r: Option<MemberId>)
    ensures r.None? <==> MembershipsOf(s, inv, u) == {}
    ensures r.Some? ==> IsMembership(s, r.value, inv, u)
  {
    Finite.Least(MembershipsOf(s, inv, u))
  }

  /** `findByInventoryAndIdAndIsDeletedFalse`: a non-deleted item of the inventory. */
  predicate IsLiveItem(s: Store, inv: InventoryId, id: ItemId) {
    id in s.items && s.items[id].inventory == inv && !s.items[id].isDeleted
  }

  /** `findByInventoryAndId`: an item of the inventory, deleted or not. */
  predicate IsItemOf(s: Store, inv: InventoryId, id: ItemId) {
    id in s.items && s.items[id].inventory == inv
  }

  /** `categoryRepository.findByInventoryAndId`. */
  predicate IsCategoryOf(s: Store, inv: InventoryId, id: CategoryId) {
    id in s.categories && s.categories[id].inventory == inv
  }

  /** The ids of all claims on an item (`claimRepository.findByItem`). */
  function ClaimsOn(s: Store, item: ItemId): set<ClaimId> {
    set c | c in s.claims && s.claims[c].item == item
  }

  /** `claimRepository.findByItemAndUser`. */
  function ClaimOf(s: Store, item: ItemId, u: UserId): (r: Option<ClaimId>)
    ensures r.None? <==> forall c :: c in s.claims ==> !(s.claims[c].item == item && s.claims[c].user == u)
    ensures r.Some? ==> r.value in s.claims && s.claims[r.value].item == item && s.claims[r.value].user == u
  {
    var matching := set c | c in s.claims && s.claims[c].item == item && s.claims[c].user == u;
    assert forall c :: c in s.claims && s.claims[c].item == item && s.claims[c].user == u ==> c in matching;
    Finite.Least(matching)
  }

  /** `claimRepository.findByItemAndStatus(item, ASSIGNED)`. */
  function AssignedClaimOn(s: Store, item: ItemId): (r: Option<ClaimId>)
    ensures r.None? <==> !HasAssignedClaim(s, item)
    ensures r.Some? ==> r.value in s.claims
    ensures r.Some? ==> s.claims[r.value].item == item && s.claims[r.value].status == Assigned
  {
    var matching := set c | c in s.claims && s.claims[c].item == item && s.claims[c].status == Assigned;
    assert forall c :: c in s.claims && s.claims[c].item == item && s.claims[c].status == Assigned ==> c in matching;
    Finite.Least(matching)
  }

  /** `claimRepository.existsByItemAndStatus(item, ASSIGNED)`. */
  predicate HasAssignedClaim(s: Store, item: ItemId) {
    exists c :: c in s.claims && s.claims[c].item == item && s.claims[c].status == Assigned
  }

  /** "first last", the display name the services build for a user. */
  function DisplayName(s: Store, u: UserId): string {
    if u in s.users then s.users[u].firstName + " " + s.users[u].lastName else ""
  }

  // ---------------------------------------------------------------------------
  // Store-wide integrity the database schema maintains
  // ---------------------------------------------------------------------------

  /** A user holds at most one membership per inventory. */
  ghost predicate UniqueMemberships(s: Store) {
    forall m1, m2 :: m1 in s.members && m2 in s.members && m1 != m2
      && s.members[m1].inventory == s.members[m2].inventory
      ==> s.members[m1].user != s.members[m2].user
  }

  /** Under unique memberships, the membership lookup returns the one membership. */
  lemma MembershipOfUnique(s: Store, inv: InventoryId, u: UserId, m: MemberId)
    requires UniqueMemberships(s)
    requires IsMembership(s, m, inv, u)
    ensures MembershipOf(s, inv, u) == Some(m)
  {
    Finite.LeastOfSingleton(MembershipsOf(s, inv, u), m);
  }
}
