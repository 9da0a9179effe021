/** InvitationService and the Invitation entity: creating an invitation for an
    email address, accepting it by token, listing and cancelling, and the
    choice of whom to notify when a new member joins.
 */
module Invitations {
  import opened Outcomes
  import opened Domain
  import opened Access
  import opened Events
  import Text
  import Finite

  // ---------------------------------------------------------------------------
  // The entity
  // ---------------------------------------------------------------------------

  /** How long an invitation stays valid: 7 days, in milliseconds. */
  const ExpiryDays: int := 7
  const MillisPerDay: int := 24 * 60 * 60 * 1000

  /** The role an invitation carries when none is set. */
  const DefaultRole: Role := Viewer

  /** `isExpired`: the current time is strictly after the expiry time. */
  predicate IsExpired(i: Invitation, now: Instant) {
    now > i.expiresAt
  }

  /** `isAccepted`: an acceptance time is recorded. */
  predicate IsAccepted(i: Invitation) {
    i.acceptedAt.Some?
  }

  /** `isPending`: neither accepted nor expired. */
  predicate IsPending(i: Invitation, now: Instant) {
    !IsAccepted(i) && !IsExpired(i, now)
  }

  /** An invitation stays valid up to and including its expiry instant, and
      the expiry time of a new invitation is 7 days after its creation. */
  lemma ExpiryBoundary(i: Invitation)
    ensures !IsExpired(i, i.expiresAt) && IsExpired(i, i.expiresAt + 1)
    ensures MillisPerDay * ExpiryDays == 604800000
  {
  }

  /** An invitation as a Java object: its reference and its database id, which
      is absent until the entity is saved. */
  datatype InvitationObject = InvitationObject(ref: nat, id: Option<InvitationId>)

  /** `equals`: the same object, or both ids present and equal. */
  predicate Equals(a: InvitationObject, b: InvitationObject) {
    a.ref == b.ref || (a.id.Some? && a.id == b.id)
  }

  /** `hashCode`: 0 without an id, otherwise the id's hash `h`. */
  function HashCode(a: InvitationObject, h: InvitationId -> int): (r: int)
    ensures a.id.None? ==> r == 0
  {
    match a.id
    case None => 0
    case Some(x) => h(x)
  }

  /** Two views of the same object carry the same id. */
  predicate Coherent(a: InvitationObject, b: InvitationObject) {
    a.ref == b.ref ==> a.id == b.id
  }

  /** `equals` is an equivalence on coherent objects, and an object without an
      id equals only itself. */
  lemma EqualsIsEquivalence(a: InvitationObject, b: InvitationObject, c: InvitationObject)
    requires Coherent(a, b) && Coherent(b, c) && Coherent(a, c)
    ensures Equals(a, a)
    ensures Equals(a, b) ==> Equals(b, a)
    ensures Equals(a, b) && Equals(b, c) ==> Equals(a, c)
    ensures a.id.None? ==> (Equals(a, b) <==> a.ref == b.ref)
  {
  }

  /** Equal objects have equal hash codes. */
  lemma EqualsAgreesWithHashCode(a: InvitationObject, b: InvitationObject, h: InvitationId -> int)
    requires Coherent(a, b)
    requires Equals(a, b)
    ensures HashCode(a, h) == HashCode(b, h)
  {
  }

  // ---------------------------------------------------------------------------
  // Email normalisation
  // ---------------------------------------------------------------------------

  /** What is stored for a requested address: lower-cased, then trimmed. */
  function NormalizeEmail(e: string): (r: string)
    ensures forall k :: 0 <= k < |r| ==> !('A' <= r[k] <= 'Z')
    ensures r != [] ==> !Text.IsTrimmable(r[0]) && !Text.IsTrimmable(r[|r| - 1])
    ensures |r| <= |e|
  {
    TrimKeepsNoCapitals(Text.ToLower(e));
    Text.Trim(Text.ToLower(e))
  }

  /** Trimming a string without capitals leaves none. */
  lemma TrimKeepsNoCapitals(s: string)
    requires forall k :: 0 <= k < |s| ==> !('A' <= s[k] <= 'Z')
    ensures forall k :: 0 <= k < |Text.Trim(s)| ==> !('A' <= Text.Trim(s)[k] <= 'Z')
  {
    var r := Text.Trim(s);
    var a := Text.LeadingTrimmable(s);
    assert forall k :: 0 <= k < |r| ==> r[k] == s[a + k];
  }

  /** Normalising a stored address changes nothing. */
  lemma NormalizeEmailIdempotent(e: string)
    ensures NormalizeEmail(NormalizeEmail(e)) == NormalizeEmail(e)
  {
    var r := NormalizeEmail(e);
    assert Text.ToLower(r) == r;
    Text.TrimOfTrimmed(r);
  }

  // ---------------------------------------------------------------------------
  // Lookups
  // ---------------------------------------------------------------------------

  /** The un-accepted invitations of the inventory whose stored email is
      exactly `email`. */
  function PendingFor(s: Store, inv: InventoryId, email: string): set<InvitationId> {
    set i | i in s.invitations && s.invitations[i].inventory == inv
      && s.invitations[i].email == email && !IsAccepted(s.invitations[i])
  }

  /** `findPendingByInventoryAndEmail`: despite its name it ignores expiry. */
  function FindPending(s: Store, inv: InventoryId, email: string): (r: Option<InvitationId>)
    ensures r.None? <==> PendingFor(s, inv, email) == {}
    ensures r.Some? ==> r.value in PendingFor(s, inv, email)
  {
    Finite.Least(PendingFor(s, inv, email))
  }

  /** `findByToken`. */
  function FindByToken(s: Store, token: string): (r: Option<InvitationId>)
    ensures r.None? <==> forall i :: i in s.invitations ==> s.invitations[i].token != token
    ensures r.Some? ==> r.value in s.invitations && s.invitations[r.value].token == token
  {
    assert forall i :: i in s.invitations && s.invitations[i].token == token ==> i in WithToken(s, token);
    Finite.Least(WithToken(s, token))
  }

  /** The invitations carrying the token. */
  function WithToken(s: Store, token: string): set<InvitationId> {
    set i | i in s.invitations && s.invitations[i].token == token
  }

  /** At most one un-accepted invitation per inventory and stored address. */
  ghost predicate UniquePending(s: Store) {
    forall i, j :: i in s.invitations && j in s.invitations && i != j
      && s.invitations[i].inventory == s.invitations[j].inventory
      && !IsAccepted(s.invitations[i]) && !IsAccepted(s.invitations[j])
      ==> s.invitations[i].email != s.invitations[j].email
  }

  /** No invitation uses the token yet: tokens are random and the column is
      unique. */
  predicate FreshToken(s: Store, token: string) {
    forall i :: i in s.invitations ==> s.invitations[i].token != token
  }

  /** No two invitations share a token. */
  ghost predicate UniqueTokens(s: Store) {
    forall i, j :: i in s.invitations && j in s.invitations && i != j
      ==> s.invitations[i].token != s.invitations[j].token
  }

  // ---------------------------------------------------------------------------
  // Creation
  // ---------------------------------------------------------------------------

  /** The common part of `createInvitation`: manage rights (NotAuthorized),
      then BadInput when an un-accepted invitation with stored address `key`
      exists, then the new invitation with the normalised address, the
      inviter and an expiry 7 days after `now`. `token` is the random token,
      `id` the fresh database id. */
  function CreateWithLookup(s: Store, u: UserId, inv: InventoryId, email: string, key: string, role: Role, token: string, id: InvitationId, now: Instant): (r: Result<Committed<Invitation>>)
    requires id !in s.invitations && FreshToken(s, token)
    ensures inv !in s.inventories ==> r == Fail(NotFound)
    ensures inv in s.inventories && !CanEdit(s, inv, u) ==> r == Fail(NotAuthorized)
    ensures inv in s.inventories && CanEdit(s, inv, u) && PendingFor(s, inv, key) != {} ==> r == Fail(BadInput)
    ensures r.Ok? <==> inv in s.inventories && CanEdit(s, inv, u) && PendingFor(s, inv, key) == {}
    ensures r.Ok? ==> r.value.store == s.(invitations := s.invitations[id := r.value.value])
    ensures r.Ok? ==> r.value.value == Invitation(inv, NormalizeEmail(email), role, token, u, now + ExpiryDays * MillisPerDay, None, now)
    ensures r.Ok? ==> r.value.events == []
  {
    var _ :- EditAccess(s, u, inv);
    :- Require(FindPending(s, inv, key).None?, BadInput);
    var invitation := Invitation(inv, NormalizeEmail(email), role, token, u, now + ExpiryDays * MillisPerDay, None, now);
    Ok(Committed(s.(invitations := s.invitations[id := invitation]), invitation, []))
  }

  /** `createInvitation` as written: the duplicate lookup uses the address as
      requested, while the stored address is normalised. */
  function CreateInvitationAsWritten(s: Store, u: UserId, inv: InventoryId, email: string, role: Role, token: string, id: InvitationId, now: Instant): (r: Result<Committed<Invitation>>)
    requires id !in s.invitations && FreshToken(s, token)
    ensures r.Ok? <==> inv in s.inventories && CanEdit(s, inv, u) && PendingFor(s, inv, email) == {}
    ensures r.Ok? ==> r.value.value.email == NormalizeEmail(email)
  {
    CreateWithLookup(s, u, inv, email, email, role, token, id, now)
  }

  /** `createInvitation` with the lookup on the normalised address, the one
      that is actually stored. */
  function CreateInvitation(s: Store, u: UserId, inv: InventoryId, email: string, role: Role, token: string, id: InvitationId, now: Instant): (r: Result<Committed<Invitation>>)
    requires id !in s.invitations && FreshToken(s, token)
    ensures inv !in s.inventories ==> r == Fail(NotFound)
    ensures inv in s.inventories && !CanEdit(s, inv, u) ==> r == Fail(NotAuthorized)
    ensures inv in s.inventories && CanEdit(s, inv, u) && PendingFor(s, inv, NormalizeEmail(email)) != {} ==> r == Fail(BadInput)
    ensures r.Ok? <==> inv in s.inventories && CanEdit(s, inv, u) && PendingFor(s, inv, NormalizeEmail(email)) == {}
    ensures r.Ok? ==> r.value.store == s.(invitations := s.invitations[id := r.value.value])
    ensures r.Ok? ==> r.value.value.email == NormalizeEmail(email) && r.value.value.role == role
    ensures r.Ok? ==> r.value.value.invitedBy == u && !IsAccepted(r.value.value)
    ensures r.Ok? ==> r.value.value.expiresAt == now + 604800000 && IsPending(r.value.value, now)
  {
    CreateWithLookup(s, u, inv, email, NormalizeEmail(email), role, token, id, now)
  }

  /** The corrected creation keeps at most one un-accepted invitation per
      inventory and stored address. */
  lemma CreateInvitationKeepsUniquePending(s: Store, u: UserId, inv: InventoryId, email: string, role: Role, token: string, id: InvitationId, now: Instant)
    requires id !in s.invitations && FreshToken(s, token) && UniquePending(s)
    requires CreateInvitation(s, u, inv, email, role, token, id, now).Ok?
    ensures UniquePending(CreateInvitation(s, u, inv, email, role, token, id, now).value.store)
  {
    var s2 := CreateInvitation(s, u, inv, email, role, token, id, now).value.store;
    forall i, j | i in s2.invitations && j in s2.invitations && i != j
      && s2.invitations[i].inventory == s2.invitations[j].inventory
      && !IsAccepted(s2.invitations[i]) && !IsAccepted(s2.invitations[j])
      ensures s2.invitations[i].email != s2.invitations[j].email
    {
      if i == id {
        assert j !in PendingFor(s, inv, NormalizeEmail(email));
      } else if j == id {
        assert i !in PendingFor(s, inv, NormalizeEmail(email));
      }
    }
  }

  /** The corrected creation refuses every spelling of an address that
      already has an un-accepted invitation. */
  lemma CreateInvitationRefusesRespelling(s: Store, u: UserId, inv: InventoryId, e1: string, e2: string, role: Role, token: string, id: InvitationId, now: Instant)
    requires id !in s.invitations && FreshToken(s, token)
    requires inv in s.inventories && CanEdit(s, inv, u)
    requires PendingFor(s, inv, NormalizeEmail(e1)) != {}
    requires NormalizeEmail(e2) == NormalizeEmail(e1)
    ensures CreateInvitation(s, u, inv, e2, role, token, id, now) == Fail(BadInput)
  {
  }

  /** The new invitation is found by its token, and tokens stay unique. */
  lemma CreateThenFindByToken(s: Store, u: UserId, inv: InventoryId, email: string, role: Role, token: string, id: InvitationId, now: Instant)
    requires id !in s.invitations && FreshToken(s, token) && UniqueTokens(s)
    requires CreateInvitation(s, u, inv, email, role, token, id, now).Ok?
    ensures GetInvitationByToken(CreateInvitation(s, u, inv, email, role, token, id, now).value.store, token)
            == Ok(CreateInvitation(s, u, inv, email, role, token, id, now).value.value)
    ensures UniqueTokens(CreateInvitation(s, u, inv, email, role, token, id, now).value.store)
  {
    var s2 := CreateInvitation(s, u, inv, email, role, token, id, now).value.store;
    assert WithToken(s2, token) == {id};
    Finite.LeastOfSingleton(WithToken(s2, token), id);
  }

  /** The store of the counterexample: inventory 1 owned by user 1 with an
      un-accepted invitation for "a@b". */
  function InvitedOnce(): Store {
    Store(
      map[1 := User("Ann", "Lee", "ann@x")],
      map[1 := Inventory(1, "Gifts", "")],
      map[], map[], map[], map[],
      map[1 := Invitation(1, "a@b", Viewer, "t1", 1, 604800000, None, 0)])
  }

  /** As written, inviting "A@b" passes the duplicate check and stores a
      second un-accepted invitation for "a@b". */
  lemma CreateInvitationAsWrittenDuplicates()
    ensures CreateInvitationAsWritten(InvitedOnce(), 1, 1, "A@b", Viewer, "t2", 2, 0).Ok?
    ensures !UniquePending(CreateInvitationAsWritten(InvitedOnce(), 1, 1, "A@b", Viewer, "t2", 2, 0).value.store)
    ensures CreateInvitation(InvitedOnce(), 1, 1, "A@b", Viewer, "t2", 2, 0) == Fail(BadInput)
  {
    var s := InvitedOnce();
    assert IsOwner(s, 1, 1);
    assert "t2"[1] != "t1"[1];
    assert FreshToken(s, "t2");
    assert "A@b"[0] != "a@b"[0];
    assert PendingFor(s, 1, "A@b") == {};
    var lowered := Text.ToLower("A@b");
    assert lowered == "a@b";
    assert Text.TrimStart(lowered) == lowered;
    assert Text.TrimEnd(lowered) == lowered;
    assert NormalizeEmail("A@b") == "a@b";
    assert 1 in PendingFor(s, 1, "a@b");
    var s2 := CreateInvitationAsWritten(s, 1, 1, "A@b", Viewer, "t2", 2, 0).value.store;
    assert s2.invitations[1].email == s2.invitations[2].email;
  }

  // ---------------------------------------------------------------------------
  // Acceptance
  // ---------------------------------------------------------------------------

  /** The users told about a new member of `inv`: the owner, then every ACTIVE
      ADMIN member other than the new member's own user, in membership order. */
  function Recipients(s: Store, inv: InventoryId, newUser: UserId): (r: seq<UserId>)
    requires inv in s.inventories
    ensures |r| >= 1 && r[0] == s.inventories[inv].owner
    ensures forall x :: x in r <==> x == s.inventories[inv].owner || (x != newUser && IsActiveAdmin(s, inv, x))
  {
    [s.inventories[inv].owner] + FilterOut(AdminUsers(s, inv), newUser)
  }

  /** The ACTIVE ADMIN memberships of the inventory, ascending. */
  function ActiveAdmins(s: Store, inv: InventoryId): set<MemberId> {
    set m | m in s.members && s.members[m].inventory == inv && s.members[m].role == Admin && s.members[m].status == Active
  }

  /** `findByInventoryAndRoleAndStatus(inv, ADMIN, ACTIVE)`, mapped to users. */
  function AdminUsers(s: Store, inv: InventoryId): (r: seq<UserId>)
    ensures forall x :: x in r <==> IsActiveAdmin(s, inv, x)
  {
    var admins := Finite.SortedSet(ActiveAdmins(s, inv));
    assert forall k :: 0 <= k < |admins| ==> admins[k] in ActiveAdmins(s, inv);
    var r: seq<UserId> := seq(|admins|, k requires 0 <= k < |admins| => s.members[admins[k]].user);
    forall x | IsActiveAdmin(s, inv, x)
      ensures x in r
    {
      var m :| m in s.members && IsMembership(s, m, inv, x) && s.members[m].role == Admin && s.members[m].status == Active;
      assert m in ActiveAdmins(s, inv);
      var k :| 0 <= k < |admins| && admins[k] == m;
      assert r[k] == x;
    }
    forall x | x in r
      ensures IsActiveAdmin(s, inv, x)
    {
      var k :| 0 <= k < |r| && r[k] == x;
      assert admins[k] in ActiveAdmins(s, inv);
    }
    r
  }

  /** The user holds an ACTIVE ADMIN membership of the inventory. */
  predicate IsActiveAdmin(s: Store, inv: InventoryId, x: UserId) {
    exists m :: m in s.members && IsMembership(s, m, inv, x) && s.members[m].role == Admin && s.members[m].status == Active
  }

  /** The elements of `xs` other than `y`, in order. */
  function FilterOut(xs: seq<UserId>, y: UserId): (r: seq<UserId>)
    ensures forall x :: x in r <==> x in xs && x != y
  {
    if xs == [] then []
    else if xs[0] == y then FilterOut(xs[1..], y)
    else [xs[0]] + FilterOut(xs[1..], y)
  }

  /** What a successful acceptance returns: the new membership and the users
      notified about it. */
  datatype Acceptance = Acceptance(member: MemberId, notified: seq<UserId>)

  /** `acceptInvitation` by user `u`: NotFound for an unknown token; BadInput
      when already accepted; BadInput when expired; NotAuthorized when the
      address differs up to case; BadInput when `u` already has a membership.
      Otherwise the invitation is stamped accepted and one PENDING membership
      with its role is created. `m` is the fresh membership id. */
  function AcceptInvitation(s: Store, token: string, u: UserId, m: MemberId, now: Instant): (r: Result<Committed<Acceptance>>)
    requires u in s.users && m !in s.members
    requires forall i :: i in s.invitations ==> s.invitations[i].inventory in s.inventories
    ensures FindByToken(s, token).None? ==> r == Fail(NotFound)
    ensures FindByToken(s, token).Some? ==> (
      var i := s.invitations[FindByToken(s, token).value];
      (IsAccepted(i) ==> r == Fail(BadInput))
      && (!IsAccepted(i) && IsExpired(i, now) ==> r == Fail(BadInput))
      && (IsPending(i, now) && !Text.EqualsIgnoreCase(i.email, s.users[u].email) ==> r == Fail(NotAuthorized))
      && (IsPending(i, now) && Text.EqualsIgnoreCase(i.email, s.users[u].email) && MembershipOf(s, i.inventory, u).Some? ==> r == Fail(BadInput)))
    ensures r.Ok? <==> (FindByToken(s, token).Some? && (
      var i := s.invitations[FindByToken(s, token).value];
      IsPending(i, now) && Text.EqualsIgnoreCase(i.email, s.users[u].email) && MembershipOf(s, i.inventory, u).None?))
    ensures r.Ok? ==> (
      var id := FindByToken(s, token).value;
      var i := s.invitations[id];
      r.value.store == s.(invitations := s.invitations[id := i.(acceptedAt := Some(now))],
                          members := s.members[m := Member(i.inventory, u, i.role, Pending, None)])
      && r.value.value.member == m
      && r.value.value.notified == Recipients(r.value.store, i.inventory, u))
    ensures r.Ok? ==> r.value.events == []
  {
    match FindByToken(s, token)
    case None => Fail(NotFound)
    case Some(id) =>
      var i := s.invitations[id];
      :- Require(!IsAccepted(i), BadInput);
      :- Require(!IsExpired(i, now), BadInput);
      :- Require(Text.EqualsIgnoreCase(i.email, s.users[u].email), NotAuthorized);
      :- Require(MembershipOf(s, i.inventory, u).None?, BadInput);
      var s2 := s.(invitations := s.invitations[id := i.(acceptedAt := Some(now))],
                   members := s.members[m := Member(i.inventory, u, i.role, Pending, None)]);
      Ok(Committed(s2, Acceptance(m, Recipients(s2, i.inventory, u)), []))
  }

  /** Acceptance keeps memberships unique: it adds one only where there was
      none. */
  lemma AcceptKeepsUniqueMemberships(s: Store, token: string, u: UserId, m: MemberId, now: Instant)
    requires u in s.users && m !in s.members
    requires forall i :: i in s.invitations ==> s.invitations[i].inventory in s.inventories
    requires UniqueMemberships(s)
    requires AcceptInvitation(s, token, u, m, now).Ok?
    ensures UniqueMemberships(AcceptInvitation(s, token, u, m, now).value.store)
  {
    var s2 := AcceptInvitation(s, token, u, m, now).value.store;
    var inv := s.invitations[FindByToken(s, token).value].inventory;
    assert MembershipsOf(s, inv, u) == {};
    forall m1, m2 | m1 in s2.members && m2 in s2.members && m1 != m2
      && s2.members[m1].inventory == s2.members[m2].inventory
      ensures s2.members[m1].user != s2.members[m2].user
    {
      if m1 == m {
        assert m2 !in MembershipsOf(s, inv, u);
      } else if m2 == m {
        assert m1 !in MembershipsOf(s, inv, u);
      }
    }
  }

  /** Acceptance only retires an invitation, so it keeps pending invitations
      unique. */
  lemma AcceptKeepsUniquePending(s: Store, token: string, u: UserId, m: MemberId, now: Instant)
    requires u in s.users && m !in s.members
    requires forall i :: i in s.invitations ==> s.invitations[i].inventory in s.inventories
    requires UniquePending(s)
    requires AcceptInvitation(s, token, u, m, now).Ok?
    ensures UniquePending(AcceptInvitation(s, token, u, m, now).value.store)
  {
  }

  /** A token is accepted at most once: repeating the acceptance is BadInput. */
  lemma AcceptTwiceFails(s: Store, token: string, u: UserId, m1: MemberId, m2: MemberId, t1: Instant, t2: Instant)
    requires u in s.users && m1 !in s.members
    requires forall i :: i in s.invitations ==> s.invitations[i].inventory in s.inventories
    requires AcceptInvitation(s, token, u, m1, t1).Ok?
    requires m2 !in AcceptInvitation(s, token, u, m1, t1).value.store.members
    ensures AcceptInvitation(AcceptInvitation(s, token, u, m1, t1).value.store, token, u, m2, t2) == Fail(BadInput)
  {
    var s1 := AcceptInvitation(s, token, u, m1, t1).value.store;
    assert WithToken(s1, token) == WithToken(s, token);
  }

  /** The new member's user is notified only when it is the owner. */
  lemma NewMemberNotNotifiedAsAdmin(s: Store, token: string, u: UserId, m: MemberId, now: Instant)
    requires u in s.users && m !in s.members
    requires forall i :: i in s.invitations ==> s.invitations[i].inventory in s.inventories
    requires AcceptInvitation(s, token, u, m, now).Ok?
    ensures u in AcceptInvitation(s, token, u, m, now).value.value.notified
            <==> u == s.inventories[s.invitations[FindByToken(s, token).value].inventory].owner
  {
  }

  // ---------------------------------------------------------------------------
  // Reads and cancellation
  // ---------------------------------------------------------------------------

  /** `getInvitationByToken`. */
  function GetInvitationByToken(s: Store, token: string): (r: Result<Invitation>)
    ensures r.Fail? <==> FindByToken(s, token).None?
    ensures r.Fail? ==> r.error == NotFound
    ensures r.Ok? ==> r.value.token == token && r.value in s.invitations.Values
  {
    match FindByToken(s, token)
    case None => Fail(NotFound)
    case Some(id) => Ok(s.invitations[id])
  }

  /** The order key of `findPendingByInventory`: newest first. */
  function NewestFirst(s: Store, i: InvitationId): seq<int> {
    if i in s.invitations then [-s.invitations[i].createdAt] else []
  }

  /** `getPendingInvitations`: the un-accepted invitations of the inventory,
      expired ones included, newest first. */
  function GetPendingInvitations(s: Store, u: UserId, inv: InventoryId): (r: Result<seq<InvitationId>>)
    ensures inv !in s.inventories ==> r == Fail(NotFound)
    ensures inv in s.inventories && !CanEdit(s, inv, u) ==> r == Fail(NotAuthorized)
    ensures r.Ok? <==> inv in s.inventories && CanEdit(s, inv, u)
    ensures r.Ok? ==> forall i :: i in r.value <==> i in s.invitations && s.invitations[i].inventory == inv && !IsAccepted(s.invitations[i])
    ensures r.Ok? ==> Finite.SortedBy(r.value, i => NewestFirst(s, i))
  {
    var _ :- EditAccess(s, u, inv);
    var ids := Finite.SortedSet(set i | i in s.invitations && s.invitations[i].inventory == inv && !IsAccepted(s.invitations[i]));
    Finite.SortBySameElements(ids, i => NewestFirst(s, i));
    Finite.SortBySorted(ids, i => NewestFirst(s, i));
    Ok(Finite.SortBy(ids, i => NewestFirst(s, i)))
  }

  /** `cancelInvitation`: NotFound for an unknown id, NotAuthorized without
      manage rights on the invitation's inventory; otherwise the invitation is
      deleted, whatever its state. */
  function CancelInvitation(s: Store, u: UserId, id: InvitationId): (r: Result<Committed<()>>)
    ensures id !in s.invitations ==> r == Fail(NotFound)
    ensures id in s.invitations && !CanEdit(s, s.invitations[id].inventory, u) ==> r == Fail(NotAuthorized)
    ensures r.Ok? <==> id in s.invitations && CanEdit(s, s.invitations[id].inventory, u)
    ensures r.Ok? ==> r.value.store == s.(invitations := s.invitations - {id}) && r.value.events == []
  {
    if id !in s.invitations then Fail(NotFound)
    else
      :- Require(CanEdit(s, s.invitations[id].inventory, u), NotAuthorized);
      Ok(Committed(s.(invitations := s.invitations - {id}), (), []))
  }

  /** Cancelling keeps pending invitations unique. */
  lemma CancelKeepsUniquePending(s: Store, u: UserId, id: InvitationId)
    requires UniquePending(s) && CancelInvitation(s, u, id).Ok?
    ensures UniquePending(CancelInvitation(s, u, id).value.store)
  {
  }
}
