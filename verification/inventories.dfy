/** InventoryService: the inventories a user sees, reading one (which
    activates a PENDING membership), and the owner's create, rename and
    delete with one name per owner.
 */
module Inventories {
  import opened Outcomes
  import opened Domain
  import opened Access
  import opened Events
  import Finite
  import Members

  // ---------------------------------------------------------------------------
  // Listing
  // ---------------------------------------------------------------------------

  /** One row of the listing. The owner's rows carry no membership role in
      `getInventory` (`None`) and ADMIN in `getInventories`. */
  datatype InventoryWithMeta = InventoryWithMeta(inventory: InventoryId, isOwner: bool, userRole: Option<Role>, itemCount: nat)

  /** `countByInventoryAndIsDeletedFalse`. */
  function LiveItemCount(s: Store, inv: InventoryId): nat {
    |set i | i in s.items && IsLiveItem(s, inv, i)|
  }

  /** `findByOwner`. */
  function Owned(s: Store, u: UserId): set<InventoryId> {
    set x | x in s.inventories && s.inventories[x].owner == u
  }

  /** The memberships `getInventories` lists: `u`'s ACTIVE memberships of
      inventories `u` does not own. */
  function ForeignActive(s: Store, u: UserId): set<MemberId> {
    set m | m in s.members && s.members[m].user == u && s.members[m].status == Active
      && s.members[m].inventory in s.inventories && s.inventories[s.members[m].inventory].owner != u
  }

  /** The inventories of the rows, in row order. */
  function InventoryIds(rows: seq<InventoryWithMeta>): (r: seq<InventoryId>)
    ensures |r| == |rows| && forall k :: 0 <= k < |rows| ==> r[k] == rows[k].inventory
  {
    seq(|rows|, k requires 0 <= k < |rows| => rows[k].inventory)
  }

  /** A row listing an owned inventory. */
  predicate OwnerRow(s: Store, u: UserId, row: InventoryWithMeta) {
    row.isOwner && row.userRole == Some(Admin) && IsOwner(s, row.inventory, u)
  }

  /** A row listing a membership in ForeignActive, with that membership's role. */
  predicate MemberRow(s: Store, u: UserId, row: InventoryWithMeta) {
    !row.isOwner
    && exists m :: m in ForeignActive(s, u) && row.inventory == s.members[m].inventory && row.userRole == Some(s.members[m].role)
  }

  /** The rows for the owned inventories, in id order. */
  function OwnedRows(s: Store, u: UserId): (r: seq<InventoryWithMeta>)
    ensures forall k :: 0 <= k < |r| ==> OwnerRow(s, u, r[k]) && r[k].itemCount == LiveItemCount(s, r[k].inventory)
    ensures forall x :: IsOwner(s, x, u) ==> x in InventoryIds(r)
    ensures forall k, l :: 0 <= k < l < |r| ==> r[k].inventory != r[l].inventory
  {
    var ids := Finite.SortedSet(Owned(s, u));
    assert forall k :: 0 <= k < |ids| ==> ids[k] in Owned(s, u);
    var r := seq(|ids|, k requires 0 <= k < |ids| => InventoryWithMeta(ids[k], true, Some(Admin), LiveItemCount(s, ids[k])));
    forall x | IsOwner(s, x, u)
      ensures x in InventoryIds(r)
    {
      assert x in Owned(s, u);
      var k :| 0 <= k < |ids| && ids[k] == x;
      assert InventoryIds(r)[k] == x;
    }
    r
  }

  /** The rows for the listed memberships, in membership order. */
  function MemberRows(s: Store, u: UserId): (r: seq<InventoryWithMeta>)
    ensures forall k :: 0 <= k < |r| ==> MemberRow(s, u, r[k]) && r[k].itemCount == LiveItemCount(s, r[k].inventory)
    ensures forall m :: m in ForeignActive(s, u) ==> s.members[m].inventory in InventoryIds(r)
  {
    var ms := Finite.SortedSet(ForeignActive(s, u));
    assert forall k :: 0 <= k < |ms| ==> ms[k] in ForeignActive(s, u);
    var r := seq(|ms|, k requires 0 <= k < |ms| => InventoryWithMeta(s.members[ms[k]].inventory, false, Some(s.members[ms[k]].role), LiveItemCount(s, s.members[ms[k]].inventory)));
    forall k | 0 <= k < |r|
      ensures MemberRow(s, u, r[k])
    {
      assert ms[k] in ForeignActive(s, u);
    }
    forall m | m in ForeignActive(s, u)
      ensures s.members[m].inventory in InventoryIds(r)
    {
      var k :| 0 <= k < |ms| && ms[k] == m;
      assert InventoryIds(r)[k] == s.members[m].inventory;
    }
    r
  }

  /** `getInventories`: every owned inventory with role ADMIN, then every
      ACTIVE membership of an inventory the user does not own, each with its
      count of non-deleted items. */
  function GetInventories(s: Store, u: UserId): (r: seq<InventoryWithMeta>)
    ensures forall k, l :: 0 <= k < l < |r| && r[l].isOwner ==> r[k].isOwner
    ensures forall k :: 0 <= k < |r| ==> OwnerRow(s, u, r[k]) || MemberRow(s, u, r[k])
    ensures forall k :: 0 <= k < |r| ==> r[k].itemCount == LiveItemCount(s, r[k].inventory)
    ensures forall x :: IsOwner(s, x, u) ==> x in InventoryIds(r)
    ensures forall m :: m in ForeignActive(s, u) ==> s.members[m].inventory in InventoryIds(r)
  {
    var owned := OwnedRows(s, u);
    var joined := MemberRows(s, u);
    JoinedIds(owned, joined);
    owned + joined
  }

  /** The ids of joined rows are the ids of both parts. */
  lemma JoinedIds(a: seq<InventoryWithMeta>, b: seq<InventoryWithMeta>)
    ensures forall x :: x in InventoryIds(a + b) <==> x in InventoryIds(a) || x in InventoryIds(b)
  {
    assert InventoryIds(a + b) == InventoryIds(a) + InventoryIds(b);
  }

  /** With one membership per user and inventory, the listing names exactly
      the inventories the user may view. */
  lemma GetInventoriesListsViewable(s: Store, u: UserId)
    requires UniqueMemberships(s)
    ensures forall x :: x in InventoryIds(GetInventories(s, u)) <==> x in s.inventories && CanView(s, x, u)
  {
    var r := GetInventories(s, u);
    forall x
      ensures x in InventoryIds(r) <==> x in s.inventories && CanView(s, x, u)
    {
      if x in InventoryIds(r) {
        var k :| 0 <= k < |r| && r[k].inventory == x;
        if !OwnerRow(s, u, r[k]) {
          var m :| m in ForeignActive(s, u) && x == s.members[m].inventory && r[k].userRole == Some(s.members[m].role);
          MembershipOfUnique(s, x, u, m);
        }
      }
      if x in s.inventories && CanView(s, x, u) && !IsOwner(s, x, u) {
        var m := MembershipOf(s, x, u).value;
        assert m in ForeignActive(s, u);
      }
    }
  }

  /** With one membership per user and inventory, no two member rows name
      the same inventory. */
  lemma MemberRowsHaveNoRepeats(s: Store, u: UserId)
    requires UniqueMemberships(s)
    ensures forall i, j :: 0 <= i < j < |MemberRows(s, u)| ==> MemberRows(s, u)[i].inventory != MemberRows(s, u)[j].inventory
  {
    var ms := Finite.SortedSet(ForeignActive(s, u));
    var joined := MemberRows(s, u);
    assert |joined| == |ms|;
    forall i, j | 0 <= i < j < |joined|
      ensures joined[i].inventory != joined[j].inventory
    {
      assert ms[i] in ForeignActive(s, u) && ms[j] in ForeignActive(s, u) && ms[i] != ms[j];
      assert joined[i].inventory == s.members[ms[i]].inventory;
      assert joined[j].inventory == s.members[ms[j]].inventory;
    }
  }

  /** An owned inventory is never listed as a membership row. */
  lemma OwnedAndMemberRowsDiffer(s: Store, u: UserId)
    ensures forall k, l :: 0 <= k < |OwnedRows(s, u)| && 0 <= l < |MemberRows(s, u)| ==> OwnedRows(s, u)[k].inventory != MemberRows(s, u)[l].inventory
  {
    var owned := OwnedRows(s, u);
    var joined := MemberRows(s, u);
    forall k, l | 0 <= k < |owned| && 0 <= l < |joined|
      ensures owned[k].inventory != joined[l].inventory
    {
      assert OwnerRow(s, u, owned[k]) && MemberRow(s, u, joined[l]);
    }
  }

  /** Two repeat-free listings with no inventory in common join into a
      repeat-free listing. */
  lemma JoinedHaveNoRepeats(a: seq<InventoryWithMeta>, b: seq<InventoryWithMeta>)
    requires forall k, l :: 0 <= k < l < |a| ==> a[k].inventory != a[l].inventory
    requires forall k, l :: 0 <= k < l < |b| ==> b[k].inventory != b[l].inventory
    requires forall k, l :: 0 <= k < |a| && 0 <= l < |b| ==> a[k].inventory != b[l].inventory
    ensures forall k, l :: 0 <= k < l < |a + b| ==> (a + b)[k].inventory != (a + b)[l].inventory
  {
    forall k, l | 0 <= k < l < |a + b|
      ensures (a + b)[k].inventory != (a + b)[l].inventory
    {
      if l < |a| {
        assert (a + b)[k] == a[k] && (a + b)[l] == a[l];
      } else if k < |a| {
        assert (a + b)[k] == a[k] && (a + b)[l] == b[l - |a|];
      } else {
        assert (a + b)[k] == b[k - |a|] && (a + b)[l] == b[l - |a|];
      }
    }
  }

  /** With one membership per user and inventory, no inventory is listed
      twice: owned ones are listed only as owned. */
  lemma GetInventoriesHasNoRepeats(s: Store, u: UserId)
    requires UniqueMemberships(s)
    ensures forall k, l :: 0 <= k < l < |GetInventories(s, u)| ==> GetInventories(s, u)[k].inventory != GetInventories(s, u)[l].inventory
  {
    MemberRowsHaveNoRepeats(s, u);
    OwnedAndMemberRowsDiffer(s, u);
    JoinedHaveNoRepeats(OwnedRows(s, u), MemberRows(s, u));
    assert GetInventories(s, u) == OwnedRows(s, u) + MemberRows(s, u);
  }

  // ---------------------------------------------------------------------------
  // Reading one inventory
  // ---------------------------------------------------------------------------

  /** `getInventory`: NotFound for an unknown inventory; for a non-owner,
      NotAuthorized without a membership; a PENDING membership is made ACTIVE
      by this access; any status other than ACTIVE after that is
      NotAuthorized. The owner's row carries no role. */
  function GetInventory(s: Store, u: UserId, inv: InventoryId): (r: Result<Committed<InventoryWithMeta>>)
    ensures inv !in s.inventories ==> r == Fail(NotFound)
    ensures inv in s.inventories && !IsOwner(s, inv, u) && MembershipOf(s, inv, u).None? ==> r == Fail(NotAuthorized)
    ensures r.Ok? <==> (inv in s.inventories && (IsOwner(s, inv, u)
      || (MembershipOf(s, inv, u).Some? && s.members[MembershipOf(s, inv, u).value].status != Inactive)))
    ensures r.Fail? && inv in s.inventories ==> r.error == NotAuthorized
    ensures r.Ok? ==> CanView(r.value.store, inv, u) && r.value.events == []
    ensures r.Ok? ==> r.value.value == InventoryWithMeta(inv, IsOwner(s, inv, u),
      if IsOwner(s, inv, u) then None else Some(s.members[MembershipOf(s, inv, u).value].role), LiveItemCount(s, inv))
    ensures r.Ok? && (IsOwner(s, inv, u) || s.members[MembershipOf(s, inv, u).value].status == Active) ==> r.value.store == s
    ensures r.Ok? && !IsOwner(s, inv, u) && s.members[MembershipOf(s, inv, u).value].status == Pending ==> (
      var m := MembershipOf(s, inv, u).value;
      r.value.store == s.(members := s.members[m := s.members[m].(status := Active)]))
  {
    var _ :- FindInventory(s, inv);
    if IsOwner(s, inv, u) then
      Ok(Committed(s, InventoryWithMeta(inv, true, None, LiveItemCount(s, inv)), []))
    else
      match MembershipOf(s, inv, u)
      case None => Fail(NotAuthorized)
      case Some(m) =>
        var s2 := Members.ActivateMemberOnFirstAccess(s, u, inv).value;
        :- Require(s2.members[m].status == Active, NotAuthorized);
        assert MembershipsOf(s2, inv, u) == MembershipsOf(s, inv, u);
        Ok(Committed(s2, InventoryWithMeta(inv, false, Some(s.members[m].role), LiveItemCount(s, inv)), []))
  }

  /** The first read activates a PENDING membership; reading again changes
      nothing and returns the same row. */
  lemma GetInventoryTwiceIsStable(s: Store, u: UserId, inv: InventoryId)
    requires GetInventory(s, u, inv).Ok?
    ensures GetInventory(GetInventory(s, u, inv).value.store, u, inv)
            == Ok(Committed(GetInventory(s, u, inv).value.store, GetInventory(s, u, inv).value.value, []))
  {
    var s2 := GetInventory(s, u, inv).value.store;
    assert MembershipsOf(s2, inv, u) == MembershipsOf(s, inv, u);
    assert (set i | i in s2.items && IsLiveItem(s2, inv, i)) == (set i | i in s.items && IsLiveItem(s, inv, i));
  }

  // ---------------------------------------------------------------------------
  // Owner's changes
  // ---------------------------------------------------------------------------

  /** The inventories of `owner` named `name`. */
  function NamedBy(s: Store, owner: UserId, name: string): set<InventoryId> {
    set x | x in s.inventories && s.inventories[x].owner == owner && s.inventories[x].name == name
  }

  /** `findByOwnerAndName`. */
  function FindByOwnerAndName(s: Store, owner: UserId, name: string): (r: Option<InventoryId>)
    ensures r.None? <==> NamedBy(s, owner, name) == {}
    ensures r.Some? ==> r.value in NamedBy(s, owner, name)
  {
    Finite.Least(NamedBy(s, owner, name))
  }

  /** No owner has two inventories of the same name. */
  ghost predicate UniqueInventoryNames(s: Store) {
    forall x, y :: x in s.inventories && y in s.inventories && x != y
      && s.inventories[x].owner == s.inventories[y].owner
      ==> s.inventories[x].name != s.inventories[y].name
  }

  /** `createInventory`: BadInput when the owner already has an inventory of
      that name; otherwise a new inventory owned by the caller. `id` is the
      fresh database id. */
  function CreateInventory(s: Store, owner: UserId, name: string, description: string, id: InventoryId): (r: Result<Store>)
    requires id !in s.inventories
    ensures r.Fail? <==> NamedBy(s, owner, name) != {}
    ensures r.Fail? ==> r.error == BadInput
    ensures r.Ok? ==> r.value == s.(inventories := s.inventories[id := Inventory(owner, name, description)])
    ensures r.Ok? ==> IsOwner(r.value, id, owner)
  {
    if FindByOwnerAndName(s, owner, name).Some? then Fail(BadInput)
    else Ok(s.(inventories := s.inventories[id := Inventory(owner, name, description)]))
  }

  /** Creation keeps names unique per owner. */
  lemma CreateInventoryKeepsNames(s: Store, owner: UserId, name: string, description: string, id: InventoryId)
    requires id !in s.inventories && UniqueInventoryNames(s)
    requires CreateInventory(s, owner, name, description, id).Ok?
    ensures UniqueInventoryNames(CreateInventory(s, owner, name, description, id).value)
  {
    var s2 := CreateInventory(s, owner, name, description, id).value;
    forall x, y | x in s2.inventories && y in s2.inventories && x != y
      && s2.inventories[x].owner == s2.inventories[y].owner
      ensures s2.inventories[x].name != s2.inventories[y].name
    {
      if x == id {
        assert y !in NamedBy(s, owner, name);
      } else if y == id {
        assert x !in NamedBy(s, owner, name);
      }
    }
  }

  /** `updateInventory`: NotFound for an unknown inventory, NotAuthorized for
      anyone but the owner, BadInput when the name lookup finds another of the
      owner's inventories; otherwise the name and description change. */
  function UpdateInventory(s: Store, u: UserId, inv: InventoryId, name: string, description: string): (r: Result<Store>)
    ensures inv !in s.inventories ==> r == Fail(NotFound)
    ensures inv in s.inventories && !IsOwner(s, inv, u) ==> r == Fail(NotAuthorized)
    ensures r.Ok? <==> IsOwner(s, inv, u) && FindByOwnerAndName(s, u, name) in {None, Some(inv)}
    ensures r.Fail? && IsOwner(s, inv, u) ==> r.error == BadInput
    ensures r.Ok? ==> r.value == s.(inventories := s.inventories[inv := Inventory(u, name, description)])
  {
    var _ :- FindInventory(s, inv);
    :- Require(IsOwner(s, inv, u), NotAuthorized);
    :- Require(FindByOwnerAndName(s, u, name) in {None, Some(inv)}, BadInput);
    Ok(s.(inventories := s.inventories[inv := s.inventories[inv].(name := name, description := description)]))
  }

  /** With unique names, renaming fails exactly when another inventory of the
      owner has the name, and success keeps names unique. */
  lemma UpdateInventoryRespectsNames(s: Store, u: UserId, inv: InventoryId, name: string, description: string)
    requires UniqueInventoryNames(s) && IsOwner(s, inv, u)
    ensures UpdateInventory(s, u, inv, name, description).Ok? <==> NamedBy(s, u, name) - {inv} == {}
    ensures UpdateInventory(s, u, inv, name, description).Ok? ==> UniqueInventoryNames(UpdateInventory(s, u, inv, name, description).value)
  {
    if NamedBy(s, u, name) - {inv} == {} {
      assert NamedBy(s, u, name) <= {inv};
    } else {
      var y :| y in NamedBy(s, u, name) - {inv};
      if inv in NamedBy(s, u, name) {
        assert false;
      }
      assert FindByOwnerAndName(s, u, name) != Some(inv);
    }
    if UpdateInventory(s, u, inv, name, description).Ok? {
      var s2 := UpdateInventory(s, u, inv, name, description).value;
      forall x, y | x in s2.inventories && y in s2.inventories && x != y
        && s2.inventories[x].owner == s2.inventories[y].owner
        ensures s2.inventories[x].name != s2.inventories[y].name
      {
        if x == inv {
          assert y !in NamedBy(s, u, name);
        } else if y == inv {
          assert x !in NamedBy(s, u, name);
        }
      }
    }
  }

  /** `deleteInventory`: anyone but the owner gets NotFound, whether or not
      the inventory exists; the owner's inventory is removed. */
  function DeleteInventory(s: Store, u: UserId, inv: InventoryId): (r: Result<Store>)
    ensures r.Fail? <==> !IsOwner(s, inv, u)
    ensures r.Fail? ==> r.error == NotFound
    ensures r.Ok? ==> r.value == s.(inventories := s.inventories - {inv})
    ensures r.Ok? ==> UniqueInventoryNames(s) ==> UniqueInventoryNames(r.value)
  {
    if !IsOwner(s, inv, u) then Fail(NotFound)
    else Ok(s.(inventories := s.inventories - {inv}))
  }
}
