/** `getAllClaims`: the manager's overview of who claimed what in one
    inventory. The owner's row comes first; then one row per ACTIVE ADMIN or
    CLAIMANT member other than the owner, ordered by display name without
    regard to case. Each claimed item carries how many claims it has in all.
 */
module ClaimReport {
  import opened Outcomes
  import opened Domain
  import opened Access
  import Finite
  import Text

  /** One claim in a row: the item, the claim's status, whether the item has
      been collected, and the number of claims on the item. */
  datatype ClaimedItem = ClaimedItem(
    item: ItemId,
    claim: ClaimId,
    status: ClaimStatus,
    isCollected: bool,
    claimCount: nat)

  /** One row of the report (AllClaimsResponseDTO as the service builds it). */
  datatype MemberClaims = MemberClaims(
    userId: UserId,
    memberId: Option<MemberId>,
    userName: string,
    role: Option<Role>,
    isFinished: bool,
    claims: seq<ClaimedItem>)

  /** The claims on items of the inventory (`findAllByInventoryId`), in
      ascending id order. */
  function InventoryClaims(s: Store, inv: InventoryId): (r: seq<ClaimId>)
    ensures forall c :: c in r <==> c in s.claims && IsItemOf(s, inv, s.claims[c].item)
    ensures forall i, j :: 0 <= i < j < |r| ==> r[i] < r[j]
  {
    Finite.SortedSet(set c | c in s.claims && IsItemOf(s, inv, s.claims[c].item))
  }

  /** The members the report lists: ACTIVE, role ADMIN or CLAIMANT, in
      ascending id order (`findByInventoryAndStatusAndRoleIn`). */
  function EligibleMembers(s: Store, inv: InventoryId): (r: seq<MemberId>)
    ensures forall m :: m in r <==> m in s.members && IsEligible(s, inv, m)
  {
    Finite.SortedSet(set m | m in s.members && IsEligible(s, inv, m))
  }

  predicate IsEligible(s: Store, inv: InventoryId, m: MemberId)
    requires m in s.members
  {
    s.members[m].inventory == inv && s.members[m].status == Active
    && s.members[m].role in {Admin, Claimant}
  }

  /** The order key of a member's row: the case-folded "first last". */
  function NameKey(s: Store, m: MemberId): seq<int> {
    if m in s.members then Text.IgnoreCaseKey(DisplayName(s, s.members[m].user)) else []
  }

  /** The non-owner eligible members, sorted by name; ties keep id order. */
  function ReportedMembers(s: Store, inv: InventoryId, owner: UserId): seq<MemberId> {
    var others := FilterMembers(s, EligibleMembers(s, inv), owner);
    Finite.SortBy(others, m => NameKey(s, m))
  }

  /** The members of `ms` whose user is not `owner`, in order. */
  function FilterMembers(s: Store, ms: seq<MemberId>, owner: UserId): (r: seq<MemberId>)
    ensures forall m :: m in r <==> m in ms && m in s.members && s.members[m].user != owner
    decreases |ms|
  {
    if ms == [] then []
    else
      var rest := FilterMembers(s, ms[1..], owner);
      assert forall m :: m in ms <==> m == ms[0] || m in ms[1..];
      if ms[0] in s.members && s.members[ms[0]].user != owner then [ms[0]] + rest else rest
  }

  /** How many of the inventory's claims are on `item`. */
  function ClaimCount(s: Store, claims: seq<ClaimId>, item: ItemId): (n: nat)
    ensures n <= |claims|
    decreases |claims|
  {
    if claims == [] then 0
    else if claims[0] in s.claims && s.claims[claims[0]].item == item then 1 + ClaimCount(s, claims[1..], item)
    else ClaimCount(s, claims[1..], item)
  }

  /** Claim `c` exists and belongs to user `u`. */
  predicate IsClaimOf(s: Store, c: ClaimId, u: UserId) {
    c in s.claims && s.claims[c].user == u
  }

  /** The report entries for the claims of user `u` among `claims`, in order. */
  function ClaimedItems(s: Store, claims: seq<ClaimId>, all: seq<ClaimId>, u: UserId): (r: seq<ClaimedItem>)
    ensures |r| <= |claims|
    ensures forall i :: 0 <= i < |r| ==>
      (r[i].claim in claims && IsClaimOf(s, r[i].claim, u)
       && r[i].item == s.claims[r[i].claim].item && r[i].status == s.claims[r[i].claim].status)
    ensures forall i :: 0 <= i < |r| ==> r[i].claimCount == ClaimCount(s, all, r[i].item)
    ensures forall i :: 0 <= i < |r| ==> r[i].isCollected == (r[i].item in s.items && s.items[r[i].item].isCollected)
    ensures forall c :: c in claims && IsClaimOf(s, c, u) ==> exists i :: 0 <= i < |r| && r[i].claim == c
    decreases |claims|
  {
    if claims == [] then []
    else
      var rest := ClaimedItems(s, claims[1..], all, u);
      var c := claims[0];
      assert forall d :: d in claims <==> d == c || d in claims[1..];
      if IsClaimOf(s, c, u) then
        var item := s.claims[c].item;
        var collected := item in s.items && s.items[item].isCollected;
        var r := [ClaimedItem(item, c, s.claims[c].status, collected, ClaimCount(s, all, item))] + rest;
        assert forall d :: d in claims[1..] && IsClaimOf(s, d, u) ==> exists i :: 0 <= i < |r| && r[i].claim == d by {
          forall d | d in claims[1..] && IsClaimOf(s, d, u)
            ensures exists i :: 0 <= i < |r| && r[i].claim == d
          {
            var k :| 0 <= k < |rest| && rest[k].claim == d;
            assert r[k + 1].claim == d;
          }
        }
        assert r[0].claim == c;
        r
      else rest
  }

  /** `buildMemberClaims`. */
  function Row(s: Store, inv: InventoryId, u: UserId, member: Option<MemberId>, role: Option<Role>, finished: bool)
    : (row: MemberClaims)
    ensures row.userId == u && row.memberId == member && row.role == role && row.isFinished == finished
    ensures row.userName == DisplayName(s, u)
  {
    var all := InventoryClaims(s, inv);
    MemberClaims(u, member, DisplayName(s, u), role, finished, ClaimedItems(s, all, all, u))
  }

  /** The row of a listed member. */
  function MemberRow(s: Store, inv: InventoryId, m: MemberId): MemberClaims
    requires m in s.members
  {
    Row(s, inv, s.members[m].user, Some(m), Some(s.members[m].role), s.members[m].finishedAt.Some?)
  }

  /** `getAllClaims`. */
  function GetAllClaims(s: Store, u: UserId, inv: InventoryId): (r: Result<seq<MemberClaims>>)
    ensures inv !in s.inventories ==> r == Fail(NotFound)
    ensures inv in s.inventories && !CanEdit(s, inv, u) ==> r == Fail(NotAuthorized)
    ensures r.Ok? <==> inv in s.inventories && CanEdit(s, inv, u)
    ensures r.Ok? ==> |r.value| == 1 + |ReportedMembers(s, inv, s.inventories[inv].owner)|
    ensures r.Ok? ==> r.value[0] == Row(s, inv, s.inventories[inv].owner, None, None, false)
    ensures r.Ok? ==> forall i :: 0 <= i < |ReportedMembers(s, inv, s.inventories[inv].owner)| ==>
      (ReportedMembers(s, inv, s.inventories[inv].owner)[i] in s.members
       && r.value[i + 1] == MemberRow(s, inv, ReportedMembers(s, inv, s.inventories[inv].owner)[i]))
  {
    var inventory :- FindInventory(s, inv);
    :- Require(CanEdit(s, inv, u), NotAuthorized);
    var owner := inventory.owner;
    var members := ReportedMembers(s, inv, owner);
    ReportedMembersAreMembers(s, inv, owner);
    var rows := RowsFor(s, inv, members);
    var report := [Row(s, inv, owner, None, None, false)] + rows;
    assert forall i :: 0 <= i < |members| ==> report[i + 1] == rows[i];
    Ok(report)
  }

  /** One row per member of `members`, in that order. */
  function RowsFor(s: Store, inv: InventoryId, members: seq<MemberId>): (rows: seq<MemberClaims>)
    requires forall i :: 0 <= i < |members| ==> members[i] in s.members
    ensures |rows| == |members|
    ensures forall i :: 0 <= i < |members| ==> rows[i] == MemberRow(s, inv, members[i])
  {
    if members == [] then [] else [MemberRow(s, inv, members[0])] + RowsFor(s, inv, members[1..])
  }

  /** The reported members are exactly the eligible non-owner members, and
      they come in name order. */
  lemma ReportedMembersAreMembers(s: Store, inv: InventoryId, owner: UserId)
    ensures forall m :: m in ReportedMembers(s, inv, owner) <==>
      m in s.members && IsEligible(s, inv, m) && s.members[m].user != owner
    ensures Finite.SortedBy(ReportedMembers(s, inv, owner), m => NameKey(s, m))
  {
    var others := FilterMembers(s, EligibleMembers(s, inv), owner);
    Finite.SortBySameElements(others, m => NameKey(s, m));
    Finite.SortBySorted(others, m => NameKey(s, m));
  }

  /** After the owner's row, the report lists every eligible member other than
      the owner, and only those. */
  lemma ReportRowsAreTheMembers(s: Store, u: UserId, inv: InventoryId, m: MemberId)
    requires GetAllClaims(s, u, inv).Ok?
    ensures (m in s.members && IsEligible(s, inv, m) && s.members[m].user != s.inventories[inv].owner)
      <==> exists i :: 1 <= i < |GetAllClaims(s, u, inv).value| && GetAllClaims(s, u, inv).value[i].memberId == Some(m)
  {
    var owner := s.inventories[inv].owner;
    var members := ReportedMembers(s, inv, owner);
    ReportedMembersAreMembers(s, inv, owner);
    var rows := GetAllClaims(s, u, inv).value;
    if m in s.members && IsEligible(s, inv, m) && s.members[m].user != owner {
      var k :| 0 <= k < |members| && members[k] == m;
      assert rows[k + 1].memberId == Some(m);
    }
    if i :| 1 <= i < |rows| && rows[i].memberId == Some(m) {
      assert rows[i] == MemberRow(s, inv, members[i - 1]);
      assert members[i - 1] in members;
    }
  }

  /** The member rows come in case-insensitive order of the users' names. */
  lemma ReportRowsAreSortedByName(s: Store, u: UserId, inv: InventoryId, i: nat, j: nat)
    requires GetAllClaims(s, u, inv).Ok?
    requires 1 <= i < j < |GetAllClaims(s, u, inv).value|
    ensures Finite.LexLeq(Text.IgnoreCaseKey(GetAllClaims(s, u, inv).value[i].userName),
                          Text.IgnoreCaseKey(GetAllClaims(s, u, inv).value[j].userName))
  {
    var owner := s.inventories[inv].owner;
    var members := ReportedMembers(s, inv, owner);
    ReportedMembersAreMembers(s, inv, owner);
    var rows := GetAllClaims(s, u, inv).value;
    assert rows[i] == MemberRow(s, inv, members[i - 1]);
    assert rows[j] == MemberRow(s, inv, members[j - 1]);
  }

  /** The distinct claims among `claims` that are on `item`. */
  function OnItem(s: Store, claims: seq<ClaimId>, item: ItemId): set<ClaimId> {
    set c | c in claims && c in s.claims && s.claims[c].item == item
  }

  /** Each claimed item's count is the number of the inventory's claims on it. */
  lemma {:induction false} ClaimCountCounts(s: Store, claims: seq<ClaimId>, item: ItemId)
    requires forall i, j :: 0 <= i < j < |claims| ==> claims[i] != claims[j]
    ensures ClaimCount(s, claims, item) == |OnItem(s, claims, item)|
    decreases |claims|
  {
    if claims == [] {
      assert OnItem(s, claims, item) == {};
    } else {
      var c0 := claims[0];
      var tail := OnItem(s, claims[1..], item);
      ClaimCountCounts(s, claims[1..], item);
      assert c0 !in claims[1..];
      if c0 in s.claims && s.claims[c0].item == item {
        assert OnItem(s, claims, item) == tail + {c0} by {
          forall c
            ensures c in OnItem(s, claims, item) <==> c in tail + {c0}
          {
            assert c in claims <==> c == c0 || c in claims[1..];
          }
        }
        assert c0 !in tail;
      } else {
        assert OnItem(s, claims, item) == tail by {
          forall c
            ensures c in OnItem(s, claims, item) <==> c in tail
          {
            assert c in claims <==> c == c0 || c in claims[1..];
          }
        }
      }
    }
  }
}
