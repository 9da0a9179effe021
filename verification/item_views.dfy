/** The read side of ItemService: item listings with the visibility rule for
    callers without edit rights, single-item reads, the image reads, and the
    per-item claim summaries the listings are decorated with.
 */
module ItemViews {
  import opened Outcomes
  import opened Domain
  import opened Access
  import Finite
  import Seqs
  import Claims
  import ItemQueries

  // ---------------------------------------------------------------------------
  // Visibility
  // ---------------------------------------------------------------------------

  /** The user holds the ASSIGNED claim on the item. */
  predicate HoldsAssignedClaim(s: Store, u: UserId, item: ItemId) {
    exists c :: c in s.claims && s.claims[c].item == item && s.claims[c].user == u && s.claims[c].status == Assigned
  }

  /** What a caller without edit rights sees: every item not yet collected, and
      a collected item only when the caller holds its ASSIGNED claim. */
  predicate VisibleToNonEditor(s: Store, u: UserId, item: ItemId) {
    item in s.items && (!s.items[item].isCollected || HoldsAssignedClaim(s, u, item))
  }

  /** The non-editor filter over a listing, keeping its order. */
  function HideCollected(s: Store, u: UserId, xs: seq<ItemId>): (r: seq<ItemId>)
    ensures forall i :: i in r <==> i in xs && VisibleToNonEditor(s, u, i)
  {
    Seqs.Filter(xs, i => VisibleToNonEditor(s, u, i))
  }

  /** The reference number of an item, as the listing order sees it. */
  function RefOf(s: Store, i: ItemId): int {
    if i in s.items then s.items[i].referenceNumber else 0
  }

  /** A listing sorted by reference number stays sorted under the filter. */
  lemma HideCollectedKeepsOrder(s: Store, u: UserId, xs: seq<ItemId>)
    requires Seqs.AscendingBy(xs, i => RefOf(s, i))
    ensures Seqs.AscendingBy(HideCollected(s, u, xs), i => RefOf(s, i))
  {
    Seqs.FilterKeepsOrder(xs, i => VisibleToNonEditor(s, u, i), i => RefOf(s, i));
  }

  /** Listings by reference number are ascending in `RefOf`. */
  lemma ByReferenceAscendingBy(s: Store, ids: set<ItemId>)
    requires forall i :: i in ids ==> i in s.items
    ensures Seqs.AscendingBy(ItemQueries.ByReference(s, ids), i => RefOf(s, i))
  {
    var r := ItemQueries.ByReference(s, ids);
    forall k, l | 0 <= k < l < |r|
      ensures RefOf(s, r[k]) <= RefOf(s, r[l])
    {
      ItemQueries.ByReferenceAscending(s, ids, k, l);
    }
  }

  // ---------------------------------------------------------------------------
  // Listings and reads
  // ---------------------------------------------------------------------------

  /** `getItems`: the non-deleted items in reference order; callers without
      edit rights see collected items only when they hold the ASSIGNED claim. */
  function GetItems(s: Store, u: UserId, inv: InventoryId): (r: Result<seq<ItemId>>)
    ensures r.Fail? <==> ViewAccess(s, u, inv).Fail?
    ensures r.Fail? ==> r.error == ViewAccess(s, u, inv).error
    ensures r.Ok? ==> forall i :: i in r.value <==> IsLiveItem(s, inv, i) && (CanEdit(s, inv, u) || VisibleToNonEditor(s, u, i))
    ensures r.Ok? ==> Seqs.AscendingBy(r.value, i => RefOf(s, i))
  {
    var _ :- ViewAccess(s, u, inv);
    var live := ItemQueries.LiveItems(s, inv);
    ByReferenceAscendingBy(s, set i | i in s.items && IsLiveItem(s, inv, i));
    if CanEdit(s, inv, u) then Ok(live)
    else
      HideCollectedKeepsOrder(s, u, live);
      Ok(HideCollected(s, u, live))
  }

  /** `getItemsByCategory`: editors see every item of the category, deleted
      ones included; others see the non-deleted ones under the collected
      filter. An unknown category is NotFound. */
  function GetItemsByCategory(s: Store, u: UserId, inv: InventoryId, cat: CategoryId): (r: Result<seq<ItemId>>)
    ensures ViewAccess(s, u, inv).Fail? ==> r == Fail(ViewAccess(s, u, inv).error)
    ensures ViewAccess(s, u, inv).Ok? && !IsCategoryOf(s, inv, cat) ==> r == Fail(NotFound)
    ensures r.Ok? <==> ViewAccess(s, u, inv).Ok? && IsCategoryOf(s, inv, cat)
    ensures r.Ok? ==> forall i :: i in r.value <==>
      (i in s.items && s.items[i].category == Some(cat)
       && (CanEdit(s, inv, u) || (!s.items[i].isDeleted && VisibleToNonEditor(s, u, i))))
    ensures r.Ok? ==> Seqs.AscendingBy(r.value, i => RefOf(s, i))
  {
    var _ :- ViewAccess(s, u, inv);
    :- Require(IsCategoryOf(s, inv, cat), NotFound);
    if CanEdit(s, inv, u) then
      ByReferenceAscendingBy(s, ItemQueries.CategoryItems(s, cat));
      Ok(ItemQueries.ItemsInCategory(s, cat))
    else
      var live := ItemQueries.LiveItemsInCategory(s, cat);
      ByReferenceAscendingBy(s, set i | i in s.items && s.items[i].category == Some(cat) && !s.items[i].isDeleted);
      HideCollectedKeepsOrder(s, u, live);
      Ok(HideCollected(s, u, live))
  }

  /** `getItem`: a non-deleted item of a viewable inventory. Unlike the
      listings it does not hide collected items. */
  function GetItem(s: Store, u: UserId, inv: InventoryId, item: ItemId): (r: Result<Item>)
    ensures ViewAccess(s, u, inv).Fail? ==> r == Fail(ViewAccess(s, u, inv).error)
    ensures ViewAccess(s, u, inv).Ok? && !IsLiveItem(s, inv, item) ==> r == Fail(NotFound)
    ensures r.Ok? <==> ViewAccess(s, u, inv).Ok? && IsLiveItem(s, inv, item)
    ensures r.Ok? ==> r.value == s.items[item]
  {
    var _ :- ViewAccess(s, u, inv);
    :- Require(IsLiveItem(s, inv, item), NotFound);
    Ok(s.items[item])
  }

  /** `getItemImage`: NotFound when the item has no image. */
  function GetItemImage(s: Store, u: UserId, inv: InventoryId, item: ItemId): (r: Result<Bytes>)
    ensures GetItem(s, u, inv, item).Fail? ==> r == Fail(GetItem(s, u, inv, item).error)
    ensures GetItem(s, u, inv, item).Ok? ==> r == (if |s.items[item].image| == 0 then Fail(NotFound) else Ok(s.items[item].image))
  {
    var it :- GetItem(s, u, inv, item);
    :- Require(|it.image| > 0, NotFound);
    Ok(it.image)
  }

  /** `getItemThumbnail`: NotFound when the item has no thumbnail. */
  function GetItemThumbnail(s: Store, u: UserId, inv: InventoryId, item: ItemId): (r: Result<Bytes>)
    ensures GetItem(s, u, inv, item).Fail? ==> r == Fail(GetItem(s, u, inv, item).error)
    ensures GetItem(s, u, inv, item).Ok? ==> r == (if |s.items[item].thumbnail| == 0 then Fail(NotFound) else Ok(s.items[item].thumbnail))
  {
    var it :- GetItem(s, u, inv, item);
    :- Require(|it.thumbnail| > 0, NotFound);
    Ok(it.thumbnail)
  }

  // ---------------------------------------------------------------------------
  // Claim summaries
  // ---------------------------------------------------------------------------

  /** The claim information attached to an item in a listing. */
  datatype ItemSummary = ItemSummary(
    item: ItemId,
    claimCount: nat,
    isAssigned: bool,
    assignedTo: Option<string>,
    currentUserClaimed: bool)

  /** The user has a claim on the item, in any status. */
  predicate HasClaimBy(s: Store, item: ItemId, u: UserId) {
    exists c :: c in s.claims && s.claims[c].item == item && s.claims[c].user == u
  }

  /** The summary of one item for caller `u` (`buildItemResponseDTO` and the
      per-item block of the thumbnail listings): how many claims it has,
      whether and to whom it is assigned, and whether the caller claimed it. */
  function Summarize(s: Store, item: ItemId, u: UserId): (r: ItemSummary)
    ensures r.item == item
    ensures r.claimCount == |ClaimsOn(s, item)|
    ensures r.isAssigned <==> HasAssignedClaim(s, item)
    ensures r.assignedTo.Some? <==> r.isAssigned
    ensures r.assignedTo.Some? ==> exists c :: c in s.claims && s.claims[c].item == item && s.claims[c].status == Assigned && r.assignedTo.value == DisplayName(s, s.claims[c].user)
    ensures r.currentUserClaimed <==> HasClaimBy(s, item, u)
  {
    var holder := AssignedClaimOn(s, item);
    var name := match holder
      case Some(c) => Some(DisplayName(s, s.claims[c].user))
      case None => None;
    var mine := ClaimOf(s, item, u).Some?;
    ItemSummary(item, |ClaimsOn(s, item)|, holder.Some?, name, mine)
  }

  /** With at most one ASSIGNED claim per item, the summary names the holder of
      that claim. */
  lemma SummaryNamesTheAssignee(s: Store, item: ItemId, u: UserId, c: ClaimId)
    requires Claims.OneAssignedPerItem(s)
    requires c in s.claims && s.claims[c].item == item && s.claims[c].status == Assigned
    ensures Summarize(s, item, u).assignedTo == Some(DisplayName(s, s.claims[c].user))
  {
  }

  /** The summaries of a listing, one per item, in the listing's order. */
  function SummarizeAll(s: Store, items: seq<ItemId>, u: UserId): (r: seq<ItemSummary>)
    ensures |r| == |items|
    ensures forall k :: 0 <= k < |r| ==> r[k] == Summarize(s, items[k], u)
  {
    seq(|items|, k requires 0 <= k < |items| => Summarize(s, items[k], u))
  }

  /** `getItemsWithThumbnails`: the summaries of `getItems`. */
  function GetItemsWithThumbnails(s: Store, u: UserId, inv: InventoryId): (r: Result<seq<ItemSummary>>)
    ensures r.Fail? <==> GetItems(s, u, inv).Fail?
    ensures r.Fail? ==> r.error == GetItems(s, u, inv).error
    ensures r.Ok? ==> |r.value| == |GetItems(s, u, inv).value|
    ensures r.Ok? ==> forall k :: 0 <= k < |r.value| ==> r.value[k] == Summarize(s, GetItems(s, u, inv).value[k], u)
  {
    var items :- GetItems(s, u, inv);
    Ok(SummarizeAll(s, items, u))
  }

  /** `getItemsWithThumbnailsByCategory`: the summaries of `getItemsByCategory`. */
  function GetItemsWithThumbnailsByCategory(s: Store, u: UserId, inv: InventoryId, cat: CategoryId): (r: Result<seq<ItemSummary>>)
    ensures r.Fail? <==> GetItemsByCategory(s, u, inv, cat).Fail?
    ensures r.Fail? ==> r.error == GetItemsByCategory(s, u, inv, cat).error
    ensures r.Ok? ==> |r.value| == |GetItemsByCategory(s, u, inv, cat).value|
    ensures r.Ok? ==> forall k :: 0 <= k < |r.value| ==> r.value[k] == Summarize(s, GetItemsByCategory(s, u, inv, cat).value[k], u)
  {
    var items :- GetItemsByCategory(s, u, inv, cat);
    Ok(SummarizeAll(s, items, u))
  }

  /** `getItemDTO`: the summary of the item `getItem` finds. */
  function GetItemSummary(s: Store, u: UserId, inv: InventoryId, item: ItemId): (r: Result<ItemSummary>)
    ensures r.Fail? <==> GetItem(s, u, inv, item).Fail?
    ensures r.Fail? ==> r.error == GetItem(s, u, inv, item).error
    ensures r.Ok? ==> r.value.item == item && r.value.claimCount == |ClaimsOn(s, item)|
    ensures r.Ok? ==> r.value.currentUserClaimed == HasClaimBy(s, item, u)
    ensures r.Ok? ==> r.value == Summarize(s, item, u)
  {
    var _ :- GetItem(s, u, inv, item);
    Ok(Summarize(s, item, u))
  }

  /** The summary a newly created item is returned with: no claims, not
      assigned, not claimed by the caller. */
  function NewItemSummary(id: ItemId): ItemSummary {
    ItemSummary(id, 0, false, None, false)
  }

  /** The fixed summary of a new item is its true summary, provided no claim
      refers to the fresh id. */
  lemma NewItemSummaryIsAccurate(s: Store, id: ItemId, u: UserId)
    requires forall c :: c in s.claims ==> s.claims[c].item != id
    ensures Summarize(s, id, u) == NewItemSummary(id)
  {
    assert ClaimsOn(s, id) == {};
  }

  // ---------------------------------------------------------------------------
  // The caller's own claims
  // ---------------------------------------------------------------------------

  /** A claim of `u` on a non-deleted item of the inventory. */
  predicate IsMyClaim(s: Store, u: UserId, inv: InventoryId, c: ClaimId) {
    c in s.claims && s.claims[c].user == u && IsLiveItem(s, inv, s.claims[c].item)
  }

  /** The order key of `findByUserAndInventoryId`: the claimed item's number. */
  function ClaimRefKey(s: Store, c: ClaimId): seq<int> {
    if c in s.claims then [RefOf(s, s.claims[c].item)] else []
  }

  /** `findByUserAndInventoryId`: the caller's claims on non-deleted items of
      the inventory, by ascending item reference number. */
  function MyClaims(s: Store, u: UserId, inv: InventoryId): (r: seq<ClaimId>)
    ensures forall c :: c in r <==> IsMyClaim(s, u, inv, c)
    ensures forall k :: 0 <= k < |r| ==> IsMyClaim(s, u, inv, r[k])
    ensures forall i, j :: 0 <= i < j < |r| ==> ClaimedRef(s, r[i]) <= ClaimedRef(s, r[j])
  {
    var mine := set c | c in s.claims && IsMyClaim(s, u, inv, c);
    var order := Finite.SortedSet(mine);
    forall k | 0 <= k < |order|
      ensures order[k] in s.claims
    {
      assert order[k] in order;
    }
    ByClaimedRef(s, order)
  }

  /** `ORDER BY i.referenceNumber ASC` over claims: a stable sort by the
      claimed item's number. */
  function ByClaimedRef(s: Store, xs: seq<ClaimId>): (r: seq<ClaimId>)
    requires forall k :: 0 <= k < |xs| ==> xs[k] in s.claims
    ensures forall c :: c in r <==> c in xs
    ensures forall i, j :: 0 <= i < j < |r| ==> ClaimedRef(s, r[i]) <= ClaimedRef(s, r[j])
  {
    Finite.SortBySameElements(xs, c => ClaimRefKey(s, c));
    Finite.SortBySorted(xs, c => ClaimRefKey(s, c));
    var r := Finite.SortBy(xs, c => ClaimRefKey(s, c));
    assert forall k :: 0 <= k < |r| ==> r[k] in xs;
    SortedByRefAscends(s, r);
    r
  }

  /** The reference number of the item claim `c` is on. */
  function ClaimedRef(s: Store, c: ClaimId): int {
    if c in s.claims then RefOf(s, s.claims[c].item) else 0
  }

  /** Claims sorted by `ClaimRefKey` ascend by the claimed item's number. */
  lemma SortedByRefAscends(s: Store, r: seq<ClaimId>)
    requires forall k :: 0 <= k < |r| ==> r[k] in s.claims
    requires Finite.SortedBy(r, c => ClaimRefKey(s, c))
    ensures forall i, j :: 0 <= i < j < |r| ==> ClaimedRef(s, r[i]) <= ClaimedRef(s, r[j])
  {
    forall i, j | 0 <= i < j < |r|
      ensures ClaimedRef(s, r[i]) <= ClaimedRef(s, r[j])
    {
      assert Finite.LexLeq(ClaimRefKey(s, r[i]), ClaimRefKey(s, r[j]));
      Finite.LexLeqSingleton(ClaimedRef(s, r[i]), ClaimedRef(s, r[j]));
    }
  }

  /** One summary per claim, for the claimed item, marked as claimed by the
      caller. */
  function ClaimedSummaries(s: Store, u: UserId, claims: seq<ClaimId>): (r: seq<ItemSummary>)
    requires forall k :: 0 <= k < |claims| ==> claims[k] in s.claims
    ensures |r| == |claims|
    ensures forall k :: 0 <= k < |r| ==> r[k].item == s.claims[claims[k]].item && r[k].currentUserClaimed
    ensures forall k :: 0 <= k < |r| ==> r[k] == Summarize(s, r[k].item, u).(currentUserClaimed := true)
  {
    seq(|claims|, k requires 0 <= k < |claims| => Summarize(s, s.claims[claims[k]].item, u).(currentUserClaimed := true))
  }

  /** `getClaimedItemsWithThumbnails`: one summary per claim of the caller,
      with `currentUserClaimed` forced to true. */
  function GetClaimedItemsWithThumbnails(s: Store, u: UserId, inv: InventoryId): (r: Result<seq<ItemSummary>>)
    ensures r.Fail? <==> ViewAccess(s, u, inv).Fail?
    ensures r.Fail? ==> r.error == ViewAccess(s, u, inv).error
    ensures r.Ok? ==> |r.value| == |MyClaims(s, u, inv)|
    ensures r.Ok? ==> forall k :: 0 <= k < |r.value| ==> r.value[k].item == s.claims[MyClaims(s, u, inv)[k]].item
    ensures r.Ok? ==> forall k, l :: 0 <= k < l < |r.value| ==> RefOf(s, r.value[k].item) <= RefOf(s, r.value[l].item)
    ensures r.Ok? ==> forall k :: 0 <= k < |r.value| ==> r.value[k].currentUserClaimed
    ensures r.Ok? ==> forall k :: 0 <= k < |r.value| ==> IsLiveItem(s, inv, r.value[k].item)
    ensures r.Ok? ==> forall i :: IsLiveItem(s, inv, i) && HasClaimBy(s, i, u) ==> exists k :: 0 <= k < |r.value| && r.value[k].item == i
  {
    var _ :- ViewAccess(s, u, inv);
    var claims := MyClaims(s, u, inv);
    assert forall k :: 0 <= k < |claims| ==> IsMyClaim(s, u, inv, claims[k]);
    var r := ClaimedSummaries(s, u, claims);
    assert forall k :: 0 <= k < |r| ==> IsLiveItem(s, inv, r[k].item);
    ClaimedSummariesAscend(s, u, claims);
    MyClaimsCoverClaimedItems(s, u, inv, r);
    Ok(r)
  }

  /** Summaries of claims that ascend by item number ascend by item number. */
  lemma ClaimedSummariesAscend(s: Store, u: UserId, claims: seq<ClaimId>)
    requires forall k :: 0 <= k < |claims| ==> claims[k] in s.claims
    requires forall i, j :: 0 <= i < j < |claims| ==> ClaimedRef(s, claims[i]) <= ClaimedRef(s, claims[j])
    ensures forall k, l :: 0 <= k < l < |claims| ==> RefOf(s, ClaimedSummaries(s, u, claims)[k].item) <= RefOf(s, ClaimedSummaries(s, u, claims)[l].item)
  {
    var r := ClaimedSummaries(s, u, claims);
    forall k, l | 0 <= k < l < |claims|
      ensures RefOf(s, r[k].item) <= RefOf(s, r[l].item)
    {
      assert ClaimedRef(s, claims[k]) <= ClaimedRef(s, claims[l]);
    }
  }

  /** Every non-deleted item the caller claimed appears in the caller's view. */
  lemma MyClaimsCoverClaimedItems(s: Store, u: UserId, inv: InventoryId, r: seq<ItemSummary>)
    requires forall k :: 0 <= k < |MyClaims(s, u, inv)| ==> MyClaims(s, u, inv)[k] in s.claims
    requires r == ClaimedSummaries(s, u, MyClaims(s, u, inv))
    ensures forall i :: IsLiveItem(s, inv, i) && HasClaimBy(s, i, u) ==> exists k :: 0 <= k < |r| && r[k].item == i
  {
    var claims := MyClaims(s, u, inv);
    forall i | IsLiveItem(s, inv, i) && HasClaimBy(s, i, u)
      ensures exists k :: 0 <= k < |r| && r[k].item == i
    {
      var c :| c in s.claims && s.claims[c].item == i && s.claims[c].user == u;
      assert c in claims;
      var k :| 0 <= k < |claims| && claims[k] == c;
      assert r[k].item == i;
    }
  }

  /** Forcing `currentUserClaimed` changes nothing: every summary in the
      caller's own view is exactly the summary a general listing would show. */
  lemma ClaimedViewMatchesSummary(s: Store, u: UserId, inv: InventoryId, k: nat)
    requires GetClaimedItemsWithThumbnails(s, u, inv).Ok?
    requires k < |GetClaimedItemsWithThumbnails(s, u, inv).value|
    ensures GetClaimedItemsWithThumbnails(s, u, inv).value[k]
            == Summarize(s, GetClaimedItemsWithThumbnails(s, u, inv).value[k].item, u)
  {
    var claims := MyClaims(s, u, inv);
    var c := claims[k];
    assert IsMyClaim(s, u, inv, c);
    assert HasClaimBy(s, s.claims[c].item, u);
  }
}
