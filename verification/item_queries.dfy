/** The item queries of ItemRepository: the reference-number maxima used for
    numbering, the per-category counts of recent activity, and the listings
    ordered by reference number.
 */
module ItemQueries {
  import opened Outcomes
  import opened Domain
  import Finite

  // ---------------------------------------------------------------------------
  // Reference-number maxima
  // ---------------------------------------------------------------------------

  /** Every item of the inventory, deleted or not, in a category or not. */
  function InventoryItems(s: Store, inv: InventoryId): set<ItemId> {
    set i | i in s.items && s.items[i].inventory == inv
  }

  /** Every item whose category is `cat`, deleted or not. */
  function CategoryItems(s: Store, cat: CategoryId): set<ItemId> {
    set i | i in s.items && s.items[i].category == Some(cat)
  }

  /** COALESCE(MAX(referenceNumber), 0) over the given items. */
  function MaxReference(s: Store, ids: set<ItemId>): (m: int)
    requires forall i :: i in ids ==> i in s.items
    ensures forall i :: i in ids ==> s.items[i].referenceNumber <= m
    ensures ids == {} ==> m == 0
    ensures ids != {} ==> exists i :: i in ids && s.items[i].referenceNumber == m
  {
    if ids == {} then 0
    else
      var refs := set i | i in ids :: s.items[i].referenceNumber;
      assert forall i :: i in ids ==> s.items[i].referenceNumber in refs;
      Finite.MaxOf(refs)
  }

  /** `findMaxReferenceNumber(inventory)`. */
  function MaxReferenceNumber(s: Store, inv: InventoryId): (m: int)
    ensures forall i :: i in s.items && s.items[i].inventory == inv ==> s.items[i].referenceNumber <= m
    ensures InventoryItems(s, inv) == {} ==> m == 0
    ensures InventoryItems(s, inv) != {} ==> exists i :: i in s.items && s.items[i].inventory == inv && s.items[i].referenceNumber == m
  {
    MaxReference(s, InventoryItems(s, inv))
  }

  /** `findMaxReferenceNumberByCategory(category)`. */
  function MaxReferenceNumberByCategory(s: Store, cat: CategoryId): (m: int)
    ensures forall i :: i in s.items && s.items[i].category == Some(cat) ==> s.items[i].referenceNumber <= m
    ensures CategoryItems(s, cat) == {} ==> m == 0
    ensures CategoryItems(s, cat) != {} ==> exists i :: i in s.items && s.items[i].category == Some(cat) && s.items[i].referenceNumber == m
  {
    MaxReference(s, CategoryItems(s, cat))
  }

  // ---------------------------------------------------------------------------
  // Recent activity per category
  // ---------------------------------------------------------------------------

  /** The item counts toward the recent counts of its category: it belongs to
      the inventory, is not deleted, has a category, and was created or
      updated at or after `since`. */
  predicate IsRecent(s: Store, inv: InventoryId, i: ItemId, since: Instant)
    requires i in s.items
  {
    var it := s.items[i];
    it.inventory == inv && !it.isDeleted && it.category.Some?
    && (it.createdAt >= since || it.updatedAt >= since)
  }

  /** Counted as new: created at or after `since`. */
  predicate IsNew(it: Item, since: Instant) {
    it.createdAt >= since
  }

  /** Counted as updated: created before `since` and updated at or after it. */
  predicate IsUpdated(it: Item, since: Instant) {
    it.createdAt < since && it.updatedAt >= since
  }

  datatype RecentCount = RecentCount(category: CategoryId, newCount: nat, updatedCount: nat)

  /** The recent items of the inventory in category `cat`. */
  function RecentIn(s: Store, inv: InventoryId, cat: CategoryId, since: Instant): set<ItemId> {
    set i | i in s.items && IsRecent(s, inv, i, since) && s.items[i].category == Some(cat)
  }

  /** The categories holding at least one recent item of the inventory. */
  function RecentCategories(s: Store, inv: InventoryId, since: Instant): (cats: set<CategoryId>)
    ensures forall cat :: cat in cats <==> RecentIn(s, inv, cat, since) != {}
  {
    var cats := set i | i in s.items && IsRecent(s, inv, i, since) :: s.items[i].category.value;
    forall cat
      ensures cat in cats <==> RecentIn(s, inv, cat, since) != {}
    {
      if cat in cats {
        var i :| i in s.items && IsRecent(s, inv, i, since) && s.items[i].category.value == cat;
        assert i in RecentIn(s, inv, cat, since);
      }
      if RecentIn(s, inv, cat, since) != {} {
        var i :| i in RecentIn(s, inv, cat, since);
        assert s.items[i].category.value == cat;
      }
    }
    cats
  }

  /** `countRecentItemsByCategory(inventory, since)`: one row per category
      holding at least one recent item, in ascending category order. */
  function CountRecentItemsByCategory(s: Store, inv: InventoryId, since: Instant): (r: seq<RecentCount>)
    ensures forall k :: 0 <= k < |r| ==> RecentIn(s, inv, r[k].category, since) != {}
    ensures forall cat :: RecentIn(s, inv, cat, since) != {} ==> exists k :: 0 <= k < |r| && r[k].category == cat
    ensures forall k :: 0 <= k < |r| ==> r[k] == CountFor(s, inv, r[k].category, since)
    ensures forall k, l :: 0 <= k < l < |r| ==> r[k].category < r[l].category
  {
    var order := Finite.SortedSet(RecentCategories(s, inv, since));
    RowsCoverRecentCategories(s, inv, since, order);
    CountsFor(s, inv, order, since)
  }

  /** Some row of `rows` is about category `cat`. */
  predicate HasRowFor(rows: seq<RecentCount>, cat: CategoryId) {
    exists k :: 0 <= k < |rows| && rows[k].category == cat
  }

  /** Every category holding a recent item gets a row. */
  lemma RowsCoverRecentCategories(s: Store, inv: InventoryId, since: Instant, order: seq<CategoryId>)
    requires forall cat :: cat in RecentCategories(s, inv, since) <==> cat in order
    ensures forall cat :: RecentIn(s, inv, cat, since) != {} ==> HasRowFor(CountsFor(s, inv, order, since), cat)
  {
    var r := CountsFor(s, inv, order, since);
    forall cat | RecentIn(s, inv, cat, since) != {}
      ensures HasRowFor(r, cat)
    {
      assert cat in RecentCategories(s, inv, since);
      assert cat in order;
      var k :| 0 <= k < |order| && order[k] == cat;
      assert r[k].category == cat;
    }
  }

  /** One counting row per category of `order`, in that order. */
  function CountsFor(s: Store, inv: InventoryId, order: seq<CategoryId>, since: Instant): (r: seq<RecentCount>)
    ensures |r| == |order|
    ensures forall k :: 0 <= k < |r| ==> r[k] == CountFor(s, inv, order[k], since) && r[k].category == order[k]
  {
    if order == [] then [] else [CountFor(s, inv, order[0], since)] + CountsFor(s, inv, order[1..], since)
  }

  /** The row for one category: the SUM(CASE …) columns. */
  function CountFor(s: Store, inv: InventoryId, cat: CategoryId, since: Instant): (c: RecentCount)
    ensures c.category == cat
    ensures c.newCount == |NewIn(s, inv, cat, since)|
    ensures c.updatedCount == |UpdatedIn(s, inv, cat, since)|
    ensures c.newCount + c.updatedCount == |RecentIn(s, inv, cat, since)|
  {
    RecentSplits(s, inv, cat, since);
    RecentCount(cat, |NewIn(s, inv, cat, since)|, |UpdatedIn(s, inv, cat, since)|)
  }

  /** A live item of the inventory filed under category `cat`: the rows the
      query groups under that category. */
  predicate InCategory(s: Store, inv: InventoryId, cat: CategoryId, i: ItemId)
    requires i in s.items
  {
    s.items[i].inventory == inv && !s.items[i].isDeleted && s.items[i].category == Some(cat)
  }

  /** The rows the first SUM(CASE …) counts: created at or after `since`. */
  function NewIn(s: Store, inv: InventoryId, cat: CategoryId, since: Instant): set<ItemId> {
    set i | i in s.items && InCategory(s, inv, cat, i) && s.items[i].createdAt >= since
  }

  /** The rows the second SUM(CASE …) counts: created before `since` and
      updated at or after it. */
  function UpdatedIn(s: Store, inv: InventoryId, cat: CategoryId, since: Instant): set<ItemId> {
    set i | i in s.items && InCategory(s, inv, cat, i) && s.items[i].createdAt < since && s.items[i].updatedAt >= since
  }

  /** The recent items of a category split into the new and the updated ones. */
  lemma RecentSplits(s: Store, inv: InventoryId, cat: CategoryId, since: Instant)
    ensures RecentIn(s, inv, cat, since) == NewIn(s, inv, cat, since) + UpdatedIn(s, inv, cat, since)
    ensures NewIn(s, inv, cat, since) !! UpdatedIn(s, inv, cat, since)
    ensures |RecentIn(s, inv, cat, since)| == |NewIn(s, inv, cat, since)| + |UpdatedIn(s, inv, cat, since)|
  {
    DisjointUnionSize(NewIn(s, inv, cat, since), UpdatedIn(s, inv, cat, since));
  }

  lemma DisjointUnionSize(a: set<ItemId>, b: set<ItemId>)
    requires a !! b
    ensures |a + b| == |a| + |b|
  {
  }

  /** No item is both new and updated, and every recent item is one or the
      other. */
  lemma NewAndUpdatedPartition(it: Item, since: Instant)
    requires it.createdAt >= since || it.updatedAt >= since
    ensures IsNew(it, since) != IsUpdated(it, since)
  {
  }

  // ---------------------------------------------------------------------------
  // Listings by reference number
  // ---------------------------------------------------------------------------

  /** The order key of a listing: the reference number. */
  function RefKey(s: Store, i: ItemId): seq<int> {
    if i in s.items then [s.items[i].referenceNumber] else []
  }

  /** `… OrderByReferenceNumberAsc`: the items sorted by reference number,
      ties in id order. */
  function ByReference(s: Store, ids: set<ItemId>): (r: seq<ItemId>)
    ensures |r| == |ids|
    ensures forall i :: i in r <==> i in ids
  {
    var order := Finite.SortedSet(ids);
    Finite.SortBySameElements(order, i => RefKey(s, i));
    Finite.SortBy(order, i => RefKey(s, i))
  }

  /** Listings come in ascending reference-number order. */
  lemma ByReferenceAscending(s: Store, ids: set<ItemId>, k: nat, l: nat)
    requires forall i :: i in ids ==> i in s.items
    requires k < l < |ByReference(s, ids)|
    ensures s.items[ByReference(s, ids)[k]].referenceNumber <= s.items[ByReference(s, ids)[l]].referenceNumber
  {
    var order := Finite.SortedSet(ids);
    Finite.SortBySorted(order, i => RefKey(s, i));
    var r := ByReference(s, ids);
    assert r[k] in ids && r[l] in ids;
    Finite.LexLeqSingleton(s.items[r[k]].referenceNumber, s.items[r[l]].referenceNumber);
  }

  /** `findByInventoryAndIsDeletedFalseOrderByReferenceNumberAsc`. */
  function LiveItems(s: Store, inv: InventoryId): (r: seq<ItemId>)
    ensures forall i :: i in r <==> IsLiveItem(s, inv, i)
  {
    ByReference(s, set i | i in s.items && IsLiveItem(s, inv, i))
  }

  /** `findByCategoryOrderByReferenceNumberAsc`: deleted items included. */
  function ItemsInCategory(s: Store, cat: CategoryId): (r: seq<ItemId>)
    ensures forall i :: i in r <==> i in s.items && s.items[i].category == Some(cat)
  {
    ByReference(s, CategoryItems(s, cat))
  }

  /** `findByCategoryAndIsDeletedFalseOrderByReferenceNumberAsc`. */
  function LiveItemsInCategory(s: Store, cat: CategoryId): (r: seq<ItemId>)
    ensures forall i :: i in r <==> i in s.items && s.items[i].category == Some(cat) && !s.items[i].isDeleted
  {
    ByReference(s, set i | i in s.items && s.items[i].category == Some(cat) && !s.items[i].isDeleted)
  }
}
