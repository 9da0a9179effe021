/** CategoryService: the categories an inventory's items are grouped under,
    their names, their display order and whether members who cannot edit see
    them at all.
 */
module Categories {
  import opened Outcomes
  import opened Domain
  import opened Access
  import Finite
  import Seqs

  // ---------------------------------------------------------------------------
  // Queries
  // ---------------------------------------------------------------------------

  /** The categories of the inventory. */
  function CategoriesOf(s: Store, inv: InventoryId): set<CategoryId> {
    set c | c in s.categories && s.categories[c].inventory == inv
  }

  /** The categories of the inventory with exactly this name. */
  function Named(s: Store, inv: InventoryId, name: string): set<CategoryId> {
    set c | c in s.categories && s.categories[c].inventory == inv && s.categories[c].name == name
  }

  /** `findByInventoryAndName`. */
  function FindByName(s: Store, inv: InventoryId, name: string): (r: Option<CategoryId>)
    ensures r.None? <==> Named(s, inv, name) == {}
    ensures r.Some? ==> r.value in Named(s, inv, name)
  {
    Finite.Least(Named(s, inv, name))
  }

  /** `findMaxDisplayOrder`: COALESCE(MAX(displayOrder), -1) over the inventory. */
  function MaxDisplayOrder(s: Store, inv: InventoryId): (m: int)
    ensures forall c :: c in CategoriesOf(s, inv) ==> s.categories[c].displayOrder <= m
    ensures CategoriesOf(s, inv) == {} ==> m == -1
    ensures CategoriesOf(s, inv) != {} ==> exists c :: c in CategoriesOf(s, inv) && s.categories[c].displayOrder == m
  {
    var orders := set c | c in CategoriesOf(s, inv) :: s.categories[c].displayOrder;
    assert forall c :: c in CategoriesOf(s, inv) ==> s.categories[c].displayOrder in orders;
    if orders == {} then -1 else Finite.MaxOf(orders)
  }

  /** `countByCategoryAndIsDeletedFalse`, as the set it counts. */
  function LiveItemsOf(s: Store, cat: CategoryId): set<ItemId> {
    set i | i in s.items && s.items[i].category == Some(cat) && !s.items[i].isDeleted
  }

  /** A member who cannot edit sees the category only when it is not hidden. */
  predicate VisibleTo(s: Store, u: UserId, c: CategoryId)
    requires c in s.categories
  {
    CanEdit(s, s.categories[c].inventory, u) || !s.categories[c].hidden
  }

  // ---------------------------------------------------------------------------
  // Store-wide invariants
  // ---------------------------------------------------------------------------

  /** No two categories of one inventory share a name. */
  ghost predicate UniqueNames(s: Store) {
    forall c, d :: c in s.categories && d in s.categories && c != d
      && s.categories[c].inventory == s.categories[d].inventory
      ==> s.categories[c].name != s.categories[d].name
  }

  /** No two categories of one inventory share a display order. */
  ghost predicate DistinctOrders(s: Store) {
    forall c, d :: c in s.categories && d in s.categories && c != d
      && s.categories[c].inventory == s.categories[d].inventory
      ==> s.categories[c].displayOrder != s.categories[d].displayOrder
  }

  // ---------------------------------------------------------------------------
  // Reads
  // ---------------------------------------------------------------------------

  /** One row of `getCategories`: a category and its number of non-deleted items. */
  datatype CategoryCount = CategoryCount(category: CategoryId, itemCount: nat)

  /** The display-order key of `findByInventoryOrderByDisplayOrderAsc`. */
  function OrderKey(s: Store, c: CategoryId): seq<int> {
    if c in s.categories then [s.categories[c].displayOrder] else []
  }

  /** The display order of a category. */
  function OrderOf(s: Store, c: CategoryId): int {
    if c in s.categories then s.categories[c].displayOrder else 0
  }

  /** The inventory's categories by ascending display order. */
  function ByDisplayOrder(s: Store, inv: InventoryId): (r: seq<CategoryId>)
    ensures forall c :: c in r <==> c in CategoriesOf(s, inv)
    ensures Seqs.AscendingBy(r, c => OrderOf(s, c))
  {
    var ids := Finite.SortedSet(CategoriesOf(s, inv));
    Finite.SortBySameElements(ids, c => OrderKey(s, c));
    Finite.SortBySorted(ids, c => OrderKey(s, c));
    var r := Finite.SortBy(ids, c => OrderKey(s, c));
    forall k, l | 0 <= k < l < |r|
      ensures OrderOf(s, r[k]) <= OrderOf(s, r[l])
    {
      assert r[k] in CategoriesOf(s, inv) && r[l] in CategoriesOf(s, inv);
      Finite.LexLeqSingleton(OrderOf(s, r[k]), OrderOf(s, r[l]));
    }
    r
  }

  /** The categories `u` is shown, by ascending display order. */
  function ShownCategories(s: Store, u: UserId, inv: InventoryId): (r: seq<CategoryId>)
    ensures forall c :: c in r <==> c in CategoriesOf(s, inv) && VisibleTo(s, u, c)
    ensures Seqs.AscendingBy(r, c => OrderOf(s, c))
  {
    var ordered := ByDisplayOrder(s, inv);
    Seqs.FilterKeepsOrder(ordered, c => c in s.categories && VisibleTo(s, u, c), c => OrderOf(s, c));
    Seqs.Filter(ordered, c => c in s.categories && VisibleTo(s, u, c))
  }

  /** The categories of the rows, in row order. */
  function CategoryIds(rows: seq<CategoryCount>): (r: seq<CategoryId>)
    ensures |r| == |rows| && forall k :: 0 <= k < |rows| ==> r[k] == rows[k].category
  {
    seq(|rows|, k requires 0 <= k < |rows| => rows[k].category)
  }

  /** `getCategories`: the categories by display order, hidden ones only for
      editors, each with its count of non-deleted items. */
  function GetCategories(s: Store, u: UserId, inv: InventoryId): (r: Result<seq<CategoryCount>>)
    ensures r.Fail? <==> ViewAccess(s, u, inv).Fail?
    ensures r.Fail? ==> r.error == ViewAccess(s, u, inv).error
    ensures r.Ok? ==> forall c :: c in CategoryIds(r.value) <==> c in CategoriesOf(s, inv) && VisibleTo(s, u, c)
    ensures r.Ok? ==> forall k :: 0 <= k < |r.value| ==> r.value[k].itemCount == |LiveItemsOf(s, r.value[k].category)|
    ensures r.Ok? ==> Seqs.AscendingBy(CategoryIds(r.value), c => OrderOf(s, c))
  {
    var _ :- ViewAccess(s, u, inv);
    var shown := ShownCategories(s, u, inv);
    var rows := seq(|shown|, k requires 0 <= k < |shown| => CategoryCount(shown[k], |LiveItemsOf(s, shown[k])|));
    assert CategoryIds(rows) == shown;
    Ok(rows)
  }

  /** `getCategory`: NotFound for a category outside the inventory, and for a
      hidden one when the caller cannot edit. */
  function GetCategory(s: Store, u: UserId, inv: InventoryId, cat: CategoryId): (r: Result<Category>)
    ensures ViewAccess(s, u, inv).Fail? ==> r == Fail(ViewAccess(s, u, inv).error)
    ensures ViewAccess(s, u, inv).Ok? && !IsCategoryOf(s, inv, cat) ==> r == Fail(NotFound)
    ensures r.Ok? <==> ViewAccess(s, u, inv).Ok? && IsCategoryOf(s, inv, cat) && VisibleTo(s, u, cat)
    ensures r.Fail? && ViewAccess(s, u, inv).Ok? ==> r.error == NotFound
    ensures r.Ok? ==> r.value == s.categories[cat]
  {
    var _ :- ViewAccess(s, u, inv);
    :- Require(IsCategoryOf(s, inv, cat), NotFound);
    :- Require(!s.categories[cat].hidden || CanEdit(s, inv, u), NotFound);
    Ok(s.categories[cat])
  }

  /** The single read and the listing agree: a category can be read exactly
      when it is listed. */
  lemma GetCategoryAgreesWithListing(s: Store, u: UserId, inv: InventoryId, cat: CategoryId)
    requires GetCategories(s, u, inv).Ok?
    ensures GetCategory(s, u, inv, cat).Ok? <==> cat in CategoryIds(GetCategories(s, u, inv).value)
  {
  }

  // ---------------------------------------------------------------------------
  // Changes
  // ---------------------------------------------------------------------------

  /** `createCategory`: edit rights, BadInput for a name already used in the
      inventory, then a hidden category ordered after every existing one,
      stored under `id`, the fresh database id. */
  function CreateCategory(s: Store, u: UserId, inv: InventoryId, name: string, description: string, id: CategoryId): (r: Result<Store>)
    requires id !in s.categories
    ensures r.Fail? && EditAccess(s, u, inv).Fail? ==> r.error == EditAccess(s, u, inv).error
    ensures EditAccess(s, u, inv).Ok? && Named(s, inv, name) != {} ==> r == Fail(BadInput)
    ensures r.Ok? <==> EditAccess(s, u, inv).Ok? && Named(s, inv, name) == {}
    ensures r.Ok? ==> r.value == s.(categories := r.value.categories)
    ensures r.Ok? ==> r.value.categories.Keys == s.categories.Keys + {id}
    ensures r.Ok? ==> forall c :: c in s.categories ==> r.value.categories[c] == s.categories[c]
    ensures r.Ok? ==> r.value.categories[id].inventory == inv && r.value.categories[id].name == name && r.value.categories[id].description == description
    ensures r.Ok? ==> r.value.categories[id].hidden
    ensures r.Ok? ==> forall c :: c in CategoriesOf(s, inv) ==> s.categories[c].displayOrder < r.value.categories[id].displayOrder
    ensures r.Ok? && CategoriesOf(s, inv) == {} ==> r.value.categories[id].displayOrder == 0
    ensures r.Ok? ==> r.value.categories[id].displayOrder == MaxDisplayOrder(s, inv) + 1
  {
    var _ :- EditAccess(s, u, inv);
    :- Require(FindByName(s, inv, name).None?, BadInput);
    Ok(s.(categories := s.categories[id := Category(inv, name, description, MaxDisplayOrder(s, inv) + 1, true)]))
  }

  /** Creation keeps names unique and display orders distinct. */
  lemma CreateCategoryKeepsInvariants(s: Store, u: UserId, inv: InventoryId, name: string, description: string, id: CategoryId)
    requires id !in s.categories
    requires UniqueNames(s) && DistinctOrders(s)
    requires CreateCategory(s, u, inv, name, description, id).Ok?
    ensures UniqueNames(CreateCategory(s, u, inv, name, description, id).value)
    ensures DistinctOrders(CreateCategory(s, u, inv, name, description, id).value)
  {
    var s2 := CreateCategory(s, u, inv, name, description, id).value;
    forall c, d | c in s2.categories && d in s2.categories && c != d
      && s2.categories[c].inventory == s2.categories[d].inventory
      ensures s2.categories[c].name != s2.categories[d].name
      ensures s2.categories[c].displayOrder != s2.categories[d].displayOrder
    {
      if c == id {
        assert d in CategoriesOf(s, inv) && d !in Named(s, inv, name);
      } else if d == id {
        assert c in CategoriesOf(s, inv) && c !in Named(s, inv, name);
      }
    }
  }

  /** `updateCategory`: edit rights, NotFound outside the inventory, BadInput
      when the name lookup finds another category; otherwise the name and
      description change. */
  function UpdateCategory(s: Store, u: UserId, inv: InventoryId, cat: CategoryId, name: string, description: string): (r: Result<Store>)
    ensures r.Fail? && EditAccess(s, u, inv).Fail? ==> r.error == EditAccess(s, u, inv).error
    ensures EditAccess(s, u, inv).Ok? && !IsCategoryOf(s, inv, cat) ==> r == Fail(NotFound)
    ensures r.Ok? <==> EditAccess(s, u, inv).Ok? && IsCategoryOf(s, inv, cat) && FindByName(s, inv, name) in {None, Some(cat)}
    ensures r.Fail? && EditAccess(s, u, inv).Ok? && IsCategoryOf(s, inv, cat) ==> r.error == BadInput
    ensures r.Ok? ==> r.value == s.(categories := s.categories[cat := s.categories[cat].(name := name, description := description)])
  {
    var _ :- EditAccess(s, u, inv);
    :- Require(IsCategoryOf(s, inv, cat), NotFound);
    :- Require(FindByName(s, inv, name) in {None, Some(cat)}, BadInput);
    Ok(s.(categories := s.categories[cat := s.categories[cat].(name := name, description := description)]))
  }

  /** With unique names, renaming fails exactly when another category of the
      inventory already has the name, and succeeding keeps names unique. */
  lemma UpdateCategoryRespectsNames(s: Store, u: UserId, inv: InventoryId, cat: CategoryId, name: string, description: string)
    requires UniqueNames(s) && EditAccess(s, u, inv).Ok? && IsCategoryOf(s, inv, cat)
    ensures UpdateCategory(s, u, inv, cat, name, description).Ok? <==> Named(s, inv, name) - {cat} == {}
    ensures UpdateCategory(s, u, inv, cat, name, description).Ok? ==> UniqueNames(UpdateCategory(s, u, inv, cat, name, description).value)
  {
    if Named(s, inv, name) - {cat} == {} {
      assert Named(s, inv, name) <= {cat};
    } else {
      var d :| d in Named(s, inv, name) - {cat};
      if cat in Named(s, inv, name) {
        assert false;
      }
      assert FindByName(s, inv, name) != Some(cat);
    }
    if UpdateCategory(s, u, inv, cat, name, description).Ok? {
      var s2 := UpdateCategory(s, u, inv, cat, name, description).value;
      forall c, d | c in s2.categories && d in s2.categories && c != d
        && s2.categories[c].inventory == s2.categories[d].inventory
        ensures s2.categories[c].name != s2.categories[d].name
      {
        if c == cat {
          assert d !in Named(s, inv, name);
        } else if d == cat {
          assert c !in Named(s, inv, name);
        }
      }
    }
  }

  /** `deleteCategory`: edit rights, NotFound outside the inventory, BadInput
      while the category holds a non-deleted item; otherwise it is removed. */
  function DeleteCategory(s: Store, u: UserId, inv: InventoryId, cat: CategoryId): (r: Result<Store>)
    ensures r.Fail? && EditAccess(s, u, inv).Fail? ==> r.error == EditAccess(s, u, inv).error
    ensures EditAccess(s, u, inv).Ok? && !IsCategoryOf(s, inv, cat) ==> r == Fail(NotFound)
    ensures EditAccess(s, u, inv).Ok? && IsCategoryOf(s, inv, cat) && LiveItemsOf(s, cat) != {} ==> r == Fail(BadInput)
    ensures r.Ok? <==> EditAccess(s, u, inv).Ok? && IsCategoryOf(s, inv, cat) && LiveItemsOf(s, cat) == {}
    ensures r.Ok? ==> r.value == s.(categories := s.categories - {cat})
    ensures r.Ok? ==> forall i :: i in s.items && s.items[i].category == Some(cat) ==> s.items[i].isDeleted
  {
    var _ :- EditAccess(s, u, inv);
    :- Require(IsCategoryOf(s, inv, cat), NotFound);
    :- Require(|LiveItemsOf(s, cat)| == 0, BadInput);
    assert forall i :: i in s.items && s.items[i].category == Some(cat) && !s.items[i].isDeleted ==> i in LiveItemsOf(s, cat);
    Ok(s.(categories := s.categories - {cat}))
  }

  /** `setCategoryVisibility`: edit rights, NotFound outside the inventory,
      then the hidden flag is set. */
  function SetCategoryVisibility(s: Store, u: UserId, inv: InventoryId, cat: CategoryId, hidden: bool): (r: Result<Store>)
    ensures r.Fail? && EditAccess(s, u, inv).Fail? ==> r.error == EditAccess(s, u, inv).error
    ensures EditAccess(s, u, inv).Ok? && !IsCategoryOf(s, inv, cat) ==> r == Fail(NotFound)
    ensures r.Ok? <==> EditAccess(s, u, inv).Ok? && IsCategoryOf(s, inv, cat)
    ensures r.Ok? ==> r.value == s.(categories := s.categories[cat := s.categories[cat].(hidden := hidden)])
  {
    var _ :- EditAccess(s, u, inv);
    :- Require(IsCategoryOf(s, inv, cat), NotFound);
    Ok(s.(categories := s.categories[cat := s.categories[cat].(hidden := hidden)]))
  }

  /** A new category stays out of sight of non-editors until it is made
      visible, and then they can read it. */
  lemma NewCategoryIsHiddenUntilShown(s: Store, editor: UserId, viewer: UserId, inv: InventoryId, name: string, description: string, id: CategoryId)
    requires id !in s.categories
    requires CreateCategory(s, editor, inv, name, description, id).Ok?
    requires CanView(s, inv, viewer) && !CanEdit(s, inv, viewer)
    ensures GetCategory(CreateCategory(s, editor, inv, name, description, id).value, viewer, inv, id) == Fail(NotFound)
    ensures SetCategoryVisibility(CreateCategory(s, editor, inv, name, description, id).value, editor, inv, id, false).Ok?
    ensures GetCategory(SetCategoryVisibility(CreateCategory(s, editor, inv, name, description, id).value, editor, inv, id, false).value, viewer, inv, id).Ok?
  {
    var s2 := CreateCategory(s, editor, inv, name, description, id).value;
    RightsDependOnMembershipsOnly(s, s2, inv, viewer);
    RightsDependOnMembershipsOnly(s, s2, inv, editor);
    var s3 := SetCategoryVisibility(s2, editor, inv, id, false).value;
    RightsDependOnMembershipsOnly(s, s3, inv, viewer);
  }

  // ---------------------------------------------------------------------------
  // Reordering
  // ---------------------------------------------------------------------------

  /** Each id's display order becomes its position, counted from `from`, in
      list order: a later occurrence of an id overwrites an earlier one. */
  function AssignPositions(cs: map<CategoryId, Category>, ids: seq<CategoryId>, from: int): (r: map<CategoryId, Category>)
    requires forall k :: 0 <= k < |ids| ==> ids[k] in cs
    ensures r.Keys == cs.Keys
    ensures forall c :: c in cs ==> r[c] == cs[c].(displayOrder := r[c].displayOrder)
    ensures forall c :: c in cs && c !in ids ==> r[c] == cs[c]
    decreases |ids|
  {
    if ids == [] then cs
    else AssignPositions(cs[ids[0] := cs[ids[0]].(displayOrder := from)], ids[1..], from + 1)
  }

  /** The sequence holds no id twice. */
  predicate NoRepeats(ids: seq<CategoryId>) {
    forall k, l :: 0 <= k < l < |ids| ==> ids[k] != ids[l]
  }

  /** Every id ends with the position of its last occurrence. */
  lemma AssignPositionsLastWins(cs: map<CategoryId, Category>, ids: seq<CategoryId>, from: int)
    requires forall k :: 0 <= k < |ids| ==> ids[k] in cs
    ensures forall k :: 0 <= k < |ids| && ids[k] !in ids[k + 1..] ==> AssignPositions(cs, ids, from)[ids[k]].displayOrder == from + k
  {
    forall k | 0 <= k < |ids| && ids[k] !in ids[k + 1..]
      ensures AssignPositions(cs, ids, from)[ids[k]].displayOrder == from + k
    {
      AssignPositionsLastAt(cs, ids, from, k);
    }
  }

  lemma {:induction false} AssignPositionsLastAt(cs: map<CategoryId, Category>, ids: seq<CategoryId>, from: int, k: nat)
    requires forall j :: 0 <= j < |ids| ==> ids[j] in cs
    requires k < |ids| && ids[k] !in ids[k + 1..]
    ensures AssignPositions(cs, ids, from)[ids[k]].displayOrder == from + k
    decreases |ids|
  {
    var cs2 := cs[ids[0] := cs[ids[0]].(displayOrder := from)];
    var rest := ids[1..];
    assert forall j :: 0 <= j < |rest| ==> rest[j] in cs2;
    assert AssignPositions(cs, ids, from) == AssignPositions(cs2, rest, from + 1);
    if k > 0 {
      assert rest[k - 1] == ids[k] && rest[k..] == ids[k + 1..];
      AssignPositionsLastAt(cs2, rest, from + 1, k - 1);
    } else {
      assert ids[0] !in rest;
    }
  }

  /** Without repeats, every id ends with its own position. */
  lemma {:induction false} AssignPositionsOfDistinct(cs: map<CategoryId, Category>, ids: seq<CategoryId>, from: int)
    requires forall k :: 0 <= k < |ids| ==> ids[k] in cs
    requires NoRepeats(ids)
    ensures forall k :: 0 <= k < |ids| ==> AssignPositions(cs, ids, from)[ids[k]].displayOrder == from + k
    decreases |ids|
  {
    if ids != [] {
      var cs2 := cs[ids[0] := cs[ids[0]].(displayOrder := from)];
      var tail := ids[1..];
      assert NoRepeats(tail);
      AssignPositionsOfDistinct(cs2, tail, from + 1);
      assert ids[0] !in tail;
      forall k | 1 <= k < |ids|
        ensures AssignPositions(cs, ids, from)[ids[k]].displayOrder == from + k
      {
        assert ids[k] == tail[k - 1];
      }
    }
  }

  /** The check `reorderCategories` performs before its loop: the list has as
      many entries as the inventory has categories, and each is one of them. */
  predicate ListsInventoryCategories(s: Store, inv: InventoryId, ids: seq<CategoryId>) {
    |ids| == |CategoriesOf(s, inv)|
    && forall k :: 0 <= k < |ids| ==> IsCategoryOf(s, inv, ids[k])
  }

  /** `reorderCategories` as written: only the list's size is compared with
      the inventory's categories, so an id may appear twice and another not
      at all. The method is transactional, so a foreign id anywhere in the
      list leaves the store unchanged. */
  function ReorderCategoriesAsWritten(s: Store, u: UserId, inv: InventoryId, ids: seq<CategoryId>): (r: Result<Store>)
    ensures r.Fail? && EditAccess(s, u, inv).Fail? ==> r.error == EditAccess(s, u, inv).error
    ensures r.Ok? <==> EditAccess(s, u, inv).Ok? && ListsInventoryCategories(s, inv, ids)
    ensures r.Fail? && EditAccess(s, u, inv).Ok? ==> r.error == BadInput
    ensures r.Ok? ==> r.value.categories.Keys == s.categories.Keys
    ensures r.Ok? ==> forall c :: c in s.categories && c !in ids ==> r.value.categories[c] == s.categories[c]
    ensures r.Ok? ==> forall k :: 0 <= k < |ids| && ids[k] !in ids[k + 1..] ==>
      r.value.categories[ids[k]] == s.categories[ids[k]].(displayOrder := k)
  {
    var _ :- EditAccess(s, u, inv);
    :- Require(ListsInventoryCategories(s, inv, ids), BadInput);
    AssignPositionsLastWins(s.categories, ids, 0);
    Ok(s.(categories := AssignPositions(s.categories, ids, 0)))
  }

  /** `reorderCategories` with the check its message describes: the list must
      name every category of the inventory exactly once. */
  function ReorderCategories(s: Store, u: UserId, inv: InventoryId, ids: seq<CategoryId>): (r: Result<Store>)
    ensures r.Fail? && EditAccess(s, u, inv).Fail? ==> r.error == EditAccess(s, u, inv).error
    ensures r.Ok? <==> EditAccess(s, u, inv).Ok? && ListsInventoryCategories(s, inv, ids) && NoRepeats(ids)
    ensures r.Fail? && EditAccess(s, u, inv).Ok? ==> r.error == BadInput
    ensures r.Ok? ==> r.value.categories.Keys == s.categories.Keys
    ensures r.Ok? ==> forall k :: 0 <= k < |ids| ==> r.value.categories[ids[k]] == s.categories[ids[k]].(displayOrder := k)
    ensures r.Ok? ==> forall c :: c in s.categories && s.categories[c].inventory != inv ==> r.value.categories[c] == s.categories[c]
  {
    var _ :- EditAccess(s, u, inv);
    :- Require(ListsInventoryCategories(s, inv, ids) && NoRepeats(ids), BadInput);
    AssignPositionsOfDistinct(s.categories, ids, 0);
    Ok(s.(categories := AssignPositions(s.categories, ids, 0)))
  }

  /** On a list naming each category once, the original and the corrected
      reordering agree. */
  lemma ReorderAgreesWithoutRepeats(s: Store, u: UserId, inv: InventoryId, ids: seq<CategoryId>)
    requires NoRepeats(ids)
    ensures ReorderCategories(s, u, inv, ids) == ReorderCategoriesAsWritten(s, u, inv, ids)
  {
  }

  /** A repeat-free list of the right size covers the inventory. */
  lemma {:induction false} ListCoversCategories(s: Store, inv: InventoryId, ids: seq<CategoryId>)
    requires ListsInventoryCategories(s, inv, ids) && NoRepeats(ids)
    ensures forall c :: c in CategoriesOf(s, inv) ==> c in ids
  {
    var listed := set k | 0 <= k < |ids| :: ids[k];
    DistinctElementsCount(ids);
    var all := CategoriesOf(s, inv);
    assert listed <= all;
    assert all == listed + (all - listed);
    assert all - listed == {};
    forall c | c in all
      ensures c in ids
    {
      assert c in listed;
    }
  }

  /** A repeat-free sequence has as many distinct elements as entries. */
  lemma {:induction false} DistinctElementsCount(ids: seq<CategoryId>)
    requires NoRepeats(ids)
    ensures |set k | 0 <= k < |ids| :: ids[k]| == |ids|
    decreases |ids|
  {
    if ids != [] {
      var tail := ids[1..];
      assert NoRepeats(tail);
      DistinctElementsCount(tail);
      var rest := set k | 0 <= k < |tail| :: tail[k];
      assert ids[0] !in rest;
      assert (set k | 0 <= k < |ids| :: ids[k]) == {ids[0]} + rest by {
        forall x | x in rest
          ensures x in set k | 0 <= k < |ids| :: ids[k]
        {
          var k :| 0 <= k < |tail| && tail[k] == x;
          assert ids[k + 1] == x;
        }
      }
    }
  }

  /** The corrected reordering gives the inventory's categories exactly the
      positions 0 to n-1, so display orders stay distinct. */
  lemma ReorderCategoriesKeepsDistinctOrders(s: Store, u: UserId, inv: InventoryId, ids: seq<CategoryId>)
    requires DistinctOrders(s)
    requires ReorderCategories(s, u, inv, ids).Ok?
    ensures forall c :: c in CategoriesOf(s, inv) ==> 0 <= ReorderCategories(s, u, inv, ids).value.categories[c].displayOrder < |ids|
    ensures DistinctOrders(ReorderCategories(s, u, inv, ids).value)
  {
    var s2 := ReorderCategories(s, u, inv, ids).value;
    ListCoversCategories(s, inv, ids);
    forall c | c in CategoriesOf(s, inv)
      ensures exists k :: 0 <= k < |ids| && ids[k] == c && s2.categories[c].displayOrder == k
    {
      var k :| 0 <= k < |ids| && ids[k] == c;
    }
    forall c, d | c in s2.categories && d in s2.categories && c != d
      && s2.categories[c].inventory == s2.categories[d].inventory
      ensures s2.categories[c].displayOrder != s2.categories[d].displayOrder
    {
      if s.categories[c].inventory == inv {
        assert c in CategoriesOf(s, inv) && d in CategoriesOf(s, inv);
        var k :| 0 <= k < |ids| && ids[k] == c && s2.categories[c].displayOrder == k;
        var l :| 0 <= l < |ids| && ids[l] == d && s2.categories[d].displayOrder == l;
      }
    }
  }

  /** Two categories of inventory 1, ordered 0 and 1. */
  function TwoCategories(): Store {
    Store(
      map[1 := User("Ann", "Lee", "ann@x")],
      map[1 := Inventory(1, "Gifts", "")],
      map[],
      map[1 := Category(1, "a", "", 0, true), 2 := Category(1, "b", "", 1, true)],
      map[], map[], map[])
  }

  /** As written, the list [1, 1] passes the size check, and both categories
      end with display order 1. */
  lemma ReorderAsWrittenDuplicatesOrder()
    ensures DistinctOrders(TwoCategories())
    ensures ReorderCategoriesAsWritten(TwoCategories(), 1, 1, [1, 1]).Ok?
    ensures !DistinctOrders(ReorderCategoriesAsWritten(TwoCategories(), 1, 1, [1, 1]).value)
    ensures ReorderCategories(TwoCategories(), 1, 1, [1, 1]) == Fail(BadInput)
  {
    var s := TwoCategories();
    assert IsOwner(s, 1, 1);
    assert CategoriesOf(s, 1) == {1, 2};
    var cs := AssignPositions(s.categories, [1, 1], 0);
    assert [1, 1][1..] == [1];
    assert cs[1].displayOrder == 1;
    assert cs[2].displayOrder == 1;
  }
}
