/** The item lifecycle of ItemService: creation with reference numbering in
    the inventory or in a category, description and image updates, soft
    delete and undelete, collect and uncollect. Every mutation checks, in
    order: the inventory exists (NotFound), the caller may edit it
    (NotAuthorized), the item exists in the required state (NotFound); it then
    saves the item and publishes exactly one event.
 */
module Items {
  import opened Outcomes
  import opened Domain
  import opened Access
  import opened Events
  import ItemQueries

  // ---------------------------------------------------------------------------
  // Environment
  // ---------------------------------------------------------------------------

  /** ImageService as an oracle: compressing an upload for a reference number
      and making its thumbnail, each producing bytes or failing. */
  datatype ImageProcessor = ImageProcessor(
    compress: (Bytes, int) -> Option<Bytes>,
    thumbnail: Bytes -> Option<Bytes>)

  /** Both images of an upload, or BadInput when either step fails. */
  function ProcessImage(images: ImageProcessor, data: Bytes, ref: int): (r: Result<(Bytes, Bytes)>)
    ensures r.Ok? <==> images.compress(data, ref).Some? && images.thumbnail(data).Some?
    ensures r.Ok? ==> r.value == (images.compress(data, ref).value, images.thumbnail(data).value)
    ensures r.Fail? ==> r.error == BadInput
  {
    match images.compress(data, ref)
    case None => Fail(BadInput)
    case Some(image) =>
      match images.thumbnail(data)
      case None => Fail(BadInput)
      case Some(thumb) => Ok((image, thumb))
  }

  /** The optional upload at creation: no images when the data is empty. */
  function ProcessUpload(images: ImageProcessor, data: Bytes, ref: int): (r: Result<(Bytes, Bytes)>)
    ensures |data| == 0 ==> r == Ok(([], []))
    ensures |data| > 0 ==> r == ProcessImage(images, data, ref)
  {
    if |data| > 0 then ProcessImage(images, data, ref) else Ok(([], []))
  }

  /** What saving an entity writes: the update timestamp moves to `now` only
      when some field actually changed. */
  function Saved(before: Item, after: Item, now: Instant): (it: Item)
    ensures it.(updatedAt := after.updatedAt) == after
    ensures it.updatedAt == if after == before then before.updatedAt else now
  {
    if after == before then before else after.(updatedAt := now)
  }

  // ---------------------------------------------------------------------------
  // Guards
  // ---------------------------------------------------------------------------

  /** The common checks of every mutation; `live` selects the non-deleted
      finder (`findByInventoryAndIdAndIsDeletedFalse`) over the one that also
      finds deleted items (`findByInventoryAndId`). */
  function EditableItem(s: Store, u: UserId, inv: InventoryId, item: ItemId, live: bool): (r: Result<Item>)
    ensures inv !in s.inventories ==> r == Fail(NotFound)
    ensures inv in s.inventories && !CanEdit(s, inv, u) ==> r == Fail(NotAuthorized)
    ensures r.Ok? <==> inv in s.inventories && CanEdit(s, inv, u) && (if live then IsLiveItem(s, inv, item) else IsItemOf(s, inv, item))
    ensures r.Ok? ==> item in s.items && r.value == s.items[item]
    ensures r.Fail? && inv in s.inventories && CanEdit(s, inv, u) ==> r.error == NotFound
  {
    var _ :- FindInventory(s, inv);
    :- Require(CanEdit(s, inv, u), NotAuthorized);
    if live && IsLiveItem(s, inv, item) then Ok(s.items[item])
    else if !live && IsItemOf(s, inv, item) then Ok(s.items[item])
    else Fail(NotFound)
  }

  /** The caller may edit the existing inventory. */
  predicate MayEdit(s: Store, u: UserId, inv: InventoryId) {
    inv in s.inventories && CanEdit(s, inv, u)
  }

  // ---------------------------------------------------------------------------
  // Numbering
  // ---------------------------------------------------------------------------

  /** The numbering fields of every item are unchanged, and no item appears or
      disappears. */
  predicate SameNumbering(s: Store, s2: Store) {
    s2.items.Keys == s.items.Keys
    && forall i :: i in s.items ==>
         s2.items[i].inventory == s.items[i].inventory
         && s2.items[i].category == s.items[i].category
         && s2.items[i].referenceNumber == s.items[i].referenceNumber
  }

  /** Reference numbers do not repeat within a scope: among the uncategorised
      items of an inventory, and among the items of one category. */
  ghost predicate DistinctReferences(s: Store) {
    forall i, j :: i in s.items && j in s.items && i != j
      && s.items[i].inventory == s.items[j].inventory
      && s.items[i].category == s.items[j].category
      ==> s.items[i].referenceNumber != s.items[j].referenceNumber
  }

  /** The stored fields of a newly created item. */
  function NewItem(inv: InventoryId, cat: Option<CategoryId>, ref: int, description: string, images: (Bytes, Bytes), now: Instant): (it: Item)
    ensures !it.isDeleted && !it.isCollected && it.createdAt == now && it.updatedAt == now
  {
    Item(inv, cat, ref, description, images.0, images.1, false, false, now, now)
  }

  // ---------------------------------------------------------------------------
  // Creation
  // ---------------------------------------------------------------------------

  /** `createItem`: the next number in the inventory, an optional image, and an
      ITEM_CREATED event. `id` is the fresh database id. */
  function CreateItem(s: Store, u: UserId, inv: InventoryId, description: string, data: Bytes, images: ImageProcessor, id: ItemId, now: Instant): (r: Result<Committed<Item>>)
    requires id !in s.items
    ensures inv !in s.inventories ==> r == Fail(NotFound)
    ensures inv in s.inventories && !CanEdit(s, inv, u) ==> r == Fail(NotAuthorized)
    ensures MayEdit(s, u, inv) ==> (r.Fail? <==> ProcessUpload(images, data, ItemQueries.MaxReferenceNumber(s, inv) + 1).Fail?)
    ensures r.Fail? && MayEdit(s, u, inv) ==> r.error == BadInput
    ensures r.Ok? ==> r.value.store == s.(items := s.items[id := r.value.value])
    ensures r.Ok? ==> r.value.value.inventory == inv && r.value.value.category.None?
    ensures r.Ok? ==> r.value.value.description == description
    ensures r.Ok? ==> r.value.value.referenceNumber == ItemQueries.MaxReferenceNumber(s, inv) + 1
    ensures r.Ok? ==> forall i :: IsItemOf(s, inv, i) ==> s.items[i].referenceNumber < r.value.value.referenceNumber
    ensures r.Ok? && (forall i :: i in s.items ==> s.items[i].inventory != inv) ==> r.value.value.referenceNumber == 1
    ensures r.Ok? ==> !r.value.value.isDeleted && !r.value.value.isCollected
    ensures r.Ok? ==> r.value.events == [ItemEvent(ItemCreated, inv, id, now)]
  {
    var _ :- FindInventory(s, inv);
    :- Require(CanEdit(s, inv, u), NotAuthorized);
    var ref := ItemQueries.MaxReferenceNumber(s, inv) + 1;
    var pictures :- ProcessUpload(images, data, ref);
    var it := NewItem(inv, None, ref, description, pictures, now);
    Ok(Committed(s.(items := s.items[id := it]), it, [ItemEvent(ItemCreated, inv, id, now)]))
  }

  /** `createItemInCategory`: as `createItem`, after the category check
      (NotFound), with the next number in the category. */
  function CreateItemInCategory(s: Store, u: UserId, inv: InventoryId, cat: CategoryId, description: string, data: Bytes, images: ImageProcessor, id: ItemId, now: Instant): (r: Result<Committed<Item>>)
    requires id !in s.items
    ensures inv !in s.inventories ==> r == Fail(NotFound)
    ensures inv in s.inventories && !CanEdit(s, inv, u) ==> r == Fail(NotAuthorized)
    ensures MayEdit(s, u, inv) && !IsCategoryOf(s, inv, cat) ==> r == Fail(NotFound)
    ensures MayEdit(s, u, inv) && IsCategoryOf(s, inv, cat) ==> (r.Fail? <==> ProcessUpload(images, data, ItemQueries.MaxReferenceNumberByCategory(s, cat) + 1).Fail?)
    ensures r.Ok? ==> r.value.store == s.(items := s.items[id := r.value.value])
    ensures r.Ok? ==> r.value.value.inventory == inv && r.value.value.category == Some(cat)
    ensures r.Ok? ==> r.value.value.description == description
    ensures r.Ok? ==> r.value.value.referenceNumber == ItemQueries.MaxReferenceNumberByCategory(s, cat) + 1
    ensures r.Ok? ==> forall i :: i in s.items && s.items[i].category == Some(cat) ==> s.items[i].referenceNumber < r.value.value.referenceNumber
    ensures r.Ok? && (forall i :: i in s.items ==> s.items[i].category != Some(cat)) ==> r.value.value.referenceNumber == 1
    ensures r.Ok? ==> !r.value.value.isDeleted && !r.value.value.isCollected
    ensures r.Ok? ==> r.value.events == [ItemEvent(ItemCreated, inv, id, now)]
  {
    var _ :- FindInventory(s, inv);
    :- Require(CanEdit(s, inv, u), NotAuthorized);
    :- Require(IsCategoryOf(s, inv, cat), NotFound);
    var ref := ItemQueries.MaxReferenceNumberByCategory(s, cat) + 1;
    var pictures :- ProcessUpload(images, data, ref);
    var it := NewItem(inv, Some(cat), ref, description, pictures, now);
    Ok(Committed(s.(items := s.items[id := it]), it, [ItemEvent(ItemCreated, inv, id, now)]))
  }

  // ---------------------------------------------------------------------------
  // Updates
  // ---------------------------------------------------------------------------

  /** `updateItem`: a new description for a non-deleted item. */
  function UpdateItem(s: Store, u: UserId, inv: InventoryId, item: ItemId, description: string, now: Instant): (r: Result<Committed<Item>>)
    ensures r.Fail? <==> EditableItem(s, u, inv, item, true).Fail?
    ensures r.Fail? ==> r.error == EditableItem(s, u, inv, item, true).error
    ensures r.Ok? ==> r.value.store == s.(items := s.items[item := r.value.value])
    ensures r.Ok? ==> r.value.value.(description := s.items[item].description, updatedAt := s.items[item].updatedAt) == s.items[item]
    ensures r.Ok? ==> r.value.value.description == description
    ensures r.Ok? ==> r.value.events == [ItemEvent(ItemUpdated, inv, item, now)]
    ensures r.Ok? ==> SameNumbering(s, r.value.store)
  {
    var it :- EditableItem(s, u, inv, item, true);
    var saved := Saved(it, it.(description := description), now);
    Ok(Committed(s.(items := s.items[item := saved]), saved, [ItemEvent(ItemUpdated, inv, item, now)]))
  }

  /** `updateItemImage`: replaces both images of a non-deleted item; BadInput
      when processing fails. */
  function UpdateItemImage(s: Store, u: UserId, inv: InventoryId, item: ItemId, data: Bytes, images: ImageProcessor, now: Instant): (r: Result<Committed<Item>>)
    ensures EditableItem(s, u, inv, item, true).Fail? ==> r == Fail(EditableItem(s, u, inv, item, true).error)
    ensures EditableItem(s, u, inv, item, true).Ok? ==> (r.Fail? <==> ProcessImage(images, data, s.items[item].referenceNumber).Fail?)
    ensures r.Ok? ==> r.value.store == s.(items := s.items[item := r.value.value])
    ensures r.Ok? ==> r.value.value.image == images.compress(data, s.items[item].referenceNumber).value
    ensures r.Ok? ==> r.value.value.thumbnail == images.thumbnail(data).value
    ensures r.Ok? ==> r.value.value.(image := s.items[item].image, thumbnail := s.items[item].thumbnail, updatedAt := s.items[item].updatedAt) == s.items[item]
    ensures r.Ok? ==> r.value.events == [ItemEvent(ItemUpdated, inv, item, now)]
    ensures r.Ok? ==> SameNumbering(s, r.value.store)
  {
    var it :- EditableItem(s, u, inv, item, true);
    var pictures :- ProcessImage(images, data, it.referenceNumber);
    var saved := Saved(it, it.(image := pictures.0, thumbnail := pictures.1), now);
    Ok(Committed(s.(items := s.items[item := saved]), saved, [ItemEvent(ItemUpdated, inv, item, now)]))
  }

  /** Shared shape of the four flag operations: set one flag on the item found
      by the guard and publish one event. */
  function SetFlag(s: Store, inv: InventoryId, item: ItemId, it: Item, flagged: Item, k: EventKind, now: Instant): (c: Committed<()>)
    requires item in s.items && !CarriesClaim(k)
    ensures c.store == s.(items := s.items[item := Saved(it, flagged, now)])
    ensures c.events == [ItemEvent(k, inv, item, now)]
  {
    Committed(s.(items := s.items[item := Saved(it, flagged, now)]), (), [ItemEvent(k, inv, item, now)])
  }

  /** `deleteItem`: soft delete of a non-deleted item. */
  function DeleteItem(s: Store, u: UserId, inv: InventoryId, item: ItemId, now: Instant): (r: Result<Committed<()>>)
    ensures r.Fail? <==> EditableItem(s, u, inv, item, true).Fail?
    ensures r.Fail? ==> r.error == EditableItem(s, u, inv, item, true).error
    ensures r.Ok? ==> IsItemOf(s, inv, item) && !s.items[item].isDeleted
    ensures r.Ok? ==> r.value.store == s.(items := s.items[item := s.items[item].(isDeleted := true, updatedAt := now)])
    ensures r.Ok? ==> r.value.events == [ItemEvent(ItemDeleted, inv, item, now)]
    ensures r.Ok? ==> SameNumbering(s, r.value.store)
  {
    var it :- EditableItem(s, u, inv, item, true);
    Ok(SetFlag(s, inv, item, it, it.(isDeleted := true), ItemDeleted, now))
  }

  /** `undeleteItem`: clears the flag on an item found whether or not it is
      deleted. */
  function UndeleteItem(s: Store, u: UserId, inv: InventoryId, item: ItemId, now: Instant): (r: Result<Committed<()>>)
    ensures r.Fail? <==> EditableItem(s, u, inv, item, false).Fail?
    ensures r.Fail? ==> r.error == EditableItem(s, u, inv, item, false).error
    ensures r.Ok? ==> (item in s.items && item in r.value.store.items && !r.value.store.items[item].isDeleted
      && r.value.store.items[item].(updatedAt := s.items[item].updatedAt) == s.items[item].(isDeleted := false))
    ensures r.Ok? ==> r.value.store == s.(items := r.value.store.items) && r.value.store.items.Keys == s.items.Keys
    ensures r.Ok? ==> forall i :: i in s.items && i != item ==> r.value.store.items[i] == s.items[i]
    ensures r.Ok? ==> r.value.events == [ItemEvent(ItemUndeleted, inv, item, now)]
    ensures r.Ok? ==> SameNumbering(s, r.value.store)
  {
    var it :- EditableItem(s, u, inv, item, false);
    Ok(SetFlag(s, inv, item, it, it.(isDeleted := false), ItemUndeleted, now))
  }

  /** `collectItem`: a non-deleted item may be marked collected only while some
      claim on it is ASSIGNED (BadInput otherwise). */
  function CollectItem(s: Store, u: UserId, inv: InventoryId, item: ItemId, now: Instant): (r: Result<Committed<()>>)
    ensures EditableItem(s, u, inv, item, true).Fail? ==> r == Fail(EditableItem(s, u, inv, item, true).error)
    ensures EditableItem(s, u, inv, item, true).Ok? && !HasAssignedClaim(s, item) ==> r == Fail(BadInput)
    ensures r.Ok? <==> EditableItem(s, u, inv, item, true).Ok? && HasAssignedClaim(s, item)
    ensures r.Ok? ==> (item in s.items && item in r.value.store.items && r.value.store.items[item].isCollected
      && r.value.store.items[item].(updatedAt := s.items[item].updatedAt) == s.items[item].(isCollected := true))
    ensures r.Ok? ==> r.value.store == s.(items := r.value.store.items) && r.value.store.items.Keys == s.items.Keys
    ensures r.Ok? ==> forall i :: i in s.items && i != item ==> r.value.store.items[i] == s.items[i]
    ensures r.Ok? ==> r.value.events == [ItemEvent(ItemCollected, inv, item, now)]
    ensures r.Ok? ==> SameNumbering(s, r.value.store)
  {
    var it :- EditableItem(s, u, inv, item, true);
    :- Require(HasAssignedClaim(s, item), BadInput);
    Ok(SetFlag(s, inv, item, it, it.(isCollected := true), ItemCollected, now))
  }

  /** `uncollectItem`: clears the flag with no claim condition, on an item
      found whether or not it is deleted. */
  function UncollectItem(s: Store, u: UserId, inv: InventoryId, item: ItemId, now: Instant): (r: Result<Committed<()>>)
    ensures r.Fail? <==> EditableItem(s, u, inv, item, false).Fail?
    ensures r.Fail? ==> r.error == EditableItem(s, u, inv, item, false).error
    ensures r.Ok? ==> (item in s.items && item in r.value.store.items && !r.value.store.items[item].isCollected
      && r.value.store.items[item].(updatedAt := s.items[item].updatedAt) == s.items[item].(isCollected := false))
    ensures r.Ok? ==> r.value.store == s.(items := r.value.store.items) && r.value.store.items.Keys == s.items.Keys
    ensures r.Ok? ==> forall i :: i in s.items && i != item ==> r.value.store.items[i] == s.items[i]
    ensures r.Ok? ==> r.value.events == [ItemEvent(ItemUncollected, inv, item, now)]
    ensures r.Ok? ==> SameNumbering(s, r.value.store)
  {
    var it :- EditableItem(s, u, inv, item, false);
    Ok(SetFlag(s, inv, item, it, it.(isCollected := false), ItemUncollected, now))
  }

  // ---------------------------------------------------------------------------
  // Properties across operations
  // ---------------------------------------------------------------------------

  /** Only editors change items: every mutation refuses a caller who is neither
      the owner nor an ACTIVE ADMIN. */
  lemma MutationsNeedEditRights(s: Store, u: UserId, inv: InventoryId, item: ItemId, cat: CategoryId, description: string, data: Bytes, images: ImageProcessor, id: ItemId, now: Instant)
    requires id !in s.items
    requires inv in s.inventories && !CanEdit(s, inv, u)
    ensures CreateItem(s, u, inv, description, data, images, id, now) == Fail(NotAuthorized)
    ensures CreateItemInCategory(s, u, inv, cat, description, data, images, id, now) == Fail(NotAuthorized)
    ensures UpdateItem(s, u, inv, item, description, now) == Fail(NotAuthorized)
    ensures UpdateItemImage(s, u, inv, item, data, images, now) == Fail(NotAuthorized)
    ensures DeleteItem(s, u, inv, item, now) == Fail(NotAuthorized)
    ensures UndeleteItem(s, u, inv, item, now) == Fail(NotAuthorized)
    ensures CollectItem(s, u, inv, item, now) == Fail(NotAuthorized)
    ensures UncollectItem(s, u, inv, item, now) == Fail(NotAuthorized)
  {
  }

  /** Distinct references depend only on the numbering fields. */
  lemma SameNumberingKeepsDistinct(s: Store, s2: Store)
    requires DistinctReferences(s) && SameNumbering(s, s2)
    ensures DistinctReferences(s2)
  {
  }

  /** Creating an item in the inventory keeps references distinct: its number
      exceeds every number in the inventory, uncategorised or not. */
  lemma CreateItemKeepsDistinct(s: Store, u: UserId, inv: InventoryId, description: string, data: Bytes, images: ImageProcessor, id: ItemId, now: Instant)
    requires id !in s.items && DistinctReferences(s)
    requires CreateItem(s, u, inv, description, data, images, id, now).Ok?
    ensures DistinctReferences(CreateItem(s, u, inv, description, data, images, id, now).value.store)
  {
  }

  /** Creating an item in a category keeps references distinct: its number
      exceeds every number in the category. */
  lemma CreateItemInCategoryKeepsDistinct(s: Store, u: UserId, inv: InventoryId, cat: CategoryId, description: string, data: Bytes, images: ImageProcessor, id: ItemId, now: Instant)
    requires id !in s.items && DistinctReferences(s)
    requires CreateItemInCategory(s, u, inv, cat, description, data, images, id, now).Ok?
    ensures DistinctReferences(CreateItemInCategory(s, u, inv, cat, description, data, images, id, now).value.store)
  {
  }

  /** Undeleting a just-deleted item restores it, apart from the update
      timestamp. */
  lemma DeleteThenUndeleteRestores(s: Store, u: UserId, inv: InventoryId, item: ItemId, t1: Instant, t2: Instant)
    requires DeleteItem(s, u, inv, item, t1).Ok?
    ensures UndeleteItem(DeleteItem(s, u, inv, item, t1).value.store, u, inv, item, t2).Ok?
    ensures UndeleteItem(DeleteItem(s, u, inv, item, t1).value.store, u, inv, item, t2).value.store
            == s.(items := s.items[item := s.items[item].(updatedAt := t2)])
  {
    var s1 := DeleteItem(s, u, inv, item, t1).value.store;
    RightsDependOnMembershipsOnly(s, s1, inv, u);
  }

  /** Uncollecting a just-collected item restores it, apart from the update
      timestamp, when it was not collected before. */
  lemma CollectThenUncollectRestores(s: Store, u: UserId, inv: InventoryId, item: ItemId, t1: Instant, t2: Instant)
    requires CollectItem(s, u, inv, item, t1).Ok?
    requires !s.items[item].isCollected
    ensures UncollectItem(CollectItem(s, u, inv, item, t1).value.store, u, inv, item, t2).Ok?
    ensures UncollectItem(CollectItem(s, u, inv, item, t1).value.store, u, inv, item, t2).value.store
            == s.(items := s.items[item := s.items[item].(updatedAt := t2)])
  {
    var s1 := CollectItem(s, u, inv, item, t1).value.store;
    RightsDependOnMembershipsOnly(s, s1, inv, u);
  }

  /** A deleted item can no longer be updated, deleted or collected, but can
      still be undeleted and uncollected. */
  lemma DeletedItemFinders(s: Store, u: UserId, inv: InventoryId, item: ItemId, now: Instant)
    requires MayEdit(s, u, inv) && IsItemOf(s, inv, item) && s.items[item].isDeleted
    ensures DeleteItem(s, u, inv, item, now) == Fail(NotFound)
    ensures CollectItem(s, u, inv, item, now) == Fail(NotFound)
    ensures UndeleteItem(s, u, inv, item, now).Ok?
    ensures UncollectItem(s, u, inv, item, now).Ok?
  {
  }
}
