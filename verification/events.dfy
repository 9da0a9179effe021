/** The change notifications the services publish (InventoryEventDTO): a type
    string fixed by the factory used, the inventory and item concerned, a
    claim id for the three claim-related kinds only, and a timestamp.
 */
module Events {
  import opened Outcomes
  import opened Domain
  import Text

  /** One kind per factory. The collect/uncollect factories are called by the
      item service but are not part of the shown record; they are modelled
      after the pattern of the others. */
  datatype EventKind =
    | ItemCreated | ItemUpdated | ItemDeleted | ItemUndeleted
    | ClaimCreated | ClaimDeleted | ItemAssigned | ItemUnassigned
    | ItemCollected | ItemUncollected

  /** The type string each factory writes into the event. */
  function TypeName(k: EventKind): string {
    match k
    case ItemCreated => "ITEM_CREATED"
    case ItemUpdated => "ITEM_UPDATED"
    case ItemDeleted => "ITEM_DELETED"
    case ItemUndeleted => "ITEM_UNDELETED"
    case ClaimCreated => "CLAIM_CREATED"
    case ClaimDeleted => "CLAIM_DELETED"
    case ItemAssigned => "ITEM_ASSIGNED"
    case ItemUnassigned => "ITEM_UNASSIGNED"
    case ItemCollected => "ITEM_COLLECTED"
    case ItemUncollected => "ITEM_UNCOLLECTED"
  }

  /** Reads a type string back as a kind: the inverse of `TypeName`. */
  function ParseType(s: string): (r: Option<EventKind>)
    ensures r.Some? ==> TypeName(r.value) == s
  {
    if s == "ITEM_CREATED" then Some(ItemCreated)
    else if s == "ITEM_UPDATED" then Some(ItemUpdated)
    else if s == "ITEM_DELETED" then Some(ItemDeleted)
    else if s == "ITEM_UNDELETED" then Some(ItemUndeleted)
    else if s == "CLAIM_CREATED" then Some(ClaimCreated)
    else if s == "CLAIM_DELETED" then Some(ClaimDeleted)
    else if s == "ITEM_ASSIGNED" then Some(ItemAssigned)
    else if s == "ITEM_UNASSIGNED" then Some(ItemUnassigned)
    else if s == "ITEM_COLLECTED" then Some(ItemCollected)
    else if s == "ITEM_UNCOLLECTED" then Some(ItemUncollected)
    else None
  }

  /** Every type string reads back as the kind that wrote it, so distinct
      factories never produce the same type. */
  lemma ParseTypeName(k: EventKind)
    ensures ParseType(TypeName(k)) == Some(k)
  {
    match k
    case ItemCreated =>
    case ItemUpdated =>
      assert TypeName(k)[5] != "ITEM_CREATED"[5];
    case ItemDeleted =>
      assert TypeName(k)[5] != "ITEM_CREATED"[5];
      assert TypeName(k)[5] != "ITEM_UPDATED"[5];
    case ItemUndeleted =>
    case ClaimCreated =>
    case ClaimDeleted =>
      assert TypeName(k)[6] != "CLAIM_CREATED"[6];
    case ItemAssigned =>
      assert TypeName(k)[5] != "ITEM_CREATED"[5];
      assert TypeName(k)[5] != "ITEM_UPDATED"[5];
      assert TypeName(k)[5] != "ITEM_DELETED"[5];
    case ItemUnassigned =>
      assert TypeName(k)[7] != "ITEM_UNDELETED"[7];
    case ItemCollected =>
      assert TypeName(k)[5] != "ITEM_CREATED"[5] || TypeName(k)[6] != "ITEM_CREATED"[6];
      assert TypeName(k)[5] != "ITEM_UPDATED"[5];
      assert TypeName(k)[5] != "ITEM_DELETED"[5];
      assert TypeName(k)[5] != "ITEM_ASSIGNED"[5];
    case ItemUncollected =>
      assert TypeName(k)[7] != "ITEM_UNDELETED"[7];
      assert TypeName(k)[7] != "ITEM_UNASSIGNED"[7];
  }

  /** The three kinds whose factories take a claim id. */
  predicate CarriesClaim(k: EventKind) {
    k == ClaimCreated || k == ClaimDeleted || k == ItemAssigned
  }

  datatype InventoryEvent = InventoryEvent(
    eventType: string,
    inventoryId: InventoryId,
    itemId: ItemId,
    claimId: Option<ClaimId>,
    timestamp: Instant)

  /** The kind an event was made by, read from its type string. */
  function KindOf(e: InventoryEvent): Option<EventKind> {
    ParseType(e.eventType)
  }

  /** The factories without a claim id: itemCreated, itemUpdated, itemDeleted,
      itemUndeleted, itemUnassigned, itemCollected, itemUncollected. `now`
      stands for the clock reading the factory takes. */
  function ItemEvent(k: EventKind, inv: InventoryId, item: ItemId, now: Instant): (e: InventoryEvent)
    requires !CarriesClaim(k)
    ensures KindOf(e) == Some(k)
    ensures e.inventoryId == inv && e.itemId == item && e.timestamp == now
    ensures e.claimId.None?
  {
    ParseTypeName(k);
    InventoryEvent(TypeName(k), inv, item, None, now)
  }

  /** The factories with a claim id: claimCreated, claimDeleted, itemAssigned. */
  function ClaimEvent(k: EventKind, inv: InventoryId, item: ItemId, claim: ClaimId, now: Instant): (e: InventoryEvent)
    requires CarriesClaim(k)
    ensures KindOf(e) == Some(k)
    ensures e.inventoryId == inv && e.itemId == item && e.timestamp == now
    ensures e.claimId == Some(claim)
  {
    ParseTypeName(k);
    InventoryEvent(TypeName(k), inv, item, Some(claim), now)
  }

  /** An event made by one of the factories: its claim id is present exactly
      for the claim-carrying kinds. */
  predicate WellFormed(e: InventoryEvent) {
    match KindOf(e)
    case Some(k) => e.claimId.Some? <==> CarriesClaim(k)
    case None => false
  }

  /** Both factories produce well-formed events. */
  lemma FactoriesAreWellFormed(k: EventKind, inv: InventoryId, item: ItemId, claim: ClaimId, now: Instant)
    ensures !CarriesClaim(k) ==> WellFormed(ItemEvent(k, inv, item, now))
    ensures CarriesClaim(k) ==> WellFormed(ClaimEvent(k, inv, item, claim, now))
  {
  }

  /** The name an event is sent under: its type, lower-cased. */
  function EventName(e: InventoryEvent): (name: string)
    ensures Text.EqualsIgnoreCase(name, e.eventType)
    ensures forall i :: 0 <= i < |name| ==> !('A' <= name[i] <= 'Z')
  {
    Text.ToLower(e.eventType)
  }

  /** What a successful service call commits: the new store, the value it
      returns and the events it publishes, in publishing order. */
  datatype Committed<+T> = Committed(store: Store, value: T, events: seq<InventoryEvent>)
}
