# Gift registry core, modelled in Dafny

The registry keeps inventories of items (a household's belongings, a wish
list). Members claim items they are interested in. The owner or an admin
assigns each item to one claimant and later marks it collected. The model
covers the service layer of the Spring application:

- access rules;
- items, categories, claims, memberships, invitations and inventories;
- the claims report;
- the change notifications the services publish;
- the in-memory registry of server-sent-event subscribers that fans those
  notifications out.

The whole model is functional:

- The database is one immutable `Domain.Store`: a finite map per table, keyed
  by natural-number ids.
- Every service call is a pure function. It returns either `Ok` with the new
  store, the value the Java method returns and the events it publishes
  (`Events.Committed`), or `Fail` with the exception kind it throws (NotFound,
  NotAuthorized, BadInput). A failure carries no state, so a call that throws
  leaves the store unchanged, as the transactional services do.
- Repository finders become set comprehensions over the maps. An `Optional`
  finder becomes the least matching id.
- List queries with an `ORDER BY` become a stable sort on an integer-sequence
  key (`Finite.SortBy`). Unordered list queries return ascending ids.
- Database-generated ids, the clock, the random invitation token, image
  processing and whether a network send succeeds are parameters of the
  operations that use them.

The modules follow the services:

| file | module | models |
|---|---|---|
| outcomes.dfy | `Outcomes` | results, guards, exception kinds |
| finite.dfy | `Finite`, `Seqs` | least element, sorting, order-keeping filters |
| text.dfy | `Text` | `toLowerCase`, `trim`, `equalsIgnoreCase`, `compareToIgnoreCase` keys |
| domain.dfy | `Domain` | entities, store, repository finders |
| access.dfy | `Access` | view / edit / claim rights, the inventory guards, the finished-claimant lock |
| events.dfy | `Events` | InventoryEventDTO and its factories |
| event_hub.dfy | `EventHub` | InventoryEventService: subscribe, publish, heartbeats, removal |
| claims.dfy | `Claims` | ClaimService lifecycle |
| claim_report.dfy | `ClaimReport` | ClaimService.getAllClaims |
| item_queries.dfy | `ItemQueries` | ItemRepository queries |
| items.dfy | `Items` | ItemService writes |
| item_views.dfy | `ItemViews` | ItemService reads and the claim summaries |
| members.dfy | `Members` | MemberService |
| categories.dfy | `Categories` | CategoryService |
| inventories.dfy | `Inventories` | InventoryService |
| invitations.dfy | `Invitations` | InvitationService and the Invitation entity |

The subscriber registry's `removeEmitter` lowers a user's connection counter
even for an entry that is no longer registered (the first row under
"## Findings"). The model keeps this code as written in
`EventHub.RemoveEmitterAsWritten` and `EventHub.DisconnectAsWritten`. Every
operation built on top of them uses the corrected `EventHub.RemoveEmitter`:
`Subscribe`, `Publish`, the heartbeats and the emitter callbacks
(`EventHub.Disconnect`). For publishing, the heartbeats and a failed connected
send, the corrected removal is the code as written: there the entry is always
still registered (`EventHub.RemoveEmitterAgreesWhenHeld`). The two differ only
in the callbacks, for an entry that an earlier removal already took out.

Source paths below are relative to the repository root.

## Model

| member | source | states |
|---|---|---|
| Outcomes.Require | src/main/java/com/requillion/solutions/inventory/service/ClaimService.java:304-315 | A guard lets the call continue exactly when its condition holds; otherwise it throws the given exception kind. |
| Text.LowerChar | src/main/java/com/requillion/solutions/inventory/service/InvitationService.java:69 | A capital ASCII letter maps to its small letter, 32 code points up; every other character maps to itself. |
| Text.ToLower | src/main/java/com/requillion/solutions/inventory/service/InvitationService.java:69 | `toLowerCase` keeps the length and lower-cases each character in place. |
| Text.ToLowerIdempotent | src/main/java/com/requillion/solutions/inventory/service/InvitationService.java:69 | Lower-casing an already lower-cased string changes nothing. |
| Text.ToLowerHasNoCapitals | src/main/java/com/requillion/solutions/inventory/service/InvitationService.java:69 | A lower-cased string holds no capital letter. |
| Text.TrimStart | src/main/java/com/requillion/solutions/inventory/service/InvitationService.java:69 | The result is a suffix of the input; every dropped character is a control or space character, and the result does not start with one. |
| Text.TrimEnd | src/main/java/com/requillion/solutions/inventory/service/InvitationService.java:69 | The result is a prefix of the input; every dropped character is a control or space character, and the result does not end with one. |
| Text.LeadingTrimmable | src/main/java/com/requillion/solutions/inventory/service/InvitationService.java:69 | Counts exactly the maximal run of strippable characters at the start. |
| Text.Trim | src/main/java/com/requillion/solutions/inventory/service/InvitationService.java:69 | `trim` returns one contiguous slice of the input with nothing strippable at either end, and everything cut off was strippable. |
| Text.TrimOfTrimmed | src/main/java/com/requillion/solutions/inventory/service/InvitationService.java:69 | A string with nothing to strip is its own trim. |
| Text.EqualsIgnoreCaseIffSameLower | src/main/java/com/requillion/solutions/inventory/service/InvitationService.java:112 | Two strings are equal ignoring case if and only if their lower-case forms are equal. |
| Text.EqualsIgnoreCaseToLower | src/main/java/com/requillion/solutions/inventory/service/InvitationService.java:112 | A string equals its own lower-case form, ignoring case. |
| Text.IgnoreCaseKey | src/main/java/com/requillion/solutions/inventory/service/ClaimService.java:235-239 | The sort key of `compareToIgnoreCase` has one case-folded code point per character. |
| Text.IgnoreCaseKeyRespectsCase | src/main/java/com/requillion/solutions/inventory/service/ClaimService.java:235-239 | Names equal ignoring case get the same key, so the name sort treats them as ties. |
| Domain.FindInventory | src/main/java/com/requillion/solutions/inventory/repository/InventoryRepository.java:17 | `findById` succeeds exactly for a stored inventory and returns it; otherwise it throws NotFound. |
| Domain.MembershipOf | src/main/java/com/requillion/solutions/inventory/repository/InventoryMemberRepository.java:18 | `findByInventoryAndUser` is empty exactly when the user has no membership of the inventory, and otherwise returns one of the user's memberships of it. |
| Domain.ClaimOf | src/main/java/com/requillion/solutions/inventory/repository/ItemClaimRepository.java:21 | `findByItemAndUser` is empty exactly when no claim of that user on that item exists, and otherwise returns such a claim. |
| Domain.AssignedClaimOn | src/main/java/com/requillion/solutions/inventory/repository/ItemClaimRepository.java:23-25 | `findByItemAndStatus(ASSIGNED)` is empty exactly when `existsByItemAndStatus` is false, and otherwise returns an ASSIGNED claim on the item. |
| Domain.MembershipOfUnique | src/main/java/com/requillion/solutions/inventory/repository/InventoryMemberRepository.java:18 | With at most one membership per user and inventory, the lookup returns that membership. |
| Access.ViewAccess | src/main/java/com/requillion/solutions/inventory/service/CategoryService.java:181-194 | The read guard: NotFound for a missing inventory, NotAuthorized for a caller who may not view it, and otherwise the inventory. |
| Access.EditAccess | src/main/java/com/requillion/solutions/inventory/service/CategoryService.java:196-209 | The write guard: NotFound for a missing inventory, NotAuthorized for a caller who may not edit it, and otherwise the inventory. |
| Access.CheckNotFinishedClaimant | src/main/java/com/requillion/solutions/inventory/service/ClaimService.java:304-315 | The owner always passes. A refusal is BadInput and happens only for a user whose membership is CLAIMANT with a finish time. |
| Access.CanViewCharacterised | src/main/java/com/requillion/solutions/inventory/service/InventoryService.java:197-204 | Under unique memberships, viewing is allowed exactly for the owner and for holders of an ACTIVE membership. |
| Access.RightsAreNested | src/main/java/com/requillion/solutions/inventory/service/ClaimService.java:278-302 | Every user who may edit may claim, and every user who may claim may view. |
| Access.ViewerMayNotClaim | src/main/java/com/requillion/solutions/inventory/service/ClaimService.java:287-302 | A non-owner whose memberships are all VIEWER may neither claim nor edit. |
| Access.FinishedLockBindsOnlyClaimants | src/main/java/com/requillion/solutions/inventory/service/ClaimService.java:304-315 | The owner, and every member whose role is not CLAIMANT, pass the finished-claimant check. |
| Access.RightsDependOnMembershipsOnly | src/main/java/com/requillion/solutions/inventory/service/InventoryService.java:197-220 | The rights and the finished lock depend on the inventories and memberships tables alone. |
| Events.ParseType | src/main/java/com/requillion/solutions/inventory/dto/InventoryEventDTO.java:12-42 | Reading a type string back yields a kind whose factory writes exactly that string. |
| Events.ParseTypeName | src/main/java/com/requillion/solutions/inventory/dto/InventoryEventDTO.java:12-42 | Every factory's type string reads back as that factory's kind, so no two factories share a type. |
| Events.ItemEvent | src/main/java/com/requillion/solutions/inventory/dto/InventoryEventDTO.java:12-26 | The item factories produce an event of the requested kind for the given inventory, item and time, with no claim id. |
| Events.ClaimEvent | src/main/java/com/requillion/solutions/inventory/dto/InventoryEventDTO.java:28-38 | The claim factories produce an event of the requested kind for the given inventory, item, claim and time. |
| Events.FactoriesAreWellFormed | src/main/java/com/requillion/solutions/inventory/dto/InventoryEventDTO.java:12-42 | Every factory's event carries a claim id exactly when its kind is CLAIM_CREATED, CLAIM_DELETED or ITEM_ASSIGNED. |
| Events.EventName | src/main/java/com/requillion/solutions/inventory/service/InventoryEventService.java:74-76 | The send name equals the type ignoring case and contains no capitals. |
| EventHub.ValidCapsEntries | src/main/java/com/requillion/solutions/inventory/service/InventoryEventService.java:22 | In a consistent registry no user holds more than five live entries. |
| EventHub.RemoveFirst | src/main/java/com/requillion/solutions/inventory/service/InventoryEventService.java:110 | `List.remove` drops the first occurrence of the entry, keeps every other element in order, and leaves the list unchanged when the entry is absent. |
| EventHub.RemoveEmitterAsWritten | src/main/java/com/requillion/solutions/inventory/service/InventoryEventService.java:107-117 | The code as written: the first occurrence of the entry is removed from its inventory's list, and the user's counter drops by one whenever the counter exists, whether or not the entry was still registered. |
| EventHub.RemoveEmitter | src/main/java/com/requillion/solutions/inventory/service/InventoryEventService.java:107-117 | Corrected removal: a registered entry is removed from its list and its user's counter drops by one; nothing changes when the entry is not registered; other users' counters and other inventories' lists are never touched. |
| EventHub.RemoveEmitterAgreesWhenHeld | src/main/java/com/requillion/solutions/inventory/service/InventoryEventService.java:107-117 | For a registered entry the corrected removal does what the code does. |
| EventHub.RemoveEmitterPreservesValid | src/main/java/com/requillion/solutions/inventory/service/InventoryEventService.java:107-117 | Removal keeps counters equal to the entry counts, within the cap, and lists free of repeats. |
| EventHub.RemoveEmitterIdempotent | src/main/java/com/requillion/solutions/inventory/service/InventoryEventService.java:107-117 | Removing the same entry twice is the same as removing it once. |
| EventHub.RemoveEmitterTwiceKeepsCap | src/main/java/com/requillion/solutions/inventory/service/InventoryEventService.java:47-57 | A second callback for the same entry (for example an error after a failed connect) leaves the registry valid and every user within the cap. |
| EventHub.RemoveEmitterAsWrittenDecrementsTwice | src/main/java/com/requillion/solutions/inventory/service/InventoryEventService.java:107-117 | Counterexample: two callbacks for one entry drive the counter from 1 to -1. |
| EventHub.DriftedCounterAdmitsSix | src/main/java/com/requillion/solutions/inventory/service/InventoryEventService.java:29-45 | Counterexample: with the counter at -1 the cap check admits six simultaneous subscriptions. |
| EventHub.SendAll | src/main/java/com/requillion/solutions/inventory/service/InventoryEventService.java:72-80 | A broadcast attempts one send of the message per entry, in list order. |
| EventHub.Dead | src/main/java/com/requillion/solutions/inventory/service/InventoryEventService.java:70-80 | The dead list holds exactly the entries whose send failed. |
| EventHub.Survivors | src/main/java/com/requillion/solutions/inventory/service/InventoryEventService.java:70-84 | The entries that remain are exactly those whose send succeeded. |
| EventHub.RemoveAll | src/main/java/com/requillion/solutions/inventory/service/InventoryEventService.java:82-84 | Removing the dead entries one by one touches only that inventory's list and keeps the registry valid. |
| EventHub.Broadcast | src/main/java/com/requillion/solutions/inventory/service/InventoryEventService.java:70-84 | One send per subscriber; afterwards the list holds exactly the subscribers whose send succeeded, and validity is kept. |
| EventHub.ValidListLeavesSurvivors | src/main/java/com/requillion/solutions/inventory/service/InventoryEventService.java:82-84 | In a repeat-free list, removing the dead entries leaves exactly the survivors in order. |
| EventHub.Subscribe | src/main/java/com/requillion/solutions/inventory/service/InventoryEventService.java:29-62 | The sixth connection of a user throws BadInput and changes nothing observable. Otherwise the new entry is appended, the counter rises by one, and one `connected` send is made. When that send fails, the entry is removed again: the list and the counter are back where they were. |
| EventHub.FreshEntryRemoved | src/main/java/com/requillion/solutions/inventory/service/InventoryEventService.java:45-58 | Removing a freshly appended entry whose emitter was not registered gives back the list as it was before the append. |
| EventHub.SubscribePreservesValid | src/main/java/com/requillion/solutions/inventory/service/InventoryEventService.java:29-62 | Subscribing a fresh emitter keeps the registry valid, whether it is refused, connects, or fails to connect. |
| EventHub.Publish | src/main/java/com/requillion/solutions/inventory/service/InventoryEventService.java:64-88 | With no subscribers nothing happens. Otherwise each subscriber is sent the event under its lower-cased type, and the failed ones are dropped. |
| EventHub.HeartbeatEach | src/main/java/com/requillion/solutions/inventory/service/InventoryEventService.java:92-104 | Heartbeats for a series of inventories touch only those inventories' lists and keep the registry valid. |
| EventHub.HeartbeatSends | src/main/java/com/requillion/solutions/inventory/service/InventoryEventService.java:92-100 | Every send of a round is a heartbeat carrying `now`, and every entry listed under a visited inventory is sent one. |
| EventHub.HeartbeatSendsToListed | src/main/java/com/requillion/solutions/inventory/service/InventoryEventService.java:92-100 | Every heartbeat of a round goes to an emitter listed under one of the visited inventories. |
| EventHub.HeartbeatSendsCoverKeys | src/main/java/com/requillion/solutions/inventory/service/InventoryEventService.java:92-100 | A round over every inventory reaches every entry of every list. |
| EventHub.HeartbeatSendsOfListed | src/main/java/com/requillion/solutions/inventory/service/InventoryEventService.java:92-100 | A round's heartbeats depend only on the lists of the inventories it visits. |
| EventHub.HeartbeatEachSends | src/main/java/com/requillion/solutions/inventory/service/InventoryEventService.java:92-104 | Over distinct inventories, the round sends exactly the heartbeats for the lists as they stood before it: pruning one inventory does not change what the next ones are sent. |
| EventHub.SendHeartbeats | src/main/java/com/requillion/solutions/inventory/service/InventoryEventService.java:91-105 | The heartbeat round keeps the set of inventories and the registry's validity. |
| EventHub.SendHeartbeatsSends | src/main/java/com/requillion/solutions/inventory/service/InventoryEventService.java:91-100 | The round sends each inventory's entries a heartbeat, inventory by inventory in ascending id order, using the lists as they stood before the round. |
| EventHub.HeartbeatsReachEveryEntry | src/main/java/com/requillion/solutions/inventory/service/InventoryEventService.java:92-98 | Every entry held before the round is sent a heartbeat carrying `now`. |
| EventHub.HeartbeatsCarryNow | src/main/java/com/requillion/solutions/inventory/service/InventoryEventService.java:95-98 | Every send of the round is a heartbeat carrying `now`. |
| EventHub.HeartbeatsOnlyToHeld | src/main/java/com/requillion/solutions/inventory/service/InventoryEventService.java:92-98 | The round sends only to emitters that were held before it. |
| EventHub.HeartbeatsKeepSurvivors | src/main/java/com/requillion/solutions/inventory/service/InventoryEventService.java:91-105 | After a heartbeat round every list holds exactly the subscribers whose heartbeat succeeded. |
| EventHub.Disconnect | src/main/java/com/requillion/solutions/inventory/service/InventoryEventService.java:47-49 | Corrected callbacks: a completion, timeout or error callback removes a registered entry and lowers its user's counter by exactly one; for an entry no longer registered it changes nothing. |
| EventHub.DisconnectFacts | src/main/java/com/requillion/solutions/inventory/service/InventoryEventService.java:47-49 | In a valid registry a registered entry has a counter, and removing it leaves no copy in its list. |
| EventHub.DisconnectAsWritten | src/main/java/com/requillion/solutions/inventory/service/InventoryEventService.java:47-49 | The callbacks as written: for a registered entry they do what the corrected callbacks do. For an entry no longer registered they leave the lists alone but still lower the counter. |
| EventHub.DisconnectAsWrittenBreaksConsistency | src/main/java/com/requillion/solutions/inventory/service/InventoryEventService.java:47-49 | In a valid registry, a callback for an entry no longer registered leaves the counter one below the user's entries, so counters and entries disagree. |
| Claims.ItemWithAccess | src/main/java/com/requillion/solutions/inventory/service/ClaimService.java:260-276 | The check order is inventory NotFound, then viewing rights NotAuthorized, then live item of that inventory NotFound. |
| Claims.CreateClaim | src/main/java/com/requillion/solutions/inventory/service/ClaimService.java:36-67 | Succeeds exactly for a viewable live item, a caller with claim rights, a caller not locked as finished, and no existing claim. The new claim is INTERESTED, only the claims table changes, and one CLAIM_CREATED event is published. Each failure has its own exception kind. |
| Claims.WithdrawClaim | src/main/java/com/requillion/solutions/inventory/service/ClaimService.java:69-92 | Only the caller's own INTERESTED claim can be withdrawn, and it is removed with a CLAIM_DELETED event. A missing claim is NotFound; an ASSIGNED claim or a finished claimant is BadInput. |
| Claims.GetClaims | src/main/java/com/requillion/solutions/inventory/service/ClaimService.java:94-105 | For a viewable live item, lists exactly the claims on the item, without repeats. |
| Claims.AssignItem | src/main/java/com/requillion/solutions/inventory/service/ClaimService.java:107-144 | Only an editor can assign, only while no claim is ASSIGNED, and only a claim on this item: a missing claim is NotFound and a claim of another item is BadInput. Exactly that claim becomes ASSIGNED and ITEM_ASSIGNED is published. |
| Claims.UnassignItem | src/main/java/com/requillion/solutions/inventory/service/ClaimService.java:146-165 | An editor turns the item's ASSIGNED claim back to INTERESTED; claims on other items are unchanged; NotFound when nothing is assigned. |
| Claims.OnlyOneAssigned | src/main/java/com/requillion/solutions/inventory/service/ClaimService.java:116-124 | Under the one-assignment invariant, every other claim on an item with an ASSIGNED claim is INTERESTED. |
| Claims.DeleteClaim | src/main/java/com/requillion/solutions/inventory/service/ClaimService.java:167-192 | An editor removes any claim on the item, whatever its status, with a CLAIM_DELETED event. A missing claim is NotFound; a claim of another item is BadInput. |
| Claims.CreateClaimPreservesInvariants | src/main/java/com/requillion/solutions/inventory/service/ClaimService.java:36-67 | Creating a claim keeps one claim per item and user, and at most one ASSIGNED claim per item. |
| Claims.WithdrawClaimPreservesInvariants | src/main/java/com/requillion/solutions/inventory/service/ClaimService.java:69-92 | Withdrawing keeps both claim invariants. |
| Claims.AssignItemPreservesInvariants | src/main/java/com/requillion/solutions/inventory/service/ClaimService.java:107-144 | Assigning keeps at most one ASSIGNED claim per item. |
| Claims.UnassignItemPreservesInvariants | src/main/java/com/requillion/solutions/inventory/service/ClaimService.java:146-165 | Unassigning keeps both claim invariants. |
| Claims.DeleteClaimPreservesInvariants | src/main/java/com/requillion/solutions/inventory/service/ClaimService.java:167-192 | Deleting a claim keeps both claim invariants. |
| Claims.AssignThenUnassignRestores | src/main/java/com/requillion/solutions/inventory/service/ClaimService.java:107-165 | Assigning an INTERESTED claim and then unassigning the item restores the original store. |
| ClaimReport.InventoryClaims | src/main/java/com/requillion/solutions/inventory/service/ClaimService.java:214 | Lists exactly the claims on the inventory's items, deleted items included, in ascending id order. |
| ClaimReport.EligibleMembers | src/main/java/com/requillion/solutions/inventory/service/ClaimService.java:207-208 | Lists exactly the ACTIVE ADMIN and CLAIMANT memberships of the inventory. |
| ClaimReport.FilterMembers | src/main/java/com/requillion/solutions/inventory/service/ClaimService.java:234 | Keeps exactly the memberships whose user is not the owner. |
| ClaimReport.ClaimCount | src/main/java/com/requillion/solutions/inventory/service/ClaimService.java:221-222 | The per-item count never exceeds the number of claims considered; its exact value is stated by ClaimCountCounts. |
| ClaimReport.ClaimCountCounts | src/main/java/com/requillion/solutions/inventory/service/ClaimService.java:220-222 | Over a list of distinct claims, the count for an item is the number of those claims that are on the item, as `groupingBy(item, counting())` computes. |
| ClaimReport.ClaimedItems | src/main/java/com/requillion/solutions/inventory/service/ClaimService.java:252-256 | Each report entry is one of the user's claims, with its item, status, the item's collected flag (false for a missing item) and the item's claim count, and every claim of the user appears. |
| ClaimReport.Row | src/main/java/com/requillion/solutions/inventory/service/ClaimService.java:248-258 | A row carries the given user, membership, role and finished flag, and the user's display name. |
| ClaimReport.GetAllClaims | src/main/java/com/requillion/solutions/inventory/service/ClaimService.java:194-246 | Only editors see the report. The owner's row comes first with no membership, no role and not finished; one row follows per reported member, in report order. |
| ClaimReport.ReportedMembersAreMembers | src/main/java/com/requillion/solutions/inventory/service/ClaimService.java:232-239 | The reported members are exactly the eligible non-owner memberships, sorted by case-insensitive name. |
| ClaimReport.ReportRowsAreTheMembers | src/main/java/com/requillion/solutions/inventory/service/ClaimService.java:232-243 | A membership has a row after the owner's exactly when it is ACTIVE, ADMIN or CLAIMANT, and not the owner's. |
| ClaimReport.ReportRowsAreSortedByName | src/main/java/com/requillion/solutions/inventory/service/ClaimService.java:235-239 | The member rows are in ascending case-insensitive name order. |
| ItemQueries.MaxReference | src/main/java/com/requillion/solutions/inventory/repository/ItemRepository.java:25-26 | COALESCE(MAX, 0): an upper bound of every reference number in the set, attained when the set is not empty, and 0 when it is. |
| ItemQueries.MaxReferenceNumber | src/main/java/com/requillion/solutions/inventory/repository/ItemRepository.java:25-26 | At least every reference number in the inventory, deleted items included, and attained by one of them; 0 for an empty inventory. |
| ItemQueries.MaxReferenceNumberByCategory | src/main/java/com/requillion/solutions/inventory/repository/ItemRepository.java:38-39 | At least every reference number in the category, and attained by one of them; 0 for an empty category. |
| ItemQueries.RecentCategories | src/main/java/com/requillion/solutions/inventory/repository/ItemRepository.java:41-47 | The GROUP BY keys are exactly the categories holding a live item created or updated since the cut-off. |
| ItemQueries.CountRecentItemsByCategory | src/main/java/com/requillion/solutions/inventory/repository/ItemRepository.java:41-47 | One row per category with recent items, no other rows, each with that category's counts, in ascending category order. |
| ItemQueries.CountFor | src/main/java/com/requillion/solutions/inventory/repository/ItemRepository.java:42-45 | The first column counts the category's live items created at or after the cut-off; the second counts those created before it and updated at or after it; together they count the category's recent items. |
| ItemQueries.RecentSplits | src/main/java/com/requillion/solutions/inventory/repository/ItemRepository.java:42-45 | The category's recent items are the disjoint union of the new and the updated ones. |
| ItemQueries.NewAndUpdatedPartition | src/main/java/com/requillion/solutions/inventory/repository/ItemRepository.java:42-43 | A recent item is counted either as new or as updated, never both. |
| ItemQueries.ByReference | src/main/java/com/requillion/solutions/inventory/repository/ItemRepository.java:19 | The sorted listing holds exactly the given items, each once. |
| ItemQueries.ByReferenceAscending | src/main/java/com/requillion/solutions/inventory/repository/ItemRepository.java:19 | The listing is in ascending reference-number order. |
| ItemQueries.LiveItems | src/main/java/com/requillion/solutions/inventory/repository/ItemRepository.java:19 | Lists exactly the inventory's non-deleted items. |
| ItemQueries.ItemsInCategory | src/main/java/com/requillion/solutions/inventory/repository/ItemRepository.java:32 | Lists exactly the category's items, deleted ones included. |
| ItemQueries.LiveItemsInCategory | src/main/java/com/requillion/solutions/inventory/repository/ItemRepository.java:30 | Lists exactly the category's non-deleted items. |
| Items.ProcessImage | src/main/java/com/requillion/solutions/inventory/service/ItemService.java:114-125 | Succeeds exactly when compression and thumbnailing both succeed, and returns both results; an image failure is BadInput. |
| Items.ProcessUpload | src/main/java/com/requillion/solutions/inventory/service/ItemService.java:114-125 | No upload means no image and no thumbnail; otherwise the image is processed. |
| Items.Saved | src/main/java/com/requillion/solutions/inventory/model/Item.java:39-47 | Saving refreshes `updatedAt` to now exactly when the entity changed and touches nothing else. |
| Items.EditableItem | src/main/java/com/requillion/solutions/inventory/service/ItemService.java:197-210 | The write guard for one item: inventory NotFound, then edit rights NotAuthorized, then the item (live or any, as the operation requires) NotFound. |
| Items.NewItem | src/main/java/com/requillion/solutions/inventory/service/ItemService.java:108-111 | A new item is neither deleted nor collected, and it is created and updated now. |
| Items.CreateItem | src/main/java/com/requillion/solutions/inventory/service/ItemService.java:90-134 | Only editors create items. The new uncategorised item is numbered one above every item of the inventory, 1 when the inventory has none, and is added with one ITEM_CREATED event. An image failure is BadInput. |
| Items.CreateItemInCategory | src/main/java/com/requillion/solutions/inventory/service/ItemService.java:364-413 | As for creation, but the category must belong to the inventory (NotFound), and the number is one above every item of the category, 1 when the category has none. |
| Items.UpdateItem | src/main/java/com/requillion/solutions/inventory/service/ItemService.java:136-161 | Changes only the description (and the timestamp) of a live item, publishes ITEM_UPDATED, and keeps all numbering. |
| Items.UpdateItemImage | src/main/java/com/requillion/solutions/inventory/service/ItemService.java:163-195 | Replaces only the image and thumbnail with the processed upload; an image failure is BadInput. |
| Items.SetFlag | src/main/java/com/requillion/solutions/inventory/service/ItemService.java:214-219 | Saves one changed item and publishes one event of the given kind. |
| Items.DeleteItem | src/main/java/com/requillion/solutions/inventory/service/ItemService.java:197-220 | Soft-deletes a live item (an already deleted one is NotFound), changes nothing else, and publishes ITEM_DELETED. |
| Items.UndeleteItem | src/main/java/com/requillion/solutions/inventory/service/ItemService.java:222-244 | Finds the item deleted or not, clears its deleted flag, leaves every other item unchanged, and publishes ITEM_UNDELETED. |
| Items.CollectItem | src/main/java/com/requillion/solutions/inventory/service/ItemService.java:246-274 | Only a live item with an ASSIGNED claim can be collected (otherwise BadInput). Only its collected flag changes, and ITEM_COLLECTED is published. |
| Items.UncollectItem | src/main/java/com/requillion/solutions/inventory/service/ItemService.java:276-298 | Clears the collected flag of any item of the inventory, deleted or not, and publishes ITEM_UNCOLLECTED. |
| Items.MutationsNeedEditRights | src/main/java/com/requillion/solutions/inventory/service/ItemService.java:90-298 | A caller without edit rights is refused every item write with NotAuthorized. |
| Items.SameNumberingKeepsDistinct | src/main/java/com/requillion/solutions/inventory/service/ItemService.java:136-298 | Writes that keep every item's inventory, category and number keep reference numbers distinct. |
| Items.CreateItemKeepsDistinct | src/main/java/com/requillion/solutions/inventory/service/ItemService.java:105-106 | Creating an item keeps reference numbers distinct within each scope. |
| Items.CreateItemInCategoryKeepsDistinct | src/main/java/com/requillion/solutions/inventory/service/ItemService.java:382-384 | Creating an item in a category keeps reference numbers distinct within each scope. |
| Items.DeleteThenUndeleteRestores | src/main/java/com/requillion/solutions/inventory/service/ItemService.java:197-244 | Deleting then undeleting an item restores the store up to the item's timestamp. |
| Items.CollectThenUncollectRestores | src/main/java/com/requillion/solutions/inventory/service/ItemService.java:246-298 | Collecting then uncollecting an uncollected item restores the store up to the item's timestamp. |
| Items.DeletedItemFinders | src/main/java/com/requillion/solutions/inventory/service/ItemService.java:197-298 | For a deleted item, delete and collect fail with NotFound while undelete and uncollect succeed. |
| ItemViews.HideCollected | src/main/java/com/requillion/solutions/inventory/service/ItemService.java:56-66 | Keeps exactly the listed items that are uncollected or whose ASSIGNED claim the caller holds. |
| ItemViews.HideCollectedKeepsOrder | src/main/java/com/requillion/solutions/inventory/service/ItemService.java:56-66 | The filter keeps a listing's reference-number order. |
| ItemViews.ByReferenceAscendingBy | src/main/java/com/requillion/solutions/inventory/repository/ItemRepository.java:19 | The reference-number sort is ascending as a whole listing. |
| ItemViews.GetItems | src/main/java/com/requillion/solutions/inventory/service/ItemService.java:40-70 | Lists exactly the live items an editor sees, or a non-editor sees under the collected rule, ascending by number; guard failures as for viewing. |
| ItemViews.GetItemsByCategory | src/main/java/com/requillion/solutions/inventory/service/ItemService.java:326-362 | Editors see every item of the category, deleted ones included. Other viewers see the live items the collected rule allows. The listing is ascending by number, and a foreign category is NotFound. |
| ItemViews.GetItem | src/main/java/com/requillion/solutions/inventory/service/ItemService.java:72-88 | Any viewer reads any live item of the inventory, collected or not; otherwise NotFound. |
| ItemViews.GetItemImage | src/main/java/com/requillion/solutions/inventory/service/ItemService.java:300-310 | Returns the readable item's image; an empty image is NotFound. |
| ItemViews.GetItemThumbnail | src/main/java/com/requillion/solutions/inventory/service/ItemService.java:312-322 | Returns the readable item's thumbnail; an empty thumbnail is NotFound. |
| ItemViews.Summarize | src/main/java/com/requillion/solutions/inventory/service/ItemService.java:561-579 | The claim count is the number of claims on the item. It is assigned exactly when an ASSIGNED claim exists, the name shown is an ASSIGNED claimant's, and "claimed by me" holds exactly when the caller has a claim. |
| ItemViews.SummaryNamesTheAssignee | src/main/java/com/requillion/solutions/inventory/service/ItemService.java:565-573 | Under one assignment per item, the summary names the assignee. |
| ItemViews.SummarizeAll | src/main/java/com/requillion/solutions/inventory/service/ItemService.java:519-534 | One summary per listed item, in order. |
| ItemViews.GetItemsWithThumbnails | src/main/java/com/requillion/solutions/inventory/service/ItemService.java:504-535 | The same items as the plain listing, in the same order, each with its true summary. |
| ItemViews.GetItemsWithThumbnailsByCategory | src/main/java/com/requillion/solutions/inventory/service/ItemService.java:415-447 | The same items as the category listing, in the same order, each with its true summary. |
| ItemViews.GetItemSummary | src/main/java/com/requillion/solutions/inventory/service/ItemService.java:537-540 | Fails as the single read does; otherwise it is the item's full summary (`Summarize`): claim count, whether the caller claimed it, whether it is assigned and to whose display name. |
| ItemViews.NewItemSummaryIsAccurate | src/main/java/com/requillion/solutions/inventory/service/ItemService.java:542-547 | The fixed "no claims" summary returned for a new item is its true summary. |
| ItemViews.MyClaims | src/main/java/com/requillion/solutions/inventory/repository/ItemClaimRepository.java:32-36 | Lists exactly the caller's claims on live items of the inventory, in ascending order of the claimed item's reference number. |
| ItemViews.ByClaimedRef | src/main/java/com/requillion/solutions/inventory/repository/ItemClaimRepository.java:32-36 | Sorting claims keeps exactly the same claims and puts them in ascending order of the claimed item's reference number. |
| ItemViews.ClaimedSummaries | src/main/java/com/requillion/solutions/inventory/service/ItemService.java:485-499 | One entry per claim, for the claimed item, with "claimed by me" forced true. |
| ItemViews.GetClaimedItemsWithThumbnails | src/main/java/com/requillion/solutions/inventory/service/ItemService.java:457-500 | Viewers get one entry per own claim on a live item of the inventory, position by position with the caller's claims, so in ascending reference-number order. Every such item appears, and each entry is marked as claimed by the caller. |
| ItemViews.MyClaimsCoverClaimedItems | src/main/java/com/requillion/solutions/inventory/service/ItemService.java:470-471 | Every live item the caller claimed appears in the claimed listing. |
| ItemViews.ClaimedViewMatchesSummary | src/main/java/com/requillion/solutions/inventory/service/ItemService.java:496 | The forced "claimed by me" flag is accurate: each claimed-listing entry equals the item's true summary. |
| Members.MemberOfInventory | src/main/java/com/requillion/solutions/inventory/service/MemberService.java:39-48 | Finds a membership only when it belongs to this inventory; a missing or foreign one is NotFound. |
| Members.WithFinish | src/main/java/com/requillion/solutions/inventory/service/MemberService.java:163-173 | Sets the membership's finish time to the given value. |
| Members.GetMembers | src/main/java/com/requillion/solutions/inventory/service/MemberService.java:30-33 | Managers get exactly the ACTIVE memberships of the inventory, without repeats. |
| Members.UpdateMemberRole | src/main/java/com/requillion/solutions/inventory/service/MemberService.java:35-57 | A manager changes only the role of a membership of this inventory. |
| Members.UpdateMemberStatus | src/main/java/com/requillion/solutions/inventory/service/MemberService.java:59-81 | A manager changes only the status of a membership of this inventory. |
| Members.RemoveMember | src/main/java/com/requillion/solutions/inventory/service/MemberService.java:99-122 | A manager removes a membership of this inventory unless it is the owner's (BadInput); nothing else changes. |
| Members.SetMemberFinished | src/main/java/com/requillion/solutions/inventory/service/MemberService.java:148-174 | Afterwards the membership is finished exactly as requested. An existing finish time is kept, and a new one is now. |
| Members.ActivateMemberOnFirstAccess | src/main/java/com/requillion/solutions/inventory/service/MemberService.java:83-97 | A PENDING membership of the caller becomes ACTIVE; every other membership and every other table is unchanged. |
| Members.MarkAsFinished | src/main/java/com/requillion/solutions/inventory/service/MemberService.java:124-146 | Owners are refused with BadInput and non-members with NotAuthorized. Otherwise the caller's membership gets a finish time, unless it already has one. |
| Members.AdminOperationsNeedManageRights | src/main/java/com/requillion/solutions/inventory/service/MemberService.java:176-197 | Every administrative operation refuses a non-manager with NotAuthorized. |
| Members.ForeignMemberIsNotFound | src/main/java/com/requillion/solutions/inventory/service/MemberService.java:44-48 | A membership of another inventory is NotFound for every administrative operation. |
| Members.MarkAsFinishedIsIdempotent | src/main/java/com/requillion/solutions/inventory/service/MemberService.java:141-145 | Marking twice keeps the first finish time. |
| Members.ResetUndoesMark | src/main/java/com/requillion/solutions/inventory/service/MemberService.java:168-173 | A manager's reset after a claimant marks themselves finished restores the original store. |
| Members.RightsDependOnMembershipsOnlyUpToFinish | src/main/java/com/requillion/solutions/inventory/service/MemberService.java:191-197 | Changing a finish time never changes who may edit. |
| Members.MarkAsFinishedLocksClaimant | src/main/java/com/requillion/solutions/inventory/service/ClaimService.java:304-315 | Once a CLAIMANT marks themselves finished, the finished-claimant check refuses them with BadInput. |
| Members.ActivationGrantsView | src/main/java/com/requillion/solutions/inventory/service/MemberService.java:89-96 | Activating a PENDING membership gives its user viewing rights. |
| Members.ActivationIsIdempotent | src/main/java/com/requillion/solutions/inventory/service/MemberService.java:89-96 | Activating twice is the same as activating once. |
| Members.OwnerMembershipIsNeverRemoved | src/main/java/com/requillion/solutions/inventory/service/MemberService.java:113-118 | A membership belonging to the owner can never be removed. |
| Members.KeepsIdentitiesKeepsUniqueness | src/main/java/com/requillion/solutions/inventory/service/MemberService.java:35-174 | The membership operations never create a second membership for a user and inventory. |
| Categories.FindByName | src/main/java/com/requillion/solutions/inventory/repository/CategoryRepository.java:21 | Empty exactly when the inventory has no category of that name; otherwise returns one. |
| Categories.MaxDisplayOrder | src/main/java/com/requillion/solutions/inventory/repository/CategoryRepository.java:23-24 | COALESCE(MAX, -1): at least every display order of the inventory, attained when there is a category, and -1 otherwise. |
| Categories.ByDisplayOrder | src/main/java/com/requillion/solutions/inventory/repository/CategoryRepository.java:17 | Lists exactly the inventory's categories, ascending by display order. |
| Categories.ShownCategories | src/main/java/com/requillion/solutions/inventory/service/CategoryService.java:40-42 | Lists exactly the categories the caller may see, ascending by display order. |
| Categories.CategoryIds | src/main/java/com/requillion/solutions/inventory/service/CategoryService.java:43-45 | The listing's category column, row by row. |
| Categories.GetCategories | src/main/java/com/requillion/solutions/inventory/service/CategoryService.java:35-46 | Viewers get exactly the categories they may see (hidden ones only for editors), ascending by display order. Each row counts the category's live items. |
| Categories.GetCategory | src/main/java/com/requillion/solutions/inventory/service/CategoryService.java:48-63 | A hidden category is NotFound for a caller who cannot edit, as is a foreign one. |
| Categories.GetCategoryAgreesWithListing | src/main/java/com/requillion/solutions/inventory/service/CategoryService.java:35-63 | A category can be read singly exactly when it appears in the listing. |
| Categories.CreateCategory | src/main/java/com/requillion/solutions/inventory/service/CategoryService.java:65-89 | An editor creates a category with a new name (otherwise BadInput). The store gains exactly that category under the fresh id, and nothing else changes. It is hidden, and its order is one above the inventory's highest order: after every existing category, or 0 first. |
| Categories.CreateCategoryKeepsInvariants | src/main/java/com/requillion/solutions/inventory/service/CategoryService.java:65-89 | Creation keeps names unique and display orders distinct within each inventory. |
| Categories.UpdateCategory | src/main/java/com/requillion/solutions/inventory/service/CategoryService.java:91-116 | Changes only name and description; a name held by another category of the inventory is BadInput. |
| Categories.UpdateCategoryRespectsNames | src/main/java/com/requillion/solutions/inventory/service/CategoryService.java:101-107 | Under unique names, renaming succeeds exactly when no other category has the name, and names stay unique. |
| Categories.DeleteCategory | src/main/java/com/requillion/solutions/inventory/service/CategoryService.java:118-136 | An editor deletes a category only when it has no live items (otherwise BadInput); nothing else changes. |
| Categories.SetCategoryVisibility | src/main/java/com/requillion/solutions/inventory/service/CategoryService.java:165-179 | Changes only the hidden flag. |
| Categories.NewCategoryIsHiddenUntilShown | src/main/java/com/requillion/solutions/inventory/service/CategoryService.java:56-83 | A new category is invisible to a non-editor until an editor un-hides it, and visible afterwards. |
| Categories.AssignPositions | src/main/java/com/requillion/solutions/inventory/service/CategoryService.java:150-160 | The numbering loop changes only display orders, and only of the listed categories. |
| Categories.AssignPositionsOfDistinct | src/main/java/com/requillion/solutions/inventory/service/CategoryService.java:150-160 | With no repeats, the k-th listed category gets display order k. |
| Categories.ReorderCategoriesAsWritten | src/main/java/com/requillion/solutions/inventory/service/CategoryService.java:138-163 | The code as written: any list of the inventory's categories whose size matches passes. Each listed category ends with the position of its last occurrence in the list, and unlisted categories keep their order. |
| Categories.AssignPositionsLastWins | src/main/java/com/requillion/solutions/inventory/service/CategoryService.java:150-160 | Saving the positions in list order leaves each listed category with the position of its last occurrence. |
| Categories.ReorderCategories | src/main/java/com/requillion/solutions/inventory/service/CategoryService.java:138-163 | Corrected: a repeat-free list of exactly the inventory's categories is required (otherwise BadInput), and the k-th listed category gets order k. |
| Categories.ReorderAgreesWithoutRepeats | src/main/java/com/requillion/solutions/inventory/service/CategoryService.java:138-163 | On repeat-free lists the corrected operation behaves as written. |
| Categories.ListCoversCategories | src/main/java/com/requillion/solutions/inventory/service/CategoryService.java:144-148 | A repeat-free list of the right size names every category of the inventory. |
| Categories.ReorderCategoriesKeepsDistinctOrders | src/main/java/com/requillion/solutions/inventory/service/CategoryService.java:138-163 | After reordering, the inventory's display orders are 0 to n-1, distinct. |
| Categories.ReorderAsWrittenDuplicatesOrder | src/main/java/com/requillion/solutions/inventory/service/CategoryService.java:144-160 | Counterexample: the list [1, 1] passes the size check and gives both categories order 1; the corrected version refuses it. |
| Inventories.InventoryIds | src/main/java/com/requillion/solutions/inventory/service/InventoryService.java:37-61 | The listing's inventory column, row by row. |
| Inventories.OwnedRows | src/main/java/com/requillion/solutions/inventory/service/InventoryService.java:41-45 | One owner row per owned inventory, each once, with its live item count. |
| Inventories.MemberRows | src/main/java/com/requillion/solutions/inventory/service/InventoryService.java:48-57 | A member row, with role and live item count, for the inventory of each ACTIVE membership of an inventory the caller does not own. |
| Inventories.GetInventories | src/main/java/com/requillion/solutions/inventory/service/InventoryService.java:37-61 | Owned inventories come first, then joined ones, with correct flags, roles and counts. |
| Inventories.JoinedIds | src/main/java/com/requillion/solutions/inventory/service/InventoryService.java:37-61 | The inventories of a joined listing are those of its two parts. |
| Inventories.GetInventoriesListsViewable | src/main/java/com/requillion/solutions/inventory/service/InventoryService.java:37-61 | Under unique memberships, the listing holds exactly the inventories the caller may view. |
| Inventories.MemberRowsHaveNoRepeats | src/main/java/com/requillion/solutions/inventory/service/InventoryService.java:48-57 | Under unique memberships, no inventory appears in two membership rows. |
| Inventories.OwnedAndMemberRowsDiffer | src/main/java/com/requillion/solutions/inventory/service/InventoryService.java:41-53 | An inventory the user owns never also appears as one of the user's membership rows. |
| Inventories.JoinedHaveNoRepeats | src/main/java/com/requillion/solutions/inventory/service/InventoryService.java:38-60 | Appending two repeat-free listings with no inventory in common gives a repeat-free listing. |
| Inventories.GetInventoriesHasNoRepeats | src/main/java/com/requillion/solutions/inventory/service/InventoryService.java:37-61 | Under unique memberships, no inventory is listed twice. |
| Inventories.GetInventory | src/main/java/com/requillion/solutions/inventory/service/InventoryService.java:101-134 | The owner, and members whose status is PENDING or ACTIVE, get the inventory with flags, role and count. A PENDING membership becomes ACTIVE, after which the caller can view. Others are NotAuthorized. |
| Inventories.GetInventoryTwiceIsStable | src/main/java/com/requillion/solutions/inventory/service/InventoryService.java:101-134 | A second read returns the same view and changes nothing. |
| Inventories.FindByOwnerAndName | src/main/java/com/requillion/solutions/inventory/repository/InventoryRepository.java:23 | Empty exactly when the owner has no inventory of that name; otherwise returns one. |
| Inventories.CreateInventory | src/main/java/com/requillion/solutions/inventory/service/InventoryService.java:136-153 | Creates an inventory owned by the caller unless the caller already owns one of that name (BadInput). |
| Inventories.CreateInventoryKeepsNames | src/main/java/com/requillion/solutions/inventory/service/InventoryService.java:138-142 | Creation keeps each owner's inventory names unique. |
| Inventories.UpdateInventory | src/main/java/com/requillion/solutions/inventory/service/InventoryService.java:155-185 | Only the owner updates (NotAuthorized otherwise); a name already used by another of the owner's inventories is BadInput. |
| Inventories.UpdateInventoryRespectsNames | src/main/java/com/requillion/solutions/inventory/service/InventoryService.java:170-176 | Under unique names, renaming succeeds exactly when the owner has no other inventory of that name, and names stay unique. |
| Inventories.DeleteInventory | src/main/java/com/requillion/solutions/inventory/service/InventoryService.java:187-195 | Only the owner deletes, and a non-owner gets NotFound; only the inventory row is removed. |
| Invitations.ExpiryBoundary | src/main/java/com/requillion/solutions/inventory/model/Invitation.java:49-51 | An invitation is still valid at its expiry instant and expired one millisecond later; 7 days are 604800000 ms. |
| Invitations.HashCode | src/main/java/com/requillion/solutions/inventory/model/Invitation.java:75-77 | An unsaved invitation hashes to 0. |
| Invitations.EqualsIsEquivalence | src/main/java/com/requillion/solutions/inventory/model/Invitation.java:67-72 | Equality is reflexive, symmetric and transitive, and unsaved invitations are equal only to themselves. |
| Invitations.EqualsAgreesWithHashCode | src/main/java/com/requillion/solutions/inventory/model/Invitation.java:67-77 | Equal invitations have equal hash codes. |
| Invitations.NormalizeEmail | src/main/java/com/requillion/solutions/inventory/service/InvitationService.java:69 | The stored address has no capitals and nothing strippable at its ends, and it is no longer than the input. |
| Invitations.TrimKeepsNoCapitals | src/main/java/com/requillion/solutions/inventory/service/InvitationService.java:69 | Trimming a lower-case string leaves it lower-case. |
| Invitations.NormalizeEmailIdempotent | src/main/java/com/requillion/solutions/inventory/service/InvitationService.java:69 | Normalising a stored address changes nothing. |
| Invitations.FindPending | src/main/java/com/requillion/solutions/inventory/repository/InvitationRepository.java:19-20 | Empty exactly when no un-accepted invitation of the inventory has that stored address, expired or not; otherwise returns one. |
| Invitations.FindByToken | src/main/java/com/requillion/solutions/inventory/repository/InvitationRepository.java:17 | Empty exactly when no invitation has the token; otherwise returns one with it. |
| Invitations.CreateWithLookup | src/main/java/com/requillion/solutions/inventory/service/InvitationService.java:38-84 | Manager check, then the duplicate check on the given key. The new invitation has the normalised address, the inviter and a 7-day expiry, and only the invitations table changes. |
| Invitations.CreateInvitationAsWritten | src/main/java/com/requillion/solutions/inventory/service/InvitationService.java:59-69 | The code as written: the duplicate check uses the raw address while the stored address is normalised. |
| Invitations.CreateInvitation | src/main/java/com/requillion/solutions/inventory/service/InvitationService.java:38-84 | Corrected: the duplicate check uses the normalised address. The result is a pending invitation with the requested role, expiring 604800000 ms after now. |
| Invitations.CreateInvitationKeepsUniquePending | src/main/java/com/requillion/solutions/inventory/service/InvitationService.java:59-64 | The corrected creation keeps at most one un-accepted invitation per inventory and address. |
| Invitations.CreateInvitationRefusesRespelling | src/main/java/com/requillion/solutions/inventory/service/InvitationService.java:59-69 | Re-inviting the same address in another spelling (case, surrounding blanks) is BadInput. |
| Invitations.CreateThenFindByToken | src/main/java/com/requillion/solutions/inventory/service/InvitationService.java:67-91 | The new invitation is found again by its token, and tokens stay unique. |
| Invitations.CreateInvitationAsWrittenDuplicates | src/main/java/com/requillion/solutions/inventory/service/InvitationService.java:59-69 | Counterexample: with "a@b" pending, inviting "A@b" succeeds as written and leaves two pending invitations; the corrected version refuses it. |
| Invitations.Recipients | src/main/java/com/requillion/solutions/inventory/service/InvitationService.java:186-206 | The owner is notified first. Besides the owner, exactly the ACTIVE admins other than the new member are notified. |
| Invitations.AdminUsers | src/main/java/com/requillion/solutions/inventory/service/InvitationService.java:195-196 | Lists exactly the users holding an ACTIVE ADMIN membership. |
| Invitations.FilterOut | src/main/java/com/requillion/solutions/inventory/service/InvitationService.java:197-198 | Removes exactly the new member from the recipients. |
| Invitations.AcceptInvitation | src/main/java/com/requillion/solutions/inventory/service/InvitationService.java:93-145 | Errors in order: an unknown token is NotFound; an accepted or expired invitation is BadInput; another user's address is NotAuthorized; an existing membership is BadInput. On success the invitation is stamped accepted, a PENDING membership with the invited role is added, and the recipients are notified. |
| Invitations.AcceptKeepsUniqueMemberships | src/main/java/com/requillion/solutions/inventory/service/InvitationService.java:119-136 | Accepting never gives a user a second membership of an inventory. |
| Invitations.AcceptKeepsUniquePending | src/main/java/com/requillion/solutions/inventory/service/InvitationService.java:127-128 | Accepting keeps at most one un-accepted invitation per inventory and address. |
| Invitations.AcceptTwiceFails | src/main/java/com/requillion/solutions/inventory/service/InvitationService.java:99-103 | A token cannot be used twice. |
| Invitations.NewMemberNotNotifiedAsAdmin | src/main/java/com/requillion/solutions/inventory/service/InvitationService.java:186-206 | The new member is among the recipients only when they are the owner. |
| Invitations.GetInvitationByToken | src/main/java/com/requillion/solutions/inventory/service/InvitationService.java:86-91 | Returns a stored invitation with the token, or NotFound when none has it. |
| Invitations.GetPendingInvitations | src/main/java/com/requillion/solutions/inventory/service/InvitationService.java:147-160 | Managers get exactly the un-accepted invitations of the inventory, expired ones included, newest first. |
| Invitations.CancelInvitation | src/main/java/com/requillion/solutions/inventory/service/InvitationService.java:162-176 | A manager of the invitation's inventory removes it, and nothing else changes. |
| Invitations.CancelKeepsUniquePending | src/main/java/com/requillion/solutions/inventory/service/InvitationService.java:162-176 | Cancelling keeps at most one un-accepted invitation per inventory and address. |

## Left out

- Controllers, security filters, request context and authentication: the caller is a `UserId` parameter.
- ImageService: compression and thumbnailing are function parameters (`Items.ImageProcessor`). Only their success and their output are modelled.
- EmailService: the model computes the invitation and new-member recipient lists; the sending itself is left out.
- Logging, DTO conversion, `toString`, and `InventoryService.getDashboardItems`, which is a read-only dashboard aggregate outside the modelled operations.
- The `isFinished` component of `InventoryWithMeta`: the record declares five components but the service builds it with four. The model keeps the four the service passes.
- Concurrency. The event registry's concurrent maps and copy-on-write lists are modelled as sequential state. `findByIdWithLock` is not used by the modelled services.
- The clock, random tokens and database ids are parameters (`now`, `token`, `id`). `Invitations.FreshToken` stands for the unique token column. `TOKEN_LENGTH` and the random generator are not modelled.
- The heartbeat timestamp is read once per round rather than once per send.
- Cascades on delete: model/Inventory.java is not part of this model. `Inventories.DeleteInventory` removes the inventory row only, and `Categories.DeleteCategory` removes the category row only, even when soft-deleted items still refer to it.
- The itemCollected and itemUncollected event factories are called by ItemService but not declared in the event record shown. They are modelled as ITEM_COLLECTED and ITEM_UNCOLLECTED, after the pattern of the others.
- `claimRepository.findAllByInventoryId` is called by getAllClaims but not declared in the repository shown. It is modelled as the claims on the inventory's items, deleted items included.
- The no-op member lookup at InvitationService.java:53-56 has no effect and is not modelled.
- Name lookups compare exactly; a case-insensitive database collation is not modelled.
- `Optional` finders return the least match. A query that really matched several rows would throw in Java (`IncorrectResultSizeDataAccessException`).
- Text.LowerChar: only ASCII letters are case-folded; Java applies full Unicode case mapping.
- Items.CreateItem: reference numbers are unbounded integers; the Java `int` overflow after 2^31-1 items is not modelled.
- The item's `category` and `isCollected` fields are not declared in model/Item.java as shown, but the services and DTOs read and write them (ItemService.java:388, ClaimedItemDTO.java:29,33). The model gives `Domain.Item` an optional category and a collected flag after that usage.
- The membership status enum file is not part of this model: its values other than PENDING and ACTIVE are folded into one `Inactive` status.

## Findings

| source | as written | input that shows it | evidently intended | confidence | as-written member | corrected member |
|---|---|---|---|---|---|---|
| src/main/java/com/requillion/solutions/inventory/service/InventoryEventService.java:107-117 | `removeEmitter` decrements the user's counter even when the entry was no longer in the list. An emitter whose connected send fails is removed, and its error callback removes it again. | One entry for user 7 with counter 1, removed twice: the counter becomes -1, after which six subscriptions pass the five-connection cap. | Decrement only when the entry was actually removed, so the counter equals the number of live entries and never exceeds 5. | not executed; proved on the model | EventHub.RemoveEmitterAsWritten, EventHub.DisconnectAsWritten (EventHub.RemoveEmitterAsWrittenDecrementsTwice, EventHub.DriftedCounterAdmitsSix, EventHub.DisconnectAsWrittenBreaksConsistency) | EventHub.RemoveEmitter, EventHub.Disconnect (EventHub.RemoveEmitterPreservesValid, EventHub.RemoveEmitterTwiceKeepsCap) |
| src/main/java/com/requillion/solutions/inventory/service/InvitationService.java:59-69 | The duplicate check looks up the raw request address, but the invitation is stored lower-cased and trimmed. | With "a@b" pending, inviting "A@b" (or repeating "A@b") creates a second pending invitation for "a@b". A later `findPendingByInventoryAndEmail("a@b")` then matches two rows. | Check the normalised address, keeping one pending invitation per inventory and address. | not executed; proved on the model | Invitations.CreateInvitationAsWritten (Invitations.CreateInvitationAsWrittenDuplicates) | Invitations.CreateInvitation (Invitations.CreateInvitationKeepsUniquePending) |
| src/main/java/com/requillion/solutions/inventory/service/CategoryService.java:144-160 | `reorderCategories` checks only that the list has as many ids as the inventory has categories. Repeated ids pass; the repeated category takes its last position, and some other category keeps its old order. | Categories 1 (order 0) and 2 (order 1), list [1, 1]: both end with order 1. | Require a permutation of the inventory's categories, so display orders become 0..n-1 and stay distinct. | not executed; proved on the model | Categories.ReorderCategoriesAsWritten (Categories.ReorderAsWrittenDuplicatesOrder) | Categories.ReorderCategories (Categories.ReorderCategoriesKeepsDistinctOrders) |
