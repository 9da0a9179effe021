/** The in-memory subscriber registry of InventoryEventService: per inventory,
    the ordered list of (user, emitter) entries listening to it, and per user
    a counter of open connections capped at five.

    Sending is the only effect an emitter has here; whether a given send
    succeeds is an input (`ok`). The emitter callbacks (completion, timeout,
    error) are the operation `Disconnect`. Everything runs sequentially.
 */
module EventHub {
  import opened Outcomes
  import opened Domain
  import Events
  import Finite

  const MaxConnectionsPerUser := 5

  /** The identity of one SseEmitter object. */
  type EmitterId = nat

  datatype Entry = Entry(user: UserId, emitter: EmitterId)

  /** What one send puts on the wire. */
  datatype Message =
    | Connected(inventory: InventoryId)
    | Published(name: string, event: Events.InventoryEvent)
    | Heartbeat(timestamp: Instant)

  datatype Send = Send(emitter: EmitterId, message: Message)

  datatype Hub = Hub(lists: map<InventoryId, seq<Entry>>, connections: map<UserId, int>)

  /** The hub after a call, with every send the call attempted, in order. */
  datatype Outcome = Outcome(hub: Hub, sends: seq<Send>)

  /** `subscribe` returns the emitter (or throws) and changes the hub either way. */
  datatype Subscription = Subscription(hub: Hub, result: Result<EmitterId>, sends: seq<Send>)

  // ---------------------------------------------------------------------------
  // Counting entries
  // ---------------------------------------------------------------------------

  /** A user's counter; a missing counter reads as zero. */
  function Counter(h: Hub, u: UserId): int {
    if u in h.connections then h.connections[u] else 0
  }

  /** How many entries of `xs` belong to `u`. */
  function CountUser(xs: seq<Entry>, u: UserId): (n: nat)
    ensures n <= |xs|
  {
    if xs == [] then 0 else (if xs[0].user == u then 1 else 0) + CountUser(xs[1..], u)
  }

  /** How many entries `u` has across all inventories. */
  function Total(lists: map<InventoryId, seq<Entry>>, u: UserId): nat
    decreases |lists.Keys|
  {
    if lists.Keys == {} then 0
    else
      var k := Finite.MinOf(lists.Keys);
      assert (lists - {k}).Keys == lists.Keys - {k};
      CountUser(lists[k], u) + Total(lists - {k}, u)
  }

  lemma {:induction false} CountUserAppend(a: seq<Entry>, b: seq<Entry>, u: UserId)
    ensures CountUser(a + b, u) == CountUser(a, u) + CountUser(b, u)
    decreases |a|
  {
    if a != [] {
      assert (a + b)[1..] == a[1..] + b;
      CountUserAppend(a[1..], b, u);
    } else {
      assert a + b == b;
    }
  }

  /** Any one inventory's entries can be split off the total. */
  lemma {:induction false} TotalSplit(lists: map<InventoryId, seq<Entry>>, j: InventoryId, u: UserId)
    requires j in lists
    ensures Total(lists, u) == CountUser(lists[j], u) + Total(lists - {j}, u)
    decreases |lists.Keys|
  {
    var k := Finite.MinOf(lists.Keys);
    assert (lists - {k}).Keys == lists.Keys - {k};
    if k != j {
      TotalSplit(lists - {k}, j, u);
      assert (lists - {j}).Keys == lists.Keys - {j};
      TotalSplit(lists - {j}, k, u);
      assert lists - {k} - {j} == lists - {j} - {k};
    }
  }

  /** Replacing one inventory's list changes the total by that list alone. */
  lemma TotalUpdate(lists: map<InventoryId, seq<Entry>>, j: InventoryId, xs: seq<Entry>, u: UserId)
    requires j in lists
    ensures Total(lists[j := xs], u) == Total(lists, u) - CountUser(lists[j], u) + CountUser(xs, u)
  {
    TotalSplit(lists[j := xs], j, u);
    TotalSplit(lists, j, u);
    assert lists[j := xs] - {j} == lists - {j};
  }

  /** Adding an inventory with an empty list adds nothing. */
  lemma TotalAddEmpty(lists: map<InventoryId, seq<Entry>>, j: InventoryId, u: UserId)
    requires j !in lists
    ensures Total(lists[j := []], u) == Total(lists, u)
  {
    TotalSplit(lists[j := []], j, u);
    assert lists[j := []] - {j} == lists;
  }

  // ---------------------------------------------------------------------------
  // Invariants
  // ---------------------------------------------------------------------------

  /** No entry occurs twice in a list. */
  predicate Distinct(xs: seq<Entry>) {
    forall i, j :: 0 <= i < j < |xs| ==> xs[i] != xs[j]
  }

  /** Each user's counter equals the number of that user's entries. */
  ghost predicate Consistent(h: Hub) {
    forall u :: Counter(h, u) == Total(h.lists, u)
  }

  /** The registry the service keeps when every entry is removed at most once:
      counters match the entries, stay within the cap, and no list repeats an
      entry. */
  ghost predicate Valid(h: Hub) {
    && Consistent(h)
    && (forall u :: Counter(h, u) <= MaxConnectionsPerUser)
    && (forall inv :: inv in h.lists ==> Distinct(h.lists[inv]))
  }

  /** The emitter is already registered for some inventory. */
  ghost predicate Registered(h: Hub, em: EmitterId) {
    exists inv, i :: inv in h.lists && 0 <= i < |h.lists[inv]| && h.lists[inv][i].emitter == em
  }

  /** In a valid hub no user holds more than five live entries. */
  lemma ValidCapsEntries(h: Hub, u: UserId)
    requires Valid(h)
    ensures Total(h.lists, u) <= MaxConnectionsPerUser
  {
    assert Counter(h, u) == Total(h.lists, u);
  }

  // ---------------------------------------------------------------------------
  // Removing an entry
  // ---------------------------------------------------------------------------

  /** `List.remove(Object)`: drops the first occurrence of `e`, if any. */
  function RemoveFirst(xs: seq<Entry>, e: Entry): (r: seq<Entry>)
    ensures e !in xs ==> r == xs
    ensures e in xs ==> |r| == |xs| - 1
    ensures forall x :: x in r ==> x in xs
    ensures e in xs ==> r == xs[..FirstIndex(xs, e)] + xs[FirstIndex(xs, e) + 1..]
  {
    if xs == [] then []
    else if xs[0] == e then xs[1..]
    else
      var rest := RemoveFirst(xs[1..], e);
      if e in xs[1..] then
        FirstIndexSplit(xs, e, rest);
        [xs[0]] + rest
      else
        [xs[0]] + rest
  }

  /** The position of the first occurrence of `e`. */
  function FirstIndex(xs: seq<Entry>, e: Entry): (k: nat)
    requires e in xs
    ensures k < |xs| && xs[k] == e && e !in xs[..k]
  {
    if xs[0] == e then 0
    else
      var k := FirstIndex(xs[1..], e);
      assert xs[..k + 1] == [xs[0]] + xs[1..][..k];
      k + 1
  }

  /** Splitting at the first occurrence of `e` commutes with a head that is
      not `e`. */
  lemma FirstIndexSplit(xs: seq<Entry>, e: Entry, rest: seq<Entry>)
    requires xs != [] && xs[0] != e && e in xs[1..]
    requires rest == xs[1..][..FirstIndex(xs[1..], e)] + xs[1..][FirstIndex(xs[1..], e) + 1..]
    ensures [xs[0]] + rest == xs[..FirstIndex(xs, e)] + xs[FirstIndex(xs, e) + 1..]
  {
    var k := FirstIndex(xs[1..], e);
    assert FirstIndex(xs, e) == k + 1;
    assert xs[..k + 1] == [xs[0]] + xs[1..][..k];
    assert xs[k + 2..] == xs[1..][k + 1..];
  }

  /** Appending a fresh entry and removing it again gives back the list. */
  lemma {:induction false} RemoveFirstOfAppended(xs: seq<Entry>, e: Entry)
    requires e !in xs
    ensures RemoveFirst(xs + [e], e) == xs
    decreases |xs|
  {
    if xs != [] {
      assert (xs + [e])[1..] == xs[1..] + [e];
      RemoveFirstOfAppended(xs[1..], e);
    }
  }

  lemma {:induction false} RemoveFirstCount(xs: seq<Entry>, e: Entry, u: UserId)
    requires e in xs
    ensures CountUser(RemoveFirst(xs, e), u) == CountUser(xs, u) - (if e.user == u then 1 else 0)
    decreases |xs|
  {
    if xs[0] != e {
      RemoveFirstCount(xs[1..], e, u);
      assert [xs[0]] + RemoveFirst(xs[1..], e) == [xs[0]] + RemoveFirst(xs[1..], e);
      CountUserAppend([xs[0]], RemoveFirst(xs[1..], e), u);
    }
  }

  lemma DistinctCons(x: Entry, xs: seq<Entry>)
    requires x !in xs && Distinct(xs)
    ensures Distinct([x] + xs)
  {
    var r := [x] + xs;
    forall i, j | 0 <= i < j < |r|
      ensures r[i] != r[j]
    {
      assert r[j] == xs[j - 1];
      if i > 0 {
        assert r[i] == xs[i - 1];
      }
    }
  }

  lemma {:induction false} RemoveFirstDistinct(xs: seq<Entry>, e: Entry)
    requires Distinct(xs)
    ensures Distinct(RemoveFirst(xs, e))
    ensures e !in RemoveFirst(xs, e)
    decreases |xs|
  {
    if xs != [] && xs[0] != e {
      var rest := RemoveFirst(xs[1..], e);
      assert Distinct(xs[1..]);
      RemoveFirstDistinct(xs[1..], e);
      assert xs[0] !in rest by {
        assert xs[0] !in xs[1..];
      }
      assert RemoveFirst(xs, e) == [xs[0]] + rest;
      DistinctCons(xs[0], rest);
    } else if xs != [] {
      assert xs[0] !in xs[1..];
      assert RemoveFirst(xs, e) == xs[1..];
    }
  }

  /** `removeEmitter` as written: the entry is dropped from its inventory's list
      and the user's counter, if there is one, is decremented, whether or not
      the entry was still there. */
  function RemoveEmitterAsWritten(h: Hub, inv: InventoryId, e: Entry): (r: Hub)
    ensures r.lists.Keys == h.lists.Keys
    ensures forall j :: j in h.lists && j != inv ==> r.lists[j] == h.lists[j]
    ensures inv in h.lists ==> r.lists[inv] == RemoveFirst(h.lists[inv], e)
    ensures e.user in h.connections ==> Counter(r, e.user) == Counter(h, e.user) - 1
    ensures e.user !in h.connections ==> Counter(r, e.user) == 0
    ensures forall u :: u != e.user ==> Counter(r, u) == Counter(h, u)
  {
    var lists := if inv in h.lists then h.lists[inv := RemoveFirst(h.lists[inv], e)] else h.lists;
    var connections :=
      if e.user in h.connections then h.connections[e.user := h.connections[e.user] - 1] else h.connections;
    Hub(lists, connections)
  }

  /** The entry is currently registered for the inventory. */
  predicate Holds(h: Hub, inv: InventoryId, e: Entry) {
    inv in h.lists && e in h.lists[inv]
  }

  /** `removeEmitter` with the counter decremented only when the entry was
      actually removed: the behaviour the connection cap relies on. */
  function RemoveEmitter(h: Hub, inv: InventoryId, e: Entry): (r: Hub)
    ensures r.lists.Keys == h.lists.Keys
    ensures forall j :: j in h.lists && j != inv ==> r.lists[j] == h.lists[j]
    ensures !Holds(h, inv, e) ==> r == h
    ensures Holds(h, inv, e) ==> r.lists[inv] == RemoveFirst(h.lists[inv], e)
    ensures Holds(h, inv, e) && e.user in h.connections ==> Counter(r, e.user) == Counter(h, e.user) - 1
    ensures forall u :: u != e.user ==> Counter(r, u) == Counter(h, u)
  {
    if Holds(h, inv, e) then RemoveEmitterAsWritten(h, inv, e) else h
  }

  /** Both versions agree whenever the entry is still registered. */
  lemma RemoveEmitterAgreesWhenHeld(h: Hub, inv: InventoryId, e: Entry)
    requires Holds(h, inv, e)
    ensures RemoveEmitter(h, inv, e) == RemoveEmitterAsWritten(h, inv, e)
  {
  }

  /** Removing an entry keeps the registry valid. */
  lemma RemoveEmitterPreservesValid(h: Hub, inv: InventoryId, e: Entry)
    ensures Valid(h) ==> Valid(RemoveEmitter(h, inv, e))
  {
    if Valid(h) && Holds(h, inv, e) {
      var r := RemoveEmitter(h, inv, e);
      var xs := RemoveFirst(h.lists[inv], e);
      assert r.lists == h.lists[inv := xs];
      RemoveFirstDistinct(h.lists[inv], e);
      forall u
        ensures Counter(r, u) == Total(r.lists, u)
      {
        TotalUpdate(h.lists, inv, xs, u);
        RemoveFirstCount(h.lists[inv], e, u);
        if u == e.user {
          assert Counter(h, u) == Total(h.lists, u);
          TotalSplit(h.lists, inv, u);
          CountUserAppend([], h.lists[inv], u);
          CountPositive(h.lists[inv], e);
          assert u in h.connections;
        } else {
          assert Counter(h, u) == Total(h.lists, u);
        }
      }
      forall u
        ensures Counter(r, u) <= MaxConnectionsPerUser
      {
        assert Counter(h, u) <= MaxConnectionsPerUser;
      }
    }
  }

  /** A list holding an entry of `e.user` counts that user at least once. */
  lemma {:induction false} CountPositive(xs: seq<Entry>, e: Entry)
    requires e in xs
    ensures CountUser(xs, e.user) >= 1
    decreases |xs|
  {
    if xs[0] != e {
      CountPositive(xs[1..], e);
    }
  }

  /** Removing the same entry twice is the same as removing it once. */
  lemma RemoveEmitterIdempotent(h: Hub, inv: InventoryId, e: Entry)
    requires Valid(h)
    ensures RemoveEmitter(RemoveEmitter(h, inv, e), inv, e) == RemoveEmitter(h, inv, e)
  {
    if Holds(h, inv, e) {
      RemoveFirstDistinct(h.lists[inv], e);
    }
  }

  // ---------------------------------------------------------------------------
  // Sending to a list of entries
  // ---------------------------------------------------------------------------

  /** One send of `m` to every entry, in list order. */
  function SendAll(xs: seq<Entry>, m: Message): (r: seq<Send>)
    ensures |r| == |xs|
    ensures forall i :: 0 <= i < |xs| ==> r[i] == Send(xs[i].emitter, m)
  {
    if xs == [] then [] else [Send(xs[0].emitter, m)] + SendAll(xs[1..], m)
  }

  /** The entries whose send failed, in list order (`deadEmitters`). */
  function Dead(xs: seq<Entry>, ok: Entry -> bool): (r: seq<Entry>)
    ensures forall x :: x in r ==> x in xs && !ok(x)
    ensures forall x :: x in xs && !ok(x) ==> x in r
  {
    if xs == [] then []
    else if ok(xs[0]) then Dead(xs[1..], ok)
    else [xs[0]] + Dead(xs[1..], ok)
  }

  /** The entries whose send succeeded, in list order. */
  function Survivors(xs: seq<Entry>, ok: Entry -> bool): (r: seq<Entry>)
    ensures forall x :: x in r ==> x in xs && ok(x)
    ensures forall x :: x in xs && ok(x) ==> x in r
  {
    if xs == [] then []
    else if ok(xs[0]) then [xs[0]] + Survivors(xs[1..], ok)
    else Survivors(xs[1..], ok)
  }

  /** `removeEmitter` on each dead entry in turn. */
  function RemoveAll(h: Hub, inv: InventoryId, dead: seq<Entry>): (r: Hub)
    ensures r.lists.Keys == h.lists.Keys
    ensures forall j :: j in h.lists && j != inv ==> r.lists[j] == h.lists[j]
    ensures Valid(h) ==> Valid(r)
    decreases |dead|
  {
    if dead == [] then h
    else
      RemoveEmitterPreservesValid(h, inv, dead[0]);
      RemoveAll(RemoveEmitter(h, inv, dead[0]), inv, dead[1..])
  }

  /** The list-level effect of removing each of `dead` in turn. */
  function RemoveEach(xs: seq<Entry>, dead: seq<Entry>): seq<Entry>
    decreases |dead|
  {
    if dead == [] then xs else RemoveEach(RemoveFirst(xs, dead[0]), dead[1..])
  }

  lemma {:induction false} RemoveAllLists(h: Hub, inv: InventoryId, dead: seq<Entry>)
    requires inv in h.lists
    ensures RemoveAll(h, inv, dead).lists[inv] == RemoveEach(h.lists[inv], dead)
    decreases |dead|
  {
    if dead != [] {
      RemoveAllLists(RemoveEmitter(h, inv, dead[0]), inv, dead[1..]);
    }
  }

  lemma RemoveEachCons(xs: seq<Entry>, d: Entry, ds: seq<Entry>)
    ensures RemoveEach(xs, [d] + ds) == RemoveEach(RemoveFirst(xs, d), ds)
  {
    assert ([d] + ds)[1..] == ds;
  }

  lemma {:induction false} RemoveEachSkips(x: Entry, ys: seq<Entry>, dead: seq<Entry>)
    requires x !in dead
    ensures RemoveEach([x] + ys, dead) == [x] + RemoveEach(ys, dead)
    decreases |dead|
  {
    if dead != [] {
      assert ([x] + ys)[1..] == ys;
      RemoveEachSkips(x, RemoveFirst(ys, dead[0]), dead[1..]);
    }
  }

  /** Removing the dead entries one by one from a list without repetitions
      leaves exactly the survivors, in their original order. */
  lemma {:induction false} RemoveDeadLeavesSurvivors(xs: seq<Entry>, ok: Entry -> bool)
    requires Distinct(xs)
    ensures RemoveEach(xs, Dead(xs, ok)) == Survivors(xs, ok)
    decreases |xs|
  {
    if xs != [] {
      assert Distinct(xs[1..]);
      RemoveDeadLeavesSurvivors(xs[1..], ok);
      if ok(xs[0]) {
        assert xs[0] !in xs[1..];
        SurvivingHead(xs, ok);
      } else {
        DeadHead(xs, ok);
      }
    }
  }

  /** A surviving head stays in front of whatever the removals leave. */
  lemma SurvivingHead(xs: seq<Entry>, ok: Entry -> bool)
    requires xs != [] && ok(xs[0]) && xs[0] !in xs[1..]
    ensures RemoveEach(xs, Dead(xs, ok)) == [xs[0]] + RemoveEach(xs[1..], Dead(xs[1..], ok))
    ensures Survivors(xs, ok) == [xs[0]] + Survivors(xs[1..], ok)
  {
    assert xs == [xs[0]] + xs[1..];
    assert Dead(xs, ok) == Dead(xs[1..], ok);
    RemoveEachSkips(xs[0], xs[1..], Dead(xs[1..], ok));
  }

  /** A dead head is the first entry removed, and removing it leaves the tail. */
  lemma DeadHead(xs: seq<Entry>, ok: Entry -> bool)
    requires xs != [] && !ok(xs[0])
    ensures RemoveEach(xs, Dead(xs, ok)) == RemoveEach(xs[1..], Dead(xs[1..], ok))
    ensures Survivors(xs, ok) == Survivors(xs[1..], ok)
  {
    assert Dead(xs, ok) == [xs[0]] + Dead(xs[1..], ok);
    RemoveEachCons(xs, xs[0], Dead(xs[1..], ok));
    assert RemoveFirst(xs, xs[0]) == xs[1..];
  }

  lemma {:induction false} SurvivorsDistinct(xs: seq<Entry>, ok: Entry -> bool)
    requires Distinct(xs)
    ensures Distinct(Survivors(xs, ok))
    decreases |xs|
  {
    if xs != [] {
      assert Distinct(xs[1..]);
      SurvivorsDistinct(xs[1..], ok);
      assert xs[0] !in xs[1..];
    }
  }

  /** One inventory's broadcast: send `m` to each of its entries, then remove
      the entries whose send failed. */
  function Broadcast(h: Hub, inv: InventoryId, m: Message, ok: Entry -> bool): (o: Outcome)
    requires inv in h.lists
    ensures o.sends == SendAll(h.lists[inv], m)
    ensures o.hub.lists.Keys == h.lists.Keys
    ensures forall j :: j in h.lists && j != inv ==> o.hub.lists[j] == h.lists[j]
    ensures Valid(h) ==> Valid(o.hub)
    ensures Valid(h) ==> o.hub.lists[inv] == Survivors(h.lists[inv], ok)
  {
    var entries := h.lists[inv];
    var r := RemoveAll(h, inv, Dead(entries, ok));
    RemoveAllLists(h, inv, Dead(entries, ok));
    ValidListLeavesSurvivors(h, inv, ok);
    Outcome(r, SendAll(entries, m))
  }

  lemma ValidListLeavesSurvivors(h: Hub, inv: InventoryId, ok: Entry -> bool)
    requires inv in h.lists
    ensures Valid(h) ==> RemoveEach(h.lists[inv], Dead(h.lists[inv], ok)) == Survivors(h.lists[inv], ok)
  {
    if Valid(h) {
      RemoveDeadLeavesSurvivors(h.lists[inv], ok);
    }
  }

  // ---------------------------------------------------------------------------
  // The service operations
  // ---------------------------------------------------------------------------

  /** `subscribe(inventoryId, user)` with the new emitter `em`; `connectedOk`
      says whether the initial "connected" send succeeds. */
  function Subscribe(h: Hub, inv: InventoryId, u: UserId, em: EmitterId, connectedOk: bool): (s: Subscription)
    ensures Counter(h, u) + 1 > MaxConnectionsPerUser <==> s.result.Fail?
    ensures s.result.Fail? ==> s.result.error == BadInput && s.sends == [] && s.hub.lists == h.lists
    ensures s.result.Fail? ==> Counter(s.hub, u) == Counter(h, u)
    ensures s.result.Ok? ==> s.result.value == em && s.sends == [Send(em, Connected(inv))]
    ensures s.result.Ok? && connectedOk ==> inv in s.hub.lists
    ensures s.result.Ok? && connectedOk ==> s.hub.lists[inv] == Lookup(h, inv) + [Entry(u, em)]
    ensures s.result.Ok? && connectedOk ==> Counter(s.hub, u) == Counter(h, u) + 1
    ensures s.result.Ok? && !connectedOk && !Registered(h, em) ==> Lookup(s.hub, inv) == Lookup(h, inv)
    ensures s.result.Ok? && !connectedOk ==> Counter(s.hub, u) == Counter(h, u)
    ensures forall v :: v != u ==> Counter(s.hub, v) == Counter(h, v)
    ensures forall j :: j in h.lists && j != inv ==> j in s.hub.lists && s.hub.lists[j] == h.lists[j]
  {
    var current := Counter(h, u) + 1;
    if current > MaxConnectionsPerUser then
      Subscription(Hub(h.lists, h.connections[u := current - 1]), Fail(BadInput), [])
    else
      var entry := Entry(u, em);
      var registered := Hub(h.lists[inv := Lookup(h, inv) + [entry]], h.connections[u := current]);
      var sends := [Send(em, Connected(inv))];
      if connectedOk then Subscription(registered, Ok(em), sends)
      else
        FreshEntryRemoved(h, inv, entry);
        Subscription(RemoveEmitter(registered, inv, entry), Ok(em), sends)
  }

  /** A failed connected send takes a fresh entry straight out of the list
      it was appended to. */
  lemma FreshEntryRemoved(h: Hub, inv: InventoryId, entry: Entry)
    ensures !Registered(h, entry.emitter) ==> RemoveFirst(Lookup(h, inv) + [entry], entry) == Lookup(h, inv)
  {
    if !Registered(h, entry.emitter) {
      forall i | 0 <= i < |Lookup(h, inv)|
        ensures Lookup(h, inv)[i] != entry
      {
        assert h.lists[inv][i].emitter != entry.emitter;
      }
      RemoveFirstOfAppended(Lookup(h, inv), entry);
    }
  }

  /** An inventory's list, or the empty list when it has none yet. */
  function Lookup(h: Hub, inv: InventoryId): seq<Entry> {
    if inv in h.lists then h.lists[inv] else []
  }

  /** A fresh emitter subscribing keeps the registry valid, whether or not the
      connected send succeeds and whether or not the cap refuses it. */
  lemma SubscribePreservesValid(h: Hub, inv: InventoryId, u: UserId, em: EmitterId, connectedOk: bool)
    requires Valid(h)
    requires !Registered(h, em)
    ensures Valid(Subscribe(h, inv, u, em, connectedOk).hub)
  {
    var current := Counter(h, u) + 1;
    var entry := Entry(u, em);
    if current <= MaxConnectionsPerUser {
      var xs := Lookup(h, inv) + [entry];
      var registered := Hub(h.lists[inv := xs], h.connections[u := current]);
      forall v
        ensures Counter(registered, v) == Total(registered.lists, v)
      {
        assert Counter(h, v) == Total(h.lists, v);
        if inv in h.lists {
          TotalUpdate(h.lists, inv, xs, v);
        } else {
          TotalAddEmpty(h.lists, inv, v);
          TotalUpdate(h.lists[inv := []], inv, xs, v);
          assert h.lists[inv := []][inv := xs] == h.lists[inv := xs];
          assert CountUser([], v) == 0;
        }
        CountUserAppend(Lookup(h, inv), [entry], v);
        assert CountUser([entry], v) == (if v == u then 1 else 0);
      }
      forall v
        ensures Counter(registered, v) <= MaxConnectionsPerUser
      {
        assert Counter(h, v) <= MaxConnectionsPerUser;
      }
      forall j | j in registered.lists
        ensures Distinct(registered.lists[j])
      {
        if j == inv {
          forall i | 0 <= i < |Lookup(h, inv)|
            ensures Lookup(h, inv)[i] != entry
          {
          }
        }
      }
      assert Valid(registered);
      if !connectedOk {
        RemoveEmitterPreservesValid(registered, inv, entry);
      }
    } else {
      forall v
        ensures Counter(Subscribe(h, inv, u, em, connectedOk).hub, v) == Total(h.lists, v)
      {
        assert Counter(h, v) == Total(h.lists, v);
      }
    }
  }

  /** `publishEvent`: nothing happens for an inventory without subscribers;
      otherwise every entry is sent the event under its lower-cased type, and
      the entries whose send failed are removed. */
  function Publish(h: Hub, e: Events.InventoryEvent, ok: Entry -> bool): (o: Outcome)
    ensures o.hub.lists.Keys == h.lists.Keys
    ensures forall j :: j in h.lists && j != e.inventoryId ==> o.hub.lists[j] == h.lists[j]
    ensures Lookup(h, e.inventoryId) == [] ==> o == Outcome(h, [])
    ensures o.sends == SendAll(Lookup(h, e.inventoryId), Published(Events.EventName(e), e))
    ensures Valid(h) ==> Valid(o.hub)
    ensures Valid(h) && e.inventoryId in h.lists ==>
      o.hub.lists[e.inventoryId] == Survivors(h.lists[e.inventoryId], ok)
  {
    var inv := e.inventoryId;
    if inv !in h.lists || h.lists[inv] == [] then Outcome(h, [])
    else Broadcast(h, inv, Published(Events.EventName(e), e), ok)
  }

  /** `sendHeartbeats` over the inventories in `invs`, one after another. */
  function HeartbeatEach(h: Hub, invs: seq<InventoryId>, now: Instant, ok: Entry -> bool): (o: Outcome)
    requires forall i :: 0 <= i < |invs| ==> invs[i] in h.lists
    ensures o.hub.lists.Keys == h.lists.Keys
    ensures forall j :: j in h.lists && j !in invs ==> o.hub.lists[j] == h.lists[j]
    ensures Valid(h) ==> Valid(o.hub)
    decreases |invs|
  {
    if invs == [] then Outcome(h, [])
    else
      var first := Broadcast(h, invs[0], Heartbeat(now), ok);
      var rest := HeartbeatEach(first.hub, invs[1..], now, ok);
      Outcome(rest.hub, first.sends + rest.sends)
  }

  /** The heartbeats a round over `invs` sends, inventory by inventory and
      entry by entry within each list: each listed entry is sent one
      heartbeat carrying `now`, and nothing else is sent. */
  function HeartbeatSends(lists: map<InventoryId, seq<Entry>>, invs: seq<InventoryId>, now: Instant): (r: seq<Send>)
    requires forall i :: 0 <= i < |invs| ==> invs[i] in lists
    ensures forall k :: 0 <= k < |r| ==> r[k].message == Heartbeat(now)
    ensures forall i, x :: 0 <= i < |invs| && x in lists[invs[i]] ==> Send(x.emitter, Heartbeat(now)) in r
    decreases |invs|
  {
    if invs == [] then []
    else
      var first := SendAll(lists[invs[0]], Heartbeat(now));
      var rest := HeartbeatSends(lists, invs[1..], now);
      var r := first + rest;
      assert forall k :: |first| <= k < |r| ==> r[k] == rest[k - |first|];
      forall i, x | 0 <= i < |invs| && x in lists[invs[i]]
        ensures Send(x.emitter, Heartbeat(now)) in r
      {
        if i == 0 {
          var j :| 0 <= j < |lists[invs[0]]| && lists[invs[0]][j] == x;
          assert r[j] == Send(x.emitter, Heartbeat(now));
        } else {
          assert invs[1..][i - 1] == invs[i];
          assert Send(x.emitter, Heartbeat(now)) in rest;
        }
      }
      r
  }

  /** Every heartbeat of a round goes to an emitter listed under one of the
      visited inventories. */
  lemma {:induction false} HeartbeatSendsToListed(lists: map<InventoryId, seq<Entry>>, invs: seq<InventoryId>, now: Instant)
    requires forall i :: 0 <= i < |invs| ==> invs[i] in lists
    ensures forall k :: 0 <= k < |HeartbeatSends(lists, invs, now)| ==> exists j :: j in invs && j in lists && HasEntryFor(lists[j], HeartbeatSends(lists, invs, now)[k].emitter)
    decreases |invs|
  {
    if invs != [] {
      HeartbeatSendsToListed(lists, invs[1..], now);
      var first := SendAll(lists[invs[0]], Heartbeat(now));
      var rest := HeartbeatSends(lists, invs[1..], now);
      var r := HeartbeatSends(lists, invs, now);
      assert r == first + rest;
      forall k | 0 <= k < |r|
        ensures exists j :: j in invs && j in lists && HasEntryFor(lists[j], r[k].emitter)
      {
        if k < |first| {
          assert lists[invs[0]][k] in lists[invs[0]];
          assert HasEntryFor(lists[invs[0]], r[k].emitter);
        } else {
          assert r[k] == rest[k - |first|];
          var j :| j in invs[1..] && j in lists && HasEntryFor(lists[j], rest[k - |first|].emitter);
          assert j in invs;
        }
      }
    } else {
      assert HeartbeatSends(lists, invs, now) == [];
    }
  }

  /** Some entry of `xs` belongs to emitter `em`. */
  predicate HasEntryFor(xs: seq<Entry>, em: EmitterId) {
    exists x :: x in xs && x.emitter == em
  }

  /** The heartbeats of a round depend only on the lists it visits. */
  lemma {:induction false} HeartbeatSendsOfListed(a: map<InventoryId, seq<Entry>>, b: map<InventoryId, seq<Entry>>, invs: seq<InventoryId>, now: Instant)
    requires forall i :: 0 <= i < |invs| ==> invs[i] in a && invs[i] in b && a[invs[i]] == b[invs[i]]
    ensures HeartbeatSends(a, invs, now) == HeartbeatSends(b, invs, now)
    decreases |invs|
  {
    if invs != [] {
      HeartbeatSendsOfListed(a, b, invs[1..], now);
    }
  }

  /** A round over every key reaches every entry of every list. */
  lemma HeartbeatSendsCoverKeys(lists: map<InventoryId, seq<Entry>>, invs: seq<InventoryId>, now: Instant)
    requires forall i :: 0 <= i < |invs| ==> invs[i] in lists
    requires forall j :: j in lists ==> j in invs
    ensures forall j, x :: j in lists && x in lists[j] ==> Send(x.emitter, Heartbeat(now)) in HeartbeatSends(lists, invs, now)
  {
    forall j, x | j in lists && x in lists[j]
      ensures Send(x.emitter, Heartbeat(now)) in HeartbeatSends(lists, invs, now)
    {
      var i :| 0 <= i < |invs| && invs[i] == j;
    }
  }

  /** A round over distinct inventories sends exactly `HeartbeatSends` of the
      lists as they were before the round: removing one inventory's dead
      entries does not touch the lists still to come. */
  lemma {:induction false} HeartbeatEachSends(h: Hub, invs: seq<InventoryId>, now: Instant, ok: Entry -> bool)
    requires forall i :: 0 <= i < |invs| ==> invs[i] in h.lists
    requires forall i, j :: 0 <= i < j < |invs| ==> invs[i] != invs[j]
    ensures HeartbeatEach(h, invs, now, ok).sends == HeartbeatSends(h.lists, invs, now)
    decreases |invs|
  {
    if invs != [] {
      var first := Broadcast(h, invs[0], Heartbeat(now), ok);
      HeartbeatEachSends(first.hub, invs[1..], now, ok);
      forall i | 0 <= i < |invs[1..]|
        ensures first.hub.lists[invs[1..][i]] == h.lists[invs[1..][i]]
      {
        assert invs[1..][i] == invs[i + 1] != invs[0];
      }
      HeartbeatSendsOfListed(first.hub.lists, h.lists, invs[1..], now);
    }
  }

  /** `sendHeartbeats`: every inventory, in ascending id order, is sent a
      heartbeat carrying `now`, and its dead entries are removed. */
  function SendHeartbeats(h: Hub, now: Instant, ok: Entry -> bool): (o: Outcome)
    ensures o.hub.lists.Keys == h.lists.Keys
    ensures Valid(h) ==> Valid(o.hub)
  {
    HeartbeatEach(h, Finite.SortedSet(h.lists.Keys), now, ok)
  }

  /** The heartbeat round sends the heartbeats of the lists as they stood
      before it, inventory by inventory in ascending id order. */
  lemma SendHeartbeatsSends(h: Hub, now: Instant, ok: Entry -> bool)
    ensures SendHeartbeats(h, now, ok).sends == HeartbeatSends(h.lists, Finite.SortedSet(h.lists.Keys), now)
  {
    var invs := Finite.SortedSet(h.lists.Keys);
    Finite.AscendingIsDistinct(invs);
    HeartbeatEachSends(h, invs, now, ok);
  }

  /** In a heartbeat round every entry held before the round is sent a
      heartbeat carrying `now`. */
  lemma HeartbeatsReachEveryEntry(h: Hub, now: Instant, ok: Entry -> bool)
    ensures forall j, x :: j in h.lists && x in h.lists[j] ==> Send(x.emitter, Heartbeat(now)) in SendHeartbeats(h, now, ok).sends
  {
    SendHeartbeatsSends(h, now, ok);
    HeartbeatSendsCoverKeys(h.lists, Finite.SortedSet(h.lists.Keys), now);
  }

  /** A heartbeat round sends nothing but heartbeats carrying `now`. */
  lemma HeartbeatsCarryNow(h: Hub, now: Instant, ok: Entry -> bool)
    ensures forall k :: 0 <= k < |SendHeartbeats(h, now, ok).sends| ==> SendHeartbeats(h, now, ok).sends[k].message == Heartbeat(now)
  {
    SendHeartbeatsSends(h, now, ok);
  }

  /** A heartbeat round sends only to emitters held before the round. */
  lemma HeartbeatsOnlyToHeld(h: Hub, now: Instant, ok: Entry -> bool)
    ensures forall k :: 0 <= k < |SendHeartbeats(h, now, ok).sends| ==> exists j :: j in h.lists && HasEntryFor(h.lists[j], SendHeartbeats(h, now, ok).sends[k].emitter)
  {
    SendHeartbeatsSends(h, now, ok);
    HeartbeatSendsToListed(h.lists, Finite.SortedSet(h.lists.Keys), now);
  }

  lemma {:induction false} HeartbeatEachSurvivors(h: Hub, invs: seq<InventoryId>, now: Instant, ok: Entry -> bool)
    requires forall i :: 0 <= i < |invs| ==> invs[i] in h.lists
    requires forall i, j :: 0 <= i < j < |invs| ==> invs[i] != invs[j]
    requires Valid(h)
    ensures forall j :: j in invs ==> HeartbeatEach(h, invs, now, ok).hub.lists[j] == Survivors(h.lists[j], ok)
    decreases |invs|
  {
    if invs != [] {
      var first := Broadcast(h, invs[0], Heartbeat(now), ok);
      HeartbeatEachSurvivors(first.hub, invs[1..], now, ok);
      assert invs[0] !in invs[1..];
      forall j | j in invs[1..]
        ensures first.hub.lists[j] == h.lists[j]
      {
      }
    }
  }

  /** After the heartbeat round, every inventory keeps exactly the entries whose
      heartbeat went through. */
  lemma HeartbeatsKeepSurvivors(h: Hub, now: Instant, ok: Entry -> bool)
    requires Valid(h)
    ensures forall j :: j in h.lists ==> SendHeartbeats(h, now, ok).hub.lists[j] == Survivors(h.lists[j], ok)
  {
    var invs := Finite.SortedSet(h.lists.Keys);
    Finite.AscendingIsDistinct(invs);
    HeartbeatEachSurvivors(h, invs, now, ok);
  }

  /** An emitter callback (completion, timeout or error) for `e`, as the
      service writes it: the callbacks call `removeEmitter` as written. */
  function DisconnectAsWritten(h: Hub, inv: InventoryId, e: Entry): (r: Hub)
    ensures Holds(h, inv, e) ==> r == Disconnect(h, inv, e)
    ensures !Holds(h, inv, e) ==> r.lists == h.lists
    ensures e.user in h.connections ==> Counter(r, e.user) == Counter(h, e.user) - 1
  {
    RemoveEmitterAsWritten(h, inv, e)
  }

  /** A callback for an entry that is no longer held, for a user who still has
      a counter, leaves the counter one below the user's entries. */
  lemma DisconnectAsWrittenBreaksConsistency(h: Hub, inv: InventoryId, e: Entry)
    requires Valid(h) && !Holds(h, inv, e) && e.user in h.connections
    ensures Counter(DisconnectAsWritten(h, inv, e), e.user) == Total(h.lists, e.user) - 1
    ensures !Consistent(DisconnectAsWritten(h, inv, e))
  {
    var r := DisconnectAsWritten(h, inv, e);
    assert Counter(h, e.user) == Total(h.lists, e.user);
    assert Counter(r, e.user) != Total(r.lists, e.user);
  }

  /** An emitter callback (completion, timeout or error) for `e`, with the
      corrected `removeEmitter`: a callback for an entry that is no longer
      held changes nothing. */
  function Disconnect(h: Hub, inv: InventoryId, e: Entry): (r: Hub)
    ensures Valid(h) ==> Valid(r)
    ensures Holds(h, inv, e) && Valid(h) ==> !Holds(r, inv, e)
    ensures Holds(h, inv, e) && Valid(h) ==> Counter(r, e.user) == Counter(h, e.user) - 1
    ensures !Holds(h, inv, e) ==> r == h
  {
    DisconnectFacts(h, inv, e);
    RemoveEmitter(h, inv, e)
  }

  lemma DisconnectFacts(h: Hub, inv: InventoryId, e: Entry)
    ensures Valid(h) ==> Valid(RemoveEmitter(h, inv, e))
    ensures Holds(h, inv, e) && Valid(h) ==> e !in RemoveFirst(h.lists[inv], e)
    ensures Holds(h, inv, e) && Valid(h) ==> e.user in h.connections
  {
    if Valid(h) {
      RemoveEmitterPreservesValid(h, inv, e);
      if Holds(h, inv, e) {
        RemoveFirstDistinct(h.lists[inv], e);
        assert Counter(h, e.user) == Total(h.lists, e.user);
        TotalSplit(h.lists, inv, e.user);
        CountPositive(h.lists[inv], e);
      }
    }
  }

  // ---------------------------------------------------------------------------
  // The double decrement of `removeEmitter` as written
  // ---------------------------------------------------------------------------

  lemma TotalSingle(inv: InventoryId, xs: seq<Entry>, u: UserId)
    ensures Total(map[inv := xs], u) == CountUser(xs, u)
  {
    TotalSplit(map[inv := xs], inv, u);
    assert map[inv := xs] - {inv} == map[];
  }

  /** A user with one entry whose send fails: a broadcast removes the entry,
      then the emitter's error callback removes it again. As written, the
      counter drops to -1 although the user has no entry left. */
  lemma RemoveEmitterAsWrittenDecrementsTwice()
    ensures Valid(Hub(map[1 := [Entry(7, 1)]], map[7 := 1]))
    ensures RemoveEmitterAsWritten(RemoveEmitterAsWritten(Hub(map[1 := [Entry(7, 1)]], map[7 := 1]), 1, Entry(7, 1)), 1, Entry(7, 1))
         == Hub(map[1 := []], map[7 := -1])
  {
    var h := Hub(map[1 := [Entry(7, 1)]], map[7 := 1]);
    forall u
      ensures Counter(h, u) == Total(h.lists, u)
    {
      TotalSingle(1, [Entry(7, 1)], u);
    }
  }

  /** From the drifted state, six further subscriptions all pass the cap and
      leave the user with six live entries. */
  lemma DriftedCounterAdmitsSix()
    ensures SubscribeMany(Hub(map[1 := []], map[7 := -1]), 1, 7, [2, 3, 4, 5, 6, 7]).Ok?
    ensures Total(SubscribeMany(Hub(map[1 := []], map[7 := -1]), 1, 7, [2, 3, 4, 5, 6, 7]).value.lists, 7) == 6
  {
    var ems: seq<EmitterId> := [2, 3, 4, 5, 6, 7];
    SubscribeManyBelowCap(1, 7, [], -1, ems);
    assert [] + Entries(7, ems) == Entries(7, ems);
    TotalSingle(1, Entries(7, ems), 7);
    CountAllOf(7, ems);
  }

  /** Entries all of one user count fully. */
  lemma {:induction false} CountAllOf(u: UserId, ems: seq<EmitterId>)
    ensures CountUser(Entries(u, ems), u) == |ems|
    decreases |ems|
  {
    if ems != [] {
      assert Entries(u, ems)[1..] == Entries(u, ems[1..]);
      CountAllOf(u, ems[1..]);
    }
  }

  /** The entries of user `u` with the given emitters, in order. */
  function Entries(u: UserId, ems: seq<EmitterId>): (r: seq<Entry>)
    ensures |r| == |ems|
    ensures forall i :: 0 <= i < |ems| ==> r[i] == Entry(u, ems[i])
  {
    seq(|ems|, i requires 0 <= i < |ems| => Entry(u, ems[i]))
  }

  /** Successive subscriptions of one user with the given emitters, all of whose
      connected sends succeed; fails as soon as one is refused. */
  function SubscribeMany(h: Hub, inv: InventoryId, u: UserId, ems: seq<EmitterId>): (r: Result<Hub>)
    ensures r.Ok? ==> inv in r.value.lists || ems == []
    decreases |ems|
  {
    if ems == [] then Ok(h)
    else
      var s := Subscribe(h, inv, u, ems[0], true);
      if s.result.Fail? then Fail(s.result.error) else SubscribeMany(s.hub, inv, u, ems[1..])
  }

  /** From counter `c`, one user's subscriptions to a single-inventory hub all
      pass while the counter stays within the cap. */
  lemma {:induction false} SubscribeManyBelowCap(inv: InventoryId, u: UserId, xs: seq<Entry>, c: int, ems: seq<EmitterId>)
    requires c + |ems| <= MaxConnectionsPerUser
    ensures SubscribeMany(Hub(map[inv := xs], map[u := c]), inv, u, ems)
         == Ok(Hub(map[inv := xs + Entries(u, ems)], map[u := c + |ems|]))
    decreases |ems|
  {
    if ems == [] {
      assert xs + Entries(u, ems) == xs;
    } else {
      var h := Hub(map[inv := xs], map[u := c]);
      var s := Subscribe(h, inv, u, ems[0], true);
      assert s.hub == Hub(map[inv := xs + [Entry(u, ems[0])]], map[u := c + 1]);
      SubscribeManyBelowCap(inv, u, xs + [Entry(u, ems[0])], c + 1, ems[1..]);
      assert xs + [Entry(u, ems[0])] + Entries(u, ems[1..]) == xs + Entries(u, ems);
    }
  }

  /** With the corrected removal, the same sequence of events leaves the
      registry valid, so the cap holds. */
  lemma RemoveEmitterTwiceKeepsCap(h: Hub, inv: InventoryId, e: Entry)
    requires Valid(h)
    ensures Valid(RemoveEmitter(RemoveEmitter(h, inv, e), inv, e))
    ensures forall u :: Total(RemoveEmitter(RemoveEmitter(h, inv, e), inv, e).lists, u) <= MaxConnectionsPerUser
  {
    RemoveEmitterPreservesValid(h, inv, e);
    RemoveEmitterPreservesValid(RemoveEmitter(h, inv, e), inv, e);
    forall u
      ensures Total(RemoveEmitter(RemoveEmitter(h, inv, e), inv, e).lists, u) <= MaxConnectionsPerUser
    {
      ValidCapsEntries(RemoveEmitter(RemoveEmitter(h, inv, e), inv, e), u);
    }
  }
}
