/**
 * The simulator's Kitchen (kitchen-simulator/.../Kitchen.java, Action.java):
 * ROOM orders belong on the shelf, ledger entries carry the action and the
 * location as lower-case words, and a pickup of an order that has expired by
 * the time it is collected is logged as a discard.
 */
module SimKitchen {
  import opened Wrappers
  import opened Orders
  import opened Freshness
  import opened KitchenStorage

  /** One ledger entry: when, which order, what happened ("place", "move", "pickup", "discard"), and where. */
  datatype Action = Action(timestamp: int, id: string, action: string, target: string)

  /** location: the storage type's name in lower case. */
  function Location(st: StorageType): (r: string)
    ensures |r| > 0 && forall i :: 0 <= i < |r| ==> 'a' <= r[i] <= 'z'
    ensures r == "shelf" <==> st == Shelf
  {
    match st
    case Heater => "heater"
    case Cooler => "cooler"
    case Freezer => "freezer"
    case Shelf => "shelf"
  }

  /** Distinct storage types have distinct locations, so a ledger target names its storage. */
  lemma LocationInjective(a: StorageType, b: StorageType)
    ensures Location(a) == Location(b) ==> a == b
  {
    if Location(a) == Location(b) {
      assert Location(a)[0] == Location(b)[0];
      assert Location(a)[..1] == Location(b)[..1];
    }
  }

  /**
   * idealStorageFor: HOT to the heater, COLD to the cooler, ROOM to the shelf,
   * FROZEN to the freezer. The result is the storage ideal for the order, or
   * the shelf exactly when no storage is.
   */
  function IdealStorageFor(order: Order): (st: StorageType)
    ensures st == Shelf <==> order.temperature == Room
    ensures st != Shelf ==> st.IsIdealFor(Some(order))
    ensures IdealStorageOf(order.temperature) == (if st == Shelf then None else Some(st))
  {
    if order.temperature == Hot then Heater
    else if order.temperature == Cold then Cooler
    else if order.temperature == Room then Shelf
    else Freezer
  }

  /** The ledger entry of one move or discard made while placing an order. */
  function EvictionAction(e: Eviction, now: int): (a: Action)
    ensures a.id == e.id && a.timestamp == now
    ensures a.action == "move" <==> e.Moved?
    ensures a.action == "discard" <==> e.Discarded?
    ensures e.Moved? ==> a.target == Location(e.to)
    ensures e.Discarded? ==> a.target == "shelf"
  {
    match e
    case Moved(id, to) => Action(now, id, "move", Location(to))
    case Discarded(id) => Action(now, id, "discard", Location(Shelf))
  }

  /**
   * The ledger entries of `events`, one per eviction and in order: the same
   * logging as the root Kitchen's (RootKitchen.EvictionActions), into this
   * variant's Action record.
   */
  function EvictionActions(events: seq<Eviction>, now: int): (r: seq<Action>)
    ensures |r| == |events|
    ensures forall i :: 0 <= i < |events| ==> r[i] == EvictionAction(events[i], now)
  {
    seq(|events|, i requires 0 <= i < |events| => EvictionAction(events[i], now))
  }

  /** What a pickup logs: "discard" for an order that has expired by `now`, "pickup" otherwise. */
  function PickupVerb(expired: bool): (v: string)
    ensures v == "discard" <==> expired
    ensures v == "pickup" <==> !expired
  {
    if expired then "discard" else "pickup"
  }

  class Kitchen {
    const storage: Storage
    /** The action ledger, only ever appended to. */
    var ledger: seq<Action>

    ghost predicate Valid()
      reads this, storage, storage.shelf, storage.Repr
    {
      storage.Valid()
    }

    /** The capacities: at most six orders per compartment and twelve mapped on the shelf. */
    predicate WithinCapacity()
      reads this, storage, storage.shelf
    {
      && |storage.heater| <= IdealCapacity && |storage.cooler| <= IdealCapacity && |storage.freezer| <= IdealCapacity
      && storage.shelf.Size() <= ShelfCapacity
    }

    constructor ()
      ensures Valid() && WithinCapacity() && fresh(storage) && fresh(storage.shelf) && storage.Repr == {}
      ensures ledger == []
      ensures storage.heater == [] && storage.cooler == [] && storage.freezer == [] && storage.allOrders == map[]
      ensures storage.shelf.orderMap == map[] && storage.shelf.heap == multiset{}
    {
      storage := new Storage();
      ledger := [];
    }

    /** getLedgerSnapshot: a copy of the ledger; taking it changes nothing. */
    method GetLedgerSnapshot() returns (snapshot: seq<Action>)
      ensures snapshot == ledger
    {
      snapshot := ledger;
    }

    /**
     * placeOrder: a null order is rejected (IllegalArgumentException) before
     * anything changes. A ROOM order goes to the shelf if it is not full; any
     * other order to its ideal compartment if that holds fewer than six, else to
     * the shelf if it is not full. Failing that, a shelf order is moved to the
     * heater, else to the cooler, else one is discarded from the shelf, and
     * placement is tried again. Moves, discards and the placement are logged.
     */
    method PlaceOrder(order: Option<Order>, now: int)
      returns (result: Result<Placement, string>, events: seq<Eviction>, ghost rounds: seq<RoundLog>)
      requires Valid()
      modifies this`ledger, storage`heater, storage`cooler, storage`freezer, storage`allOrders, storage`Repr,
               storage.shelf, storage.Repr
      ensures Valid() && WithinCapacity() && fresh(storage.Repr - old(storage.Repr))
      ensures order.None? ==>
                && result == Err("order cannot be null") && ledger == old(ledger)
                && unchanged(storage, storage.shelf) && unchanged(storage.Repr)
      ensures order.Some? ==> result.Ok?
      ensures events == Evictions(rounds) && Chain(rounds, old(storage.Snapshot()), now)
      ensures result.Ok? && result.value.Placed? ==>
                ledger == old(ledger) + EvictionActions(events, now) +
                          [Action(now, order.value.id, "place", Location(result.value.where))]
      ensures result.Ok? && result.value.Spins? ==>
                ledger == old(ledger) + EvictionActions(events, now) && storage.Stuck(IdealStorageFor(order.value))
      ensures result.Ok? && result.value.Placed? ==>
                && fresh(result.value.stored) && storage.HoldsNew(result.value.stored, order.value, now)
                && result.value.stored.storageType == result.value.where
                && (result.value.where == IdealStorageFor(order.value) || result.value.where == Shelf)
      ensures result.Ok? && result.value.Placed? && order.value.temperature == Room ==> result.value.where == Shelf
      ensures order.Some? && order.value.temperature != Room &&
              old(|storage.List(IdealStorageFor(order.value))|) < IdealCapacity ==>
                events == [] && result.value.Placed? && result.value.where == IdealStorageFor(order.value)
      ensures order.Some? &&
              (order.value.temperature == Room || old(|storage.List(IdealStorageFor(order.value))|) >= IdealCapacity) &&
              !old(storage.shelf.IsFull()) ==>
                events == [] && result.value.Placed? && result.value.where == Shelf
      ensures forall e :: e in events && e.Moved? ==> e.to == Heater || e.to == Cooler
    {
      if order.None? {
        return Err("order cannot be null"), [], [];
      }
      var outcome;
      outcome, events, rounds := PlaceSome(order.value, now);
      result := Ok(outcome);
    }

    /** placeOrder for a non-null order. */
    method PlaceSome(o: Order, now: int) returns (outcome: Placement, events: seq<Eviction>, ghost rounds: seq<RoundLog>)
      requires Valid()
      modifies this`ledger, storage`heater, storage`cooler, storage`freezer, storage`allOrders, storage`Repr,
               storage.shelf, storage.Repr
      ensures Valid() && WithinCapacity() && fresh(storage.Repr - old(storage.Repr))
      ensures outcome.Placed? ==>
                ledger == old(ledger) + EvictionActions(events, now) + [Action(now, o.id, "place", Location(outcome.where))]
      ensures events == Evictions(rounds) && Chain(rounds, old(storage.Snapshot()), now)
      ensures outcome.Spins? ==> ledger == old(ledger) + EvictionActions(events, now) && storage.Stuck(IdealStorageFor(o))
      ensures outcome.Placed? ==>
                && fresh(outcome.stored) && storage.HoldsNew(outcome.stored, o, now)
                && outcome.stored.storageType == outcome.where
                && (outcome.where == IdealStorageFor(o) || outcome.where == Shelf)
      ensures o.temperature != Room && old(|storage.List(IdealStorageFor(o))|) < IdealCapacity ==>
                events == [] && outcome.Placed? && outcome.where == IdealStorageFor(o)
      ensures (o.temperature == Room || old(|storage.List(IdealStorageFor(o))|) >= IdealCapacity) &&
              !old(storage.shelf.IsFull()) ==>
                events == [] && outcome.Placed? && outcome.where == Shelf
      ensures forall e :: e in events && e.Moved? ==> e.to == Heater || e.to == Cooler
    {
      outcome, events, rounds := storage.Place(o, IdealStorageFor(o), now);
      var placed := if outcome.Placed? then [Action(now, o.id, "place", Location(outcome.where))] else [];
      ledger := ledger + EvictionActions(events, now) + placed;
    }

    /**
     * pickupOrder: a null or unknown id changes nothing. Otherwise the order is
     * settled at `now`, removed from its container (the shelf's map, or the
     * first order with that id in its compartment) and from the index, and
     * logged at its storage before removal: as "discard" if settling expired
     * it, else as "pickup".
     */
    method PickupOrder(orderId: Option<string>, now: int)
      requires Valid()
      modifies this`ledger, storage`heater, storage`cooler, storage`freezer, storage`allOrders,
               storage.shelf`orderMap, storage.Repr
      ensures Valid() && WithinCapacity()
      ensures orderId.None? || orderId.value !in old(storage.allOrders) ==>
                ledger == old(ledger) && unchanged(storage, storage.shelf) && unchanged(storage.Repr)
      ensures orderId.Some? && orderId.value in old(storage.allOrders) ==>
                var id := orderId.value;
                var so := old(storage.allOrders[id]);
                var st := old(so.storageType);
                var expired := !Settle(so.order, st, old(so.State()), now).active;
                && ledger == old(ledger) + [Action(now, id, PickupVerb(expired), Location(st))]
                && storage.Withdrawn(id, st)
                && forall o :: o in storage.Repr ==>
                     o.storageType == old(o.storageType) && (o.State() == old(o.State()) || o.order.id == id)
    {
      if orderId.None? || orderId.value !in storage.allOrders {
        return;
      }
      var id := orderId.value;
      var st, expired := storage.Collect(id, now);
      ledger := ledger + [Action(now, id, PickupVerb(expired), Location(st))];
    }
  }

  /**
   * The kitchen test's scenario: a fresh kitchen, one HOT order "o1" (300
   * seconds, decay 0.45) placed at `placedAt` and picked up at `pickedAt` on a
   * clock that does not run backwards. The ledger is exactly a place and then
   * a pickup, both at the heater, with non-decreasing timestamps, unless the
   * order has decayed to nothing by then, when the second entry is a discard.
   */
  method PlaceThenPickup(placedAt: int, pickedAt: int) returns (ledger: seq<Action>)
    requires placedAt <= pickedAt
    ensures |ledger| == 2
    ensures ledger[0] == Action(placedAt, "o1", "place", "heater")
    ensures ledger[1].id == "o1" && ledger[1].target == "heater" && ledger[1].timestamp == pickedAt
    ensures ledger[0].timestamp <= ledger[1].timestamp
    ensures ledger[1].action == if (pickedAt - placedAt) as real * 0.45 >= 300_000_000.0 then "discard" else "pickup"
  {
    var kitchen := PlacedSoup(placedAt);
    kitchen.PickupOrder(Some("o1"), pickedAt);
    ledger := kitchen.GetLedgerSnapshot();
  }

  /** The kitchen test's HOT order. */
  function Soup(): Order {
    Order("o1", "Soup", Hot, 300, 0.45)
  }

  /** The scenario's first step: a fresh kitchen places the soup at `placedAt`, in the heater, logged as such. */
  method PlacedSoup(placedAt: int) returns (kitchen: Kitchen)
    ensures fresh(kitchen) && fresh(kitchen.storage) && fresh(kitchen.storage.shelf) && fresh(kitchen.storage.Repr)
    ensures kitchen.Valid() && kitchen.ledger == [Action(placedAt, "o1", "place", "heater")]
    ensures "o1" in kitchen.storage.allOrders
    ensures var so := kitchen.storage.allOrders["o1"];
            so.order == Soup() && so.storageType == Heater && so.State() == InitialState(Soup(), placedAt)
  {
    kitchen := new Kitchen();
    var result, events, rounds := kitchen.PlaceOrder(Some(Soup()), placedAt);
  }
}
