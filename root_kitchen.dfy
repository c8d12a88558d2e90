/**
 * The root Kitchen (Kitchen.java, Action.java): every operation logs an Action
 * with a typed kind and optional source and destination storage, and a pickup
 * is always logged as PICKUP.
 */
module RootKitchen {
  import opened Wrappers
  import opened Orders
  import opened Freshness
  import opened KitchenStorage

  datatype ActionType = Place | Pickup | Move | Discard

  /** One ledger entry: what happened to which order, from where, to where, and when. */
  datatype Action = Action(kind: ActionType, orderId: string, from: Option<StorageType>, to: Option<StorageType>, timeMicros: int)

  /**
   * idealStorageFor: HOT orders go to the heater, COLD to the cooler, and
   * everything else (FROZEN, and ROOM, which this variant does not know) to the
   * freezer.
   */
  function IdealStorageFor(order: Order): (st: StorageType)
    ensures st.IsCompartment()
    ensures order.temperature != Room ==> st.IsIdealFor(Some(order))
    ensures order.temperature == Room ==> st == Freezer
  {
    if order.temperature == Hot then Heater
    else if order.temperature == Cold then Cooler
    else Freezer
  }

  /** The ledger entry of one move or discard made while placing an order. */
  function EvictionAction(e: Eviction, now: int): (a: Action)
    ensures a.orderId == e.id && a.from == Some(Shelf) && a.timeMicros == now
    ensures a.kind == Move <==> e.Moved?
    ensures a.kind == Discard <==> e.Discarded?
    ensures a.to == if e.Moved? then Some(e.to) else None
  {
    match e
    case Moved(id, to) => Action(Move, id, Some(Shelf), Some(to), now)
    case Discarded(id) => Action(Discard, id, Some(Shelf), None, now)
  }

  /**
   * The ledger entries of `events`, one per eviction and in order. The
   * simulator's Kitchen logs its evictions the same way, into its own Action
   * record (SimKitchen.EvictionActions).
   */
  function EvictionActions(events: seq<Eviction>, now: int): (r: seq<Action>)
    ensures |r| == |events|
    ensures forall i :: 0 <= i < |events| ==> r[i] == EvictionAction(events[i], now)
  {
    seq(|events|, i requires 0 <= i < |events| => EvictionAction(events[i], now))
  }

  class Kitchen {
    const storage: Storage
    /** The action ledger, only ever appended to. */
    var ledger: seq<Action>

    ghost predicate Valid()
      reads this, storage, storage.shelf, storage.Repr
    {
      storage.Valid()
    }

    /** The capacities: at most six orders per compartment and twelve mapped on the shelf. */
    predicate WithinCapacity()
      reads this, storage, storage.shelf
    {
      && |storage.heater| <= IdealCapacity && |storage.cooler| <= IdealCapacity && |storage.freezer| <= IdealCapacity
      && storage.shelf.Size() <= ShelfCapacity
    }

    constructor ()
      ensures Valid() && WithinCapacity() && fresh(storage) && fresh(storage.shelf) && storage.Repr == {}
      ensures ledger == []
      ensures storage.heater == [] && storage.cooler == [] && storage.freezer == [] && storage.allOrders == map[]
      ensures storage.shelf.orderMap == map[] && storage.shelf.heap == multiset{}
    {
      storage := new Storage();
      ledger := [];
    }

    /**
     * placeOrder: a null order is rejected before anything changes. Otherwise
     * the order goes to its ideal compartment if that holds fewer than six, else
     * to the shelf if it is not full; failing both, a shelf order is moved to the
     * heater, else to the cooler, else one is discarded, and placement is tried
     * again. Each move and discard, and finally the placement, is logged at `now`.
     */
    method PlaceOrder(order: Option<Order>, now: int)
      returns (result: Result<Placement, string>, events: seq<Eviction>, ghost rounds: seq<RoundLog>)
      requires Valid()
      modifies this`ledger, storage`heater, storage`cooler, storage`freezer, storage`allOrders, storage`Repr,
               storage.shelf, storage.Repr
      ensures Valid() && WithinCapacity() && fresh(storage.Repr - old(storage.Repr))
      ensures order.None? ==>
                && result == Err("order cannot be null") && ledger == old(ledger)
                && unchanged(storage, storage.shelf) && unchanged(storage.Repr)
      ensures order.Some? ==> result.Ok?
      ensures events == Evictions(rounds) && Chain(rounds, old(storage.Snapshot()), now)
      ensures result.Ok? && result.value.Placed? ==>
                ledger == old(ledger) + EvictionActions(events, now) +
                          [Action(Place, order.value.id, None, Some(result.value.where), now)]
      ensures result.Ok? && result.value.Spins? ==>
                ledger == old(ledger) + EvictionActions(events, now) && storage.Stuck(IdealStorageFor(order.value))
      ensures result.Ok? && result.value.Placed? ==>
                && fresh(result.value.stored) && storage.HoldsNew(result.value.stored, order.value, now)
                && result.value.stored.storageType == result.value.where
                && (result.value.where == IdealStorageFor(order.value) || result.value.where == Shelf)
      ensures order.Some? && old(|storage.List(IdealStorageFor(order.value))|) < IdealCapacity ==>
                events == [] && result.value.Placed? && result.value.where == IdealStorageFor(order.value)
      ensures order.Some? && old(|storage.List(IdealStorageFor(order.value))|) >= IdealCapacity && !old(storage.shelf.IsFull()) ==>
                events == [] && result.value.Placed? && result.value.where == Shelf
      ensures forall e :: e in events && e.Moved? ==> e.to == Heater || e.to == Cooler
    {
      if order.None? {
        return Err("order cannot be null"), [], [];
      }
      var outcome;
      outcome, events, rounds := PlaceSome(order.value, now);
      result := Ok(outcome);
    }

    /** placeOrder for a non-null order. */
    method PlaceSome(o: Order, now: int) returns (outcome: Placement, events: seq<Eviction>, ghost rounds: seq<RoundLog>)
      requires Valid()
      modifies this`ledger, storage`heater, storage`cooler, storage`freezer, storage`allOrders, storage`Repr,
               storage.shelf, storage.Repr
      ensures Valid() && WithinCapacity() && fresh(storage.Repr - old(storage.Repr))
      ensures outcome.Placed? ==>
                ledger == old(ledger) + EvictionActions(events, now) + [Action(Place, o.id, None, Some(outcome.where), now)]
      ensures events == Evictions(rounds) && Chain(rounds, old(storage.Snapshot()), now)
      ensures outcome.Spins? ==> ledger == old(ledger) + EvictionActions(events, now) && storage.Stuck(IdealStorageFor(o))
      ensures outcome.Placed? ==>
                && fresh(outcome.stored) && storage.HoldsNew(outcome.stored, o, now)
                && outcome.stored.storageType == outcome.where
                && (outcome.where == IdealStorageFor(o) || outcome.where == Shelf)
      ensures old(|storage.List(IdealStorageFor(o))|) < IdealCapacity ==>
                events == [] && outcome.Placed? && outcome.where == IdealStorageFor(o)
      ensures old(|storage.List(IdealStorageFor(o))|) >= IdealCapacity && !old(storage.shelf.IsFull()) ==>
                events == [] && outcome.Placed? && outcome.where == Shelf
      ensures forall e :: e in events && e.Moved? ==> e.to == Heater || e.to == Cooler
    {
      outcome, events, rounds := storage.Place(o, IdealStorageFor(o), now);
      var placed := if outcome.Placed? then [Action(Place, o.id, None, Some(outcome.where), now)] else [];
      ledger := ledger + EvictionActions(events, now) + placed;
    }

    /**
     * pickupOrder: a null or unknown id changes nothing. Otherwise the order is
     * dropped from the index and from its container (the shelf's map, or the
     * first order with that id in its compartment), deactivated, and logged as
     * PICKUP from its storage, however fresh it is.
     */
    method PickupOrder(orderId: Option<string>, now: int)
      requires Valid()
      modifies this`ledger, storage`heater, storage`cooler, storage`freezer, storage`allOrders,
               storage.shelf`orderMap, storage.Repr
      ensures Valid() && WithinCapacity()
      ensures orderId.None? || orderId.value !in old(storage.allOrders) ==>
                ledger == old(ledger) && unchanged(storage, storage.shelf) && unchanged(storage.Repr)
      ensures orderId.Some? && orderId.value in old(storage.allOrders) ==>
                var id := orderId.value;
                var st := old(storage.allOrders[id].storageType);
                && ledger == old(ledger) + [Action(Pickup, id, Some(st), None, now)]
                && storage.Withdrawn(id, st)
                && !old(storage.allOrders[id]).active
                && forall o :: o in storage.Repr ==>
                     && o.storageType == old(o.storageType)
                     && (o.State() == old(o.State()) || (o.order.id == id && o.State() == old(o.State()).(active := false)))
    {
      if orderId.None? || orderId.value !in storage.allOrders {
        return;
      }
      var id := orderId.value;
      var st := storage.Withdraw(id);
      ledger := ledger + [Action(Pickup, id, Some(st), None, now)];
    }
  }
}
