/**
 * Orders and the storage types that hold them (Order.java, StorageType.java and
 * kitchen-simulator/.../Order.java).
 */
module Orders {
  import opened Wrappers

  /**
   * The temperature class of an order. The root Order enum has HOT, COLD and FROZEN;
   * the simulator's Kitchen and argument parser also use ROOM, so the case is included.
   */
  datatype Temperature = Hot | Cold | Frozen | Room

  /** An order as received from the feed; immutable once constructed. */
  datatype Order = Order(
    id: string,
    name: string,
    temperature: Temperature,
    shelfLifeSeconds: int,
    decayRate: real)

  /** Where a stored order sits. */
  datatype StorageType = Heater | Cooler | Freezer | Shelf {

    /** Whether this storage keeps `order` at its nominal decay rate; a null order is ideal nowhere. */
    predicate IsIdealFor(order: Option<Order>) {
      match order
      case None => false
      case Some(o) =>
        match this
        case Heater => o.temperature == Hot
        case Cooler => o.temperature == Cold
        case Freezer => o.temperature == Frozen
        case Shelf => false
    }

    /** The three temperature-controlled compartments, as opposed to the overflow shelf. */
    predicate IsCompartment() {
      this != Shelf
    }
  }

  /**
   * The one storage type that is ideal for orders of temperature `t`, if any:
   * every HOT, COLD or FROZEN order has exactly one, a compartment, and a ROOM
   * order has none (the shelf is ideal for nothing).
   */
  function IdealStorageOf(t: Temperature): (r: Option<StorageType>)
    ensures forall st: StorageType, o: Order {:trigger st.IsIdealFor(Some(o))} ::
      o.temperature == t ==> (st.IsIdealFor(Some(o)) <==> r == Some(st))
    ensures r.Some? ==> r.value.IsCompartment()
    ensures r.None? <==> t == Room
  {
    match t
    case Hot => Some(Heater)
    case Cold => Some(Cooler)
    case Frozen => Some(Freezer)
    case Room => None
  }

  /** The shelf is ideal for no order, and no storage type is ideal for a null order. */
  lemma ShelfAndNullIdealForNothing(st: StorageType, o: Order)
    ensures !Shelf.IsIdealFor(Some(o))
    ensures !st.IsIdealFor(None)
  {
  }
}
