/**
 * The freshness state of one stored order (StoredOrder.java).
 *
 * Freshness is measured in microsecond units: an order starts with
 * shelfLifeSeconds * 1_000_000 and loses elapsed * decayRate per elapsed
 * microsecond in its ideal storage, twice that anywhere else. Java doubles
 * are modelled as exact reals.
 */
module Freshness {
  import opened Wrappers
  import opened Orders

  const MicrosPerSecond: int := 1_000_000

  /** The mutable part of a StoredOrder: when it was last settled, what is left, and whether it is live. */
  datatype FreshState = FreshState(lastUpdated: int, remaining: real, active: bool)

  /** 1.0 in the order's ideal storage, 2.0 anywhere else (the shelf always). */
  function Multiplier(st: StorageType, order: Order): (m: real)
    ensures m == 1.0 <==> st.IsIdealFor(Some(order))
    ensures m == 1.0 || m == 2.0
  {
    if st.IsIdealFor(Some(order)) then 1.0 else 2.0
  }

  /** The state of a freshly constructed StoredOrder placed at `placedTime`. */
  function InitialState(order: Order, placedTime: int): FreshState {
    FreshState(placedTime, (order.shelfLifeSeconds * MicrosPerSecond) as real, true)
  }

  /** Freshness lost over `elapsed` microseconds in storage `st`. */
  function Decay(order: Order, st: StorageType, elapsed: int): real {
    elapsed as real * order.decayRate * Multiplier(st, order)
  }

  lemma DecayAdds(order: Order, st: StorageType, a: int, b: int)
    ensures Decay(order, st, a + b) == Decay(order, st, a) + Decay(order, st, b)
  {
    var k := order.decayRate * Multiplier(st, order);
    assert (a + b) as real * k == a as real * k + b as real * k;
  }

  lemma DecayNonNegative(order: Order, st: StorageType, a: int)
    requires order.decayRate >= 0.0 && a >= 0
    ensures Decay(order, st, a) >= 0.0
  {
    var m := Multiplier(st, order);
    assert order.decayRate * m >= 0.0;
  }

  /**
   * Settlement (updateFreshness): bring the state up to `now`. An inactive order is
   * left alone; a clock reading at or before `lastUpdated` only moves `lastUpdated`
   * (possibly backwards); otherwise freshness drops linearly and an order whose
   * freshness reaches 0 is clamped to 0 and deactivated.
   */
  function Settle(order: Order, st: StorageType, f: FreshState, now: int): (r: FreshState)
    ensures !f.active ==> r == f
    ensures r.active ==> f.active
    ensures f.active ==> r.lastUpdated == now
    ensures f.active && !r.active ==> r.remaining == 0.0
    ensures order.decayRate >= 0.0 && f.remaining >= 0.0 ==> 0.0 <= r.remaining <= f.remaining
  {
    if !f.active then f
    else if now - f.lastUpdated <= 0 then f.(lastUpdated := now)
    else
      var left := f.remaining - Decay(order, st, now - f.lastUpdated);
      if left <= 0.0 then FreshState(now, 0.0, false) else FreshState(now, left, true)
  }

  /** Settling at each of `times` in turn. */
  function SettleAll(order: Order, st: StorageType, f: FreshState, times: seq<int>): FreshState
    decreases |times|
  {
    if times == [] then f else SettleAll(order, st, Settle(order, st, f, times[0]), times[1..])
  }

  /** The last of `times`, or `otherwise` when there are none. */
  function LastOr(times: seq<int>, otherwise: int): int {
    if times == [] then otherwise else times[|times| - 1]
  }

  predicate NonDecreasingFrom(start: int, times: seq<int>) {
    (forall i :: 0 <= i < |times| ==> start <= times[i]) &&
    (forall i, j :: 0 <= i <= j < |times| ==> times[i] <= times[j])
  }

  /** Expiry is permanent: no sequence of settlements, at any times, reactivates an inactive order. */
  lemma {:induction false} InactiveIsFinal(order: Order, st: StorageType, f: FreshState, times: seq<int>)
    requires !f.active
    ensures SettleAll(order, st, f, times) == f
    decreases |times|
  {
    if times != [] {
      InactiveIsFinal(order, st, Settle(order, st, f, times[0]), times[1..]);
    }
  }

  /**
   * Decay linearity: settling at any non-decreasing sequence of times ending at T gives
   * the same result as one settlement at T. The order keeps
   * remaining - (T - lastUpdated) * decayRate * multiplier while that is positive, and is
   * expired (with freshness 0) once it is not.
   */
  lemma {:induction false} SettleAllIsLinear(order: Order, st: StorageType, f: FreshState, times: seq<int>)
    requires f.active && order.decayRate >= 0.0
    requires NonDecreasingFrom(f.lastUpdated, times)
    ensures var t := LastOr(times, f.lastUpdated);
            var left := f.remaining - Decay(order, st, t - f.lastUpdated);
            var r := SettleAll(order, st, f, times);
            && (t == f.lastUpdated ==> r == f)
            && (t > f.lastUpdated && left > 0.0 ==> r == FreshState(t, left, true))
            && (t > f.lastUpdated && left <= 0.0 ==> !r.active && r.remaining == 0.0)
    decreases |times|
  {
    if times == [] {
      return;
    }
    var t := LastOr(times, f.lastUpdated);
    var t0 := times[0];
    var f1 := Settle(order, st, f, t0);
    var rest := times[1..];
    assert SettleAll(order, st, f, times) == SettleAll(order, st, f1, rest);
    assert NonDecreasingFrom(t0, rest);
    assert LastOr(rest, t0) == t;
    if t0 == f.lastUpdated {
      assert f1 == f;
      SettleAllIsLinear(order, st, f, rest);
    } else {
      DecayAdds(order, st, t0 - f.lastUpdated, t - t0);
      DecayNonNegative(order, st, t - t0);
      var left1 := f.remaining - Decay(order, st, t0 - f.lastUpdated);
      if left1 <= 0.0 {
        InactiveIsFinal(order, st, f1, rest);
      } else {
        assert f1 == FreshState(t0, left1, true);
        SettleAllIsLinear(order, st, f1, rest);
      }
    }
  }

  /**
   * One stored order. `order` and `placedTime` never change; settlement and
   * relocation reassign the other fields in place, and the Kitchen and the shelf
   * share the same object, so deactivating it through either reference is seen
   * by both.
   */
  class StoredOrder {
    const order: Order
    var storageType: StorageType
    const placedTime: int
    var lastUpdated: int
    var remaining: real
    var active: bool

    function State(): FreshState
      reads this
    {
      FreshState(lastUpdated, remaining, active)
    }

    /** A new order placed at `placedTime`: active, settled at placement, with its full shelf life. */
    constructor (order: Order, storageType: StorageType, placedTime: int)
      ensures this.order == order && this.storageType == storageType && this.placedTime == placedTime
      ensures State() == InitialState(order, placedTime)
      ensures lastUpdated == placedTime && active
      ensures remaining == (order.shelfLifeSeconds * MicrosPerSecond) as real
    {
      this.order := order;
      this.storageType := storageType;
      this.placedTime := placedTime;
      this.lastUpdated := placedTime;
      this.remaining := (order.shelfLifeSeconds * MicrosPerSecond) as real;
      this.active := true;
    }

    /** An order re-created after a move: its original placement time, settled at `now` with `remaining` left. */
    constructor Resume(order: Order, storageType: StorageType, placedTime: int, now: int, remaining: real)
      ensures this.order == order && this.storageType == storageType && this.placedTime == placedTime
      ensures State() == FreshState(now, remaining, true)
    {
      this.order := order;
      this.storageType := storageType;
      this.placedTime := placedTime;
      this.lastUpdated := now;
      this.remaining := remaining;
      this.active := true;
    }

    /** Marks the order as no longer live (removed or superseded); nothing else changes. */
    method Deactivate()
      modifies this
      ensures State() == old(State()).(active := false)
      ensures storageType == old(storageType)
    {
      active := false;
    }

    /** updateFreshness: settles the order at `now` in its current storage. */
    method UpdateFreshness(now: int)
      modifies this
      ensures State() == Settle(order, storageType, old(State()), now)
      ensures storageType == old(storageType)
    {
      if !active {
        return;
      }
      var elapsed := now - lastUpdated;
      if elapsed <= 0 {
        lastUpdated := now;
        return;
      }
      var multiplier := if storageType.IsIdealFor(Some(order)) then 1.0 else 2.0;
      var decay := elapsed as real * order.decayRate * multiplier;
      assert decay == Decay(order, storageType, elapsed);
      remaining := remaining - decay;
      lastUpdated := now;
      if remaining <= 0.0 {
        remaining := 0.0;
        active := false;
      }
    }

    /** isExpired: settles at `now` (a side effect) and reports whether the order is no longer live. */
    method IsExpired(now: int) returns (expired: bool)
      modifies this
      ensures State() == Settle(order, storageType, old(State()), now)
      ensures storageType == old(storageType)
      ensures expired == !active
      ensures old(active) && !expired ==> lastUpdated == now
    {
      UpdateFreshness(now);
      expired := !active;
    }

    /**
     * moveTo: settles at the old storage first, then switches storage; the order,
     * its placement time and its settled freshness carry over.
     */
    method MoveTo(newStorage: StorageType, now: int)
      modifies this
      ensures State() == Settle(order, old(storageType), old(State()), now)
      ensures storageType == newStorage
    {
      UpdateFreshness(now);
      storageType := newStorage;
    }
  }
}
