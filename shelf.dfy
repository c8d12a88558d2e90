/**
 * The overflow shelf (ShelfManager.java): a fixed-capacity pool whose
 * authoritative membership is a map from order id to stored order, beside a
 * priority queue ordered by estimated expiration that is cleaned lazily.
 *
 * The java.util.PriorityQueue is abstracted as the multiset of its entries;
 * polling takes an entry whose current estimate is minimal.
 */
module Shelf {
  import opened Wrappers
  import opened Orders
  import opened Freshness

  /** Long.MAX_VALUE, the estimate of an order that never expires. */
  const LongMax: int := 0x7FFF_FFFF_FFFF_FFFF
  /** (double) Long.MAX_VALUE, which rounds up to 2^63. */
  const LongMaxAsDouble: real := 9223372036854775808.0
  /** Integer.MAX_VALUE, the capacity of a shelf built without one. */
  const IntMax: int := 0x7FFF_FFFF

  /** Math.ceil on exact reals. */
  function Ceil(x: real): (c: int)
    ensures c as real - 1.0 < x <= c as real
  {
    -((-x).Floor)
  }

  /** Ceil commutes with subtracting a whole number. */
  lemma CeilMinusInt(x: real, n: int)
    ensures Ceil(x - n as real) == Ceil(x) - n
  {
    var c := Ceil(x);
    var d := Ceil(x - n as real);
    assert (d + n) as real - 1.0 < x <= (d + n) as real;
    assert (d + n) as real - 1.0 < c as real && c as real - 1.0 < (d + n) as real;
  }

  function Min(a: int, b: int): int {
    if a <= b then a else b
  }

  /**
   * estimatedExpirationMicros: the instant at which an order is projected to
   * expire, from its state when computed. Inactive orders and orders that do not
   * decay never expire (Long.MAX_VALUE); an order with no freshness left expires
   * at its last update; otherwise the last update plus the remaining freshness
   * over the effective decay rate, rounded up, saturating at Long.MAX_VALUE.
   */
  function EstimateOf(order: Order, st: StorageType, f: FreshState): int {
    if !f.active then LongMax
    else if f.remaining <= 0.0 then f.lastUpdated
    else if order.decayRate <= 0.0 then LongMax
    else ProjectExpiry(f.lastUpdated, f.remaining / (order.decayRate * Multiplier(st, order)))
  }

  /**
   * The tail of estimatedExpirationMicros: `lastUpdated` plus `untilExpiry`
   * rounded up, saturating at Long.MAX_VALUE (the (long) cast of Math.ceil
   * saturates, and so does the overflow guard on the sum).
   */
  function ProjectExpiry(lastUpdated: int, untilExpiry: real): int {
    if untilExpiry >= LongMaxAsDouble then LongMax
    else
      var candidate := lastUpdated + Min(Ceil(untilExpiry), LongMax);
      if candidate > LongMax then LongMax else candidate
  }

  /**
   * Moving the last update `n` microseconds later while the time to expiry
   * shrinks by the same `n` keeps the projection, unless it had saturated.
   * Either the clock is non-negative, or the time to expiry fits in a long:
   * a negative clock with a longer time to expiry would project later.
   */
  lemma ProjectExpiryShift(lastUpdated: int, untilExpiry: real, n: nat)
    requires 0 <= lastUpdated || Ceil(untilExpiry) <= LongMax
    requires untilExpiry - n as real > 0.0
    ensures ProjectExpiry(lastUpdated + n, untilExpiry - n as real) <= ProjectExpiry(lastUpdated, untilExpiry)
    ensures ProjectExpiry(lastUpdated, untilExpiry) < LongMax || Ceil(untilExpiry) <= LongMax ==>
              ProjectExpiry(lastUpdated + n, untilExpiry - n as real) == ProjectExpiry(lastUpdated, untilExpiry)
  {
    CeilMinusInt(untilExpiry, n);
  }

  /**
   * The estimate is exact: when it does not saturate, settling the order at the
   * estimated instant finds it expired, and settling it one microsecond earlier
   * does not.
   */
  lemma EstimateIsExpiryInstant(order: Order, st: StorageType, f: FreshState)
    requires f.active && f.remaining > 0.0 && order.decayRate > 0.0
    requires Ceil(f.remaining / (order.decayRate * Multiplier(st, order))) <= LongMax
    requires EstimateOf(order, st, f) < LongMax
    ensures var e := EstimateOf(order, st, f);
            && e > f.lastUpdated
            && !Settle(order, st, f, e).active
            && Settle(order, st, f, e - 1).active
  {
    var k := order.decayRate * Multiplier(st, order);
    var c := Ceil(f.remaining / k);
    EstimateUnsaturated(order, st, f);
    CeilOfQuotient(f.remaining, k);
    ExpiresAfterSteps(order, st, f, c);
  }

  /** Below saturation the estimate is the last update plus a positive whole number of microseconds. */
  lemma EstimateUnsaturated(order: Order, st: StorageType, f: FreshState)
    requires f.active && f.remaining > 0.0 && order.decayRate > 0.0
    requires Ceil(f.remaining / (order.decayRate * Multiplier(st, order))) <= LongMax
    requires EstimateOf(order, st, f) < LongMax
    ensures var c := Ceil(f.remaining / (order.decayRate * Multiplier(st, order)));
            c >= 1 && EstimateOf(order, st, f) == f.lastUpdated + c
  {
  }

  /** Rounding a positive quotient up: c steps of k reach r, c - 1 steps do not. */
  lemma CeilOfQuotient(r: real, k: real)
    requires r > 0.0 && k > 0.0
    ensures Ceil(r / k) as real * k >= r
    ensures (Ceil(r / k) - 1) as real * k < r
  {
    var mu := r / k;
    assert mu * k == r;
    MulMonotone(mu, Ceil(mu) as real, k);
    var c := Ceil(mu);
    assert (c - 1) as real == c as real - 1.0 < mu;
    MulStrictlyMonotone((c - 1) as real, mu, k);
    assert (c - 1) as real * k < r;
  }

  /**
   * When `c` whole microseconds of decay use up the freshness and `c - 1` do not,
   * the order expires exactly `c` microseconds after its last update.
   */
  lemma ExpiresAfterSteps(order: Order, st: StorageType, f: FreshState, c: int)
    requires f.active && f.remaining > 0.0 && c >= 1
    requires c as real * (order.decayRate * Multiplier(st, order)) >= f.remaining
    requires (c - 1) as real * (order.decayRate * Multiplier(st, order)) < f.remaining
    ensures !Settle(order, st, f, f.lastUpdated + c).active
    ensures Settle(order, st, f, f.lastUpdated + c - 1).active
  {
    DecayIsScaled(order, st, c);
    DecayIsScaled(order, st, c - 1);
  }

  lemma DecayIsScaled(order: Order, st: StorageType, n: int)
    ensures Decay(order, st, n) == n as real * (order.decayRate * Multiplier(st, order))
  {
  }

  lemma MulMonotone(a: real, b: real, k: real)
    requires a <= b && k > 0.0
    ensures a * k <= b * k
  {
  }

  lemma MulStrictlyMonotone(a: real, b: real, k: real)
    requires a < b && k > 0.0
    ensures a * k < b * k
  {
  }

  /**
   * Settling an order forward in time does not move its estimate, except that an
   * estimate that had saturated at Long.MAX_VALUE may come down: the projection
   * computed at insertion stays a valid priority for as long as the order is live.
   * The clock may be negative (it is derived from System.nanoTime()) provided the
   * time to expiry fits in a long, and then the estimate does not move at all.
   */
  lemma EstimateStableUnderSettle(order: Order, st: StorageType, f: FreshState, now: int)
    requires f.active && f.remaining > 0.0 && order.decayRate > 0.0
    requires f.lastUpdated <= now
    requires 0 <= f.lastUpdated || Ceil(f.remaining / (order.decayRate * Multiplier(st, order))) <= LongMax
    requires Settle(order, st, f, now).active
    ensures EstimateOf(order, st, Settle(order, st, f, now)) <= EstimateOf(order, st, f)
    ensures EstimateOf(order, st, f) < LongMax || Ceil(f.remaining / (order.decayRate * Multiplier(st, order))) <= LongMax ==>
              EstimateOf(order, st, Settle(order, st, f, now)) == EstimateOf(order, st, f)
  {
    var g := Settle(order, st, f, now);
    if now == f.lastUpdated {
      assert g == f;
    } else {
      var k := order.decayRate * Multiplier(st, order);
      SettledStepsLeft(order, st, f, now);
      EstimateProjects(order, st, f);
      EstimateProjects(order, st, g);
      ProjectExpiryShift(f.lastUpdated, f.remaining / k, now - f.lastUpdated);
    }
  }

  /**
   * Settling later without expiring leaves a live order whose remaining steps
   * of decay are fewer by the microseconds elapsed.
   */
  lemma SettledStepsLeft(order: Order, st: StorageType, f: FreshState, now: int)
    requires f.active && order.decayRate > 0.0 && now > f.lastUpdated
    requires Settle(order, st, f, now).active
    ensures var g, k := Settle(order, st, f, now), order.decayRate * Multiplier(st, order);
            && g.lastUpdated == now && g.remaining > 0.0
            && g.remaining / k == f.remaining / k - (now - f.lastUpdated) as real
            && f.remaining / k - (now - f.lastUpdated) as real > 0.0
  {
    var k := order.decayRate * Multiplier(st, order);
    var n := now - f.lastUpdated;
    SettleLive(order, st, f, now);
    QuotientAfterDecay(f.remaining, k, n);
  }

  /** A live, decaying order's estimate is the projection from its last update. */
  lemma EstimateProjects(order: Order, st: StorageType, f: FreshState)
    requires f.active && f.remaining > 0.0 && order.decayRate > 0.0
    ensures EstimateOf(order, st, f) ==
              ProjectExpiry(f.lastUpdated, f.remaining / (order.decayRate * Multiplier(st, order)))
  {
  }

  /** Settling later without expiring takes the elapsed steps of decay off the freshness. */
  lemma SettleLive(order: Order, st: StorageType, f: FreshState, now: int)
    requires f.active && now > f.lastUpdated
    requires Settle(order, st, f, now).active
    ensures var left := f.remaining - (now - f.lastUpdated) as real * (order.decayRate * Multiplier(st, order));
            left > 0.0 && Settle(order, st, f, now) == FreshState(now, left, true)
  {
    DecayIsScaled(order, st, now - f.lastUpdated);
  }

  /** Taking `n` steps of `k` off `r` takes `n` off the number of steps left. */
  lemma QuotientAfterDecay(r: real, k: real, n: int)
    requires k > 0.0 && r - n as real * k > 0.0
    ensures (r - n as real * k) / k == r / k - n as real > 0.0
  {
    var mu := r / k;
    assert r - n as real * k == (mu - n as real) * k;
    if mu - n as real <= 0.0 {
      MulMonotone(mu - n as real, 0.0, k);
    }
  }

  /** A live queue entry as it was when popped: the entry, its storage and its freshness state. */
  datatype Pop = Pop(entry: StoredOrder, storage: StorageType, before: FreshState)
  {
    /** The entry's state once settled at `now` in its storage. */
    function Settled(now: int): FreshState
    {
      Settle(entry.order, storage, before, now)
    }
  }

  /** The polling loop's bookkeeping before one turn, and what that turn did. */
  datatype PollTurn = PollTurn(m0: map<string, StoredOrder>, h0: multiset<StoredOrder>, s0: map<StoredOrder, FreshState>,
                               popped: multiset<StoredOrder>, dropped: map<string, Pop>, next: StoredOrder,
                               storage: StorageType, live: bool, expired: bool, before: FreshState, now: int)
  {
    function Dropped(): map<string, Pop>
    {
      if live then dropped[next.order.id := Pop(next, storage, before)] else dropped
    }

    function Returned(): StoredOrder?
    {
      if live && !expired then next else null
    }
  }

  /** A shelf holding `capacity` orders at most. */
  class ShelfManager {
    const capacity: int
    /** orderMap: the authoritative membership, by order id. */
    var orderMap: map<string, StoredOrder>
    /** expiringHeap: the priority queue's entries, possibly stale. */
    var heap: multiset<StoredOrder>
    /** Every stored order ever handed to this shelf. */
    ghost var Repr: set<StoredOrder>

    /**
     * Lazy deletion is sound: the map is keyed by order id, and every live queue
     * entry is the entry the map holds for its id, so stale entries are inactive.
     */
    ghost predicate Valid()
      reads this, Repr
    {
      && (forall id :: id in orderMap ==> orderMap[id] in Repr && orderMap[id].order.id == id)
      && (forall o :: o in heap ==> o in Repr)
      && (forall o {:trigger heap[o]} :: o in heap && o.active ==> o.order.id in orderMap && orderMap[o.order.id] == o)
    }

    /**
     * Settling or deactivating entries from outside (the Kitchen shares them)
     * keeps the shelf valid, as long as nothing is reactivated.
     */
    twostate lemma ValidAfterSettling()
      requires old(Valid()) && unchanged(this)
      requires forall o :: o in Repr ==> o.active ==> old(o.active)
      ensures Valid()
    {
    }

    /** size(): the number of mapped orders, not the length of the queue. */
    function Size(): nat
      reads this
    {
      |orderMap|
    }

    /** isFull() */
    predicate IsFull()
      reads this
    {
      Size() >= capacity
    }

    /** The current estimate of a stored order, as the queue's comparator reads it. */
    function Estimate(o: StoredOrder): int
      reads o
    {
      EstimateOf(o.order, o.storageType, o.State())
    }

    predicate IsMinEstimate(m: StoredOrder, h: multiset<StoredOrder>)
      reads m, h
    {
      forall o :: o in h ==> Estimate(m) <= Estimate(o)
    }

    constructor (capacity: int)
      ensures this.capacity == capacity && orderMap == map[] && heap == multiset{}
      ensures Valid() && Repr == {}
    {
      this.capacity := capacity;
      orderMap := map[];
      heap := multiset{};
      Repr := {};
    }

    /** The no-argument constructor: capacity Integer.MAX_VALUE. */
    constructor Unbounded()
      ensures capacity == IntMax && orderMap == map[] && heap == multiset{}
      ensures Valid() && Repr == {}
    {
      capacity := IntMax;
      orderMap := map[];
      heap := multiset{};
      Repr := {};
    }

    /**
     * addOrder: rejects null; otherwise maps the order's id to it (deactivating
     * the entry the id had before, so that its queue entry goes stale) and queues it.
     */
    method AddOrder(so: StoredOrder?) returns (ok: bool)
      requires Valid()
      modifies this, Repr
      ensures Valid()
      ensures ok <==> so != null
      ensures !ok ==> orderMap == old(orderMap) && heap == old(heap) && Repr == old(Repr)
      ensures ok ==> Repr == old(Repr) + {so}
      ensures ok ==> orderMap == old(orderMap)[so.order.id := so] && heap == old(heap) + multiset{so}
      ensures ok ==> Size() == old(Size()) + (if so.order.id in old(orderMap) then 0 else 1)
      ensures ok && so.order.id in old(orderMap) ==> !old(orderMap)[so.order.id].active
      ensures forall o :: o in old(Repr) ==> o.storageType == old(o.storageType) && (o.active ==> old(o.active))
      ensures forall o :: o in old(Repr) ==>
                o.State() == old(o.State()) ||
                (ok && so.order.id in old(orderMap) && o == old(orderMap)[so.order.id] &&
                 o.State() == old(o.State()).(active := false))
    {
      if so == null {
        return false;
      }
      var id := so.order.id;
      if id in orderMap {
        var existing := orderMap[id];
        orderMap := orderMap[id := so];
        existing.Deactivate();
      } else {
        orderMap := orderMap[id := so];
      }
      heap := heap + multiset{so};
      Repr := Repr + {so};
      return true;
    }

    /**
     * removeOrder: unmaps the id and deactivates its entry; the queue is left
     * alone and an unknown id changes nothing.
     */
    method RemoveOrder(id: string)
      requires Valid()
      modifies Repr, `orderMap
      ensures Valid()
      ensures orderMap == old(orderMap) - {id}
      ensures id in old(orderMap) ==> !old(orderMap)[id].active && Size() == old(Size()) - 1
      ensures id !in old(orderMap) ==> Size() == old(Size())
      ensures forall o :: o in Repr ==> o.storageType == old(o.storageType) && (o.active ==> old(o.active))
      ensures forall o :: o in Repr ==>
                o.State() == old(o.State()) ||
                (id in old(orderMap) && o == old(orderMap)[id] && o.State() == old(o.State()).(active := false))
    {
      if id in orderMap {
        var so := orderMap[id];
        orderMap := orderMap - {id};
        so.Deactivate();
      }
    }

    /**
     * pollNextToExpire: pops entries in estimate order. Stale (inactive) entries
     * are skipped; a live entry is settled at `now` and, if it turns out to have
     * expired, unmapped and skipped; the first live, unexpired entry is unmapped,
     * deactivated and returned. Null when the queue runs out.
     * Ghost results: `popped` holds the entries taken off the queue, `dropped`
     * records, per unmapped id, the live entry popped for it as it was when popped.
     */
    method PollNextToExpire(now: int) returns (r: StoredOrder?, ghost popped: multiset<StoredOrder>, ghost dropped: map<string, Pop>)
      requires Valid()
      modifies this`heap, this`orderMap, Repr
      ensures Valid()
      ensures heap + popped == old(heap)
      ensures r == null ==> heap == multiset{}
      ensures old(heap) != multiset{} ==> popped != multiset{}
      ensures old(heap) == multiset{} ==> r == null && dropped == map[] && orderMap == old(orderMap) && unchanged(Repr)
      ensures forall o :: o in popped ==> !o.active
      ensures orderMap == old(orderMap) - dropped.Keys
      ensures forall id :: id in dropped ==> id in old(orderMap) && old(orderMap)[id] == dropped[id].entry && dropped[id].before.active
      ensures forall id :: id in dropped && (r == null || id != r.order.id) ==> !dropped[id].Settled(now).active
      ensures r != null ==> r.order.id in dropped && dropped[r.order.id].entry == r
      ensures r != null ==> dropped[r.order.id].Settled(now).active
      ensures r != null ==> r.State() == dropped[r.order.id].Settled(now).(active := false)
      ensures r != null ==> forall o :: o in heap && o.active ==>
                EstimateOf(r.order, r.storageType, dropped[r.order.id].before) <= Estimate(o)
      ensures forall id :: id in dropped ==> dropped[id].entry in popped
      ensures forall o :: o in Repr ==> o.storageType == old(o.storageType)
      ensures forall o :: o in Repr && o !in popped ==> o.State() == old(o.State())
    {
      r, popped, dropped := null, multiset{}, map[];
      if heap == multiset{} {
        return;
      }
      ghost var s0 := map o | o in Repr :: o.State();
      r, popped, dropped := PollLoop(now, orderMap, heap, s0);
    }

    /**
     * The loop of pollNextToExpire on a non-empty queue, from the map `m0`, the
     * queue `h0` and the entries' states `s0`: what it leaves is what PollInv,
     * EntriesPopped and Untouched describe.
     */
    method PollLoop(now: int, ghost m0: map<string, StoredOrder>, ghost h0: multiset<StoredOrder>, ghost s0: map<StoredOrder, FreshState>)
      returns (r: StoredOrder?, ghost popped: multiset<StoredOrder>, ghost dropped: map<string, Pop>)
      requires PollInv(m0, h0, multiset{}, map[], null, now) && heap == h0 && orderMap == m0 && h0 != multiset{}
      requires Untouched(s0, multiset{})
      modifies this`heap, this`orderMap, Repr
      ensures PollInv(m0, h0, popped, dropped, r, now) && EntriesPopped(dropped, popped) && Untouched(s0, popped)
      ensures popped != multiset{} && (r == null ==> heap == multiset{})
      ensures forall o :: o in Repr ==> o.storageType == old(o.storageType)
    {
      r, popped, dropped := null, multiset{}, map[];
      while heap != multiset{} && r == null
        invariant PollInv(m0, h0, popped, dropped, r, now)
        invariant forall o :: o in Repr ==> o.storageType == old(o.storageType)
        invariant EntriesPopped(dropped, popped) && Untouched(s0, popped)
        invariant popped == multiset{} ==> heap == h0
        decreases |heap|
      {
        label L1:
        var next, live, expired, before := PollStep(now);
        ghost var t := PollTurn(m0, h0, s0, popped, dropped, next, next.storageType, live, expired, before, now);
        PollStepKeepsBook@L1(t);
        PollStepKeepsFound@L1(t);
        PollStepKeepsFrame@L1(t);
        popped := popped + multiset{next};
        if live {
          dropped := dropped[next.order.id := Pop(next, next.storageType, before)];
          if !expired {
            r := next;
          }
        }
      }
    }

    /** Every entry recorded as dropped was taken off the queue. */
    ghost predicate EntriesPopped(dropped: map<string, Pop>, popped: multiset<StoredOrder>)
    {
      forall id :: id in dropped ==> dropped[id].entry in popped
    }

    /** One turn of the polling loop records only popped entries as dropped, and changes no other entry. */
    twostate lemma PollStepKeepsFrame(t: PollTurn)
      requires old(EntriesPopped(t.dropped, t.popped) && Untouched(t.s0, t.popped))
      requires StepDone(t.next, t.live, t.expired, t.before, t.now) && t.storage == t.next.storageType
      ensures EntriesPopped(t.Dropped(), t.popped + multiset{t.next}) && Untouched(t.s0, t.popped + multiset{t.next})
    {
    }

    /** Every entry not taken off the queue still has the state `s0` records for it. */
    ghost predicate Untouched(s0: map<StoredOrder, FreshState>, popped: multiset<StoredOrder>)
      reads this, Repr
    {
      forall o :: o in Repr && o !in popped ==> o in s0 && o.State() == s0[o]
    }

    /** What holds after the polling loop has taken `popped` off the queue and unmapped the ids of `dropped`. */
    ghost predicate PollInv(m0: map<string, StoredOrder>, h0: multiset<StoredOrder>, popped: multiset<StoredOrder>,
                            dropped: map<string, Pop>, r: StoredOrder?, now: int)
      reads this, Repr, popped, r
    {
      PollBook(m0, h0, popped, dropped) && PollFound(popped, dropped, r, now)
    }

    /** The loop's bookkeeping: queue, map and popped entries. */
    ghost predicate PollBook(m0: map<string, StoredOrder>, h0: multiset<StoredOrder>, popped: multiset<StoredOrder>,
                             dropped: map<string, Pop>)
      reads this, Repr, popped
    {
      && Valid()
      && heap + popped == h0
      && (forall o :: o in popped ==> o in Repr && !o.active)
      && orderMap == m0 - dropped.Keys
      && (forall id :: id in dropped ==> id in m0 && m0[id] == dropped[id].entry && dropped[id].before.active)
    }

    /** What the loop found: every id dropped but the returned one had expired; the returned one had not, and was least. */
    ghost predicate PollFound(popped: multiset<StoredOrder>, dropped: map<string, Pop>, r: StoredOrder?, now: int)
      reads this, heap, r
    {
      && (forall id :: id in dropped && (r == null || id != r.order.id) ==> !dropped[id].Settled(now).active)
      && (r != null ==>
            && r in Repr && popped != multiset{}
            && r.order.id in dropped && dropped[r.order.id].entry == r
            && dropped[r.order.id].Settled(now).active
            && r.State() == dropped[r.order.id].Settled(now).(active := false)
            && (forall o :: o in heap && o.active ==> EstimateOf(r.order, r.storageType, dropped[r.order.id].before) <= Estimate(o)))
    }

    /** What one turn of the polling loop does, between its start (old) and its end. */
    twostate predicate StepDone(new next: StoredOrder, live: bool, expired: bool, before: FreshState, now: int)
      reads this, Repr
    {
      && Valid()
      && next in old(heap) && heap == old(heap) - multiset{next}
      && next in Repr && !next.active && next.storageType == old(next.storageType)
      && live == old(next.active) && before == old(next.State())
      && (!live ==> orderMap == old(orderMap) && next.State() == before)
      && (live ==> next.order.id in old(orderMap) && old(orderMap)[next.order.id] == next)
      && (live ==> orderMap == old(orderMap) - {next.order.id})
      && (live ==> next.State() == Settle(next.order, next.storageType, before, now).(active := false))
      && (live ==> (expired <==> !Settle(next.order, next.storageType, before, now).active))
      && (forall o :: o in heap && o.active ==> EstimateOf(next.order, next.storageType, before) <= Estimate(o))
      && Repr == old(Repr)
      && (forall o :: o in Repr && o != next ==> o.State() == old(o.State()) && o.storageType == old(o.storageType))
    }

    /** One turn of the polling loop keeps the bookkeeping, given what the turn did. */
    twostate lemma PollStepKeepsBook(t: PollTurn)
      requires old(PollBook(t.m0, t.h0, t.popped, t.dropped))
      requires StepDone(t.next, t.live, t.expired, t.before, t.now) && t.storage == t.next.storageType
      ensures PollBook(t.m0, t.h0, t.popped + multiset{t.next}, t.Dropped())
    {
      if t.live {
        MinusAccumulates(t.m0, t.dropped.Keys, t.next.order.id);
      }
    }

    /** One turn of the polling loop keeps what was found, given what the turn did. */
    twostate lemma PollStepKeepsFound(t: PollTurn)
      requires old(PollInv(t.m0, t.h0, t.popped, t.dropped, null, t.now))
      requires StepDone(t.next, t.live, t.expired, t.before, t.now) && t.storage == t.next.storageType
      ensures PollFound(t.popped + multiset{t.next}, t.Dropped(), t.Returned(), t.now)
    {
    }

    /**
     * One turn of the polling loop: takes a least entry off the queue and, if it
     * is live, settles it at `now`, unmaps it and deactivates it.
     */
    method PollStep(now: int) returns (next: StoredOrder, live: bool, expired: bool, ghost before: FreshState)
      requires Valid() && heap != multiset{}
      modifies this`heap, this`orderMap, Repr
      ensures StepDone(next, live, expired, before, now)
    {
      next := PopMin();
      live := next.active;
      before := next.State();
      expired := false;
      if live {
        expired := Unmap(next, now);
      }
    }

    /** Takes an entry of least current estimate off the queue. */
    method PopMin() returns (next: StoredOrder)
      requires heap != multiset{}
      modifies this`heap
      ensures next in old(heap) && IsMinEstimate(next, old(heap))
      ensures heap == old(heap) - multiset{next}
    {
      MinEstimateExists(heap);
      next :| next in heap && IsMinEstimate(next, heap);
      heap := heap - multiset{next};
    }

    /** Unmaps a live entry after settling it at `now`; it ends up inactive either way. */
    method Unmap(next: StoredOrder, now: int) returns (expired: bool)
      requires Valid() && next in Repr && next.active
      requires next.order.id in orderMap && orderMap[next.order.id] == next
      modifies this`orderMap, next
      ensures Valid()
      ensures orderMap == old(orderMap) - {next.order.id}
      ensures expired <==> !old(Settle(next.order, next.storageType, next.State(), now)).active
      ensures next.State() == old(Settle(next.order, next.storageType, next.State(), now)).(active := false)
      ensures next.storageType == old(next.storageType)
    {
      expired := next.IsExpired(now);
      orderMap := orderMap - {next.order.id};
      if !expired {
        next.Deactivate();
      }
    }

    lemma MinusAccumulates(m: map<string, StoredOrder>, d: set<string>, id: string)
      ensures m - d - {id} == m - (d + {id})
    {
    }

    /** A non-empty queue has an entry of minimum current estimate. */
    lemma {:induction false} MinEstimateExists(h: multiset<StoredOrder>)
      requires h != multiset{}
      ensures exists m :: m in h && IsMinEstimate(m, h)
      decreases |h|
    {
      var x :| x in h;
      var rest := h - multiset{x};
      if rest == multiset{} {
        assert forall o :: o in h && o != x ==> o in rest;
        assert IsMinEstimate(x, h);
      } else {
        MinEstimateExists(rest);
        var m :| m in rest && IsMinEstimate(m, rest);
        if Estimate(x) <= Estimate(m) {
          assert IsMinEstimate(x, h);
        } else {
          assert IsMinEstimate(m, h);
        }
      }
    }
  }
}
