/**
 * The storage state both Kitchen variants keep (Kitchen.java and
 * kitchen-simulator/src/main/java/com/kitchen/Kitchen.java): three
 * temperature-controlled compartments of six orders each, the overflow shelf of
 * twelve, and the index of every stored order by id, with the operations both
 * variants run on it. Each variant keeps its own ledger; the operations here
 * report what they did so that the caller can log it.
 */
module KitchenStorage {
  import opened Wrappers
  import opened Orders
  import opened Freshness
  import opened Shelf

  /** IDEAL_CAPACITY */
  const IdealCapacity: int := 6
  /** SHELF_CAPACITY */
  const ShelfCapacity: int := 12

  /** What one round of placeOrder's retry loop did to make room. */
  datatype Eviction = Moved(id: string, to: StorageType) | Discarded(id: string)

  /**
   * The outcome of placing an order: stored in `where`, or caught in a retry
   * loop that can make no further progress and that the source never leaves.
   */
  datatype Placement = Placed(where: StorageType, stored: StoredOrder) | Spins

  /** Index of the first order in `list` whose id is `id`; |list| when there is none. */
  function IndexOfId(list: seq<StoredOrder>, id: string): (i: nat)
    ensures i <= |list|
    ensures i < |list| ==> list[i].order.id == id
    ensures forall j :: 0 <= j < |list| && list[j].order.id == id ==> i <= j
  {
    if list == [] then 0
    else if list[0].order.id == id then 0
    else 1 + IndexOfId(list[1..], id)
  }

  /** `list` without its first order of id `id`; `list` itself when there is none. */
  function RemoveFirstById(list: seq<StoredOrder>, id: string): (r: seq<StoredOrder>)
    ensures IndexOfId(list, id) == |list| ==> r == list
    ensures IndexOfId(list, id) < |list| ==>
              |r| == |list| - 1 && multiset(r) + multiset{list[IndexOfId(list, id)]} == multiset(list)
    ensures forall o :: o in r ==> o in list
  {
    var i := IndexOfId(list, id);
    if i == |list| then list
    else
      assert list == list[..i] + [list[i]] + list[i + 1..];
      list[..i] + list[i + 1..]
  }

  /** An indexed order as a scan reads it: the order, where it sits, and how fresh it is. */
  datatype Slot = Slot(order: Order, storage: StorageType, state: FreshState)

  /** An order in slot `s` that a scan for `target` would consider: live, on the shelf, and ideal for `target`. */
  predicate EligibleIn(s: Slot, target: StorageType) {
    s.state.active && s.storage == Shelf && target.IsIdealFor(Some(s.order))
  }

  /** The state a scan for `target` at `now` leaves an order in slot `s` in: eligible orders are settled, others untouched. */
  function SettledIn(s: Slot, target: StorageType, now: int): FreshState {
    if EligibleIn(s, target) then Settle(s.order, s.storage, s.state, now) else s.state
  }

  /** An order in slot `s` that a scan for `target` at `now` settles and finds still live: a candidate for the move. */
  predicate SurvivesIn(s: Slot, target: StorageType, now: int) {
    EligibleIn(s, target) && SettledIn(s, target, now).active
  }

  function SlotOf(o: StoredOrder): Slot
    reads o
  {
    Slot(o.order, o.storageType, o.State())
  }

  predicate Eligible(o: StoredOrder, target: StorageType)
    reads o
  {
    EligibleIn(SlotOf(o), target)
  }

  function ScanSettled(o: StoredOrder, target: StorageType, now: int): FreshState
    reads o
  {
    SettledIn(SlotOf(o), target, now)
  }

  predicate Survives(o: StoredOrder, target: StorageType, now: int)
    reads o
  {
    SurvivesIn(SlotOf(o), target, now)
  }

  /** No order of `pool` survives a scan for `target` at `now`. */
  predicate NoneSurvive(pool: set<StoredOrder>, target: StorageType, now: int)
    reads pool
  {
    forall o :: o in pool ==> !Survives(o, target, now)
  }

  /** `from` survives a scan of `pool` for `target` at `now` with the least remaining freshness of all that do. */
  predicate LeastIn(pool: set<StoredOrder>, from: StoredOrder, target: StorageType, now: int)
    reads pool
  {
    && from in pool && Survives(from, target, now)
    && forall o :: o in pool && Survives(o, target, now) ==>
         ScanSettled(from, target, now).remaining <= ScanSettled(o, target, now).remaining
  }

  /** A scan of `pool` for `target` at `now` that came back with `candidate`. */
  datatype ScanRun = ScanRun(pool: set<StoredOrder>, target: StorageType, now: int, candidate: StoredOrder?)

  /**
   * What the scan found, read in the state before it: nothing when no order
   * survives it, otherwise an order that survives it with the least remaining
   * freshness.
   */
  twostate lemma ScanFindsLeast(s: ScanRun)
    requires forall o :: o in s.pool ==> o.storageType == old(o.storageType) && o.State() == old(ScanSettled(o, s.target, s.now))
    requires s.candidate != null ==> s.candidate in s.pool && old(Eligible(s.candidate, s.target)) && s.candidate.active
    requires s.candidate != null ==> forall o :: o in s.pool && old(Eligible(o, s.target)) && o.active ==>
               s.candidate.remaining <= o.remaining
    requires s.candidate == null ==> forall o :: o in s.pool ==> !Eligible(o, s.target)
    ensures s.candidate == null ==> old(NoneSurvive(s.pool, s.target, s.now))
    ensures s.candidate != null ==> old(LeastIn(s.pool, s.candidate, s.target, s.now))
  {
  }

  /** A poll's outcome: the order `r` it returned, what it unmapped, when, and the queue it left. */
  datatype PollOutcome = PollOutcome(r: StoredOrder, dropped: map<string, Pop>, now: int, queue: multiset<StoredOrder>)

  /**
   * The storage as one round of placeOrder's loop finds it, as values: the
   * compartments' sizes, the ids the shelf's map holds, and the slot of every
   * indexed order, by id. The choices of tryMoveShelfOrder depend on nothing
   * else.
   */
  datatype View = View(heater: int, cooler: int, freezer: int, shelved: set<string>, stock: map<string, Slot>)
  {
    function Size(st: StorageType): int
      requires st.IsCompartment()
    {
      if st == Heater then heater else if st == Cooler then cooler else freezer
    }

    /**
     * tryMoveShelfOrder(target) at `now` moves nothing from this storage:
     * `target` is not a compartment, or it is full, or no order survives the scan.
     */
    predicate Blocked(target: StorageType, now: int) {
      || !target.IsCompartment()
      || Size(target) >= IdealCapacity
      || forall id :: id in stock ==> !SurvivesIn(stock[id], target, now)
    }

    /** The order indexed as `id` survives the scan for `target` at `now` with the least remaining freshness of all that do. */
    predicate Least(id: string, target: StorageType, now: int) {
      && id in stock && SurvivesIn(stock[id], target, now)
      && forall other :: other in stock && SurvivesIn(stock[other], target, now) ==>
           SettledIn(stock[id], target, now).remaining <= SettledIn(stock[other], target, now).remaining
    }

    /**
     * `next` is this storage after a scan for `target` that moved nothing: only
     * orders the scan considered changed, and none changed storage.
     */
    predicate ScannedTo(next: View, target: StorageType) {
      && next.heater == heater && next.cooler == cooler && next.freezer == freezer
      && next.shelved == shelved && next.stock.Keys == stock.Keys
      && forall id :: id in stock ==>
           && next.stock[id].order == stock[id].order && next.stock[id].storage == stock[id].storage
           && (next.stock[id] == stock[id] || EligibleIn(stock[id], target))
    }

    /**
     * `next` is this storage after the order indexed as `id` left the shelf's
     * map for compartment `to`, indexed afresh with the freshness the scan at
     * `now` left it: `to` holds one more order, and no other order changed
     * storage.
     */
    predicate MovedTo(next: View, id: string, to: StorageType, now: int) {
      && to.IsCompartment() && id in stock
      && next.heater == heater + (if to == Heater then 1 else 0)
      && next.cooler == cooler + (if to == Cooler then 1 else 0)
      && next.freezer == freezer + (if to == Freezer then 1 else 0)
      && next.shelved == shelved - {id}
      && next.stock.Keys == stock.Keys
      && next.stock[id] == Slot(stock[id].order, to, FreshState(now, SettledIn(stock[id], to, now).remaining, true))
      && forall other :: other in stock && other != id ==> next.stock[other].storage == stock[other].storage
    }

    /**
     * `next` is this storage after the shelf's map lost the ids `unmapped` and
     * the index lost the ids `gone`: the compartments are as they were, and no
     * order changed storage.
     */
    predicate DroppedTo(next: View, unmapped: set<string>, gone: set<string>) {
      && next.heater == heater && next.cooler == cooler && next.freezer == freezer
      && next.shelved == shelved - unmapped
      && next.stock.Keys == stock.Keys - gone
      && forall id :: id in next.stock ==> next.stock[id].storage == stock[id].storage
    }
  }

  /**
   * A heater scan that moved nothing touched only HOT orders, so a cooler scan
   * finds afterwards what it would have found before.
   */
  lemma CoolerUnaffected(v0: View, v1: View, now: int)
    requires v0.ScannedTo(v1, Heater)
    ensures v1.Blocked(Cooler, now) == v0.Blocked(Cooler, now)
    ensures forall id :: v1.Least(id, Cooler, now) == v0.Least(id, Cooler, now)
  {
    forall id | id in v0.stock
      ensures SurvivesIn(v1.stock[id], Cooler, now) == SurvivesIn(v0.stock[id], Cooler, now)
      ensures SettledIn(v1.stock[id], Cooler, now) == SettledIn(v0.stock[id], Cooler, now) ||
              !SurvivesIn(v0.stock[id], Cooler, now)
    {
      if v1.stock[id] != v0.stock[id] {
        assert v0.stock[id].order.temperature == Hot;
      }
    }
  }

  /**
   * A cooler move made after a heater scan that moved nothing has, read from
   * the storage before that scan, the same effect: the heater scan touched
   * neither the order moved nor any order's storage.
   */
  lemma MovedAfterScan(v0: View, v1: View, next: View, id: string, now: int)
    requires v0.ScannedTo(v1, Heater) && v1.MovedTo(next, id, Cooler, now)
    requires SurvivesIn(v1.stock[id], Cooler, now)
    ensures v0.MovedTo(next, id, Cooler, now)
  {
    assert v1.stock[id].order.temperature == Cold;
    assert v1.stock[id] == v0.stock[id];
  }

  /** Dropping nothing and then dropping `unmapped` and `gone` is dropping `unmapped` and `gone`. */
  lemma DroppedAfterNothing(v0: View, v1: View, next: View, unmapped: set<string>, gone: set<string>)
    requires v0.DroppedTo(v1, {}, {}) && v1.DroppedTo(next, unmapped, gone)
    ensures v0.DroppedTo(next, unmapped, gone)
  {
    assert v1.stock.Keys == v0.stock.Keys;
  }

  /**
   * What a discard's poll found: the entries it unmapped (by id, as they were
   * when popped), the victim's storage, and the estimates of the live entries
   * it left queued.
   */
  datatype PollLog = PollLog(dropped: map<string, Pop>, storage: StorageType, queued: set<int>)
  {
    /**
     * The poll chose the entry it popped for `id`: live and unexpired at `now`,
     * while every other entry it unmapped had expired, and no live entry left
     * queued is estimated to expire earlier.
     */
    predicate Chose(id: string, now: int) {
      && id in dropped && dropped[id].Settled(now).active
      && (forall other :: other in dropped && other != id ==> !dropped[other].Settled(now).active)
      && forall e :: e in queued ==> EstimateOf(dropped[id].entry.order, storage, dropped[id].before) <= e
    }
  }

  /**
   * One round of placeOrder's loop after a failed placement: the storage before
   * it, the eviction it made (at most one), what the discard's poll found, and
   * the storage once room was made.
   */
  datatype RoundLog = RoundLog(before: View, made: seq<Eviction>, poll: PollLog, after: View)
  {
    /**
     * The round followed the eviction policy: a shelf order is moved to the
     * heater if the heater scan finds one, else to the cooler if the cooler scan
     * does, and only when both are blocked is an order discarded. A move goes to
     * a target that was not blocked (so it had room), takes the least fresh
     * survivor of its scan off the shelf and puts its successor in the target; a
     * discard takes the poll's choice out of the index; a round that evicts
     * nothing found only expired orders and left the index as it was.
     */
    predicate Justified(now: int) {
      && |made| <= 1
      && (made == [] || made[0].Discarded? ==> before.Blocked(Heater, now) && before.Blocked(Cooler, now))
      && (made != [] && made[0].Moved? ==>
            && (made[0].to == Heater || (made[0].to == Cooler && before.Blocked(Heater, now)))
            && !before.Blocked(made[0].to, now)
            && before.Least(made[0].id, made[0].to, now)
            && before.MovedTo(after, made[0].id, made[0].to, now))
      && (made != [] && made[0].Discarded? ==>
            poll.Chose(made[0].id, now) && before.DroppedTo(after, poll.dropped.Keys, {made[0].id}))
      && (made == [] ==>
            && (forall id :: id in poll.dropped ==> !poll.dropped[id].Settled(now).active)
            && before.DroppedTo(after, poll.dropped.Keys, {}))
    }
  }

  /** The evictions of `rounds`, in order. */
  function Evictions(rounds: seq<RoundLog>): seq<Eviction> {
    if rounds == [] then [] else Evictions(rounds[..|rounds| - 1]) + rounds[|rounds| - 1].made
  }

  /** The storage after `rounds`, which started from `start`. */
  function LastView(rounds: seq<RoundLog>, start: View): View {
    if rounds == [] then start else rounds[|rounds| - 1].after
  }

  /** `rounds` ran one after another from the storage `start`, each following the eviction policy. */
  predicate Chain(rounds: seq<RoundLog>, start: View, now: int)
    decreases |rounds|, 1
  {
    rounds == [] || ChainedLast(rounds, start, now)
  }

  /**
   * The last of `rounds` started where the others, a chain from `start`, left
   * the storage, and followed the eviction policy. (Kept apart from Chain so
   * that a chain's rounds are unfolded only where a proof asks for them.)
   */
  predicate ChainedLast(rounds: seq<RoundLog>, start: View, now: int)
    requires rounds != []
    decreases |rounds|, 0
  {
    var init, last := rounds[..|rounds| - 1], rounds[|rounds| - 1];
    Chain(init, start, now) && last.before == LastView(init, start) && last.Justified(now)
  }

  /** A round that follows the policy from where `rounds` left off extends the chain. */
  lemma ChainExtend(rounds: seq<RoundLog>, start: View, r: RoundLog, now: int)
    requires Chain(rounds, start, now) && r.before == LastView(rounds, start) && r.Justified(now)
    ensures Chain(rounds + [r], start, now) && LastView(rounds + [r], start) == r.after
    ensures Evictions(rounds + [r]) == Evictions(rounds) + r.made
  {
    assert (rounds + [r])[..|rounds|] == rounds;
  }

  /**
   * The moves of a round, starting where `done` left off, extend the chain: a
   * move made as the move rule demands, or none when both moves were blocked
   * and the storage was left as it was.
   */
  lemma MovesExtend(done: seq<RoundLog>, start: View, now: int, log: RoundLog)
    requires Chain(done, start, now) && log.before == LastView(done, start)
    requires |log.made| <= 1 && log.poll == PollLog(map[], Shelf, {})
    requires log.made == [] ==>
               log.before.Blocked(Heater, now) && log.before.Blocked(Cooler, now) && log.before.DroppedTo(log.after, {}, {})
    requires log.made != [] ==>
               && log.made[0].Moved?
               && (log.made[0].to == Heater || (log.made[0].to == Cooler && log.before.Blocked(Heater, now)))
               && !log.before.Blocked(log.made[0].to, now)
               && log.before.Least(log.made[0].id, log.made[0].to, now)
               && log.before.MovedTo(log.after, log.made[0].id, log.made[0].to, now)
    ensures Chain(done + [log], start, now) && LastView(done + [log], start) == log.after
    ensures Evictions(done + [log]) == Evictions(done) + log.made
  {
    ChainExtend(done, start, log, now);
  }

  /** Every eviction of a chain is a move to the heater or the cooler, or a discard. */
  lemma {:induction false} ChainMovesToHeaterOrCooler(rounds: seq<RoundLog>, start: View, now: int)
    requires Chain(rounds, start, now)
    ensures forall e :: e in Evictions(rounds) && e.Moved? ==> e.to == Heater || e.to == Cooler
    decreases |rounds|
  {
    if rounds != [] {
      assert ChainedLast(rounds, start, now);
      ChainMovesToHeaterOrCooler(rounds[..|rounds| - 1], start, now);
    }
  }

  /**
   * What a round the policy allows did to the storage: a move went into a
   * compartment that had a free slot, which it filled, and took the moved id off
   * the shelf's map; a discard took the discarded id out of the index. The
   * compartments' sizes change by the move alone.
   */
  lemma RoundEffect(log: RoundLog, now: int)
    requires log.Justified(now) && log.made != []
    ensures log.made[0].Moved? ==>
              && log.made[0].to.IsCompartment() && log.before.Size(log.made[0].to) < IdealCapacity
              && log.after.Size(log.made[0].to) == log.before.Size(log.made[0].to) + 1
              && log.made[0].id in log.after.stock && log.made[0].id !in log.after.shelved
              && log.after.stock[log.made[0].id].storage == log.made[0].to
    ensures log.made[0].Discarded? ==>
              && log.made[0].id !in log.after.stock
              && log.after.heater == log.before.heater && log.after.cooler == log.before.cooler
              && log.after.freezer == log.before.freezer
  {
  }

  /** A move of `from` off the shelf into `target` at `now`, re-created as `into`. */
  datatype MoveRun = MoveRun(from: StoredOrder, into: StoredOrder, target: StorageType, now: int)

  /** The shelf's map losing the ids `unmapped` and the index losing the ids `gone`. */
  datatype DropRun = DropRun(unmapped: set<string>, gone: set<string>)

  /** Two scans that moved nothing leave the compartments, the shelf's map, the index and every storage as they were. */
  lemma ScannedTwice(v0: View, v1: View, v2: View)
    requires v0.ScannedTo(v1, Heater) && v1.ScannedTo(v2, Cooler)
    ensures v0.DroppedTo(v2, {}, {})
  {
  }

  /** Removing keys never grows a map. */
  lemma MapMinusNoLarger<K, V>(m: map<K, V>, s: set<K>)
    ensures |m - s| <= |m|
  {
    var d := m - s;
    assert d.Keys <= m.Keys;
    SubsetNoLarger(d.Keys, m.Keys);
  }

  lemma {:induction false} SubsetNoLarger<T>(a: set<T>, b: set<T>)
    requires a <= b
    ensures |a| <= |b|
    decreases |b|
  {
    if a != {} {
      var x :| x in a;
      SubsetNoLarger(a - {x}, b - {x});
    }
  }

  /** The kitchen's storage. */
  class Storage {
    var heater: seq<StoredOrder>
    var cooler: seq<StoredOrder>
    var freezer: seq<StoredOrder>
    const shelf: ShelfManager
    /** allOrders: every stored order, by id. */
    var allOrders: map<string, StoredOrder>
    /** Every stored order this kitchen has created. */
    ghost var Repr: set<StoredOrder>

    /**
     * The capacities hold, every order the kitchen reaches is one of its own,
     * the index is keyed by order id, and a live shelf order in the index is
     * the entry the shelf's map holds for its id.
     */
    ghost predicate Valid()
      reads this, shelf, Repr
    {
      && shelf.capacity == ShelfCapacity
      && shelf.Repr <= Repr
      && shelf.Valid()
      && |heater| <= IdealCapacity && |cooler| <= IdealCapacity && |freezer| <= IdealCapacity
      && |shelf.orderMap| <= ShelfCapacity
      && (forall o :: o in heater ==> o in Repr)
      && (forall o :: o in cooler ==> o in Repr)
      && (forall o :: o in freezer ==> o in Repr)
      && (forall id :: id in allOrders ==> allOrders[id] in Repr && allOrders[id].order.id == id)
      && (forall id :: id in allOrders && allOrders[id].active && allOrders[id].storageType == Shelf ==>
            id in shelf.orderMap && shelf.orderMap[id] == allOrders[id])
    }

    /** storageList: the list of a compartment (the source throws for the shelf). */
    function List(st: StorageType): seq<StoredOrder>
      requires st.IsCompartment()
      reads this
    {
      if st == Heater then heater else if st == Cooler then cooler else freezer
    }

    /** The compartments' free slots plus the queue's entries: what the retry loop uses up. */
    function Slack(): int
      reads this, shelf
    {
      |shelf.heap| + (IdealCapacity - |heater|) + (IdealCapacity - |cooler|)
    }

    /** No order the scan for `target` would consider is left. */
    predicate NoneEligible(target: StorageType)
      reads this, allOrders.Values
    {
      forall o :: o in allOrders.Values ==> !Eligible(o, target)
    }

    /**
     * tryMoveShelfOrder(target) at `now` has nothing to move: `target` is not a
     * compartment, or it is full, or no indexed order survives the scan.
     */
    predicate Blocked(target: StorageType, now: int)
      reads this, allOrders.Values
    {
      || !target.IsCompartment()
      || |List(target)| >= IdealCapacity
      || NoneSurvive(allOrders.Values, target, now)
    }

    /**
     * `from` is an order tryMoveShelfOrder(target) at `now` may move: an indexed
     * order that survives the scan with the least remaining freshness of all
     * that do.
     */
    predicate LeastSurvivor(from: StoredOrder, target: StorageType, now: int)
      reads this, allOrders.Values
    {
      from in allOrders.Values && LeastIn(allOrders.Values, from, target, now)
    }

    /**
     * The state placeOrder's retry loop cannot leave for an order whose ideal
     * storage is `ideal`: nowhere to put it, no move possible, and a queue that
     * polling leaves as it is.
     */
    ghost predicate Stuck(ideal: StorageType)
      reads this, shelf, allOrders.Values
    {
      && !(ideal.IsCompartment() && |List(ideal)| < IdealCapacity)
      && shelf.IsFull()
      && shelf.heap == multiset{}
      && (|heater| >= IdealCapacity || NoneEligible(Heater))
      && (|cooler| >= IdealCapacity || NoneEligible(Cooler))
    }

    constructor ()
      ensures Valid() && fresh(shelf)
      ensures heater == [] && cooler == [] && freezer == [] && allOrders == map[] && Repr == {}
      ensures shelf.orderMap == map[] && shelf.heap == multiset{}
    {
      heater := [];
      cooler := [];
      freezer := [];
      shelf := new ShelfManager(ShelfCapacity);
      allOrders := map[];
      Repr := {};
    }

    /** Settling or deactivating stored orders, without reactivating any, keeps the storage valid. */
    twostate lemma ValidAfterSettling()
      requires old(Valid()) && unchanged(this) && unchanged(shelf)
      requires forall o :: o in Repr ==> o.storageType == old(o.storageType) && (o.active ==> old(o.active))
      ensures Valid()
    {
      shelf.ValidAfterSettling();
    }

    /** Replaces the list of compartment `st`. */
    method SetList(st: StorageType, list: seq<StoredOrder>)
      requires st.IsCompartment()
      modifies this`heater, this`cooler, this`freezer
      ensures heater == (if st == Heater then list else old(heater))
      ensures cooler == (if st == Cooler then list else old(cooler))
      ensures freezer == (if st == Freezer then list else old(freezer))
    {
      if st == Heater {
        heater := list;
      } else if st == Cooler {
        cooler := list;
      } else {
        freezer := list;
      }
    }

    /**
     * removeFromListById: removes the first order with id `id` from `list` and
     * deactivates it; a list without that id is returned as it was.
     */
    static method RemoveFromListById(list: seq<StoredOrder>, id: string) returns (rest: seq<StoredOrder>)
      modifies set o | o in list
      ensures rest == RemoveFirstById(list, id)
      ensures IndexOfId(list, id) < |list| ==>
                var gone := list[IndexOfId(list, id)];
                gone.State() == old(gone.State()).(active := false)
      ensures forall o :: o in list ==> o.storageType == old(o.storageType)
      ensures forall o :: o in list && (IndexOfId(list, id) == |list| || o != list[IndexOfId(list, id)]) ==>
                o.State() == old(o.State())
    {
      var i := 0;
      while i < |list| && list[i].order.id != id
        invariant 0 <= i <= IndexOfId(list, id)
        invariant forall j :: 0 <= j < i ==> list[j].order.id != id
      {
        i := i + 1;
      }
      if i < |list| {
        rest := list[..i] + list[i + 1..];
        list[i].Deactivate();
      } else {
        rest := list;
      }
    }

    /**
     * Between the old state and this one, id `id` left the index and the
     * container of type `st` (the shelf's map, or the first order with that id
     * in a compartment), and no other container changed.
     */
    twostate predicate Withdrawn(id: string, st: StorageType)
      reads this, shelf
    {
      allOrders == old(allOrders) - {id} && Vacated(id, st)
    }

    /** Between the old state and this one, id `id` left the container of type `st`, and no other container changed. */
    twostate predicate Vacated(id: string, st: StorageType)
      reads this, shelf
    {
      && shelf.orderMap == (if st == Shelf then old(shelf.orderMap) - {id} else old(shelf.orderMap))
      && heater == (if st == Heater then RemoveFirstById(old(heater), id) else old(heater))
      && cooler == (if st == Cooler then RemoveFirstById(old(cooler), id) else old(cooler))
      && freezer == (if st == Freezer then RemoveFirstById(old(freezer), id) else old(freezer))
    }

    /**
     * The storage half of the root pickupOrder: un-index the order, remove it
     * from its container, and deactivate it (the shelf deactivates its own entry).
     */
    method Withdraw(id: string) returns (st: StorageType)
      requires Valid() && id in allOrders
      modifies this`heater, this`cooler, this`freezer, this`allOrders, shelf`orderMap, Repr
      ensures Valid()
      ensures st == old(allOrders[id].storageType) && Withdrawn(id, st)
      ensures !old(allOrders[id]).active
      ensures forall o :: o in Repr ==>
                && o.storageType == old(o.storageType)
                && (o.State() == old(o.State()) || (o.order.id == id && o.State() == old(o.State()).(active := false)))
    {
      var so := allOrders[id];
      Forget(id);
      st := so.storageType;
      if st == Shelf {
        UnstoreFromShelf(id);
      } else {
        ReleaseFromList(id, st, so);
      }
    }

    /** The compartment branch of the root pickupOrder: removeFromListById, then deactivate the indexed order `so`. */
    method ReleaseFromList(id: string, st: StorageType, so: StoredOrder)
      requires Valid() && st.IsCompartment() && so in Repr && so.order.id == id
      modifies this`heater, this`cooler, this`freezer, Repr
      ensures Valid()
      ensures Vacated(id, st) && !so.active
      ensures forall o :: o in Repr ==>
                && o.storageType == old(o.storageType)
                && (o.State() == old(o.State()) || (o.order.id == id && o.State() == old(o.State()).(active := false)))
    {
      UnstoreFromList(id, st);
      Retire(so);
    }

    /**
     * The storage half of the simulator's pickupOrder: settle the order at
     * `now`, noting whether that expired it, remove it from its container, and
     * un-index it. Unlike the root variant it does not deactivate the order
     * beyond what the container removal does.
     */
    method Collect(id: string, now: int) returns (st: StorageType, expired: bool)
      requires Valid() && id in allOrders
      modifies this`heater, this`cooler, this`freezer, this`allOrders, shelf`orderMap, Repr
      ensures Valid()
      ensures st == old(allOrders[id].storageType) && Withdrawn(id, st)
      ensures expired <==> !Settle(old(allOrders[id]).order, st, old(allOrders[id].State()), now).active
      ensures forall o :: o in Repr ==> o.storageType == old(o.storageType) && (o.State() == old(o.State()) || o.order.id == id)
    {
      var so := allOrders[id];
      st := so.storageType;
      Forget(id);
      expired := Inspect(id, st, so, now);
    }

    /** The container part of the simulator's pickupOrder: settle `so` at `now`, then remove id `id` from its container. */
    method Inspect(id: string, st: StorageType, so: StoredOrder, now: int) returns (expired: bool)
      requires Valid() && so in Repr && so.order.id == id && so.storageType == st
      modifies this`heater, this`cooler, this`freezer, shelf`orderMap, Repr
      ensures Valid() && Vacated(id, st)
      ensures expired <==> !Settle(so.order, st, old(so.State()), now).active
      ensures forall o :: o in Repr ==> o.storageType == old(o.storageType) && (o.State() == old(o.State()) || o.order.id == id)
    {
      Refresh(so, now);
      expired := !so.active;
      Vacate(id, st);
    }

    /**
     * Removes id `id` from the container of type `st`: shelf.removeOrder for the
     * shelf, removeFromListById on the compartment's list otherwise. Either one
     * deactivates the entry it removes.
     */
    method Vacate(id: string, st: StorageType)
      requires Valid()
      modifies this`heater, this`cooler, this`freezer, shelf`orderMap, Repr
      ensures Valid()
      ensures Vacated(id, st)
      ensures st == Shelf && id in old(shelf.orderMap) ==> !old(shelf.orderMap[id]).active
      ensures st != Shelf && IndexOfId(old(List(st)), id) < |old(List(st))| ==>
                !old(List(st))[IndexOfId(old(List(st)), id)].active
      ensures forall o :: o in Repr ==>
                && o.storageType == old(o.storageType)
                && (o.State() == old(o.State()) || (o.order.id == id && o.State() == old(o.State()).(active := false)))
    {
      if st == Shelf {
        UnstoreFromShelf(id);
      } else {
        UnstoreFromList(id, st);
      }
    }

    /** updateFreshness at `now` on an order this storage owns. */
    method Refresh(so: StoredOrder, now: int)
      requires Valid() && so in Repr
      modifies so
      ensures Valid()
      ensures so.State() == Settle(so.order, so.storageType, old(so.State()), now)
      ensures so.storageType == old(so.storageType)
    {
      label Before:
      so.UpdateFreshness(now);
      ValidAfterSettling@Before();
    }

    /** storedOrder.deactivate() on an order this storage owns. */
    method Retire(so: StoredOrder)
      requires Valid() && so in Repr
      modifies so
      ensures Valid()
      ensures so.State() == old(so.State()).(active := false) && so.storageType == old(so.storageType)
    {
      label Before:
      so.Deactivate();
      ValidAfterSettling@Before();
    }

    /** Removes the order with id `id` from the shelf (shelf.removeOrder), deactivating it. */
    method UnstoreFromShelf(id: string)
      requires Valid()
      modifies shelf`orderMap, shelf.Repr
      ensures Valid()
      ensures shelf.orderMap == old(shelf.orderMap) - {id}
      ensures id in old(shelf.orderMap) ==> !old(shelf.orderMap)[id].active
      ensures id in old(shelf.orderMap) ==> var e := old(shelf.orderMap)[id]; e.State() == old(e.State()).(active := false)
      ensures forall o :: o in Repr ==> o.storageType == old(o.storageType) && (o.active ==> old(o.active))
      ensures forall o :: o in Repr ==> o.remaining == old(o.remaining)
      ensures forall o :: o in Repr ==>
                o.State() == old(o.State()) ||
                (id in old(shelf.orderMap) && o == old(shelf.orderMap[id]) && o.State() == old(o.State()).(active := false))
      ensures forall o :: o in Repr ==> o.State() == old(o.State()) || (o.order.id == id && o.State() == old(o.State()).(active := false))
    {
      shelf.RemoveOrder(id);
      ValidAfterShelfChange();
    }

    /** Drops `id` from the index of stored orders. */
    method Forget(id: string)
      requires Valid()
      modifies this`allOrders
      ensures Valid()
      ensures allOrders == old(allOrders) - {id}
    {
      allOrders := allOrders - {id};
    }

    /** Removes the first order with id `id` from compartment `st` (removeFromListById on storageList). */
    method UnstoreFromList(id: string, st: StorageType)
      requires Valid() && st.IsCompartment()
      modifies this`heater, this`cooler, this`freezer, List(st)
      ensures Valid()
      ensures heater == if st == Heater then RemoveFirstById(old(heater), id) else old(heater)
      ensures cooler == if st == Cooler then RemoveFirstById(old(cooler), id) else old(cooler)
      ensures freezer == if st == Freezer then RemoveFirstById(old(freezer), id) else old(freezer)
      ensures IndexOfId(old(List(st)), id) < |old(List(st))| ==> !old(List(st))[IndexOfId(old(List(st)), id)].active
      ensures forall o :: o in Repr ==> o.storageType == old(o.storageType) && (o.active ==> old(o.active))
      ensures forall o :: o in Repr ==> o.State() == old(o.State()) || (o.order.id == id && o.State() == old(o.State()).(active := false))
    {
      label Before:
      var rest := RemoveFromListById(List(st), id);
      ValidAfterSettling@Before();
      SetList(st, rest);
    }

    /**
     * placeOrder's loop for an order whose ideal storage is `ideal`, at `now`:
     * place it if there is room; otherwise try to move a shelf order to the
     * heater, else to the cooler, else discard from the shelf, and try again.
     * Ghost `rounds` logs each round after the first attempt, from the storage
     * as it was on entry, and every round follows the eviction policy; `events`
     * are their evictions in order. The loop ends with the order placed, or in
     * a state where another round would change nothing (Spins), which the
     * source would repeat forever.
     */
    method Place(order: Order, ideal: StorageType, now: int) returns (outcome: Placement, events: seq<Eviction>, ghost rounds: seq<RoundLog>)
      requires Valid()
      modifies this`heater, this`cooler, this`freezer, this`allOrders, this`Repr, shelf, Repr
      ensures Valid() && fresh(Repr - old(Repr))
      ensures events == Evictions(rounds) && Chain(rounds, old(Snapshot()), now)
      ensures outcome.Placed? ==> fresh(outcome.stored) && HoldsNew(outcome.stored, order, now) && outcome.stored.storageType == outcome.where
      ensures outcome.Placed? ==> outcome.where == ideal || outcome.where == Shelf
      ensures outcome.Spins? ==> rounds != [] && Stuck(ideal)
      ensures old(ideal.IsCompartment() && |List(ideal)| < IdealCapacity) ==>
                rounds == [] && outcome.Placed? && outcome.where == ideal
      ensures old(!(ideal.IsCompartment() && |List(ideal)| < IdealCapacity) && !shelf.IsFull()) ==>
                rounds == [] && outcome.Placed? && outcome.where == Shelf
      ensures forall e :: e in events && e.Moved? ==> e.to == Heater || e.to == Cooler
    {
      var stored := TryPlace(order, ideal, now);
      if stored != null {
        return Placed(stored.storageType, stored), [], [];
      }
      outcome, events, rounds := Retry(order, ideal, now);
    }

    /**
     * The loop of placeOrder once its first attempt failed: rounds of making
     * room and trying again, until the order is placed or nothing can change.
     */
    method Retry(order: Order, ideal: StorageType, now: int) returns (outcome: Placement, events: seq<Eviction>, ghost rounds: seq<RoundLog>)
      requires Valid()
      requires !(ideal.IsCompartment() && |List(ideal)| < IdealCapacity) && shelf.IsFull()
      modifies this`heater, this`cooler, this`freezer, this`allOrders, this`Repr, shelf, Repr
      ensures Valid() && fresh(Repr - old(Repr))
      ensures events == Evictions(rounds) && Chain(rounds, old(Snapshot()), now)
      ensures outcome.Placed? ==>
                && fresh(outcome.stored) && HoldsNew(outcome.stored, order, now) && outcome.stored.storageType == outcome.where
                && (outcome.where == ideal || outcome.where == Shelf)
      ensures outcome.Spins? ==> rounds != [] && Stuck(ideal)
      ensures forall e :: e in events && e.Moved? ==> e.to == Heater || e.to == Cooler
    {
      ghost var start := Snapshot();
      events, rounds := [], [];
      var stored: StoredOrder? := null;
      var stuck := false;
      while stored == null && !stuck
        invariant Valid() && fresh(Repr - old(Repr))
        invariant events == Evictions(rounds) && Chain(rounds, start, now)
        invariant stored == null ==> LastView(rounds, start) == Snapshot()
        invariant stored == null && !stuck ==> !(ideal.IsCompartment() && |List(ideal)| < IdealCapacity) && shelf.IsFull()
        invariant stored != null ==> fresh(stored) && HoldsNew(stored, order, now) && (stored.storageType == ideal || stored.storageType == Shelf)
        invariant stuck ==> stored == null && rounds != [] && Stuck(ideal)
        decreases if stored == null && !stuck then 1 else 0, Slack()
      {
        var made;
        ghost var log;
        stored, made, stuck, log := Round(order, ideal, now, start, rounds);
        rounds, events := rounds + [log], events + made;
      }
      ChainMovesToHeaterOrCooler(rounds, start, now);
      outcome := if stuck then Spins else Placed(stored.storageType, stored);
    }

    /** `so` is a newly placed StoredOrder for `order` at `now`, owned and indexed by this storage. */
    ghost predicate HoldsNew(so: StoredOrder, order: Order, now: int)
      reads this, so
    {
      && so in Repr && so.order == order && so.placedTime == now
      && so.State() == InitialState(order, now)
      && order.id in allOrders && allOrders[order.id] == so
    }

    /**
     * A round of placeOrder's loop after a failed placement: make room, then try
     * to place again. The round, `log`, extends the chain `done` of the rounds
     * before it, which ran from `start`; when the order is still not placed, the
     * storage is as the log leaves it.
     */
    method Round(order: Order, ideal: StorageType, now: int, ghost start: View, ghost done: seq<RoundLog>)
      returns (stored: StoredOrder?, made: seq<Eviction>, stuck: bool, ghost log: RoundLog)
      requires Valid() && Chain(done, start, now) && LastView(done, start) == Snapshot()
      requires !(ideal.IsCompartment() && |List(ideal)| < IdealCapacity) && shelf.IsFull()
      modifies this`heater, this`cooler, this`freezer, this`allOrders, this`Repr, shelf, Repr
      ensures Valid()
      ensures fresh(Repr - old(Repr))
      ensures Chain(done + [log], start, now) && Evictions(done + [log]) == Evictions(done) + made
      ensures stored == null ==> LastView(done + [log], start) == Snapshot()
      ensures stuck ==> stored == null && Stuck(ideal)
      ensures !stuck && stored == null ==>
                Slack() < old(Slack()) && !(ideal.IsCompartment() && |List(ideal)| < IdealCapacity) && shelf.IsFull()
      ensures stored != null ==> fresh(stored) && HoldsNew(stored, order, now) && (stored.storageType == ideal || stored.storageType == Shelf)
    {
      ghost var moved;
      made, stuck, log, moved := MakeRoom(now, start, done);
      assert fresh(Repr - old(Repr));
      stored := null;
      if !stuck {
        stored := TryPlace(order, ideal, now);
      }
    }

    /**
     * The eviction step of placeOrder's loop: tryMoveShelfOrder(HEATER), else
     * tryMoveShelfOrder(COOLER), else discardFromShelf. `log` records it from
     * the storage it started from to the one it leaves, and extends the chain
     * `done` of the rounds before it, which ran from `start`. `stuck` reports
     * that the queue was empty when the discard ran, so that nothing at all
     * changed.
     */
    method MakeRoom(now: int, ghost start: View, ghost done: seq<RoundLog>)
      returns (events: seq<Eviction>, stuck: bool, ghost log: RoundLog, ghost moved: StoredOrder?)
      requires Valid() && Chain(done, start, now) && LastView(done, start) == Snapshot()
      modifies this`heater, this`cooler, this`freezer, this`allOrders, this`Repr, shelf`orderMap, shelf`heap, Repr
      ensures Valid()
      ensures Repr == old(Repr) || (moved != null && fresh(moved) && Repr == old(Repr) + {moved})
      ensures log.before == old(Snapshot()) && log.after == Snapshot() && log.made == events
      ensures Chain(done + [log], start, now) && Evictions(done + [log]) == Evictions(done) + events
      ensures LastView(done + [log], start) == Snapshot()
      ensures !stuck ==> Slack() < old(Slack())
      ensures stuck ==>
                && events == [] && heater == old(heater) && cooler == old(cooler) && freezer == old(freezer)
                && allOrders == old(allOrders) && shelf.orderMap == old(shelf.orderMap)
                && shelf.heap == multiset{} && Repr == old(Repr)
                && (|heater| >= IdealCapacity || NoneEligible(Heater))
                && (|cooler| >= IdealCapacity || NoneEligible(Cooler))
    {
      events, log, moved := MoveRound(now, start, done);
      stuck := false;
      if events == [] {
        events, stuck, log := DiscardRound(now, start, done, log);
      }
    }

    /**
     * The moves of the eviction step, logged as `log` after the chain `done`,
     * which ran from `start`. When neither move is possible, `log` is the round
     * that evicts nothing and drops nothing, which the policy allows exactly
     * when both moves were blocked, and this storage is left as it was.
     */
    method MoveRound(now: int, ghost start: View, ghost done: seq<RoundLog>)
      returns (events: seq<Eviction>, ghost log: RoundLog, ghost moved: StoredOrder?)
      requires Valid() && Chain(done, start, now) && LastView(done, start) == Snapshot()
      modifies this`heater, this`cooler, this`freezer, this`allOrders, this`Repr, shelf`orderMap, Repr
      ensures Valid()
      ensures log.before == old(Snapshot()) && log.after == Snapshot() && log.made == events
      ensures Chain(done + [log], start, now) && Evictions(done + [log]) == Evictions(done) + events
      ensures LastView(done + [log], start) == Snapshot()
      ensures events != [] ==> Slack() < old(Slack()) && moved != null && fresh(moved) && Repr == old(Repr) + {moved}
      ensures events == [] ==>
                && log.poll == PollLog(map[], Shelf, {})
                && heater == old(heater) && cooler == old(cooler) && freezer == old(freezer)
                && allOrders == old(allOrders) && shelf.orderMap == old(shelf.orderMap) && Repr == old(Repr)
                && (|heater| >= IdealCapacity || NoneEligible(Heater))
                && (|cooler| >= IdealCapacity || NoneEligible(Cooler))
    {
      ghost var before;
      events, moved, before := MoveToCompartment(now);
      log := RoundLog(before, events, PollLog(map[], Shelf, {}), Snapshot());
      MovesExtend(done, start, now, log);
    }

    /**
     * The discard of the eviction step, once the moves made the round `idle`,
     * which evicted nothing and left this storage as it was. `log` records the
     * round from where `idle` started, and extends the chain `done`, which ran
     * from `start`.
     */
    method DiscardRound(now: int, ghost start: View, ghost done: seq<RoundLog>, ghost idle: RoundLog)
      returns (events: seq<Eviction>, stuck: bool, ghost log: RoundLog)
      requires Valid() && Chain(done + [idle], start, now)
      requires idle.made == [] && idle.poll.dropped == map[] && idle.after == Snapshot()
      modifies this`allOrders, shelf`heap, shelf`orderMap, shelf.Repr
      ensures Valid()
      ensures log.before == idle.before && log.after == Snapshot() && log.made == events
      ensures Chain(done + [log], start, now) && Evictions(done + [log]) == Evictions(done) + events
      ensures LastView(done + [log], start) == Snapshot()
      ensures !stuck ==> |shelf.heap| < |old(shelf.heap)|
      ensures stuck ==>
                && events == [] && allOrders == old(allOrders) && shelf.orderMap == old(shelf.orderMap)
                && shelf.heap == multiset{} && unchanged(shelf.Repr)
    {
      ghost var before := idle.before;
      assert ChainedLast(done + [idle], start, now) && (done + [idle])[..|done|] == done;
      assert Chain(done, start, now) && LastView(done, start) == before;
      ghost var mid := Snapshot();
      ghost var victim, dropped;
      events, stuck, victim, dropped := DiscardStep(now);
      DroppedAfterNothing(before, mid, Snapshot(), dropped.Keys, if events == [] then {} else {events[0].id});
      ghost var poll := PollLog(dropped, Shelf, {});
      if events != [] {
        poll := PollLog(dropped, victim.storageType, Queued(shelf.heap));
        PolledLeastLogged(victim, dropped, now, shelf.heap);
      }
      log := RoundLog(before, events, poll, Snapshot());
      ChainExtend(done, start, log, now);
    }

    /** The discard of the eviction step, with whether the queue was already empty. */
    method DiscardStep(now: int) returns (events: seq<Eviction>, stuck: bool, ghost victim: StoredOrder?, ghost dropped: map<string, Pop>)
      requires Valid()
      modifies this`allOrders, shelf`heap, shelf`orderMap, shelf.Repr
      ensures Valid()
      ensures |events| <= 1 && forall e :: e in events ==> e.Discarded?
      ensures events != [] ==> victim != null && events == [Discarded(victim.order.id)] && PolledLeast(victim, dropped, now, shelf.heap)
      ensures events == [] ==> forall id :: id in dropped ==> !dropped[id].Settled(now).active
      ensures old(Snapshot()).DroppedTo(Snapshot(), dropped.Keys, if events == [] then {} else {events[0].id})
      ensures !stuck ==> |shelf.heap| < |old(shelf.heap)|
      ensures stuck ==>
                && events == [] && allOrders == old(allOrders) && shelf.orderMap == old(shelf.orderMap)
                && shelf.heap == multiset{} && unchanged(shelf.Repr)
    {
      stuck := shelf.heap == multiset{};
      var r;
      ghost var popped;
      r, popped, dropped := DiscardLogged(now);
      victim := r;
      events := if r == null then [] else [Discarded(r.order.id)];
    }

    /** DiscardFromShelf, with its effect on the storage's snapshot stated as DroppedTo. */
    method DiscardLogged(now: int) returns (r: StoredOrder?, ghost popped: multiset<StoredOrder>, ghost dropped: map<string, Pop>)
      requires Valid()
      modifies this`allOrders, shelf`heap, shelf`orderMap, shelf.Repr
      ensures Valid() && Polled(r, popped, dropped, now)
      ensures r == null ==> allOrders == old(allOrders)
      ensures r != null ==> allOrders == old(allOrders) - {r.order.id}
      ensures old(Snapshot()).DroppedTo(Snapshot(), dropped.Keys, if r == null then {} else {r.order.id})
    {
      r, popped, dropped := DiscardFromShelf(now);
      SnapshotDropped(DropRun(dropped.Keys, if r == null then {} else {r.order.id}));
    }

    /**
     * The two moves of the eviction step: to the heater, else to the cooler.
     * The order moved is the one tryMoveShelfOrder picks for its target in the
     * storage `v` as it was; the cooler is tried only when the heater was
     * blocked, and nothing is moved only when both were.
     */
    method MoveToCompartment(now: int) returns (events: seq<Eviction>, ghost moved: StoredOrder?, ghost v: View)
      requires Valid()
      modifies this`heater, this`cooler, this`freezer, this`allOrders, this`Repr, shelf`orderMap, Repr
      ensures Valid()
      ensures v == old(Snapshot())
      ensures |events| <= 1
      ensures events != [] ==>
                && events[0].Moved? && v.Least(events[0].id, events[0].to, now)
                && (events[0].to == Heater || (events[0].to == Cooler && v.Blocked(Heater, now)))
                && Slack() == old(Slack()) - 1 && moved != null && fresh(moved) && Repr == old(Repr) + {moved}
      ensures events != [] ==> !v.Blocked(events[0].to, now) && v.MovedTo(Snapshot(), events[0].id, events[0].to, now)
      ensures events == [] ==>
                && v.Blocked(Heater, now) && v.Blocked(Cooler, now) && v.DroppedTo(Snapshot(), {}, {})
                && heater == old(heater) && cooler == old(cooler) && freezer == old(freezer)
                && allOrders == old(allOrders) && shelf.orderMap == old(shelf.orderMap) && Repr == old(Repr)
                && (|heater| >= IdealCapacity || NoneEligible(Heater))
                && (|cooler| >= IdealCapacity || NoneEligible(Cooler))
    {
      events, moved, v := MoveInto(Heater, now);
      if events == [] {
        events, moved := MoveToCooler(now, v);
      }
    }

    /** The cooler move, once the heater scan on `v` moved nothing and left this storage. */
    method MoveToCooler(now: int, ghost v: View) returns (events: seq<Eviction>, ghost moved: StoredOrder?)
      requires Valid() && v.Blocked(Heater, now) && v.ScannedTo(Snapshot(), Heater)
      requires |heater| >= IdealCapacity || NoneEligible(Heater)
      modifies this`heater, this`cooler, this`freezer, this`allOrders, this`Repr, shelf`orderMap, Repr
      ensures Valid()
      ensures |events| <= 1
      ensures events != [] ==>
                && events[0].Moved? && events[0].to == Cooler
                && v.Least(events[0].id, Cooler, now) && Slack() == old(Slack()) - 1
                && moved != null && fresh(moved) && Repr == old(Repr) + {moved}
      ensures events != [] ==> !v.Blocked(Cooler, now) && v.MovedTo(Snapshot(), events[0].id, Cooler, now)
      ensures events == [] ==>
                && v.Blocked(Cooler, now) && v.DroppedTo(Snapshot(), {}, {})
                && heater == old(heater) && cooler == old(cooler) && freezer == old(freezer)
                && allOrders == old(allOrders) && shelf.orderMap == old(shelf.orderMap) && Repr == old(Repr)
                && (|heater| >= IdealCapacity || NoneEligible(Heater))
                && (|cooler| >= IdealCapacity || NoneEligible(Cooler))
    {
      ghost var v1;
      events, moved, v1 := MoveInto(Cooler, now);
      CoolerUnaffected(v, v1, now);
      if events != [] {
        MovedAfterScan(v, v1, Snapshot(), events[0].id, now);
      } else {
        ScannedTwice(v, v1, Snapshot());
        if |heater| < IdealCapacity {
          NoneEligibleKept(Heater);
        }
      }
    }

    /**
     * tryMoveShelfOrder(target) at `now` for the heater or the cooler, reporting
     * the move it made, if any, as an eviction. Ghost `v` is the storage it
     * started from, and its choice is read off `v`.
     */
    method MoveInto(target: StorageType, now: int) returns (events: seq<Eviction>, ghost moved: StoredOrder?, ghost v: View)
      requires Valid() && (target == Heater || target == Cooler)
      modifies this`heater, this`cooler, this`freezer, this`allOrders, this`Repr, shelf`orderMap, Repr
      ensures Valid()
      ensures v == old(Snapshot())
      ensures events == [] <==> v.Blocked(target, now)
      ensures events != [] ==>
                && |events| == 1 && events[0].Moved? && events[0].to == target && v.Least(events[0].id, target, now)
                && moved != null && fresh(moved) && Repr == old(Repr) + {moved}
                && v.MovedTo(Snapshot(), events[0].id, target, now)
      ensures Slack() == old(Slack()) - |events|
      ensures events == [] ==>
                && heater == old(heater) && cooler == old(cooler) && freezer == old(freezer)
                && allOrders == old(allOrders) && shelf.orderMap == old(shelf.orderMap) && Repr == old(Repr)
                && (|List(target)| >= IdealCapacity || NoneEligible(target))
                && v.ScannedTo(Snapshot(), target)
      ensures forall o :: o in old(Repr) ==> o.storageType == old(o.storageType) && (o.active ==> old(o.active))
    {
      v := Snapshot();
      SnapshotBlocked(target, now);
      label Scan:
      var m;
      ghost var from;
      m, from := TryMoveShelfOrder(target, now);
      moved := m;
      if m == null {
        events := [];
        ScanSnapshot@Scan(ScanRun(old(allOrders.Values), target, now, null));
      } else {
        events := [Moved(m.order.id, target)];
        SnapshotLeast@Scan(ScanRun(old(allOrders.Values), target, now, from));
        SnapshotMoved(MoveRun(from, m, target, now));
      }
    }

    /** The storage as values: what a round of placeOrder's loop starts from. */
    ghost function Snapshot(): View
      reads this, shelf, allOrders.Values
    {
      View(|heater|, |cooler|, |freezer|, shelf.orderMap.Keys, map id | id in allOrders :: SlotOf(allOrders[id]))
    }

    /** The snapshot is blocked for a move exactly when the storage is. */
    lemma SnapshotBlocked(target: StorageType, now: int)
      ensures Snapshot().Blocked(target, now) == Blocked(target, now)
    {
      var s := Snapshot();
      if NoneSurvive(allOrders.Values, target, now) {
        forall id | id in s.stock
          ensures !SurvivesIn(s.stock[id], target, now)
        {
          assert allOrders[id] in allOrders.Values;
        }
      } else {
        var o :| o in allOrders.Values && Survives(o, target, now);
        var id :| id in allOrders && allOrders[id] == o;
        assert s.stock[id] == SlotOf(o);
      }
    }

    /** The order a scan in the old state chose is the least survivor of the old snapshot. */
    twostate lemma SnapshotLeast(run: ScanRun)
      requires old(Valid()) && run.candidate != null && old(LeastSurvivor(run.candidate, run.target, run.now))
      ensures old(Snapshot()).Least(run.candidate.order.id, run.target, run.now)
    {
      var m, s := old(allOrders), old(Snapshot());
      var k :| k in m && m[k] == run.candidate;
      assert k == run.candidate.order.id;
      forall other | other in s.stock && SurvivesIn(s.stock[other], run.target, run.now)
        ensures SettledIn(s.stock[k], run.target, run.now).remaining <= SettledIn(s.stock[other], run.target, run.now).remaining
      {
        assert m[other] in old(allOrders.Values);
      }
    }

    /**
     * A scan for `run.target` at `run.now` over the index that moved nothing
     * (either because the target was full or because no order survived) leaves
     * a snapshot that differs only in the orders the scan considered.
     */
    twostate lemma ScanSnapshot(run: ScanRun)
      requires allOrders == old(allOrders) && heater == old(heater) && cooler == old(cooler) && freezer == old(freezer)
      requires shelf.orderMap == old(shelf.orderMap)
      requires forall o :: o in old(allOrders.Values) ==>
                 o.storageType == old(o.storageType) &&
                 (o.State() == old(o.State()) || o.State() == old(ScanSettled(o, run.target, run.now)))
      ensures old(Snapshot()).ScannedTo(Snapshot(), run.target)
    {
    }

    /**
     * A move that took `run.from` off the shelf and indexed its successor
     * `run.into` under its id, in compartment `run.target`, changing no other
     * order's storage, leaves the snapshot MovedTo describes.
     */
    twostate lemma SnapshotMoved(new run: MoveRun)
      requires old(Valid()) && run.target.IsCompartment() && fresh(run.into)
      requires run.from.order.id in old(allOrders) && old(allOrders)[run.from.order.id] == run.from
      requires run.into.order == run.from.order && run.into.storageType == run.target
      requires run.into.State() ==
               FreshState(run.now, SettledIn(old(Snapshot()).stock[run.from.order.id], run.target, run.now).remaining, true)
      requires allOrders == old(allOrders)[run.from.order.id := run.into]
      requires shelf.orderMap == old(shelf.orderMap) - {run.from.order.id}
      requires |heater| == old(|heater|) + (if run.target == Heater then 1 else 0)
      requires |cooler| == old(|cooler|) + (if run.target == Cooler then 1 else 0)
      requires |freezer| == old(|freezer|) + (if run.target == Freezer then 1 else 0)
      requires forall o :: o in old(allOrders.Values) ==> o.storageType == old(o.storageType)
      ensures old(Snapshot()).MovedTo(Snapshot(), run.from.order.id, run.target, run.now)
    {
    }

    /**
     * Unmapping `run.unmapped` from the shelf and un-indexing `run.gone`,
     * changing no compartment and no order's storage, leaves the snapshot
     * DroppedTo describes.
     */
    twostate lemma SnapshotDropped(run: DropRun)
      requires heater == old(heater) && cooler == old(cooler) && freezer == old(freezer)
      requires allOrders == old(allOrders) - run.gone && shelf.orderMap.Keys == old(shelf.orderMap.Keys) - run.unmapped
      requires forall o :: o in old(allOrders.Values) ==> o.storageType == old(o.storageType)
      ensures old(Snapshot()).DroppedTo(Snapshot(), run.unmapped, run.gone)
    {
    }

    /** The estimates of the live entries of `queue`, as the queue's comparator reads them. */
    ghost function Queued(queue: multiset<StoredOrder>): set<int>
      reads queue
    {
      set o | o in queue && o.active :: shelf.Estimate(o)
    }

    /** What PolledLeast says about a discard, recorded as a PollLog. */
    lemma PolledLeastLogged(r: StoredOrder, dropped: map<string, Pop>, now: int, queue: multiset<StoredOrder>)
      requires PolledLeast(r, dropped, now, queue)
      ensures PollLog(dropped, r.storageType, Queued(queue)).Chose(r.order.id, now)
    {
    }

    /**
     * An operation that keeps the index, changes no storage type and
     * reactivates nothing leaves no order eligible for a move that was not
     * eligible before.
     */
    twostate lemma NoneEligibleKept(target: StorageType)
      requires old(Valid()) && old(NoneEligible(target))
      requires allOrders == old(allOrders) && Repr == old(Repr)
      requires forall o :: o in old(Repr) ==> o.storageType == old(o.storageType) && (o.active ==> old(o.active))
      ensures NoneEligible(target)
    {
    }

    /**
     * One pass of placeOrder's retry loop before it makes room: the ideal
     * compartment if it has room (never for the shelf), else the shelf if it is
     * not full, else nothing.
     */
    method TryPlace(order: Order, ideal: StorageType, now: int) returns (stored: StoredOrder?)
      requires Valid()
      modifies this`heater, this`cooler, this`freezer, this`allOrders, this`Repr, shelf, shelf.Repr
      ensures Valid()
      ensures stored == null <==> !(ideal.IsCompartment() && |old(List(ideal))| < IdealCapacity) && old(shelf.IsFull())
      ensures stored == null ==>
                && heater == old(heater) && cooler == old(cooler) && freezer == old(freezer) && allOrders == old(allOrders)
                && shelf.orderMap == old(shelf.orderMap) && shelf.heap == old(shelf.heap) && Repr == old(Repr)
                && Snapshot() == old(Snapshot())
      ensures stored != null ==>
                && fresh(stored) && stored.order == order && stored.placedTime == now
                && stored.State() == InitialState(order, now)
                && stored.storageType == (if ideal.IsCompartment() && |old(List(ideal))| < IdealCapacity then ideal else Shelf)
                && allOrders == old(allOrders)[order.id := stored] && Repr == old(Repr) + {stored}
      ensures stored != null && stored.storageType == Shelf ==>
                && heater == old(heater) && cooler == old(cooler) && freezer == old(freezer)
                && shelf.orderMap == old(shelf.orderMap)[order.id := stored] && shelf.heap == old(shelf.heap) + multiset{stored}
      ensures stored != null && stored.storageType != Shelf ==>
                && heater == (if ideal == Heater then old(heater) + [stored] else old(heater))
                && cooler == (if ideal == Cooler then old(cooler) + [stored] else old(cooler))
                && freezer == (if ideal == Freezer then old(freezer) + [stored] else old(freezer))
                && shelf.orderMap == old(shelf.orderMap) && shelf.heap == old(shelf.heap)
      ensures forall o :: o in old(Repr) ==> o.storageType == old(o.storageType) && (o.active ==> old(o.active))
      ensures forall o :: o in old(Repr) ==> o.State() == old(o.State()) || o.State() == old(o.State()).(active := false)
    {
      if ideal.IsCompartment() && |List(ideal)| < IdealCapacity {
        stored := StoreInCompartment(order, ideal, now);
      } else if !shelf.IsFull() {
        stored := StoreOnShelf(order, now);
      } else {
        stored := null;
      }
    }

    /** A new order for compartment `st`, appended to its list and indexed. */
    method StoreInCompartment(order: Order, st: StorageType, now: int) returns (stored: StoredOrder)
      requires Valid() && st.IsCompartment() && |List(st)| < IdealCapacity
      modifies this`heater, this`cooler, this`freezer, this`allOrders, this`Repr
      ensures Valid()
      ensures fresh(stored) && stored.order == order && stored.storageType == st && stored.placedTime == now
      ensures stored.State() == InitialState(order, now)
      ensures heater == (if st == Heater then old(heater) + [stored] else old(heater))
      ensures cooler == (if st == Cooler then old(cooler) + [stored] else old(cooler))
      ensures freezer == (if st == Freezer then old(freezer) + [stored] else old(freezer))
      ensures allOrders == old(allOrders)[order.id := stored] && Repr == old(Repr) + {stored}
    {
      stored := new StoredOrder(order, st, now);
      Install(order.id, st, stored);
    }

    /** A new order for the shelf, added to the shelf and indexed. */
    method StoreOnShelf(order: Order, now: int) returns (stored: StoredOrder)
      requires Valid() && !shelf.IsFull()
      modifies this`allOrders, this`Repr, shelf, shelf.Repr
      ensures Valid()
      ensures fresh(stored) && stored.order == order && stored.storageType == Shelf && stored.placedTime == now
      ensures stored.State() == InitialState(order, now)
      ensures shelf.orderMap == old(shelf.orderMap)[order.id := stored] && shelf.heap == old(shelf.heap) + multiset{stored}
      ensures allOrders == old(allOrders)[order.id := stored] && Repr == old(Repr) + {stored}
      ensures forall o :: o in old(Repr) ==> o.storageType == old(o.storageType) && (o.active ==> old(o.active))
      ensures forall o :: o in old(Repr) ==> o.State() == old(o.State()) || o.State() == old(o.State()).(active := false)
    {
      stored := new StoredOrder(order, Shelf, now);
      Shelve(stored);
      Index(order.id, stored);
    }

    /** Hands a new order to the shelf and takes ownership of it. */
    method Shelve(so: StoredOrder)
      requires Valid() && !shelf.IsFull() && so !in Repr
      modifies this`Repr, shelf, shelf.Repr
      ensures Valid()
      ensures shelf.orderMap == old(shelf.orderMap)[so.order.id := so] && shelf.heap == old(shelf.heap) + multiset{so}
      ensures Repr == old(Repr) + {so}
      ensures so.State() == old(so.State()) && so.storageType == old(so.storageType)
      ensures forall o :: o in old(Repr) ==> o.storageType == old(o.storageType) && (o.active ==> old(o.active))
      ensures forall o :: o in old(Repr) ==> o.State() == old(o.State()) || o.State() == old(o.State()).(active := false)
    {
      Repr := Repr + {so};
      var ok := shelf.AddOrder(so);
      ValidAfterShelfChange();
    }

    /** Indexes `so`, one of this storage's orders, under `id`. */
    method Index(id: string, so: StoredOrder)
      requires Valid() && so in Repr && so.order.id == id
      requires so.active && so.storageType == Shelf ==> id in shelf.orderMap && shelf.orderMap[id] == so
      modifies this`allOrders
      ensures Valid()
      ensures allOrders == old(allOrders)[id := so]
    {
      allOrders := allOrders[id := so];
    }

    /**
     * discardFromShelf: polls the shelf's queue at `now` and, when it yields an
     * order, drops that id from the index as well. The polled order is the live,
     * unexpired queue entry with the least estimated expiry.
     */
    method DiscardFromShelf(now: int) returns (r: StoredOrder?, ghost popped: multiset<StoredOrder>, ghost dropped: map<string, Pop>)
      requires Valid()
      modifies this`allOrders, shelf`heap, shelf`orderMap, shelf.Repr
      ensures Valid() && Polled(r, popped, dropped, now)
      ensures r == null ==> allOrders == old(allOrders)
      ensures r != null ==> allOrders == old(allOrders) - {r.order.id}
    {
      r, popped, dropped := PollShelf(now);
      ForgetPolled(r);
    }

    /**
     * What polling the shelf at `now` did: took `popped` off the queue (at least
     * one entry unless it was empty, in which case nothing changed) and
     * deactivated them, unmapped the ids of
     * `dropped`, returned `r` as PolledLeast describes or, returning nothing,
     * found every unmapped order expired; other entries are as they were.
     */
    twostate predicate Polled(new r: StoredOrder?, new popped: multiset<StoredOrder>, new dropped: map<string, Pop>, now: int)
      reads shelf, shelf.Repr, shelf.heap, popped, r
    {
      && shelf.Repr == old(shelf.Repr)
      && shelf.heap + popped == old(shelf.heap)
      && (old(shelf.heap) != multiset{} ==> popped != multiset{})
      && (old(shelf.heap) == multiset{} ==>
            r == null && dropped == map[] && shelf.orderMap == old(shelf.orderMap) && unchanged(old(shelf.Repr)))
      && shelf.orderMap == old(shelf.orderMap) - dropped.Keys
      && (forall o :: o in popped ==> !o.active)
      && (r != null ==> PolledLeast(r, dropped, now, shelf.heap))
      && (r == null ==> forall id :: id in dropped ==> !dropped[id].Settled(now).active)
      && (forall o :: o in old(shelf.Repr) ==> o.storageType == old(o.storageType))
      && (forall o :: o in old(shelf.Repr) && o !in popped ==> o.State() == old(o.State()))
    }

    /** Drops the polled order, if any, from the index. */
    method ForgetPolled(r: StoredOrder?)
      requires Valid()
      modifies this`allOrders
      ensures Valid()
      ensures allOrders == if r == null then old(allOrders) else old(allOrders) - {r.order.id}
    {
      if r != null {
        Forget(r.order.id);
      }
    }

    /**
     * `r` is the order discardFromShelf polled at `now`, given what the poll
     * unmapped (`dropped`): `r` was live and had not expired, every other order
     * unmapped had, and `r`'s estimate when popped was no later than that of any
     * live entry of `queue` (the entries the poll left in the queue).
     */
    ghost predicate PolledLeast(r: StoredOrder, dropped: map<string, Pop>, now: int, queue: multiset<StoredOrder>)
      reads queue, r
    {
      && r.order.id in dropped && dropped[r.order.id].entry == r && dropped[r.order.id].Settled(now).active
      && (forall id :: id in dropped && id != r.order.id ==> !dropped[id].Settled(now).active)
      && forall o :: o in queue && o.active ==>
           EstimateOf(r.order, r.storageType, dropped[r.order.id].before) <= shelf.Estimate(o)
    }

    /**
     * Deactivating queue entries, and otherwise leaving them and `p.r` as they
     * were, keeps `p.r` the least of the live entries.
     */
    twostate lemma PolledLeastKept(p: PollOutcome)
      requires old(PolledLeast(p.r, p.dropped, p.now, p.queue))
      requires p.r.storageType == old(p.r.storageType)
      requires forall o :: o in p.queue ==>
                 o.storageType == old(o.storageType) && (o.State() == old(o.State()) || o.State() == old(o.State()).(active := false))
      ensures PolledLeast(p.r, p.dropped, p.now, p.queue)
    {
    }

    /** The shelf's half of discardFromShelf. */
    method PollShelf(now: int) returns (r: StoredOrder?, ghost popped: multiset<StoredOrder>, ghost dropped: map<string, Pop>)
      requires Valid()
      modifies shelf`heap, shelf`orderMap, shelf.Repr
      ensures Valid() && Polled(r, popped, dropped, now)
    {
      r, popped, dropped := shelf.PollNextToExpire(now);
      MapMinusNoLarger(old(shelf.orderMap), dropped.Keys);
      ValidAfterShelfChange();
    }

    /**
     * The shelf unmapping or remapping ids whose old entries end up inactive,
     * while orders are only settled or deactivated and the kitchen takes on new
     * ones, keeps the storage valid.
     */
    twostate lemma ValidAfterShelfChange()
      requires old(Valid())
      requires heater == old(heater) && cooler == old(cooler) && freezer == old(freezer) && allOrders == old(allOrders)
      requires old(Repr) <= Repr && shelf.Repr <= Repr && shelf.Valid() && |shelf.orderMap| <= ShelfCapacity
      requires forall id :: id in old(shelf.orderMap) && (id !in shelf.orderMap || shelf.orderMap[id] != old(shelf.orderMap)[id]) ==>
                 !old(shelf.orderMap)[id].active
      requires forall o :: o in old(Repr) ==> o.storageType == old(o.storageType) && (o.active ==> old(o.active))
      ensures Valid()
    {
    }

    /**
     * tryMoveShelfOrder: moves the live shelf order ideal for `target` with the
     * least remaining freshness (after settling the candidates at `now`) into
     * `target`, when `target` is a compartment with room. The moved order is a
     * new StoredOrder with the same order, placement time and settled freshness;
     * the shelf's entry for its id is removed and deactivated.
     */
    method TryMoveShelfOrder(target: StorageType, now: int) returns (moved: StoredOrder?, ghost from: StoredOrder?)
      requires Valid()
      modifies this`heater, this`cooler, this`freezer, this`allOrders, this`Repr, shelf`orderMap, Repr
      ensures Valid()
      ensures forall o :: o in old(Repr) ==> o.storageType == old(o.storageType) && (o.active ==> old(o.active))
      ensures !target.IsCompartment() || |old(List(target))| >= IdealCapacity ==> moved == null && unchanged(old(Repr))
      ensures moved == null ==>
                && heater == old(heater) && cooler == old(cooler) && freezer == old(freezer)
                && allOrders == old(allOrders) && shelf.orderMap == old(shelf.orderMap) && Repr == old(Repr)
      ensures moved == null <==> old(Blocked(target, now))
      ensures moved == null ==> from == null
      ensures moved == null && target.IsCompartment() && |old(List(target))| < IdealCapacity ==> NoneEligible(target)
      ensures moved != null ==> from != null && from in old(allOrders.Values) && old(LeastSurvivor(from, target, now))
      ensures target.IsCompartment() && |old(List(target))| < IdealCapacity ==>
                forall o :: o in old(Repr) && o != from ==>
                  o.State() == (if o in old(allOrders.Values) then old(ScanSettled(o, target, now)) else old(o.State()))
      ensures moved != null ==> from.State() == old(ScanSettled(from, target, now)).(active := false)
      ensures moved != null ==>
                && fresh(moved) && moved.order == from.order && moved.storageType == target && moved.placedTime == from.placedTime
                && moved.State() == FreshState(now, old(ScanSettled(from, target, now)).remaining, true)
      ensures moved != null ==>
                && Repr == old(Repr) + {moved}
                && allOrders == old(allOrders)[from.order.id := moved]
                && shelf.orderMap == old(shelf.orderMap) - {from.order.id}
                && heater == (if target == Heater then old(heater) + [moved] else old(heater))
                && cooler == (if target == Cooler then old(cooler) + [moved] else old(cooler))
                && freezer == (if target == Freezer then old(freezer) + [moved] else old(freezer))
    {
      moved, from := null, null;
      if !target.IsCompartment() || |List(target)| >= IdealCapacity {
        return;
      }
      var candidate := ScanIndex(target, now);
      if candidate == null {
        return;
      }
      from := candidate;
      moved := Relocate(candidate, target, now);
    }

    /**
     * The scan of tryMoveShelfOrder over the index: settles the orders it
     * considers and finds the one to move, if any; the shelf's map holds that
     * order for its id.
     */
    method ScanIndex(target: StorageType, now: int) returns (candidate: StoredOrder?)
      requires Valid()
      modifies Repr
      ensures Valid()
      ensures forall o :: o in old(Repr) ==>
                o.storageType == old(o.storageType) &&
                o.State() == (if o in old(allOrders.Values) then old(ScanSettled(o, target, now)) else old(o.State()))
      ensures candidate == null ==> old(NoneSurvive(allOrders.Values, target, now)) && NoneEligible(target)
      ensures candidate != null ==>
                && candidate in old(allOrders.Values) && old(LeastSurvivor(candidate, target, now))
                && candidate.State() == old(ScanSettled(candidate, target, now))
                && candidate.order.id in shelf.orderMap && shelf.orderMap[candidate.order.id] == candidate
    {
      label Scan:
      candidate := ScanShelfFor(allOrders.Values, target, now);
      ScanFindsLeast@Scan(ScanRun(allOrders.Values, target, now, candidate));
      ValidAfterSettling();
    }

    /** The second half of tryMoveShelfOrder: unshelves `from` and stores its successor in `target`. */
    method Relocate(from: StoredOrder, target: StorageType, now: int) returns (moved: StoredOrder)
      requires Valid() && from in Repr
      requires from.order.id in shelf.orderMap && shelf.orderMap[from.order.id] == from
      requires target.IsCompartment() && |List(target)| < IdealCapacity
      modifies this`heater, this`cooler, this`freezer, this`allOrders, this`Repr, shelf`orderMap, shelf.Repr
      ensures Valid()
      ensures fresh(moved) && moved.order == from.order && moved.storageType == target && moved.placedTime == from.placedTime
      ensures moved.State() == FreshState(now, old(from.remaining), true)
      ensures Repr == old(Repr) + {moved}
      ensures allOrders == old(allOrders)[from.order.id := moved]
      ensures shelf.orderMap == old(shelf.orderMap) - {from.order.id}
      ensures heater == (if target == Heater then old(heater) + [moved] else old(heater))
      ensures cooler == (if target == Cooler then old(cooler) + [moved] else old(cooler))
      ensures freezer == (if target == Freezer then old(freezer) + [moved] else old(freezer))
      ensures forall o :: o in old(Repr) ==>
                o.storageType == old(o.storageType) &&
                o.State() == if o == from then old(o.State()).(active := false) else old(o.State())
    {
      var id := from.order.id;
      UnstoreFromShelf(id);
      moved := new StoredOrder.Resume(from.order, target, from.placedTime, now, from.remaining);
      Install(id, target, moved);
    }

    /** Takes ownership of the new order `so`, appends it to compartment `st` and indexes it under `id`. */
    method Install(id: string, st: StorageType, so: StoredOrder)
      requires Valid() && so !in Repr && st.IsCompartment() && |List(st)| < IdealCapacity
      requires so.order.id == id && so.storageType == st
      modifies this`heater, this`cooler, this`freezer, this`allOrders, this`Repr
      ensures Valid()
      ensures Repr == old(Repr) + {so}
      ensures allOrders == old(allOrders)[id := so]
      ensures heater == (if st == Heater then old(heater) + [so] else old(heater))
      ensures cooler == (if st == Cooler then old(cooler) + [so] else old(cooler))
      ensures freezer == (if st == Freezer then old(freezer) + [so] else old(freezer))
    {
      Repr := Repr + {so};
      Append(st, so);
      Index(id, so);
    }

    /** Appends `so`, one of this storage's orders, to compartment `st`, which has room. */
    method Append(st: StorageType, so: StoredOrder)
      requires Valid() && so in Repr && st.IsCompartment() && |List(st)| < IdealCapacity
      modifies this`heater, this`cooler, this`freezer
      ensures Valid()
      ensures heater == (if st == Heater then old(heater) + [so] else old(heater))
      ensures cooler == (if st == Cooler then old(cooler) + [so] else old(cooler))
      ensures freezer == (if st == Freezer then old(freezer) + [so] else old(freezer))
    {
      SetList(st, List(st) + [so]);
    }

    /**
     * The scan of tryMoveShelfOrder over `pool` (the index's values): visits
     * every order in no particular order, settles each live shelf order that is
     * ideal for `target`, and keeps one that is still live with the least
     * remaining freshness.
     */
    static method ScanShelfFor(pool: set<StoredOrder>, target: StorageType, now: int) returns (candidate: StoredOrder?)
      modifies pool
      ensures forall o :: o in pool ==> o.storageType == old(o.storageType) && o.State() == old(ScanSettled(o, target, now))
      ensures candidate != null ==> candidate in pool && old(Eligible(candidate, target)) && candidate.active
      ensures candidate != null ==> forall o :: o in pool && old(Eligible(o, target)) && o.active ==>
                candidate.remaining <= o.remaining
      ensures candidate == null ==> forall o :: o in pool ==> !Eligible(o, target)
    {
      var todo := pool;
      candidate := null;
      while todo != {}
        invariant todo <= pool
        invariant unchanged(todo)
        invariant forall o :: o in pool && o !in todo ==>
                    o.storageType == old(o.storageType) && o.State() == old(ScanSettled(o, target, now))
        invariant candidate != null ==> candidate in pool && candidate !in todo
        invariant candidate != null ==> old(Eligible(candidate, target)) && candidate.active
        invariant forall o :: o in pool && o !in todo && old(Eligible(o, target)) && o.active ==>
                    candidate != null && candidate.remaining <= o.remaining
        decreases |todo|
      {
        var so :| so in todo;
        todo := todo - {so};
        candidate := Visit(so, target, now, candidate);
      }
    }

    /**
     * One step of the scan: a live shelf order ideal for `target` is settled at
     * `now` and, if it is still live and fresher-to-expire than `candidate`
     * (strictly less remaining), replaces it.
     */
    static method Visit(so: StoredOrder, target: StorageType, now: int, candidate: StoredOrder?) returns (next: StoredOrder?)
      requires candidate != so
      requires candidate != null ==> candidate.active
      modifies so
      ensures so.storageType == old(so.storageType) && so.State() == old(ScanSettled(so, target, now))
      ensures next == candidate || (next == so && old(Eligible(so, target)))
      ensures next != null ==> next.active
      ensures old(Eligible(so, target)) && so.active ==> next != null && next.remaining <= so.remaining
      ensures candidate != null ==> next != null && next.remaining <= candidate.remaining
    {
      next := candidate;
      if so.active && so.storageType == Shelf && target.IsIdealFor(Some(so.order)) {
        so.UpdateFreshness(now);
        if so.active && (candidate == null || so.remaining < candidate.remaining) {
          next := so;
        }
      }
    }
  }
}
