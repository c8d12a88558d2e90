# Kitchen order storage, its JSON codec and command-line helpers, in Dafny

This project models the core of a kitchen fulfilment engine, together with the JSON reader and writer and the small command-line helpers the engine's simulator uses.

**Storage and freshness.**
- Each order placed in the kitchen is held as a `StoredOrder`.
- A `StoredOrder` loses freshness at a linear rate. In its ideal storage it decays at `decayRate`; anywhere else, the shelf included, at twice that rate.
- An order whose freshness reaches zero expires, and it stays expired.
- The kitchen has three compartments of six orders each: a heater for HOT orders, a cooler for COLD and a freezer for FROZEN.
- It also has an overflow shelf of twelve orders.

**The shelf.**
- A `ShelfManager` keeps its authoritative membership in a map from order id to stored order.
- Beside the map it keeps a priority queue ordered by each order's estimated expiry instant.
- Stale queue entries are deleted lazily: an order removed from the map is only deactivated, and polling skips it later.
- This is sound because the Kitchen and the shelf share the same `StoredOrder` objects.

**The Kitchen.**
- The Kitchen places an order in its ideal compartment, else on the shelf.
- Failing both, it moves a shelf order into the heater, else into the cooler, or else discards the shelf order due to expire soonest. It then tries the placement again.
- A pickup removes an order from wherever it is.
- Every step is appended to an action ledger.

Two variants of the Kitchen exist:
- The root `Kitchen.java` always logs a pickup as PICKUP.
- The simulator's `Kitchen.java` sends ROOM orders to the shelf. It settles an order's freshness when it is picked up, and logs the pickup as a discard if the order has expired by then.

**Time and numbers.**
- Every operation takes the current time `now` (microseconds) as a parameter.
- Freshness and decay are exact reals.
- Java's long saturation is written out with explicit `Long.MAX_VALUE` constants.

**The model's structure.**
- `StoredOrder`, `ShelfManager`, the shared storage and both Kitchens are classes whose methods update their fields in place.
- Each method is proved against specification functions (`Settle`, `EstimateOf`, `RemoveFirstById`, `EvictionActions`, ...).
- Further lemmas state what the source promises about those functions:
  - decay is linear;
  - expiry is permanent;
  - the estimate is the exact expiry instant.
- Proved invariants:
  - capacities: six per compartment, twelve mapped on the shelf;
  - lazy deletion is sound: every live queue entry is the entry the map holds for its id.
- Proved placement rules:
  - the placement order: the ideal compartment with room, else a shelf that is not full;
  - the eviction policy, round by round (`KitchenStorage.RoundLog.Justified`):
    - a move to the heater whenever the heater scan finds a shelf order to move;
    - else a move to the cooler;
    - a discard only when both moves were blocked;
  - a move goes only into a target that had room;
  - the order moved is the least fresh survivor of its scan;
  - the moved order leaves the shelf map and is indexed in the target, which holds one more order, with the freshness the scan left it;
  - the order discarded is the live, unexpired queue entry with the least estimated expiry, and it leaves the index;
  - apart from the order moved, no order changes storage in a round;
  - the rounds of one placement form a chain from the storage as found (`KitchenStorage.Chain`), carried up to both Kitchens' `placeOrder`.

**JSON.**
- The text format is given by functions over text positions (`JsonSpec`), one per `Parser` method, plus `Serialize` for `writeValue`.
- The cursor parser `JsonParser.Parser` and the writer `JsonWriter` are methods proved equal to those functions.
- Text is a sequence of Java `char`s (UTF-16 code units).
- Proved properties:
  - the string escape round trip;
  - the full stringify-then-parse round trip for every value the writer writes faithfully;
  - whitespace handling;
  - escape and `\u` rejection;
  - integer boxing by width;
  - empty containers;
  - trailing-comma rejection;
  - last-wins duplicate keys.

**Command line.** The simulator's `parseArgs`, `toEnvKey`, `parseTemperature` and `firstNonNull` are modelled on ASCII strings, each with lemmas stating what it does.

The model follows the repository's code. It relies on four things that code calls but does not define:
- `StoredOrder.deactivate()` is called at `ShelfManager.java:31,40,60` and `Kitchen.java:87,193` but not defined in `StoredOrder.java`.
  - `Freshness.StoredOrder.Deactivate` models it as clearing `active` and nothing else.
- The five-argument `StoredOrder` constructor is used at `Kitchen.java:151-157` but not defined.
  - `Freshness.StoredOrder.Resume` models it: the given placement time, settled at `now` with the given freshness, active.
- The `ROOM` temperature is used by the simulator but missing from both `Order` enums.
  - `Orders.Temperature` includes it.
- The simulator's `ShelfManager` and `StoredOrder` (in its own package) are not part of this model.
  - The simulator Kitchen is modelled over the root `ShelfManager.java` and `StoredOrder.java`, with the clock passed in.

Behaviours of the code that the model keeps rather than assumes away:
- `lastUpdated` may move backwards when an order is settled at an earlier time.
- The shelf can leak entries:
  - `tryMoveShelfOrder` settles shelf orders and may expire them, and such an entry stays in the shelf's map.
  - Polling then skips it without unmapping it.
  - The shelf can therefore stay "full" with an empty queue, and `placeOrder`'s `while (true)` then never ends.
  - The model's placement returns `Spins` only in that state (`KitchenStorage.Storage.Stuck`), instead of looping.

## Model

| member | source | states |
|---|---|---|
| Orders.IdealStorageOf | StorageType.java:7-18 | isIdealFor holds for a storage type and an order of temperature t exactly when that storage is the one returned: HEATER for HOT, COOLER for COLD, FREEZER for FROZEN, always a compartment; a ROOM order has none |
| Orders.ShelfAndNullIdealForNothing | StorageType.java:8-16 | SHELF is ideal for no order, and no storage type is ideal for a null order |
| Freshness.Multiplier | StoredOrder.java:57 | the decay multiplier is 1.0 exactly when the storage is ideal for the order, else 2.0 |
| Freshness.Settle | StoredOrder.java:46-67 | updateFreshness as a function of the state: an inactive order is unchanged; a live one has lastUpdated = now; it is never reactivated; an order that expires is left with freshness 0; with a non-negative rate, freshness stays between 0 and its old value |
| Freshness.DecayAdds | StoredOrder.java:58 | the decay over a + b microseconds is the decay over a plus the decay over b |
| Freshness.DecayNonNegative | StoredOrder.java:58 | with a non-negative decay rate, elapsed time never adds freshness |
| Freshness.InactiveIsFinal | StoredOrder.java:47-49 | expiry is permanent: any sequence of settlements leaves an inactive order exactly as it was |
| Freshness.SettleAllIsLinear | StoredOrder.java:51-66 | settling at any non-decreasing sequence of times ending at T equals one settlement at T: freshness is remaining - (T - lastUpdated) * decayRate * multiplier while positive, else the order is expired with 0 |
| Freshness.StoredOrder.constructor | StoredOrder.java:13-20 | a new order is active, last updated at its placement time, with shelfLifeSeconds * 1,000,000 freshness |
| Freshness.StoredOrder.Resume | Kitchen.java:151-157 | the order re-created by a move keeps the order and placement time, is settled at now with the given freshness, and is active |
| Freshness.StoredOrder.Deactivate | Kitchen.java:193 | deactivate clears active and changes nothing else, the storage type included |
| Freshness.StoredOrder.UpdateFreshness | StoredOrder.java:46-67 | the new state is Settle of the old state at now, in the order's unchanged storage |
| Freshness.StoredOrder.IsExpired | StoredOrder.java:69-72 | isExpired settles the order at now (a side effect) and returns exactly !active afterwards |
| Freshness.StoredOrder.MoveTo | StoredOrder.java:74-78 | moveTo settles at the old storage first, then switches to the new storage |
| Shelf.Ceil | ShelfManager.java:106 | Math.ceil: the least integer not below x |
| Shelf.EstimateIsExpiryInstant | ShelfManager.java:75-109 | below saturation the estimated expiry is exact: settling at the estimate finds the order expired, and settling one microsecond earlier does not |
| Shelf.EstimateUnsaturated | ShelfManager.java:98-108 | an unsaturated estimate is lastUpdated plus a positive whole number of microseconds, ceil(remaining / (rate * multiplier)) |
| Shelf.CeilOfQuotient | ShelfManager.java:99-106 | rounding remaining / rate up: that many microseconds of decay use up the freshness, one fewer does not |
| Shelf.ExpiresAfterSteps | StoredOrder.java:58-66 | when c microseconds of decay use up the freshness and c - 1 do not, the order expires exactly c microseconds after its last update |
| Shelf.ProjectExpiryShift | ShelfManager.java:101-108 | for a non-negative clock, or any clock when the time to expiry fits in a long: moving the last update n microseconds later while the time to expiry shrinks by n never raises the projection, and keeps it exactly when it had not saturated or the time fits |
| Shelf.EstimateStableUnderSettle | ShelfManager.java:75-109 | settling a live order forward without expiring it does not move its estimated expiry, except that a saturated estimate may come down; for a negative clock this holds when the time to expiry fits in a long, and then the estimate is unchanged: the priority computed at insertion stays valid |
| Shelf.SettledStepsLeft | StoredOrder.java:57-61 | a later settlement that does not expire the order leaves remaining / rate smaller by exactly the microseconds elapsed |
| Shelf.EstimateProjects | ShelfManager.java:98-108 | a live, decaying order's estimate is the saturating projection from its last update |
| Shelf.SettleLive | StoredOrder.java:57-61 | a later settlement that keeps the order live leaves remaining - elapsed * rate * multiplier, which is positive |
| Shelf.ShelfManager.constructor | ShelfManager.java:13-17 | a new shelf has the given capacity, an empty map and an empty queue |
| Shelf.ShelfManager.Unbounded | ShelfManager.java:19-21 | the no-argument shelf has capacity Integer.MAX_VALUE and is empty |
| Shelf.ShelfManager.ValidAfterSettling | Kitchen.java:132-135 | the Kitchen settling or deactivating shared shelf entries, without reactivating any, keeps lazy deletion sound |
| Shelf.ShelfManager.AddOrder | ShelfManager.java:23-35 | null is rejected with no change; otherwise the id maps to the new entry, which is queued; an entry the id already had is deactivated and the size is unchanged, otherwise the size grows by one; no other entry changes |
| Shelf.ShelfManager.RemoveOrder | ShelfManager.java:37-42 | the id is unmapped and its entry deactivated, the size dropping by one; an unknown id changes nothing; the queue is not touched |
| Shelf.ShelfManager.PollNextToExpire | ShelfManager.java:44-65 | the popped entries all end inactive; every unmapped id was popped live; all of them but the returned one had expired at now; the returned entry was live, had not expired, is unmapped and deactivated, and its estimate was no later than any live entry left; null only once the queue is empty; entries not popped keep their state and no entry changes storage |
| Shelf.ShelfManager.PollStepKeepsBook | ShelfManager.java:47-57 | one turn of the polling loop keeps the queue, the map and the popped entries consistent |
| Shelf.ShelfManager.PollStepKeepsFound | ShelfManager.java:53-62 | one turn of the polling loop keeps what was found: expired ids skipped, and a returned entry that is live and least |
| Shelf.ShelfManager.PollStep | ShelfManager.java:48-61 | one turn pops a least entry; a live one is settled at now, unmapped and deactivated, and reported expired exactly when settling expired it; a stale one is only popped |
| Shelf.ShelfManager.PopMin | ShelfManager.java:48 | poll removes one entry whose current estimate is no later than any other's |
| Shelf.ShelfManager.Unmap | ShelfManager.java:54-61 | a live popped entry is settled at now, unmapped and deactivated, and reported expired exactly when settling expired it |
| Shelf.ShelfManager.MinEstimateExists | ShelfManager.java:15 | a non-empty queue holds an entry of least estimate under the queue's comparator |
| KitchenStorage.IndexOfId | Kitchen.java:188-197 | the position of the first order with the id, or the list's length when there is none |
| KitchenStorage.RemoveFirstById | Kitchen.java:188-197 | the list without its first order of that id, one shorter, and with the same orders otherwise; the list itself when the id is absent |
| KitchenStorage.Storage.constructor | Kitchen.java:15-21 | the storage starts with empty compartments, an empty shelf of capacity 12 and an empty index |
| KitchenStorage.Storage.SetList | Kitchen.java:175-186 | storageList: only the named compartment's list is replaced |
| KitchenStorage.Storage.RemoveFromListById | Kitchen.java:188-197 | the result is RemoveFirstById of the list; the removed order is deactivated and nothing else about it changes; no other order changes |
| KitchenStorage.Storage.Withdraw | Kitchen.java:72-88 | the order is un-indexed and removed from its container, the shelf's map or its compartment's list, and the indexed order is deactivated; every other stored order keeps its state and storage |
| KitchenStorage.Storage.ReleaseFromList | Kitchen.java:86-87 | removeFromListById then deactivate: the first order with the id leaves its compartment, the indexed order ends inactive, and no order other than one with that id changes state |
| KitchenStorage.Storage.Collect | kitchen-simulator/src/main/java/com/kitchen/Kitchen.java:108-125 | the order is settled at now, reported expired exactly when settling expired it, removed from its container and un-indexed; only orders with that id change state, and none changes storage |
| KitchenStorage.Storage.Inspect | kitchen-simulator/src/main/java/com/kitchen/Kitchen.java:116-123 | the order is settled at now, reported expired exactly when settling expired it, and removed from its container; only orders with that id change state |
| KitchenStorage.Storage.Vacate | kitchen-simulator/src/main/java/com/kitchen/Kitchen.java:119-123 | the id leaves the container of its storage type, and its entry there is deactivated; no other container changes, and no other order changes state |
| KitchenStorage.Storage.Refresh | kitchen-simulator/src/main/java/com/kitchen/Kitchen.java:116 | updateFreshness on an owned order settles it at now, keeps its storage, and keeps the storage valid |
| KitchenStorage.Storage.Retire | Kitchen.java:87 | deactivating an owned order keeps the storage valid and changes nothing else about the order |
| KitchenStorage.Storage.UnstoreFromShelf | Kitchen.java:81 | shelf.removeOrder: the id leaves the shelf map and its entry is deactivated; no other order changes state and none is moved |
| KitchenStorage.Storage.Forget | Kitchen.java:101 | allOrders.remove: the id leaves the index |
| KitchenStorage.Storage.UnstoreFromList | Kitchen.java:86 | the first order with the id leaves its compartment and is deactivated; the other compartments, and all other orders, are unchanged |
| KitchenStorage.Storage.Place | Kitchen.java:32-59 | placeOrder's retry loop: an ideal compartment with fewer than six is used at once, else a shelf that is not full; otherwise rounds of evictions run, logged as a chain from the storage as found, each following the eviction policy: a move to the heater if its scan finds a survivor, else to the cooler, else a discard; a move goes only into a target with room and takes the least fresh survivor of its scan off the shelf map into that target, re-indexed with its settled freshness; a discard un-indexes the poll's choice; no other order changes storage; it ends when the new order is stored in its ideal compartment or on the shelf, or in a state the loop can never leave (Spins only then); the evictions are the rounds' in order, and moves target only the heater or cooler |
| KitchenStorage.Storage.Retry | Kitchen.java:32-59 | the loop after a failed first attempt: its rounds form a chain from the storage as found, each following the eviction policy: a move to the heater if its scan finds a survivor, else to the cooler, else a discard; a move goes only into a target with room and takes the least fresh survivor of its scan off the shelf map into that target, re-indexed with its settled freshness; a discard un-indexes the poll's choice; no other order changes storage; it ends with the order placed in its ideal compartment or on the shelf, or Spins with at least one round run and the storage stuck |
| KitchenStorage.Storage.Round | Kitchen.java:52-58 | one later round of the loop: make room, then try again; the round extends the chain of earlier rounds from the storage it started from, following the eviction policy with its target's room and the move's or discard's effect on the storage; unless placed, the storage is where the chain leaves it; a round that neither places nor is stuck uses up slack (free heater and cooler slots and queue entries) |
| KitchenStorage.Storage.MakeRoom | Kitchen.java:52-56 | the eviction step extends the chain of rounds: a move to the heater when the heater scan finds an order to move, else to the cooler, and a discard only when both were blocked; the target of a move had room, the order moved is the least fresh survivor of its scan, leaves the shelf map and is re-indexed in the target with its settled freshness; the order discarded is the poll's choice and leaves the index; stuck exactly when nothing changed |
| KitchenStorage.Storage.DiscardStep | Kitchen.java:54 | the discard of the eviction step: the order discarded is the poll's choice and is reported; without one, every unmapped entry had expired; the shelf map loses the unmapped ids, the index loses the discarded id, and no order changes storage; at least one queue entry is popped unless the queue was already empty |
| KitchenStorage.Storage.MoveToCompartment | Kitchen.java:52-53 | the heater move, else the cooler move only when the heater was blocked; the target was not blocked, so it had room; the order moved is the least fresh survivor of the storage as found, leaves the shelf map, and is re-indexed in the target, which grows by one, with its settled freshness; when neither happens, both targets were blocked, nothing changed and no eligible shelf order is left for a target with room |
| KitchenStorage.Storage.MoveToCooler | Kitchen.java:53 | the cooler move after a heater scan that moved nothing: the cooler was not blocked, the order moved is the least fresh cooler survivor of the storage as it was before the heater scan, and the move's effect (shelf map, cooler size, re-indexed slot) is read from that storage too; when nothing moves, the cooler was blocked there too and nothing changed |
| KitchenStorage.Storage.MoveInto | Kitchen.java:52-53 | tryMoveShelfOrder for the heater or the cooler: nothing is moved exactly when the target is blocked in the storage as found; otherwise the least fresh survivor leaves the shelf map and is re-indexed in the target, which grows by one, with its settled freshness, using up one slot of slack |
| KitchenStorage.CoolerUnaffected | Kitchen.java:52-53 | a heater scan that moved nothing changed only HOT orders, so a cooler scan afterwards is blocked, and chooses, exactly as it would have before |
| KitchenStorage.ChainExtend | Kitchen.java:32-59 | a round that follows the eviction policy from where a chain of rounds left off extends the chain, and its evictions follow the chain's |
| KitchenStorage.ChainMovesToHeaterOrCooler | Kitchen.java:52-53 | every move in a chain of policy rounds targets the heater or the cooler, never the freezer |
| KitchenStorage.Storage.MoveRound | Kitchen.java:52-53 | the moves of the eviction step extend the chain of rounds: the round logged moves an order as the policy demands, or evicts nothing, drops nothing and leaves the storage as it was, which the policy allows only when both targets were blocked; a move uses up one slot of slack |
| KitchenStorage.Storage.DiscardRound | Kitchen.java:54 | the discard of the eviction step, after moves that did nothing, extends the chain of rounds from where those moves started: the poll's choice is discarded, or every unmapped entry had expired; stuck exactly when the queue was empty and nothing changed |
| KitchenStorage.Storage.DiscardLogged | Kitchen.java:94-103 | discardFromShelf, with its effect on the storage: the shelf map loses the ids the poll unmapped, the index loses the polled order's id, the compartments stay as they were and no order changes storage |
| KitchenStorage.Storage.ForgetPolled | Kitchen.java:97-101 | the polled order, if any, leaves the index; the index is untouched otherwise |
| KitchenStorage.MovesExtend | Kitchen.java:52-53 | a move made by the move rule (into a target with room, of the least fresh survivor, with its effect on the storage), or no move when both targets were blocked and nothing changed, extends a chain of rounds |
| KitchenStorage.RoundEffect | Kitchen.java:52-56 | a round the policy allows moved only into a compartment with a free slot, which it filled, taking the moved id off the shelf map and indexing it in that compartment; a discard took its id out of the index and left the compartments as they were |
| KitchenStorage.MovedAfterScan | Kitchen.java:52-53 | a cooler move made after a heater scan that moved nothing has the same effect read from the storage before that scan |
| KitchenStorage.ScannedTwice | Kitchen.java:52-53 | two scans that moved nothing leave the compartments, the shelf map, the index and every order's storage as they were |
| KitchenStorage.DroppedAfterNothing | Kitchen.java:52-54 | moves that dropped nothing, followed by a discard, have the discard's effect on the storage as found |
| KitchenStorage.Storage.NoneEligibleKept | Kitchen.java:121-140 | once no shelf order is eligible for a move, an operation that reactivates nothing keeps it so |
| KitchenStorage.Storage.TryPlace | Kitchen.java:33-50 | one attempt: a new active StoredOrder placed at now goes into the ideal compartment if it has fewer than six, else onto the shelf if it is not full, and is indexed; otherwise nothing changes |
| KitchenStorage.Storage.StoreInCompartment | Kitchen.java:36-41 | a new StoredOrder is appended to the compartment and indexed by its id |
| KitchenStorage.Storage.StoreOnShelf | Kitchen.java:44-49 | a new StoredOrder is added to the shelf map and queue and indexed by its id |
| KitchenStorage.Storage.Shelve | Kitchen.java:46 | shelf.addOrder with a new order: mapped and queued |
| KitchenStorage.Storage.Index | Kitchen.java:47 | allOrders.put |
| KitchenStorage.Storage.DiscardFromShelf | Kitchen.java:94-103 | the shelf is polled at now: the order that comes back was live and unexpired, every other entry unmapped had expired, and no live entry left queued is estimated to expire earlier; it is un-indexed, the index is untouched when none comes back, and entries not popped keep their state |
| KitchenStorage.Storage.PollShelf | Kitchen.java:96 | the polled order was live and unexpired at now, and its estimate was least among the live entries left; the other unmapped ids had expired |
| KitchenStorage.Storage.TryMoveShelfOrder | Kitchen.java:105-163 | nothing changes if the target is not a compartment or is full, or if no live shelf order ideal for it survives settlement at now; otherwise the survivor with the least settled freshness is unmapped from the shelf and deactivated, and re-created in the target, keeping its order, placement time and settled freshness, and re-indexed; every other order is settled by the scan or unchanged |
| KitchenStorage.Storage.Relocate | Kitchen.java:146-160 | the moved order leaves the shelf map, and a new StoredOrder with its placement time and freshness is appended to the target and indexed |
| KitchenStorage.Storage.Install | Kitchen.java:159-160 | targetList.add and allOrders.put of a new order |
| KitchenStorage.Storage.Append | Kitchen.java:159 | targetList.add: only the target compartment grows, by the one order |
| KitchenStorage.Storage.ScanShelfFor | Kitchen.java:120-140 | the scan settles every live shelf order ideal for the target and no other order; the candidate is one of them that is still live, with freshness no greater than any other survivor's; null exactly when none survives |
| KitchenStorage.Storage.Visit | Kitchen.java:122-139 | one scan step: an eligible order is settled and replaces the candidate only when it is still live and strictly less fresh |
| RootKitchen.IdealStorageFor | Kitchen.java:165-173 | HOT to the heater, COLD to the cooler, anything else to the freezer; the result is ideal for every non-ROOM order |
| RootKitchen.EvictionAction | Kitchen.java:102-161 | a move is logged as MOVE from SHELF to its target and a discard as DISCARD from SHELF, at now |
| RootKitchen.EvictionActions | Kitchen.java:52-56 | the moves and discards of placeOrder's loop are logged one per eviction, in order |
| RootKitchen.Kitchen.constructor | Kitchen.java:15-21 | an empty kitchen with an empty ledger |
| RootKitchen.Kitchen.PlaceOrder | Kitchen.java:23-63 | null is rejected before any change; otherwise the order is stored in its ideal compartment if it holds fewer than six, else on a shelf that is not full; failing both, the evictions form a chain of rounds from the storage as found, each following the eviction policy: a move to the heater if its scan finds a survivor, else to the cooler, else a discard; a move goes only into a target with room and takes the least fresh survivor of its scan off the shelf map into that target, re-indexed with its settled freshness; a discard un-indexes the poll's choice; no other order changes storage; they are logged in order before PLACE (from null to that storage); capacities hold afterwards |
| RootKitchen.Kitchen.PlaceSome | Kitchen.java:30-59 | placeOrder for a non-null order: as PlaceOrder, the evictions a chain of rounds from the storage as found, each following the eviction policy: a move to the heater if its scan finds a survivor, else to the cooler, else a discard; a move goes only into a target with room and takes the least fresh survivor of its scan off the shelf map into that target, re-indexed with its settled freshness; a discard un-indexes the poll's choice; no other order changes storage, with the ledger extended by the evictions and the placement |
| RootKitchen.Kitchen.PickupOrder | Kitchen.java:65-92 | a null or unknown id changes nothing, the ledger included; otherwise the order is un-indexed, removed from its container and deactivated, every other order keeping its state, and PICKUP from its storage is appended whatever its freshness |
| SimKitchen.Location | kitchen-simulator/src/main/java/com/kitchen/Kitchen.java:27-29 | the storage type's name in lower case; "shelf" exactly for the shelf |
| SimKitchen.LocationInjective | kitchen-simulator/src/main/java/com/kitchen/Kitchen.java:27-29 | distinct storage types have distinct locations |
| SimKitchen.IdealStorageFor | kitchen-simulator/src/main/java/com/kitchen/Kitchen.java:208-219 | the shelf exactly for ROOM orders; otherwise the storage ideal for the order |
| SimKitchen.EvictionAction | kitchen-simulator/src/main/java/com/kitchen/Kitchen.java:145-204 | a move is logged as "move" at its target's location and a discard as "discard" at "shelf", at now |
| SimKitchen.EvictionActions | kitchen-simulator/src/main/java/com/kitchen/Kitchen.java:88-92 | the moves and discards of placeOrder's loop are logged one per eviction, in order |
| SimKitchen.PickupVerb | kitchen-simulator/src/main/java/com/kitchen/Kitchen.java:127-131 | "discard" exactly for an expired order, "pickup" otherwise |
| SimKitchen.PlaceThenPickup | kitchen-simulator/src/test/java/com/kitchen/KitchenTest.java:11-24 | placing one HOT order and picking it up gives exactly [place, pickup] at the heater with non-decreasing timestamps, the second a discard only if the order decayed to nothing in between |
| SimKitchen.Kitchen.constructor | kitchen-simulator/src/main/java/com/kitchen/Kitchen.java:31-38 | an empty kitchen with an empty ledger |
| SimKitchen.Kitchen.GetLedgerSnapshot | kitchen-simulator/src/main/java/com/kitchen/Kitchen.java:40-47 | the snapshot equals the ledger and taking it changes nothing |
| SimKitchen.Kitchen.PlaceOrder | kitchen-simulator/src/main/java/com/kitchen/Kitchen.java:49-99 | null is rejected before any change; a ROOM order never goes into a compartment; any other order goes to its ideal compartment if it holds fewer than six, else to a shelf that is not full; failing that, the evictions form a chain of rounds from the storage as found, each following the eviction policy: a move to the heater if its scan finds a survivor, else to the cooler, else a discard; a move goes only into a target with room and takes the least fresh survivor of its scan off the shelf map into that target, re-indexed with its settled freshness; a discard un-indexes the poll's choice; no other order changes storage; "place" at that location is logged after the evictions' entries; capacities hold afterwards |
| SimKitchen.Kitchen.PlaceSome | kitchen-simulator/src/main/java/com/kitchen/Kitchen.java:56-95 | placeOrder for a non-null order: as PlaceOrder, the evictions a chain of rounds from the storage as found, each following the eviction policy: a move to the heater if its scan finds a survivor, else to the cooler, else a discard; a move goes only into a target with room and takes the least fresh survivor of its scan off the shelf map into that target, re-indexed with its settled freshness; a discard un-indexes the poll's choice; no other order changes storage, with the ledger extended by the evictions and the placement |
| SimKitchen.Kitchen.PickupOrder | kitchen-simulator/src/main/java/com/kitchen/Kitchen.java:101-135 | a null or unknown id changes nothing; otherwise the order is settled at now, removed from its container and the index, and logged at its location before removal as "discard" if settling expired it, else "pickup"; only orders with that id change state |
| JsonSpec.Ascii | Json.java:145-161 | the ASCII literals the parser compares against, one code unit per character |
| JsonSpec.HexDigitValue | Json.java:264-278 | the explicit ranges 0-9, a-f and A-F of parseUnicodeEscape: a value below 16 exactly for those units, and none for any other |
| JsonSpec.SimpleEscape | Json.java:225-252 | the one-character escapes \" \\ \/ \b \f \n \r \t; 'u' is not one of them |
| JsonSpec.SkipWs | Json.java:127-136 | skipWhitespace stops at the end or at the first code unit that is not a space, tab, CR or LF |
| JsonSpec.SkipWsSkipsOnlyWs | Json.java:127-136 | everything skipped is whitespace, and the end is reached exactly when only whitespace remains |
| JsonSpec.ValueAt | Json.java:138-165 | parseValue as a function of the text and the cursor; on success the cursor advances and stays within the text |
| JsonSpec.ObjectAt | Json.java:167-188 | parseObject; success advances the cursor |
| JsonSpec.MemberAt | Json.java:175-181 | one key, colon and value of parseObject's loop; success advances the cursor |
| JsonSpec.MembersAt | Json.java:175-187 | parseObject's loop from a member onwards; success advances the cursor |
| JsonSpec.MembersNext | Json.java:182-186 | the loop's tail after a member: '}' closes, a comma continues, anything else fails; success advances the cursor |
| JsonSpec.ArrayAt | Json.java:190-207 | parseArray; success advances the cursor |
| JsonSpec.ElementsAt | Json.java:198-206 | parseArray's loop from an element onwards; success advances the cursor |
| JsonSpec.ElementsNext | Json.java:201-205 | the loop's tail after an element: ']' closes, a comma continues, anything else fails; success advances the cursor |
| JsonSpec.PutSemantics | Json.java:181 | HashMap.put on the member list: the key gets the new value, other keys keep theirs, a new key is appended and an existing one keeps its place, keys stay distinct |
| JsonSpec.StringAt | Json.java:209-258 | parseString; success advances past the closing quote |
| JsonSpec.CharsAt | Json.java:214-257 | the loop of parseString; success advances the cursor |
| JsonSpec.UnicodeEscapeReads | Json.java:260-279 | \u needs four hex digits: it succeeds exactly when they are there, with their value, and fails at the first of them when fewer than four units remain |
| JsonSpec.HexQuadReads | Json.java:264-278 | the digit loop of parseUnicodeEscape succeeds exactly when the remaining units are hex digits, and computes their base-16 value |
| JsonSpec.BooleanAt | Json.java:281-291 | parseBoolean; success advances past the literal |
| JsonSpec.NullAt | Json.java:293-299 | parseNull; success advances past the literal |
| JsonSpec.DigitsEnd | Json.java:306-313 | a digit loop stops at the end or at the first non-digit |
| JsonSpec.DigitsEndDigits | Json.java:306-313 | everything a digit loop passes is a digit |
| JsonSpec.ScanNumber | Json.java:302-347 | the extent of a number: optional '-', integer digits, an optional fraction and an optional exponent, in that order, inside the text |
| JsonSpec.FractionAt | Json.java:315-326 | a fraction is '.' and what follows it, ending within the text |
| JsonSpec.ExponentAt | Json.java:327-347 | an exponent is 'e' or 'E', an optional sign and digits, ending within the text |
| JsonSpec.ParseLong | Json.java:353 | Long.parseLong: a value only within the 64-bit range |
| JsonSpec.BoxInteger | Json.java:353-357 | an integral number is an Integer exactly when it fits in 32 bits, else a Long with the same value |
| JsonSpec.NumberAt | Json.java:301-362 | parseNumber; success advances the cursor |
| JsonSpec.ParseJson | Json.java:10-21 | null input is an error; otherwise parsing succeeds exactly when one value is read and only whitespace follows it, and the result is that value; other trailing data is an error |
| JsonSpec.LowerHex | Json.java:106-107 | the lower-case digit that %04x writes reads back as its own value |
| JsonSpec.Digits | Json.java:40-43 | Long.toString of a non-negative number: non-empty digits whose decimal value is the number |
| JsonSpec.ItemTexts | Json.java:63-75 | the written items, one per element |
| JsonSpec.ItemTextsAt | Json.java:63-75 | item i is written as the serialisation of element i |
| JsonSpec.MemberTexts | Json.java:44-62 | the written members, one per map entry |
| JsonSpec.MemberTextsAt | Json.java:44-62 | entry i is written as its quoted key, a colon and its value's serialisation |
| JsonParser.Parser.constructor | Json.java:119-121 | the parser starts at position 0 of its text |
| JsonParser.Parser.SkipWhitespace | Json.java:127-136 | the cursor moves to SkipWs of where it was |
| JsonParser.Parser.Expect | Json.java:364-369 | expect succeeds exactly when the expected unit is at the cursor, then moves past it; otherwise the error names the unit and the position, and the cursor stays |
| JsonParser.Parser.TryConsume | Json.java:371-377 | tryConsume moves past the unit exactly when it is at the cursor |
| JsonParser.Parser.ParseValue | Json.java:138-165 | result and final cursor are ValueAt of the starting cursor |
| JsonParser.Parser.ParseObject | Json.java:167-188 | result and final cursor are ObjectAt of the starting cursor |
| JsonParser.Parser.ParseMembers | Json.java:175-187 | result and final cursor are MembersAt of the starting cursor, with no members yet |
| JsonParser.Parser.ParseMember | Json.java:176-181 | result and final cursor are MemberAt of the starting cursor |
| JsonParser.Parser.ParseArray | Json.java:190-207 | result and final cursor are ArrayAt of the starting cursor |
| JsonParser.Parser.ParseElements | Json.java:198-206 | result and final cursor are ElementsAt of the starting cursor, with no elements yet |
| JsonParser.Parser.ParseString | Json.java:209-258 | result and final cursor are StringAt of the starting cursor |
| JsonParser.Parser.ParseUnicodeEscape | Json.java:260-279 | result and final cursor are those of the four-hex-digit reading of the starting cursor |
| JsonParser.Parser.ParseBoolean | Json.java:281-291 | result and final cursor are BooleanAt of the starting cursor |
| JsonParser.Parser.ParseNull | Json.java:293-299 | result and final cursor are NullAt of the starting cursor |
| JsonParser.Parser.SkipDigits | Json.java:306-313 | the cursor moves to DigitsEnd |
| JsonParser.Parser.SkipFraction | Json.java:315-326 | the fraction found is FractionAt, and the cursor moves past it only when there is one |
| JsonParser.Parser.SkipExponent | Json.java:327-347 | the exponent found is ExponentAt, and the cursor moves past it only when there is one |
| JsonParser.Parser.ParseNumber | Json.java:301-362 | result and final cursor are NumberAt of the starting cursor |
| JsonParser.Parse | Json.java:10-21 | Json.parse returns exactly ParseJson of its input |
| JsonWriter.StringBuilder.constructor | Json.java:24 | an empty builder |
| JsonWriter.StringBuilder.Append | Json.java:29-78 | append adds the text at the end |
| JsonWriter.EscapedAppend | Json.java:80-113 | escaping is done unit by unit: the escape of a concatenation is the concatenation of the escapes |
| JsonWriter.WriteEscapedString | Json.java:80-113 | writeEscapedString appends exactly the escaped text |
| JsonWriter.WriteEscapedUnit | Json.java:83-111 | one case of the switch appends exactly that unit's escape |
| JsonWriter.WriteString | Json.java:34-39 | a string is written as its escaped text between quotes |
| JsonWriter.WriteValue | Json.java:29-78 | writeValue appends exactly Serialize of the value |
| JsonWriter.WriteObject | Json.java:44-62 | a map is written as '{', its members joined by commas, '}' |
| JsonWriter.WriteMemberAt | Json.java:49-58 | member i of the map is appended as its text |
| JsonWriter.WriteMember | Json.java:53-58 | a member is written as its quoted key, ':' and its value |
| JsonWriter.WriteArray | Json.java:63-75 | a list is written as '[', its items joined by commas, ']' |
| JsonWriter.WriteItemAt | Json.java:67-71 | item i of the list is appended as its text |
| JsonWriter.Stringify | Json.java:23-27 | stringify returns exactly Serialize of the value |
| JsonProperties.EscapeUnitPrintable | Json.java:83-111 | every unit's escape is non-empty and contains no control character |
| JsonProperties.EscapeUnitQuotes | Json.java:84-89 | only a quote's escape contains a quote (as \"), a backslash is written \\, and no other escape has a backslash after its first unit |
| JsonProperties.EscapedPrintable | Json.java:80-113 | escaped text has no control characters and is no shorter than the original |
| JsonProperties.HexNumberOfFour | Json.java:264-278 | four hex digits are worth d0*4096 + d1*256 + d2*16 + d3 |
| JsonProperties.EscapeUnitReads | Json.java:214-257 | the string loop reads one unit's escape back as that unit |
| JsonProperties.EscapedReads | Json.java:214-257 | the string loop reads escaped text back as the original text |
| JsonProperties.StringRoundTrip | Json.java:209-258 | parseString reads a written string back exactly, ending after its closing quote |
| JsonProperties.ParseStringifiedString | Json.java:10-39 | parse(stringify(s)) == s for every string |
| JsonProperties.UnterminatedStringRejected | Json.java:257 | a string with no closing quote and no backslash fails as unterminated |
| JsonProperties.UnterminatedEscapeRejected | Json.java:221-223 | a backslash as the last unit fails as an unterminated escape |
| JsonProperties.UnknownEscapeRejected | Json.java:253-254 | a backslash followed by anything other than a known escape or 'u' fails, naming that unit |
| JsonProperties.ShortUnicodeEscapeRejected | Json.java:261-263 | \u with fewer than four units left fails as an invalid unicode escape |
| JsonProperties.HexNumberCaseBlind | Json.java:264-278 | hex digits with the same values give the same number, whatever their case |
| JsonProperties.HexDigitCaseBlind | Json.java:264-278 | a-f and A-F are worth 10-15 alike |
| JsonProperties.UnicodeEscapeCaseBlind | Json.java:260-279 | a \u escape reads the same whatever the case of its hex digits |
| JsonRoundTrip.ParseLongDecimal | Json.java:353 | Long.parseLong(Long.toString(n)) is n within the 64-bit range and fails outside it |
| JsonRoundTrip.ScanDecimal | Json.java:302-314 | a written integer followed by a value end is scanned as its digits, with no fraction or exponent |
| JsonRoundTrip.NumberAtDecimal | Json.java:301-362 | a written integer reads back boxed by its width within the long range, and is an invalid number outside it |
| JsonRoundTrip.ParseStringifiedInteger | Json.java:10-21 | a whole text holding one integer parses to it, boxed by its width, or fails outside the long range |
| JsonRoundTrip.SerializeStart | Json.java:29-78 | written JSON starts with a unit that is not whitespace or a closing bracket, and with '{' exactly for a map |
| JsonRoundTrip.ValueRoundTrip | Json.java:138-165 | parseValue reads the text written for a well-formed value back as that value, ending after it |
| JsonRoundTrip.ArrayRoundTrip | Json.java:190-207 | parseArray reads a written list back exactly |
| JsonRoundTrip.ElementsRoundTrip | Json.java:198-206 | the array loop reads the rest of a written list back, from any element on |
| JsonRoundTrip.MemberRoundTrip | Json.java:176-181 | a written member reads back as its key and value |
| JsonRoundTrip.ObjectRoundTrip | Json.java:167-188 | parseObject reads a written map with distinct keys back exactly, in order |
| JsonRoundTrip.MembersRoundTrip | Json.java:175-187 | the object loop reads the rest of a written map back, from any member on |
| JsonRoundTrip.PutNext | Json.java:181 | with distinct keys, putting member k after the first k members just appends it |
| JsonRoundTrip.ParseStringified | Json.java:10-78 | parse(stringify(v)) == v for every well-formed value |
| JsonCases.SkipWsTo | Json.java:127-136 | skipWhitespace over a whitespace run stops at its first non-whitespace unit |
| JsonCases.ValueAfterBlank | Json.java:139 | whitespace before a value does not change what is read |
| JsonCases.WholeText | Json.java:10-21 | a value padded by whitespace on both sides is the whole parse |
| JsonCases.PaddedParse | Json.java:10-21 | parse accepts written JSON with leading and trailing spaces, tabs, CRs and LFs, and returns the value |
| JsonCases.LeadingFormFeedRejected | Json.java:127-164 | a form feed is not whitespace: a text starting with one fails at position 0 |
| JsonCases.TrailingFormFeedRejected | Json.java:16-19 | a form feed after a value is trailing data |
| JsonCases.EmptyObjectAt | Json.java:171-173 | '{', whitespace, '}' is the empty map |
| JsonCases.EmptyArrayAt | Json.java:194-196 | '[', whitespace, ']' is the empty list |
| JsonCases.ParseEmptyContainers | Json.java:167-207 | '{ }' and '[ ]' with any whitespace inside parse to the empty map and list |
| JsonCases.ElementsTrailingComma | Json.java:198-206 | after a comma in an array, ']' is an unexpected character |
| JsonCases.MembersTrailingComma | Json.java:175-187 | after a comma in an object, '}' fails where a key's quote was expected |
| JsonCases.ArrayTrailingCommaRejected | Json.java:198-206 | '[' v ',]' is rejected at the ']' |
| JsonCases.ObjectTrailingCommaRejected | Json.java:175-187 | '{' member ',}' is rejected at the '}' |
| JsonCases.SerializeReads | Json.java:138-165 | a well-formed value's text reads back as it wherever it stands before a value end |
| JsonCases.MemberAtText | Json.java:176-181 | a written member reads back as its key and value wherever it stands |
| JsonCases.DuplicateKeyReplaces | Json.java:181 | a repeated key replaces the earlier value in place: the map keeps its size and other keys |
| JsonCases.TwoMembers | Json.java:175-187 | an object of two members with the same key reads as one member with the second value |
| JsonCases.DuplicateKeyLastWins | Json.java:181 | '{"k":v1,"k":v2}' parses to a map holding only k with v2 |
| SimulatorCli.IndexOf | kitchen-simulator/src/main/java/com/kitchen/Main.java:340 | String.indexOf: -1 exactly when absent, else the first position of the character |
| SimulatorCli.ParseArgs | kitchen-simulator/src/main/java/com/kitchen/Main.java:331-350 | the parsed options are Options(args) |
| SimulatorCli.OptionsAppend | kitchen-simulator/src/main/java/com/kitchen/Main.java:333-349 | arguments are read left to right: options after a flag are read on top of the ones before it |
| SimulatorCli.InlineOption | kitchen-simulator/src/main/java/com/kitchen/Main.java:340-343 | --key=value sets key to value, overriding an earlier setting |
| SimulatorCli.SeparateOption | kitchen-simulator/src/main/java/com/kitchen/Main.java:344-346 | --key followed by a non-flag sets key to that argument |
| SimulatorCli.BareOption | kitchen-simulator/src/main/java/com/kitchen/Main.java:339-347 | --key followed by a flag or nothing sets key to "true" |
| SimulatorCli.SkipsNonFlag | kitchen-simulator/src/main/java/com/kitchen/Main.java:335-337 | an argument that does not start with -- is skipped |
| SimulatorCli.NoFlagsNoOptions | kitchen-simulator/src/main/java/com/kitchen/Main.java:331-350 | arguments without flags give no options |
| SimulatorCli.ToUpper | kitchen-simulator/src/main/java/com/kitchen/Main.java:423 | Character.toUpperCase on ASCII: no lower-case letter is left |
| SimulatorCli.ToEnvKey | kitchen-simulator/src/main/java/com/kitchen/Main.java:416-427 | the result is EnvKey(key) |
| SimulatorCli.EnvKeyShape | kitchen-simulator/src/main/java/com/kitchen/Main.java:416-427 | an environment key has no lower-case letter, and is one unit longer per upper-case letter of the key |
| SimulatorCli.EnvKeyInverse | kitchen-simulator/src/main/java/com/kitchen/Main.java:416-427 | for a key without '_', the key is recovered from its environment name: the mapping loses nothing |
| SimulatorCli.OrdersUrlEnvKey | kitchen-simulator/src/main/java/com/kitchen/Main.java:438 | ordersUrl is read from ORDERS_URL |
| SimulatorCli.Upper | kitchen-simulator/src/main/java/com/kitchen/Main.java:315 | toUpperCase unit by unit |
| SimulatorCli.TrimStart | kitchen-simulator/src/main/java/com/kitchen/Main.java:315 | trim's leading part removes, never adds |
| SimulatorCli.TrimEnd | kitchen-simulator/src/main/java/com/kitchen/Main.java:315 | trim's trailing part removes, never adds |
| SimulatorCli.TrimPadding | kitchen-simulator/src/main/java/com/kitchen/Main.java:315 | trim removes exactly the padding of units at or below ' ' on both sides |
| SimulatorCli.ParseTemperature | kitchen-simulator/src/main/java/com/kitchen/Main.java:311-329 | null is missing; otherwise the trimmed, upper-cased text names a temperature (AMBIENT for ROOM) exactly when parsing succeeds, else the error carries the original text |
| SimulatorCli.TemperatureNameRoundTrip | kitchen-simulator/src/main/java/com/kitchen/Main.java:311-329 | any temperature's name, and AMBIENT for ROOM, in any mix of case and with any padding, parses to that temperature |
| SimulatorCli.FirstNonNull | kitchen-simulator/src/main/java/com/kitchen/Main.java:275-282 | the value found is never null |
| SimulatorCli.FirstNonNullFirst | kitchen-simulator/src/main/java/com/kitchen/Main.java:275-282 | nothing is found exactly when no key has a non-null value; otherwise the value is that of the first key that has one |

## Left out

- The clock: `System.nanoTime()` and `Instant.now()` become a `now` parameter, fixed for the whole of one operation (the source reads the clock afresh inside loops).
- Concurrency: `synchronized`, locks and the simulator's order feeder and pickup threads are not modelled; every operation runs alone.
- Floating point: freshness, decay rates and multipliers are exact reals, so rounding of `double` arithmetic is not modelled.
- Shelf.ShelfManager.PollNextToExpire: the `PriorityQueue` is a multiset whose least element is chosen by the current estimate; the heap's internal order, and the fact that Java's comparator re-reads mutable state after insertion, are not modelled beyond the proved stability of the estimate under settlement.
- KitchenStorage.Storage.TryMoveShelfOrder: `HashMap` iteration order decides among shelf orders of equal freshness; the model allows any of them and states the least-freshness property only.
- Shelf.ShelfManager.AddOrder: `addOrder(null)` is modelled as a rejected call with no change rather than as an exception.
- RootKitchen.Kitchen.PlaceOrder: a null order returns an error value ("order cannot be null") instead of throwing.
- SimKitchen.Kitchen.PlaceOrder: a null order returns an error value ("order cannot be null") instead of throwing.
- KitchenStorage.RoundLog.Justified: a round states, of the orders it neither moves nor discards, only that they keep their index entry and their storage; the freshness the scans settle into them is not stated in the log, and the queue is recorded only through the discarded entry's estimate against the live entries left.
- KitchenStorage.Storage.Place: the `while (true)` loop that never ends once the shelf leaks is modelled as the `Spins` outcome rather than as non-termination.
- `tryMoveShelfOrder` with a null target is not modelled: no caller passes one.
- Shelf.ShelfManager.IsFull and Shelf.ShelfManager.Size are given by their definitions (map size against capacity, map size) and carry no contract of their own.
- Root `Main.java` (the HTTP challenge client) is not part of this model, nor are the simulator's own `ShelfManager` and `StoredOrder`.
- Simulator `Main.java`: `required`, `optional`, `getenv`, `printUsage`, the HTTP client, `run`, `main` and the JSON accessors `asString`, `asInt` and `asDouble` are not modelled; they are I/O, environment access or thin casts.
- SimulatorCli.ToEnvKey: case mapping is ASCII only; `Character.isUpperCase` and `toUpperCase` on other Unicode letters are not modelled.
- SimulatorCli.ParseTemperature: `trim` is modelled as removing characters at or below `' '` and `toUpperCase` as ASCII only.
- SimulatorCli.FirstNonNull: the map is a member list searched by `Lookup`, the first entry for a key winning.
- JsonSpec.Serialize: `Double` values are kept as their literal text; `Double.toString`, `Double.parseDouble` and their round trip are not modelled, so doubles are outside `WellFormed`.
- JsonSpec.NumberAt: a number with a fraction or an exponent is accepted when its mantissa and its exponent each have a digit, and is held as a `Dbl` of its text; its `double` value is not computed.
- JsonSpec.ParseLong: decimal digits only, as the scanner delivers them; other digit forms `Long.parseLong` would accept cannot reach it.
- JsonWriter.WriteValue: the exception for unsupported value types cannot arise, because `Value` holds only the supported kinds.
- JsonParser.Parser.ParseValue: on an error the cursor position is left unspecified; only the error value is stated.
- JsonParser.Parser.ParseValue: nesting depth is unbounded in the model; the `StackOverflowError` the recursive-descent parser raises on deeply nested input is not modelled.
- JsonRoundTrip.ParseStringified: the round trip is stated for well-formed values (integers boxed by width, distinct object keys, no doubles).
- Objects are member lists in first-appearance order; `HashMap`'s iteration order, and hence the member order `stringify` writes for a parsed map, is not modelled.
