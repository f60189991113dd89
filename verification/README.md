# Weekly schedule store — a Dafny model

This project models the in-memory schedule store of a weekly class-schedule
editor (`src/lib/api.ts`). The store holds a two-level map from hour label to
day label to an ordered list of events, plus a counter that generates event
keys `"event-" + n`. Seven operations read or change this state. They are the
slot read, add, update, move, delete, clear and reset. Each is modelled as a
pure transition from a `State` to a `Step`, which holds the next state and
the operation's answer. `null` becomes `None` and the boolean answers stay
booleans.

Files:

- `wrappers.dfy`: `Option`, the sentinel result.
- `types.dfy`: `Event`, `EventData` (an event without its key), `Header`, `Schedule` (from `src/types.ts`).
- `event_keys.dfy`: decimal formatting of the counter, a parser that inverts it, injectivity of key generation.
- `slots.dfy`: slot presence versus slot contents, slot assignment, `findIndex` and `filter` on a slot.
- `totals.dfy`: the number of events in a schedule. This is a proof device, not part of the source.
- `store.dfy`: state, seed data, static configuration and the operations.
- `properties.dfy`: the key-uniqueness invariant and how each operation preserves it, event counts, moves, clears and reset.
- `trace.dfy`: arbitrary sequences of operations, and keys generated between resets.
- `scenarios.dfy`: concrete runs from the start-up state.

The store invariant `Store.Inv` says two things. No key occurs twice anywhere
in the schedule. Every key has the shape `"event-<decimal>"` with a number
below the counter. The seed satisfies it because the counter starts at 7 and
the seed keys are `event-1` to `event-6`. Every operation preserves it, so
every key the store generates occurs nowhere in the store at that moment.

Two points of JavaScript semantics are modelled explicitly:

- **Existing but empty differs from absent.** An empty array is truthy. So update, move, delete and clear treat an existing empty slot as present: `HasSlot` holds even though `Slot` is `[]`. Only the read path treats absent and empty alike.
- **Removal drops every match.** Removal uses `filter`, which drops every event with the key, not only the first one.

A move within one slot does not keep the slot's order. The code removes the
event and appends it again, so it ends up last
(`Scenarios.MoveWithinSlotReorders`). The slot's length and its multiset of
events stay the same (`StoreProperties.MoveWithinSlot`).

A generated key need not be new over the store's whole history. A reset puts
the counter back to 7 and drops the events added since start-up, so an add, a reset and another add
hand out `event-7` twice (`Trace.KeysRepeatAcrossReset`). This is why
`Trace.GeneratedKeysDistinct` speaks of runs without a reset. The counter never
falls below 7, so a generated key never repeats a seed key
(`Trace.NextKeyIsNotSeedKey`).

## Model

| member | source | states |
|---|---|---|
| `EventKeys.EventKey` | src/lib/api.ts:93 | the key is `"event-"` followed by a non-empty string of decimal digits |
| `EventKeys.Decimal` | src/lib/api.ts:93 | the counter's rendering in the key is a non-empty string of decimal digits with no leading zero |
| `EventKeys.ParseDecimalOfDecimal` | src/lib/api.ts:93 | reading the digits back gives the counter value: the rendering loses nothing |
| `EventKeys.KeySerialOfEventKey` | src/lib/api.ts:92-93 | the counter value a generated key came from can be recovered from the key |
| `EventKeys.EventKeyInjective` | src/lib/api.ts:92-93 | two counter values give the same key exactly when they are equal |
| `EventKeys.SeedKeysAreGenerated` | src/lib/api.ts:34-92 | the seed keys `event-1`..`event-6` are the keys of counter values 1..6, and counter 7 gives `event-7` |
| `Slots.SetSlotTwice` | src/lib/api.ts:209-221 | assigning the source slot and then the destination slot leaves the destination holding its list, the source holding its own unless the two coincide, and every other slot unchanged |
| `Slots.SetSlot` | src/lib/api.ts:133-140 | assigning a slot creates the hour and day entries when absent; afterwards the slot exists and holds the list; every other slot is unchanged |
| `Slots.FindIndex` | src/lib/api.ts:165-171 | the answer is None exactly when no event has the key; otherwise it is the first index whose event has the key |
| `Slots.RemoveKey` | src/lib/api.ts:242-244 | the result holds exactly the events without the key; it equals the input when the key is absent and is strictly shorter when the key is present |
| `Slots.RemoveKeyMultiset` | src/lib/api.ts:209-211 | filtering removes every occurrence of every event with the key and keeps every other event as often as before |
| `Slots.RemoveKeyRemovesOne` | src/lib/api.ts:240-246 | when keys are distinct, filtering a key that occurs removes exactly one event |
| `Slots.RemoveKeyDistinct` | src/lib/api.ts:242-244 | filtering keeps a list's keys distinct |
| `Store.HeadersFor` | src/lib/api.ts:22-31 | the headers are the hour column `Ora`/`header-hour` followed by one header per day, labelled by the day and keyed `header-<day>` |
| `Store.GetHours` | src/lib/api.ts:4-18 | thirteen hour labels; label `i` is the hour `8 + i` written with two digits and `:00`, so `08:00` to `20:00` in order |
| `Store.GetDays` | src/lib/api.ts:20 | five distinct day labels, from `Luni` to `Vineri` |
| `Store.GetHeaders` | src/lib/api.ts:107-110 | one header more than there are days; the first is the hour column `Ora` with key `header-hour`, and the others carry the day labels in order, each with key `header-` followed by the day |
| `Store.GetScheduleData` | src/lib/api.ts:112-115 | the snapshot answers every slot-presence and slot-read question exactly as the store does |
| `Store.GetEvents` | src/lib/api.ts:117-123 | an absent hour or day reads as the empty list; an existing slot reads as exactly its stored list |
| `Store.AddEvent` | src/lib/api.ts:126-150 | the new event carries the key of the current counter and the given label, room and type; it is appended to the end of the slot, which is created when absent; the counter goes up by one; every other slot is unchanged |
| `Store.UpdateEvent` | src/lib/api.ts:153-181 | None exactly when the slot lacks the key (an absent slot lacks every key), and then the state is unchanged; on success the first event with the key is replaced in place by the key with the new data, and the counter and every other slot are unchanged |
| `Store.MoveEvent` | src/lib/api.ts:184-226 | None exactly when the source slot lacks the key, and then the state is unchanged; on success the answer is the first event with the key; the source slot then holds exactly the filtered list, without every event with the key, and the destination is created when absent and gains the moved event at its end; within one slot the list is the filtered list followed by the moved event; the counter and every other slot are unchanged |
| `Store.DeleteEvent` | src/lib/api.ts:229-247 | true exactly when the key occurs in the slot, so false for an absent slot; on false the state is unchanged; on true the slot holds exactly the filtered list (every event with the key gone, the others in their original order, which `filter` keeps), each other event remains as often as before, the slot still exists, and nothing else changes |
| `Store.ClearEvents` | src/lib/api.ts:250-262 | true exactly when the slot exists, including an existing empty slot; it then leaves the slot existing and empty with nothing else changed; on false the state is unchanged |
| `Store.Reset` | src/lib/api.ts:265-328 | whatever the input state, the result is the seed schedule with counter 7 |
| `StoreProperties.SeedSlotShape` | src/lib/api.ts:34-89 | every seed slot is empty or holds the single event keyed by its seed number |
| `StoreProperties.InitSatisfiesInv` | src/lib/api.ts:34-92 | the start-up state has distinct keys, all numbered below the counter 7 |
| `StoreProperties.CounterKeyIsFresh` | src/lib/api.ts:92-93 | when all keys are numbered below the counter, the key generated from the counter occurs in no slot |
| `StoreProperties.AddKeyIsFresh` | src/lib/api.ts:142-145 | in a valid state the key an add generates occurs nowhere in the store |
| `StoreProperties.AddPreservesInv` | src/lib/api.ts:126-150 | add keeps keys distinct and numbered below the counter |
| `StoreProperties.UpdatePreservesInv` | src/lib/api.ts:161-180 | update keeps keys distinct and numbered below the counter |
| `StoreProperties.UpdateLeavesOneVersion` | src/lib/api.ts:173-178 | after a successful update, in a valid state, the updated event is the only event with that key anywhere in the store |
| `StoreProperties.FilteredKeyAbsent` | src/lib/api.ts:209-213 | with unique keys, filtering a key out of the slot that holds it leaves that key nowhere in the store, so the moved event can be appended anywhere without a clash |
| `StoreProperties.MovePreservesInv` | src/lib/api.ts:193-225 | move keeps keys distinct and numbered below the counter |
| `StoreProperties.DeletePreservesInv` | src/lib/api.ts:236-246 | delete keeps keys distinct and numbered below the counter |
| `StoreProperties.ClearPreservesInv` | src/lib/api.ts:256-261 | clear keeps keys distinct and numbered below the counter |
| `StoreProperties.ShrinkSlot` | src/lib/api.ts:242-244 | replacing a slot by a list with distinct keys, all of which it already held, keeps the invariant |
| `StoreProperties.GrowSlot` | src/lib/api.ts:147 | appending an event whose key occurs nowhere and was issued below the counter keeps the invariant |
| `StoreProperties.AddCount` | src/lib/api.ts:147 | add increases the number of events in the store by one |
| `StoreProperties.UpdateCount` | src/lib/api.ts:178 | update leaves the number of events unchanged |
| `StoreProperties.MoveCount` | src/lib/api.ts:209-223 | in a valid state a move leaves the number of events in the store unchanged |
| `StoreProperties.DeleteCount` | src/lib/api.ts:240-246 | in a valid state a delete that answers true removes exactly one event, and one that answers false removes none |
| `StoreProperties.ClearCount` | src/lib/api.ts:260 | clear reduces the number of events by the number the slot read returned |
| `StoreProperties.RemoveAndAppend` | src/lib/api.ts:209-223 | with distinct keys, removing an event by its key and appending it again gives a list of the same length with the same events, as often as before |
| `StoreProperties.OnlyEventWithKey` | src/lib/api.ts:165-167 | with distinct keys, the event found at an index occurs exactly once and no other event shares its key |
| `StoreProperties.MoveWithinSlot` | src/lib/api.ts:206-223 | in a valid state, moving an event within its own slot succeeds; it keeps the slot's length and events, duplicating or losing none; the moved event becomes last |
| `StoreProperties.MoveDropsDuplicates` | src/lib/api.ts:209-211 | in a two-event slot whose events share a key, which breaks the invariant, a move within the slot keeps only the first event |
| `StoreProperties.ClearIdempotent` | src/lib/api.ts:256-261 | clearing twice gives the state of clearing once, and the second clear answers as the first did, true even though the slot is already empty |
| `StoreProperties.EmptyIsNotAbsent` | src/lib/api.ts:122 | an existing empty slot and an absent slot read alike as the empty list, but clear answers true for the first and false for the second |
| `StoreProperties.ResetForgetsHistory` | src/lib/api.ts:265-328 | any two states reset to the same state; it satisfies the invariant, holds six events, and the next add generates `event-7` |
| `StoreProperties.SeedCount` | src/lib/api.ts:34-89 | the seed holds six events |
| `Trace.ApplyPreservesInv` | src/lib/api.ts:126-328 | every changing operation keeps keys distinct and numbered below the counter |
| `Trace.RunPreservesInv` | src/lib/api.ts:126-328 | every sequence of operations from a valid state ends in a valid state |
| `Trace.ReachableStatesAreValid` | src/lib/api.ts:34-93 | every state reachable from start-up is valid, and the key of the next add occurs nowhere in it |
| `Trace.GeneratedAreConsecutive` | src/lib/api.ts:92-93 | between resets, the adds of a run get the keys of consecutive counter values starting at the counter, and the counter ends past them |
| `Trace.GeneratedStep` | src/lib/api.ts:92-93 | short of a reset, one operation of a run hands out the key of the current counter and moves the counter up by one when it is an add, and hands out nothing and leaves the counter alone otherwise |
| `Trace.ConsecutiveCons` | src/lib/api.ts:92-93 | putting the key of counter value c in front of the keys of consecutive values from c + 1 gives the keys of consecutive values from c |
| `Trace.GeneratedKeysDistinct` | src/lib/api.ts:92-93 | between resets, no two adds get the same key |
| `Trace.CounterNeverBelowSeed` | src/lib/api.ts:92-93 | from a counter of at least 7, no sequence of operations takes the counter below 7: adds raise it and a reset sets it to 7 |
| `Trace.NextKeyIsNotSeedKey` | src/lib/api.ts:92-93 | in every state reachable from start-up, the key the next add generates is none of the seed keys `event-1`..`event-6` |
| `Trace.KeysRepeatAcrossReset` | src/lib/api.ts:264-327 | an add, a reset and another add from start-up hand out `event-7` twice: a reset restores the counter but not the freshness of keys already handed out |
| `Scenarios.FirstAddScenario` | src/lib/api.ts:126-150 | the first add after start-up, into the absent slot `11:00`/`Joi`, returns `event-7` with the given data, and the slot then reads as that one event |
| `Scenarios.UpdateSeedScenario` | src/lib/api.ts:153-181 | updating `event-1` keeps its key and position, and no event with that key still has the old type |
| `Scenarios.UpdateMissingScenario` | src/lib/api.ts:165-171 | updating a key the slot lacks answers None and changes nothing |
| `Scenarios.DeleteThenClearScenario` | src/lib/api.ts:236-261 | deleting a slot's only event leaves it existing and empty: a second delete answers false, and clear still answers true |
| `Scenarios.MoveWithinSlotReorders` | src/lib/api.ts:209-223 | moving the first of two events within its slot puts it after the other one |
| `Scenarios.MoveFrontBehind` | src/lib/api.ts:193-225 | in any slot of two differently keyed events, moving the first to its own slot leaves the two in swapped order |

## Left out

- Simulated latency: every `setTimeout` delay and the `Promise` wrapping. Each operation is one atomic synchronous step, as it is under the single-threaded event loop.
- Aliasing through returned objects: every copy the source makes is shallow. `getScheduleData` (src/lib/api.ts:114) returns a new outer object whose hour entries are the store's own objects. `getEventsForHourAndDay` (src/lib/api.ts:122) returns a new array holding the stored event objects. `addEvent`, `updateEvent` and `moveEvent` return the very object they just stored (src/lib/api.ts:147-149, 178-180, 223-225). A caller that writes through such a result changes the store; rewriting a returned event's `key` can break key uniqueness. The model uses immutable values, so it leaves this out. `Store.Inv` and the `Trace` lemmas hold only for callers that never write through returned objects. `getHours`, `getDays` and `getHeaders` (src/lib/api.ts:99, 104, 109) return the module's own arrays with no copy at all, so a caller that writes to one changes every later answer; the contracts of `Store.GetHours`, `Store.GetDays` and `Store.GetHeaders` hold only for callers that never do.
- Prototype-chain keys: the JavaScript object lookup `scheduleData[hour]?.[day]` also finds inherited properties such as `toString`. The model treats hour and day labels as plain map keys.
- Number precision: the counter is a JavaScript number and stops being exact above 2^53. The model's counter is an unbounded `nat`.
- Extra fields in caller data: `addEvent` and `updateEvent` spread whatever object they receive. The model takes exactly label, room and type (`EventData`), as the TypeScript type says.
- Invalid `type` values: input outside the five literals is a caller error in the source and cannot be expressed in the model.
- The UI: the React components (`src/App.tsx`, `src/components/*`), including the render-only copy of the seed in `schedule-view.tsx` and drag-and-drop through a third-party library.
- Totals.Total: the event count is a proof device with no counterpart in the source.
- Slots.RemoveKey: its contract states membership, multiplicity (`Slots.RemoveKeyMultiset`) and lengths, but not that the kept events keep their relative order, although the definition keeps it.
- Store.GetDays: the contract names the first and last labels and says the labels are distinct. It does not name the three middle labels.
