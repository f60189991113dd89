/** The in-memory schedule store of src/lib/api.ts: the schedule, the key
    counter, the seed data, and the operations that read and change them.
    Every operation is a pure transition from a state to a `Step`: the next
    state and the operation's answer. */
module Store {
  import opened Wrappers
  import opened Types
  import opened EventKeys
  import opened Slots

  /** The store's two pieces of mutable state. `counter` is the number the
      next generated key will carry. */
  datatype State = State(schedule: Schedule, counter: nat)

  /** The state after an operation and what the operation returned. */
  datatype Step<T> = Step(state: State, out: T)

  // ---------------------------------------------------------------------
  // Static configuration

  const Hours: seq<string> := [
    "08:00", "09:00", "10:00", "11:00", "12:00", "13:00", "14:00",
    "15:00", "16:00", "17:00", "18:00", "19:00", "20:00"
  ]

  /** A number below 100 as two decimal digits, with a leading zero. */
  function TwoDigits(n: nat): string
    requires n < 100
  {
    [DigitChar(n / 10), DigitChar(n % 10)]
  }

  const Days: seq<string> := ["Luni", "Marti", "Miercuri", "Joi", "Vineri"]

  /** The grid's column headers: the hour column, then one per day. */
  function HeadersFor(days: seq<string>): (hs: seq<Header>)
    ensures |hs| == |days| + 1
    ensures hs[0] == Header("Ora", "header-hour")
    ensures forall i :: 0 <= i < |days| ==> hs[i + 1] == Header(days[i], "header-" + days[i])
  {
    [Header("Ora", "header-hour")] + seq(|days|, i requires 0 <= i < |days| => Header(days[i], "header-" + days[i]))
  }

  const Headers: seq<Header> := HeadersFor(Days)

  // ---------------------------------------------------------------------
  // Seed data: used both at start-up and by reset

  const Seed: Schedule := map[
    "08:00" := map[
      "Luni" := [Event("event-1", "PWA", "523", Course)],
      "Marti" := [Event("event-3", "PWA", "517", Lab)]
    ],
    "09:00" := map[
      "Luni" := [Event("event-2", "PSI", "520", Course)],
      "Marti" := [Event("event-4", "PSI", "513", Lab)]
    ],
    "10:00" := map[
      "Luni" := [Event("event-5", "Engleza", "523", Course)],
      "Marti" := [Event("event-6", "Engleza", "517", Lab)]
    ]
  ]

  /** The counter starts after the last seed key. */
  const SeedCounter: nat := 7

  function Init(): State {
    State(Seed, SeedCounter)
  }

  // ---------------------------------------------------------------------
  // Key uniqueness invariant

  /** No key occurs twice anywhere in the schedule: not within a slot and not
      in two different slots. */
  ghost predicate UniqueKeys(s: Schedule) {
    && (forall h, d :: DistinctKeys(Slot(s, h, d)))
    && (forall h1, d1, h2, d2 :: (h1 != h2 || d1 != d2) ==>
          KeysOf(Slot(s, h1, d1)) !! KeysOf(Slot(s, h2, d2)))
  }

  /** The key was generated from a counter value below `c`. */
  predicate IssuedBefore(key: string, c: nat) {
    KeySerial(key).Some? && KeySerial(key).value < c
  }

  /** Every key in the schedule was generated from a counter value below `c`. */
  ghost predicate NumberedBelow(s: Schedule, c: nat) {
    forall h, d, k :: k in KeysOf(Slot(s, h, d)) ==> IssuedBefore(k, c)
  }

  /** The key occurs in no slot. */
  ghost predicate Absent(s: Schedule, key: string) {
    forall h, d :: key !in KeysOf(Slot(s, h, d))
  }

  /** The store invariant: all keys are distinct and numbered below the
      counter, so the next generated key is fresh. */
  ghost predicate Inv(st: State) {
    UniqueKeys(st.schedule) && NumberedBelow(st.schedule, st.counter)
  }

  // ---------------------------------------------------------------------
  // Read operations

  /** The static hour, day and header lists. */
  function GetHours(): (r: seq<string>)
    ensures |r| == 13
    ensures forall i :: 0 <= i < |r| ==> r[i] == TwoDigits(8 + i) + ":00"
  {
    Hours
  }

  function GetDays(): (r: seq<string>)
    ensures |r| == 5 && r[0] == "Luni" && r[4] == "Vineri"
    ensures forall i, j :: 0 <= i < j < |r| ==> r[i] != r[j]
  {
    Days
  }

  function GetHeaders(): (r: seq<Header>)
    ensures |r| == |GetDays()| + 1
    ensures r[0] == Header("Ora", "header-hour")
    ensures forall i :: 0 <= i < |GetDays()| ==> r[i + 1] == Header(GetDays()[i], "header-" + GetDays()[i])
  {
    Headers
  }

  /** The whole schedule. The source hands out a shallow copy whose hour
      entries are the store's own objects; values here are immutable. */
  function GetScheduleData(st: State): (r: Schedule)
    ensures forall h, d :: SlotUnchanged(st.schedule, r, h, d)
  {
    st.schedule
  }

  /** The events of one slot; absent and empty read alike. */
  function GetEvents(st: State, hour: string, day: string): (r: seq<Event>)
    ensures !HasSlot(st.schedule, hour, day) ==> r == []
    ensures HasSlot(st.schedule, hour, day) ==> r == st.schedule[hour][day]
  {
    Slot(st.schedule, hour, day)
  }

  // ---------------------------------------------------------------------
  // Write operations

  /** Creates an event with a freshly generated key at the end of the slot,
      creating the hour and day entries when absent. Never fails. */
  function AddEvent(st: State, hour: string, day: string, data: EventData): (r: Step<Event>)
    ensures r.out == WithKey(data, EventKey(st.counter))
    ensures r.state.counter == st.counter + 1
    ensures HasSlot(r.state.schedule, hour, day)
    ensures Slot(r.state.schedule, hour, day) == Slot(st.schedule, hour, day) + [r.out]
    ensures SameElsewhere(st.schedule, r.state.schedule, hour, day)
  {
    var e := WithKey(data, EventKey(st.counter));
    var s := SetSlot(st.schedule, hour, day, Slot(st.schedule, hour, day) + [e]);
    Step(State(s, st.counter + 1), e)
  }

  /** Replaces label, room and type of the first event with the key, in
      place. None when the slot is absent or lacks the key. */
  function UpdateEvent(st: State, hour: string, day: string, key: string, data: EventData): (r: Step<Option<Event>>)
    ensures r.out.None? <==> key !in KeysOf(Slot(st.schedule, hour, day))
    ensures r.out.None? ==> r.state == st
    ensures r.out.Some? ==>
      && r.out.value == WithKey(data, key)
      && r.state.counter == st.counter
      && HasSlot(r.state.schedule, hour, day)
      && SameElsewhere(st.schedule, r.state.schedule, hour, day)
      && exists i :: FirstWithKey(Slot(st.schedule, hour, day), key, i)
           && Slot(r.state.schedule, hour, day) == Slot(st.schedule, hour, day)[i := r.out.value]
  {
    if !HasSlot(st.schedule, hour, day) then Step(st, None)
    else
      var v := st.schedule[hour][day];
      match FindIndex(v, key)
      case None => Step(st, None)
      case Some(i) =>
        var e := WithKey(data, key);
        Step(State(SetSlot(st.schedule, hour, day, v[i := e]), st.counter), Some(e))
  }

  /** Removes every event with the key from the source slot and appends the
      first of them to the destination slot, creating it when absent. None
      when the source slot is absent or lacks the key. */
  function MoveEvent(st: State, fromHour: string, fromDay: string, toHour: string, toDay: string, key: string)
    : (r: Step<Option<Event>>)
    ensures r.out.None? <==> key !in KeysOf(Slot(st.schedule, fromHour, fromDay))
    ensures r.out.None? ==> r.state == st
    ensures r.out.Some? ==>
      && (exists i :: FirstWithKey(Slot(st.schedule, fromHour, fromDay), key, i)
            && r.out.value == Slot(st.schedule, fromHour, fromDay)[i])
      && r.state.counter == st.counter
      && HasSlot(r.state.schedule, fromHour, fromDay)
      && HasSlot(r.state.schedule, toHour, toDay)
      && (forall h, d :: (h != fromHour || d != fromDay) && (h != toHour || d != toDay) ==>
            SlotUnchanged(st.schedule, r.state.schedule, h, d))
    ensures r.out.Some? && (fromHour != toHour || fromDay != toDay) ==>
      && Slot(r.state.schedule, fromHour, fromDay) == RemoveKey(Slot(st.schedule, fromHour, fromDay), key)
      && Slot(r.state.schedule, toHour, toDay) == Slot(st.schedule, toHour, toDay) + [r.out.value]
    ensures r.out.Some? && fromHour == toHour && fromDay == toDay ==>
      var w := Slot(r.state.schedule, toHour, toDay);
      && |w| > 0 && w[|w| - 1] == r.out.value
      && w[..|w| - 1] == RemoveKey(Slot(st.schedule, fromHour, fromDay), key)
  {
    if !HasSlot(st.schedule, fromHour, fromDay) then Step(st, None)
    else
      var v := st.schedule[fromHour][fromDay];
      match FindIndex(v, key)
      case None => Step(st, None)
      case Some(i) =>
        var e := v[i];
        var s1 := SetSlot(st.schedule, fromHour, fromDay, RemoveKey(v, key));
        var w := Slot(s1, toHour, toDay) + [e];
        assert w[..|w| - 1] == Slot(s1, toHour, toDay);
        SetSlotTwice(st.schedule, fromHour, fromDay, RemoveKey(v, key), toHour, toDay, w);
        var s2 := SetSlot(s1, toHour, toDay, w);
        Step(State(s2, st.counter), Some(e))
  }

  /** Removes every event with the key from the slot. True exactly when
      something was removed. */
  function DeleteEvent(st: State, hour: string, day: string, key: string): (r: Step<bool>)
    ensures r.out <==> key in KeysOf(Slot(st.schedule, hour, day))
    ensures !r.out ==> r.state == st
    ensures r.out ==>
      && r.state.counter == st.counter
      && HasSlot(r.state.schedule, hour, day)
      && SameElsewhere(st.schedule, r.state.schedule, hour, day)
      && Slot(r.state.schedule, hour, day) == RemoveKey(Slot(st.schedule, hour, day), key)
      && forall e :: multiset(Slot(r.state.schedule, hour, day))[e] ==
           if e.key == key then 0 else multiset(Slot(st.schedule, hour, day))[e]
  {
    if !HasSlot(st.schedule, hour, day) then Step(st, false)
    else
      var v := st.schedule[hour][day];
      var w := RemoveKey(v, key);
      RemoveKeyMultiset(v, key);
      SetSlotSame(st.schedule, hour, day);
      Step(State(SetSlot(st.schedule, hour, day, w), st.counter), |v| > |w|)
  }

  /** Empties an existing slot. False exactly when the slot is absent; an
      existing empty slot is cleared again and answers true. */
  function ClearEvents(st: State, hour: string, day: string): (r: Step<bool>)
    ensures r.out <==> HasSlot(st.schedule, hour, day)
    ensures !r.out ==> r.state == st
    ensures r.out ==>
      && r.state.counter == st.counter
      && HasSlot(r.state.schedule, hour, day)
      && Slot(r.state.schedule, hour, day) == []
      && SameElsewhere(st.schedule, r.state.schedule, hour, day)
  {
    if !HasSlot(st.schedule, hour, day) then Step(st, false)
    else Step(State(SetSlot(st.schedule, hour, day, []), st.counter), true)
  }

  /** Restores the seed schedule and the seed counter. */
  function Reset(st: State): (r: State)
    ensures r.counter == 7
    ensures r.schedule == Seed
  {
    Init()
  }
}
