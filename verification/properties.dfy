/** Properties of the store operations: each preserves the key uniqueness
    invariant, each changes the number of events as expected, and moves,
    clears and resets behave as the store promises. */
module StoreProperties {
  import opened Wrappers
  import opened Types
  import opened EventKeys
  import opened Slots
  import opened Totals
  import opened Store

  // ---------------------------------------------------------------------
  // Building blocks: replacing one slot

  lemma NumberedBelowMonotone(s: Schedule, c: nat, c': nat)
    requires NumberedBelow(s, c) && c <= c'
    ensures NumberedBelow(s, c')
  {
    forall h, d, k | k in KeysOf(Slot(s, h, d)) ensures IssuedBefore(k, c') {
      assert IssuedBefore(k, c);
    }
  }

  /** Every key in the store is below the counter, so the key generated from
      the counter occurs nowhere. */
  lemma CounterKeyIsFresh(s: Schedule, c: nat)
    requires NumberedBelow(s, c)
    ensures Absent(s, EventKey(c))
  {
    KeySerialOfEventKey(c);
    forall h, d ensures EventKey(c) !in KeysOf(Slot(s, h, d)) {
      assert !IssuedBefore(EventKey(c), c);
    }
  }

  /** Replacing a slot by a list with distinct keys, all of which the slot
      already held, keeps the invariant. */
  lemma ShrinkSlot(s: Schedule, c: nat, hour: string, day: string, v: seq<Event>)
    requires UniqueKeys(s) && NumberedBelow(s, c)
    requires DistinctKeys(v) && KeysOf(v) <= KeysOf(Slot(s, hour, day))
    ensures UniqueKeys(SetSlot(s, hour, day, v)) && NumberedBelow(SetSlot(s, hour, day, v), c)
  {
    var t := SetSlot(s, hour, day, v);
    forall h, d ensures DistinctKeys(Slot(t, h, d)) && KeysOf(Slot(t, h, d)) <= KeysOf(Slot(s, h, d)) {
      if h != hour || d != day {
        assert SlotUnchanged(s, t, h, d);
      }
    }
    forall h1, d1, h2, d2 | h1 != h2 || d1 != d2
      ensures KeysOf(Slot(t, h1, d1)) !! KeysOf(Slot(t, h2, d2))
    {
      assert KeysOf(Slot(s, h1, d1)) !! KeysOf(Slot(s, h2, d2));
    }
    forall h, d, k | k in KeysOf(Slot(t, h, d)) ensures IssuedBefore(k, c) {
      assert k in KeysOf(Slot(s, h, d));
    }
  }

  /** Appending an event whose key occurs nowhere and was issued below the
      counter keeps the invariant. */
  lemma GrowSlot(s: Schedule, c: nat, hour: string, day: string, e: Event)
    requires UniqueKeys(s) && NumberedBelow(s, c)
    requires Absent(s, e.key) && IssuedBefore(e.key, c)
    ensures var t := SetSlot(s, hour, day, Slot(s, hour, day) + [e]);
      UniqueKeys(t) && NumberedBelow(t, c)
  {
    var before := Slot(s, hour, day);
    var t := SetSlot(s, hour, day, before + [e]);
    KeysOfAppend(before, e);
    DistinctKeysAppend(before, e);
    forall h, d ensures
      && DistinctKeys(Slot(t, h, d))
      && KeysOf(Slot(t, h, d)) == KeysOf(Slot(s, h, d)) + (if h == hour && d == day then {e.key} else {})
    {
      if h != hour || d != day {
        assert SlotUnchanged(s, t, h, d);
      }
    }
    forall h1, d1, h2, d2 | h1 != h2 || d1 != d2
      ensures KeysOf(Slot(t, h1, d1)) !! KeysOf(Slot(t, h2, d2))
    {
      assert KeysOf(Slot(s, h1, d1)) !! KeysOf(Slot(s, h2, d2));
      assert e.key !in KeysOf(Slot(s, h1, d1)) && e.key !in KeysOf(Slot(s, h2, d2));
    }
    forall h, d, k | k in KeysOf(Slot(t, h, d)) ensures IssuedBefore(k, c) {
      assert k == e.key || k in KeysOf(Slot(s, h, d));
    }
  }

  // ---------------------------------------------------------------------
  // The invariant holds initially and after every operation

  /** The counter value of the seed event at (h, d), or 0 where the seed has
      no event. */
  function SeedSerial(h: string, d: string): nat {
    if h == "08:00" && d == "Luni" then 1
    else if h == "09:00" && d == "Luni" then 2
    else if h == "08:00" && d == "Marti" then 3
    else if h == "09:00" && d == "Marti" then 4
    else if h == "10:00" && d == "Luni" then 5
    else if h == "10:00" && d == "Marti" then 6
    else 0
  }

  /** Every seed slot holds at most one event, keyed by its serial. */
  lemma SeedSlotShape(h: string, d: string)
    ensures SeedSerial(h, d) == 0 ==> Slot(Seed, h, d) == []
    ensures SeedSerial(h, d) != 0 ==> |Slot(Seed, h, d)| == 1
    ensures KeysOf(Slot(Seed, h, d)) == if SeedSerial(h, d) == 0 then {} else {EventKey(SeedSerial(h, d))}
  {
    SeedKeysAreGenerated();
    var v := Slot(Seed, h, d);
    if SeedSerial(h, d) != 0 {
      assert v == [v[0]];
    }
  }

  lemma SeedSerialInjective(h1: string, d1: string, h2: string, d2: string)
    requires SeedSerial(h1, d1) != 0 && SeedSerial(h1, d1) == SeedSerial(h2, d2)
    ensures h1 == h2 && d1 == d2
  {
  }

  lemma InitSatisfiesInv()
    ensures Inv(Init())
  {
    forall h, d ensures DistinctKeys(Slot(Seed, h, d)) {
      SeedSlotShape(h, d);
    }
    forall h, d, k | k in KeysOf(Slot(Seed, h, d)) ensures IssuedBefore(k, SeedCounter) {
      SeedSlotShape(h, d);
      KeySerialOfEventKey(SeedSerial(h, d));
    }
    forall h1, d1, h2, d2 | h1 != h2 || d1 != d2
      ensures KeysOf(Slot(Seed, h1, d1)) !! KeysOf(Slot(Seed, h2, d2))
    {
      SeedSlotShape(h1, d1);
      SeedSlotShape(h2, d2);
      if SeedSerial(h1, d1) != 0 && SeedSerial(h2, d2) != 0 {
        if SeedSerial(h1, d1) == SeedSerial(h2, d2) {
          SeedSerialInjective(h1, d1, h2, d2);
        }
        EventKeyInjective(SeedSerial(h1, d1), SeedSerial(h2, d2));
      }
    }
  }

  lemma AddPreservesInv(st: State, hour: string, day: string, data: EventData)
    requires Inv(st)
    ensures Inv(AddEvent(st, hour, day, data).state)
  {
    var e := WithKey(data, EventKey(st.counter));
    CounterKeyIsFresh(st.schedule, st.counter);
    KeySerialOfEventKey(st.counter);
    NumberedBelowMonotone(st.schedule, st.counter, st.counter + 1);
    assert IssuedBefore(e.key, st.counter + 1);
    GrowSlot(st.schedule, st.counter + 1, hour, day, e);
    assert AddEvent(st, hour, day, data).state
      == State(SetSlot(st.schedule, hour, day, Slot(st.schedule, hour, day) + [e]), st.counter + 1);
  }

  /** The key an add generates occurs nowhere in the store before the add. */
  lemma AddKeyIsFresh(st: State, hour: string, day: string, data: EventData)
    requires Inv(st)
    ensures Absent(st.schedule, AddEvent(st, hour, day, data).out.key)
  {
    CounterKeyIsFresh(st.schedule, st.counter);
  }

  lemma UpdatePreservesInv(st: State, hour: string, day: string, key: string, data: EventData)
    requires Inv(st)
    ensures Inv(UpdateEvent(st, hour, day, key, data).state)
  {
    if HasSlot(st.schedule, hour, day) {
      var v := st.schedule[hour][day];
      match FindIndex(v, key)
      case None =>
      case Some(i) =>
        var e := WithKey(data, key);
        KeysOfReplace(v, i, e);
        assert Slot(st.schedule, hour, day) == v;
        var w := v[i := e];
        assert DistinctKeys(w) by {
          forall a, b | 0 <= a < b < |w| ensures w[a].key != w[b].key {
            assert w[a].key == v[a].key && w[b].key == v[b].key;
          }
        }
        ShrinkSlot(st.schedule, st.counter, hour, day, w);
    }
  }

  /** With unique keys, filtering a key out of the one slot that holds it
      leaves the key nowhere in the store. */
  lemma FilteredKeyAbsent(s: Schedule, hour: string, day: string, key: string)
    requires UniqueKeys(s) && HasSlot(s, hour, day) && key in KeysOf(s[hour][day])
    ensures Absent(SetSlot(s, hour, day, RemoveKey(s[hour][day], key)), key)
  {
    var v := s[hour][day];
    var t := SetSlot(s, hour, day, RemoveKey(v, key));
    RemoveKeyKeys(v, key);
    forall h, d ensures key !in KeysOf(Slot(t, h, d)) {
      if h != hour || d != day {
        assert KeysOf(Slot(s, hour, day)) !! KeysOf(Slot(s, h, d));
      }
    }
  }

  lemma MovePreservesInv(st: State, fromHour: string, fromDay: string, toHour: string, toDay: string, key: string)
    requires Inv(st)
    ensures Inv(MoveEvent(st, fromHour, fromDay, toHour, toDay, key).state)
  {
    var s := st.schedule;
    if HasSlot(s, fromHour, fromDay) {
      var v := s[fromHour][fromDay];
      assert Slot(s, fromHour, fromDay) == v;
      match FindIndex(v, key)
      case None =>
      case Some(i) =>
        var e := v[i];
        var rest := RemoveKey(v, key);
        RemoveKeyDistinct(v, key);
        RemoveKeyKeys(v, key);
        ShrinkSlot(s, st.counter, fromHour, fromDay, rest);
        var s1 := SetSlot(s, fromHour, fromDay, rest);
        FilteredKeyAbsent(s, fromHour, fromDay, key);
        assert IssuedBefore(key, st.counter) by {
          assert key in KeysOf(Slot(s, fromHour, fromDay));
        }
        GrowSlot(s1, st.counter, toHour, toDay, e);
    }
  }

  lemma DeletePreservesInv(st: State, hour: string, day: string, key: string)
    requires Inv(st)
    ensures Inv(DeleteEvent(st, hour, day, key).state)
  {
    if HasSlot(st.schedule, hour, day) {
      var v := st.schedule[hour][day];
      assert Slot(st.schedule, hour, day) == v;
      RemoveKeyDistinct(v, key);
      RemoveKeyKeys(v, key);
      ShrinkSlot(st.schedule, st.counter, hour, day, RemoveKey(v, key));
    }
  }

  lemma ClearPreservesInv(st: State, hour: string, day: string)
    requires Inv(st)
    ensures Inv(ClearEvents(st, hour, day).state)
  {
    if HasSlot(st.schedule, hour, day) {
      ShrinkSlot(st.schedule, st.counter, hour, day, []);
    }
  }

  /** After a successful update the store holds exactly one event with the
      key, and it is the updated one: no old version survives anywhere. */
  lemma UpdateLeavesOneVersion(st: State, hour: string, day: string, key: string, data: EventData)
    requires Inv(st)
    ensures var r := UpdateEvent(st, hour, day, key, data);
      r.out.Some? ==>
        forall h, d, e :: e in GetEvents(r.state, h, d) && e.key == key ==> e == r.out.value
  {
    var r := UpdateEvent(st, hour, day, key, data);
    if r.out.Some? {
      var v := st.schedule[hour][day];
      var i := FindIndex(v, key).value;
      assert Slot(st.schedule, hour, day) == v;
      forall h, d | h != hour || d != day ensures key !in KeysOf(GetEvents(r.state, h, d)) {
        assert SlotUnchanged(st.schedule, r.state.schedule, h, d);
        assert key in KeysOf(v);
        assert KeysOf(v) !! KeysOf(Slot(st.schedule, h, d));
      }
      var w := v[i := r.out.value];
      assert GetEvents(r.state, hour, day) == w;
      forall j | 0 <= j < |w| && j != i ensures w[j].key != key {
        assert w[j] == v[j] && v[i].key == key;
      }
    }
  }

  // ---------------------------------------------------------------------
  // Event counts

  lemma AddCount(st: State, hour: string, day: string, data: EventData)
    ensures Total(AddEvent(st, hour, day, data).state.schedule) == Total(st.schedule) + 1
  {
    var e := WithKey(data, EventKey(st.counter));
    TotalSetSlot(st.schedule, hour, day, Slot(st.schedule, hour, day) + [e]);
  }

  lemma UpdateCount(st: State, hour: string, day: string, key: string, data: EventData)
    ensures Total(UpdateEvent(st, hour, day, key, data).state.schedule) == Total(st.schedule)
  {
    if HasSlot(st.schedule, hour, day) {
      var v := st.schedule[hour][day];
      match FindIndex(v, key)
      case None =>
      case Some(i) =>
        TotalSetSlot(st.schedule, hour, day, v[i := WithKey(data, key)]);
    }
  }

  /** A move neither creates nor loses events, given unique keys. */
  lemma MoveCount(st: State, fromHour: string, fromDay: string, toHour: string, toDay: string, key: string)
    requires Inv(st)
    ensures Total(MoveEvent(st, fromHour, fromDay, toHour, toDay, key).state.schedule) == Total(st.schedule)
  {
    var s := st.schedule;
    if HasSlot(s, fromHour, fromDay) {
      var v := s[fromHour][fromDay];
      match FindIndex(v, key)
      case None =>
      case Some(i) =>
        var rest := RemoveKey(v, key);
        assert DistinctKeys(Slot(s, fromHour, fromDay));
        RemoveKeyRemovesOne(v, key);
        TotalSetSlot(s, fromHour, fromDay, rest);
        var s1 := SetSlot(s, fromHour, fromDay, rest);
        TotalSetSlot(s1, toHour, toDay, Slot(s1, toHour, toDay) + [v[i]]);
    }
  }

  /** A successful delete removes exactly one event, given unique keys. */
  lemma DeleteCount(st: State, hour: string, day: string, key: string)
    requires Inv(st)
    ensures var r := DeleteEvent(st, hour, day, key);
      Total(r.state.schedule) == Total(st.schedule) - (if r.out then 1 else 0)
  {
    if HasSlot(st.schedule, hour, day) {
      var v := st.schedule[hour][day];
      assert DistinctKeys(Slot(st.schedule, hour, day));
      if key in KeysOf(v) {
        RemoveKeyRemovesOne(v, key);
      }
      TotalSetSlot(st.schedule, hour, day, RemoveKey(v, key));
    }
  }

  lemma ClearCount(st: State, hour: string, day: string)
    ensures Total(ClearEvents(st, hour, day).state.schedule) == Total(st.schedule) - |GetEvents(st, hour, day)|
  {
    if HasSlot(st.schedule, hour, day) {
      TotalSetSlot(st.schedule, hour, day, []);
    }
  }

  // ---------------------------------------------------------------------
  // Moving within one slot

  /** In a list with distinct keys, taking an event out by its key and
      appending it again keeps the same events, as often as before. */
  lemma RemoveAndAppend(v: seq<Event>, i: nat)
    requires DistinctKeys(v) && i < |v|
    ensures |RemoveKey(v, v[i].key) + [v[i]]| == |v|
    ensures multiset(RemoveKey(v, v[i].key) + [v[i]]) == multiset(v)
  {
    var e := v[i];
    var w := RemoveKey(v, e.key) + [e];
    assert e.key in KeysOf(v);
    RemoveKeyRemovesOne(v, e.key);
    RemoveKeyMultiset(v, e.key);
    forall x: Event ensures multiset(w)[x] == multiset(v)[x] {
      if x.key == e.key {
        OnlyEventWithKey(v, i, x);
      }
    }
    assert multiset(w) == multiset(v);
  }

  /** Moving an event to the slot it is in keeps the slot's events, without
      duplicating or losing any; the moved event becomes the last one. */
  lemma MoveWithinSlot(st: State, hour: string, day: string, key: string)
    requires Inv(st)
    requires key in KeysOf(GetEvents(st, hour, day))
    ensures var r := MoveEvent(st, hour, day, hour, day, key);
      var w := GetEvents(r.state, hour, day);
      && r.out.Some?
      && |w| == |GetEvents(st, hour, day)|
      && w[|w| - 1] == r.out.value
      && multiset(w) == multiset(GetEvents(st, hour, day))
  {
    var s := st.schedule;
    var v := s[hour][day];
    assert DistinctKeys(Slot(s, hour, day));
    var i := FindIndex(v, key).value;
    RemoveAndAppend(v, i);
    var s1 := SetSlot(s, hour, day, RemoveKey(v, key));
    assert Slot(s1, hour, day) == RemoveKey(v, key);
  }

  /** In a list with distinct keys, the event at `i` is the only event with
      its key, and it occurs once. */
  lemma OnlyEventWithKey(v: seq<Event>, i: nat, x: Event)
    requires DistinctKeys(v) && i < |v| && x.key == v[i].key
    ensures multiset(v)[x] == if x == v[i] then 1 else 0
  {
    if x != v[i] {
      assert x !in v;
    } else {
      var others := v[..i] + v[i + 1..];
      assert v == v[..i] + [v[i]] + v[i + 1..];
      assert x !in others;
      assert multiset(v) == multiset(v[..i]) + multiset{v[i]} + multiset(v[i + 1..]);
      assert multiset(others) == multiset(v[..i]) + multiset(v[i + 1..]);
    }
  }

  /** Filtering by key drops every match, so without unique keys a move
      within one slot loses events: the invariant is what rules this out. */
  lemma MoveDropsDuplicates()
    ensures var a := Event("event-1", "PWA", "523", Course);
      var b := Event("event-1", "PSI", "520", Lab);
      var st := State(map["08:00" := map["Luni" := [a, b]]], 7);
      var r := MoveEvent(st, "08:00", "Luni", "08:00", "Luni", "event-1");
      && !Inv(st)
      && GetEvents(r.state, "08:00", "Luni") == [a]
  {
    var a := Event("event-1", "PWA", "523", Course);
    var b := Event("event-1", "PSI", "520", Lab);
    var st := State(map["08:00" := map["Luni" := [a, b]]], 7);
    assert !DistinctKeys(Slot(st.schedule, "08:00", "Luni")) by {
      assert Slot(st.schedule, "08:00", "Luni")[0].key == Slot(st.schedule, "08:00", "Luni")[1].key;
    }
    assert FindIndex([a, b], "event-1") == Some(0);
    assert RemoveKey([a, b], "event-1") == [];
  }

  // ---------------------------------------------------------------------
  // Clear and reset

  /** Clearing twice is clearing once, and the second clear still answers
      true for a slot that exists, though it is already empty. */
  lemma ClearIdempotent(st: State, hour: string, day: string)
    ensures var r1 := ClearEvents(st, hour, day);
      var r2 := ClearEvents(r1.state, hour, day);
      r2.state == r1.state && r2.out == r1.out
  {
    var r1 := ClearEvents(st, hour, day);
    if r1.out {
      SetSlotSame(r1.state.schedule, hour, day);
    }
  }

  /** Reading cannot tell an existing empty slot from an absent one, but
      clearing can: the first answers true, the second false. */
  lemma EmptyIsNotAbsent(st: State, hour: string, day: string)
    requires HasSlot(st.schedule, hour, day) && st.schedule[hour][day] == []
    ensures var gone := State(st.schedule[hour := st.schedule[hour] - {day}], st.counter);
      && GetEvents(st, hour, day) == GetEvents(gone, hour, day) == []
      && ClearEvents(st, hour, day).out
      && !ClearEvents(gone, hour, day).out
  {
  }

  /** Reset forgets everything that came before: any two states reset to the
      same seed state, which satisfies the invariant, and the next add
      generates "event-7". */
  lemma ResetForgetsHistory(a: State, b: State, hour: string, day: string, data: EventData)
    ensures Reset(a) == Reset(b)
    ensures Inv(Reset(a))
    ensures AddEvent(Reset(a), hour, day, data).out.key == "event-7"
    ensures Total(Reset(a).schedule) == 6
  {
    InitSatisfiesInv();
    SeedKeysAreGenerated();
    SeedCount();
  }

  lemma SeedCount()
    ensures Total(Seed) == 6
  {
    var s := Seed;
    assert s.Keys == {"08:00", "09:00", "10:00"};
    forall h | h in s ensures RowSize(s[h]) == 2 {
      assert s[h].Keys == {"Luni", "Marti"};
      RowOfTwo(s[h], "Luni", "Marti");
    }
    TotalOfThreeRows(s, "08:00", "09:00", "10:00");
  }

  /** A row of two slots holding one event each has two events. */
  lemma RowOfTwo(row: map<string, seq<Event>>, a: string, b: string)
    requires row.Keys == {a, b} && a != b && |row[a]| == 1 && |row[b]| == 1
    ensures RowSize(row) == 2
  {
    SumMapTwo(row, a, b, SlotSize);
  }

  /** A schedule of three rows of two events each has six events. */
  lemma TotalOfThreeRows(s: Schedule, a: string, b: string, c: string)
    requires s.Keys == {a, b, c} && a != b && a != c && b != c
    requires RowSize(s[a]) == 2 && RowSize(s[b]) == 2 && RowSize(s[c]) == 2
    ensures Total(s) == 6
  {
    SumMapRemove(s, a, RowSize);
    var rest := s - {a};
    assert rest.Keys == {b, c};
    SumMapTwo(rest, b, c, RowSize);
  }
}
