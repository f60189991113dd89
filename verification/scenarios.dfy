/** Concrete runs of the store from its start-up state. */
module Scenarios {
  import opened Wrappers
  import opened Types
  import opened EventKeys
  import opened Slots
  import opened Store
  import opened StoreProperties

  /** The first add after start-up gets "event-7" and is the only event of a
      slot that did not exist before. */
  lemma FirstAddScenario()
    ensures var r := AddEvent(Init(), "11:00", "Joi", EventData("Math", "100", Exam));
      && r.out == Event("event-7", "Math", "100", Exam)
      && GetEvents(r.state, "11:00", "Joi") == [r.out]
  {
    SeedKeysAreGenerated();
  }

  /** Updating a seed event keeps its key and slot position. */
  lemma UpdateSeedScenario()
    ensures var r := UpdateEvent(Init(), "08:00", "Luni", "event-1", EventData("PWA2", "600", Lab));
      && r.out == Some(Event("event-1", "PWA2", "600", Lab))
      && GetEvents(r.state, "08:00", "Luni") == [Event("event-1", "PWA2", "600", Lab)]
      && forall h, d, e :: e in GetEvents(r.state, h, d) && e.key == "event-1" ==> e.kind == Lab
  {
    var v := Seed["08:00"]["Luni"];
    assert FindIndex(v, "event-1") == Some(0);
    InitSatisfiesInv();
    UpdateLeavesOneVersion(Init(), "08:00", "Luni", "event-1", EventData("PWA2", "600", Lab));
  }

  /** Updating a key that is not in the slot finds nothing and changes
      nothing. */
  lemma UpdateMissingScenario()
    ensures var r := UpdateEvent(Init(), "08:00", "Luni", "event-999", EventData("X", "1", Other));
      r.out == None && r.state == Init()
  {
    assert "event-999" !in KeysOf(Slot(Seed, "08:00", "Luni")) by {
      assert Slot(Seed, "08:00", "Luni") == [Event("event-1", "PWA", "523", Course)];
    }
  }

  /** Deleting the only event of a slot leaves the slot existing but empty:
      a read sees nothing, a second delete answers false, and a clear still
      answers true. */
  lemma DeleteThenClearScenario()
    ensures var r1 := DeleteEvent(Init(), "08:00", "Luni", "event-1");
      var r2 := DeleteEvent(r1.state, "08:00", "Luni", "event-1");
      var r3 := ClearEvents(r2.state, "08:00", "Luni");
      && r1.out && !r2.out && r3.out
      && GetEvents(r1.state, "08:00", "Luni") == []
  {
    var v := Seed["08:00"]["Luni"];
    assert "event-1" in KeysOf(Slot(Seed, "08:00", "Luni")) by {
      assert v[0].key == "event-1";
    }
    assert RemoveKey(v, "event-1") == [];
  }

  /** Moving an event to its own slot is not order-preserving: with a second
      event added behind it, the moved event ends up last. */
  lemma MoveWithinSlotReorders()
    ensures var e1 := Event("event-1", "PWA", "523", Course);
      var e7 := Event("event-7", "Lab2", "100", Lab);
      var st := AddEvent(Init(), "08:00", "Luni", EventData("Lab2", "100", Lab)).state;
      && GetEvents(st, "08:00", "Luni") == [e1, e7]
      && GetEvents(MoveEvent(st, "08:00", "Luni", "08:00", "Luni", "event-1").state, "08:00", "Luni") == [e7, e1]
  {
    SeedKeysAreGenerated();
    var e1 := Event("event-1", "PWA", "523", Course);
    var e7 := Event("event-7", "Lab2", "100", Lab);
    var st := AddEvent(Init(), "08:00", "Luni", EventData("Lab2", "100", Lab)).state;
    assert Slot(Init().schedule, "08:00", "Luni") == [e1];
    assert GetEvents(st, "08:00", "Luni") == [e1, e7];
    MoveFrontBehind(st, "08:00", "Luni", e1, e7);
  }

  /** In a slot of two events with different keys, moving the first within
      the slot swaps them. */
  lemma MoveFrontBehind(st: State, hour: string, day: string, a: Event, b: Event)
    requires Slot(st.schedule, hour, day) == [a, b] && a.key != b.key
    ensures GetEvents(MoveEvent(st, hour, day, hour, day, a.key).state, hour, day) == [b, a]
  {
    assert FindIndex([a, b], a.key) == Some(0);
    assert RemoveKey([a, b], a.key) == [b] by {
      assert [a, b][1..] == [b];
      assert RemoveKey([b], a.key) == [b] by {
        assert [b][1..] == [];
      }
    }
  }
}
