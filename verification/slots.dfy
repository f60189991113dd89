/** Reading and writing one time slot of a schedule, and the two list
    operations the store performs on a slot: finding the first event with a
    key and filtering out every event with a key. */
module Slots {
  import opened Wrappers
  import opened Types

  /** The slot exists: both the hour entry and the day entry are present.
      An existing slot may hold the empty list; it still exists. */
  predicate HasSlot(s: Schedule, hour: string, day: string) {
    hour in s && day in s[hour]
  }

  /** The events of a slot as a reader sees them: an absent hour or day reads
      as the empty list, exactly like an existing empty slot. */
  function Slot(s: Schedule, hour: string, day: string): seq<Event> {
    if HasSlot(s, hour, day) then s[hour][day] else []
  }

  /** The keys occurring in a list of events. */
  function KeysOf(v: seq<Event>): set<string> {
    set e | e in v :: e.key
  }

  /** No key occurs twice in the list. */
  ghost predicate DistinctKeys(v: seq<Event>) {
    forall i, j :: 0 <= i < j < |v| ==> v[i].key != v[j].key
  }

  /** Slot (hour, day) exists in `t` exactly when it exists in `s`, and holds
      the same events. */
  predicate SlotUnchanged(s: Schedule, t: Schedule, hour: string, day: string) {
    HasSlot(t, hour, day) == HasSlot(s, hour, day) && Slot(t, hour, day) == Slot(s, hour, day)
  }

  /** Every slot other than (hour, day) is unchanged from `s` to `t`. */
  ghost predicate SameElsewhere(s: Schedule, t: Schedule, hour: string, day: string) {
    forall h, d :: (h != hour || d != day) ==> SlotUnchanged(s, t, h, d)
  }

  /** `i` is the index of the first event with the given key. */
  predicate FirstWithKey(v: seq<Event>, key: string, i: int) {
    0 <= i < |v| && v[i].key == key && forall j :: 0 <= j < i ==> v[j].key != key
  }

  /** Assigns a slot, creating the hour entry and the day entry when absent. */
  function SetSlot(s: Schedule, hour: string, day: string, v: seq<Event>): (t: Schedule)
    ensures HasSlot(t, hour, day) && Slot(t, hour, day) == v
    ensures SameElsewhere(s, t, hour, day)
    ensures t.Keys == s.Keys + {hour}
  {
    var row := if hour in s then s[hour] else map[];
    s[hour := row[day := v]]
  }

  /** Assigning two slots in turn: the second holds its list, the first holds
      its own unless the two are the same slot, and every other slot is
      unchanged. */
  lemma SetSlotTwice(s: Schedule, h1: string, d1: string, v1: seq<Event>, h2: string, d2: string, v2: seq<Event>)
    ensures var t := SetSlot(SetSlot(s, h1, d1, v1), h2, d2, v2);
      && HasSlot(t, h1, d1) && HasSlot(t, h2, d2) && Slot(t, h2, d2) == v2
      && ((h1 != h2 || d1 != d2) ==> Slot(t, h1, d1) == v1)
      && forall h, d :: (h != h1 || d != d1) && (h != h2 || d != d2) ==> SlotUnchanged(s, t, h, d)
  {
    var s1 := SetSlot(s, h1, d1, v1);
    var t := SetSlot(s1, h2, d2, v2);
    forall h, d | (h != h1 || d != d1) && (h != h2 || d != d2) ensures SlotUnchanged(s, t, h, d) {
      assert SlotUnchanged(s, s1, h, d) && SlotUnchanged(s1, t, h, d);
    }
  }

  /** Writing back what a slot already holds changes nothing. */
  lemma SetSlotSame(s: Schedule, hour: string, day: string)
    requires HasSlot(s, hour, day)
    ensures SetSlot(s, hour, day, s[hour][day]) == s
  {
    assert s[hour][day := s[hour][day]] == s[hour];
  }

  /** The index of the first event with the given key, like `findIndex`
      (which answers -1 where this answers None). */
  function FindIndex(v: seq<Event>, key: string): (r: Option<nat>)
    ensures r.None? <==> key !in KeysOf(v)
    ensures r.Some? ==> FirstWithKey(v, key, r.value)
  {
    if |v| == 0 then None
    else if v[0].key == key then Some(0)
    else match FindIndex(v[1..], key)
      case None => assert KeysOf(v) == {v[0].key} + KeysOf(v[1..]); None
      case Some(i) => Some(i + 1)
  }

  /** The list without every event carrying the given key, in the original
      order, like `filter(event => event.key !== key)`. */
  function RemoveKey(v: seq<Event>, key: string): (r: seq<Event>)
    ensures forall e :: e in r <==> e in v && e.key != key
    ensures key !in KeysOf(v) ==> r == v
    ensures key in KeysOf(v) ==> |r| < |v|
    ensures |r| <= |v|
  {
    if |v| == 0 then []
    else
      var rest := RemoveKey(v[1..], key);
      assert v == [v[0]] + v[1..];
      if v[0].key == key then rest
      else
        assert key in KeysOf(v[1..]) <== key in KeysOf(v);
        [v[0]] + rest
  }

  lemma RemoveKeyKeys(v: seq<Event>, key: string)
    ensures KeysOf(RemoveKey(v, key)) == KeysOf(v) - {key}
  {
  }

  /** Filtering drops every occurrence of an event with the key and keeps
      every other event as often as it occurred. */
  lemma {:induction false} RemoveKeyMultiset(v: seq<Event>, key: string)
    ensures forall e :: multiset(RemoveKey(v, key))[e] == if e.key == key then 0 else multiset(v)[e]
    decreases |v|
  {
    if |v| > 0 {
      assert v == [v[0]] + v[1..];
      RemoveKeyMultiset(v[1..], key);
    }
  }

  lemma KeysOfAppend(v: seq<Event>, e: Event)
    ensures KeysOf(v + [e]) == KeysOf(v) + {e.key}
  {
    assert forall x :: x in v + [e] <==> x in v || x == e;
  }

  lemma DistinctKeysAppend(v: seq<Event>, e: Event)
    requires DistinctKeys(v) && e.key !in KeysOf(v)
    ensures DistinctKeys(v + [e])
  {
    var w := v + [e];
    forall i, j | 0 <= i < j < |w| ensures w[i].key != w[j].key {
      if j == |v| {
        assert w[i] in v;
      } else {
        assert w[i] == v[i] && w[j] == v[j];
      }
    }
  }

  lemma KeysOfReplace(v: seq<Event>, i: nat, e: Event)
    requires i < |v| && e.key == v[i].key
    ensures KeysOf(v[i := e]) == KeysOf(v)
  {
    forall k | k in KeysOf(v)
      ensures k in KeysOf(v[i := e])
    {
      var x :| x in v && x.key == k;
      var j :| 0 <= j < |v| && v[j] == x;
      assert v[i := e][j].key == k;
    }
  }

  lemma DistinctKeysCons(x: Event, v: seq<Event>)
    ensures DistinctKeys([x] + v) <==> x.key !in KeysOf(v) && DistinctKeys(v)
  {
    var w := [x] + v;
    if DistinctKeys(w) {
      forall k | k in KeysOf(v) ensures k != x.key {
        var y :| y in v && y.key == k;
        var j :| 0 <= j < |v| && v[j] == y;
        assert w[0] == x && w[j + 1] == y;
      }
      forall i, j | 0 <= i < j < |v| ensures v[i].key != v[j].key {
        assert w[i + 1] == v[i] && w[j + 1] == v[j];
      }
    }
    if x.key !in KeysOf(v) && DistinctKeys(v) {
      forall i, j | 0 <= i < j < |w| ensures w[i].key != w[j].key {
        if i == 0 {
          assert w[j] in v;
        } else {
          assert w[i] == v[i - 1] && w[j] == v[j - 1];
        }
      }
    }
  }

  /** Filtering keeps keys distinct. */
  lemma {:induction false} RemoveKeyDistinct(v: seq<Event>, key: string)
    requires DistinctKeys(v)
    ensures DistinctKeys(RemoveKey(v, key))
    decreases |v|
  {
    if |v| > 0 {
      assert v == [v[0]] + v[1..];
      DistinctKeysCons(v[0], v[1..]);
      RemoveKeyDistinct(v[1..], key);
      if v[0].key != key {
        DistinctKeysCons(v[0], RemoveKey(v[1..], key));
      }
    }
  }

  /** With distinct keys, filtering a key that occurs removes exactly one
      event. */
  lemma {:induction false} RemoveKeyRemovesOne(v: seq<Event>, key: string)
    requires DistinctKeys(v) && key in KeysOf(v)
    ensures |RemoveKey(v, key)| == |v| - 1
    decreases |v|
  {
    assert v == [v[0]] + v[1..];
    DistinctKeysCons(v[0], v[1..]);
    if v[0].key == key {
      assert RemoveKey(v[1..], key) == v[1..];
    } else {
      assert KeysOf(v) == {v[0].key} + KeysOf(v[1..]);
      RemoveKeyRemovesOne(v[1..], key);
    }
  }
}
