/** The number of events held in a schedule, summed over all hours and days. */
module Totals {
  import opened Types
  import opened Slots

  ghost function Pick<K, V>(m: map<K, V>): (k: K)
    requires |m| > 0
    ensures k in m
  {
    var k :| k in m; k
  }

  lemma RemoveKeyCard<K, V>(m: map<K, V>, k: K)
    requires k in m
    ensures |m - {k}| == |m| - 1
  {
    assert (m - {k}).Keys == m.Keys - {k};
  }

  /** The sum of `f` over the values of a map. */
  ghost function SumMap<K, V>(m: map<K, V>, f: V -> nat): nat
    decreases |m|
  {
    if |m| == 0 then 0
    else
      var k := Pick(m);
      RemoveKeyCard(m, k);
      f(m[k]) + SumMap(m - {k}, f)
  }

  /** The sum does not depend on which key is taken out first. */
  lemma {:induction false} SumMapRemove<K, V>(m: map<K, V>, k: K, f: V -> nat)
    requires k in m
    ensures SumMap(m, f) == f(m[k]) + SumMap(m - {k}, f)
    decreases |m|
  {
    var j := Pick(m);
    if j != k {
      RemoveKeyCard(m, j);
      RemoveKeyCard(m, k);
      SumMapRemove(m - {j}, k, f);
      SumMapRemove(m - {k}, j, f);
      assert m - {j} - {k} == m - {k} - {j};
    }
  }

  lemma SumMapUpdate<K, V>(m: map<K, V>, k: K, v: V, f: V -> nat)
    ensures SumMap(m[k := v], f) == SumMap(m, f) - (if k in m then f(m[k]) else 0) + f(v)
  {
    SumMapRemove(m[k := v], k, f);
    assert m[k := v] - {k} == m - {k};
    if k in m {
      SumMapRemove(m, k, f);
    } else {
      assert m - {k} == m;
    }
  }

  lemma SumMapTwo<K, V>(m: map<K, V>, a: K, b: K, f: V -> nat)
    requires m.Keys == {a, b} && a != b
    ensures SumMap(m, f) == f(m[a]) + f(m[b])
  {
    SumMapRemove(m, a, f);
    var rest := m - {a};
    assert rest.Keys == {b};
    SumMapRemove(rest, b, f);
    assert rest - {b} == map[];
  }

  function SlotSize(v: seq<Event>): nat {
    |v|
  }

  ghost function RowSize(row: map<string, seq<Event>>): nat {
    SumMap(row, SlotSize)
  }

  /** The number of events in the whole schedule. */
  ghost function Total(s: Schedule): nat {
    SumMap(s, RowSize)
  }

  /** Assigning one slot changes the total by the change in that slot's
      length; an absent slot counts as empty. */
  lemma TotalSetSlot(s: Schedule, hour: string, day: string, v: seq<Event>)
    ensures Total(SetSlot(s, hour, day, v)) == Total(s) - |Slot(s, hour, day)| + |v|
  {
    var row := if hour in s then s[hour] else map[];
    SumMapUpdate(row, day, v, SlotSize);
    SumMapUpdate(s, hour, row[day := v], RowSize);
    if hour !in s {
      assert RowSize(map[]) == 0;
    }
  }
}
