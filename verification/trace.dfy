/** The store as a state machine: any sequence of operations, applied one at
    a time to completion as the single-threaded source runs them. */
module Trace {
  import opened Wrappers
  import opened Types
  import opened EventKeys
  import opened Slots
  import opened Store
  import opened StoreProperties

  /** One call into the store that changes it. */
  datatype Op =
    | Add(hour: string, day: string, data: EventData)
    | Update(hour: string, day: string, key: string, data: EventData)
    | Move(fromHour: string, fromDay: string, toHour: string, toDay: string, key: string)
    | Delete(hour: string, day: string, key: string)
    | Clear(hour: string, day: string)
    | ResetAll

  function Apply(st: State, op: Op): State {
    match op
    case Add(h, d, data) => AddEvent(st, h, d, data).state
    case Update(h, d, k, data) => UpdateEvent(st, h, d, k, data).state
    case Move(fh, fd, th, td, k) => MoveEvent(st, fh, fd, th, td, k).state
    case Delete(h, d, k) => DeleteEvent(st, h, d, k).state
    case Clear(h, d) => ClearEvents(st, h, d).state
    case ResetAll => Reset(st)
  }

  function Run(st: State, ops: seq<Op>): State
    decreases |ops|
  {
    if |ops| == 0 then st else Run(Apply(st, ops[0]), ops[1..])
  }

  lemma ApplyPreservesInv(st: State, op: Op)
    requires Inv(st)
    ensures Inv(Apply(st, op))
  {
    match op
    case Add(h, d, data) => AddPreservesInv(st, h, d, data);
    case Update(h, d, k, data) => UpdatePreservesInv(st, h, d, k, data);
    case Move(fh, fd, th, td, k) => MovePreservesInv(st, fh, fd, th, td, k);
    case Delete(h, d, k) => DeletePreservesInv(st, h, d, k);
    case Clear(h, d) => ClearPreservesInv(st, h, d);
    case ResetAll => InitSatisfiesInv();
  }

  lemma {:induction false} RunPreservesInv(st: State, ops: seq<Op>)
    requires Inv(st)
    ensures Inv(Run(st, ops))
    decreases |ops|
  {
    if |ops| > 0 {
      ApplyPreservesInv(st, ops[0]);
      RunPreservesInv(Apply(st, ops[0]), ops[1..]);
    }
  }

  /** Every state the store can reach from start-up satisfies the invariant,
      so the key of the next add is fresh there. */
  lemma ReachableStatesAreValid(ops: seq<Op>, hour: string, day: string, data: EventData)
    ensures Inv(Run(Init(), ops))
    ensures Absent(Run(Init(), ops).schedule, AddEvent(Run(Init(), ops), hour, day, data).out.key)
  {
    InitSatisfiesInv();
    RunPreservesInv(Init(), ops);
    AddKeyIsFresh(Run(Init(), ops), hour, day, data);
  }

  /** The keys handed out by the adds of a run, in order. */
  function Generated(st: State, ops: seq<Op>): seq<string>
    decreases |ops|
  {
    if |ops| == 0 then []
    else
      var first := match ops[0]
        case Add(h, d, data) => [AddEvent(st, h, d, data).out.key]
        case _ => [];
      first + Generated(Apply(st, ops[0]), ops[1..])
  }

  predicate NoReset(ops: seq<Op>) {
    forall i :: 0 <= i < |ops| ==> !ops[i].ResetAll?
  }

  /** One step of a run short of a reset: an add hands out the key of the
      current counter and moves the counter up by one; the other operations
      hand out nothing and leave the counter alone. */
  lemma GeneratedStep(st: State, ops: seq<Op>)
    requires |ops| > 0 && !ops[0].ResetAll?
    ensures Apply(st, ops[0]).counter == if ops[0].Add? then st.counter + 1 else st.counter
    ensures Generated(st, ops) ==
      (if ops[0].Add? then [EventKey(st.counter)] else []) + Generated(Apply(st, ops[0]), ops[1..])
    ensures Run(st, ops) == Run(Apply(st, ops[0]), ops[1..])
  {
  }

  /** The keys are those of consecutive counter values from `c` on. */
  predicate Consecutive(keys: seq<string>, c: nat) {
    forall i :: 0 <= i < |keys| ==> keys[i] == EventKey(c + i)
  }

  lemma ConsecutiveCons(keys: seq<string>, c: nat)
    requires Consecutive(keys, c + 1)
    ensures Consecutive([EventKey(c)] + keys, c)
  {
    var all := [EventKey(c)] + keys;
    forall i | 0 <= i < |all| ensures all[i] == EventKey(c + i) {
      if i > 0 {
        assert all[i] == keys[i - 1];
      }
    }
  }

  /** Between resets, the adds of a run hand out the keys of consecutive
      counter values, starting at the counter, and the counter ends past the
      last of them. */
  lemma {:induction false} GeneratedAreConsecutive(st: State, ops: seq<Op>)
    requires NoReset(ops)
    ensures Run(st, ops).counter == st.counter + |Generated(st, ops)|
    ensures Consecutive(Generated(st, ops), st.counter)
    decreases |ops|
  {
    if |ops| > 0 {
      assert NoReset(ops[1..]) by {
        forall i | 0 <= i < |ops[1..]| ensures !ops[1..][i].ResetAll? {
          assert ops[1..][i] == ops[i + 1];
        }
      }
      var next := Apply(st, ops[0]);
      GeneratedAreConsecutive(next, ops[1..]);
      GeneratedStep(st, ops);
      if ops[0].Add? {
        ConsecutiveCons(Generated(next, ops[1..]), st.counter);
      }
    }
  }

  /** Between resets, no key is generated twice. */
  lemma GeneratedKeysDistinct(st: State, ops: seq<Op>)
    requires NoReset(ops)
    ensures forall i, j :: 0 <= i < j < |Generated(st, ops)| ==> Generated(st, ops)[i] != Generated(st, ops)[j]
  {
    GeneratedAreConsecutive(st, ops);
    var g := Generated(st, ops);
    forall i, j | 0 <= i < j < |g| ensures g[i] != g[j] {
      assert g[i] == EventKey(st.counter + i) && g[j] == EventKey(st.counter + j);
      EventKeyInjective(st.counter + i, st.counter + j);
    }
  }

  /** No operation lowers the counter below the seed counter: only adds move
      it, upwards, and a reset puts it back to the seed value. */
  lemma {:induction false} CounterNeverBelowSeed(st: State, ops: seq<Op>)
    requires st.counter >= SeedCounter
    ensures Run(st, ops).counter >= SeedCounter
    decreases |ops|
  {
    if |ops| > 0 {
      var next := Apply(st, ops[0]);
      assert next.counter >= st.counter || next.counter == SeedCounter;
      CounterNeverBelowSeed(next, ops[1..]);
    }
  }

  /** A key the store generates never repeats a seed key, in any state
      reachable from start-up. */
  lemma NextKeyIsNotSeedKey(ops: seq<Op>, hour: string, day: string, data: EventData, n: nat)
    requires 1 <= n < SeedCounter
    ensures AddEvent(Run(Init(), ops), hour, day, data).out.key != EventKey(n)
  {
    CounterNeverBelowSeed(Init(), ops);
    EventKeyInjective(Run(Init(), ops).counter, n);
  }

  /** Across a reset, keys do repeat: an add, a reset and another add hand out
      "event-7" twice. This is why key distinctness holds between resets only. */
  lemma KeysRepeatAcrossReset(hour: string, day: string, data: EventData)
    ensures Generated(Init(), [Add(hour, day, data), ResetAll, Add(hour, day, data)]) == [EventKey(7), EventKey(7)]
  {
    var add := Add(hour, day, data);
    var s1 := Apply(Init(), add);
    assert Generated(Init(), [add, ResetAll, add]) == [EventKey(7)] + Generated(s1, [ResetAll, add]) by {
      assert [add, ResetAll, add][1..] == [ResetAll, add];
    }
    assert Generated(s1, [ResetAll, add]) == Generated(Init(), [add]) by {
      assert [ResetAll, add][1..] == [add];
    }
    assert Generated(Init(), [add]) == [EventKey(7)] + Generated(s1, []) by {
      assert [add][1..] == [];
    }
  }
}
