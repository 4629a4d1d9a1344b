/** The timeout queue of the testing library: an unordered dictionary of lists whose
    Pop finds the earliest bucket by a linear scan. */
module TestingTimeouts {
  import opened TimeoutTable

  /** Ticks of DateTime.MaxValue. */
  const MAX_VALUE: Time := 3155378975999999999

  datatype SpanOrTime = AtTime(time: Time) | After(span: int) | Neither

  datatype Popped = KeyNotFound | Value(value: TimeoutData)

  class TimeoutManager {
    var storage: Table

    ghost predicate Valid()
      reads this
    {
      WellFormed(storage) && forall k :: k in storage ==> k <= MAX_VALUE
    }

    constructor ()
      ensures Valid() && storage == map[]
    {
      storage := map[];
    }

    /** A time is filed under itself, a span under the moment that far from now, unless that leaves
        the range of DateTime, and anything else under DateTime.MinValue. The stored value is
        stamped with the moment it is filed under. */
    method Push(spanOrTime: SpanOrTime, now: Time, value: TimeoutData) returns (inRange: bool)
      requires Valid()
      requires spanOrTime.AtTime? ==> spanOrTime.time <= MAX_VALUE
      modifies this
      ensures Valid()
      ensures match spanOrTime
              case AtTime(t) => inRange && storage == Pushed(old(storage), value.(time := t))
              case After(span) =>
                && (inRange <==> MIN_VALUE <= now + span <= MAX_VALUE)
                && storage == if inRange then Pushed(old(storage), value.(time := now + span)) else old(storage)
              case Neither => inRange && storage == Pushed(old(storage), value.(time := MIN_VALUE))
    {
      var at := 0;
      match spanOrTime {
        case AtTime(t) => at := t;
        case After(span) =>
          if !(MIN_VALUE <= now + span <= MAX_VALUE) {
            return false;
          }
          at := now + span;
        case Neither =>
      }
      if at !in storage {
        storage := storage[at := []];
      }
      storage := storage[at := storage[at] + [value.(time := at)]];
      assert storage == Pushed(old(storage), value.(time := at));
      return true;
    }

    /** Takes the front of the same queue that DefaultTimeoutManager drains. */
    method Pop() returns (result: Popped)
      requires Valid()
      modifies this
      ensures Valid()
      ensures if Flatten(old(storage)) == [] then result.KeyNotFound? && storage == old(storage)
              else result == Value(Flatten(old(storage))[0]) && Flatten(storage) == Flatten(old(storage))[1..]
    {
      var min := MAX_VALUE;
      var keys := storage.Keys;
      while keys != {}
        invariant keys <= storage.Keys
        invariant min == MAX_VALUE || min in storage
        invariant forall k :: k in storage && k !in keys ==> min <= k
      {
        var d :| d in keys;
        keys := keys - {d};
        if d < min {
          min := d;
        }
      }
      if min !in storage {
        assert storage == map[] by {
          assert forall k :: k in storage ==> k == min;
        }
        return KeyNotFound;
      }
      FlattenFirst(storage, min);
      HeadRemoved(storage, min);
      var bucket := storage[min];
      result := Value(bucket[0]);
      storage := storage[min := bucket[1..]];
      if storage[min] == [] {
        storage := storage - {min};
      }
    }
  }

  lemma HeadRemoved(m: Table, k: Time)
    requires WellFormed(m) && k in m && forall j :: j in m ==> k <= j
    ensures Flatten(m)[0] == m[k][0]
    ensures var n := m[k := m[k][1..]];
            var r := if n[k] == [] then n - {k} else n;
            WellFormed(r) && Flatten(r) == Flatten(m)[1..]
  {
    var n := m[k := m[k][1..]];
    FlattenFirst(m, k);
    assert n - {k} == m - {k};
    if n[k] != [] {
      FlattenFirst(n, k);
    }
  }

  lemma OnePushedMore(values: seq<TimeoutData>, i: nat)
    requires i < |values|
    ensures PushAll(map[], values[..i + 1]) == Pushed(PushAll(map[], values[..i]), values[i])
  {
    assert values[..i + 1][..i] == values[..i];
  }

  lemma OnePoppedMore(popped: seq<TimeoutData>, rest: seq<TimeoutData>)
    requires rest != []
    ensures popped + [rest[0]] + rest[1..] == popped + rest
  {
    assert rest == [rest[0]] + rest[1..];
  }

  /** Pushing values at their times and popping until nothing is left yields their stable sort
      by time, the order in which DefaultTimeoutManager dispatches them (DrainIsStableSort). */
  method PushAndDrain(values: seq<TimeoutData>) returns (popped: seq<TimeoutData>)
    requires forall t :: t in values ==> t.time <= MAX_VALUE
    ensures popped == StableSort(values)
  {
    var manager := new TimeoutManager();
    for i := 0 to |values|
      invariant manager.Valid() && manager.storage == PushAll(map[], values[..i])
    {
      var _ := manager.Push(AtTime(values[i].time), MIN_VALUE, values[i]);
      OnePushedMore(values, i);
    }
    assert values[..|values|] == values;
    QueueIsStableSort(values);
    popped := [];
    var next := manager.Pop();
    while next.Value?
      invariant manager.Valid()
      invariant next.KeyNotFound? ==> popped == StableSort(values)
      invariant next.Value? ==> popped + [next.value] + Flatten(manager.storage) == StableSort(values)
      decreases next.Value?, |Flatten(manager.storage)|
    {
      popped := popped + [next.value];
      ghost var rest := Flatten(manager.storage);
      next := manager.Pop();
      if rest != [] {
        OnePoppedMore(popped, rest);
      }
    }
  }
}
