/** The in-memory timeout table of DefaultTimeoutManager: a sorted dictionary from
    expiry time to the list of timeouts that expire then, and its reading as one
    stable priority queue. */
module TimeoutTable {
  import opened Sequences

  /** Ticks of a DateTime; tick 0 is DateTime.MinValue. */
  type Time = nat

  const MIN_VALUE: Time := 0

  type Guid = nat

  datatype TimeoutData = TimeoutData(id: nat, sagaId: Guid, time: Time, body: string)

  /** The SortedDictionary field `data`. */
  type Table = map<Time, seq<TimeoutData>>

  /** Buckets are non-empty and hold only timeouts that expire at their own key. */
  ghost predicate WellFormed(m: Table) {
    forall k :: k in m ==> m[k] != [] && forall t :: t in m[k] ==> t.time == k
  }

  lemma {:induction false} MinKeyExists(keys: set<Time>)
    requires keys != {}
    ensures exists k :: k in keys && forall j :: j in keys ==> k <= j
  {
    var k :| k in keys;
    var earlier := set j | j in keys && j < k;
    assert forall j :: j in keys ==> j in earlier || k <= j;
    if earlier != {} {
      assert earlier < keys by {
        assert k in keys && k !in earlier;
      }
      MinKeyExists(earlier);
      var r :| r in earlier && forall j :: j in earlier ==> r <= j;
      assert r in keys && forall j :: j in keys ==> r <= j;
    }
  }

  /** The key ElementAt(0) of the sorted dictionary has. */
  ghost function MinKey(m: Table): (k: Time)
    requires m != map[]
    ensures k in m && forall j :: j in m ==> k <= j
  {
    MinKeyExists(m.Keys);
    var k :| k in m.Keys && forall j :: j in m.Keys ==> k <= j;
    k
  }

  ghost predicate Pending(m: Table, t: TimeoutData) {
    t.time in m && t in m[t.time]
  }

  function Pushed(m: Table, t: TimeoutData): Table {
    m[t.time := (if t.time in m then m[t.time] else []) + [t]]
  }

  function Without(s: seq<TimeoutData>, sagaId: Guid): seq<TimeoutData> {
    if s == [] then []
    else if s[0].sagaId == sagaId then Without(s[1..], sagaId)
    else [s[0]] + Without(s[1..], sagaId)
  }

  function Cleared(m: Table, sagaId: Guid): Table {
    map k | k in m && Without(m[k], sagaId) != [] :: Without(m[k], sagaId)
  }

  /** A clear under way: the buckets with a key in `waiting` are still to be filtered. */
  function PartlyCleared(m: Table, sagaId: Guid, waiting: set<Time>): Table {
    map k | k in m && (k in waiting || Without(m[k], sagaId) != []) ::
      if k in waiting then m[k] else Without(m[k], sagaId)
  }

  /** The key the poller takes at time `now`, if its earliest bucket is close enough. */
  ghost function DueKey(m: Table, now: Time, duration: nat): seq<Time> {
    if m != map[] && MinKey(m) - now < duration then [MinKey(m)] else []
  }

  /** The table read as one queue: its buckets in key order. */
  ghost function Flatten(m: Table): seq<TimeoutData>
    decreases m.Keys
  {
    if m == map[] then [] else m[MinKey(m)] + Flatten(m - {MinKey(m)})
  }

  // ---- The abstract queue: a sequence ordered by time, equal times in arrival order ----

  ghost predicate Sorted(s: seq<TimeoutData>) {
    forall i, j :: 0 <= i < j < |s| ==> s[i].time <= s[j].time
  }

  function Insert(s: seq<TimeoutData>, t: TimeoutData): seq<TimeoutData> {
    if s == [] || t.time < s[0].time then [t] + s
    else [s[0]] + Insert(s[1..], t)
  }

  function StableSort(s: seq<TimeoutData>): seq<TimeoutData> {
    if s == [] then [] else Insert(StableSort(s[..|s| - 1]), s[|s| - 1])
  }

  function At(s: seq<TimeoutData>, k: Time): seq<TimeoutData> {
    if s == [] then []
    else if s[0].time == k then [s[0]] + At(s[1..], k)
    else At(s[1..], k)
  }

  lemma {:induction false} InsertPastPrefix(b: seq<TimeoutData>, s: seq<TimeoutData>, t: TimeoutData)
    requires forall x :: x in b ==> x.time <= t.time
    ensures Insert(b + s, t) == b + Insert(s, t)
  {
    if b == [] {
      assert b + s == s && b + Insert(s, t) == Insert(s, t);
    } else {
      var rest := b[1..];
      InsertPastPrefix(rest, s, t);
      HeadAndRest(b, s);
      InsertPast(b[0], rest + s, t);
      HeadAndRest(b, Insert(s, t));
    }
  }

  lemma InsertPast(x: TimeoutData, s: seq<TimeoutData>, t: TimeoutData)
    requires x.time <= t.time
    ensures Insert([x] + s, t) == [x] + Insert(s, t)
  {
    assert ([x] + s)[1..] == s;
  }

  lemma {:induction false} FlattenHolds(m: Table)
    requires WellFormed(m)
    ensures Sorted(Flatten(m))
    ensures forall t :: t in Flatten(m) <==> t.time in m && t in m[t.time]
    decreases m.Keys
  {
    if m != map[] {
      var k := MinKey(m);
      FlattenHolds(m - {k});
    }
  }

  lemma FlattenFirst(m: Table, k: Time)
    requires k in m && forall j :: j in m ==> k <= j
    ensures Flatten(m) == m[k] + Flatten(m - {k})
  {
  }

  lemma PushedWellFormed(m: Table, t: TimeoutData)
    requires WellFormed(m)
    ensures WellFormed(Pushed(m, t))
  {
  }

  /** Pushing into a bucket is a stable insertion into the queue. */
  lemma {:induction false} FlattenPushed(m: Table, t: TimeoutData)
    requires WellFormed(m)
    ensures Flatten(Pushed(m, t)) == Insert(Flatten(m), t)
    decreases m.Keys
  {
    if m == map[] || t.time < MinKey(m) {
      FlattenPushedFirst(m, t);
    } else if t.time == MinKey(m) {
      FlattenPushedIntoFirst(m, t);
    } else {
      var k := MinKey(m);
      var rest := m - {k};
      FlattenPushed(rest, t);
      InsertPastPrefix(m[k], Flatten(rest), t);
      PushedBehind(m, k, t);
    }
  }

  lemma PushedBehind(m: Table, k: Time, t: TimeoutData)
    requires k in m && (forall j :: j in m ==> k <= j) && k < t.time
    ensures Flatten(Pushed(m, t)) == m[k] + Flatten(Pushed(m - {k}, t))
  {
    FlattenFirst(Pushed(m, t), k);
    assert Pushed(m, t) - {k} == Pushed(m - {k}, t);
  }

  lemma FlattenPushedIntoFirst(m: Table, t: TimeoutData)
    requires WellFormed(m) && m != map[] && t.time == MinKey(m)
    ensures Flatten(Pushed(m, t)) == Insert(Flatten(m), t)
  {
    var bucket, rest := m[t.time], Flatten(m - {t.time});
    assert Insert(Flatten(m), t) == bucket + ([t] + rest) by {
      InsertBeforeLater(m, t);
      InsertPastPrefix(bucket, rest, t);
    }
    assert Flatten(Pushed(m, t)) == bucket + [t] + rest by {
      FlattenFirst(Pushed(m, t), t.time);
      assert Pushed(m, t) - {t.time} == m - {t.time};
    }
  }

  lemma InsertBeforeLater(m: Table, t: TimeoutData)
    requires WellFormed(m) && m != map[] && t.time == MinKey(m)
    ensures Insert(Flatten(m - {t.time}), t) == [t] + Flatten(m - {t.time})
  {
    if m - {t.time} != map[] {
      FlattenHead(m - {t.time});
    }
  }

  lemma FlattenHead(m: Table)
    requires WellFormed(m) && m != map[]
    ensures Flatten(m) != [] && Flatten(m)[0].time == MinKey(m)
  {
    assert m[MinKey(m)][0] in m[MinKey(m)];
  }

  lemma FlattenPushedFirst(m: Table, t: TimeoutData)
    requires WellFormed(m)
    requires m == map[] || t.time < MinKey(m)
    ensures Flatten(Pushed(m, t)) == Insert(Flatten(m), t)
  {
    PushedNew(m, t);
    FlattenFirst(Pushed(m, t), t.time);
    assert Pushed(m, t) - {t.time} == m;
    if m != map[] {
      FlattenHead(m);
    }
  }

  lemma PushedNew(m: Table, t: TimeoutData)
    requires t.time !in m
    ensures Pushed(m, t) == m[t.time := [t]]
  {
    assert [] + [t] == [t];
  }

  lemma {:induction false} WithoutConcat(a: seq<TimeoutData>, b: seq<TimeoutData>, sagaId: Guid)
    ensures Without(a + b, sagaId) == Without(a, sagaId) + Without(b, sagaId)
  {
    if a == [] {
      assert a + b == b;
    } else {
      assert (a + b)[1..] == a[1..] + b;
      WithoutConcat(a[1..], b, sagaId);
    }
  }

  lemma {:induction false} WithoutHolds(s: seq<TimeoutData>, sagaId: Guid)
    ensures forall t :: t in Without(s, sagaId) <==> t in s && t.sagaId != sagaId
    ensures (forall t :: t in s ==> t.sagaId != sagaId) ==> Without(s, sagaId) == s
  {
    if s != [] {
      WithoutHolds(s[1..], sagaId);
      assert s == [s[0]] + s[1..];
    }
  }

  lemma ClearedWellFormed(m: Table, sagaId: Guid)
    requires WellFormed(m)
    ensures WellFormed(Cleared(m, sagaId))
  {
    forall k | k in m
      ensures forall t :: t in Without(m[k], sagaId) ==> t in m[k]
    {
      WithoutHolds(m[k], sagaId);
    }
  }

  lemma NothingClearedYet(m: Table, sagaId: Guid, waiting: set<Time>)
    requires WellFormed(m)
    requires waiting == set k | k in m && exists t :: t in m[k] && t.sagaId == sagaId
    ensures PartlyCleared(m, sagaId, waiting) == m
  {
    forall k | k in m && k !in waiting
      ensures Without(m[k], sagaId) == m[k]
    {
      WithoutHolds(m[k], sagaId);
    }
  }

  lemma PartlyClearedStep(m: Table, sagaId: Guid, waiting: set<Time>, k: Time)
    requires k in waiting && k in m
    ensures var p := PartlyCleared(m, sagaId, waiting);
            k in p && p[k] == m[k] &&
            var b := Without(m[k], sagaId);
            PartlyCleared(m, sagaId, waiting - {k}) == if b == [] then p[k := b] - {k} else p[k := b]
  {
  }

  /** Clearing a saga filters the queue and keeps everyone else's order. */
  lemma {:induction false} FlattenCleared(m: Table, sagaId: Guid)
    requires WellFormed(m)
    ensures Flatten(Cleared(m, sagaId)) == Without(Flatten(m), sagaId)
    decreases m.Keys
  {
    if m == map[] {
      assert Cleared(m, sagaId) == map[];
    } else {
      var k := MinKey(m);
      var rest := m - {k};
      FlattenCleared(rest, sagaId);
      WithoutConcat(m[k], Flatten(rest), sagaId);
      ClearedFirst(m, k, sagaId);
    }
  }

  lemma ClearedFirst(m: Table, k: Time, sagaId: Guid)
    requires WellFormed(m) && k in m && forall j :: j in m ==> k <= j
    ensures Flatten(Cleared(m, sagaId)) == Without(m[k], sagaId) + Flatten(Cleared(m - {k}, sagaId))
  {
    var c: Table := Cleared(m, sagaId);
    assert c - {k} == Cleared(m - {k}, sagaId);
    if Without(m[k], sagaId) != [] {
      assert k in c && c[k] == Without(m[k], sagaId);
      FlattenFirst(c, k);
    } else {
      assert c - {k} == c;
      assert [] + Flatten(c) == Flatten(c);
    }
  }

  // ---- What StableSort means ----

  lemma {:induction false} InsertAdds(s: seq<TimeoutData>, t: TimeoutData)
    ensures multiset(Insert(s, t)) == multiset(s) + multiset{t}
  {
    if s != [] && s[0].time <= t.time {
      InsertAdds(s[1..], t);
      assert s == [s[0]] + s[1..];
    }
  }

  lemma {:induction false} InsertMembers(s: seq<TimeoutData>, t: TimeoutData)
    ensures forall x :: x in Insert(s, t) <==> x in s || x == t
  {
    if s != [] && s[0].time <= t.time {
      InsertMembers(s[1..], t);
    }
  }

  lemma {:induction false} InsertSorted(s: seq<TimeoutData>, t: TimeoutData)
    requires Sorted(s)
    ensures Sorted(Insert(s, t))
  {
    if s != [] && s[0].time <= t.time {
      InsertSorted(s[1..], t);
      InsertMembers(s[1..], t);
      forall x | x in Insert(s[1..], t)
        ensures s[0].time <= x.time
      {
      }
    }
  }

  lemma {:induction false} InsertAt(s: seq<TimeoutData>, t: TimeoutData, k: Time)
    requires Sorted(s)
    ensures At(Insert(s, t), k) == At(s + [t], k)
  {
    AtConcat(s, [t], k);
    if s == [] || t.time < s[0].time {
      AtConcat([t], s, k);
      if k == t.time {
        AtAbsent(s, k);
      }
    } else {
      InsertAt(s[1..], t, k);
      AtConcat(s[1..], [t], k);
    }
  }

  lemma {:induction false} AtAbsent(s: seq<TimeoutData>, k: Time)
    requires forall x :: x in s ==> x.time != k
    ensures At(s, k) == []
  {
    if s != [] {
      AtAbsent(s[1..], k);
    }
  }

  lemma {:induction false} AtConcat(a: seq<TimeoutData>, b: seq<TimeoutData>, k: Time)
    ensures At(a + b, k) == At(a, k) + At(b, k)
  {
    if a == [] {
      assert a + b == b;
    } else {
      assert (a + b)[1..] == a[1..] + b;
      AtConcat(a[1..], b, k);
    }
  }

  /** StableSort orders by time, keeps every timeout and keeps the arrival order
      of the timeouts that share an expiry time. */
  lemma {:induction false} StableSortHolds(s: seq<TimeoutData>)
    ensures Sorted(StableSort(s))
    ensures multiset(StableSort(s)) == multiset(s)
    ensures forall k :: At(StableSort(s), k) == At(s, k)
  {
    if s != [] {
      var front, t := s[..|s| - 1], s[|s| - 1];
      assert s == front + [t];
      StableSortHolds(front);
      InsertSorted(StableSort(front), t);
      InsertAdds(StableSort(front), t);
      forall k
        ensures At(StableSort(s), k) == At(s, k)
      {
        InsertAt(StableSort(front), t, k);
        AtConcat(StableSort(front), [t], k);
        AtConcat(front, [t], k);
      }
    }
  }

  /** Only one sequence is sorted by time with given per-time subsequences, so
      StableSortHolds determines StableSort. */
  lemma {:induction false} StableOrderIsUnique(a: seq<TimeoutData>, b: seq<TimeoutData>)
    requires Sorted(a) && Sorted(b)
    requires forall k :: At(a, k) == At(b, k)
    ensures a == b
  {
    assert a != [] ==> At(a, a[0].time) == At(b, a[0].time);
    assert b != [] ==> At(a, b[0].time) == At(b, b[0].time);
    if a != [] && b != [] {
      HeadIsEarliest(a, b[0].time);
      HeadIsEarliest(b, a[0].time);
      assert At(a, a[0].time)[0] == a[0] && At(b, a[0].time)[0] == b[0];
      forall k
        ensures At(a[1..], k) == At(b[1..], k)
      {
        assert At(a, k) == At(b, k);
        if k == a[0].time {
          assert At(a, k)[1..] == At(a[1..], k);
          assert At(b, k)[1..] == At(b[1..], k);
        }
      }
      StableOrderIsUnique(a[1..], b[1..]);
    }
  }

  lemma HeadIsEarliest(s: seq<TimeoutData>, k: Time)
    requires Sorted(s) && s != []
    requires At(s, k) != []
    ensures s[0].time <= k
  {
    if k < s[0].time {
      AtAbsent(s, k);
    }
  }

  function PushAll(m: Table, ts: seq<TimeoutData>): Table {
    if ts == [] then m else Pushed(PushAll(m, ts[..|ts| - 1]), ts[|ts| - 1])
  }

  /** DefaultTimeoutManager and the testing library's TimeoutManager both add with
      Pushed, so after the same pushes both hold the stable sort of what was pushed. */
  lemma {:induction false} QueueIsStableSort(ts: seq<TimeoutData>)
    ensures WellFormed(PushAll(map[], ts))
    ensures Flatten(PushAll(map[], ts)) == StableSort(ts)
  {
    if ts != [] {
      var front := ts[..|ts| - 1];
      QueueIsStableSort(front);
      PushedWellFormed(PushAll(map[], front), ts[|ts| - 1]);
      FlattenPushed(PushAll(map[], front), ts[|ts| - 1]);
    }
  }

  // ---- The class ----

  datatype PopOutcome =
    | Slept(span: nat)
    | Dispatched(delay: nat, attempted: seq<TimeoutData>, failed: bool, listed: seq<TimeoutData>)

  /** What one call of PopTimeout does with the bucket it took: a bucket keyed
      DateTime.MinValue is indistinguishable from "nothing taken". */
  ghost function Popped(m: Table, now: Time, duration: nat, fails: TimeoutData -> bool): PopOutcome {
    var due := DueKey(m, now, duration);
    if due == [] || due[0] == MIN_VALUE then Slept(duration)
    else
      var bucket := m[due[0]];
      var failed := Failures(bucket, fails) != [];
      Dispatched(if due[0] > now then due[0] - now else 0, bucket, failed, if failed then bucket else [])
  }

  /** What a call of PopTimeout means, from the table before and after. Slept: nothing is close
      enough, or only the bucket that cannot be told from nothing. Dispatched: the earliest
      bucket is close enough and attempted whole, at its time or at once if that is past; the
      exception, if a dispatch failed, lists the bucket. */
  ghost predicate PopMeans(m: Table, after: Table, now: Time, duration: nat, fails: TimeoutData -> bool,
                           outcome: PopOutcome) {
    match outcome
    case Slept(span) =>
      && span == duration
      && ((after == m && forall k :: k in m ==> k >= now + duration) ||
          (MIN_VALUE in m && MIN_VALUE < now + duration && after == m - {MIN_VALUE}))
    case Dispatched(delay, attempted, failed, listed) =>
      && (exists k :: k in m && k != MIN_VALUE && k < now + duration && (forall j :: j in m ==> k <= j) &&
                      after == m - {k} && attempted == m[k] &&
                      now + delay >= k && (delay > 0 ==> now + delay == k))
      && (failed <==> exists t :: t in attempted && fails(t))
      && (failed ==> listed == attempted)
      && (!failed ==> listed == [])
  }

  lemma PoppedMeans(m: Table, now: Time, duration: nat, fails: TimeoutData -> bool)
    ensures var left := m - (set k | k in DueKey(m, now, duration));
            PopMeans(m, left, now, duration, fails, Popped(m, now, duration, fails))
  {
    var due := DueKey(m, now, duration);
    if due == [] {
      assert m - (set k | k in due) == m;
    } else {
      assert (set k | k in due) == {due[0]};
      SomeFailed(m[due[0]], fails);
      assert due[0] in m;
    }
  }

  class DefaultTimeoutManager {
    var data: Table
    var duration: nat

    ghost predicate Valid()
      reads this
    {
      WellFormed(data)
    }

    constructor ()
      ensures Valid() && data == map[]
    {
      data, duration := map[], 1;
    }

    method Init(interval: nat)
      modifies this`duration
      ensures duration == interval
    {
      duration := interval;
    }

    method PushTimeout(timeout: TimeoutData)
      requires Valid()
      modifies this`data
      ensures Valid()
      ensures data == Pushed(old(data), timeout)
      ensures Flatten(data) == Insert(Flatten(old(data)), timeout)
    {
      PushedWellFormed(data, timeout);
      FlattenPushed(data, timeout);
      if timeout.time !in data {
        data := data[timeout.time := []];
      }
      data := data[timeout.time := data[timeout.time] + [timeout]];
      assert data == Pushed(old(data), timeout);
    }

    method ClearTimeout(sagaId: Guid)
      requires Valid()
      modifies this`data
      ensures Valid()
      ensures data == Cleared(old(data), sagaId)
      ensures Flatten(data) == Without(Flatten(old(data)), sagaId)
    {
      ghost var m := data;
      var matches := set k | k in data && exists t :: t in data[k] && t.sagaId == sagaId;
      NothingClearedYet(m, sagaId, matches);
      while matches != {}
        invariant matches <= m.Keys
        invariant data == PartlyCleared(m, sagaId, matches)
      {
        var k :| k in matches;
        PartlyClearedStep(m, sagaId, matches, k);
        matches := matches - {k};
        var bucket := Without(data[k], sagaId);
        data := data[k := bucket];
        if bucket == [] {
          data := data - {k};
        }
      }
      assert data == Cleared(m, sagaId) by {
        assert PartlyCleared(m, sagaId, {}) == Cleared(m, sagaId);
      }
      ClearedWellFormed(m, sagaId);
      FlattenCleared(m, sagaId);
    }

    /** `fails` says for which timeouts the SagaTimedOut event throws. */
    method PopTimeout(now: Time, fails: TimeoutData -> bool) returns (outcome: PopOutcome)
      requires Valid()
      modifies this`data
      ensures Valid()
      ensures data == old(data) - (set k | k in DueKey(old(data), now, duration))
      ensures outcome == Popped(old(data), now, duration, fails)
      ensures PopMeans(old(data), data, now, duration, fails, outcome)
    {
      PoppedMeans(data, now, duration, fails);
      var key, bucket := TakeDue(now);
      if key == MIN_VALUE {
        return Slept(duration);
      }
      var delay := if key > now then key - now else 0;
      var attempted, failed, listed := DispatchTimeouts(bucket, fails);
      outcome := Dispatched(delay, attempted, failed, listed);
    }

    /** The locked part of PopTimeout. */
    method TakeDue(now: Time) returns (key: Time, bucket: seq<TimeoutData>)
      requires Valid()
      modifies this`data
      ensures Valid()
      ensures var due := DueKey(old(data), now, duration);
              if due == [] then key == MIN_VALUE && data == old(data)
              else key == due[0] && bucket == old(data)[key] && data == old(data) - {key}
    {
      key, bucket := MIN_VALUE, [];
      if data != map[] {
        MinKeyExists(data.Keys);
        var next :| next in data && forall j :: j in data ==> next <= j;
        if next - now < duration {
          key, bucket := next, data[next];
          data := data - {next};
        }
      }
    }

    /** One failing dispatch does not keep the others from being attempted. `listed` is what the
        exception, if there is one, says has failed. */
    method DispatchTimeouts(value: seq<TimeoutData>, fails: TimeoutData -> bool)
      returns (attempted: seq<TimeoutData>, failed: bool, listed: seq<TimeoutData>)
      ensures attempted == value
      ensures failed <==> Failures(value, fails) != []
      ensures failed <==> exists t :: t in value && fails(t)
      ensures listed == if failed then value else []
    {
      attempted := [];
      var exceptions := 0;
      for i := 0 to |value|
        invariant attempted == value[..i]
        invariant exceptions + |Failures(value[i..], fails)| == |Failures(value, fails)|
      {
        attempted := attempted + [value[i]];
        if fails(value[i]) {
          exceptions := exceptions + 1;
        }
      }
      failed := exceptions > 0;
      SomeFailed(value, fails);
      listed := if failed then value else [];
    }
  }

  /** The timeouts whose dispatch fails. */
  function Failures(value: seq<TimeoutData>, fails: TimeoutData -> bool): seq<TimeoutData> {
    if value == [] then []
    else (if fails(value[0]) then [value[0]] else []) + Failures(value[1..], fails)
  }

  lemma {:induction false} FailuresFew(value: seq<TimeoutData>, fails: TimeoutData -> bool)
    ensures |Failures(value, fails)| <= |value|
    ensures |Failures(value, fails)| == |value| <==> forall t :: t in value ==> fails(t)
    ensures (forall t :: t in value ==> fails(t)) ==> Failures(value, fails) == value
    ensures forall t :: t in Failures(value, fails) <==> t in value && fails(t)
  {
    if value != [] {
      FailuresFew(value[1..], fails);
      assert value == [value[0]] + value[1..];
    }
  }

  lemma SomeFailed(value: seq<TimeoutData>, fails: TimeoutData -> bool)
    ensures Failures(value, fails) != [] <==> exists t :: t in value && fails(t)
  {
    FailuresFew(value, fails);
    if Failures(value, fails) != [] {
      assert Failures(value, fails)[0] in Failures(value, fails);
    }
  }

  /** The exception for a bucket says it lists the timeouts that failed. It lists the bucket, so
      that is true exactly when all of the bucket failed. */
  lemma ListsFailuresExactly(value: seq<TimeoutData>, fails: TimeoutData -> bool)
    ensures value == Failures(value, fails) <==> forall t :: t in value ==> fails(t)
  {
    FailuresFew(value, fails);
  }
}
