/** The bracket of units of work around the handling of one transport message. */
module UnitOfWork {
  import opened Strings

  type Exception = string

  /** A unit of work by what its calls throw; End may react to the exception it is given. */
  datatype Unit = Unit(begin: Option<Exception>, end: Option<Exception> -> Option<Exception>)

  /** What happens between the Begins and the Ends: mutators, then either a subscription
      message, after which nothing is forwarded, or handlers and forwarding. */
  datatype Work =
    | Subscription(throws: Option<Exception>)
    | Regular(throws: Option<Exception>, forward: Option<Exception>)

  datatype Call = Begin(unit: nat) | Process | End(unit: nat, ex: Option<Exception>) | Forward

  /** The calls made, the latest one outermost. */
  datatype Trace = Start | Then(before: Trace, call: Call)

  datatype Thrown = Nothing | Single(ex: Exception) | Aggregate(exs: seq<Exception>)

  function AsSeq(o: Option<Exception>): seq<Exception> {
    if o.Some? then [o.value] else []
  }

  /** What one call throws. */
  function Raised(units: seq<Unit>, work: Work, c: Call): seq<Exception> {
    match c
    case Begin(i) => if i < |units| then AsSeq(units[i].begin) else []
    case Process => AsSeq(work.throws)
    case End(i, ex) => if i < |units| then AsSeq(units[i].end(ex)) else []
    case Forward => if work.Regular? then AsSeq(work.forward) else []
  }

  /** Everything the calls threw, in order. */
  function Failures(units: seq<Unit>, work: Work, t: Trace): seq<Exception> {
    if t.Start? then [] else Failures(units, work, t.before) + Raised(units, work, t.call)
  }

  function Begun(t: Trace): seq<nat> {
    if t.Start? then [] else Begun(t.before) + if t.call.Begin? then [t.call.unit] else []
  }

  function Ended(t: Trace): seq<nat> {
    if t.Start? then [] else Ended(t.before) + if t.call.End? then [t.call.unit] else []
  }

  predicate Processed(t: Trace) {
    t.Then? && (t.call.Process? || Processed(t.before))
  }

  function Upto(k: nat): seq<nat> {
    if k == 0 then [] else Upto(k - 1) + [k - 1]
  }

  /** The `m` last of the first `k` units, last one first. */
  function DownFrom(k: nat, m: nat): seq<nat>
    requires m <= k
  {
    if m == 0 then [] else DownFrom(k, m - 1) + [k - m]
  }

  function BeginCalls(k: nat): Trace {
    if k == 0 then Start else Then(BeginCalls(k - 1), Begin(k - 1))
  }

  function EndCalls(t: Trace, k: nat, m: nat): Trace
    requires m <= k
  {
    if m == 0 then t else Then(EndCalls(t, k, m - 1), End(k - m, None))
  }

  /** The calls of a message that goes through without an exception. */
  function Straight(n: nat, work: Work): Trace {
    var t := EndCalls(Then(BeginCalls(n), Process), n, n);
    if work.Regular? then Then(t, Forward) else t
  }

  function First(exs: seq<Exception>): Option<Exception> {
    if exs == [] then None else Some(exs[0])
  }

  function Phase(c: Call): nat {
    match c case Begin(_) => 0 case Process => 1 case End(_, _) => 2 case Forward => 3
  }

  function LastPhase(t: Trace): nat {
    if t.Start? then 0 else Phase(t.call)
  }

  /** Begins, processing, Ends, forwarding; only Begins and Ends repeat. */
  predicate Follows(phase: nat, c: Call) {
    phase < Phase(c) || (phase == Phase(c) && (c.Begin? || c.End?))
  }

  /** What has been thrown so far decides what may be called next: without an exception
      anything, after one only Ends, and an End is told the first exception. Subscription
      messages are not forwarded. */
  predicate Allowed(work: Work, exs: seq<Exception>, c: Call) {
    if c.End? then c.ex == First(exs) else exs == [] && (c.Forward? ==> work.Regular?)
  }

  predicate Proper(units: seq<Unit>, work: Work, t: Trace) {
    t.Then? ==>
      Proper(units, work, t.before) && Follows(LastPhase(t.before), t.call) &&
      Allowed(work, Failures(units, work, t.before), t.call)
  }

  function Throwing(exs: seq<Exception>): Thrown {
    if exs == [] then Nothing else if |exs| == 1 then Single(exs[0]) else Aggregate(exs)
  }

  /** The first `k` units were begun: all of them if the message was processed, else up to
      the first whose Begin threw. */
  ghost predicate Attempted(units: seq<Unit>, t: Trace, k: nat) {
    && k <= |units| && Begun(t) == Upto(k)
    && if Processed(t) then k == |units| else k > 0 && units[k - 1].begin.Some?
  }

  /** The promise of the bracket: a prefix of the units is begun, exactly those are
      ended, in reverse, each told the first exception if there is one by then; what is
      thrown is all that was raised, in order; without an exception the message goes on to be forwarded. */
  ghost predicate Bracketed(units: seq<Unit>, work: Work, t: Trace, thrown: Thrown) {
    && Proper(units, work, t)
    && (exists k :: Attempted(units, t, k) && Ended(t) == DownFrom(k, k))
    && thrown == Throwing(Failures(units, work, t))
    && (thrown.Nothing? && work.Regular? ==> t.Then? && t.call.Forward?)
  }

  /** Where the try block stands or stopped: `started` units begun, `ended` of them ended,
      `exs` thrown. */
  ghost predicate Underway(units: seq<Unit>, work: Work, t: Trace, started: nat, ended: nat, exs: seq<Exception>) {
    && started <= |units| && ended <= started
    && Proper(units, work, t)
    && Begun(t) == Upto(started) && Ended(t) == DownFrom(started, ended)
    && Failures(units, work, t) == exs
  }

  lemma CallBegin(units: seq<Unit>, work: Work, t: Trace, started: nat)
    requires Underway(units, work, t, started, 0, []) && started < |units| && LastPhase(t) == 0
    ensures Underway(units, work, Then(t, Begin(started)), started + 1, 0, AsSeq(units[started].begin))
  {
  }

  lemma CallEnd(units: seq<Unit>, work: Work, t: Trace, started: nat, ended: nat, exs: seq<Exception>)
    requires Underway(units, work, t, started, ended, exs) && ended < started && LastPhase(t) <= 2
    ensures var i := started - 1 - ended;
            var raised := AsSeq(units[i].end(First(exs)));
            Underway(units, work, Then(t, End(i, First(exs))), started, ended + 1, exs + raised)
  {
  }

  lemma CallOther(units: seq<Unit>, work: Work, t: Trace, started: nat, ended: nat, c: Call)
    requires Underway(units, work, t, started, ended, []) && (c.Process? || c.Forward?)
    requires LastPhase(t) < Phase(c) && (c.Forward? ==> work.Regular?)
    ensures Underway(units, work, Then(t, c), started, ended, Raised(units, work, c))
  {
  }

  method BeginAll(units: seq<Unit>, work: Work) returns (t: Trace, started: nat, ex: Option<Exception>)
    ensures Underway(units, work, t, started, 0, AsSeq(ex))
    ensures LastPhase(t) == 0 && !Processed(t)
    ensures ex.Some? ==> started > 0 && units[started - 1].begin.Some?
    ensures ex.None? ==> started == |units|
  {
    t, started, ex := Start, 0, None;
    while started < |units|
      invariant started <= |units|
      invariant Underway(units, work, t, started, 0, [])
      invariant LastPhase(t) == 0 && !Processed(t)
    {
      var uow := started;
      CallBegin(units, work, t, uow);
      started := started + 1;
      t := Then(t, Begin(uow));
      if units[uow].begin.Some? {
        return t, started, units[uow].begin;
      }
    }
  }

  /** Calls End on the last unit not ended yet. */
  method EndNext(units: seq<Unit>, work: Work, before: Trace, started: nat, ended: nat, ex: Option<Exception>,
                 ghost exs: seq<Exception>)
    returns (t: Trace, another: Option<Exception>)
    requires Underway(units, work, before, started, ended, exs) && ended < started && LastPhase(before) <= 2
    requires ex == First(exs)
    ensures Underway(units, work, t, started, ended + 1, exs + AsSeq(another))
    ensures LastPhase(t) <= 2 && SameBut(before, t)
  {
    var uow := started - 1 - ended;
    CallEnd(units, work, before, started, ended, exs);
    t := Then(before, End(uow, ex));
    another := units[uow].end(ex);
  }

  /** Nothing but Ends lies between. */
  ghost predicate SameBut(before: Trace, t: Trace) {
    Processed(t) == Processed(before) && Begun(t) == Begun(before)
  }

  lemma OneMoreRaised(exs: seq<Exception>, another: Option<Exception>)
    ensures exs + AsSeq(another) == if another.Some? then exs + [another.value] else exs
  {
  }

  method EndAll(units: seq<Unit>, work: Work, before: Trace) returns (t: Trace, ended: nat, ex: Option<Exception>)
    requires Underway(units, work, before, |units|, 0, [])
    requires LastPhase(before) <= 2 && Processed(before)
    ensures Underway(units, work, t, |units|, ended, AsSeq(ex))
    ensures LastPhase(t) <= 2 && Processed(t)
    ensures ex.None? ==> ended == |units|
  {
    t, ended, ex := before, 0, None;
    while ended < |units|
      invariant ended <= |units| && ex.None?
      invariant Underway(units, work, t, |units|, ended, [])
      invariant LastPhase(t) <= 2 && Processed(t)
    {
      t, ex := EndNext(units, work, t, |units|, ended, None, []);
      OneMoreRaised([], ex);
      ended := ended + 1;
      if ex.Some? {
        return;
      }
    }
  }

  /** The try block, up to the exception that leaves it. */
  method TryHandle(units: seq<Unit>, work: Work) returns (t: Trace, started: nat, ended: nat, ex: Option<Exception>)
    ensures Underway(units, work, t, started, ended, AsSeq(ex))
    ensures ended < started ==> LastPhase(t) <= 2
    ensures Attempted(units, t, started)
    ensures ex.None? ==> started == ended == |units| && (work.Regular? ==> t.Then? && t.call.Forward?)
  {
    ended := 0;
    t, started, ex := BeginAll(units, work);
    if ex.Some? {
      return;
    }
    CallOther(units, work, t, started, ended, Process);
    t := Then(t, Process);
    if work.throws.Some? {
      ex := work.throws;
      return;
    }
    t, ended, ex := EndAll(units, work, t);
    if ex.Some? || work.Subscription? {
      return;
    }
    CallOther(units, work, t, started, ended, Forward);
    t := Then(t, Forward);
    ex := work.forward;
  }

  /** The catch block, up to what it throws: the units not ended yet are, whatever they throw. */
  method EndRest(units: seq<Unit>, work: Work, before: Trace, started: nat, ended: nat, ex: Exception)
    returns (t: Trace, exceptionsToThrow: seq<Exception>)
    requires Underway(units, work, before, started, ended, [ex]) && (ended < started ==> LastPhase(before) <= 2)
    ensures Underway(units, work, t, started, started, exceptionsToThrow)
    ensures SameBut(before, t) && exceptionsToThrow != []
  {
    t, exceptionsToThrow := before, [ex];
    var lastEnded := ended;
    while lastEnded < started
      invariant lastEnded <= started
      invariant Underway(units, work, t, started, lastEnded, exceptionsToThrow)
      invariant First(exceptionsToThrow) == Some(ex)
      invariant SameBut(before, t)
      invariant lastEnded < started ==> LastPhase(t) <= 2
    {
      var another;
      t, another := EndNext(units, work, t, started, lastEnded, Some(ex), exceptionsToThrow);
      OneMoreRaised(exceptionsToThrow, another);
      if another.Some? {
        exceptionsToThrow := exceptionsToThrow + [another.value];
      }
      lastEnded := lastEnded + 1;
    }
  }

  method HandleTransportMessage(units: seq<Unit>, work: Work) returns (t: Trace, thrown: Thrown)
    ensures Bracketed(units, work, t, thrown)
    ensures ThrowsAll(Failures(units, work, t), thrown)
  {
    var before, started, lastEnded, ex := TryHandle(units, work);
    if ex.None? {
      BracketDone(units, work, before, started, []);
      return before, Nothing;
    }
    var exceptionsToThrow;
    t, exceptionsToThrow := EndRest(units, work, before, started, lastEnded, ex.value);
    BracketDone(units, work, t, started, exceptionsToThrow);
    if |exceptionsToThrow| == 1 {
      return t, Single(exceptionsToThrow[0]);
    }
    return t, Aggregate(exceptionsToThrow);
  }

  /** Nothing that was thrown is swallowed: one exception leaves as it is, several leave together,
      in the order in which they were thrown. */
  predicate ThrowsAll(exs: seq<Exception>, thrown: Thrown) {
    match thrown
    case Nothing => exs == []
    case Single(ex) => exs == [ex]
    case Aggregate(all) => |all| > 1 && all == exs
  }

  lemma ThrownExactly(units: seq<Unit>, work: Work, t: Trace, thrown: Thrown)
    requires Bracketed(units, work, t, thrown)
    ensures ThrowsAll(Failures(units, work, t), thrown)
  {
  }

  lemma BracketDone(units: seq<Unit>, work: Work, t: Trace, started: nat, exs: seq<Exception>)
    requires Underway(units, work, t, started, started, exs) && Attempted(units, t, started)
    requires exs == [] && work.Regular? ==> t.Then? && t.call.Forward?
    ensures Bracketed(units, work, t, Throwing(exs))
  {
  }

  // ---- Reading the promise ----

  lemma {:induction false} Mirrored(k: nat, m: nat)
    requires m <= k
    ensures |Upto(k)| == k && |DownFrom(k, m)| == m
    ensures forall i :: 0 <= i < k ==> Upto(k)[i] == i
    ensures forall i :: 0 <= i < m ==> DownFrom(k, m)[i] == k - 1 - i
    decreases k + m
  {
    if m > 0 {
      Mirrored(k, m - 1);
    } else if k > 0 {
      Mirrored(k - 1, 0);
    }
  }

  /** Every unit begun is ended exactly once, the last one begun first. */
  lemma EndedInReverse(units: seq<Unit>, work: Work, t: Trace, thrown: Thrown)
    requires Bracketed(units, work, t, thrown)
    ensures |Begun(t)| == |Ended(t)| <= |units|
    ensures forall i :: 0 <= i < |Begun(t)| ==> Begun(t)[i] == i && Ended(t)[i] == |Begun(t)| - 1 - i
  {
    var k :| Attempted(units, t, k) && Ended(t) == DownFrom(k, k);
    Mirrored(k, k);
  }

  predicate Precedes(p: Trace, t: Trace) {
    p == t || (t.Then? && Precedes(p, t.before))
  }

  /** At every point of the run, an End is told the first exception thrown before it, and
      anything but an End is called only as long as there is none. */
  lemma {:induction false} ToldTheFirst(units: seq<Unit>, work: Work, t: Trace, p: Trace, c: Call)
    requires Proper(units, work, t) && Precedes(Then(p, c), t)
    ensures Allowed(work, Failures(units, work, p), c)
  {
    if Then(p, c) != t {
      ToldTheFirst(units, work, t.before, p, c);
    }
  }

  /** An End is told nothing as long as nothing was thrown, and after that the exception thrown
      first; nothing else is called after one, and only regular messages are forwarded. */
  lemma EndIsTold(units: seq<Unit>, work: Work, t: Trace, p: Trace, c: Call)
    requires Proper(units, work, t) && Precedes(Then(p, c), t)
    ensures var exs := Failures(units, work, p);
            if c.End? then c.ex == if exs == [] then None else Some(exs[0])
            else exs == [] && (c.Forward? ==> work.Regular?)
  {
    ToldTheFirst(units, work, t, p, c);
  }

  /** Each call adds what its unit, the handlers or the forwarding throws, if they do. */
  lemma FailuresGrow(units: seq<Unit>, work: Work, p: Trace, c: Call)
    requires c.Begin? || c.End? ==> c.unit < |units|
    ensures c.Begin? ==> Grows(units, work, p, c, units[c.unit].begin)
    ensures c.Process? ==> Grows(units, work, p, c, work.throws)
    ensures c.End? ==> Grows(units, work, p, c, units[c.unit].end(c.ex))
    ensures c.Forward? && work.Regular? ==> Grows(units, work, p, c, work.forward)
  {
  }

  predicate Grows(units: seq<Unit>, work: Work, p: Trace, c: Call, thrown: Option<Exception>) {
    Failures(units, work, Then(p, c))
    == if thrown.Some? then Failures(units, work, p) + [thrown.value] else Failures(units, work, p)
  }

  /** The units begun and ended are those whose calls are in the trace. */
  lemma {:induction false} CallsListed(t: Trace, i: nat)
    ensures i in Begun(t) <==> exists p :: Precedes(Then(p, Begin(i)), t)
    ensures i in Ended(t) <==> exists p, ex :: Precedes(Then(p, End(i, ex)), t)
    ensures Processed(t) <==> exists p :: Precedes(Then(p, Process), t)
  {
    if t.Then? {
      CallsListed(t.before, i);
      forall p, c
        ensures Precedes(Then(p, c), t) <==> (p == t.before && c == t.call) || Precedes(Then(p, c), t.before)
      {
      }
      if t.call.Begin? && t.call.unit == i {
        assert Precedes(Then(t.before, Begin(i)), t);
      }
      if t.call.End? && t.call.unit == i {
        assert Precedes(Then(t.before, End(i, t.call.ex)), t);
      }
      if t.call.Process? {
        assert Precedes(Then(t.before, Process), t);
      }
    }
  }

  /** A unit whose End throws `b` when told `a`, and handlers that throw `a`: both leave. */
  lemma EndFailsToo(unit: Unit, a: Exception, b: Exception, t: Trace, thrown: Thrown)
    requires unit.begin.None? && unit.end(Some(a)) == Some(b)
    requires Bracketed([unit], Regular(Some(a), None), t, thrown)
    ensures t == Then(Then(Then(Start, Begin(0)), Process), End(0, Some(a))) && thrown == Aggregate([a, b])
  {
    var units, work := [unit], Regular(Some(a), None);
    var begun := OneBegun(unit, work);
    var processed := Then(begun, Process);
    var u := Then(processed, End(0, Some(a)));
    CallOther(units, work, begun, 1, 0, Process);
    CallEnd(units, work, processed, 1, 0, [a]);
    assert [a] + AsSeq(unit.end(Some(a))) == [a, b];
    assert Processed(processed) && Processed(u);
    BracketDone(units, work, u, 1, [a, b]);
    Determined(units, work, t, u, thrown, Aggregate([a, b]));
  }

  lemma OneBegun(unit: Unit, work: Work) returns (begun: Trace)
    requires unit.begin.None?
    ensures begun == Then(Start, Begin(0)) && Underway([unit], work, begun, 1, 0, [])
  {
    begun := Then(Start, Begin(0));
    CallBegin([unit], work, Start, 0);
  }

  /** One unit, no failure but of forwarding: the unit is ended once, untold, before. */
  lemma ForwardFails(unit: Unit, f: Exception, t: Trace, thrown: Thrown)
    requires unit.begin.None? && unit.end(None).None?
    requires Bracketed([unit], Regular(None, Some(f)), t, thrown)
    ensures t == Then(Then(Then(Then(Start, Begin(0)), Process), End(0, None)), Forward) && thrown == Single(f)
  {
    var units, work := [unit], Regular(None, Some(f));
    var begun := OneBegun(unit, work);
    var processed := Then(begun, Process);
    var ended := Then(processed, End(0, None));
    CallOther(units, work, begun, 1, 0, Process);
    CallEnd(units, work, processed, 1, 0, []);
    assert [] + AsSeq(unit.end(None)) == [];
    CallOther(units, work, ended, 1, 1, Forward);
    assert Processed(processed) && Processed(ended);
    BracketDone(units, work, Then(ended, Forward), 1, [f]);
    Determined(units, work, t, Then(ended, Forward), thrown, Single(f));
  }

  function Base(k: nat, processed: bool): Trace {
    if processed then Then(BeginCalls(k), Process) else BeginCalls(k)
  }

  function Told(units: seq<Unit>, work: Work, t: Trace, k: nat, m: nat): Trace
    requires m <= k
  {
    if m == 0 then t
    else
      var before := Told(units, work, t, k, m - 1);
      Then(before, End(k - m, First(Failures(units, work, before))))
  }

  lemma {:induction false} NoEndsYet(units: seq<Unit>, work: Work, t: Trace)
    requires Proper(units, work, t) && LastPhase(t) <= 1
    ensures Ended(t) == [] && (LastPhase(t) == 0 ==> !Processed(t))
  {
    if t.Then? {
      NoEndsYet(units, work, t.before);
    }
  }

  /** A proper trace up to its Ends is fixed by what it began, ended and processed. */
  lemma {:induction false} NormalForm(units: seq<Unit>, work: Work, t: Trace, k: nat, m: nat)
    requires Proper(units, work, t) && LastPhase(t) <= 2 && m <= k
    requires Begun(t) == Upto(k) && Ended(t) == DownFrom(k, m)
    ensures t == Told(units, work, Base(k, Processed(t)), k, m)
    decreases t
  {
    if LastPhase(t) <= 1 {
      NoEndsYet(units, work, t);
    }
    if t.Then? {
      match t.call
      case Begin(i) =>
        SameLast(Begun(t.before), i, Upto(k - 1), k - 1);
        NoEndsYet(units, work, t.before);
        NormalForm(units, work, t.before, k - 1, 0);
      case Process => NormalForm(units, work, t.before, k, m);
      case End(i, _) =>
        SameLast(Ended(t.before), i, DownFrom(k, m - 1), k - m);
        NormalForm(units, work, t.before, k, m - 1);
    }
  }

  lemma SameLast(a: seq<nat>, x: nat, b: seq<nat>, y: nat)
    requires a + [x] == b + [y]
    ensures a == b && x == y
  {
    assert (a + [x])[..|a|] == a && (b + [y])[..|b|] == b;
    assert (a + [x])[|a|] == x;
  }

  lemma {:induction false} CleanBegins(units: seq<Unit>, work: Work, k: nat, i: nat)
    requires Failures(units, work, BeginCalls(k)) == [] && i < k <= |units|
    ensures units[i].begin.None?
  {
    if i < k - 1 {
      CleanBegins(units, work, k - 1, i);
    }
  }

  lemma {:induction false} ToldProper(units: seq<Unit>, work: Work, t: Trace, k: nat, m: nat)
    requires m <= k && Proper(units, work, Told(units, work, t, k, m))
    ensures Proper(units, work, t)
  {
    if m > 0 {
      ToldProper(units, work, t, k, m - 1);
    }
  }

  /** The trace without a final Forward. */
  function Inner(t: Trace): Trace {
    if t.Then? && t.call.Forward? then t.before else t
  }

  lemma InnerForm(units: seq<Unit>, work: Work, t: Trace, thrown: Thrown) returns (k: nat)
    requires Bracketed(units, work, t, thrown)
    ensures Processed(Inner(t)) == Processed(t)
    ensures Inner(t) == Told(units, work, Base(k, Processed(t)), k, k)
    ensures CleanBefore(units, work, t, k)
  {
    k :| Attempted(units, t, k) && Ended(t) == DownFrom(k, k);
    NormalForm(units, work, Inner(t), k, k);
    ToldProper(units, work, Base(k, Processed(t)), k, k);
  }

  ghost predicate CleanBefore(units: seq<Unit>, work: Work, t: Trace, k: nat) {
    && Attempted(units, t, k)
    && Failures(units, work, BeginCalls(if Processed(t) then k else k - 1)) == []
  }

  lemma SameAttempt(units: seq<Unit>, work: Work, t: Trace, u: Trace, k: nat, l: nat)
    requires CleanBefore(units, work, t, k) && CleanBefore(units, work, u, l) && k <= l
    ensures k == l && Processed(t) == Processed(u)
  {
    if !Processed(t) && (k < l || Processed(u)) {
      CleanBegins(units, work, if Processed(u) then l else l - 1, k - 1);
    } else if Processed(t) && !Processed(u) {
      CleanBegins(units, work, k, l - 1);
    }
  }

  /** The promise leaves no choice: it determines the calls and what is thrown. */
  lemma Determined(units: seq<Unit>, work: Work, t: Trace, u: Trace, thrown: Thrown, thrown': Thrown)
    requires Bracketed(units, work, t, thrown) && Bracketed(units, work, u, thrown')
    ensures t == u && thrown == thrown'
  {
    var k := InnerForm(units, work, t, thrown);
    var l := InnerForm(units, work, u, thrown');
    if k <= l {
      SameAttempt(units, work, t, u, k, l);
    } else {
      SameAttempt(units, work, u, t, l, k);
    }
    assert Inner(t) == Inner(u);
  }

  lemma {:induction false} ToldNothing(units: seq<Unit>, work: Work, t: Trace, k: nat, m: nat)
    requires m <= k && Failures(units, work, Told(units, work, t, k, m)) == []
    ensures Told(units, work, t, k, m) == EndCalls(t, k, m)
  {
    if m > 0 {
      ToldNothing(units, work, t, k, m - 1);
    }
  }

  /** Without an exception nothing is left out: all Begins, processing, all Ends in reverse
      with no exception, and forwarding unless it was a subscription message. */
  lemma StraightThrough(units: seq<Unit>, work: Work, t: Trace)
    requires Bracketed(units, work, t, Nothing)
    ensures t == Straight(|units|, work)
  {
    var k := InnerForm(units, work, t, Nothing);
    assert Processed(t) by {
      if !Processed(t) {
        RaisedByLastBegin(units, work, BeginCalls(k), k, k);
      }
    }
    ToldNothing(units, work, Base(k, true), k, k);
  }

  lemma {:induction false} RaisedByLastBegin(units: seq<Unit>, work: Work, t: Trace, k: nat, m: nat)
    requires 0 < k <= |units| && m <= k && units[k - 1].begin.Some? && t == BeginCalls(k)
    ensures Failures(units, work, Told(units, work, t, k, m)) != []
  {
    if m > 0 {
      RaisedByLastBegin(units, work, t, k, m - 1);
    }
  }
}
