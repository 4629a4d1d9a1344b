/** Callbacks registered for replies: the correlation table of the bus and the results in it. */
module Callbacks {
  import opened Strings

  /** What int.MinValue stands for: no return code in the reply. */
  const NO_STATUS: int := -0x8000_0000

  /** A reply: `code` is the error code header of a control message. */
  datatype Reply = Reply(correlationId: Option<string>, code: Option<int>, body: string)

  /** A completion: the reply's status code and its messages. */
  datatype Completion = Completion(errorCode: int, messages: string)

  function CompletionBy(reply: Reply): Completion {
    Completion(if reply.code.Some? then reply.code.value else NO_STATUS, reply.body)
  }

  // ---- Runs: any interleaving of registrations and arriving replies ----

  datatype Event = Registered(id: string) | Arrived(reply: Reply)

  predicate Concerns(e: Event, id: string) {
    match e
    case Registered(i) => i == id
    case Arrived(reply) => reply.correlationId == Some(id)
  }

  /** A result is named by the position of its registration. `completions` pairs it with
      the position of the reply that completed it. */
  datatype State = State(lookup: map<string, nat>, completions: set<(nat, nat)>)

  function Next(s: State, e: Event, at: nat): State {
    match e
    case Registered(id) => s.(lookup := s.lookup[id := at])
    case Arrived(reply) =>
      if reply.correlationId.None? || reply.correlationId.value !in s.lookup then s
      else
        var id := reply.correlationId.value;
        State(s.lookup - {id}, s.completions + {(s.lookup[id], at)})
  }

  function Run(es: seq<Event>): State {
    if es == [] then State(map[], {}) else Next(Run(es[..|es| - 1]), es[|es| - 1], |es| - 1)
  }

  /** Registered at `i` and not heard of since. */
  ghost predicate Waiting(es: seq<Event>, id: string, i: nat) {
    i < |es| && es[i] == Registered(id) && forall k :: i < k < |es| ==> !Concerns(es[k], id)
  }

  lemma {:induction false} WaitingExactly(es: seq<Event>, id: string, i: nat)
    ensures id in Run(es).lookup && Run(es).lookup[id] == i <==> Waiting(es, id, i)
  {
    if es != [] {
      var n := |es| - 1;
      WaitingExactly(es[..n], id, i);
      if i < n && Waiting(es[..n], id, i) && !Concerns(es[n], id) {
        assert Waiting(es, id, i);
      }
    }
  }

  /** The reply at `j` is the first event after registration `i` that concerns its message. */
  ghost predicate FirstReply(es: seq<Event>, i: nat, j: nat) {
    && i < j < |es| && es[i].Registered?
    && es[j].Arrived? && Concerns(es[j], es[i].id)
    && forall k :: i < k < j ==> !Concerns(es[k], es[i].id)
  }

  /** A result is completed exactly by the first reply to its message, unless another
      registration for the same message came before that reply. */
  lemma {:induction false} CompletedExactly(es: seq<Event>, i: nat, j: nat)
    ensures (i, j) in Run(es).completions <==> FirstReply(es, i, j)
  {
    if es != [] {
      var n := |es| - 1;
      var front, e := es[..n], es[n];
      CompletedExactly(front, i, j);
      if e.Arrived? && e.reply.correlationId.Some? {
        WaitingExactly(front, e.reply.correlationId.value, i);
      }
      if j < n {
        assert FirstReply(es, i, j) <==> FirstReply(front, i, j);
      }
    }
  }

  /** Each registered result is completed at most once, and only by a reply to the message
      it was registered for; none of the results still in the table has been completed. */
  lemma AtMostOnce(es: seq<Event>, i: nat, j: nat, k: nat)
    requires (i, j) in Run(es).completions
    ensures i < j < |es| && es[i].Registered? && es[j].Arrived? && es[j].reply.correlationId == Some(es[i].id)
    ensures (i, k) in Run(es).completions ==> k == j
    ensures forall id :: id in Run(es).lookup ==> Run(es).lookup[id] != i
  {
    CompletedExactly(es, i, j);
    CompletedExactly(es, i, k);
    forall id | id in Run(es).lookup
      ensures Run(es).lookup[id] != i
    {
      WaitingExactly(es, id, i);
    }
  }

  lemma RunOneMore(es: seq<Event>, e: Event)
    ensures Run(es + [e]) == Next(Run(es), e, |es|)
  {
    assert (es + [e])[..|es|] == es;
  }

  /** What registration `i` has been completed with. */
  function CompletionOf(es: seq<Event>, i: nat): Option<Completion> {
    if |es| <= i + 1 then None
    else
      var front, e := es[..|es| - 1], es[|es| - 1];
      var earlier := CompletionOf(front, i);
      if earlier.Some? then earlier
      else if e.Arrived? && Awaited(Run(front), e.reply, i) then Some(CompletionBy(e.reply))
      else None
  }

  predicate Awaited(s: State, reply: Reply, i: nat) {
    && reply.correlationId.Some? && reply.correlationId.value in s.lookup
    && s.lookup[reply.correlationId.value] == i
  }

  lemma CompletionOneMore(es: seq<Event>, e: Event, i: nat)
    ensures CompletionOf(es + [e], i) ==
            if i < |es| && CompletionOf(es, i).None? && e.Arrived? && Awaited(Run(es), e.reply, i)
            then Some(CompletionBy(e.reply)) else CompletionOf(es, i)
  {
    assert (es + [e])[..|es|] == es;
  }

  lemma {:induction false} CompletionOfHolds(es: seq<Event>, i: nat)
    ensures CompletionOf(es, i).Some? ==>
              exists j: nat :: FirstReply(es, i, j) && CompletionOf(es, i) == Some(CompletionBy(es[j].reply))
    ensures forall j: nat :: FirstReply(es, i, j) ==> CompletionOf(es, i) == Some(CompletionBy(es[j].reply))
  {
    if |es| > i + 1 {
      var n := |es| - 1;
      var front, e := es[..n], es[n];
      CompletionOfHolds(front, i);
      forall j: nat | j < n
        ensures FirstReply(es, i, j) <==> FirstReply(front, i, j)
      {
      }
      if e.Arrived? && e.reply.correlationId.Some? {
        WaitingExactly(front, e.reply.correlationId.value, i);
      }
      FirstReplyIsLast(es, i);
    }
  }

  lemma FirstReplyIsLast(es: seq<Event>, i: nat)
    requires |es| > i + 1
    ensures var n := |es| - 1;
            FirstReply(es, i, n) <==>
              es[n].Arrived? && es[n].reply.correlationId.Some? && Waiting(es[..n], es[n].reply.correlationId.value, i)
  {
  }

  // ---- The objects follow the runs ----

  /** What a result calls when it is completed, if anything. */
  datatype Callback = NoCallback | Calls(throws: bool)

  class BusAsyncResult {
    const callback: Callback
    var completed: bool
    var result: Option<Completion>
    var released: bool
    ghost var calls: nat

    constructor (callback: Callback)
      ensures this.callback == callback && !completed && result.None? && !released && calls == 0
    {
      this.callback := callback;
      completed, result, released, calls := false, None, false, 0;
    }

    /** The callback is called before blocked threads are released; what it throws is logged. */
    method Complete(c: Completion) returns (logged: bool)
      modifies this
      ensures completed && result == Some(c) && released
      ensures calls == old(calls) + if callback.Calls? then 1 else 0
      ensures logged <==> callback.Calls? && callback.throws
    {
      result := Some(c);
      completed := true;
      logged := false;
      if callback.Calls? {
        calls := calls + 1;
        logged := callback.throws;
      }
      released := true;
    }

    /** Completed with that, by one call of the callback if there is one, or untouched. */
    ghost predicate Holds(completion: Option<Completion>)
      reads this
    {
      && result == completion && completed == released == completion.Some?
      && calls == if completion.Some? && callback.Calls? then 1 else 0
    }
  }

  /** The table holds the results that wait; every registration has a result of its own. */
  ghost predicate Tied(lookup: map<string, BusAsyncResult>, registered: map<nat, BusAsyncResult>, es: seq<Event>) {
    && lookup.Keys == Run(es).lookup.Keys
    && (forall id :: id in lookup ==> Run(es).lookup[id] in registered && registered[Run(es).lookup[id]] == lookup[id])
    && (forall i: nat :: i in registered <==> i < |es| && es[i].Registered?)
    && (forall i, j :: i in registered && j in registered && registered[i] == registered[j] ==> i == j)
  }

  lemma TiedAfterRegistered(lookup: map<string, BusAsyncResult>, registered: map<nat, BusAsyncResult>, es: seq<Event>,
                            id: string, r: BusAsyncResult)
    requires Tied(lookup, registered, es) && forall i :: i in registered ==> registered[i] != r
    ensures Tied(lookup[id := r], registered[|es| := r], es + [Registered(id)])
  {
    var n, es' := |es|, es + [Registered(id)];
    var registered' := registered[n := r];
    assert Run(es').lookup == Run(es).lookup[id := n] by {
      RunOneMore(es, Registered(id));
    }
    assert n !in registered && registered'[n] == r;
    assert forall i: nat :: i in registered' <==> i < n + 1 && es'[i].Registered? by {
      assert es'[n] == Registered(id) && forall i :: 0 <= i < n ==> es'[i] == es[i];
    }
    assert forall i :: i in registered ==> registered'[i] == registered[i];
  }

  lemma NothingCompleted(es: seq<Event>, id: string)
    ensures forall i: nat :: CompletionOf(es + [Registered(id)], i) == CompletionOf(es, i)
  {
    forall i: nat
      ensures CompletionOf(es + [Registered(id)], i) == CompletionOf(es, i)
    {
      CompletionOneMore(es, Registered(id), i);
    }
  }

  lemma AfterRegistered(lookup: map<string, BusAsyncResult>, registered: map<nat, BusAsyncResult>, es: seq<Event>,
                        id: string, r: BusAsyncResult)
    requires Tied(lookup, registered, es) && forall i :: i in registered ==> registered[i] != r
    ensures Tied(lookup[id := r], registered[|es| := r], es + [Registered(id)])
    ensures forall i: nat :: CompletionOf(es + [Registered(id)], i) == CompletionOf(es, i)
  {
    TiedAfterRegistered(lookup, registered, es, id, r);
    NothingCompleted(es, id);
  }

  lemma TiedAfterArrived(lookup: map<string, BusAsyncResult>, registered: map<nat, BusAsyncResult>, es: seq<Event>,
                         reply: Reply)
    requires Tied(lookup, registered, es)
    ensures Tied(if reply.correlationId.Some? then lookup - {reply.correlationId.value} else lookup,
                 registered, es + [Arrived(reply)])
    ensures forall i: nat ::
              CompletionOf(es + [Arrived(reply)], i) ==
              if Awaited(Run(es), reply, i) then Some(CompletionBy(reply)) else CompletionOf(es, i)
    ensures forall i: nat :: Awaited(Run(es), reply, i) ==>
              i in registered && registered[i] == lookup[reply.correlationId.value] && CompletionOf(es, i).None?
  {
    RunOneMore(es, Arrived(reply));
    forall i: nat
      ensures CompletionOf(es + [Arrived(reply)], i) ==
              if Awaited(Run(es), reply, i) then Some(CompletionBy(reply)) else CompletionOf(es, i)
      ensures Awaited(Run(es), reply, i) ==> i in registered && CompletionOf(es, i).None?
    {
      CompletionOneMore(es, Arrived(reply), i);
      if Awaited(Run(es), reply, i) {
        NotCompletedYet(es, reply.correlationId.value);
      }
    }
  }

  /** The result a reply is for. */
  function Hit(lookup: map<string, BusAsyncResult>, reply: Reply): Option<BusAsyncResult> {
    if reply.correlationId.Some? && reply.correlationId.value in lookup then Some(lookup[reply.correlationId.value])
    else None
  }

  lemma AfterArrived(lookup: map<string, BusAsyncResult>, registered: map<nat, BusAsyncResult>, es: seq<Event>,
                     reply: Reply)
    requires Tied(lookup, registered, es)
    ensures Tied(if reply.correlationId.Some? then lookup - {reply.correlationId.value} else lookup,
                 registered, es + [Arrived(reply)])
    ensures forall i :: i in registered ==>
              CompletionOf(es + [Arrived(reply)], i) ==
              if Hit(lookup, reply) == Some(registered[i]) then Some(CompletionBy(reply)) else CompletionOf(es, i)
    ensures forall i :: i in registered && Hit(lookup, reply) == Some(registered[i]) ==> CompletionOf(es, i).None?
    ensures Hit(lookup, reply).Some? ==> Hit(lookup, reply).value in registered.Values
  {
    TiedAfterArrived(lookup, registered, es, reply);
    forall i | i in registered
      ensures Hit(lookup, reply) == Some(registered[i]) <==> Awaited(Run(es), reply, i)
    {
    }
  }

  class CallbackTable {
    var lookup: map<string, BusAsyncResult>
    ghost var history: seq<Event>
    ghost var registered: map<nat, BusAsyncResult>

    /** The table is what the run makes it, and so is every result ever registered. */
    ghost predicate Valid()
      reads this, registered.Values
    {
      && Tied(lookup, registered, history)
      && (forall i :: i in registered ==> registered[i].Holds(CompletionOf(history, i)))
    }

    constructor ()
      ensures Valid() && history == []
    {
      lookup, history, registered := map[], [], map[];
    }

    /** Registering for a message that was sent makes a new result; an earlier one for the
        same message is displaced. */
    method Register(messageId: string, callback: Callback) returns (r: BusAsyncResult)
      requires Valid()
      modifies this
      ensures Valid() && fresh(r) && lookup == old(lookup)[messageId := r]
      ensures history == old(history) + [Registered(messageId)]
      ensures registered == old(registered)[|old(history)| := r]
    {
      r := new BusAsyncResult(callback);
      lookup := lookup[messageId := r];
      AfterRegistered(old(lookup), registered, history, messageId, r);
      history, registered := history + [Registered(messageId)], registered[|history| := r];
    }

    /** Completes the result waiting for the reply's correlation id, if there is one. */
    method HandleCorrelatedMessage(reply: Reply)
      requires Valid()
      modifies this, lookup.Values
      ensures Valid()
      ensures lookup == if reply.correlationId.Some? then old(lookup) - {reply.correlationId.value} else old(lookup)
      ensures history == old(history) + [Arrived(reply)] && registered == old(registered)
      ensures reply.correlationId.Some? && reply.correlationId.value in old(lookup) ==>
                var r := old(lookup)[reply.correlationId.value];
                r.completed && r.result.Some? && r.result.value.messages == reply.body &&
                (reply.code.Some? ==> r.result.value.errorCode == reply.code.value) &&
                (reply.code.None? ==> r.result.value.errorCode == -2147483648)
    {
      AfterArrived(lookup, registered, history, reply);
      history := history + [Arrived(reply)];
      if reply.correlationId.None? || reply.correlationId.value !in lookup {
        return;
      }
      var busAsyncResult := lookup[reply.correlationId.value];
      lookup := lookup - {reply.correlationId.value};
      CompleteOne(busAsyncResult, CompletionBy(reply));
    }

    /** All other results are as the run says already. */
    method CompleteOne(r: BusAsyncResult, c: Completion)
      requires Tied(lookup, registered, history) && r.Holds(None)
      requires forall i :: i in registered ==>
                 if registered[i] == r then CompletionOf(history, i) == Some(c)
                 else registered[i].Holds(CompletionOf(history, i))
      modifies r
      ensures Valid() && r.completed && r.result == Some(c)
    {
      var _ := r.Complete(c);
    }

    /** So a result has been completed, by one call of its callback if it has one, exactly when
        the first event about its message was a reply, and that reply is what it holds. */
    lemma ResultsExact(i: nat)
      requires Valid() && i in registered
      ensures registered[i].completed <==> exists j: nat :: FirstReply(history, i, j)
      ensures forall j: nat :: FirstReply(history, i, j) ==>
                registered[i].result == Some(CompletionBy(history[j].reply))
      ensures registered[i].calls == if registered[i].completed && registered[i].callback.Calls? then 1 else 0
      ensures (exists id :: id in lookup && lookup[id] == registered[i]) ==> !registered[i].completed
    {
      CompletionOfHolds(history, i);
      if id :| id in lookup && lookup[id] == registered[i] {
        NotCompletedYet(history, id);
      }
    }
  }

  lemma NotCompletedYet(es: seq<Event>, id: string)
    requires id in Run(es).lookup
    ensures Run(es).lookup[id] < |es| && CompletionOf(es, Run(es).lookup[id]).None?
  {
    var i := Run(es).lookup[id];
    WaitingExactly(es, id, i);
    CompletionOfHolds(es, i);
  }
}
