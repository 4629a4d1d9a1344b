/** The proxy between a client side and a remote server: it forwards requests under ids of
    its own and returns each reply to the client that asked. */
module Proxy {
  import opened Sequences
  import opened Strings
  import opened Addresses
  import opened EnclosedTypes
  import opened Subscriptions

  datatype Intent = Send | Publish | Subscribe | Unsubscribe

  /** `enclosedTypes` and `subscriptionType` are headers. */
  datatype Message = Message(
    intent: Intent, correlationId: Option<string>, idForCorrelation: Option<string>, replyTo: Address,
    enclosedTypes: Option<string>, subscriptionType: Option<string>, body: string)

  datatype ProxyData = ProxyData(id: string, client: Address, correlationId: Option<string>)

  datatype Delivery = Delivery(message: Message, to: Address)

  function Find(queue: seq<ProxyData>, id: string): Option<ProxyData> {
    if queue == [] then None
    else if queue[0].id == id then Some(queue[0])
    else Find(queue[1..], id)
  }

  function RemoveFirst(queue: seq<ProxyData>, id: string): seq<ProxyData> {
    if queue == [] then []
    else if queue[0].id == id then queue[1..]
    else [queue[0]] + RemoveFirst(queue[1..], id)
  }

  class MsmqProxyDataStorage {
    var storageQueue: seq<ProxyData>

    constructor ()
      ensures storageQueue == []
    {
      storageQueue := [];
    }

    method Save(data: ProxyData)
      modifies this
      ensures storageQueue == old(storageQueue) + [data]
    {
      storageQueue := storageQueue + [data];
    }

    /** Receives the first message with that correlation id; null when there is none. */
    method GetAndRemove(id: string) returns (r: Option<ProxyData>)
      modifies this
      ensures r == Find(old(storageQueue), id) && storageQueue == RemoveFirst(old(storageQueue), id)
      ensures r.None? ==> storageQueue == old(storageQueue) && forall d :: d in old(storageQueue) ==> d.id != id
      ensures r.Some? ==> r.value.id == id && TakenOut(old(storageQueue), r.value, storageQueue)
    {
      var queue := storageQueue;
      FindHolds(queue, id);
      for i := 0 to |queue|
        invariant storageQueue == queue
        invariant forall d :: d in queue[..i] ==> d.id != id
        invariant Find(queue[i..], id) == Find(queue, id)
        invariant queue[..i] + RemoveFirst(queue[i..], id) == RemoveFirst(queue, id)
      {
        if queue[i].id == id {
          storageQueue := queue[..i] + queue[i + 1..];
          assert Among(queue[..i], queue[i], queue[i + 1..], queue);
          return Some(queue[i]);
        }
        RemoveFirstStep(queue, i, id);
      }
      assert queue[..|queue|] + [] == queue;
      return None;
    }
  }

  ghost predicate Among(before: seq<ProxyData>, d: ProxyData, behind: seq<ProxyData>, queue: seq<ProxyData>) {
    queue == before + [d] + behind && forall e :: e in before ==> e.id != d.id
  }

  /** The entry and nothing else is gone, and it was the first under its id. */
  ghost predicate TakenOut(queue: seq<ProxyData>, d: ProxyData, left: seq<ProxyData>) {
    exists before, behind :: Among(before, d, behind, queue) && left == before + behind
  }

  lemma RemoveFirstStep(queue: seq<ProxyData>, i: nat, id: string)
    requires i < |queue| && queue[i].id != id
    ensures Find(queue[i + 1..], id) == Find(queue[i..], id)
    ensures queue[..i + 1] + RemoveFirst(queue[i + 1..], id) == queue[..i] + RemoveFirst(queue[i..], id)
  {
    var rest := queue[i..];
    assert rest[0] == queue[i] && rest[1..] == queue[i + 1..];
    assert RemoveFirst(rest, id) == [queue[i]] + RemoveFirst(queue[i + 1..], id);
    assert queue[..i + 1] == queue[..i] + [queue[i]];
  }

  /** A request as forwarded: the server sees the proxy as sender and an id of the proxy's. */
  function Forwarded(m: Message, external: Address, id: string): Message {
    m.(idForCorrelation := Some(id), replyTo := external)
  }

  function IsSubscription(m: Message): bool {
    m.intent.Subscribe? || m.intent.Unsubscribe?
  }

  /** The type a subscription message is about; without one that parses, handling throws. */
  function TypeOf(m: Message): Option<MessageType> {
    if m.subscriptionType.None? then None else FromString(m.subscriptionType.value)
  }

  /** The types a notification is of; it throws without the header, or if a part does not parse. */
  function TypesOf(m: Message): Option<seq<MessageType>> {
    if m.enclosedTypes.None? then None else Parsed(Split(m.enclosedTypes.value, ';'))
  }

  function ToAll(m: Message, subscribers: seq<Address>): seq<Out> {
    seq(|subscribers|, i requires 0 <= i < |subscribers| => Notified(Delivery(m, subscribers[i])))
  }

  // ---- Runs ----

  /** What leaves on the client side: a notification, or a reply and which of the proxy's ids the
      server answered with it. */
  datatype Out = Notified(delivery: Delivery) | Answered(id: string, delivery: Delivery)

  function Deliveries(outs: seq<Out>): seq<Delivery> {
    seq(|outs|, i requires 0 <= i < |outs| => outs[i].delivery)
  }

  /** `requests` records what each forwarded request asked to be remembered. */
  datatype State = State(
    storage: seq<ProxyData>, subscriptions: seq<Subscription>, externalOut: seq<Delivery>, internalOut: seq<Out>,
    requests: seq<ProxyData>)

  datatype Step =
    | Request(m: Message, newId: string)
    | SubscriptionRequest(m: Message)
    | Reply(m: Message)
    | Notification(m: Message)

  datatype Ends = Ends(remoteServer: Address, externalAddress: Address)

  const EMPTY := State([], [], [], [], [])

  /** Ids are globally unique, so a generated one has not been used before. */
  ghost predicate Enabled(s: State, step: Step) {
    match step
    case Request(m, newId) => !IsSubscription(m) && forall r :: r in s.requests ==> r.id != newId
    case SubscriptionRequest(m) => IsSubscription(m) && TypeOf(m).Some?
    case Reply(m) => !m.intent.Publish?
    case Notification(m) => m.intent.Publish? && TypesOf(m).Some?
  }

  ghost function Next(s: State, step: Step, ends: Ends): State
    requires Enabled(s, step)
  {
    match step
    case Request(m, newId) =>
      var data := ProxyData(newId, m.replyTo, m.idForCorrelation);
      s.(storage := s.storage + [data], requests := s.requests + [data],
         externalOut := s.externalOut + [Delivery(Forwarded(m, ends.externalAddress, newId), ends.remoteServer)])
    case SubscriptionRequest(m) =>
      var t := TypeOf(m).value;
      s.(subscriptions := if m.intent.Subscribe? then WithSubscriber(s.subscriptions, t, m.replyTo)
                          else WithoutSubscriber(s.subscriptions, t, m.replyTo),
         externalOut := s.externalOut + [Delivery(m.(replyTo := ends.externalAddress), ends.remoteServer)])
    case Notification(m) =>
      s.(internalOut := s.internalOut + ToAll(m, Subscribers(s.subscriptions, TypesOf(m).value)))
    case Reply(m) =>
      if m.correlationId.None? || Find(s.storage, m.correlationId.value).None? then s
      else
        var id := m.correlationId.value;
        var data := Find(s.storage, id).value;
        s.(storage := RemoveFirst(s.storage, id),
           internalOut := s.internalOut +
               [Answered(id, Delivery(m.(correlationId := data.correlationId), data.client))])
  }

  ghost function Execute(s: State, steps: seq<Step>, ends: Ends): seq<State>
    decreases |steps|
  {
    if steps == [] then [s]
    else if Enabled(s, steps[0]) then Execute(Next(s, steps[0], ends), steps[1..], ends)
    else []
  }

  // ---- The objects follow the runs ----

  class ProxyServer {
    const storage: MsmqProxyDataStorage
    const subscribers: SubscriptionStorage
    const ends: Ends
    var internalOut: seq<Delivery>
    var externalOut: seq<Delivery>
    ghost var state: State

    /** What is stored and sent is what the run made it, and the run is safe. */
    ghost predicate Valid()
      reads this, storage, subscribers
    {
      && storage.storageQueue == state.storage && subscribers.entries == state.subscriptions
      && externalOut == state.externalOut && internalOut == Deliveries(state.internalOut)
      && Safe(state, ends)
    }

    constructor (storage: MsmqProxyDataStorage, subscribers: SubscriptionStorage, ends: Ends)
      requires storage.storageQueue == [] && subscribers.entries == []
      ensures Valid() && state == EMPTY
      ensures this.storage == storage && this.subscribers == subscribers && this.ends == ends
    {
      this.storage, this.subscribers, this.ends := storage, subscribers, ends;
      internalOut, externalOut, state := [], [], EMPTY;
    }

    /** A message from the server side. It throws on a notification that does not say what types
        it is of, and then does nothing. */
    method ExternalMessageReceived(m: Message) returns (ok: bool)
      requires Valid()
      modifies this`internalOut, this`state, storage
      ensures Valid()
      ensures ok <==> (m.intent.Publish? ==> TypesOf(m).Some?)
      ensures if !ok then state == old(state)
              else
                var step := if m.intent.Publish? then Notification(m) else Reply(m);
                Enabled(old(state), step) && state == Next(old(state), step, ends)
      ensures !m.intent.Publish? ==>
                forall r :: r in old(state).requests && Answerable(old(state), m, r) ==>
                  internalOut == old(internalOut) + [Delivery(m.(correlationId := r.correlationId), r.client)]
      ensures !m.intent.Publish? && !(exists r :: r in old(state).requests && Answerable(old(state), m, r)) ==>
                internalOut == old(internalOut) && storage.storageQueue == old(storage.storageQueue)
      ensures m.intent.Publish? && ok ==>
                NotifiedOf(m, Subscribers(old(subscribers.entries), TypesOf(m).value), old(internalOut), internalOut)
    {
      ReplyGoesTo(state, m, ends);
      if m.intent.Publish? {
        var types := TypesOf(m);
        if types.None? {
          return false;
        }
        Notify(m, types.value);
        return true;
      }
      ok := true;
      var data: Option<ProxyData> := None;
      if m.correlationId.Some? {
        data := storage.GetAndRemove(m.correlationId.value);
      }
      SafeStep(state, Reply(m), ends);
      if data.None? {
        if m.correlationId.Some? {
          NothingRemoved(state.storage, m.correlationId.value);
        }
        return;
      }
      internalOut := internalOut + [Delivery(m.(correlationId := data.value.correlationId), data.value.client)];
      state := Next(state, Reply(m), ends);
    }

    method Notify(m: Message, types: seq<MessageType>)
      requires Valid() && m.intent.Publish? && TypesOf(m) == Some(types)
      modifies this`internalOut, this`state
      ensures Valid() && state == Next(old(state), Notification(m), ends)
      ensures NotifiedOf(m, Subscribers(subscribers.entries, types), old(internalOut), internalOut)
    {
      var subs := subscribers.GetSubscriberAddressesForMessage(types);
      ghost var next := Next(state, Notification(m), ends);
      SafeStep(state, Notification(m), ends);
      DeliveriesConcat(state.internalOut, ToAll(m, subs));
      for i := 0 to |subs|
        invariant state == old(state)
        invariant internalOut == old(internalOut) + Deliveries(ToAll(m, subs[..i]))
      {
        OneMoreNotified(m, subs, i);
        internalOut := internalOut + [Delivery(m, subs[i])];
      }
      assert subs[..|subs|] == subs;
      state := next;
    }

    /** A message from the client side; `newId` is the id generated for a request. It throws on a
        subscription message without a type, and then does nothing. */
    method InternalMessageReceived(m: Message, newId: string) returns (ok: bool)
      requires Valid() && forall r :: r in state.requests ==> r.id != newId
      modifies this`externalOut, this`state, storage, subscribers
      ensures Valid()
      ensures ok <==> (IsSubscription(m) ==> TypeOf(m).Some?)
      ensures if !ok then state == old(state)
              else
                var step := if IsSubscription(m) then SubscriptionRequest(m) else Request(m, newId);
                Enabled(old(state), step) && state == Next(old(state), step, ends)
      ensures ok ==>
                externalOut[..|externalOut| - 1] == old(externalOut) &&
                PassedOn(m, ends, externalOut[|externalOut| - 1])
      ensures ok && !m.intent.Subscribe? && !m.intent.Unsubscribe? ==>
                externalOut[|externalOut| - 1].message.idForCorrelation == Some(newId) &&
                storage.storageQueue == old(storage.storageQueue) + [ProxyData(newId, m.replyTo, m.idForCorrelation)]
      ensures m.intent.Subscribe? || m.intent.Unsubscribe? ==>
                storage.storageQueue == old(storage.storageQueue) &&
                (ok ==> externalOut[|externalOut| - 1].message.idForCorrelation == m.idForCorrelation)
    {
      if IsSubscription(m) {
        ok := HandledSubscriptionMessage(m);
        if ok {
          externalOut := externalOut + [Delivery(m.(replyTo := ends.externalAddress), ends.remoteServer)];
          SafeStep(state, SubscriptionRequest(m), ends);
          state := Next(state, SubscriptionRequest(m), ends);
        }
        return;
      }
      var data := ProxyData(newId, m.replyTo, m.idForCorrelation);
      storage.Save(data);
      var forwarded := m.(idForCorrelation := Some(data.id), replyTo := ends.externalAddress);
      externalOut := externalOut + [Delivery(forwarded, ends.remoteServer)];
      SafeStep(state, Request(m, newId), ends);
      state := Next(state, Request(m, newId), ends);
      ok := true;
    }

    /** The part of the bus that keeps subscriptions, without an authorizer. */
    method HandledSubscriptionMessage(m: Message) returns (ok: bool)
      requires IsSubscription(m)
      modifies subscribers
      ensures ok <==> TypeOf(m).Some?
      ensures subscribers.entries ==
              if !ok then old(subscribers.entries)
              else if m.intent.Subscribe? then WithSubscriber(old(subscribers.entries), TypeOf(m).value, m.replyTo)
              else WithoutSubscriber(old(subscribers.entries), TypeOf(m).value, m.replyTo)
    {
      var t := TypeOf(m);
      if t.None? {
        return false;
      }
      if m.intent.Subscribe? {
        subscribers.Subscribe(m.replyTo, t.value);
      } else {
        subscribers.Unsubscribe(m.replyTo, t.value);
      }
      return true;
    }
  }

  /** The request is the one the reply names, and it has not been answered. */
  ghost predicate Answerable(s: State, m: Message, r: ProxyData) {
    m.correlationId == Some(r.id) && !IsAnswered(s, r.id)
  }

  /** Each subscriber gets the message as it came. */
  ghost predicate NotifiedOf(m: Message, subs: seq<Address>, before: seq<Delivery>, after: seq<Delivery>) {
    && |after| == |before| + |subs| && after[..|before|] == before
    && forall i :: 0 <= i < |subs| ==> after[|before| + i].message == m && after[|before| + i].to == subs[i]
  }

  /** What goes to the remote server says the same and names the proxy as its sender. */
  predicate PassedOn(m: Message, ends: Ends, d: Delivery) {
    && d.to == ends.remoteServer && d.message.replyTo == ends.externalAddress
    && d.message.intent == m.intent && d.message.body == m.body && d.message.correlationId == m.correlationId
    && d.message.enclosedTypes == m.enclosedTypes && d.message.subscriptionType == m.subscriptionType
  }

  /** A reply to an unanswered request goes to that request's client, under that request's own
      correlation id and otherwise as it came, and takes that request out of the storage. */
  lemma RepliedTo(s: State, m: Message, r: ProxyData, ends: Ends)
    requires StoreExact(s) && !m.intent.Publish? && r in s.requests && Answerable(s, m, r)
    ensures var n := Next(s, Reply(m), ends);
            n.internalOut ==
              s.internalOut + [Answered(r.id, Delivery(m.(correlationId := r.correlationId), r.client))] &&
            (forall d :: d in n.storage <==> d in s.storage && d != r) &&
            n.requests == s.requests && n.externalOut == s.externalOut && n.subscriptions == s.subscriptions
  {
    FindHolds(s.storage, r.id);
    RemoveFirstHolds(s.storage, r.id);
    assert r in s.storage;
    assert forall d :: d in s.storage && d.id == r.id ==> d == r;
  }

  lemma ReplyGoesTo(s: State, m: Message, ends: Ends)
    requires StoreExact(s)
    ensures !m.intent.Publish? ==>
              forall r :: r in s.requests && Answerable(s, m, r) ==>
                Deliveries(Next(s, Reply(m), ends).internalOut)
                == Deliveries(s.internalOut) + [Delivery(m.(correlationId := r.correlationId), r.client)]
    ensures !m.intent.Publish? && !(exists r :: r in s.requests && Answerable(s, m, r)) ==> Next(s, Reply(m), ends) == s
  {
    if !m.intent.Publish? {
      forall r | r in s.requests && Answerable(s, m, r)
        ensures Deliveries(Next(s, Reply(m), ends).internalOut)
             == Deliveries(s.internalOut) + [Delivery(m.(correlationId := r.correlationId), r.client)]
      {
        RepliedTo(s, m, r, ends);
      }
      if m.correlationId.Some? {
        FindHolds(s.storage, m.correlationId.value);
      }
    }
  }

  lemma TypesReadBack(m: Message, types: seq<MessageType>, t: MessageType)
    ensures TypesOf(m) == Some(types) <==>
            m.enclosedTypes.Some? &&
            var parts := Split(m.enclosedTypes.value, ';');
            |parts| == |types| && forall i :: 0 <= i < |parts| ==> FromString(parts[i]) == Some(types[i])
    ensures TypeOf(m) == Some(t) <==> m.subscriptionType.Some? && FromString(m.subscriptionType.value) == Some(t)
  {
    if m.enclosedTypes.Some? {
      ParsedHolds(Split(m.enclosedTypes.value, ';'), types);
    }
  }

  lemma OneMoreNotified(m: Message, subs: seq<Address>, i: nat)
    requires i < |subs|
    ensures Deliveries(ToAll(m, subs[..i + 1])) == Deliveries(ToAll(m, subs[..i])) + [Delivery(m, subs[i])]
  {
  }

  lemma DeliveriesConcat(a: seq<Out>, b: seq<Out>)
    ensures Deliveries(a + b) == Deliveries(a) + Deliveries(b)
  {
  }

  lemma {:induction false} NothingRemoved(queue: seq<ProxyData>, id: string)
    requires Find(queue, id).None?
    ensures RemoveFirst(queue, id) == queue
  {
    if queue != [] {
      NothingRemoved(queue[1..], id);
    }
  }

  // ---- Safety ----

  ghost predicate IsAnswered(s: State, id: string) {
    exists a :: a in s.internalOut && a.Answered? && a.id == id
  }

  /** The storage is exactly the requests not yet answered, once each. */
  ghost predicate StoreExact(s: State) {
    && (forall i, j :: 0 <= i < j < |s.requests| ==> s.requests[i].id != s.requests[j].id)
    && (forall i, j :: 0 <= i < j < |s.storage| ==> s.storage[i].id != s.storage[j].id)
    && (forall r :: r in s.storage <==> r in s.requests && !IsAnswered(s, r.id))
  }

  /** Each answer went to the client that made the request, under that request's own
      correlation id, and no request was answered twice. */
  ghost predicate AnswersRight(s: State) {
    && (forall a :: a in s.internalOut && a.Answered? ==> exists r :: r in s.requests && Answers(a, r))
    && (forall i, j :: 0 <= i < j < |s.internalOut| && s.internalOut[i].Answered? && s.internalOut[j].Answered? ==>
          s.internalOut[i].id != s.internalOut[j].id)
  }

  predicate Answers(a: Out, r: ProxyData)
    requires a.Answered?
  {
    a.id == r.id && a.delivery.to == r.client && a.delivery.message.correlationId == r.correlationId
  }

  /** The remote server only ever sees the proxy's external address. */
  ghost predicate ClientsHidden(s: State, ends: Ends) {
    forall d :: d in s.externalOut ==> d.to == ends.remoteServer && d.message.replyTo == ends.externalAddress
  }

  /** Every request has been passed on under the proxy's id for it. */
  ghost predicate AllForwarded(s: State) {
    forall r :: r in s.requests ==> exists d :: d in s.externalOut && d.message.idForCorrelation == Some(r.id)
  }

  ghost predicate Safe(s: State, ends: Ends) {
    StoreExact(s) && AnswersRight(s) && ClientsHidden(s, ends) && AllForwarded(s)
  }

  lemma {:induction false} FindHolds(queue: seq<ProxyData>, id: string)
    ensures Find(queue, id).Some? ==> Find(queue, id).value in queue && Find(queue, id).value.id == id
    ensures Find(queue, id).None? ==> forall r :: r in queue ==> r.id != id
  {
    if queue != [] {
      FindHolds(queue[1..], id);
    }
  }

  lemma {:induction false} RemoveFirstHolds(queue: seq<ProxyData>, id: string)
    requires forall i, j :: 0 <= i < j < |queue| ==> queue[i].id != queue[j].id
    ensures var q := RemoveFirst(queue, id);
            (forall i, j :: 0 <= i < j < |q| ==> q[i].id != q[j].id) &&
            (forall r :: r in q <==> r in queue && r.id != id)
  {
    if queue != [] {
      RemoveFirstHolds(queue[1..], id);
      assert forall r :: r in queue <==> r == queue[0] || r in queue[1..];
    }
  }

  lemma StoreAfterRequest(s: State, m: Message, newId: string, ends: Ends)
    requires StoreExact(s) && AnswersRight(s) && Enabled(s, Request(m, newId))
    ensures StoreExact(Next(s, Request(m, newId), ends))
  {
    var n := Next(s, Request(m, newId), ends);
    assert !IsAnswered(n, newId);
    forall r
      ensures r in n.storage <==> r in n.requests && !IsAnswered(n, r.id)
    {
      assert IsAnswered(n, r.id) <==> IsAnswered(s, r.id);
    }
  }

  lemma AnswersAfterRequest(s: State, m: Message, newId: string, ends: Ends)
    requires AnswersRight(s) && Enabled(s, Request(m, newId))
    ensures AnswersRight(Next(s, Request(m, newId), ends))
  {
    var n := Next(s, Request(m, newId), ends);
    forall a | a in n.internalOut && a.Answered?
      ensures exists r :: r in n.requests && Answers(a, r)
    {
      var r :| r in s.requests && Answers(a, r);
      assert r in n.requests;
    }
  }

  lemma StoreAfterReply(s: State, m: Message, ends: Ends)
    requires StoreExact(s) && Enabled(s, Reply(m))
    ensures StoreExact(Next(s, Reply(m), ends))
  {
    if m.correlationId.Some? && Find(s.storage, m.correlationId.value).Some? {
      var id := m.correlationId.value;
      var n := Next(s, Reply(m), ends);
      RemoveFirstHolds(s.storage, id);
      var last := n.internalOut[|s.internalOut|];
      forall r
        ensures IsAnswered(n, r) <==> IsAnswered(s, r) || r == id
      {
        assert last in n.internalOut && last.id == id;
        if a :| a in s.internalOut && a.Answered? && a.id == r {
          assert a in n.internalOut;
        }
      }
    }
  }

  lemma AnswersAfterReply(s: State, m: Message, ends: Ends)
    requires StoreExact(s) && AnswersRight(s) && Enabled(s, Reply(m))
    ensures AnswersRight(Next(s, Reply(m), ends))
  {
    if m.correlationId.Some? && Find(s.storage, m.correlationId.value).Some? {
      var id := m.correlationId.value;
      FindHolds(s.storage, id);
      var data := Find(s.storage, id).value;
      assert data in s.requests && !IsAnswered(s, id);
      assert forall a :: a in s.internalOut && a.Answered? ==> a.id != id;
    }
  }

  lemma SafeAfterNotification(s: State, m: Message, ends: Ends)
    requires Safe(s, ends) && Enabled(s, Notification(m))
    ensures Safe(Next(s, Notification(m), ends), ends)
  {
    var n := Next(s, Notification(m), ends);
    forall a
      ensures a in n.internalOut && a.Answered? <==> a in s.internalOut && a.Answered?
    {
    }
    assert forall id :: IsAnswered(n, id) <==> IsAnswered(s, id);
  }

  lemma ForwardedStep(s: State, step: Step, ends: Ends)
    requires AllForwarded(s) && Enabled(s, step)
    ensures AllForwarded(Next(s, step, ends))
  {
    var n := Next(s, step, ends);
    forall r | r in n.requests
      ensures exists d :: d in n.externalOut && d.message.idForCorrelation == Some(r.id)
    {
      if r in s.requests {
        var d :| d in s.externalOut && d.message.idForCorrelation == Some(r.id);
        assert d in n.externalOut;
      } else {
        assert n.externalOut[|s.externalOut|] in n.externalOut;
      }
    }
  }

  lemma SafeStep(s: State, step: Step, ends: Ends)
    requires Safe(s, ends) && Enabled(s, step)
    ensures Safe(Next(s, step, ends), ends)
  {
    ForwardedStep(s, step, ends);
    match step
    case Request(m, newId) =>
      StoreAfterRequest(s, m, newId, ends);
      AnswersAfterRequest(s, m, newId, ends);
    case SubscriptionRequest(m) =>
      var n := Next(s, step, ends);
      assert forall id :: IsAnswered(n, id) <==> IsAnswered(s, id);
    case Notification(m) =>
      SafeAfterNotification(s, m, ends);
    case Reply(m) =>
      StoreAfterReply(s, m, ends);
      AnswersAfterReply(s, m, ends);
  }

  lemma {:induction false} SafeFrom(s: State, steps: seq<Step>, ends: Ends)
    requires Safe(s, ends)
    ensures forall r :: r in Execute(s, steps, ends) ==> Safe(r, ends)
    decreases |steps|
  {
    if steps != [] && Enabled(s, steps[0]) {
      SafeStep(s, steps[0], ends);
      SafeFrom(Next(s, steps[0], ends), steps[1..], ends);
    }
  }

  /** Over every run, whatever replies the server sends, the storage is exact, answers go
      to the right client under the right id at most once, clients stay hidden and every request
      is passed on. */
  lemma CorrelationSafety(steps: seq<Step>, ends: Ends)
    ensures forall r :: r in Execute(EMPTY, steps, ends) ==> Safe(r, ends)
  {
    SafeFrom(EMPTY, steps, ends);
  }

  /** A reply is delivered exactly when it is the first to an outstanding request; any
      other is dropped without a trace. */
  lemma DeliveredExactly(s: State, m: Message, ends: Ends)
    requires StoreExact(s) && Enabled(s, Reply(m))
    ensures Next(s, Reply(m), ends) != s <==>
            m.correlationId.Some? && (exists r :: r in s.requests && r.id == m.correlationId.value) &&
            !IsAnswered(s, m.correlationId.value)
  {
    if m.correlationId.Some? {
      FindHolds(s.storage, m.correlationId.value);
      var n := Next(s, Reply(m), ends);
      assert Find(s.storage, m.correlationId.value).Some? ==> |n.internalOut| == |s.internalOut| + 1;
    }
  }

  // ---- Who is notified ----

  /** The client's last word on the type was to subscribe. */
  predicate WantsIn(steps: seq<Step>, t: MessageType, a: Address) {
    if steps == [] then false
    else
      var last := steps[|steps| - 1];
      if last.SubscriptionRequest? && last.m.replyTo == a && TypeOf(last.m).Some? &&
          SameMessageType(TypeOf(last.m).value, t)
      then last.m.intent.Subscribe?
      else WantsIn(steps[..|steps| - 1], t, a)
  }

  lemma SubscribedStep(s: State, step: Step, ends: Ends, steps: seq<Step>)
    requires Enabled(s, step) && forall t, a :: Subscribed(s.subscriptions, t, a) <==> WantsIn(steps, t, a)
    ensures forall t, a :: Subscribed(Next(s, step, ends).subscriptions, t, a) <==> WantsIn(steps + [step], t, a)
  {
    assert (steps + [step])[..|steps|] == steps;
    if step.SubscriptionRequest? {
      AfterSubscribe(s.subscriptions, TypeOf(step.m).value, step.m.replyTo);
      AfterUnsubscribe(s.subscriptions, TypeOf(step.m).value, step.m.replyTo);
    }
  }

  lemma {:induction false} SubscribedFrom(s: State, steps: seq<Step>, ends: Ends, earlier: seq<Step>)
    requires forall t, a :: Subscribed(s.subscriptions, t, a) <==> WantsIn(earlier, t, a)
    ensures forall r :: r in Execute(s, steps, ends) ==>
              forall t, a :: Subscribed(r.subscriptions, t, a) <==> WantsIn(earlier + steps, t, a)
    decreases |steps|
  {
    if steps == [] {
      assert earlier + steps == earlier;
    } else if Enabled(s, steps[0]) {
      SubscribedStep(s, steps[0], ends, earlier);
      SubscribedFrom(Next(s, steps[0], ends), steps[1..], ends, earlier + [steps[0]]);
      assert earlier + [steps[0]] + steps[1..] == earlier + steps;
    }
  }

  /** After every run, a notification goes, once each, to exactly the clients whose last word on
      one of its types was to subscribe. */
  lemma NotifiedExactly(steps: seq<Step>, m: Message, s: State, ends: Ends)
    requires s in Execute(EMPTY, steps, ends) && Enabled(s, Notification(m))
    ensures var subs := Subscribers(s.subscriptions, TypesOf(m).value);
            Next(s, Notification(m), ends).internalOut == s.internalOut + ToAll(m, subs) &&
            Distinct(subs) &&
            forall a :: a in subs <==> exists t :: t in TypesOf(m).value && WantsIn(steps, t, a)
  {
    SubscribedFrom(EMPTY, steps, ends, []);
    assert [] + steps == steps;
    SubscribersHold(s.subscriptions, TypesOf(m).value);
  }

  // ---- Where answers come from ----

  ghost predicate RequestedIn(r: ProxyData, steps: seq<Step>) {
    exists m :: Request(m, r.id) in steps && r.client == m.replyTo && r.correlationId == m.idForCorrelation
  }

  ghost predicate RepliedIn(a: Out, r: ProxyData, steps: seq<Step>)
    requires a.Answered?
  {
    exists m :: Reply(m) in steps && m.correlationId == Some(r.id) && a.id == r.id &&
                a.delivery == Delivery(m.(correlationId := r.correlationId), r.client)
  }

  /** Every request comes from a client's message, every answer from a reply that named its request. */
  ghost predicate Traced(s: State, steps: seq<Step>) {
    && (forall r :: r in s.requests ==> RequestedIn(r, steps))
    && (forall a :: a in s.internalOut && a.Answered? ==> exists r :: r in s.requests && RepliedIn(a, r, steps))
  }

  lemma TracedStep(s: State, step: Step, ends: Ends, steps: seq<Step>)
    requires Safe(s, ends) && Enabled(s, step) && Traced(s, steps)
    ensures Traced(Next(s, step, ends), steps + [step])
  {
    var n, more := Next(s, step, ends), steps + [step];
    assert step in more && forall e :: e in steps ==> e in more;
    forall r | r in n.requests
      ensures RequestedIn(r, more)
    {
      if r in s.requests {
        var m :| Request(m, r.id) in steps && r.client == m.replyTo && r.correlationId == m.idForCorrelation;
        assert Request(m, r.id) in more;
      } else {
        assert Request(step.m, r.id) in more;
      }
    }
    forall a | a in n.internalOut && a.Answered?
      ensures exists r :: r in n.requests && RepliedIn(a, r, more)
    {
      if a in s.internalOut {
        var r :| r in s.requests && RepliedIn(a, r, steps);
        var m :| Reply(m) in steps && m.correlationId == Some(r.id) && a.id == r.id &&
                 a.delivery == Delivery(m.(correlationId := r.correlationId), r.client);
        assert Reply(m) in more && r in n.requests;
      } else {
        AnswerIsTo(s, step, a, ends);
        var r :| r in s.requests && Answerable(s, step.m, r) &&
                 a == Answered(r.id, Delivery(step.m.(correlationId := r.correlationId), r.client));
        assert Reply(step.m) in more && RepliedIn(a, r, more);
      }
    }
  }

  lemma AnswerIsTo(s: State, step: Step, a: Out, ends: Ends)
    requires Safe(s, ends) && Enabled(s, step)
    requires a in Next(s, step, ends).internalOut && a !in s.internalOut && a.Answered?
    ensures step.Reply?
    ensures exists r :: r in s.requests && Answerable(s, step.m, r) &&
                        a == Answered(r.id, Delivery(step.m.(correlationId := r.correlationId), r.client))
  {
    ReplyGoesTo(s, step.m, ends);
    var r :| r in s.requests && Answerable(s, step.m, r);
    RepliedTo(s, step.m, r, ends);
  }

  lemma {:induction false} TracedFrom(s: State, steps: seq<Step>, ends: Ends, earlier: seq<Step>)
    requires Safe(s, ends) && Traced(s, earlier)
    ensures forall r :: r in Execute(s, steps, ends) ==> Traced(r, earlier + steps)
    decreases |steps|
  {
    if steps == [] {
      assert earlier + steps == earlier;
    } else if Enabled(s, steps[0]) {
      SafeStep(s, steps[0], ends);
      TracedStep(s, steps[0], ends, earlier);
      TracedFrom(Next(s, steps[0], ends), steps[1..], ends, earlier + [steps[0]]);
      assert earlier + [steps[0]] + steps[1..] == earlier + steps;
    }
  }

  /** Over every run, each answer delivered is a reply that arrived, sent on to the client whose
      request it named, under that client's own correlation id. */
  lemma AnswersTraced(steps: seq<Step>, ends: Ends)
    ensures forall s :: s in Execute(EMPTY, steps, ends) ==> Traced(s, steps)
  {
    TracedFrom(EMPTY, steps, ends, []);
    assert [] + steps == steps;
  }
}
