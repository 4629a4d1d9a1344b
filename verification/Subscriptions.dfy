/** Who is subscribed to which message types. */
module Subscriptions {
  import opened Sequences
  import opened Strings
  import opened Addresses
  import opened EnclosedTypes

  datatype Subscription = Subscription(messageType: MessageType, subscriber: Address)

  function IsOf(e: Subscription, t: MessageType, a: Address): bool {
    SameMessageType(e.messageType, t) && e.subscriber == a
  }

  ghost predicate Subscribed(entries: seq<Subscription>, t: MessageType, a: Address) {
    exists e :: e in entries && IsOf(e, t, a)
  }

  function WithSubscriber(entries: seq<Subscription>, t: MessageType, a: Address): seq<Subscription> {
    entries + [Subscription(t, a)]
  }

  function WithoutSubscriber(entries: seq<Subscription>, t: MessageType, a: Address): seq<Subscription> {
    if entries == [] then []
    else (if IsOf(entries[0], t, a) then [] else [entries[0]]) + WithoutSubscriber(entries[1..], t, a)
  }

  /** The type is among those asked for. */
  predicate Wanted(t: MessageType, types: seq<MessageType>) {
    exists i :: 0 <= i < |types| && SameMessageType(t, types[i])
  }

  /** Each address subscribed to one of the types, once. */
  function Subscribers(entries: seq<Subscription>, types: seq<MessageType>): seq<Address> {
    if entries == [] then []
    else
      var before, e := Subscribers(entries[..|entries| - 1], types), entries[|entries| - 1];
      if Wanted(e.messageType, types) && e.subscriber !in before then before + [e.subscriber] else before
  }

  lemma {:induction false} SubscribersHold(entries: seq<Subscription>, types: seq<MessageType>)
    ensures Distinct(Subscribers(entries, types))
    ensures forall a :: a in Subscribers(entries, types) <==> exists t :: t in types && Subscribed(entries, t, a)
  {
    if entries != [] {
      var front, e := entries[..|entries| - 1], entries[|entries| - 1];
      SubscribersHold(front, types);
      forall t, a
        ensures Subscribed(entries, t, a) <==> Subscribed(front, t, a) || IsOf(e, t, a)
      {
        assert entries == front + [e];
      }
      WantedMeans(e.messageType, types);
    }
  }

  lemma WantedMeans(t: MessageType, types: seq<MessageType>)
    ensures Wanted(t, types) <==> exists u :: u in types && SameMessageType(t, u)
  {
    if Wanted(t, types) {
      var i :| 0 <= i < |types| && SameMessageType(t, types[i]);
      assert types[i] in types;
    }
  }

  lemma AfterSubscribe(entries: seq<Subscription>, t: MessageType, a: Address)
    ensures forall u, b ::
      Subscribed(WithSubscriber(entries, t, a), u, b) <==>
          Subscribed(entries, u, b) || (SameMessageType(t, u) && a == b)
  {
    var last := Subscription(t, a);
    forall u, b
      ensures Subscribed(WithSubscriber(entries, t, a), u, b) <==> Subscribed(entries, u, b) || IsOf(last, u, b)
    {
      assert last in WithSubscriber(entries, t, a);
    }
  }

  lemma {:induction false} WithoutSubscriberHolds(entries: seq<Subscription>, t: MessageType, a: Address)
    ensures forall e :: e in WithoutSubscriber(entries, t, a) <==> e in entries && !IsOf(e, t, a)
  {
    if entries != [] {
      WithoutSubscriberHolds(entries[1..], t, a);
      assert entries == [entries[0]] + entries[1..];
    }
  }

  lemma OneKept(entries: seq<Subscription>, i: nat, t: MessageType, a: Address)
    requires i < |entries|
    ensures WithoutSubscriber(entries[i..], t, a)
         == (if IsOf(entries[i], t, a) then [] else [entries[i]]) + WithoutSubscriber(entries[i + 1..], t, a)
  {
    assert entries[i..][1..] == entries[i + 1..];
  }

  lemma AfterUnsubscribe(entries: seq<Subscription>, t: MessageType, a: Address)
    ensures forall u, b ::
      Subscribed(WithoutSubscriber(entries, t, a), u, b) <==>
          Subscribed(entries, u, b) && !(SameMessageType(t, u) && a == b)
  {
    WithoutSubscriberHolds(entries, t, a);
    forall u, b
      ensures Subscribed(WithoutSubscriber(entries, t, a), u, b) <==>
                Subscribed(entries, u, b) && !(SameMessageType(t, u) && a == b)
    {
    }
  }

  class SubscriptionStorage {
    var entries: seq<Subscription>

    constructor ()
      ensures entries == []
    {
      entries := [];
    }

    method Subscribe(client: Address, t: MessageType)
      modifies this
      ensures entries == WithSubscriber(old(entries), t, client)
    {
      entries := entries + [Subscription(t, client)];
    }

    method Unsubscribe(client: Address, t: MessageType)
      modifies this
      ensures entries == WithoutSubscriber(old(entries), t, client)
    {
      var kept := [];
      for i := 0 to |entries|
        invariant entries == old(entries)
        invariant kept + WithoutSubscriber(entries[i..], t, client) == WithoutSubscriber(entries, t, client)
      {
        OneKept(entries, i, t, client);
        if !IsOf(entries[i], t, client) {
          kept := kept + [entries[i]];
        }
      }
      entries := kept;
    }

    method GetSubscriberAddressesForMessage(types: seq<MessageType>) returns (result: seq<Address>)
      ensures result == Subscribers(entries, types)
    {
      result := [];
      for i := 0 to |entries|
        invariant result == Subscribers(entries[..i], types)
      {
        assert entries[..i + 1][..i] == entries[..i];
        if Wanted(entries[i].messageType, types) && entries[i].subscriber !in result {
          result := result + [entries[i].subscriber];
        }
      }
      assert entries[..|entries|] == entries;
    }
  }

  // ---- Publisher and proxy find the same subscribers ----

  function FromTypes(world: World, ts: seq<Type>): seq<MessageType> {
    seq(|ts|, i requires 0 <= i < |ts| => FromType(world.named(ts[i])))
  }

  /** The types as the header's reader parses them; it throws on a part that does not parse. */
  function Parsed(parts: seq<string>): Option<seq<MessageType>> {
    if parts == [] then Some([])
    else
      var first, rest := FromString(parts[0]), Parsed(parts[1..]);
      if first.None? || rest.None? then None else Some([first.value] + rest.value)
  }

  lemma {:induction false} ParsedHolds(parts: seq<string>, ms: seq<MessageType>)
    ensures Parsed(parts) == Some(ms) <==>
            |parts| == |ms| && forall i :: 0 <= i < |parts| ==> FromString(parts[i]) == Some(ms[i])
  {
    if parts != [] && ms != [] {
      ParsedHolds(parts[1..], ms[1..]);
      assert forall i :: 0 < i < |parts| ==> parts[i] == parts[1..][i - 1];
      assert forall i :: 0 < i < |ms| ==> ms[i] == ms[1..][i - 1];
      assert ms == [ms[0]] + ms[1..];
    }
  }

  lemma SameTypesSameSubscribers(entries: seq<Subscription>, ts: seq<MessageType>, us: seq<MessageType>)
    requires forall t :: t in ts <==> t in us
    ensures forall a :: a in Subscribers(entries, ts) <==> a in Subscribers(entries, us)
  {
    SubscribersHold(entries, ts);
    SubscribersHold(entries, us);
  }

  /** If all names are plain, the header parses, to the same set of message types as the publisher
      uses, and the proxy finds the same subscribers as the publisher. */
  lemma SameSubscribers(world: World, messages: seq<Type>, types: seq<Type>, entries: seq<Subscription>)
    requires messages != [] && forall t :: Counts(world, messages, t) ==> PlainName(world.named(t))
    requires forall t :: t in types <==> Counts(world, messages, t)
    ensures var parsed := Parsed(Split(Header(world, messages), ';'));
            parsed.Some? &&
            (forall m :: m in parsed.value <==> m in FromTypes(world, types)) &&
            forall a :: a in Subscribers(entries, parsed.value) <==> a in Subscribers(entries, FromTypes(world, types))
  {
    var ts := Enclosed(world, messages);
    ProxySeesPublishersTypes(world, messages);
    EnclosedHolds(world, messages);
    ParsedHolds(Split(Header(world, messages), ';'), FromTypes(world, ts));
    FromTypesHold(world, ts);
    FromTypesHold(world, types);
    SameTypesSameSubscribers(entries, FromTypes(world, ts), FromTypes(world, types));
  }

  lemma FromTypesHold(world: World, ts: seq<Type>)
    ensures forall m :: m in FromTypes(world, ts) <==> exists t :: t in ts && m == FromType(world.named(t))
  {
    assert forall i :: 0 <= i < |ts| ==> FromTypes(world, ts)[i] in FromTypes(world, ts);
    forall m | m in FromTypes(world, ts)
      ensures exists t :: t in ts && m == FromType(world.named(t))
    {
      var i :| 0 <= i < |ts| && FromTypes(world, ts)[i] == m;
      assert ts[i] in ts;
    }
    forall t | t in ts
      ensures FromType(world.named(t)) in FromTypes(world, ts)
    {
      var i :| 0 <= i < |ts| && ts[i] == t;
      assert FromTypes(world, ts)[i] == FromType(world.named(t));
    }
  }

  /** A subscription is to a type by its name and major version: other minor versions of it are
      notified of, other major versions and other types are not. */
  lemma SubscribedByMajor(t: MessageType, u: MessageType, a: Address, b: Address)
    ensures Subscribed([Subscription(t, a)], u, b) <==>
            a == b && t.typeName == u.typeName && t.version.major == u.version.major
    ensures Subscribers([Subscription(t, a)], [u]) ==
            if t.typeName == u.typeName && t.version.major == u.version.major then [a] else []
  {
    var entries := [Subscription(t, a)];
    assert entries[0] in entries && entries[..0] == [];
    assert Wanted(t, [u]) <==> SameMessageType(t, [u][0]);
  }
}
