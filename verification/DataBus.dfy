/** The claim check for large message properties: out to the data bus, through a gateway,
    and back in. */
module DataBus {
  import opened Strings

  type Payload = string
  type Stream = string
  type Headers = map<string, string>
  type Storage = map<string, Stream>

  const PREFIX := "NServiceBus.DataBus."

  /** A data-bus property by what it holds: a value itself, by convention, or a
      DataBusProperty wrapping one. */
  datatype Content =
    | Plain(value: Option<Payload>)
    | Wrapped(key: Option<string>, hasValue: bool, value: Option<Payload>)

  datatype Property = Property(name: string, content: Content)

  /** Serialize throws on null. */
  datatype Serializer = Serializer(serialize: Payload -> Stream, deserialize: Stream -> Payload)

  ghost predicate Inverse(s: Serializer) {
    forall v :: s.deserialize(s.serialize(v)) == v
  }

  class Bus {
    var storage: Storage

    constructor ()
      ensures storage == map[]
    {
      storage := map[];
    }

    /** Files the data under the key it generates, which is new. */
    method Put(data: Stream, newKey: string)
      requires newKey !in storage
      modifies this
      ensures storage == old(storage)[newKey := data]
    {
      storage := storage[newKey := data];
    }
  }

  /** A message with its data-bus properties and the headers that travel with it. */
  class Message {
    const typeName: string
    var properties: seq<Property>
    var headers: Headers

    constructor (typeName: string, properties: seq<Property>)
      ensures this.typeName == typeName && this.properties == properties && headers == map[]
    {
      this.typeName, this.properties, headers := typeName, properties, map[];
    }
  }

  function OrEmpty(s: Option<string>): string {
    if s.Some? then s.value else ""
  }

  /** The header a property's key is found under: by its own key if it is wrapped, so that
      the infrastructure can redirect it, by type and name otherwise. */
  function HeaderOf(typeName: string, p: Property): string {
    PREFIX + match p.content case Wrapped(key, _, _) => OrEmpty(key) case Plain(_) => Qualified(typeName, p)
  }

  function Qualified(typeName: string, p: Property): string {
    typeName + ['.'] + p.name
  }

  ghost predicate DistinctNames(ps: seq<Property>) {
    forall i, j :: 0 <= i < j < |ps| ==> ps[i].name != ps[j].name
  }

  /** Generated keys are all different, new to the bus, and none is the qualified name of one
      of the properties. */
  ghost predicate FreshKeys(typeName: string, ps: seq<Property>, keys: seq<string>, storage: Storage) {
    && |keys| == |ps| && Apart(typeName, ps, keys)
    && (forall i :: 0 <= i < |keys| ==> keys[i] !in storage)
  }

  ghost predicate Apart(typeName: string, ps: seq<Property>, keys: seq<string>) {
    && (forall i, j :: 0 <= i < j < |keys| ==> keys[i] != keys[j])
    && (forall i, j :: 0 <= i < |keys| && 0 <= j < |ps| ==> keys[i] != Qualified(typeName, ps[j]))
  }

  /** A property after its value has been moved out. */
  function MovedOut(p: Property, key: string): Property {
    match p.content
    case Plain(_) => p.(content := Plain(None))
    case Wrapped(_, hasValue, value) => if value.Some? then p.(content := Wrapped(Some(key), hasValue, value)) else p
  }

  /** Where a property with a value can be found once moved out. */
  ghost predicate Filed(serializer: Serializer, typeName: string, p: Property, key: string,
                        headers: Headers, storage: Storage) {
    p.content.value.Some? ==>
      var h := HeaderOf(typeName, MovedOut(p, key));
      h in headers && headers[h] == key && key in storage && storage[key] == serializer.serialize(p.content.value.value)
  }

  /** The headers a message gets on its way out: one for each value moved out. */
  ghost predicate OnlyFiled(typeName: string, ps: seq<Property>, keys: seq<string>, before: Headers, after: Headers)
    requires |ps| == |keys|
  {
    && before.Keys <= after.Keys
    && forall h :: h in after ==> (h in before && after[h] == before[h]) || FiledUnder(typeName, ps, keys, h)
  }

  ghost predicate FiledUnder(typeName: string, ps: seq<Property>, keys: seq<string>, h: string)
    requires |ps| == |keys|
  {
    exists i :: 0 <= i < |ps| && ps[i].content.value.Some? && h == HeaderOf(typeName, MovedOut(ps[i], keys[i]))
  }

  /** The bus gets one entry for each value moved out and keeps the others. */
  ghost predicate OnlyPut(ps: seq<Property>, keys: seq<string>, before: Storage, after: Storage)
    requires |ps| == |keys|
  {
    && (forall k :: k in before ==> k in after && after[k] == before[k])
    && forall k :: k in after && k !in before ==> exists i :: 0 <= i < |ps| && ps[i].content.value.Some? && k == keys[i]
  }

  lemma HeadersDiffer(typeName: string, p: Property, q: Property, k: string, l: string)
    requires p.name != q.name && k != l && k != Qualified(typeName, q) && l != Qualified(typeName, p)
    requires (p.content.Plain? || p.content.value.Some?) && (q.content.Plain? || q.content.value.Some?)
    ensures HeaderOf(typeName, MovedOut(p, k)) != HeaderOf(typeName, MovedOut(q, l))
  {
    var a, b := HeaderOf(typeName, MovedOut(p, k)), HeaderOf(typeName, MovedOut(q, l));
    assert a[|PREFIX|..] == if p.content.Wrapped? then k else Qualified(typeName, p);
    assert b[|PREFIX|..] == if q.content.Wrapped? then l else Qualified(typeName, q);
    assert Qualified(typeName, p)[|typeName| + 1..] == p.name;
    assert Qualified(typeName, q)[|typeName| + 1..] == q.name;
  }

  /** The first `i` properties have been moved out. */
  ghost predicate SendingUpTo(serializer: Serializer, typeName: string, ps: seq<Property>, keys: seq<string>, i: nat,
                              headers0: Headers, storage0: Storage,
                              properties: seq<Property>, headers: Headers, storage: Storage) {
    && i <= |ps| == |keys| == |properties|
    && OnlyPut(ps, keys, storage0, storage)
    && (forall j :: i <= j < |keys| ==> keys[j] !in storage && properties[j] == ps[j])
    && (forall j :: 0 <= j < i ==>
          properties[j] == MovedOut(ps[j], keys[j]) && Filed(serializer, typeName, ps[j], keys[j], headers, storage))
    && OnlyFiled(typeName, ps, keys, headers0, headers)
  }

  lemma StillFiled(serializer: Serializer, typeName: string, p: Property, k: string, q: Property, l: string,
                   headers: Headers, storage: Storage, data: Stream)
    requires Filed(serializer, typeName, p, k, headers, storage)
    requires p.name != q.name && k != l && k != Qualified(typeName, q) && l != Qualified(typeName, p)
    requires q.content.value.Some?
    ensures Filed(serializer, typeName, p, k, headers[HeaderOf(typeName, MovedOut(q, l)) := l], storage[l := data])
  {
    if p.content.value.Some? {
      HeadersDiffer(typeName, p, q, k, l);
    }
  }

  lemma PutOne(ps: seq<Property>, keys: seq<string>, i: nat, before: Storage, after: Storage, data: Stream)
    requires |ps| == |keys| && OnlyPut(ps, keys, before, after)
    requires i < |ps| && ps[i].content.value.Some? && keys[i] !in after
    ensures OnlyPut(ps, keys, before, after[keys[i] := data])
  {
  }

  lemma FiledOne(typeName: string, ps: seq<Property>, keys: seq<string>, i: nat, before: Headers, after: Headers)
    requires |ps| == |keys| && OnlyFiled(typeName, ps, keys, before, after)
    requires i < |ps| && ps[i].content.value.Some?
    ensures OnlyFiled(typeName, ps, keys, before, after[HeaderOf(typeName, MovedOut(ps[i], keys[i])) := keys[i]])
  {
  }

  lemma SentOne(serializer: Serializer, typeName: string, ps: seq<Property>, keys: seq<string>, i: nat,
                headers0: Headers, storage0: Storage,
                properties: seq<Property>, headers: Headers, storage: Storage)
    requires SendingUpTo(serializer, typeName, ps, keys, i, headers0, storage0, properties, headers, storage)
    requires i < |ps| && ps[i].content.value.Some? && DistinctNames(ps) && FreshKeys(typeName, ps, keys, storage0)
    ensures var sent := MovedOut(ps[i], keys[i]);
            SendingUpTo(serializer, typeName, ps, keys, i + 1, headers0, storage0,
                        properties[i := sent], headers[HeaderOf(typeName, sent) := keys[i]],
                        storage[keys[i] := serializer.serialize(ps[i].content.value.value)])
  {
    var data := serializer.serialize(ps[i].content.value.value);
    PutOne(ps, keys, i, storage0, storage, data);
    FiledOne(typeName, ps, keys, i, headers0, headers);
    forall j | 0 <= j < i
      ensures Filed(serializer, typeName, ps[j], keys[j],
                    headers[HeaderOf(typeName, MovedOut(ps[i], keys[i])) := keys[i]], storage[keys[i] := data])
    {
      StillFiled(serializer, typeName, ps[j], keys[j], ps[i], keys[i], headers, storage, data);
    }
  }

  // ---- What the two mutators make of a property ----

  ghost predicate Holds(m: map<string, string>, k: string, v: string) {
    k in m && m[k] == v
  }

  /** A plain property is null afterwards and its key stands under the type and property name; a
      wrapper has the key, which stands under itself, and keeps its value for the sender. */
  ghost predicate WentOut(serializer: Serializer, typeName: string, before: Property, key: string, after: Property,
                          headers: Headers, storage: Storage) {
    && after.name == before.name
    && match before.content
       case Plain(None) => after == before
       case Plain(Some(v)) =>
         && after.content == Plain(None)
         && Holds(headers, "NServiceBus.DataBus." + (typeName + "." + before.name), key)
         && Holds(storage, key, serializer.serialize(v))
       case Wrapped(_, hasValue, value) =>
         && value.Some? && after.content == Wrapped(Some(key), hasValue, value)
         && Holds(headers, "NServiceBus.DataBus." + key, key) && Holds(storage, key, serializer.serialize(value.value))
  }

  lemma FiledWentOut(serializer: Serializer, typeName: string, p: Property, key: string, headers: Headers,
                     storage: Storage)
    requires Filed(serializer, typeName, p, key, headers, storage) && !(p.content.Wrapped? && p.content.value.None?)
    ensures WentOut(serializer, typeName, p, key, MovedOut(p, key), headers, storage)
  {
    HeaderExactly(typeName, MovedOut(p, key));
  }

  lemma HeaderExactly(typeName: string, p: Property)
    ensures p.content.Plain? ==> HeaderOf(typeName, p) == "NServiceBus.DataBus." + (typeName + "." + p.name)
    ensures p.content.Wrapped? && p.content.key.Some? ==>
              HeaderOf(typeName, p) == "NServiceBus.DataBus." + p.content.key.value
    ensures p.content.Wrapped? && p.content.key.None? ==> HeaderOf(typeName, p) == "NServiceBus.DataBus."
  {
  }

  /** A property gets the payload its header leads to; a wrapper keeps its key and has a value. */
  ghost predicate CameIn(serializer: Serializer, typeName: string, before: Property, after: Property, headers: Headers,
                         storage: Storage) {
    exists header, key, data ::
      && header == (if before.content.Plain? then "NServiceBus.DataBus." + (typeName + "." + before.name)
                    else "NServiceBus.DataBus." + OrEmpty(before.content.key))
      && Holds(headers, header, key) && Holds(storage, key, data)
      && after.name == before.name
      && after.content == if before.content.Plain? then Plain(Some(serializer.deserialize(data)))
                          else Wrapped(before.content.key, true, Some(serializer.deserialize(data)))
  }

  lemma MovedInCameIn(serializer: Serializer, typeName: string, p: Property, headers: Headers, storage: Storage)
    requires Findable(typeName, p, headers, storage)
    ensures CameIn(serializer, typeName, p, MovedIn(serializer, typeName, p, headers, storage), headers, storage)
  {
    HeaderExactly(typeName, p);
    var header := HeaderOf(typeName, p);
    assert Holds(headers, header, headers[header]) && Holds(storage, headers[header], storage[headers[header]]);
  }

  /** On the wire a plain property is as it was; of a wrapper the key and the mark survive. */
  lemma TransmittedExactly(p: Property)
    ensures Transmitted(p).name == p.name
    ensures p.content.Plain? ==> Transmitted(p) == p
    ensures p.content.Wrapped? ==>
              Transmitted(p).content == Wrapped(p.content.key, p.content.hasValue, None)
  {
  }

  class DataBusMessageMutator {
    const bus: Bus
    const serializer: Serializer

    constructor (bus: Bus, serializer: Serializer)
      ensures this.bus == bus && this.serializer == serializer
    {
      this.bus, this.serializer := bus, serializer;
    }

    /** Moves every value out; `keys` are the keys the bus generates. It throws on a
        wrapper around null, which is the only thing that cannot be serialized. */
    method MutateOutgoing(message: Message, keys: seq<string>) returns (ok: bool)
      requires DistinctNames(message.properties)
      requires FreshKeys(message.typeName, message.properties, keys, bus.storage)
      modifies message, bus
      ensures ok <==> forall p :: p in old(message.properties) ==> !(p.content.Wrapped? && p.content.value.None?)
      ensures ok ==>
                |message.properties| == |keys| &&
                forall i :: 0 <= i < |keys| ==>
                  message.properties[i] == MovedOut(old(message.properties)[i], keys[i]) &&
                  Filed(serializer, message.typeName, old(message.properties)[i], keys[i], message.headers, bus.storage)
      ensures ok ==>
                forall i :: 0 <= i < |keys| ==>
                  WentOut(serializer, message.typeName, old(message.properties)[i], keys[i], message.properties[i],
                          message.headers, bus.storage)
      ensures OnlyFiled(message.typeName, old(message.properties), keys, old(message.headers), message.headers)
      ensures OnlyPut(old(message.properties), keys, old(bus.storage), bus.storage)
    {
      ghost var before, headers, storage := message.properties, message.headers, bus.storage;
      for i := 0 to |keys|
        invariant SendingUpTo(serializer, message.typeName, before, keys, i, headers, storage,
                              message.properties, message.headers, bus.storage)
        invariant forall j :: 0 <= j < i ==> !(before[j].content.Wrapped? && before[j].content.value.None?)
      {
        var p := message.properties[i];
        if p.content.value.None? {
          if p.content.Wrapped? {
            return false;
          }
        } else {
          SentOne(serializer, message.typeName, before, keys, i, headers, storage, message.properties,
                  message.headers, bus.storage);
          bus.Put(serializer.serialize(p.content.value.value), keys[i]);
          message.properties := message.properties[i := MovedOut(p, keys[i])];
          message.headers := message.headers[HeaderOf(message.typeName, MovedOut(p, keys[i])) := keys[i]];
        }
      }
      forall i | 0 <= i < |keys|
        ensures WentOut(serializer, message.typeName, before[i], keys[i], message.properties[i], message.headers,
                        bus.storage)
      {
        FiledWentOut(serializer, message.typeName, before[i], keys[i], message.headers, bus.storage);
      }
      return true;
    }

    /** Fetches every value back; it throws if a property has no header or its key is not
        on the bus. */
    method MutateIncoming(message: Message) returns (ok: bool)
      modifies message
      ensures ok <==> forall p :: p in old(message.properties) ==>
                        Findable(message.typeName, p, old(message.headers), bus.storage)
      ensures ok ==>
                |message.properties| == |old(message.properties)| &&
                forall i :: 0 <= i < |message.properties| ==>
                  message.properties[i] ==
                    MovedIn(serializer, message.typeName, old(message.properties)[i], message.headers, bus.storage)
      ensures ok ==>
                forall i :: 0 <= i < |message.properties| ==>
                  CameIn(serializer, message.typeName, old(message.properties)[i], message.properties[i],
                         message.headers, bus.storage)
      ensures message.headers == old(message.headers)
    {
      ghost var before := message.properties;
      for i := 0 to |message.properties|
        invariant message.headers == old(message.headers)
        invariant |message.properties| == |before|
        invariant forall j :: 0 <= j < i ==> Findable(message.typeName, before[j], message.headers, bus.storage)
        invariant forall j :: i <= j < |before| ==> message.properties[j] == before[j]
        invariant forall j :: 0 <= j < i ==>
                    message.properties[j] ==
                        MovedIn(serializer, message.typeName, before[j], message.headers, bus.storage)
      {
        var p := message.properties[i];
        if !Findable(message.typeName, p, message.headers, bus.storage) {
          return false;
        }
        message.properties :=
            message.properties[i := MovedIn(serializer, message.typeName, p, message.headers, bus.storage)];
      }
      forall i | 0 <= i < |before|
        ensures CameIn(serializer, message.typeName, before[i], message.properties[i], message.headers, bus.storage)
      {
        MovedInCameIn(serializer, message.typeName, before[i], message.headers, bus.storage);
      }
      return true;
    }
  }

  predicate Findable(typeName: string, p: Property, headers: Headers, storage: Storage) {
    var h := HeaderOf(typeName, p);
    h in headers && headers[h] in storage
  }

  /** A property after its value has been fetched; a wrapper is marked as having one. */
  function MovedIn(serializer: Serializer, typeName: string, p: Property, headers: Headers,
                   storage: Storage): Property {
    if !Findable(typeName, p, headers, storage) then p
    else
      var value := serializer.deserialize(storage[headers[HeaderOf(typeName, p)]]);
      match p.content
      case Plain(_) => p.(content := Plain(Some(value)))
      case Wrapped(key, _, _) => p.(content := Wrapped(key, true, Some(value)))
  }

  // ---- Between sender and receiver ----

  /** Serialization of the message keeps a wrapper's key but not its value. */
  function Transmitted(p: Property): Property {
    match p.content
    case Plain(_) => p
    case Wrapped(key, hasValue, _) => p.(content := Wrapped(key, hasValue, None))
  }

  /** The payloads may have been copied to another bus under other keys, with the headers
      rewritten accordingly. */
  ghost predicate Relayed(headers: Headers, storage: Storage, headers': Headers, storage': Storage) {
    && headers'.Keys == headers.Keys
    && forall h :: h in headers && PREFIX <= h && headers[h] in storage ==>
         headers'[h] in storage' && storage'[headers'[h]] == storage[headers[h]]
  }

  lemma NotRelayed(headers: Headers, storage: Storage)
    ensures Relayed(headers, storage, headers, storage)
  {
  }

  /** The gateway: every payload a header refers to goes to the other site's bus, and the
      header gets the key it is given there. */
  method TransmitDataBusProperties(headers: Headers, here: Bus, there: Bus, newKeys: string -> string)
    returns (headers': Headers)
    requires here != there
    requires forall h :: h in headers && PREFIX <= h ==> headers[h] in here.storage && newKeys(h) !in there.storage
    requires forall g, h :: g in headers && h in headers && g != h ==> newKeys(g) != newKeys(h)
    modifies there
    ensures Relayed(headers, here.storage, headers', there.storage)
    ensures forall h :: h in headers && PREFIX <= h ==>
              headers'[h] == newKeys(h) && Holds(there.storage, newKeys(h), here.storage[headers[h]])
    ensures forall h :: h in headers && !(PREFIX <= h) ==> headers'[h] == headers[h]
    ensures forall k :: k in old(there.storage) ==> k in there.storage && there.storage[k] == old(there.storage)[k]
  {
    headers' := headers;
    var waiting := set h | h in headers && PREFIX <= h;
    while waiting != {}
      invariant waiting <= headers.Keys && headers'.Keys == headers.Keys
      invariant forall h :: h in waiting ==> PREFIX <= h && newKeys(h) !in there.storage
      invariant forall h :: h in headers && !(PREFIX <= h) ==> headers'[h] == headers[h]
      invariant forall h :: h in headers && PREFIX <= h && h !in waiting ==>
                  headers'[h] == newKeys(h) && newKeys(h) in there.storage &&
                      there.storage[newKeys(h)] == here.storage[headers[h]]
      invariant forall k :: k in old(there.storage) ==> k in there.storage && there.storage[k] == old(there.storage)[k]
    {
      var h :| h in waiting;
      waiting := waiting - {h};
      there.Put(here.storage[headers[h]], newKeys(h));
      headers' := headers'[h := newKeys(h)];
    }
  }

  // ---- The round trip ----

  /** What sending guarantees (MutateOutgoing), for headers that held no data-bus keys. */
  ghost predicate SentOut(serializer: Serializer, typeName: string, ps: seq<Property>, keys: seq<string>,
                          before: Headers, headers: Headers, storage: Storage) {
    && |ps| == |keys| && DistinctNames(ps)
    && Apart(typeName, ps, keys)
    && (forall i :: 0 <= i < |ps| ==> ps[i].content.Wrapped? ==> ps[i].content.value.Some?)
    && (forall i :: 0 <= i < |ps| ==> Filed(serializer, typeName, ps[i], keys[i], headers, storage))
    && (forall h :: h in before ==> !(PREFIX <= h))
    && OnlyFiled(typeName, ps, keys, before, headers)
  }

  lemma HeaderTransmitted(typeName: string, p: Property)
    ensures HeaderOf(typeName, Transmitted(p)) == HeaderOf(typeName, p) && PREFIX <= HeaderOf(typeName, p)
  {
  }

  /** Every property that was sent with a value comes back, wherever its payload has been in between. */
  lemma PropertyRestored(serializer: Serializer, typeName: string, ps: seq<Property>, keys: seq<string>,
                         before: Headers, headers: Headers, storage: Storage,
                         headers': Headers, storage': Storage)
    requires Inverse(serializer) && SentOut(serializer, typeName, ps, keys, before, headers, storage)
    requires Relayed(headers, storage, headers', storage')
    ensures forall i :: 0 <= i < |ps| && ps[i].content.value.Some? ==>
              var p := Transmitted(MovedOut(ps[i], keys[i]));
              Findable(typeName, p, headers', storage') &&
              Restored(ps[i], MovedIn(serializer, typeName, p, headers', storage'))
  {
    forall i | 0 <= i < |ps| && ps[i].content.value.Some?
      ensures var p := Transmitted(MovedOut(ps[i], keys[i]));
              Findable(typeName, p, headers', storage') &&
              Restored(ps[i], MovedIn(serializer, typeName, p, headers', storage'))
    {
      HeaderTransmitted(typeName, MovedOut(ps[i], keys[i]));
    }
  }

  /** A message that was sent can be received exactly when none of its data-bus properties
      was null. */
  lemma ReceivableExactly(serializer: Serializer, typeName: string, ps: seq<Property>, keys: seq<string>,
                          before: Headers, headers: Headers, storage: Storage,
                          headers': Headers, storage': Storage)
    requires Inverse(serializer) && SentOut(serializer, typeName, ps, keys, before, headers, storage)
    requires Relayed(headers, storage, headers', storage')
    ensures (forall i :: 0 <= i < |ps| ==>
              Findable(typeName, Transmitted(MovedOut(ps[i], keys[i])), headers', storage')) <==>
            (forall i :: 0 <= i < |ps| ==> ps[i].content.value.Some?)
  {
    PropertyRestored(serializer, typeName, ps, keys, before, headers, storage, headers', storage');
    forall i | 0 <= i < |ps|
      ensures Findable(typeName, Transmitted(MovedOut(ps[i], keys[i])), headers', storage') <==>
                ps[i].content.value.Some?
    {
      if ps[i].content.value.None? {
        NullHasNoHeader(serializer, typeName, ps, keys, i, before, headers, storage);
        HeaderTransmitted(typeName, MovedOut(ps[i], keys[i]));
      }
    }
  }

  lemma NullHasNoHeader(serializer: Serializer, typeName: string, ps: seq<Property>, keys: seq<string>, i: nat,
                        before: Headers, headers: Headers, storage: Storage)
    requires SentOut(serializer, typeName, ps, keys, before, headers, storage)
    requires i < |ps| && ps[i].content.value.None?
    ensures HeaderOf(typeName, MovedOut(ps[i], keys[i])) !in headers
  {
    var h := HeaderOf(typeName, MovedOut(ps[i], keys[i]));
    HeaderTransmitted(typeName, MovedOut(ps[i], keys[i]));
    forall j | 0 <= j < |ps| && ps[j].content.value.Some?
      ensures h != HeaderOf(typeName, MovedOut(ps[j], keys[j]))
    {
      HeadersDiffer(typeName, ps[i], ps[j], keys[i], keys[j]);
    }
  }

  // ---- From one site to another ----

  function AllTransmitted(ps: seq<Property>): seq<Property> {
    seq(|ps|, i requires 0 <= i < |ps| => Transmitted(ps[i]))
  }

  function Arriving(ps: seq<Property>, keys: seq<string>): seq<Property>
    requires |ps| == |keys|
  {
    seq(|ps|, i requires 0 <= i < |ps| => Transmitted(MovedOut(ps[i], keys[i])))
  }

  /** A property as it was, up to the key of a wrapper, which is then marked as having a value. */
  predicate Restored(before: Property, after: Property) {
    && after.name == before.name && after.content.value == before.content.value
    && match after.content
       case Plain(_) => before.content.Plain?
       case Wrapped(_, hasValue, _) => before.content.Wrapped? && hasValue
  }

  lemma GatewayFinds(serializer: Serializer, typeName: string, ps: seq<Property>, keys: seq<string>,
                     before: Headers, headers: Headers, storage: Storage)
    requires SentOut(serializer, typeName, ps, keys, before, headers, storage)
    ensures forall h :: h in headers && PREFIX <= h ==> headers[h] in storage
  {
    forall h | h in headers && PREFIX <= h
      ensures headers[h] in storage
    {
      var i :| 0 <= i < |ps| && ps[i].content.value.Some? && h == HeaderOf(typeName, MovedOut(ps[i], keys[i]));
    }
  }

  /** One site's part: everything the receiver relies on is there. */
  method SendOut(sender: DataBusMessageMutator, message: Message, keys: seq<string>) returns (ok: bool)
    requires DistinctNames(message.properties)
    requires FreshKeys(message.typeName, message.properties, keys, sender.bus.storage)
    requires forall h :: h in message.headers ==> !(PREFIX <= h)
    modifies message, sender.bus
    ensures ok <==> forall p :: p in old(message.properties) ==> !(p.content.Wrapped? && p.content.value.None?)
    ensures ok ==>
              SentOut(sender.serializer, message.typeName, old(message.properties), keys, old(message.headers),
                      message.headers, sender.bus.storage) &&
              message.properties == Arriving(old(message.properties), keys)
    ensures OnlyPut(old(message.properties), keys, old(sender.bus.storage), sender.bus.storage)
  {
    ok := sender.MutateOutgoing(message, keys);
    if ok {
      message.properties := AllTransmitted(message.properties);
    }
  }

  /** The other site's part. */
  method ReceiveIn(receiver: DataBusMessageMutator, message: Message, ghost ps: seq<Property>, ghost keys: seq<string>,
                   ghost before: Headers, ghost headers: Headers, ghost storage: Storage)
    returns (ok: bool)
    requires Inverse(receiver.serializer)
    requires SentOut(receiver.serializer, message.typeName, ps, keys, before, headers, storage)
    requires Relayed(headers, storage, message.headers, receiver.bus.storage)
    requires message.properties == Arriving(ps, keys)
    modifies message
    ensures ok <==> forall i :: 0 <= i < |ps| ==> ps[i].content.value.Some?
    ensures ok ==> AllRestored(ps, message.properties)
  {
    ArrivalFits(receiver.serializer, message.typeName, ps, keys, before, headers, storage, message.headers,
                receiver.bus.storage);
    ok := receiver.MutateIncoming(message);
    if ok {
      ArrivalRestored(receiver.serializer, message.typeName, ps, keys, before, headers, storage, message.headers,
                      receiver.bus.storage, message.properties);
    }
  }

  lemma ArrivalFits(serializer: Serializer, typeName: string, ps: seq<Property>, keys: seq<string>,
                    before: Headers, headers: Headers, storage: Storage,
                    headers': Headers, storage': Storage)
    requires Inverse(serializer) && SentOut(serializer, typeName, ps, keys, before, headers, storage)
    requires Relayed(headers, storage, headers', storage')
    ensures (forall p :: p in Arriving(ps, keys) ==> Findable(typeName, p, headers', storage')) <==>
            forall i :: 0 <= i < |ps| ==> ps[i].content.value.Some?
  {
    ReceivableExactly(serializer, typeName, ps, keys, before, headers, storage, headers', storage');
    var arrived := Arriving(ps, keys);
    assert forall i :: 0 <= i < |ps| ==> arrived[i] == Transmitted(MovedOut(ps[i], keys[i])) && arrived[i] in arrived;
  }

  lemma ArrivalRestored(serializer: Serializer, typeName: string, ps: seq<Property>, keys: seq<string>,
                        before: Headers, headers: Headers, storage: Storage,
                        headers': Headers, storage': Storage, after: seq<Property>)
    requires Inverse(serializer) && SentOut(serializer, typeName, ps, keys, before, headers, storage)
    requires Relayed(headers, storage, headers', storage')
    requires |after| == |ps| && forall i :: 0 <= i < |ps| ==> ps[i].content.value.Some?
    requires forall i :: 0 <= i < |ps| ==>
        after[i] == MovedIn(serializer, typeName, Arriving(ps, keys)[i], headers', storage')
    ensures AllRestored(ps, after)
  {
    PropertyRestored(serializer, typeName, ps, keys, before, headers, storage, headers', storage');
  }

  ghost predicate AllRestored(before: seq<Property>, after: seq<Property>) {
    |after| == |before| && forall i :: 0 <= i < |before| ==> Restored(before[i], after[i])
  }

  /** A message goes out and comes in over the same bus. */
  method SendAndReceiveLocally(sender: DataBusMessageMutator, receiver: DataBusMessageMutator, message: Message,
                               keys: seq<string>)
    returns (ok: bool)
    requires sender.bus == receiver.bus && sender.serializer == receiver.serializer && Inverse(sender.serializer)
    requires DistinctNames(message.properties)
    requires FreshKeys(message.typeName, message.properties, keys, sender.bus.storage)
    requires forall h :: h in message.headers ==> !(PREFIX <= h)
    modifies message, sender.bus
    ensures ok <==> forall i :: 0 <= i < |old(message.properties)| ==> old(message.properties)[i].content.value.Some?
    ensures ok ==> AllRestored(old(message.properties), message.properties)
    ensures OnlyPut(old(message.properties), keys, old(sender.bus.storage), sender.bus.storage)
  {
    ghost var ps, before := message.properties, message.headers;
    ok := SendOut(sender, message, keys);
    if !ok {
      return;
    }
    NotRelayed(message.headers, sender.bus.storage);
    ok := ReceiveIn(receiver, message, ps, keys, before, message.headers, sender.bus.storage);
  }

  /** A message goes out at one site, through the gateway, and in at another with a bus of its
      own. It arrives exactly when no data-bus property, wrapper or wrapped, was null; then
      every property is restored. What was on the two buses before stays there. */
  method SendAndReceive(sender: DataBusMessageMutator, receiver: DataBusMessageMutator, message: Message,
                        keys: seq<string>, newKeys: string -> string) returns (ok: bool)
    requires sender.bus != receiver.bus && sender.serializer == receiver.serializer && Inverse(sender.serializer)
    requires DistinctNames(message.properties)
    requires FreshKeys(message.typeName, message.properties, keys, sender.bus.storage)
    requires forall h :: h in message.headers ==> !(PREFIX <= h)
    requires forall h :: newKeys(h) !in receiver.bus.storage
    requires forall g, h :: g != h ==> newKeys(g) != newKeys(h)
    modifies message, sender.bus, receiver.bus
    ensures ok <==> forall i :: 0 <= i < |old(message.properties)| ==> old(message.properties)[i].content.value.Some?
    ensures ok ==> AllRestored(old(message.properties), message.properties)
    ensures forall k :: k in old(sender.bus.storage) ==>
              k in sender.bus.storage && sender.bus.storage[k] == old(sender.bus.storage)[k]
    ensures forall k :: k in old(receiver.bus.storage) ==>
              k in receiver.bus.storage && receiver.bus.storage[k] == old(receiver.bus.storage)[k]
  {
    ghost var ps, before := message.properties, message.headers;
    ok := SendOut(sender, message, keys);
    if !ok {
      return;
    }
    ghost var headers, storage := message.headers, sender.bus.storage;
    GatewayFinds(sender.serializer, message.typeName, ps, keys, before, headers, storage);
    message.headers := TransmitDataBusProperties(message.headers, sender.bus, receiver.bus, newKeys);
    ok := ReceiveIn(receiver, message, ps, keys, before, headers, storage);
  }
}
