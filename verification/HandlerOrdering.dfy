/** From the specified handler order and the scanned types to the handlers invoked for a
    message: configuration, the bus's handler list and dispatch. */
module HandlerOrdering {
  import opened Sequences
  import opened Strings

  type Type = nat

  /** What reflection tells about types: which are message handlers, which are abstract,
      the message types in a handler's generic interfaces, whether one with several arguments
      stops the search for them, and assignability of a message type (second argument) to a
      handled type (first). */
  datatype World = World(
    isHandler: Type -> bool, isAbstract: Type -> bool, handled: Type -> seq<Type>, tooGeneric: Type -> bool,
    assignable: (Type, Type) -> bool)

  function Filter(s: seq<Type>, p: Type -> bool): seq<Type> {
    if s == [] then []
    else if p(s[0]) then [s[0]] + Filter(s[1..], p)
    else Filter(s[1..], p)
  }

  function NotIn(ts: seq<Type>): Type -> bool {
    (t: Type) => t !in ts
  }

  /** List.Remove: drops the first occurrence, if there is one. */
  function Remove(s: seq<Type>, t: Type): seq<Type> {
    if s == [] then []
    else if s[0] == t then s[1..]
    else [s[0]] + Remove(s[1..], t)
  }

  function RemoveEach(s: seq<Type>, ts: seq<Type>): seq<Type> {
    if ts == [] then s else Remove(RemoveEach(s, ts[..|ts| - 1]), ts[|ts| - 1])
  }

  // ---- Specifying an order ----

  /** First<T>.Then<K>().AndThen<L>()... */
  class First {
    var types: seq<Type>

    ghost predicate Valid()
      reads this
    {
      Distinct(types)
    }

    constructor Then(t: Type, k: Type)
      ensures Valid() && types == if k == t then [t] else [t, k]
    {
      types := [];
      new;
      AndThen(t);
      AndThen(k);
    }

    method AndThen(k: Type)
      requires Valid()
      modifies this
      ensures Valid() && types == if k in old(types) then old(types) else old(types) + [k]
    {
      if k !in types {
        types := types + [k];
      }
    }
  }

  class Order {
    var types: Option<seq<Type>>

    ghost predicate Valid()
      reads this
    {
      types.Some? ==> Distinct(types.value)
    }

    constructor ()
      ensures Valid() && types.None?
    {
      types := None;
    }

    method SpecifyFirst(t: Type)
      modifies this
      ensures Valid() && types == Some([t])
    {
      types := Some([t]);
    }

    method Specify(ordering: First)
      requires ordering.Valid()
      modifies this
      ensures Valid() && types == Some(ordering.types)
    {
      types := Some(ordering.types);
    }
  }

  // ---- Loading ----

  datatype Loaded = Loaded(types: seq<Type>) | NoOrderSpecified | SpecifiedTwice(t: Type) | DuplicateHandler(t: Type)

  /** Concatenates what the implementors of ISpecifyMessageHandlerOrdering specified. */
  method CollectOrders(orders: seq<Option<seq<Type>>>) returns (r: Loaded)
    requires forall o :: o in orders && o.Some? ==> Distinct(o.value)
    ensures !r.DuplicateHandler?
    ensures r.Loaded? ==> Distinct(r.types) && None !in orders && r.types == Concat(orders)
    ensures r.NoOrderSpecified? ==> None in orders
    ensures r.SpecifiedTwice? ==>
              exists i, j :: 0 <= i < j < |orders| && orders[i].Some? && orders[j].Some? &&
                             r.t in orders[i].value && r.t in orders[j].value
  {
    var types := [];
    for i := 0 to |orders|
      invariant Distinct(types) && types == Concat(orders[..i])
      invariant forall k :: 0 <= k < i ==> orders[k].Some?
      invariant forall t :: t in types ==> exists k :: 0 <= k < i && orders[k].Some? && t in orders[k].value
    {
      if orders[i].None? {
        return NoOrderSpecified;
      }
      var order := orders[i].value;
      for j := 0 to |order|
        invariant forall k :: 0 <= k < j ==> order[k] !in types
      {
        if order[j] in types {
          return SpecifiedTwice(order[j]);
        }
      }
      DistinctConcat(types, order);
      ConcatStep(orders, i);
      types := types + order;
    }
    assert orders[..|orders|] == orders;
    return Loaded(types);
  }

  function Concat(orders: seq<Option<seq<Type>>>): seq<Type> {
    if orders == [] then []
    else
      var o := orders[|orders| - 1];
      Concat(orders[..|orders| - 1]) + if o.Some? then o.value else []
  }

  lemma ConcatStep(orders: seq<Option<seq<Type>>>, i: nat)
    requires i < |orders| && orders[i].Some?
    ensures Concat(orders[..i + 1]) == Concat(orders[..i]) + orders[i].value
  {
    assert orders[..i + 1][..i] == orders[..i];
  }

  /** The specified types first, then what is left of the scanned ones. */
  method LoadMessageHandlers(typesToScan: seq<Type>, orderedTypes: seq<Type>) returns (types: seq<Type>)
    ensures types == orderedTypes + RemoveEach(typesToScan, orderedTypes)
  {
    types := typesToScan;
    for i := 0 to |orderedTypes|
      invariant types == RemoveEach(typesToScan, orderedTypes[..i])
    {
      types := Remove(types, orderedTypes[i]);
      assert orderedTypes[..i + 1][..i] == orderedTypes[..i];
    }
    assert orderedTypes[..|orderedTypes|] == orderedTypes;
    types := orderedTypes + types;
  }

  /** Keeps the handlers; mapping each to a dispatcher factory throws on the second
      occurrence of a type. */
  method ConfigureMessageHandlersIn(world: World, types: seq<Type>) returns (r: Loaded)
    ensures r.Loaded? || r.DuplicateHandler?
    ensures r.Loaded? <==> Distinct(Filter(types, world.isHandler))
    ensures r.Loaded? ==> r.types == Filter(types, world.isHandler)
    ensures r.DuplicateHandler? ==> r.t in types && world.isHandler(r.t)
  {
    var handlers := Handlers(world, types);
    var mapped := {};
    for i := 0 to |handlers|
      invariant mapped == set t | t in handlers[..i]
      invariant Distinct(handlers[..i])
    {
      if handlers[i] in mapped {
        assert exists k :: 0 <= k < i && handlers[k] == handlers[i];
        FilterHolds(types, world.isHandler);
        return DuplicateHandler(handlers[i]);
      }
      mapped := mapped + {handlers[i]};
    }
    assert handlers[..|handlers|] == handlers;
    return Loaded(handlers);
  }

  method Handlers(world: World, types: seq<Type>) returns (handlers: seq<Type>)
    ensures handlers == Filter(types, world.isHandler)
  {
    handlers := [];
    for i := 0 to |types|
      invariant handlers + Filter(types[i..], world.isHandler) == Filter(types, world.isHandler)
    {
      FilterStep(types, i, world.isHandler);
      if world.isHandler(types[i]) {
        handlers := handlers + [types[i]];
      }
    }
  }

  // ---- What the loaded list is ----

  lemma {:induction false} FilterHolds(s: seq<Type>, p: Type -> bool)
    ensures forall t :: t in Filter(s, p) <==> t in s && p(t)
  {
    if s != [] {
      FilterHolds(s[1..], p);
    }
  }

  lemma FilterStep(s: seq<Type>, i: nat, p: Type -> bool)
    requires i < |s|
    ensures Filter(s[i..], p) == if p(s[i]) then [s[i]] + Filter(s[i + 1..], p) else Filter(s[i + 1..], p)
  {
  }

  lemma {:induction false} FilterConcat(a: seq<Type>, b: seq<Type>, p: Type -> bool)
    ensures Filter(a + b, p) == Filter(a, p) + Filter(b, p)
  {
    if a == [] {
      assert a + b == b;
    } else {
      assert (a + b)[1..] == a[1..] + b;
      FilterConcat(a[1..], b, p);
    }
  }

  lemma {:induction false} FilterDistinct(s: seq<Type>, p: Type -> bool)
    requires Distinct(s)
    ensures Distinct(Filter(s, p))
  {
    if s != [] {
      FilterDistinct(s[1..], p);
      FilterHolds(s[1..], p);
    }
  }

  lemma {:induction false} RemoveFilters(s: seq<Type>, t: Type)
    requires Distinct(s)
    ensures Remove(s, t) == Filter(s, NotIn([t]))
  {
    if s != [] {
      if s[0] == t {
        FilterAll(s[1..], NotIn([t]));
      } else {
        RemoveFilters(s[1..], t);
      }
    }
  }

  lemma {:induction false} FilterAll(s: seq<Type>, p: Type -> bool)
    requires forall t :: t in s ==> p(t)
    ensures Filter(s, p) == s
  {
    if s != [] {
      FilterAll(s[1..], p);
    }
  }

  lemma {:induction false} FilterTwice(s: seq<Type>, p: Type -> bool, q: Type -> bool, r: Type -> bool)
    requires forall t :: r(t) <==> p(t) && q(t)
    ensures Filter(Filter(s, p), q) == Filter(s, r)
  {
    if s != [] {
      FilterTwice(s[1..], p, q, r);
    }
  }

  lemma {:induction false} RemoveEachFilters(s: seq<Type>, ts: seq<Type>)
    requires Distinct(s)
    ensures RemoveEach(s, ts) == Filter(s, NotIn(ts))
  {
    if ts == [] {
      FilterAll(s, NotIn(ts));
    } else {
      var n := |ts| - 1;
      var front, last := ts[..n], ts[n];
      assert ts == front + [last];
      RemoveEachFilters(s, front);
      FilterDistinct(s, NotIn(front));
      RemoveFilters(Filter(s, NotIn(front)), last);
      FilterTwice(s, NotIn(front), NotIn([last]), NotIn(ts));
    }
  }

  /** When the scan lists each type once, loading yields the specified types in their
      order followed by all other scanned types in scan order, each type once. */
  lemma LoadedList(scan: seq<Type>, ordered: seq<Type>)
    requires Distinct(scan) && Distinct(ordered)
    ensures var loaded := ordered + RemoveEach(scan, ordered);
            loaded == ordered + Filter(scan, NotIn(ordered)) && Distinct(loaded)
  {
    RemoveEachFilters(scan, ordered);
    FilterDistinct(scan, NotIn(ordered));
    FilterHolds(scan, NotIn(ordered));
    DistinctConcat(ordered, Filter(scan, NotIn(ordered)));
  }

  lemma DistinctConcat(a: seq<Type>, b: seq<Type>)
    requires Distinct(a) && Distinct(b) && forall t :: t in a ==> t !in b
    ensures Distinct(a + b)
  {
    forall i, j | 0 <= i < j < |a + b|
      ensures (a + b)[i] != (a + b)[j]
    {
      if i < |a| <= j {
        assert a[i] in a && b[j - |a|] in b;
      }
    }
  }

  lemma {:induction false} CountsOfDistinct(s: seq<Type>)
    ensures Distinct(s) <==> forall t :: multiset(s)[t] <= 1
  {
    if s != [] {
      var front, last := s[..|s| - 1], s[|s| - 1];
      assert s == front + [last];
      CountsOfDistinct(front);
      if Distinct(s) {
        assert last !in front;
      } else if Distinct(front) {
        assert last in front;
        assert multiset(s)[last] >= 2;
      } else {
        var t :| multiset(front)[t] > 1;
        assert multiset(s)[t] > 1;
      }
    }
  }

  lemma {:induction false} CountsOfFilter(s: seq<Type>, p: Type -> bool)
    ensures forall t :: multiset(Filter(s, p))[t] == if p(t) then multiset(s)[t] else 0
  {
    if s != [] {
      CountsOfFilter(s[1..], p);
      assert s == [s[0]] + s[1..];
    }
  }

  lemma {:induction false} CountsOfRemove(s: seq<Type>, t: Type)
    ensures multiset(Remove(s, t)) == multiset(s) - multiset{t}
  {
    if s != [] {
      assert s == [s[0]] + s[1..];
      if s[0] != t {
        CountsOfRemove(s[1..], t);
      }
    }
  }

  lemma {:induction false} CountOfRemoveEach(s: seq<Type>, ts: seq<Type>, t: Type)
    ensures multiset(RemoveEach(s, ts))[t] ==
            if multiset(s)[t] > multiset(ts)[t] then multiset(s)[t] - multiset(ts)[t] else 0
  {
    if ts != [] {
      var n := |ts| - 1;
      CountOfRemoveEach(s, ts[..n], t);
      CountsOfRemove(RemoveEach(s, ts[..n]), ts[n]);
      assert ts == ts[..n] + [ts[n]];
    }
  }

  /** Configuration goes through exactly when the scan lists no handler type twice. */
  lemma LoadsExactly(scan: seq<Type>, ordered: seq<Type>, isHandler: Type -> bool)
    requires Distinct(ordered)
    ensures Distinct(Filter(ordered + RemoveEach(scan, ordered), isHandler)) <==> Distinct(Filter(scan, isHandler))
  {
    var loaded := ordered + RemoveEach(scan, ordered);
    CountsOfDistinct(ordered);
    CountsOfFilter(loaded, isHandler);
    CountsOfFilter(scan, isHandler);
    CountsOfDistinct(Filter(loaded, isHandler));
    CountsOfDistinct(Filter(scan, isHandler));
    forall t
      ensures multiset(loaded)[t] <= 1 <==> multiset(scan)[t] <= 1
    {
      CountOfRemoveEach(scan, ordered, t);
      assert multiset(loaded)[t] == multiset(ordered)[t] + multiset(RemoveEach(scan, ordered))[t];
    }
    assert forall t :: multiset(Filter(loaded, isHandler))[t] <= 1 <==> multiset(Filter(scan, isHandler))[t] <= 1;
  }

  // ---- The bus ----

  /** Handlers the bus keeps: concrete ones with a message type in their interfaces. */
  predicate Keeps(world: World, t: Type) {
    !world.isAbstract(t) && world.handled(t) != []
  }

  predicate Loadable(world: World, t: Type) {
    world.isAbstract(t) || !world.tooGeneric(t)
  }

  predicate Matches(world: World, handler: Type, messageType: Type) {
    exists m :: m in world.handled(handler) && world.assignable(m, messageType)
  }

  function MatchesFor(world: World, messageType: Type): Type -> bool {
    (t: Type) => Matches(world, t, messageType)
  }

  /** Whether running a handler's dispatchers asks to stop, and what it throws. */
  datatype Behaviour = Behaviour(asksToStop: bool, throws: Option<string>)

  datatype Dispatch = Invoked(handlers: seq<Type>) | Failed(error: string)

  /** How many of the handlers are run: up to and including the first after which the
      stop flag is set, or up to the first that throws. */
  function Run(hs: seq<Type>, behave: Type -> Behaviour, stop: bool): (n: nat)
    ensures n <= |hs|
  {
    if hs == [] || behave(hs[0]).throws.Some? then 0
    else if stop || behave(hs[0]).asksToStop then 1
    else 1 + Run(hs[1..], behave, false)
  }

  class UnicastBus {
    const world: World
    var keys: seq<Type>
    var handlerList: map<Type, seq<Type>>
    var doNotContinue: bool

    /** The dictionary handlerList enumerates in insertion order. */
    ghost predicate Keyed()
      reads this
    {
      Distinct(keys) && forall t :: t in keys <==> t in handlerList
    }

    ghost predicate Valid()
      reads this
    {
      && Keyed()
      && forall t :: t in handlerList ==>
           Keeps(world, t) && forall m :: m in handlerList[t] <==> m in world.handled(t)
    }

    constructor (world: World)
      ensures Valid() && this.world == world && keys == [] && !doNotContinue
    {
      this.world := world;
      keys, handlerList, doNotContinue := [], map[], false;
    }

    /** Throws, with what was found until then, at a generic interface with several arguments. */
    method IfTypeIsMessageHandlerThenLoad(handler: Type) returns (ok: bool)
      requires Valid()
      modifies this`keys, this`handlerList
      ensures Valid()
      ensures ok <==> Loadable(world, handler)
      ensures keys == if Keeps(world, handler) && handler !in old(keys) then old(keys) + [handler] else old(keys)
      ensures handler in keys <==> handler in old(keys) || (!world.isAbstract(handler) && world.handled(handler) != [])
      ensures ok <==> world.isAbstract(handler) || !world.tooGeneric(handler)
    {
      if world.isAbstract(handler) {
        return true;
      }
      var messageTypes := world.handled(handler);
      ghost var keys0, list0 := keys, handlerList;
      for i := 0 to |messageTypes|
        invariant Keyed()
        invariant i == 0 ==> keys == keys0 && handlerList == list0
        invariant i > 0 ==> keys == if handler in keys0 then keys0 else keys0 + [handler]
        invariant forall t :: t in keys0 && t != handler ==> t in handlerList && handlerList[t] == list0[t]
        invariant handler in keys0 ==> forall m :: m in handlerList[handler] <==> m in messageTypes
        invariant handler !in keys0 && i > 0 ==> forall m :: m in handlerList[handler] <==> m in messageTypes[..i]
      {
        Associate(handler, messageTypes[i]);
      }
      assert messageTypes[..|messageTypes|] == messageTypes;
      ok := !world.tooGeneric(handler);
    }

    /** The setter of MessageHandlerTypes; it stops at the first type that cannot be loaded. */
    method LoadHandlers(types: seq<Type>) returns (ok: bool)
      requires Valid()
      modifies this`keys, this`handlerList
      ensures Valid()
      ensures ok <==> forall t :: t in types ==> Loadable(world, t)
      ensures ok ==> keys == Extended(world, old(keys), types)
      ensures !ok ==> exists i :: 0 <= i < |types| && !Loadable(world, types[i]) &&
                                  keys == Extended(world, old(keys), types[..i + 1])
    {
      for i := 0 to |types|
        invariant Valid() && keys == Extended(world, old(keys), types[..i])
        invariant forall k :: 0 <= k < i ==> Loadable(world, types[k])
      {
        assert types[..i + 1][..i] == types[..i];
        ok := IfTypeIsMessageHandlerThenLoad(types[i]);
        if !ok {
          assert types[i] in types;
          return;
        }
      }
      assert types[..|types|] == types;
      return true;
    }

    method Associate(handler: Type, messageType: Type)
      requires Keyed()
      modifies this`keys, this`handlerList
      ensures Keyed()
      ensures keys == if handler in old(keys) then old(keys) else old(keys) + [handler]
      ensures forall t :: t in old(keys) && t != handler ==> handlerList[t] == old(handlerList)[t]
      ensures forall m :: m in handlerList[handler] <==>
                m == messageType || (handler in old(keys) && m in old(handlerList)[handler])
    {
      if handler !in handlerList {
        keys, handlerList := keys + [handler], handlerList[handler := []];
      }
      if messageType !in handlerList[handler] {
        handlerList := handlerList[handler := handlerList[handler] + [messageType]];
      }
    }

    method Handles(handler: Type, messageType: Type) returns (matches: bool)
      requires Valid() && handler in keys
      ensures matches == Matches(world, handler, messageType)
    {
      var known := handlerList[handler];
      for i := 0 to |known|
        invariant forall k :: 0 <= k < i ==> !world.assignable(known[k], messageType)
      {
        if world.assignable(known[i], messageType) {
          assert known[i] in known;
          return true;
        }
      }
      return false;
    }

    method GetHandlerTypes(messageType: Type) returns (handlers: seq<Type>)
      requires Valid()
      ensures handlers == Filter(keys, MatchesFor(world, messageType))
      ensures forall t :: t in handlers <==>
                t in keys && exists m :: m in world.handled(t) && world.assignable(m, messageType)
    {
      FilterHolds(keys, MatchesFor(world, messageType));
      handlers := [];
      ghost var p := MatchesFor(world, messageType);
      for i := 0 to |keys|
        invariant handlers + Filter(keys[i..], p) == Filter(keys, p)
      {
        FilterStep(keys, i, p);
        var matches := Handles(keys[i], messageType);
        if matches {
          handlers := handlers + [keys[i]];
        }
      }
    }

    /** `behave` says what running a handler does. */
    method DispatchMessageToHandlersBasedOnType(messageType: Type, behave: Type -> Behaviour) returns (r: Dispatch)
      requires Valid()
      modifies this`doNotContinue
      ensures var hs := Filter(keys, MatchesFor(world, messageType));
              r == Outcome(hs, behave, old(doNotContinue)) &&
              doNotContinue == FlagAfter(hs, behave, old(doNotContinue)) &&
              DispatchMeans(hs, behave, old(doNotContinue), r, doNotContinue)
    {
      var hs := GetHandlerTypes(messageType);
      DispatchExactly(hs, behave, doNotContinue);
      r := RunHandlers(hs, behave);
    }

    method RunHandlers(hs: seq<Type>, behave: Type -> Behaviour) returns (r: Dispatch)
      modifies this`doNotContinue
      ensures r == Outcome(hs, behave, old(doNotContinue))
      ensures doNotContinue == FlagAfter(hs, behave, old(doNotContinue))
    {
      var invoked := [];
      for i := 0 to |hs|
        invariant invoked == hs[..i]
        invariant i > 0 ==> !doNotContinue
        invariant i + Run(hs[i..], behave, doNotContinue) == Run(hs, behave, old(doNotContinue))
        invariant Throws(hs[i..], behave, doNotContinue) == Throws(hs, behave, old(doNotContinue))
        invariant FlagAfter(hs[i..], behave, doNotContinue) == FlagAfter(hs, behave, old(doNotContinue))
      {
        var b := behave(hs[i]);
        assert hs[i..][1..] == hs[i + 1..];
        if b.asksToStop {
          doNotContinue := true;
        }
        if b.throws.Some? {
          return Failed(b.throws.value);
        }
        invoked := invoked + [hs[i]];
        if doNotContinue {
          doNotContinue := false;
          return Invoked(invoked);
        }
      }
      return Invoked(invoked);
    }
  }

  /** Whether the run ends in the exception of the next handler. */
  predicate Throws(hs: seq<Type>, behave: Type -> Behaviour, stop: bool) {
    var n := Run(hs, behave, stop);
    n < |hs| && behave(hs[n]).throws.Some? && (n == 0 || !(stop || exists i :: 0 <= i < n && behave(hs[i]).asksToStop))
  }

  /** What dispatching ends in, with the stop flag as it is on entry. */
  function Outcome(hs: seq<Type>, behave: Type -> Behaviour, stop: bool): Dispatch {
    var n := Run(hs, behave, stop);
    if Throws(hs, behave, stop) then Failed(behave(hs[n]).throws.value) else Invoked(hs[..n])
  }

  function FlagAfter(hs: seq<Type>, behave: Type -> Behaviour, stop: bool): bool {
    if hs == [] then stop
    else if behave(hs[0]).throws.Some? then stop || behave(hs[0]).asksToStop
    else if stop || behave(hs[0]).asksToStop then false
    else FlagAfter(hs[1..], behave, false)
  }

  function Extended(world: World, keys: seq<Type>, types: seq<Type>): seq<Type> {
    if types == [] then keys
    else
      var before, t := Extended(world, keys, types[..|types| - 1]), types[|types| - 1];
      if Keeps(world, t) && t !in before then before + [t] else before
  }

  // ---- The promises of dispatch ----

  /** With the flag clear on entry and no exception, the handlers run are those up to and
      including the first that asks to stop, or all. */
  lemma {:induction false} StopsAtFirstRequest(hs: seq<Type>, behave: Type -> Behaviour)
    requires forall t :: t in hs ==> behave(t).throws.None?
    ensures var n := Run(hs, behave, false);
            (forall i :: 0 <= i < n - 1 ==> !behave(hs[i]).asksToStop) &&
            (n < |hs| ==> n > 0 && behave(hs[n - 1]).asksToStop)
  {
    if hs != [] && !behave(hs[0]).asksToStop {
      StopsAtFirstRequest(hs[1..], behave);
    }
  }

  predicate Passes(b: Behaviour) {
    b.throws.None? && !b.asksToStop
  }

  /** What dispatching means, from the stop flag on entry to the one it leaves. Failed: the first
      handler that does not let the next one run throws. Invoked: none of the handlers run throws,
      and they are all or end with the first that asks to stop; with the flag set on entry the
      first handler is the last. */
  ghost predicate DispatchMeans(hs: seq<Type>, behave: Type -> Behaviour, stop: bool, r: Dispatch, flag: bool) {
    match r
    case Failed(error) =>
      exists i :: 0 <= i < |hs| && behave(hs[i]).throws == Some(error) &&
                  (forall j :: 0 <= j < i ==> Passes(behave(hs[j]))) &&
                  (stop ==> i == 0) && flag == (stop || behave(hs[i]).asksToStop)
    case Invoked(ran) =>
      && ran <= hs && (forall i :: 0 <= i < |ran| ==> behave(ran[i]).throws.None?)
      && (forall i :: 0 <= i < |ran| - 1 ==> Passes(behave(ran[i])))
      && (hs == [] ==> flag == stop)
      && (hs != [] ==> ran != [] && !flag && (stop ==> |ran| == 1) &&
                       (|ran| < |hs| ==> stop || behave(ran[|ran| - 1]).asksToStop))
  }

  /** That is what comes out, for any behaviour and either flag. */
  lemma {:induction false} DispatchExactly(hs: seq<Type>, behave: Type -> Behaviour, stop: bool)
    ensures DispatchMeans(hs, behave, stop, Outcome(hs, behave, stop), FlagAfter(hs, behave, stop))
  {
    if hs != [] && behave(hs[0]).throws.Some? {
      assert Outcome(hs, behave, stop) == Failed(behave(hs[0]).throws.value);
    } else if hs != [] && (stop || behave(hs[0]).asksToStop) {
      assert Run(hs, behave, stop) == 1;
      assert Outcome(hs, behave, stop) == Invoked(hs[..1]);
    } else if hs != [] {
      DispatchExactly(hs[1..], behave, false);
      OutcomeLater(hs, behave);
      PassedFirst(hs, behave, Outcome(hs[1..], behave, false), FlagAfter(hs[1..], behave, false));
    }
  }

  function After(t: Type, r: Dispatch): Dispatch {
    if r.Failed? then r else Invoked([t] + r.handlers)
  }

  lemma OutcomeLater(hs: seq<Type>, behave: Type -> Behaviour)
    requires hs != [] && Passes(behave(hs[0]))
    ensures Outcome(hs, behave, false) == After(hs[0], Outcome(hs[1..], behave, false))
  {
    var n := Run(hs[1..], behave, false);
    ThrowsLater(hs, behave);
    assert Run(hs, behave, false) == n + 1;
    assert hs[..n + 1] == [hs[0]] + hs[1..][..n];
  }

  lemma PassedFirst(hs: seq<Type>, behave: Type -> Behaviour, r: Dispatch, flag: bool)
    requires hs != [] && Passes(behave(hs[0])) && DispatchMeans(hs[1..], behave, false, r, flag)
    ensures DispatchMeans(hs, behave, false, After(hs[0], r), flag)
  {
    match r
    case Failed(error) =>
      var i :| 0 <= i < |hs[1..]| && behave(hs[1..][i]).throws == Some(error) &&
               (forall j :: 0 <= j < i ==> Passes(behave(hs[1..][j]))) && flag == behave(hs[1..][i]).asksToStop;
      assert hs[i + 1] == hs[1..][i];
      assert forall j :: 0 < j < i + 1 ==> hs[j] == hs[1..][j - 1];
    case Invoked(ran) =>
      var more := [hs[0]] + ran;
      assert forall i :: 0 < i < |more| ==> more[i] == ran[i - 1];
  }

  /** And the meaning admits nothing else. */
  lemma DispatchedOnce(hs: seq<Type>, behave: Type -> Behaviour, stop: bool, r: Dispatch, flag: bool)
    requires DispatchMeans(hs, behave, stop, r, flag)
    ensures r == Outcome(hs, behave, stop) && flag == FlagAfter(hs, behave, stop)
  {
    DispatchExactly(hs, behave, stop);
    SameMeaning(hs, behave, stop, r, flag, Outcome(hs, behave, stop), FlagAfter(hs, behave, stop));
  }

  lemma SameMeaning(hs: seq<Type>, behave: Type -> Behaviour, stop: bool, r: Dispatch, flag: bool, r': Dispatch,
                    flag': bool)
    requires DispatchMeans(hs, behave, stop, r, flag) && DispatchMeans(hs, behave, stop, r', flag')
    ensures r == r' && flag == flag'
  {
    match (r, r')
    case (Failed(_), Failed(_)) =>
    case (Invoked(ran), Invoked(ran')) => assert |ran| == |ran'|;
    case (Failed(_), Invoked(_)) => FailedIsNotInvoked(hs, behave, stop, r, flag);
    case (Invoked(_), Failed(_)) => FailedIsNotInvoked(hs, behave, stop, r', flag');
  }

  lemma FailedIsNotInvoked(hs: seq<Type>, behave: Type -> Behaviour, stop: bool, r: Dispatch, flag: bool)
    requires r.Failed? && DispatchMeans(hs, behave, stop, r, flag)
    ensures forall ran, flag' :: !DispatchMeans(hs, behave, stop, Invoked(ran), flag')
  {
    var i :| 0 <= i < |hs| && behave(hs[i]).throws == Some(r.error) &&
             (forall j :: 0 <= j < i ==> Passes(behave(hs[j]))) && (stop ==> i == 0);
    forall ran, flag'
      ensures !DispatchMeans(hs, behave, stop, Invoked(ran), flag')
    {
      if ran != [] && ran <= hs {
        assert ran[|ran| - 1] == hs[|ran| - 1];
        assert i < |ran| ==> ran[i] == hs[i];
      }
    }
  }

  /** A stop flag left set by an earlier message changes what dispatching ends in exactly when
      there are several handlers and the first neither throws nor asks to stop itself. A
      failure of the second is then hidden, for it does not run. */
  lemma StaleFlagMatters(hs: seq<Type>, behave: Type -> Behaviour)
    ensures Outcome(hs, behave, true) != Outcome(hs, behave, false) <==>
            |hs| > 1 && behave(hs[0]).throws.None? && !behave(hs[0]).asksToStop
  {
    if |hs| > 1 && behave(hs[0]).throws.None? && !behave(hs[0]).asksToStop {
      assert Outcome(hs, behave, true) == Invoked(hs[..1]);
      var n := Run(hs[1..], behave, false);
      assert Run(hs, behave, false) == n + 1 && hs[1..][0] == hs[1];
      if n == 0 {
        assert behave(hs[1]).throws.Some?;
        assert Throws(hs, behave, false);
      } else {
        assert |hs[..n + 1]| != |hs[..1]|;
      }
    }
  }

  /** Such a message: two handlers, of which the second fails unless the flag hides it. */
  lemma StaleFlagHidesFailure(a: Type, b: Type, error: string)
    requires a != b
    ensures var behave := (t: Type) => Behaviour(false, if t == b then Some(error) else None);
            Outcome([a, b], behave, false) == Failed(error) && Outcome([a, b], behave, true) == Invoked([a])
  {
    var behave := (t: Type) => Behaviour(false, if t == b then Some(error) else None);
    assert [a, b][1..] == [b];
    assert Run([a, b], behave, false) == 1;
    assert [a, b][..1] == [a];
  }

  /** The flag, clear on entry, is left set exactly when the run ends with a handler that
      first asked to stop and then threw. */
  lemma {:induction false} FlagLeftSet(hs: seq<Type>, behave: Type -> Behaviour)
    ensures FlagAfter(hs, behave, false) <==>
            Throws(hs, behave, false) && behave(hs[Run(hs, behave, false)]).asksToStop
  {
    if hs != [] && behave(hs[0]).throws.None? && !behave(hs[0]).asksToStop {
      var n := Run(hs[1..], behave, false);
      FlagLeftSet(hs[1..], behave);
      ThrowsLater(hs, behave);
    }
  }

  lemma ThrowsLater(hs: seq<Type>, behave: Type -> Behaviour)
    requires hs != [] && behave(hs[0]).throws.None? && !behave(hs[0]).asksToStop
    ensures Throws(hs, behave, false) <==> Throws(hs[1..], behave, false)
  {
    var n := Run(hs[1..], behave, false);
    assert Run(hs, behave, false) == n + 1;
    if i :| 0 <= i < n && behave(hs[1..][i]).asksToStop {
      assert behave(hs[i + 1]).asksToStop;
    }
    if i :| 0 <= i < n + 1 && behave(hs[i]).asksToStop {
      assert behave(hs[1..][i - 1]).asksToStop;
    }
  }

  // ---- End to end ----

  function KeptBy(world: World): Type -> bool {
    (t: Type) => Keeps(world, t)
  }

  lemma {:induction false} ExtendedFilters(world: World, types: seq<Type>)
    requires Distinct(types)
    ensures Extended(world, [], types) == Filter(types, KeptBy(world))
  {
    if types != [] {
      var front, last := types[..|types| - 1], types[|types| - 1];
      assert types == front + [last];
      ExtendedFilters(world, front);
      FilterConcat(front, [last], KeptBy(world));
      FilterHolds(front, KeptBy(world));
    }
  }

  /** The handler types a message is for. */
  function Selects(world: World, messageType: Type): Type -> bool {
    (t: Type) => world.isHandler(t) && Keeps(world, t) && Matches(world, t, messageType)
  }

  function SelectsOutside(world: World, messageType: Type, ordered: seq<Type>): Type -> bool {
    (t: Type) => t !in ordered && Selects(world, messageType)(t)
  }

  /** From configuration to dispatch: the handlers considered for a message are the
      specified ones in their order, then all others in scan order, each once. */
  lemma EndToEnd(world: World, scan: seq<Type>, ordered: seq<Type>, messageType: Type)
    requires Distinct(scan) && Distinct(ordered)
    ensures var handlers := Filter(ordered + RemoveEach(scan, ordered), world.isHandler);
            var hs := Filter(Extended(world, [], handlers), MatchesFor(world, messageType));
            hs == Filter(ordered, Selects(world, messageType)) +
                Filter(scan, SelectsOutside(world, messageType, ordered)) &&
            Distinct(hs) &&
            forall t :: t in hs <==>
              (t in scan || t in ordered) && world.isHandler(t) && !world.isAbstract(t) &&
              exists m :: m in world.handled(t) && world.assignable(m, messageType)
  {
    FilterHolds(ordered, Selects(world, messageType));
    FilterHolds(scan, SelectsOutside(world, messageType, ordered));
    var loaded := ordered + RemoveEach(scan, ordered);
    var select := Selects(world, messageType);
    var kept := (t: Type) => world.isHandler(t) && Keeps(world, t);
    LoadedList(scan, ordered);
    FilterDistinct(loaded, world.isHandler);
    ExtendedFilters(world, Filter(loaded, world.isHandler));
    FilterTwice(loaded, world.isHandler, KeptBy(world), kept);
    FilterTwice(loaded, kept, MatchesFor(world, messageType), select);
    FilterConcat(ordered, Filter(scan, NotIn(ordered)), select);
    FilterTwice(scan, NotIn(ordered), select, SelectsOutside(world, messageType, ordered));
    FilterDistinct(loaded, select);
  }
}
