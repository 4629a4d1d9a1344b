/** The bus's table of times to be received: registrations, and results cached beside them. */
module TimeToBeReceived {

  type Type = nat

  /** Ticks of a TimeSpan. */
  type Span = int

  const MAX_VALUE: Span := 0x7FFF_FFFF_FFFF_FFFF

  type Spans = map<Type, Span>

  function Min(a: Span, b: Span): Span {
    if a < b then a else b
  }

  /** The least entry for any of the types, or unlimited. */
  function Least(m: Spans, types: seq<Type>): Span {
    if types == [] then MAX_VALUE
    else
      var rest := Least(m, types[1..]);
      if types[0] in m then Min(m[types[0]], rest) else rest
  }

  /** The rule without a cache: a type's own registration, else the least registered for
      one of its interfaces, else unlimited. */
  function Rule(interfaces: Type -> seq<Type>, registered: Spans, t: Type): Span {
    if t in registered then registered[t] else Least(registered, interfaces(t))
  }

  /** GetInterfaces lists inherited interfaces too, and never the type itself. */
  ghost predicate TransitivelyClosed(interfaces: Type -> seq<Type>) {
    forall t, i :: i in interfaces(t) ==> i != t && forall j :: j in interfaces(i) ==> j in interfaces(t)
  }

  /** Every cached entry is what the rule gives. */
  ghost predicate Agrees(interfaces: Type -> seq<Type>, registered: Spans, cache: Spans) {
    && (forall t :: t in registered ==> t in cache && registered[t] < MAX_VALUE)
    && (forall t :: t in cache ==> cache[t] == Rule(interfaces, registered, t))
  }

  lemma {:induction false} LeastHolds(m: Spans, types: seq<Type>)
    ensures Least(m, types) <= MAX_VALUE
    ensures forall t :: t in types && t in m ==> Least(m, types) <= m[t]
    ensures Least(m, types) == MAX_VALUE || exists t :: t in types && t in m && m[t] == Least(m, types)
  {
    if types != [] {
      LeastHolds(m, types[1..]);
      var rest := Least(m, types[1..]);
      if Least(m, types) != MAX_VALUE && Least(m, types) == rest {
        var t :| t in types[1..] && t in m && m[t] == rest;
        assert t in types;
      } else if Least(m, types) != MAX_VALUE {
        assert types[0] in types && types[0] in m;
      }
    }
  }

  /** A type's own registration counts first; without one it is the least registered for any of its
      interfaces, and unlimited if there is none. */
  ghost predicate Given(interfaces: Type -> seq<Type>, registered: Spans, t: Type, span: Span) {
    if t in registered then span == registered[t]
    else
      && (forall i :: i in interfaces(t) && i in registered ==> span <= registered[i])
      && span <= MAX_VALUE
      && (span == MAX_VALUE || exists i :: i in interfaces(t) && i in registered && registered[i] == span)
  }

  lemma RuleExactly(interfaces: Type -> seq<Type>, registered: Spans, t: Type, span: Span)
    requires forall u :: u in registered ==> registered[u] <= MAX_VALUE
    ensures Rule(interfaces, registered, t) == span <==> Given(interfaces, registered, t, span)
  {
    LeastHolds(registered, interfaces(t));
  }

  lemma FewerTypesNotLess(m: Spans, types: seq<Type>, more: seq<Type>)
    requires forall t :: t in types ==> t in more
    ensures Least(m, more) <= Least(m, types)
  {
    LeastHolds(m, types);
    LeastHolds(m, more);
  }

  /** Looking the interfaces up in the cache gives the same as looking them up among the
      registrations, although interfaces may have cached results themselves. */
  lemma CachedInterfacesHarmless(interfaces: Type -> seq<Type>, registered: Spans, cache: Spans, t: Type)
    requires TransitivelyClosed(interfaces) && Agrees(interfaces, registered, cache)
    ensures Least(cache, interfaces(t)) == Least(registered, interfaces(t))
  {
    var cached, plain := Least(cache, interfaces(t)), Least(registered, interfaces(t));
    LeastHolds(cache, interfaces(t));
    LeastHolds(registered, interfaces(t));
    forall i | i in interfaces(t) && i in cache
      ensures plain <= cache[i]
    {
      FewerTypesNotLess(registered, interfaces(i), interfaces(t));
    }
    if plain != MAX_VALUE {
      var i :| i in interfaces(t) && i in registered && registered[i] == plain;
      assert cache[i] == plain;
    }
  }

  /** Registering `t` with `span` does not change what the rule gives for `u`: its result is not
      above the new span and, if `t` is being registered again with a greater one, some other
      interface of `u` is registered with at most the old one. */
  ghost predicate Unaffected(interfaces: Type -> seq<Type>, registered: Spans, cache: Spans, t: Type, span: Span,
                             u: Type)
    requires u in cache
  {
    && cache[u] <= span
    && (t in registered && registered[t] < span ==>
          exists i :: i in interfaces(u) && i != t && i in registered && registered[i] <= registered[t])
  }

  lemma RuleAfter(interfaces: Type -> seq<Type>, registered: Spans, cache: Spans, t: Type, span: Span, u: Type)
    requires Agrees(interfaces, registered, cache) && span < MAX_VALUE
    requires u in cache && u !in registered && u != t && t in interfaces(u)
    ensures Rule(interfaces, registered[t := span], u) == cache[u] <==>
            Unaffected(interfaces, registered, cache, t, span, u)
  {
    var without, types := registered - {t}, interfaces(u);
    var others := Least(without, types);
    LeastHolds(without, types);
    LeastWith(without, types, t, span);
    assert without[t := span] == registered[t := span];
    if t in registered {
      LeastWith(without, types, t, registered[t]);
      assert without[t := registered[t]] == registered;
      assert cache[u] == Min(registered[t], others);
    } else {
      assert without == registered;
    }
  }

  /** A registration keeps the cache right exactly when it leaves every result already cached for
      an unregistered type with that interface unaffected. */
  lemma LateRegistrationExactly(interfaces: Type -> seq<Type>, registered: Spans, cache: Spans, t: Type, span: Span)
    requires TransitivelyClosed(interfaces) && Agrees(interfaces, registered, cache) && span < MAX_VALUE
    ensures Agrees(interfaces, registered[t := span], cache[t := span]) <==>
            forall u :: u in cache && u !in registered && t in interfaces(u) ==>
              Unaffected(interfaces, registered, cache, t, span, u)
  {
    var registered', cache' := registered[t := span], cache[t := span];
    forall u | u in cache && u !in registered && u != t
      ensures Rule(interfaces, registered', u) == cache[u] <==>
              (t in interfaces(u) ==> Unaffected(interfaces, registered, cache, t, span, u))
    {
      if t in interfaces(u) {
        RuleAfter(interfaces, registered, cache, t, span, u);
      } else {
        LeastBeside(registered, interfaces(u), t, span);
      }
    }
    if u :| (u in cache && u !in registered && t in interfaces(u) &&
             !Unaffected(interfaces, registered, cache, t, span, u)) {
      assert u != t && u in cache' && Rule(interfaces, registered', u) != cache'[u];
    }
  }

  lemma {:induction false} LeastBeside(m: Spans, types: seq<Type>, t: Type, span: Span)
    requires t !in types
    ensures Least(m[t := span], types) == Least(m, types)
  {
    if types != [] {
      LeastBeside(m, types[1..], t, span);
    }
  }

  lemma {:induction false} LeastWith(m: Spans, types: seq<Type>, t: Type, span: Span)
    requires t !in m && span <= MAX_VALUE
    ensures Least(m[t := span], types) == if t in types then Min(span, Least(m, types)) else Least(m, types)
  {
    LeastHolds(m, types);
    if types != [] {
      LeastWith(m, types[1..], t, span);
      LeastHolds(m, types[1..]);
    }
  }

  /** The value of an envelope over several messages. */
  function LeastRule(interfaces: Type -> seq<Type>, registered: Spans, messages: seq<Type>): Span {
    if messages == [] then MAX_VALUE
    else Min(Rule(interfaces, registered, messages[|messages| - 1]),
             LeastRule(interfaces, registered, messages[..|messages| - 1]))
  }

  class MessageTypeTable {
    const interfaces: Type -> seq<Type>
    const assignable: (Type, Type) -> bool
    var timeToBeReceived: Spans
    var recoverable: set<Type>
    ghost var registered: Spans

    ghost predicate Valid()
      reads this
    {
      TransitivelyClosed(interfaces) && Agrees(interfaces, registered, timeToBeReceived)
    }

    constructor (interfaces: Type -> seq<Type>, assignable: (Type, Type) -> bool)
      requires TransitivelyClosed(interfaces)
      ensures Valid() && registered == map[] && recoverable == {}
      ensures this.interfaces == interfaces && this.assignable == assignable
    {
      this.interfaces, this.assignable := interfaces, assignable;
      timeToBeReceived, recoverable, registered := map[], {}, map[];
    }

    /** `span` is what the convention says about the type; unlimited is not recorded. Before
        the first query this keeps the table right; later, it does exactly when it affects no
        result cached for an unregistered type with that interface. */
    method RegisterMessageType(t: Type, express: bool, span: Span)
      requires Valid() && span <= MAX_VALUE
      modifies this
      ensures registered == if span == MAX_VALUE then old(registered) else old(registered)[t := span]
      ensures timeToBeReceived == if span == MAX_VALUE then old(timeToBeReceived) else old(timeToBeReceived)[t := span]
      ensures recoverable == if express then old(recoverable) else old(recoverable) + {t}
      ensures old(timeToBeReceived) == old(registered) ==> Valid()
      ensures Valid() <==>
                span == MAX_VALUE ||
                forall u :: u in old(timeToBeReceived) && u !in old(registered) && t in interfaces(u) ==>
                  Unaffected(interfaces, old(registered), old(timeToBeReceived), t, span, u)
    {
      if !express {
        recoverable := recoverable + {t};
      }
      if span == MAX_VALUE {
        return;
      }
      LateRegistrationExactly(interfaces, registered, timeToBeReceived, t, span);
      timeToBeReceived, registered := timeToBeReceived[t := span], registered[t := span];
    }

    /** Looks at the cache alone; on a table that is right this gives what the rule gives. */
    method GetTimeToBeReceivedForMessageType(t: Type) returns (result: Span)
      modifies this`timeToBeReceived
      ensures result == Rule(interfaces, old(timeToBeReceived), t)
      ensures timeToBeReceived == old(timeToBeReceived)[t := result]
      ensures old(Valid()) ==> Valid() && result == Rule(interfaces, registered, t)
      ensures old(Valid()) ==> Given(interfaces, registered, t, result)
    {
      if Valid() {
        RuleExactly(interfaces, registered, t, Rule(interfaces, registered, t));
      }
      if t in timeToBeReceived {
        assert timeToBeReceived == timeToBeReceived[t := timeToBeReceived[t]];
        return timeToBeReceived[t];
      }
      var types := interfaces(t);
      result := MAX_VALUE;
      LeastHolds(timeToBeReceived, types);
      assert types[0..] == types;
      for i := 0 to |types|
        invariant result <= MAX_VALUE
        invariant Min(result, Least(timeToBeReceived, types[i..])) == Least(timeToBeReceived, types)
      {
        if types[i] in timeToBeReceived {
          result := Min(timeToBeReceived[types[i]], result);
        }
      }
      if Valid() {
        CachedInterfacesHarmless(interfaces, registered, timeToBeReceived, t);
      }
      timeToBeReceived := timeToBeReceived[t := result];
    }

    /** The part of the mapping that sets Recoverable and TimeToBeReceived. */
    method MapTransportMessageFor(messages: seq<Type>) returns (isRecoverable: bool, timeToBeReceived: Span)
      requires Valid()
      modifies this`timeToBeReceived
      ensures Valid()
      ensures timeToBeReceived == LeastRule(interfaces, registered, messages)
      ensures isRecoverable <==> exists m, r :: m in messages && r in recoverable && assignable(r, m)
    {
      isRecoverable, timeToBeReceived := false, MAX_VALUE;
      for i := 0 to |messages|
        invariant Valid()
        invariant timeToBeReceived == LeastRule(interfaces, registered, messages[..i])
        invariant isRecoverable <==> exists m, r :: m in messages[..i] && r in recoverable && assignable(r, m)
      {
        assert messages[..i + 1][..i] == messages[..i];
        if exists r :: r in recoverable && assignable(r, messages[i]) {
          isRecoverable := true;
        }
        var span := GetTimeToBeReceivedForMessageType(messages[i]);
        timeToBeReceived := if span < timeToBeReceived then span else timeToBeReceived;
      }
      assert messages[..|messages|] == messages;
    }
  }

  /** An envelope lives as long as its shortest-lived message. */
  lemma {:induction false} EnvelopeIsLeast(interfaces: Type -> seq<Type>, registered: Spans, messages: seq<Type>)
    requires forall t :: t in registered ==> registered[t] <= MAX_VALUE
    ensures var v := LeastRule(interfaces, registered, messages);
            v <= MAX_VALUE &&
            (forall m :: m in messages ==> v <= Rule(interfaces, registered, m)) &&
            (v < MAX_VALUE ==> exists m :: m in messages && v == Rule(interfaces, registered, m))
  {
    if messages != [] {
      var front, last := messages[..|messages| - 1], messages[|messages| - 1];
      EnvelopeIsLeast(interfaces, registered, front);
      assert forall m :: m in messages <==> m in front || m == last by {
        assert messages == front + [last];
      }
    }
  }

  /** A type is asked for, then its interface registered: the unlimited result stays in the cache
      and is given again. */
  method LateRegistrationMissed(message: Type, contract: Type, span: Span)
    returns (table: MessageTypeTable, result: Span)
    requires message != contract && span < MAX_VALUE
    ensures fresh(table) && table.registered == map[contract := span]
    ensures result == MAX_VALUE && Rule(table.interfaces, table.registered, message) == span
  {
    var interfaces := (t: Type) => if t == message then [contract] else [];
    table := new MessageTypeTable(interfaces, (a, b) => a == b);
    LeastOfOne(map[], contract);
    LeastOfOne(map[contract := span], contract);
    var first := table.GetTimeToBeReceivedForMessageType(message);
    assert first == MAX_VALUE;
    table.RegisterMessageType(contract, false, span);
    result := table.GetTimeToBeReceivedForMessageType(message);
  }

  lemma LeastOfOne(m: Spans, t: Type)
    requires t in m ==> m[t] <= MAX_VALUE
    ensures Least(m, [t]) == if t in m then m[t] else MAX_VALUE
  {
  }
}
