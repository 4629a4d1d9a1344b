/** Handing messages to workers against the capacity they have reported. */
module Distributor {
  import opened Sequences
  import opened Strings
  import opened Addresses

  // ---- The storage queue ----

  /** A token: one message a worker is ready for. MSMQ gives it an id; the response queue
      names the worker by the format name of its path. */
  datatype Token = Token(id: nat, responseQueue: string)

  /** How addresses become format names and are read back. */
  datatype Naming = Naming(path: Address -> string, read: string -> Option<Address>)
  {
    function Worker(t: Token): Option<Address> { read(t.responseQueue) }

    ghost predicate Recovers(a: Address) { read(path(a)) == Some(a) }

    /** Every address read from a path can be read again from its own path. */
    ghost predicate Consistent() {
      forall f :: read(f).Some? ==> Recovers(read(f).value)
    }
  }

  /** The naming MsmqUtilities implements. */
  function MsmqNaming(settings: Settings, isIp: string -> bool): Naming {
    Naming(a => FormatName(isIp, a), f => IndependentAddress(settings, f))
  }

  lemma WorkersRecover(settings: Settings, isIp: string -> bool)
    requires PlainIps(isIp)
    ensures MsmqNaming(settings, isIp).Consistent()
  {
    forall f | IndependentAddress(settings, f).Some?
      ensures IndependentAddress(settings, FormatName(isIp, IndependentAddress(settings, f).value))
           == IndependentAddress(settings, f)
    {
      ReadAddressesRecover(settings, isIp, f);
    }
  }

  /** Ids differ and are below `bound`, and every token names a worker. */
  ghost predicate Sound(naming: Naming, tokens: seq<Token>, bound: nat) {
    && (forall i, j :: 0 <= i < j < |tokens| ==> tokens[i].id != tokens[j].id)
    && (forall t :: t in tokens ==> t.id < bound && naming.Worker(t).Some?)
  }

  /** The tokens as the workers they name. */
  ghost function Queue(naming: Naming, tokens: seq<Token>): seq<Address> {
    if tokens == [] then []
    else
      var w := naming.Worker(tokens[0]);
      (if w.Some? then [w.value] else []) + Queue(naming, tokens[1..])
  }

  function Drop(workers: seq<Address>, a: Address): seq<Address> {
    if workers == [] then []
    else if workers[0] == a then Drop(workers[1..], a)
    else [workers[0]] + Drop(workers[1..], a)
  }

  function Repeat(a: Address, n: int): seq<Address>
    decreases if n > 0 then n else 0
  {
    if n <= 0 then [] else Repeat(a, n - 1) + [a]
  }

  /** ReceiveById: takes out the one message with that id. */
  function RemoveId(tokens: seq<Token>, id: nat): seq<Token> {
    if tokens == [] then []
    else if tokens[0].id == id then tokens[1..]
    else [tokens[0]] + RemoveId(tokens[1..], id)
  }

  function KeepOthers(naming: Naming, tokens: seq<Token>, a: Address): seq<Token> {
    if tokens == [] then []
    else
      var t := tokens[|tokens| - 1];
      KeepOthers(naming, tokens[..|tokens| - 1], a) + if naming.Worker(t) == Some(a) then [] else [t]
  }

  lemma {:induction false} RemoveIdBetween(front: seq<Token>, t: Token, rest: seq<Token>)
    requires forall u :: u in front ==> u.id != t.id
    ensures RemoveId(front + [t] + rest, t.id) == front + rest
  {
    Associative(front, [t], rest);
    if front == [] {
      assert [t] + rest == front + [t] + rest && front + rest == rest;
    } else {
      RemoveIdBetween(front[1..], t, rest);
      Associative(front[1..], [t], rest);
      HeadAndRest(front, [t] + rest);
      HeadAndRest(front, rest);
    }
  }

  lemma {:induction false} KeepOthersHolds(naming: Naming, tokens: seq<Token>, a: Address)
    ensures forall t :: t in KeepOthers(naming, tokens, a) ==> t in tokens
  {
    if tokens != [] {
      KeepOthersHolds(naming, tokens[..|tokens| - 1], a);
    }
  }

  lemma {:induction false} QueueConcat(naming: Naming, x: seq<Token>, y: seq<Token>)
    ensures Queue(naming, x + y) == Queue(naming, x) + Queue(naming, y)
  {
    if x == [] {
      assert x + y == y;
    } else {
      HeadAndRest(x, y);
      QueueConcat(naming, x[1..], y);
    }
  }

  lemma {:induction false} DropConcat(x: seq<Address>, y: seq<Address>, a: Address)
    ensures Drop(x + y, a) == Drop(x, a) + Drop(y, a)
  {
    if x == [] {
      assert x + y == y;
    } else {
      HeadAndRest(x, y);
      DropConcat(x[1..], y, a);
    }
  }

  lemma QueueOfOne(naming: Naming, t: Token)
    ensures Queue(naming, [t]) == if naming.Worker(t).Some? then [naming.Worker(t).value] else []
  {
  }

  lemma {:induction false} QueueDropped(naming: Naming, tokens: seq<Token>, a: Address)
    ensures Queue(naming, KeepOthers(naming, tokens, a)) == Drop(Queue(naming, tokens), a)
  {
    if tokens != [] {
      var front, t := tokens[..|tokens| - 1], tokens[|tokens| - 1];
      assert tokens == front + [t];
      QueueDropped(naming, front, a);
      QueueConcat(naming, front, [t]);
      QueueOfOne(naming, t);
      DropConcat(Queue(naming, front), Queue(naming, [t]), a);
      QueueConcat(naming, KeepOthers(naming, front, a), if naming.Worker(t) == Some(a) then [] else [t]);
    }
  }

  lemma OneTaken(kept: seq<Token>, tokens: seq<Token>, i: nat)
    requires i < |tokens|
    ensures kept + tokens[i..] == kept + [tokens[i]] + tokens[i + 1..]
  {
    assert tokens[i..] == [tokens[i]] + tokens[i + 1..];
  }

  /** One turn of the clearing loop. */
  lemma ClearOne(naming: Naming, existing: seq<Token>, i: nat, a: Address, bound: nat)
    requires Sound(naming, existing, bound) && i < |existing|
    ensures var storage := KeepOthers(naming, existing[..i], a) + existing[i..];
            (if naming.Worker(existing[i]) == Some(a) then RemoveId(storage, existing[i].id) else storage) ==
              KeepOthers(naming, existing[..i + 1], a) + existing[i + 1..]
  {
    var m, kept, rest := existing[i], KeepOthers(naming, existing[..i], a), existing[i + 1..];
    KeepOthersStep(naming, existing, i, a);
    OneTaken(kept, existing, i);
    if naming.Worker(m) == Some(a) {
      assert RemoveId(kept + [m] + rest, m.id) == kept + rest by {
        KeepOthersHolds(naming, existing[..i], a);
        RemoveIdBetween(kept, m, rest);
      }
    }
  }

  lemma KeepOthersStep(naming: Naming, tokens: seq<Token>, i: nat, a: Address)
    requires i < |tokens|
    ensures KeepOthers(naming, tokens[..i + 1], a)
         == KeepOthers(naming, tokens[..i], a) + if naming.Worker(tokens[i]) == Some(a) then [] else [tokens[i]]
  {
    assert tokens[..i + 1][..i] == tokens[..i] && tokens[..i + 1][i] == tokens[i];
  }

  lemma ClearedAll(naming: Naming, tokens: seq<Token>, a: Address, bound: nat)
    requires Sound(naming, tokens, bound)
    ensures var left := KeepOthers(naming, tokens[..|tokens|], a) + tokens[|tokens|..];
            Sound(naming, left, bound) && Queue(naming, left) == Drop(Queue(naming, tokens), a)
  {
    assert tokens[..|tokens|] == tokens;
    assert KeepOthers(naming, tokens, a) + tokens[|tokens|..] == KeepOthers(naming, tokens, a);
    KeptIsSound(naming, tokens, a, bound);
    QueueDropped(naming, tokens, a);
  }

  lemma {:induction false} KeptIsSound(naming: Naming, tokens: seq<Token>, a: Address, bound: nat)
    requires Sound(naming, tokens, bound)
    ensures Sound(naming, KeepOthers(naming, tokens, a), bound)
  {
    KeepOthersHolds(naming, tokens, a);
    if tokens != [] {
      var front, t := tokens[..|tokens| - 1], tokens[|tokens| - 1];
      KeptIsSound(naming, front, a, bound);
      KeepOthersHolds(naming, front, a);
      forall u | u in KeepOthers(naming, front, a)
        ensures u.id != t.id
      {
      }
    }
  }

  lemma TokenAdded(naming: Naming, tokens: seq<Token>, bound: nat, a: Address)
    requires Sound(naming, tokens, bound) && naming.Recovers(a)
    ensures var t := Token(bound, naming.path(a));
            Sound(naming, tokens + [t], bound + 1) && Queue(naming, tokens + [t]) == Queue(naming, tokens) + [a]
  {
    var t := Token(bound, naming.path(a));
    QueueConcat(naming, tokens, [t]);
    QueueOfOne(naming, t);
  }

  class WorkerAvailabilityManager {
    const naming: Naming
    var storage: seq<Token>
    var nextId: nat

    ghost predicate Valid()
      reads this
    {
      Sound(naming, storage, nextId)
    }

    ghost function Available(): seq<Address>
      reads this
    {
      Queue(naming, storage)
    }

    constructor (naming: Naming)
      ensures this.naming == naming && Valid() && Available() == []
    {
      this.naming := naming;
      storage, nextId := [], 0;
    }

    /** Walks over a snapshot of the queue and takes out the worker's tokens one by one. */
    method ClearAvailabilityForWorker(address: Address)
      requires Valid()
      modifies this
      ensures Valid() && Available() == Drop(old(Available()), address)
    {
      var existing := storage;
      for i := 0 to |existing|
        invariant nextId == old(nextId)
        invariant storage == KeepOthers(naming, existing[..i], address) + existing[i..]
      {
        ClearOne(naming, existing, i, address, nextId);
        if naming.Worker(existing[i]) == Some(address) {
          storage := RemoveId(storage, existing[i].id);
        }
      }
      ClearedAll(naming, existing, address, nextId);
    }

    method PopAvailableWorker() returns (worker: Option<Address>)
      requires Valid()
      modifies this
      ensures Valid()
      ensures if old(Available()) == [] then worker == None && Available() == []
              else worker == Some(old(Available())[0]) && Available() == old(Available())[1..]
    {
      if storage == [] {
        return None;
      }
      worker := naming.Worker(storage[0]);
      storage := storage[1..];
    }

    /** Adds one token per message the worker is ready for; a negative number adds none. */
    method WorkerAvailable(address: Address, capacity: int)
      modifies this
      ensures storage == old(storage) + NewTokens(naming.path(address), old(nextId), capacity)
      ensures old(Valid()) && naming.Recovers(address) ==>
                Valid() && Available() == old(Available()) + Repeat(address, capacity)
    {
      var i := 0;
      while i < capacity
        invariant 0 <= i && (i <= capacity || i == 0)
        invariant nextId == old(nextId) + i
        invariant storage == old(storage) + NewTokens(naming.path(address), old(nextId), i)
      {
        storage, nextId := storage + [Token(nextId, naming.path(address))], nextId + 1;
        i := i + 1;
      }
      if old(Valid()) && naming.Recovers(address) {
        TokensAdded(naming, old(storage), old(nextId), address, i);
      }
    }
  }

  function NewTokens(path: string, id: nat, n: int): seq<Token>
    decreases if n > 0 then n else 0
  {
    if n <= 0 then [] else NewTokens(path, id, n - 1) + [Token(id + n - 1, path)]
  }

  lemma {:induction false} TokensAdded(naming: Naming, tokens: seq<Token>, bound: nat, a: Address, n: nat)
    requires Sound(naming, tokens, bound) && naming.Recovers(a)
    ensures var all := tokens + NewTokens(naming.path(a), bound, n);
            Sound(naming, all, bound + n) && Queue(naming, all) == Queue(naming, tokens) + Repeat(a, n)
  {
    if n > 0 {
      var before, t := NewTokens(naming.path(a), bound, n - 1), Token(bound + n - 1, naming.path(a));
      TokensAdded(naming, tokens, bound, a, n - 1);
      assert tokens + NewTokens(naming.path(a), bound, n) == tokens + before + [t] by {
        Associative(tokens, before, [t]);
      }
      assert Queue(naming, tokens + before + [t]) == Queue(naming, tokens + before) + [a]
             && Sound(naming, tokens + before + [t], bound + n) by {
        TokenAdded(naming, tokens + before, bound + n - 1, a);
      }
      Associative(Queue(naming, tokens), Repeat(a, n - 1), [a]);
    } else {
      assert tokens + [] == tokens;
    }
  }

  // ---- The licence and the two message handlers ----

  /** The static fields of LicenseConfig; `known` is the list of workers let in. */
  class LicenseConfig {
    const limited: bool
    const allowed: int
    var known: seq<Option<Address>>

    constructor (limited: bool, allowed: int)
      ensures this.limited == limited && this.allowed == allowed && known == []
    {
      this.limited, this.allowed, known := limited, allowed, [];
    }

    method LimitNumberOfWorkers(worker: Option<Address>) returns (limit: bool)
      modifies this`known
      ensures limit == Turned(limited, allowed, old(known), worker)
      ensures known == Known(limited, allowed, old(known), worker)
      ensures limit <==> limited && worker !in old(known) && allowed <= |old(known)|
      ensures limited && !limit ==> worker in known
      ensures known == old(known) || (limited && worker !in old(known) && known == old(known) + [worker])
    {
      if !limited {
        return false;
      }
      if worker in known {
        return false;
      }
      if |known| < allowed {
        known := known + [worker];
        return false;
      }
      return true;
    }
  }

  predicate Turned(limited: bool, allowed: int, known: seq<Option<Address>>, worker: Option<Address>) {
    limited && worker !in known && |known| >= allowed
  }

  function Known(limited: bool, allowed: int, known: seq<Option<Address>>,
                 worker: Option<Address>): seq<Option<Address>> {
    if limited && worker !in known && |known| < allowed then known + [worker] else known
  }

  /** What a control message says: the worker may be starting, and may report capacity. */
  datatype Control = Control(worker: Address, starting: bool, capacity: Option<int>)

  /** The tokens after a control message that is let in. */
  function Reported(workers: seq<Address>, c: Control): seq<Address> {
    (if c.starting then Drop(workers, c.worker) else workers) +
    (if c.capacity.Some? then Repeat(c.worker, c.capacity.value) else [])
  }

  /** A control message as it arrives: the worker is known by the response queue. */
  datatype ControlMessage = ControlMessage(responseQueue: Option<string>, starting: bool, capacity: Option<int>)

  function ReplyToAddress(naming: Naming, m: ControlMessage): Option<Address> {
    if m.responseQueue.None? then None else naming.read(m.responseQueue.value)
  }

  /** It throws when there is capacity to add and no worker to add it for. */
  method HandleControlMessage(manager: WorkerAvailabilityManager, license: LicenseConfig, m: ControlMessage)
    returns (ok: bool)
    requires manager.Valid() && manager.naming.Consistent()
    modifies manager, license`known
    ensures manager.Valid()
    ensures var worker := ReplyToAddress(manager.naming, m);
            var turned := Turned(license.limited, license.allowed, old(license.known), worker);
            license.known == Known(license.limited, license.allowed, old(license.known), worker) &&
            (ok <==> turned || worker.Some? || m.capacity.None? || m.capacity.value <= 0) &&
            manager.Available() ==
              if turned || worker.None? then old(manager.Available())
              else Reported(old(manager.Available()), Control(worker.value, m.starting, m.capacity))
    ensures var worker := ReplyToAddress(manager.naming, m);
            worker.Some? &&
            (!license.limited || worker in old(license.known) || |old(license.known)| < license.allowed) ==>
              ok && (license.limited ==> worker in license.known) &&
              Credited(old(manager.Available()), manager.Available(), worker.value, m.starting, m.capacity)
    ensures var worker := ReplyToAddress(manager.naming, m);
            license.limited && worker !in old(license.known) && |old(license.known)| >= license.allowed ==>
              ok && license.known == old(license.known) && manager.Available() == old(manager.Available())
  {
    var replyToAddress := ReplyToAddress(manager.naming, m);
    ReportCredits(manager.Available(), m, replyToAddress);
    var limit := license.LimitNumberOfWorkers(replyToAddress);
    if limit {
      return true;
    }
    ok := HandleReport(manager, replyToAddress, m);
  }

  /** The part of a control message that is handled for a worker let in. */
  method HandleReport(manager: WorkerAvailabilityManager, replyToAddress: Option<Address>, m: ControlMessage)
    returns (ok: bool)
    requires manager.Valid() && (replyToAddress.Some? ==> manager.naming.Recovers(replyToAddress.value))
    modifies manager
    ensures manager.Valid()
    ensures ok <==> replyToAddress.Some? || m.capacity.None? || m.capacity.value <= 0
    ensures manager.Available() ==
            if replyToAddress.None? then old(manager.Available())
            else Reported(old(manager.Available()), Control(replyToAddress.value, m.starting, m.capacity))
  {
    if replyToAddress.None? {
      // No token is without a worker, so there is nothing to clear.
      return m.capacity.None? || m.capacity.value <= 0;
    }
    if m.starting {
      manager.ClearAvailabilityForWorker(replyToAddress.value);
    }
    if m.capacity.Some? {
      manager.WorkerAvailable(replyToAddress.value, m.capacity.value);
    }
    return true;
  }

  /** The worker has a token for each message reported, on top of those it had unless it is starting;
      everyone else has what they had. */
  ghost predicate Credited(before: seq<Address>, after: seq<Address>, worker: Address, starting: bool,
                           capacity: Option<int>) {
    && multiset(after)[worker] ==
         (if starting then 0 else multiset(before)[worker]) +
         (if capacity.Some? && capacity.value > 0 then capacity.value else 0)
    && forall a :: a != worker ==> multiset(after)[a] == multiset(before)[a]
  }

  lemma ReportCredits(workers: seq<Address>, m: ControlMessage, worker: Option<Address>)
    ensures worker.Some? ==>
              Credited(workers, Reported(workers, Control(worker.value, m.starting, m.capacity)), worker.value,
                       m.starting, m.capacity)
  {
    if worker.Some? {
      ReportedCounts(workers, Control(worker.value, m.starting, m.capacity));
    }
  }

  /** The distributor sends the message on, or rolls its receipt back. */
  datatype Handled = SentTo(worker: Address) | RolledBack

  method HandleMessage(manager: WorkerAvailabilityManager) returns (r: Handled)
    requires manager.Valid()
    modifies manager
    ensures manager.Valid()
    ensures if old(manager.Available()) == [] then r == RolledBack && manager.Available() == []
            else r == SentTo(old(manager.Available())[0]) && manager.Available() == old(manager.Available())[1..]
  {
    var destination := manager.PopAvailableWorker();
    r := if destination.None? then RolledBack else SentTo(destination.value);
  }

  // ---- Runs ----

  datatype Sent = Sent(message: string, worker: Address)

  /** `input` is the queue of messages to distribute. The history: what `arrived`, what was
      `sent`, and what each worker has `reported` and been `given` since it last started. */
  datatype System = System(
    tokens: seq<Address>, known: seq<Option<Address>>, input: seq<string>,
    arrived: seq<string>, sent: seq<Sent>, reported: map<Address, nat>, given: map<Address, nat>)

  /** Anonymous: a control message without a worker's address. */
  datatype Step = Report(c: Control) | Anonymous | Arrive(message: string) | Distribute

  const EMPTY := System([], [], [], [], [], map[], map[])

  function At(m: map<Address, nat>, a: Address): nat {
    if a in m then m[a] else 0
  }

  function Credit(c: Control): nat {
    if c.capacity.Some? && c.capacity.value > 0 then c.capacity.value else 0
  }

  /** Messages whose receipt is rolled back go back to the head of the queue. */
  function Next(s: System, step: Step, limited: bool, allowed: int): System {
    match step
    case Report(c) =>
      var a := c.worker;
      if Turned(limited, allowed, s.known, Some(a)) then s
      else s.(tokens := Reported(s.tokens, c), known := Known(limited, allowed, s.known, Some(a)),
              reported := s.reported[a := (if c.starting then 0 else At(s.reported, a)) + Credit(c)],
              given := if c.starting then s.given[a := 0] else s.given)
    case Anonymous => s.(known := Known(limited, allowed, s.known, None))
    case Arrive(message) => s.(input := s.input + [message], arrived := s.arrived + [message])
    case Distribute =>
      if s.input == [] || s.tokens == [] then s
      else
        var a := s.tokens[0];
        s.(tokens := s.tokens[1..], input := s.input[1..], sent := s.sent + [Sent(s.input[0], a)],
           given := s.given[a := At(s.given, a) + 1])
  }

  function Execute(s: System, steps: seq<Step>, limited: bool, allowed: int): System
    decreases |steps|
  {
    if steps == [] then s else Execute(Next(s, steps[0], limited, allowed), steps[1..], limited, allowed)
  }

  function Messages(sent: seq<Sent>): seq<string> {
    seq(|sent|, i requires 0 <= i < |sent| => sent[i].message)
  }

  function Destinations(sent: seq<Sent>): seq<Address> {
    seq(|sent|, i requires 0 <= i < |sent| => sent[i].worker)
  }

  ghost predicate CreditsBalance(s: System) {
    forall a :: multiset(s.tokens)[a] + At(s.given, a) == At(s.reported, a)
  }

  ghost predicate NothingLost(s: System) {
    s.arrived == Messages(s.sent) + s.input
  }

  ghost predicate WithinLicence(s: System, limited: bool, allowed: int) {
    limited ==>
      Distinct(s.known) && (|s.known| <= allowed || s.known == []) && forall a :: a in s.tokens ==> Some(a) in s.known
  }

  /** Tokens held and messages given make up exactly what each worker reported since it
      last started; messages are neither lost nor doubled nor reordered; under a licence
      limit the holders of tokens are among at most the allowed number of workers. */
  ghost predicate Balanced(s: System, limited: bool, allowed: int) {
    CreditsBalance(s) && NothingLost(s) && WithinLicence(s, limited, allowed)
  }

  lemma {:induction false} RepeatCounts(a: Address, n: int)
    ensures multiset(Repeat(a, n))[a] == if n > 0 then n else 0
    ensures forall b :: b != a ==> multiset(Repeat(a, n))[b] == 0
    decreases if n > 0 then n else 0
  {
    if n > 0 {
      RepeatCounts(a, n - 1);
    }
  }

  lemma {:induction false} DropCounts(s: seq<Address>, a: Address)
    ensures multiset(Drop(s, a))[a] == 0
    ensures forall b :: b != a ==> multiset(Drop(s, a))[b] == multiset(s)[b]
  {
    if s != [] {
      DropCounts(s[1..], a);
      assert s == [s[0]] + s[1..];
    }
  }

  lemma ReportedCounts(s: seq<Address>, c: Control)
    ensures multiset(Reported(s, c))[c.worker] == (if c.starting then 0 else multiset(s)[c.worker]) + Credit(c)
    ensures forall b :: b != c.worker ==> multiset(Reported(s, c))[b] == multiset(s)[b]
  {
    DropCounts(s, c.worker);
    if c.capacity.Some? {
      RepeatCounts(c.worker, c.capacity.value);
    }
  }

  lemma ReportedMembers(s: seq<Address>, c: Control)
    ensures forall a :: a in Reported(s, c) ==> a == c.worker || a in s
  {
    ReportedCounts(s, c);
    forall a | a in Reported(s, c)
      ensures a == c.worker || a in s
    {
      assert multiset(Reported(s, c))[a] > 0;
      assert a == c.worker || a in multiset(s);
    }
  }

  lemma CreditsAfterReport(s: System, c: Control, limited: bool, allowed: int)
    requires CreditsBalance(s)
    ensures CreditsBalance(Next(s, Report(c), limited, allowed))
  {
    ReportedCounts(s.tokens, c);
  }

  lemma LicenceAfterReport(s: System, c: Control, limited: bool, allowed: int)
    requires WithinLicence(s, limited, allowed)
    ensures WithinLicence(Next(s, Report(c), limited, allowed), limited, allowed)
  {
    ReportedMembers(s.tokens, c);
  }

  lemma CreditsAfterDistribute(s: System, limited: bool, allowed: int)
    requires CreditsBalance(s)
    ensures CreditsBalance(Next(s, Distribute, limited, allowed))
  {
    if s.tokens != [] {
      assert s.tokens == [s.tokens[0]] + s.tokens[1..];
    }
  }

  lemma MessagesAfterDistribute(s: System, limited: bool, allowed: int)
    requires NothingLost(s)
    ensures NothingLost(Next(s, Distribute, limited, allowed))
  {
    if s.input != [] && s.tokens != [] {
      var last := Sent(s.input[0], s.tokens[0]);
      assert Messages(s.sent + [last]) == Messages(s.sent) + [s.input[0]];
      assert s.input == [s.input[0]] + s.input[1..];
    }
  }

  lemma BalancedStep(s: System, step: Step, limited: bool, allowed: int)
    requires Balanced(s, limited, allowed)
    ensures Balanced(Next(s, step, limited, allowed), limited, allowed)
  {
    match step
    case Report(c) =>
      CreditsAfterReport(s, c, limited, allowed);
      LicenceAfterReport(s, c, limited, allowed);
    case Anonymous =>
    case Arrive(_) =>
    case Distribute =>
      CreditsAfterDistribute(s, limited, allowed);
      MessagesAfterDistribute(s, limited, allowed);
  }

  lemma {:induction false} BalancedFrom(s: System, steps: seq<Step>, limited: bool, allowed: int)
    requires Balanced(s, limited, allowed)
    ensures Balanced(Execute(s, steps, limited, allowed), limited, allowed)
    decreases |steps|
  {
    if steps != [] {
      BalancedStep(s, steps[0], limited, allowed);
      BalancedFrom(Next(s, steps[0], limited, allowed), steps[1..], limited, allowed);
    }
  }

  /** The balance holds over every run, so no worker is given more than it asked for. */
  lemma CreditConservation(steps: seq<Step>, limited: bool, allowed: int)
    ensures var s := Execute(EMPTY, steps, limited, allowed);
            Balanced(s, limited, allowed) && forall a :: At(s.given, a) <= At(s.reported, a)
  {
    BalancedFrom(EMPTY, steps, limited, allowed);
  }

  // ---- Who is let in ----

  /** A report is credited if there is no limit, if the worker is known, or if fewer than allowed
      are, and then the worker is known; otherwise nothing changes. */
  lemma ReportLetIn(s: System, c: Control, limited: bool, allowed: int)
    ensures var n := Next(s, Report(c), limited, allowed);
            if !limited || Some(c.worker) in s.known || |s.known| < allowed
            then (limited ==> Some(c.worker) in n.known) &&
                 Credited(s.tokens, n.tokens, c.worker, c.starting, c.capacity)
            else n == s
  {
    ReportedCounts(s.tokens, c);
  }

  lemma {:induction false} KnownForGood(s: System, steps: seq<Step>, limited: bool, allowed: int)
    ensures s.known <= Execute(s, steps, limited, allowed).known
    decreases |steps|
  {
    if steps != [] {
      KnownForGood(Next(s, steps[0], limited, allowed), steps[1..], limited, allowed);
    }
  }

  /** A worker once let in is let in for good: whatever happens in between, each of its later
      reports is credited in full. */
  lemma NeverTurnedAway(s: System, steps: seq<Step>, c: Control, limited: bool, allowed: int)
    requires !limited || Some(c.worker) in s.known
    ensures var r := Execute(s, steps, limited, allowed);
            Credited(r.tokens, Next(r, Report(c), limited, allowed).tokens, c.worker, c.starting, c.capacity)
  {
    KnownForGood(s, steps, limited, allowed);
    ReportLetIn(Execute(s, steps, limited, allowed), c, limited, allowed);
  }

  /** What a step puts into the queue. */
  function GrantedBy(s: System, step: Step, limited: bool, allowed: int): seq<Address> {
    if step.Report? && !Turned(limited, allowed, s.known, Some(step.c.worker)) && step.c.capacity.Some?
    then Repeat(step.c.worker, step.c.capacity.value) else []
  }

  function Granted(s: System, steps: seq<Step>, limited: bool, allowed: int): seq<Address>
    decreases |steps|
  {
    if steps == [] then []
    else
      var n := Next(s, steps[0], limited, allowed);
      GrantedBy(s, steps[0], limited, allowed) + Granted(n, steps[1..], limited, allowed)
  }

  function Only(workers: seq<Address>, keep: Address -> bool): seq<Address> {
    if workers == [] then []
    else (if keep(workers[0]) then [workers[0]] else []) + Only(workers[1..], keep)
  }

  lemma {:induction false} OnlyConcat(x: seq<Address>, y: seq<Address>, keep: Address -> bool)
    ensures Only(x + y, keep) == Only(x, keep) + Only(y, keep)
  {
    if x == [] {
      assert x + y == y;
    } else {
      HeadAndRest(x, y);
      OnlyConcat(x[1..], y, keep);
      Associative(if keep(x[0]) then [x[0]] else [], Only(x[1..], keep), Only(y, keep));
    }
  }

  lemma {:induction false} OnlyIgnoresDropped(workers: seq<Address>, a: Address, keep: Address -> bool)
    requires !keep(a)
    ensures Only(Drop(workers, a), keep) == Only(workers, keep)
  {
    if workers != [] {
      OnlyIgnoresDropped(workers[1..], a, keep);
      if workers[0] != a {
        assert Drop(workers, a)[1..] == Drop(workers[1..], a);
      }
    }
  }

  /** The tokens used, then those left, of the workers looked at. */
  function Line(s: System, keep: Address -> bool): seq<Address> {
    Only(Destinations(s.sent), keep) + Only(s.tokens, keep)
  }

  ghost predicate KeepsRunning(step: Step, keep: Address -> bool) {
    step.Report? && step.c.starting ==> !keep(step.c.worker)
  }

  lemma LineAfterReport(s: System, c: Control, limited: bool, allowed: int, keep: Address -> bool)
    requires KeepsRunning(Report(c), keep)
    ensures Line(Next(s, Report(c), limited, allowed), keep)
         == Line(s, keep) + Only(GrantedBy(s, Report(c), limited, allowed), keep)
  {
    if !Turned(limited, allowed, s.known, Some(c.worker)) {
      OnlyReported(s.tokens, c, keep);
    }
  }

  lemma OnlyReported(workers: seq<Address>, c: Control, keep: Address -> bool)
    requires c.starting ==> !keep(c.worker)
    ensures Only(Reported(workers, c), keep)
         == Only(workers, keep) + Only(if c.capacity.Some? then Repeat(c.worker, c.capacity.value) else [], keep)
  {
    var left := if c.starting then Drop(workers, c.worker) else workers;
    if c.starting {
      OnlyIgnoresDropped(workers, c.worker, keep);
    }
    OnlyConcat(left, if c.capacity.Some? then Repeat(c.worker, c.capacity.value) else [], keep);
  }

  lemma LineAfterDistribute(s: System, limited: bool, allowed: int, keep: Address -> bool)
    ensures Line(Next(s, Distribute, limited, allowed), keep) == Line(s, keep)
  {
    if s.input != [] && s.tokens != [] {
      var n := Next(s, Distribute, limited, allowed);
      assert Destinations(n.sent) == Destinations(s.sent) + [s.tokens[0]];
      OneMoved(Destinations(s.sent), s.tokens, keep);
    }
  }

  lemma OneMoved(x: seq<Address>, y: seq<Address>, keep: Address -> bool)
    requires y != []
    ensures Only(x + [y[0]], keep) + Only(y[1..], keep) == Only(x, keep) + Only(y, keep)
  {
    OnlyConcat(x, [y[0]], keep);
    assert Only([y[0]], keep) == if keep(y[0]) then [y[0]] else [];
    Associative(Only(x, keep), Only([y[0]], keep), Only(y[1..], keep));
  }

  lemma LineStep(s: System, step: Step, limited: bool, allowed: int, keep: Address -> bool)
    requires KeepsRunning(step, keep)
    ensures Line(Next(s, step, limited, allowed), keep)
         == Line(s, keep) + Only(GrantedBy(s, step, limited, allowed), keep)
  {
    match step
    case Report(c) => LineAfterReport(s, c, limited, allowed, keep);
    case Anonymous =>
    case Arrive(_) =>
    case Distribute => LineAfterDistribute(s, limited, allowed, keep);
  }

  /** Tokens are used first in, first out: looking at any workers none of which restarts, and
      whatever the others do, the destinations so far followed by the tokens left are the
      tokens granted, in order. */
  lemma {:induction false} FirstInFirstOut(s: System, steps: seq<Step>, limited: bool, allowed: int,
                                           keep: Address -> bool)
    requires forall step :: step in steps ==> KeepsRunning(step, keep)
    ensures Line(Execute(s, steps, limited, allowed), keep)
         == Line(s, keep) + Only(Granted(s, steps, limited, allowed), keep)
    decreases |steps|
  {
    if steps != [] {
      var n := Next(s, steps[0], limited, allowed);
      var now, later := GrantedBy(s, steps[0], limited, allowed), Granted(n, steps[1..], limited, allowed);
      LineStep(s, steps[0], limited, allowed, keep);
      FirstInFirstOut(n, steps[1..], limited, allowed, keep);
      OnlyConcat(now, later, keep);
      Associative(Line(s, keep), Only(now, keep), Only(later, keep));
    }
  }

  // ---- The objects follow the runs ----

  lemma NextDistributed(s: System, limited: bool, allowed: int)
    requires s.input != []
    ensures var n := Next(s, Distribute, limited, allowed);
            n.known == s.known &&
            (s.tokens == [] ==> n == s) &&
            (s.tokens != [] ==>
              n.tokens == s.tokens[1..] && n.input == s.input[1..] &&
              n.sent == s.sent + [Sent(s.input[0], s.tokens[0])])
  {
  }

  function StepOf(naming: Naming, m: ControlMessage): Step {
    var worker := ReplyToAddress(naming, m);
    if worker.None? then Anonymous else Report(Control(worker.value, m.starting, m.capacity))
  }

  /** The distributor with its queues; `system` is the run they make. */
  class DistributorNode {
    const manager: WorkerAvailabilityManager
    const license: LicenseConfig
    var input: seq<string>
    var sent: seq<Sent>
    ghost var system: System

    ghost predicate Valid()
      reads this, manager, license
    {
      && manager.Valid() && manager.naming.Consistent()
      && manager.Available() == system.tokens && license.known == system.known
      && input == system.input && sent == system.sent
      && Balanced(system, license.limited, license.allowed)
    }

    constructor (naming: Naming, limited: bool, allowed: int)
      requires naming.Consistent()
      ensures Valid() && fresh(manager) && fresh(license) && system == EMPTY
      ensures manager.naming == naming && license.limited == limited && license.allowed == allowed
    {
      manager := new WorkerAvailabilityManager(naming);
      license := new LicenseConfig(limited, allowed);
      input, sent, system := [], [], EMPTY;
    }

    method ControlArrived(m: ControlMessage) returns (ok: bool)
      requires Valid()
      modifies this`system, manager, license`known
      ensures Valid()
      ensures system == Next(old(system), StepOf(manager.naming, m), license.limited, license.allowed)
      ensures var worker := ReplyToAddress(manager.naming, m);
              worker.Some? &&
              (!license.limited || worker in old(license.known) || |old(license.known)| < license.allowed) ==>
                ok && (license.limited ==> worker in license.known) &&
                Credited(old(manager.Available()), manager.Available(), worker.value, m.starting, m.capacity)
    {
      ghost var step := StepOf(manager.naming, m);
      ok := HandleControlMessage(manager, license, m);
      BalancedStep(system, step, license.limited, license.allowed);
      system := Next(system, step, license.limited, license.allowed);
    }

    method MessageArrived(message: string)
      requires Valid()
      modifies this`input, this`system
      ensures Valid() && system == Next(old(system), Arrive(message), license.limited, license.allowed)
    {
      input := input + [message];
      system := Next(system, Arrive(message), license.limited, license.allowed);
    }

    /** The transport receives the next message; rolling back puts it back. */
    method DistributeNext()
      requires Valid() && input != []
      modifies this`input, this`sent, this`system, manager
      ensures Valid() && system == Next(old(system), Distribute, license.limited, license.allowed)
    {
      ghost var next := Next(system, Distribute, license.limited, license.allowed);
      BalancedStep(system, Distribute, license.limited, license.allowed);
      NextDistributed(system, license.limited, license.allowed);
      var handled := HandleMessage(manager);
      if handled.SentTo? {
        sent, input := sent + [Sent(input[0], handled.worker)], input[1..];
      }
      system := next;
    }
  }
}
