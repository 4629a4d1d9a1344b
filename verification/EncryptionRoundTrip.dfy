/** Encrypting a message graph and decrypting it again with a fresh mutator. */
module EncryptionRoundTrip {
  import opened Sequences
  import opened Strings
  import opened Encryption
  import opened EncryptionWalk

  ghost predicate Points(h: Heap, s: Slot, w: Ref) {
    InHeap(h, s) && ValueAt(h, s) == Wire(w)
  }

  /** Some member acted on holds the WireEncryptedString. */
  ghost predicate Hangs(h: Heap, log: seq<Slot>, w: Ref) {
    exists s :: s in log && Points(h, s, w)
  }

  /** Two of them do. */
  ghost predicate Shared(h: Heap, log: seq<Slot>, w: Ref) {
    exists s, t :: s in log && t in log && s != t && Points(h, s, w) && Points(h, t, w)
  }

  ghost predicate IsEncryption(service: Service, e: EncryptedValue, v: Option<string>, n: nat) {
    e == service.encrypt(v, n)
  }

  ghost predicate EncryptionOf(service: Service, e: EncryptedValue, v: Option<string>) {
    exists n :: IsEncryption(service, e, v, n)
  }

  // ---- What a completed walk has made of each member ----

  lemma FrontAndLast(log: seq<Slot>) returns (front: seq<Slot>, s: Slot)
    requires Distinct(log) && log != []
    ensures front == log[..|log| - 1] && log == front + [s] && s == log[|log| - 1]
    ensures s !in front && Distinct(front)
  {
    front, s := log[..|log| - 1], log[|log| - 1];
  }

  /** The last action of a walk: the member it acts on is still as it was at the start. */
  lemma LastAction(config: Config, d: Direction, h: Heap, log: seq<Slot>) returns (front: seq<Slot>, s: Slot, g: Heap)
    requires Closed(h) && AllEncrypted(h, log) && Distinct(log) && log != []
    requires Replay(config, d, h, log).Done?
    ensures log == front + [s] && s !in front && Distinct(front) && AllEncrypted(h, front)
    ensures Replay(config, d, h, front) == Done(g)
    ensures EncryptedSlot(g, s) && ValueAt(g, s) == ValueAt(h, s) && Closed(g)
    ensures Act(config, d, g, s, |front|) == Replay(config, d, h, log)
  {
    front, s := FrontAndLast(log);
    assert front == log[..|log| - 1];
    g := Replay(config, d, h, front).heap;
    ReplayOneMore(config, d, h, front, s);
    ReplayFrame(config, d, h, front, s);
  }

  lemma TextKept(config: Config, d: Direction, h: Heap, s: Slot, n: nat, t: Slot)
    requires InHeap(h, s) && Closed(h) && MemberAt(h, s).encrypted && InHeap(h, t) && t != s
    ensures var r := Act(config, d, h, s, n); r.Done? ==> InHeap(r.heap, t) && ValueAt(r.heap, t) == ValueAt(h, t)
  {
    ActFrame(config, d, h, s, n, t);
  }

  ghost predicate TextEncryption(service: Service, before: string, after: Value) {
    exists e :: EncryptionOf(service, e, Some(before)) && after == Text(Printed(e))
  }

  lemma EncryptText(config: Config, h: Heap, s: Slot, n: nat)
    requires InHeap(h, s) && Closed(h) && config.service.Some? && ValueAt(h, s).Text?
    ensures var r := Act(config, Encrypt, h, s, n);
            r.Done? && InHeap(r.heap, s) && TextEncryption(config.service.value, ValueAt(h, s).s, ValueAt(r.heap, s))
  {
    var v := Some(ValueAt(h, s).s);
    var e := config.service.value.encrypt(v, n);
    assert IsEncryption(config.service.value, e, v, n);
  }

  lemma {:induction false} TextEncrypted(config: Config, h: Heap, log: seq<Slot>, t: Slot)
    requires Closed(h) && AllEncrypted(h, log) && Distinct(log) && config.service.Some?
    requires Replay(config, Encrypt, h, log).Done? && t in log && ValueAt(h, t).Text?
    ensures var r := Replay(config, Encrypt, h, log).heap;
            InHeap(r, t) && TextEncryption(config.service.value, ValueAt(h, t).s, ValueAt(r, t))
    decreases |log|
  {
    var front, s, g := LastAction(config, Encrypt, h, log);
    if t == s {
      EncryptText(config, g, s, |front|);
    } else {
      TextEncrypted(config, h, front, t);
      TextKept(config, Encrypt, g, s, |front|, t);
    }
  }

  /** A WireEncryptedString that hangs off several members is encrypted again with the
      value already taken out of it. */
  ghost predicate WireEncrypted(service: Service, before: WireEncryptedString, after: WireEncryptedString,
                                again: bool) {
    after.value == None && after.stored.Some? &&
    EncryptionOf(service, after.stored.value, if again then None else before.value)
  }

  lemma EncryptsWire(config: Config, h: Heap, s: Slot, n: nat, w: Ref)
    requires InHeap(h, s) && Closed(h) && config.service.Some? && w in h.wires
    ensures var r := Act(config, Encrypt, h, s, n);
            r.Done? ==>
              w in r.heap.wires &&
              (if Points(h, s, w) then WireEncrypted(config.service.value, h.wires[w], r.heap.wires[w], false)
               else r.heap.wires[w] == h.wires[w])
  {
    if Points(h, s, w) {
      var e := config.service.value.encrypt(h.wires[w].value, n);
      assert IsEncryption(config.service.value, e, h.wires[w].value, n);
    }
  }

  lemma {:induction false} WiresEncrypted(config: Config, h: Heap, log: seq<Slot>, w: Ref)
    requires Closed(h) && AllEncrypted(h, log) && Distinct(log) && config.service.Some?
    requires Replay(config, Encrypt, h, log).Done? && w in h.wires
    ensures var r := Replay(config, Encrypt, h, log).heap;
            if Hangs(h, log, w) then WireEncrypted(config.service.value, h.wires[w], r.wires[w], Shared(h, log, w))
            else r.wires[w] == h.wires[w]
    ensures Hangs(h, log, w) ==> ReadyToSend(Replay(config, Encrypt, h, log).heap.wires[w], config.compatible)
    decreases |log|
  {
    WiresMadeReady(config, h, log);
    if log != [] {
      var front, s, g := LastAction(config, Encrypt, h, log);
      WiresEncrypted(config, h, front, w);
      EncryptsWire(config, g, s, |front|, w);
      LastHanging(h, front, s, w);
    }
  }

  lemma LastHanging(h: Heap, front: seq<Slot>, s: Slot, w: Ref)
    requires s !in front
    ensures Hangs(h, front + [s], w) <==> Hangs(h, front, w) || Points(h, s, w)
    ensures Shared(h, front + [s], w) <==> Shared(h, front, w) || (Hangs(h, front, w) && Points(h, s, w))
  {
    var log := front + [s];
    assert forall t :: t in log <==> t in front || t == s;
    if t :| t in front && Points(h, t, w) {
      assert t in log;
      if Points(h, s, w) {
        assert s in log && t != s;
      }
    }
    if Points(h, s, w) {
      assert s in log;
    }
  }

  ghost predicate TextDecryption(service: Service, before: string, after: Value) {
    var parts := Split(before, '@');
    |parts| >= 2 && after == AsValue(service.decrypt(EncryptedValue(Some(parts[0]), Some(parts[1]))))
  }

  lemma DecryptText(config: Config, h: Heap, s: Slot, n: nat)
    requires InHeap(h, s) && Closed(h) && config.service.Some? && ValueAt(h, s).Text?
    ensures var r := Act(config, Decrypt, h, s, n);
            r.Done? ==> InHeap(r.heap, s) && TextDecryption(config.service.value, ValueAt(h, s).s, ValueAt(r.heap, s))
  {
  }

  lemma {:induction false} TextDecrypted(config: Config, h: Heap, log: seq<Slot>, t: Slot)
    requires Closed(h) && AllEncrypted(h, log) && Distinct(log) && config.service.Some?
    requires Replay(config, Decrypt, h, log).Done? && t in log && ValueAt(h, t).Text?
    ensures var r := Replay(config, Decrypt, h, log).heap;
            InHeap(r, t) && TextDecryption(config.service.value, ValueAt(h, t).s, ValueAt(r, t))
    decreases |log|
  {
    var front, s, g := LastAction(config, Decrypt, h, log);
    if t == s {
      DecryptText(config, g, s, |front|);
    } else {
      TextDecrypted(config, h, front, t);
      TextKept(config, Decrypt, g, s, |front|, t);
    }
  }

  ghost predicate WireDecrypted(service: Service, before: WireEncryptedString, after: WireEncryptedString) {
    before.Encrypted().Some? && after == before.(value := service.decrypt(before.Encrypted().value))
  }

  lemma DecryptsWire(config: Config, h: Heap, s: Slot, n: nat, w: Ref)
    requires InHeap(h, s) && Closed(h) && config.service.Some? && w in h.wires
    ensures var r := Act(config, Decrypt, h, s, n);
            r.Done? ==>
              w in r.heap.wires &&
              (if Points(h, s, w) then WireDecrypted(config.service.value, h.wires[w], r.heap.wires[w])
               else r.heap.wires[w] == h.wires[w])
  {
  }

  lemma {:induction false} WiresDecrypted(config: Config, h: Heap, log: seq<Slot>, w: Ref)
    requires Closed(h) && AllEncrypted(h, log) && Distinct(log) && config.service.Some?
    requires Replay(config, Decrypt, h, log).Done? && w in h.wires
    ensures var r := Replay(config, Decrypt, h, log).heap;
            if Hangs(h, log, w) then WireDecrypted(config.service.value, h.wires[w], r.wires[w])
            else r.wires[w] == h.wires[w]
    decreases |log|
  {
    if log != [] {
      var front, s, g := LastAction(config, Decrypt, h, log);
      WiresDecrypted(config, h, front, w);
      DecryptsWire(config, g, s, |front|, w);
      LastHanging(h, front, s, w);
      assert Points(g, s, w) <==> Points(h, s, w);
      if Points(h, s, w) && Hangs(h, front, w) {
        DecryptedTwice(config.service.value, h.wires[w], g.wires[w], Replay(config, Decrypt, h, log).heap.wires[w]);
      }
    }
  }

  lemma DecryptedTwice(service: Service, before: WireEncryptedString, between: WireEncryptedString,
                       after: WireEncryptedString)
    requires WireDecrypted(service, before, between) && WireDecrypted(service, between, after)
    ensures WireDecrypted(service, before, after)
  {
  }

  // ---- The round trip ----

  /** What the receiver gets: the same graph, in which each WireEncryptedString has kept
      at least its EncryptedValue. */
  ghost predicate Transmitted(sent: Heap, received: Heap) {
    && received.nodes == sent.nodes && received.wires.Keys == sent.wires.Keys
    && forall w :: w in sent.wires ==> received.wires[w].Encrypted() == sent.wires[w].Encrypted()
  }

  /** One message sent and received: `before` encryption, as `sent`, as `received` and,
      after decryption by a fresh mutator, as `result`. */
  datatype Exchange = Exchange(
    service: Service, message: Option<Ref>,
    before: Heap, sending: Config, sendLog: seq<Slot>, sent: Heap,
    received: Heap, receiving: Config, receiveLog: seq<Slot>, result: Heap)
  {
    ghost predicate Sent() {
      && Closed(before) && Sound(service) && sending.service == receiving.service == Some(service)
      && WalkLog(before, message, sendLog) && AllEncrypted(before, sendLog)
      && Replay(sending, Encrypt, before, sendLog) == Done(sent)
      && Transmitted(sent, received)
      && WalkLog(received, message, receiveLog)
    }

    ghost predicate Received() {
      && Sent()
      && Closed(received) && AllEncrypted(received, receiveLog)
      && Replay(receiving, Decrypt, received, receiveLog) == Done(result)
    }

    ghost predicate HangsOff(w: Ref) { Hangs(before, sendLog, w) }

    ghost predicate SharedBy(w: Ref) { Shared(before, sendLog, w) }
  }

  lemma ReceivedShape(x: Exchange)
    requires x.Sent()
    ensures SameShape(x.before, x.received) && Closed(x.received) && AllEncrypted(x.received, x.receiveLog)
    ensures forall s :: s in x.sendLog <==> s in x.receiveLog
  {
    ShapeKeepsClosed(x.before, x.sent);
    forall s
      ensures s in x.sendLog <==> s in x.receiveLog
    {
      ShapeKeepsEncrypted(x.before, x.received, s);
      if x.message.Some? {
        ShapeKeepsReach(x.before, x.received, x.message.value, s.node);
      }
    }
  }

  /** Whatever was encrypted can be decrypted: the receiving walk does not throw. */
  lemma ReceivedIsDecryptable(x: Exchange)
    requires x.Sent()
    ensures Closed(x.received) && AllActable(x.receiving, Decrypt, x.received, x.message)
  {
    var config := x.sending;
    ReceivedShape(x);
    forall s | s in x.receiveLog
      ensures Actable(x.receiving, Decrypt, x.received, s)
    {
      ReplayedActable(config, Encrypt, x.before, x.sendLog);
      ShapeKeepsSlot(x.before, x.sent, s);
      if ValueAt(x.before, s).Text? {
        TextEncrypted(config, x.before, x.sendLog, s);
      } else if ValueAt(x.before, s).Wire? {
        var w := ValueAt(x.before, s).w;
        assert Points(x.before, s, w);
        WiresEncrypted(config, x.before, x.sendLog, w);
      }
    }
  }

  lemma PrintedSplits(e: EncryptedValue)
    requires Base64(e.base64) && Base64(e.iv)
    ensures Split(Printed(e), '@') == [e.base64.value, e.iv.value]
  {
    SplitAtFirst(e.base64.value, '@', e.iv.value);
    SplitWithout(e.iv.value, '@');
  }

  lemma TextRoundTrip(service: Service, t: string, encrypted: Value, decrypted: Value)
    requires Sound(service) && TextEncryption(service, t, encrypted)
    requires encrypted.Text? ==> TextDecryption(service, encrypted.s, decrypted)
    ensures decrypted == Text(t)
  {
    var e :| EncryptionOf(service, e, Some(t)) && encrypted == Text(Printed(e));
    var n :| IsEncryption(service, e, Some(t), n);
    assert e == service.encrypt(Some(t), n);
    PrintedSplits(e);
  }

  lemma SlotRoundTrip(x: Exchange, s: Slot)
    requires x.Received()
    requires InHeap(x.before, s)
    ensures InHeap(x.result, s) && ValueAt(x.result, s) == ValueAt(x.before, s)
  {
    var out, back := x.sending, x.receiving;
    ReceivedShape(x);
    ShapeKeepsSlot(x.before, x.received, s);
    ShapeKeepsSlot(x.received, x.result, s);
    if s !in x.sendLog {
      ReplayFrame(out, Encrypt, x.before, x.sendLog, s);
      ReplayFrame(back, Decrypt, x.received, x.receiveLog, s);
    } else if ValueAt(x.before, s).Text? {
      TextEncrypted(out, x.before, x.sendLog, s);
      TextDecrypted(back, x.received, x.receiveLog, s);
      TextRoundTrip(x.service, ValueAt(x.before, s).s, ValueAt(x.sent, s), ValueAt(x.result, s));
    }
  }

  /** Sending and receiving a message restores every object of the graph: all members,
      the encrypted strings included, hold what they held before. */
  lemma GraphRestored(x: Exchange)
    requires x.Received()
    ensures x.result.nodes == x.before.nodes
  {
    ReceivedShape(x);
    ShapeTransitive(x.before, x.received, x.result);
    forall r | r in x.before.nodes
      ensures x.result.nodes[r] == x.before.nodes[r]
    {
      assert SameNode(x.before.nodes[r], x.result.nodes[r]);
      forall i | 0 <= i < |x.before.nodes[r].members|
        ensures x.result.nodes[r].members[i] == x.before.nodes[r].members[i]
      {
        SlotRoundTrip(x, Slot(r, i));
        assert SameMember(x.before.nodes[r].members[i], x.result.nodes[r].members[i]);
      }
      assert x.result.nodes[r].members == x.before.nodes[r].members;
    }
  }

  /** The last thing that was encrypted into a WireEncryptedString is what comes out of it. */
  lemma WireOutcome(x: Exchange, w: Ref)
    requires x.Received()
    requires w in x.before.wires
    ensures w in x.received.wires && w in x.result.wires
    ensures if x.HangsOff(w) then
              exists e :: EncryptionOf(x.service, e, if x.SharedBy(w) then None else x.before.wires[w].value) &&
                          x.result.wires[w].value == x.service.decrypt(e)
            else x.sent.wires[w] == x.before.wires[w] && x.result.wires[w] == x.received.wires[w]
  {
    ReceivedShape(x);
    WiresEncrypted(x.sending, x.before, x.sendLog, w);
    WiresDecrypted(x.receiving, x.received, x.receiveLog, w);
    assert forall s :: s in x.sendLog ==> (Points(x.before, s, w) <==> Points(x.received, s, w)) by {
      forall s | s in x.sendLog
        ensures Points(x.before, s, w) <==> Points(x.received, s, w)
      {
        ShapeKeepsSlot(x.before, x.received, s);
      }
    }
    assert x.HangsOff(w) <==> Hangs(x.received, x.receiveLog, w);
  }

  /** A WireEncryptedString with a value that hangs off one member gets its value back;
      one that hangs off none is not touched. */
  lemma WireRestored(x: Exchange, w: Ref)
    requires x.Received()
    requires w in x.before.wires
    ensures w in x.received.wires && w in x.result.wires
    ensures x.HangsOff(w) && !x.SharedBy(w) && x.before.wires[w].value.Some? ==>
              x.result.wires[w].value == x.before.wires[w].value
    ensures !x.HangsOff(w) ==> x.sent.wires[w] == x.before.wires[w] && x.result.wires[w] == x.received.wires[w]
  {
    WireOutcome(x, w);
    if x.HangsOff(w) && !x.SharedBy(w) && x.before.wires[w].value.Some? {
      EncryptionDecrypts(x.service, x.before.wires[w].value.value);
    }
  }

  lemma EncryptionDecrypts(service: Service, s: string)
    requires Sound(service)
    ensures forall e :: EncryptionOf(service, e, Some(s)) ==> service.decrypt(e) == Some(s)
  {
    forall e | EncryptionOf(service, e, Some(s))
      ensures service.decrypt(e) == Some(s)
    {
      var n :| IsEncryption(service, e, Some(s), n);
      assert e == service.encrypt(Some(s), n);
    }
  }

  /** Writing a null string to a cipher stream writes nothing, so it comes back empty. */
  ghost predicate NullBecomesEmpty(service: Service) {
    forall n: nat :: service.decrypt(service.encrypt(None, n)) == Some("")
  }

  /** With such a service a WireEncryptedString that was acted on is restored exactly when
      it had a value and, if several members held it, that value was empty. */
  lemma WireRestoredExactly(x: Exchange, w: Ref)
    requires x.Received()
    requires w in x.before.wires
    ensures w in x.result.wires
    ensures NullBecomesEmpty(x.service) && x.HangsOff(w) ==>
              (x.result.wires[w].value == x.before.wires[w].value <==>
                x.before.wires[w].value.Some? && (x.SharedBy(w) ==> x.before.wires[w].value == Some("")))
  {
    WireOutcome(x, w);
    if !NullBecomesEmpty(x.service) || !x.HangsOff(w) {
      return;
    }
    var v := if x.SharedBy(w) then None else x.before.wires[w].value;
    if v.Some? {
      EncryptionDecrypts(x.service, v.value);
    } else {
      var e :| EncryptionOf(x.service, e, None) && x.result.wires[w].value == x.service.decrypt(e);
      var n :| IsEncryption(x.service, e, None, n);
      assert e == x.service.encrypt(None, n);
    }
  }

  // ---- From one endpoint to another ----

  /** An encrypted member of an object reachable from the message. */
  ghost predicate Reached(h: Heap, message: Option<Ref>, s: Slot) {
    EncryptedSlot(h, s) && message.Some? && Reaches(h, message.value, s.node)
  }

  ghost predicate Held(h: Heap, message: Option<Ref>, w: Ref) {
    exists s :: Reached(h, message, s) && Points(h, s, w)
  }

  ghost predicate HeldTwice(h: Heap, message: Option<Ref>, w: Ref) {
    exists s, t :: s != t && Reached(h, message, s) && Reached(h, message, t) && Points(h, s, w) && Points(h, t, w)
  }

  lemma HeldByWalk(x: Exchange, w: Ref)
    requires WalkLog(x.before, x.message, x.sendLog)
    ensures x.HangsOff(w) <==> Held(x.before, x.message, w)
    ensures x.SharedBy(w) <==> HeldTwice(x.before, x.message, w)
  {
    assert forall s :: s in x.sendLog <==> Reached(x.before, x.message, s);
  }

  /** A message goes out through one mutator, over the wire and in through a fresh one. Only
      sending can throw; then what arrives is the graph that was sent, and each string held
      by one encrypted member has its value. If null is encrypted as nothing, the strings that
      come back are exactly those that survive. */
  method SendAndReceive(service: Service, sending: Config, receiving: Config, before: Heap, message: Option<Ref>,
                        wire: Heap -> Heap)
    returns (thrown: Option<Error>, result: Heap)
    requires Closed(before) && (message.Some? ==> message.value in before.nodes)
    requires Sound(service) && sending.service == receiving.service == Some(service)
    requires forall h :: Transmitted(h, wire(h))
    ensures thrown.None? <==> AllActable(sending, Encrypt, before, message)
    ensures thrown.None? ==> result.nodes == before.nodes && result.wires.Keys == before.wires.Keys
    ensures thrown.None? ==>
              forall w :: w in before.wires && Held(before, message, w) && HasOwnValue(before, message, w) ==>
                result.wires[w].value == before.wires[w].value
    ensures thrown.None? && NullBecomesEmpty(service) ==>
              forall w :: w in before.wires && Held(before, message, w) ==>
                (result.wires[w].value == before.wires[w].value <==> Survives(before, message, w))
  {
    var sender := new EncryptionMessageMutator(sending, before);
    thrown := sender.MutateOutgoing(message);
    if thrown.Some? {
      return thrown, before;
    }
    var received := wire(sender.heap);
    ghost var x :=
        Exchange(service, message, before, sending, sender.log, sender.heap, received, receiving, [], received);
    ReceivedFits(x);
    var receiver := new EncryptionMessageMutator(receiving, received);
    thrown := receiver.MutateIncoming(message);
    result := receiver.heap;
    x := x.(receiveLog := receiver.log, result := result);
    if thrown.None? {
      ReceivedShape(x);
      GraphRestored(x);
      WiresRestored(x);
    }
  }

  /** A graph that was sent can be walked and decrypted where it arrives. */
  lemma ReceivedFits(x: Exchange)
    requires Closed(x.before) && Sound(x.service) && x.sending.service == x.receiving.service == Some(x.service)
    requires x.message.Some? ==> x.message.value in x.before.nodes
    requires WalkLog(x.before, x.message, x.sendLog) && AllEncrypted(x.before, x.sendLog)
    requires Replay(x.sending, Encrypt, x.before, x.sendLog) == Done(x.sent) && Transmitted(x.sent, x.received)
    ensures Closed(x.received) && AllActable(x.receiving, Decrypt, x.received, x.message)
    ensures x.message.Some? ==> x.message.value in x.received.nodes
  {
    forall s
      ensures s in x.sendLog <==> Reached(x.received, x.message, s)
    {
      ShapeKeepsEncrypted(x.before, x.received, s);
      if x.message.Some? {
        ShapeKeepsReach(x.before, x.received, x.message.value, s.node);
      }
    }
    ReceivedIsDecryptable(x.(receiveLog := x.sendLog));
  }

  /** It has a value and is held by one encrypted member only. */
  ghost predicate HasOwnValue(h: Heap, message: Option<Ref>, w: Ref)
    requires w in h.wires
  {
    h.wires[w].value.Some? && !HeldTwice(h, message, w)
  }

  /** It has a value, which is empty if several encrypted members hold it. */
  ghost predicate Survives(h: Heap, message: Option<Ref>, w: Ref)
    requires w in h.wires
  {
    h.wires[w].value.Some? && (HeldTwice(h, message, w) ==> h.wires[w].value == Some(""))
  }

  lemma WiresRestored(x: Exchange)
    requires x.Received()
    ensures x.result.wires.Keys == x.before.wires.Keys
    ensures forall w :: w in x.before.wires && Held(x.before, x.message, w) ==>
              (HasOwnValue(x.before, x.message, w) ==> x.result.wires[w].value == x.before.wires[w].value) &&
              (NullBecomesEmpty(x.service) ==>
                (x.result.wires[w].value == x.before.wires[w].value <==> Survives(x.before, x.message, w)))
  {
    assert SameShape(x.before, x.sent) && SameShape(x.received, x.result);
    forall w | w in x.before.wires && Held(x.before, x.message, w)
      ensures w in x.result.wires
      ensures HasOwnValue(x.before, x.message, w) ==> x.result.wires[w].value == x.before.wires[w].value
      ensures NullBecomesEmpty(x.service) ==>
                (x.result.wires[w].value == x.before.wires[w].value <==> Survives(x.before, x.message, w))
    {
      HeldByWalk(x, w);
      WireRestored(x, w);
      WireRestoredExactly(x, w);
    }
  }

  // ---- A 2.X receiver ----

  /** A 2.X receiver knows the copies only. What was encrypted for one member gives it the value
      back exactly when compatibility was asked for, and nothing otherwise. */
  lemma OldReceiverReads(x: Exchange, w: Ref)
    requires x.Sent() && w in x.before.wires
    ensures w in x.sent.wires
    ensures var copies := x.sent.wires[w].(value := None, stored := None).Encrypted();
            x.HangsOff(w) && !x.SharedBy(w) && x.before.wires[w].value.Some? ==>
              if x.sending.compatible then copies.Some? && x.service.decrypt(copies.value) == x.before.wires[w].value
              else copies.None?
  {
    WiresEncrypted(x.sending, x.before, x.sendLog, w);
    assert SameShape(x.before, x.sent);
    if x.HangsOff(w) && !x.SharedBy(w) && x.before.wires[w].value.Some? {
      var sent, v := x.sent.wires[w], x.before.wires[w].value.value;
      EncryptionDecrypts(x.service, v);
      EncryptionHasParts(x.service, v, sent.stored.value);
      CopiesAlone(sent, x.sending.compatible);
    }
  }

  lemma EncryptionHasParts(service: Service, v: string, e: EncryptedValue)
    requires Sound(service) && EncryptionOf(service, e, Some(v))
    ensures Base64(e.base64) && Base64(e.iv)
  {
    var n :| IsEncryption(service, e, Some(v), n);
    assert e == service.encrypt(Some(v), n);
  }

  // ---- A string that is lost ----

  function Escaped(s: string): string {
    if s == [] then []
    else (if s[0] == '@' then "%0" else if s[0] == '%' then "%1" else [s[0]]) + Escaped(s[1..])
  }

  function Unescaped(s: string): string {
    if s == [] then []
    else if s[0] == '%' && |s| > 1 then [if s[1] == '0' then '@' else '%'] + Unescaped(s[2..])
    else [s[0]] + Unescaped(s[1..])
  }

  lemma {:induction false} EscapedReadBack(s: string)
    ensures '@' !in Escaped(s) && Unescaped(Escaped(s)) == s
  {
    if s != [] {
      EscapedReadBack(s[1..]);
      var rest, escaped := Escaped(s[1..]), Escaped(s);
      if s[0] == '@' || s[0] == '%' {
        assert escaped[2..] == rest;
      } else {
        assert escaped[1..] == rest;
      }
    }
  }

  /** A service that meets what is assumed of one, though it hides nothing. */
  const ESCAPING := Service(
    (v: Option<string>, n: nat) => EncryptedValue(Some(if v.None? then "" else Escaped(v.value)), Some("")),
    (e: EncryptedValue) => if e.base64.None? then None else Some(Unescaped(e.base64.value)))

  lemma EscapingIsSound()
    ensures Sound(ESCAPING) && NullBecomesEmpty(ESCAPING)
  {
    forall s: string
      ensures '@' !in Escaped(s) && Unescaped(Escaped(s)) == s
    {
      EscapedReadBack(s);
    }
  }

  /** One object with two encrypted members on one string: the string arrives empty. */
  method SharedStringLost(secret: string) returns (before: Heap, result: Heap)
    requires secret != ""
    ensures 1 in before.wires && before.wires[1].value == Some(secret) && HeldTwice(before, Some(0), 1)
    ensures 1 in result.wires && result.wires[1].value != Some(secret) && result.nodes == before.nodes
  {
    EscapingIsSound();
    var config := Config(Some(ESCAPING), false);
    before := Heap(
      map[0 := Node(false, [Member("First", true, Wire(1)), Member("Second", true, Wire(1))])],
      map[1 := WireEncryptedString(Some(secret), None, None, None)]);
    ReachesSelf(before, 0);
    var first, second := Slot(0, 0), Slot(0, 1);
    assert Reached(before, Some(0), first) && Points(before, first, 1);
    assert Reached(before, Some(0), second) && Points(before, second, 1);
    var thrown;
    thrown, result := SendAndReceive(ESCAPING, config, config, before, Some(0), h => h);
  }
}
