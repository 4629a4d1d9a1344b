/** The walk over a message graph: which members it acts on, in which heap. */
module EncryptionWalk {
  import opened Sequences
  import opened Strings
  import opened Encryption

  // ---- Shape is kept by every action ----

  lemma ShapeTransitive(f: Heap, g: Heap, h: Heap)
    requires SameShape(f, g) && SameShape(g, h)
    ensures SameShape(f, h)
  {
    forall r | r in f.nodes
      ensures SameNode(f.nodes[r], h.nodes[r])
    {
      assert SameNode(f.nodes[r], g.nodes[r]) && SameNode(g.nodes[r], h.nodes[r]);
      forall i | 0 <= i < |f.nodes[r].members|
        ensures SameMember(f.nodes[r].members[i], h.nodes[r].members[i])
      {
        assert SameMember(f.nodes[r].members[i], g.nodes[r].members[i]);
        assert SameMember(g.nodes[r].members[i], h.nodes[r].members[i]);
      }
    }
  }

  lemma ShapeKeepsSlot(g: Heap, h: Heap, s: Slot)
    requires SameShape(g, h) && InHeap(g, s)
    ensures InHeap(h, s) && SameMember(MemberAt(g, s), MemberAt(h, s))
  {
    assert SameNode(g.nodes[s.node], h.nodes[s.node]);
  }

  lemma ShapeKeepsClosed(g: Heap, h: Heap)
    requires SameShape(g, h) && Closed(g)
    ensures Closed(h)
  {
    forall r, i | r in h.nodes && 0 <= i < |h.nodes[r].members|
      ensures forall c :: Refers(h.nodes[r].members[i].value, c) ==> c in h.nodes
      ensures h.nodes[r].members[i].value.Wire? ==> h.nodes[r].members[i].value.w in h.wires
    {
      assert SameNode(g.nodes[r], h.nodes[r]);
      assert SameMember(g.nodes[r].members[i], h.nodes[r].members[i]);
    }
  }

  lemma AssignKeepsShape(h: Heap, s: Slot, v: Value)
    requires InHeap(h, s) && MemberAt(h, s).encrypted && ValueAt(h, s).Text? && (v.Text? || v.Null?)
    ensures SameShape(h, Assign(h, s, v))
  {
    forall r | r in h.nodes
      ensures SameNode(h.nodes[r], Assign(h, s, v).nodes[r])
    {
      forall i | 0 <= i < |h.nodes[r].members|
        ensures SameMember(h.nodes[r].members[i], Assign(h, s, v).nodes[r].members[i])
      {
      }
    }
  }

  lemma ActKeepsShape(config: Config, d: Direction, h: Heap, s: Slot, n: nat)
    requires InHeap(h, s) && Closed(h) && MemberAt(h, s).encrypted
    ensures var r := Act(config, d, h, s, n); r.Done? ==> SameShape(h, r.heap) && Closed(r.heap)
  {
    var r := Act(config, d, h, s, n);
    if r.Done? {
      if ValueAt(h, s).Text? {
        AssignKeepsShape(h, s, ValueAt(r.heap, s));
        assert r.heap == Assign(h, s, ValueAt(r.heap, s));
      } else {
        assert r.heap.nodes == h.nodes && r.heap.wires.Keys == h.wires.Keys;
      }
      ShapeKeepsClosed(h, r.heap);
    }
  }

  // ---- The heap after a sequence of actions ----

  ghost predicate EncryptedSlot(h: Heap, s: Slot) {
    InHeap(h, s) && MemberAt(h, s).encrypted
  }

  ghost predicate AllEncrypted(h: Heap, log: seq<Slot>) {
    forall s :: s in log ==> EncryptedSlot(h, s)
  }

  lemma ShapeKeepsEncrypted(g: Heap, h: Heap, s: Slot)
    requires SameShape(g, h)
    ensures EncryptedSlot(g, s) <==> EncryptedSlot(h, s)
  {
    if s.node in g.nodes {
      assert SameNode(g.nodes[s.node], h.nodes[s.node]);
      if InHeap(g, s) {
        ShapeKeepsSlot(g, h, s);
      }
    }
  }

  /** Acting on the members of `log`, in that order. */
  ghost function Replay(config: Config, d: Direction, h: Heap, log: seq<Slot>): (r: Outcome)
    requires Closed(h) && AllEncrypted(h, log)
    ensures r.Done? ==> SameShape(h, r.heap) && Closed(r.heap)
  {
    if log == [] then Done(h)
    else
      var n := |log| - 1;
      var before := Replay(config, d, h, log[..n]);
      if before.Thrown? then before
      else
        ShapeKeepsEncrypted(h, before.heap, log[n]);
        ActKeepsShape(config, d, before.heap, log[n], n);
        var after := Act(config, d, before.heap, log[n], n);
        if after.Done? then (ShapeTransitive(h, before.heap, after.heap); after) else after
  }

  lemma ReplayOneMore(config: Config, d: Direction, h: Heap, log: seq<Slot>, s: Slot)
    requires Closed(h) && AllEncrypted(h, log + [s]) && Replay(config, d, h, log).Done?
    ensures var g := Replay(config, d, h, log).heap;
            EncryptedSlot(g, s) && Closed(g) && Replay(config, d, h, log + [s]) == Act(config, d, g, s, |log|)
  {
    assert (log + [s])[..|log|] == log;
    ShapeKeepsEncrypted(h, Replay(config, d, h, log).heap, s);
  }

  /** An action leaves every other member alone, and decrypting also leaves every
      stored encrypted value alone. */
  lemma ActFrame(config: Config, d: Direction, h: Heap, s: Slot, n: nat, t: Slot)
    requires InHeap(h, s) && Closed(h) && MemberAt(h, s).encrypted
    requires InHeap(h, t) && t != s
    ensures var r := Act(config, d, h, s, n);
            r.Done? ==> InHeap(r.heap, t) && Closed(r.heap) && ValueAt(r.heap, t) == ValueAt(h, t) &&
                        (Actable(config, d, r.heap, t) <==> Actable(config, d, h, t))
  {
    ActKeepsShape(config, d, h, s, n);
  }

  /** A member not acted on yet is as fit to be acted on as it was at the start. */
  lemma {:induction false} ReplayFrame(config: Config, d: Direction, h: Heap, log: seq<Slot>, t: Slot)
    requires Closed(h) && AllEncrypted(h, log) && InHeap(h, t) && t !in log
    ensures var r := Replay(config, d, h, log);
            r.Done? ==> InHeap(r.heap, t) && ValueAt(r.heap, t) == ValueAt(h, t) &&
                        (Actable(config, d, r.heap, t) <==> Actable(config, d, h, t))
  {
    if log != [] && Replay(config, d, h, log).Done? {
      var n := |log| - 1;
      var front, s := log[..n], log[n];
      assert log == front + [s];
      ReplayFrame(config, d, h, front, t);
      ReplayOneMore(config, d, h, front, s);
      ActFrame(config, d, Replay(config, d, h, front).heap, s, n, t);
    }
  }

  /** A walk that gets through found every member fit to be acted on from the start. */
  lemma {:induction false} ReplayedActable(config: Config, d: Direction, h: Heap, log: seq<Slot>)
    requires Closed(h) && AllEncrypted(h, log) && Distinct(log) && Replay(config, d, h, log).Done?
    ensures forall s :: s in log ==> Actable(config, d, h, s)
  {
    if log != [] {
      var n := |log| - 1;
      var front, s := log[..n], log[n];
      assert log == front + [s];
      ReplayedActable(config, d, h, front);
      ReplayOneMore(config, d, h, front, s);
      ReplayFrame(config, d, h, front, s);
      ActableExactly(config, d, Replay(config, d, h, front).heap, s, n);
    }
  }

  ghost predicate WiresReady(config: Config, h: Heap, log: seq<Slot>, g: Heap) {
    forall s :: s in log && InHeap(h, s) && ValueAt(h, s).Wire? ==>
      ValueAt(h, s).w in g.wires && ReadyToSend(g.wires[ValueAt(h, s).w], config.compatible)
  }

  lemma ActReadiesWire(config: Config, h: Heap, s: Slot, n: nat, w: Ref)
    requires InHeap(h, s) && Closed(h) && w in h.wires && Act(config, Encrypt, h, s, n).Done?
    ensures var r := Act(config, Encrypt, h, s, n).heap;
            w in r.wires &&
            (ValueAt(h, s) == Wire(w) || ReadyToSend(h.wires[w], config.compatible) ==>
              ReadyToSend(r.wires[w], config.compatible))
  {
  }

  /** After an encrypting walk, every string met is encrypted, with its copies for 2.X or without. */
  lemma {:induction false} WiresMadeReady(config: Config, h: Heap, log: seq<Slot>)
    requires Closed(h) && AllEncrypted(h, log) && Distinct(log) && Replay(config, Encrypt, h, log).Done?
    ensures WiresReady(config, h, log, Replay(config, Encrypt, h, log).heap)
  {
    if log != [] {
      var n := |log| - 1;
      var front, last := log[..n], log[n];
      assert log == front + [last];
      WiresMadeReady(config, h, front);
      ReplayOneMore(config, Encrypt, h, front, last);
      ReplayFrame(config, Encrypt, h, front, last);
      var g := Replay(config, Encrypt, h, front).heap;
      forall s | s in log && InHeap(h, s) && ValueAt(h, s).Wire?
        ensures var r := Replay(config, Encrypt, h, log).heap;
                ValueAt(h, s).w in r.wires && ReadyToSend(r.wires[ValueAt(h, s).w], config.compatible)
      {
        ActReadiesWire(config, g, last, n, ValueAt(h, s).w);
      }
    }
  }

  // ---- Reachability ----

  /** The walk goes from an object to what its members hold, except out of system objects. */
  ghost predicate IsChild(h: Heap, r: Ref, c: Ref) {
    r in h.nodes && !h.nodes[r].system &&
    exists i :: 0 <= i < |h.nodes[r].members| && Refers(h.nodes[r].members[i].value, c)
  }

  ghost predicate Path(h: Heap, p: seq<Ref>, a: Ref, b: Ref) {
    p != [] && p[0] == a && p[|p| - 1] == b && forall i :: 0 <= i < |p| - 1 ==> IsChild(h, p[i], p[i + 1])
  }

  ghost predicate Reaches(h: Heap, a: Ref, b: Ref) {
    exists p :: Path(h, p, a, b)
  }

  lemma ReachesSelf(h: Heap, a: Ref)
    ensures Reaches(h, a, a)
  {
    assert Path(h, [a], a, a);
  }

  lemma ReachesThrough(h: Heap, a: Ref, c: Ref, b: Ref)
    requires IsChild(h, a, c) && Reaches(h, c, b)
    ensures Reaches(h, a, b)
  {
    var p :| Path(h, p, c, b);
    assert Path(h, [a] + p, a, b);
  }

  /** What an object leads to itself: the objects its members hold or their collections contain, and
      nothing if its type is a system type. */
  ghost predicate LeadsTo(h: Heap, a: Ref, c: Ref) {
    && a in h.nodes && !h.nodes[a].system
    && exists m :: m in h.nodes[a].members && (m.value == Object(c) || (m.value.Items? && Some(c) in m.value.items))
  }

  lemma LeadsToChildren(h: Heap, a: Ref, c: Ref)
    ensures LeadsTo(h, a, c) <==> IsChild(h, a, c)
  {
    if IsChild(h, a, c) {
      var i :| 0 <= i < |h.nodes[a].members| && Refers(h.nodes[a].members[i].value, c);
      assert h.nodes[a].members[i] in h.nodes[a].members;
    }
  }

  /** An object reaches itself and what those it leads to reach; a system object only itself. */
  lemma ReachesExactly(h: Heap, a: Ref, b: Ref)
    ensures Reaches(h, a, b) <==> a == b || exists c :: LeadsTo(h, a, c) && Reaches(h, c, b)
    ensures a in h.nodes && h.nodes[a].system ==> (Reaches(h, a, b) <==> a == b)
  {
    ReachesSelf(h, a);
    forall c | LeadsTo(h, a, c) && Reaches(h, c, b)
      ensures Reaches(h, a, b)
    {
      LeadsToChildren(h, a, c);
      ReachesThrough(h, a, c, b);
    }
    if Reaches(h, a, b) && a != b {
      var p :| Path(h, p, a, b);
      LeadsToChildren(h, a, p[1]);
      assert Path(h, p[1..], p[1], b);
    }
  }

  lemma {:induction false} ClosedSetHoldsPath(h: Heap, nodes: set<Ref>, p: seq<Ref>, a: Ref, b: Ref)
    requires a in nodes && forall n, c :: n in nodes && IsChild(h, n, c) ==> c in nodes
    requires Path(h, p, a, b)
    ensures b in nodes
    decreases |p|
  {
    if |p| > 1 {
      assert IsChild(h, p[0], p[1]);
      assert Path(h, p[1..], p[1], b);
      ClosedSetHoldsPath(h, nodes, p[1..], p[1], b);
    }
  }

  lemma ShapeKeepsChildren(g: Heap, h: Heap, r: Ref, c: Ref)
    requires SameShape(g, h)
    ensures IsChild(g, r, c) <==> IsChild(h, r, c)
  {
    if r in g.nodes {
      assert SameNode(g.nodes[r], h.nodes[r]);
      forall i | 0 <= i < |g.nodes[r].members|
        ensures Refers(g.nodes[r].members[i].value, c) <==> Refers(h.nodes[r].members[i].value, c)
      {
        assert SameMember(g.nodes[r].members[i], h.nodes[r].members[i]);
      }
    }
  }

  lemma ShapeKeepsReach(g: Heap, h: Heap, a: Ref, b: Ref)
    requires SameShape(g, h)
    ensures Reaches(g, a, b) <==> Reaches(h, a, b)
  {
    forall p: seq<Ref>, i | 0 <= i < |p| - 1
      ensures IsChild(g, p[i], p[i + 1]) <==> IsChild(h, p[i], p[i + 1])
    {
      ShapeKeepsChildren(g, h, p[i], p[i + 1]);
    }
    if p :| Path(g, p, a, b) {
      assert Path(h, p, a, b);
    }
    if p :| Path(h, p, a, b) {
      assert Path(g, p, a, b);
    }
  }

  // ---- Which members have been acted on ----

  /** Each encrypted member of `nodes` exactly once, of `root` only those before index `i`. */
  ghost predicate ActedUpTo(h: Heap, log: seq<Slot>, nodes: set<Ref>, root: Ref, i: nat) {
    Distinct(log) &&
    forall s :: s in log <==> EncryptedSlot(h, s) && s.node in nodes && (s.node == root ==> s.index < i)
  }

  ghost predicate Acted(h: Heap, log: seq<Slot>, nodes: set<Ref>) {
    Distinct(log) && forall s :: s in log <==> EncryptedSlot(h, s) && s.node in nodes
  }

  lemma ActedMore(h: Heap, log: seq<Slot>, more: seq<Slot>, nodes: set<Ref>, added: set<Ref>, root: Ref, i: nat)
    requires ActedUpTo(h, log, nodes, root, i) && Acted(h, more, added)
    requires nodes !! added && root !in added
    ensures ActedUpTo(h, log + more, nodes + added, root, i)
  {
    forall a, b | 0 <= a < b < |log + more|
      ensures (log + more)[a] != (log + more)[b]
    {
      if a < |log| <= b {
        assert log[a] in log && more[b - |log|] in more;
      }
    }
  }

  lemma ActedBoth(h: Heap, log: seq<Slot>, more: seq<Slot>, nodes: set<Ref>, added: set<Ref>)
    requires Acted(h, log, nodes) && Acted(h, more, added) && nodes !! added
    ensures Acted(h, log + more, nodes + added)
  {
    forall a, b | 0 <= a < b < |log + more|
      ensures (log + more)[a] != (log + more)[b]
    {
      if a < |log| <= b {
        assert log[a] in log && more[b - |log|] in more;
      }
    }
  }

  lemma ActedOne(h: Heap, log: seq<Slot>, nodes: set<Ref>, root: Ref, i: nat)
    requires ActedUpTo(h, log, nodes, root, i) && root in nodes && InHeap(h, Slot(root, i))
    ensures var more := if MemberAt(h, Slot(root, i)).encrypted then log + [Slot(root, i)] else log;
            ActedUpTo(h, more, nodes, root, i + 1)
  {
    assert Slot(root, i) !in log;
    forall s | EncryptedSlot(h, s) && s.node == root && s.index < i + 1
      ensures s.index < i || s == Slot(root, i)
    {
    }
  }

  /** A stretch of the walk below `root` that took the visited set from `v0` to `v1` and
      the actions from `l0` to `l1`. */
  ghost predicate Walked(h: Heap, root: Ref, v0: set<Ref>, l0: seq<Slot>, v1: set<Ref>, l1: seq<Slot>) {
    && v0 <= v1 && l0 <= l1
    && (forall n, c :: n in v1 - v0 && IsChild(h, n, c) ==> c in v1)
    && (forall n :: n in v1 - v0 ==> Reaches(h, root, n))
    && Acted(h, l1[|l0|..], v1 - v0)
  }

  lemma WalkedNothing(h: Heap, root: Ref, v: set<Ref>, l: seq<Slot>)
    ensures Walked(h, root, v, l, v, l)
  {
  }

  lemma WalkedTwice(h: Heap, root: Ref, v0: set<Ref>, l0: seq<Slot>, v1: set<Ref>, l1: seq<Slot>, v2: set<Ref>,
                    l2: seq<Slot>)
    requires Walked(h, root, v0, l0, v1, l1) && Walked(h, root, v1, l1, v2, l2)
    ensures Walked(h, root, v0, l0, v2, l2)
  {
    ActedBoth(h, l1[|l0|..], l2[|l1|..], v1 - v0, v2 - v1);
    assert l1[|l0|..] + l2[|l1|..] == l2[|l0|..];
    assert (v1 - v0) + (v2 - v1) == v2 - v0;
  }

  lemma WalkedBelowChild(h: Heap, root: Ref, c: Ref, v0: set<Ref>, l0: seq<Slot>, v1: set<Ref>, l1: seq<Slot>)
    requires Walked(h, c, v0, l0, v1, l1) && IsChild(h, root, c)
    ensures Walked(h, root, v0, l0, v1, l1)
  {
    forall n | n in v1 - v0
      ensures Reaches(h, root, n)
    {
      ReachesThrough(h, root, c, n);
    }
  }

  /** The visit of `root` itself, after its first `i` members. */
  ghost predicate Visiting(h: Heap, root: Ref, i: nat, v0: set<Ref>, l0: seq<Slot>, v1: set<Ref>, l1: seq<Slot>) {
    && root in h.nodes && i <= |h.nodes[root].members|
    && root !in v0 && v0 + {root} <= v1 && l0 <= l1
    && (forall n, c :: n in v1 - v0 && n != root && IsChild(h, n, c) ==> c in v1)
    && (forall n :: n in v1 - v0 ==> Reaches(h, root, n))
    && ActedUpTo(h, l1[|l0|..], v1 - v0, root, i)
    && (forall j, c :: 0 <= j < i && !h.nodes[root].system && Refers(h.nodes[root].members[j].value, c) ==> c in v1)
  }

  lemma VisitStarts(h: Heap, root: Ref, v0: set<Ref>, l0: seq<Slot>)
    requires root in h.nodes && root !in v0
    ensures Visiting(h, root, 0, v0, l0, v0 + {root}, l0)
  {
    ReachesSelf(h, root);
  }

  lemma NotYetActed(h: Heap, root: Ref, i: nat, v0: set<Ref>, l0: seq<Slot>, v1: set<Ref>, l1: seq<Slot>)
    requires Visiting(h, root, i, v0, l0, v1, l1) && forall s :: s in l0 ==> s.node in v0
    ensures root in v1 && Slot(root, i) !in l1
  {
    assert l1 == l0 + l1[|l0|..];
  }

  lemma VisitActs(h: Heap, root: Ref, i: nat, l0: seq<Slot>, nodes: set<Ref>, added: set<Ref>, l1: seq<Slot>,
                  l: seq<Slot>, l2: seq<Slot>)
    requires InHeap(h, Slot(root, i)) && root in nodes && root !in added && nodes !! added
    requires l0 <= l1 && l <= l2 && ActedUpTo(h, l1[|l0|..], nodes, root, i) && Acted(h, l2[|l|..], added)
    requires l == if MemberAt(h, Slot(root, i)).encrypted then l1 + [Slot(root, i)] else l1
    ensures l0 <= l2 && ActedUpTo(h, l2[|l0|..], nodes + added, root, i + 1)
  {
    ActedOne(h, l1[|l0|..], nodes, root, i);
    DropSplits(l1, [Slot(root, i)], |l0|);
    ActedMore(h, l[|l0|..], l2[|l|..], nodes, added, root, i + 1);
    DropTwice(l, l2, |l0|);
  }

  lemma VisitGoesOn(h: Heap, root: Ref, i: nat, v0: set<Ref>, l0: seq<Slot>, v1: set<Ref>, l1: seq<Slot>,
                    l: seq<Slot>, v2: set<Ref>, l2: seq<Slot>)
    requires Visiting(h, root, i, v0, l0, v1, l1) && i < |h.nodes[root].members|
    requires l == if MemberAt(h, Slot(root, i)).encrypted then l1 + [Slot(root, i)] else l1
    requires Walked(h, root, v1, l, v2, l2)
    requires !h.nodes[root].system ==> forall c :: Refers(h.nodes[root].members[i].value, c) ==> c in v2
    ensures Visiting(h, root, i + 1, v0, l0, v2, l2)
  {
    VisitActs(h, root, i, l0, v1 - v0, v2 - v1, l1, l, l2);
    assert (v1 - v0) + (v2 - v1) == v2 - v0;
  }

  lemma VisitEnds(h: Heap, root: Ref, v0: set<Ref>, l0: seq<Slot>, v1: set<Ref>, l1: seq<Slot>)
    requires root in h.nodes && Visiting(h, root, |h.nodes[root].members|, v0, l0, v1, l1)
    ensures Walked(h, root, v0, l0, v1, l1)
  {
    forall n, c | n in v1 - v0 && IsChild(h, n, c)
      ensures c in v1
    {
    }
  }

  /** The actions of a whole walk: every encrypted member reachable from the message, once. */
  ghost predicate WalkLog(h: Heap, message: Option<Ref>, log: seq<Slot>) {
    Distinct(log) &&
    forall s :: s in log <==> EncryptedSlot(h, s) && message.Some? && Reaches(h, message.value, s.node)
  }

  ghost predicate AllActable(config: Config, d: Direction, h: Heap, message: Option<Ref>)
    requires Closed(h)
  {
    forall s :: EncryptedSlot(h, s) && message.Some? && Reaches(h, message.value, s.node) ==> Actable(config, d, h, s)
  }

  /** An encrypted member of an object reachable from the message ends in that error. */
  ghost predicate RefusedIn(config: Config, d: Direction, h: Heap, message: Option<Ref>, error: Error)
    requires Closed(h)
  {
    message.Some? &&
    exists s :: EncryptedSlot(h, s) && Reaches(h, message.value, s.node) && Refused(config, d, h, s, error)
  }

  class EncryptionMessageMutator {
    const config: Config
    var heap: Heap
    var visited: set<Ref>
    var draws: nat
    ghost var log: seq<Slot>

    constructor (config: Config, heap: Heap)
      ensures this.config == config && this.heap == heap
      ensures visited == {} && draws == 0 && log == []
    {
      this.config, this.heap := config, heap;
      visited, draws, log := {}, 0, [];
    }

    /** The heap is what the actions so far made of `start`. */
    ghost predicate Walking(d: Direction, start: Heap)
      reads this
    {
      && Closed(start) && visited <= start.nodes.Keys
      && AllEncrypted(start, log) && (forall s :: s in log ==> s.node in visited)
      && draws == |log|
      && Replay(config, d, start, log) == Done(heap)
    }

    /** An encrypted member below `root`, not acted on yet, on which the next action throws. */
    ghost predicate FailsBelow(d: Direction, start: Heap, root: Ref, error: Error)
      reads this
      requires Walking(d, start)
    {
      exists s :: EncryptedSlot(start, s) && s !in log && Reaches(start, root, s.node) && FailsAt(d, start, s, error)
    }

    ghost predicate FailsAt(d: Direction, start: Heap, s: Slot, error: Error)
      reads this
      requires Walking(d, start) && EncryptedSlot(start, s)
    {
      InHeap(heap, s) && Act(config, d, heap, s, draws) == Thrown(error)
    }

    /** Encrypts every encrypted member of every object reachable from the message, each
        exactly once; it throws exactly when one of them cannot be encrypted. */
    method MutateOutgoing(message: Option<Ref>) returns (thrown: Option<Error>)
      requires Closed(heap) && visited == {} && draws == 0 && log == []
      requires message.Some? ==> message.value in heap.nodes
      modifies this
      ensures thrown.None? <==> AllActable(config, Encrypt, old(heap), message)
      ensures thrown.None? ==> forall n :: n in visited <==> message.Some? && Reaches(old(heap), message.value, n)
      ensures thrown.None? ==> WalkLog(old(heap), message, log) && Replay(config, Encrypt, old(heap), log) == Done(heap)
      ensures thrown.None? ==> WiresReady(config, old(heap), log, heap)
      ensures thrown.Some? ==> RefusedIn(config, Encrypt, old(heap), message, thrown.value)
    {
      ghost var start := heap;
      thrown := ForEachMember(Encrypt, message, start);
      WalkEnds(Encrypt, start, message, thrown);
      if thrown.None? {
        WiresMadeReady(config, start, log);
      }
    }

    method MutateIncoming(message: Option<Ref>) returns (thrown: Option<Error>)
      requires Closed(heap) && visited == {} && draws == 0 && log == []
      requires message.Some? ==> message.value in heap.nodes
      modifies this
      ensures thrown.None? <==> AllActable(config, Decrypt, old(heap), message)
      ensures thrown.None? ==> forall n :: n in visited <==> message.Some? && Reaches(old(heap), message.value, n)
      ensures thrown.None? ==> WalkLog(old(heap), message, log) && Replay(config, Decrypt, old(heap), log) == Done(heap)
      ensures thrown.Some? ==> RefusedIn(config, Decrypt, old(heap), message, thrown.value)
    {
      ghost var start := heap;
      thrown := ForEachMember(Decrypt, message, start);
      WalkEnds(Decrypt, start, message, thrown);
    }

    lemma WalkEnds(d: Direction, start: Heap, message: Option<Ref>, thrown: Option<Error>)
      requires Walking(d, start)
      requires thrown.None? && message.None? ==> visited == {} && log == []
      requires thrown.None? && message.Some? ==>
          message.value in visited && Walked(start, message.value, {}, [], visited, log)
      requires thrown.Some? ==> message.Some? && FailsBelow(d, start, message.value, thrown.value)
      ensures thrown.None? <==> AllActable(config, d, start, message)
      ensures thrown.None? ==> forall n :: n in visited <==> message.Some? && Reaches(start, message.value, n)
      ensures thrown.None? ==> WalkLog(start, message, log)
      ensures thrown.Some? ==> RefusedIn(config, d, start, message, thrown.value)
    {
      if thrown.Some? {
        WalkFails(d, start, message.value, thrown.value);
      } else if message.Some? {
        WalkCompletes(d, start, message.value);
      }
    }

    lemma WalkFails(d: Direction, start: Heap, root: Ref, error: Error)
      requires Walking(d, start) && FailsBelow(d, start, root, error)
      ensures !AllActable(config, d, start, Some(root))
      ensures RefusedIn(config, d, start, Some(root), error)
    {
      var s :| EncryptedSlot(start, s) && s !in log && Reaches(start, root, s.node) && FailsAt(d, start, s, error);
      ReplayFrame(config, d, start, log, s);
      ActableExactly(config, d, heap, s, draws);
      RefusedExactly(config, d, heap, s, draws, error);
      assert Refused(config, d, start, s, error);
    }

    lemma WalkCompletes(d: Direction, start: Heap, root: Ref)
      requires Walking(d, start) && root in visited && Walked(start, root, {}, [], visited, log)
      ensures AllActable(config, d, start, Some(root))
      ensures forall n :: n in visited <==> Reaches(start, root, n)
      ensures WalkLog(start, Some(root), log)
    {
      forall n | Reaches(start, root, n)
        ensures n in visited
      {
        var p :| Path(start, p, root, n);
        ClosedSetHoldsPath(start, visited, p, root, n);
      }
      assert log[0..] == log && visited - {} == visited;
      ReplayedActable(config, d, start, log);
    }

    /** The recursive walk: an object seen before is skipped. */
    method ForEachMember(d: Direction, root: Option<Ref>, ghost start: Heap) returns (thrown: Option<Error>)
      requires Walking(d, start)
      requires root.Some? ==> root.value in start.nodes
      modifies this`heap, this`visited, this`draws, this`log
      ensures Walking(d, start) && old(visited) <= visited && old(log) <= log
      ensures thrown.None? && root.None? ==> visited == old(visited) && log == old(log)
      ensures thrown.None? && root.Some? ==>
                root.value in visited && Walked(start, root.value, old(visited), old(log), visited, log)
      ensures thrown.Some? ==> root.Some? && FailsBelow(d, start, root.value, thrown.value)
      decreases start.nodes.Keys - visited, 0
    {
      if root.None? || root.value in visited {
        if root.Some? {
          WalkedNothing(start, root.value, visited, log);
        }
        return None;
      }
      var r := root.value;
      VisitStarts(start, r, visited, log);
      visited := visited + {r};
      ShapeKeepsCount(start, heap, r);
      var count := |heap.nodes[r].members|;
      var i := 0;
      while i < count
        invariant 0 <= i <= count == |start.nodes[r].members|
        invariant Walking(d, start)
        invariant Visiting(start, r, i, old(visited), old(log), visited, log)
      {
        thrown := VisitMember(d, r, i, start, old(visited), old(log));
        if thrown.Some? {
          return;
        }
        i := i + 1;
      }
      VisitEnds(start, r, old(visited), old(log), visited, log);
      return None;
    }

    /** One turn of the loop over the members of `r`: act, then walk on. */
    method VisitMember(d: Direction, r: Ref, i: nat, ghost start: Heap, ghost v0: set<Ref>, ghost l0: seq<Slot>)
      returns (thrown: Option<Error>)
      requires Walking(d, start) && InHeap(start, Slot(r, i))
      requires Visiting(start, r, i, v0, l0, visited, log) && forall s :: s in l0 ==> s.node in v0
      modifies this`heap, this`visited, this`draws, this`log
      ensures Walking(d, start) && old(visited) <= visited && old(log) <= log
      ensures thrown.None? ==> Visiting(start, r, i + 1, v0, l0, visited, log)
      ensures thrown.Some? ==> FailsBelow(d, start, r, thrown.value)
      decreases start.nodes.Keys - visited, 4
    {
      ghost var v1, l1 := visited, log;
      NotYetActed(start, r, i, v0, l0, v1, l1);
      thrown := ActOn(d, r, i, start);
      if thrown.Some? {
        FailsHere(d, start, Slot(r, i), thrown.value);
        return;
      }
      ghost var l := log;
      assert l1 <= l;
      thrown := Descend(d, r, i, start);
      if thrown.None? {
        VisitGoesOn(start, r, i, v0, l0, v1, l1, l, visited, log);
      }
    }

    /** Applies the action to one member if it is an encrypted one. */
    method ActOn(d: Direction, r: Ref, i: nat, ghost start: Heap) returns (thrown: Option<Error>)
      requires Walking(d, start) && r in visited && InHeap(start, Slot(r, i))
      modifies this`heap, this`draws, this`log
      ensures Walking(d, start)
      ensures thrown.None? ==>
                log == if MemberAt(start, Slot(r, i)).encrypted then old(log) + [Slot(r, i)] else old(log)
      ensures thrown.Some? ==>
                log == old(log) && EncryptedSlot(start, Slot(r, i)) && FailsAt(d, start, Slot(r, i), thrown.value)
    {
      var slot := Slot(r, i);
      ShapeKeepsSlot(start, heap, slot);
      ShapeKeepsEncrypted(start, heap, slot);
      if !MemberAt(heap, slot).encrypted {
        return None;
      }
      ReplayOneMore(config, d, start, log, slot);
      match Act(config, d, heap, slot, draws) {
        case Thrown(error) => return Some(error);
        case Done(changed) =>
          heap, draws, log := changed, draws + 1, log + [slot];
          return None;
      }
    }

    /** Walks on into what one member holds now, unless the object is of a system type. */
    method Descend(d: Direction, r: Ref, i: nat, ghost start: Heap) returns (thrown: Option<Error>)
      requires Walking(d, start) && r in visited && InHeap(start, Slot(r, i))
      modifies this`heap, this`visited, this`draws, this`log
      ensures Walking(d, start) && old(visited) <= visited && old(log) <= log
      ensures thrown.None? ==> Walked(start, r, old(visited), old(log), visited, log)
      ensures thrown.None? && !start.nodes[r].system ==>
                forall c :: Refers(ValueAt(start, Slot(r, i)), c) ==> c in visited
      ensures thrown.Some? ==> FailsBelow(d, start, r, thrown.value)
      decreases start.nodes.Keys - visited, 3
    {
      WalkedNothing(start, r, visited, log);
      ShapeKeepsCount(start, heap, r);
      ShapeKeepsSlot(start, heap, Slot(r, i));
      if heap.nodes[r].system {
        return None;
      }
      match ValueAt(heap, Slot(r, i)) {
        case Object(o) =>
          assert Refers(start.nodes[r].members[i].value, o);
          thrown := DescendInto(d, r, o, start);
        case Items(items) =>
          assert forall j :: 0 <= j < |items| && items[j].Some? ==>
              Refers(start.nodes[r].members[i].value, items[j].value);
          thrown := DescendItems(d, r, items, start);
        case _ => return None;
      }
    }

    method DescendInto(d: Direction, r: Ref, c: Ref, ghost start: Heap) returns (thrown: Option<Error>)
      requires Walking(d, start) && r in visited && c in start.nodes && IsChild(start, r, c)
      modifies this`heap, this`visited, this`draws, this`log
      ensures Walking(d, start) && old(visited) <= visited && old(log) <= log
      ensures thrown.None? ==> c in visited && Walked(start, r, old(visited), old(log), visited, log)
      ensures thrown.Some? ==> FailsBelow(d, start, r, thrown.value)
      decreases start.nodes.Keys - visited, 1
    {
      thrown := ForEachMember(d, Some(c), start);
      if thrown.Some? {
        FailsThroughChild(d, start, r, c, thrown.value);
      } else {
        WalkedBelowChild(start, r, c, old(visited), old(log), visited, log);
      }
    }

    method DescendItems(d: Direction, r: Ref, items: seq<Option<Ref>>, ghost start: Heap)
      returns (thrown: Option<Error>)
      requires Walking(d, start) && r in visited
      requires forall c :: Some(c) in items ==> c in start.nodes && IsChild(start, r, c)
      modifies this`heap, this`visited, this`draws, this`log
      ensures Walking(d, start) && old(visited) <= visited && old(log) <= log
      ensures thrown.None? ==> Walked(start, r, old(visited), old(log), visited, log)
      ensures thrown.None? ==> forall c :: Some(c) in items ==> c in visited
      ensures thrown.Some? ==> FailsBelow(d, start, r, thrown.value)
      decreases start.nodes.Keys - visited, 2
    {
      WalkedNothing(start, r, visited, log);
      for j := 0 to |items|
        invariant Walking(d, start)
        invariant Walked(start, r, old(visited), old(log), visited, log)
        invariant forall c :: Some(c) in items[..j] ==> c in visited
      {
        TakeOneMore(items, j);
        if items[j].Some? {
          assert Some(items[j].value) in items;
          ghost var v1, l1 := visited, log;
          thrown := DescendInto(d, r, items[j].value, start);
          if thrown.Some? {
            return;
          }
          WalkedTwice(start, r, old(visited), old(log), v1, l1, visited, log);
        }
      }
      assert items[..|items|] == items;
      return None;
    }

    lemma FailsHere(d: Direction, start: Heap, s: Slot, error: Error)
      requires Walking(d, start) && EncryptedSlot(start, s) && s !in log && FailsAt(d, start, s, error)
      ensures FailsBelow(d, start, s.node, error)
    {
      ReachesSelf(start, s.node);
    }

    lemma FailsThroughChild(d: Direction, start: Heap, r: Ref, c: Ref, error: Error)
      requires Walking(d, start) && IsChild(start, r, c) && FailsBelow(d, start, c, error)
      ensures FailsBelow(d, start, r, error)
    {
      var s :| EncryptedSlot(start, s) && s !in log && Reaches(start, c, s.node) && FailsAt(d, start, s, error);
      ReachesThrough(start, r, c, s.node);
    }
  }

  lemma TakeOneMore<T>(s: seq<T>, i: nat)
    requires i < |s|
    ensures s[..i + 1] == s[..i] + [s[i]]
  {
  }

  lemma ShapeKeepsCount(g: Heap, h: Heap, r: Ref)
    requires SameShape(g, h) && r in g.nodes
    ensures r in h.nodes && |h.nodes[r].members| == |g.nodes[r].members| && h.nodes[r].system == g.nodes[r].system
  {
    assert SameNode(g.nodes[r], h.nodes[r]);
  }
}
