/** Encrypting and decrypting the members of one object: WireEncryptedString, members
    chosen by convention, and the encryption service they go through. */
module Encryption {
  import opened Strings

  datatype EncryptedValue = EncryptedValue(base64: Option<string>, iv: Option<string>)

  /** A string with its encrypted form, the latter kept twice for 2.X receivers. */
  datatype WireEncryptedString = WireEncryptedString(
    value: Option<string>, stored: Option<EncryptedValue>, base64Copy: Option<string>, ivCopy: Option<string>)
  {
    /** The getter of the EncryptedValue property. */
    function Encrypted(): Option<EncryptedValue> {
      if stored.Some? then stored
      else if base64Copy.Some? then Some(EncryptedValue(base64Copy, ivCopy))
      else None
    }

    /** Its setter. */
    function WithEncrypted(e: Option<EncryptedValue>): WireEncryptedString {
      if e.Some? then this.(stored := e, base64Copy := e.value.base64, ivCopy := e.value.iv)
      else this.(stored := e)
    }
  }

  /** The encryption service; each encryption draws a fresh vector, numbered here by the
      call, so encrypting a string twice may give different results. */
  datatype Service = Service(encrypt: (Option<string>, nat) -> EncryptedValue,
                             decrypt: EncryptedValue -> Option<string>)

  ghost predicate Base64(s: Option<string>) {
    s.Some? && '@' !in s.value
  }

  /** Decryption inverts encryption of every string, and both parts are Base64 text, the
      alphabet of which (section 4 of RFC 4648) lacks '@'. */
  ghost predicate Sound(service: Service) {
    forall s: string, n: nat :: var e := service.encrypt(Some(s), n);
      Base64(e.base64) && Base64(e.iv) && service.decrypt(e) == Some(s)
  }

  /** An object of a message graph is named by a reference. */
  type Ref = nat

  /** What a member holds. Scalar is any other value without members of its own. An item
      of a collection is an object, or nothing if it is null or a leaf. */
  datatype Value = Null | Text(s: string) | Scalar | Wire(w: Ref) | Object(o: Ref) | Items(items: seq<Option<Ref>>)

  /** `encrypted` is what IsEncryptedMember says of the member. */
  datatype Member = Member(name: string, encrypted: bool, value: Value)

  /** `system` marks objects whose type is primitive or from a system assembly. */
  datatype Node = Node(system: bool, members: seq<Member>)

  datatype Heap = Heap(nodes: map<Ref, Node>, wires: map<Ref, WireEncryptedString>)

  ghost predicate Refers(v: Value, c: Ref) {
    (v.Object? && v.o == c) || (v.Items? && Some(c) in v.items)
  }

  ghost predicate Closed(h: Heap) {
    forall r, i :: r in h.nodes && 0 <= i < |h.nodes[r].members| ==>
      (forall c :: Refers(h.nodes[r].members[i].value, c) ==> c in h.nodes) &&
      (h.nodes[r].members[i].value.Wire? ==> h.nodes[r].members[i].value.w in h.wires)
  }

  /** A member of an object in the heap. */
  datatype Slot = Slot(node: Ref, index: nat)

  predicate InHeap(h: Heap, s: Slot) {
    s.node in h.nodes && s.index < |h.nodes[s.node].members|
  }

  function MemberAt(h: Heap, s: Slot): Member
    requires InHeap(h, s)
  {
    h.nodes[s.node].members[s.index]
  }

  function ValueAt(h: Heap, s: Slot): Value
    requires InHeap(h, s)
  {
    MemberAt(h, s).value
  }

  function Assign(h: Heap, s: Slot, v: Value): Heap
    requires InHeap(h, s)
  {
    var n := h.nodes[s.node];
    h.(nodes := h.nodes[s.node := n.(members := n.members[s.index := n.members[s.index].(value := v)])])
  }

  datatype Direction = Encrypt | Decrypt

  /** `compatible` is ConfigureEncryption.EnsureCompatibilityWithNSB2. */
  datatype Config = Config(service: Option<Service>, compatible: bool)

  datatype Error = NoEncryptionService | OnlyStringsSupported | MissingEncryptionData | MissingVector

  datatype Outcome = Done(heap: Heap) | Thrown(error: Error)

  function EncryptWire(config: Config, w: WireEncryptedString, n: nat): WireEncryptedString
    requires config.service.Some?
  {
    var r := w.WithEncrypted(Some(config.service.value.encrypt(w.value, n))).(value := None);
    if config.compatible then r else r.(base64Copy := None, ivCopy := None)
  }

  function Printed(e: EncryptedValue): string {
    (if e.base64.Some? then e.base64.value else "") + ['@'] + (if e.iv.Some? then e.iv.value else "")
  }

  function EncryptMember(config: Config, h: Heap, s: Slot, n: nat): Outcome
    requires InHeap(h, s) && Closed(h)
  {
    var v := ValueAt(h, s);
    if v.Null? then Done(h)
    else if config.service.None? then Thrown(NoEncryptionService)
    else match v
      case Wire(w) => Done(h.(wires := h.wires[w := EncryptWire(config, h.wires[w], n)]))
      case Text(t) => Done(Assign(h, s, Text(Printed(config.service.value.encrypt(Some(t), n)))))
      case _ => Thrown(OnlyStringsSupported)
  }

  function AsValue(s: Option<string>): Value {
    if s.Some? then Text(s.value) else Null
  }

  function DecryptMember(config: Config, h: Heap, s: Slot): Outcome
    requires InHeap(h, s) && Closed(h)
  {
    var v := ValueAt(h, s);
    if v.Null? then Done(h)
    else if config.service.None? then Thrown(NoEncryptionService)
    else match v
      case Wire(w) =>
        var e := h.wires[w].Encrypted();
        if e.None? then Thrown(MissingEncryptionData)
        else Done(h.(wires := h.wires[w := h.wires[w].(value := config.service.value.decrypt(e.value))]))
      case Text(t) =>
        var parts := Split(t, '@');
        if |parts| < 2 then Thrown(MissingVector)
        else Done(Assign(h, s, AsValue(config.service.value.decrypt(EncryptedValue(Some(parts[0]), Some(parts[1]))))))
      case _ => Thrown(OnlyStringsSupported)
  }

  /** The n-th action of a walk in the given direction. */
  function Act(config: Config, d: Direction, h: Heap, s: Slot, n: nat): Outcome
    requires InHeap(h, s) && Closed(h)
  {
    if d.Encrypt? then EncryptMember(config, h, s, n) else DecryptMember(config, h, s)
  }

  /** When acting on a member succeeds. */
  ghost predicate Actable(config: Config, d: Direction, h: Heap, s: Slot)
    requires InHeap(h, s) && Closed(h)
  {
    var v := ValueAt(h, s);
    v.Null? ||
    (config.service.Some? &&
     if d.Encrypt? then v.Wire? || v.Text?
     else (v.Wire? && h.wires[v.w].Encrypted().Some?) || (v.Text? && '@' in v.s))
  }

  lemma ActableExactly(config: Config, d: Direction, h: Heap, s: Slot, n: nat)
    requires InHeap(h, s) && Closed(h)
    ensures Act(config, d, h, s, n).Done? <==> Actable(config, d, h, s)
  {
    var v := ValueAt(h, s);
    if v.Text? {
      SplitParts(v.s, '@');
    }
  }

  /** Which error acting on a member ends in. */
  ghost predicate Refused(config: Config, d: Direction, h: Heap, s: Slot, error: Error)
    requires InHeap(h, s) && Closed(h)
  {
    var v := ValueAt(h, s);
    match error
    case NoEncryptionService => !v.Null? && config.service.None?
    case OnlyStringsSupported => config.service.Some? && (v.Scalar? || v.Object? || v.Items?)
    case MissingEncryptionData =>
      d.Decrypt? && config.service.Some? && v.Wire? && h.wires[v.w].stored.None? && h.wires[v.w].base64Copy.None?
    case MissingVector => d.Decrypt? && config.service.Some? && v.Text? && '@' !in v.s
  }

  lemma RefusedExactly(config: Config, d: Direction, h: Heap, s: Slot, n: nat, error: Error)
    requires InHeap(h, s) && Closed(h)
    ensures Act(config, d, h, s, n) == Thrown(error) <==> Refused(config, d, h, s, error)
  {
    var v := ValueAt(h, s);
    if v.Text? {
      SplitParts(v.s, '@');
    }
  }

  // ---- The copies for 2.X ----

  /** It is encrypted, its text is gone, and the 2.X copies are those of the encrypted form if
      compatibility is asked for; otherwise there are none. */
  ghost predicate ReadyToSend(w: WireEncryptedString, compatible: bool) {
    && w.value.None? && w.stored.Some?
    && (compatible ==> w.base64Copy == w.stored.value.base64 && w.ivCopy == w.stored.value.iv)
    && (!compatible ==> w.base64Copy.None? && w.ivCopy.None?)
  }

  /** Setting the encrypted form and getting it gives it back, except that null does not hide the
      copies of an earlier one. */
  lemma SetThenGet(w: WireEncryptedString, e: Option<EncryptedValue>)
    ensures w.WithEncrypted(e).Encrypted() == e <==> e.Some? || w.base64Copy.None?
    ensures w.WithEncrypted(e).value == w.value
  {
  }

  /** What a 2.X receiver is sent, the copies alone, holds the encrypted form exactly when
      compatibility is asked for. */
  lemma CopiesAlone(w: WireEncryptedString, compatible: bool)
    requires ReadyToSend(w, compatible) && w.stored.value.base64.Some?
    ensures w.(stored := None).Encrypted() == w.stored <==> compatible
    ensures !compatible ==> w.(stored := None).Encrypted().None?
  {
  }

  /** Same objects and same links: only the strings of encrypted members and the fields
      of WireEncryptedStrings may differ. */
  ghost predicate SameShape(g: Heap, h: Heap) {
    && g.nodes.Keys == h.nodes.Keys && g.wires.Keys == h.wires.Keys
    && forall r :: r in g.nodes ==> SameNode(g.nodes[r], h.nodes[r])
  }

  ghost predicate SameNode(m: Node, n: Node) {
    && m.system == n.system && |m.members| == |n.members|
    && forall i :: 0 <= i < |m.members| ==> SameMember(m.members[i], n.members[i])
  }

  ghost predicate SameMember(m: Member, n: Member) {
    && m.name == n.name && m.encrypted == n.encrypted
    && (m.value == n.value || (m.encrypted && m.value.Text? && (n.value.Text? || n.value.Null?)))
  }
}
