/** The types a published message counts as, on the publisher's side and as read back from
    its header by the proxy. */
module EnclosedTypes {
  import opened Sequences
  import opened Strings

  type Type = nat

  /** Reflection: interfaces (inherited ones included), which types are message types, and
      the parts of an assembly-qualified name. */
  datatype World = World(interfaces: Type -> seq<Type>, isMessage: Type -> bool, named: Type -> TypeInfo)

  datatype TypeInfo = TypeInfo(fullName: string, assembly: string, version: Version, rest: string)

  datatype Version = Version(major: nat, minor: nat, build: nat, revision: nat)

  ghost predicate TransitivelyClosed(world: World) {
    forall t, i :: i in world.interfaces(t) ==> forall j :: j in world.interfaces(i) ==> j in world.interfaces(t)
  }

  /** A type a message counts as: the type of one of the enclosed messages, or a message
      type among the interfaces of one. */
  ghost predicate Counts(world: World, messages: seq<Type>, t: Type) {
    t in messages || (world.isMessage(t) && exists m :: m in messages && t in world.interfaces(m))
  }

  // ---- The publisher ----

  /** A message type seen before is skipped together with its interfaces. */
  method GetFullTypes(world: World, messages: seq<Type>) returns (types: seq<Type>)
    requires TransitivelyClosed(world)
    ensures Distinct(types) && forall t :: t in types <==> Counts(world, messages, t)
    ensures forall m :: m in messages ==> m in types
    ensures forall m, i :: m in messages && i in world.interfaces(m) && world.isMessage(i) ==> i in types
    ensures forall t :: t in types && t !in messages ==>
              world.isMessage(t) && exists m :: m in messages && t in world.interfaces(m)
  {
    types := [];
    for k := 0 to |messages|
      invariant Distinct(types)
      invariant forall t :: t in types <==> Counts(world, messages[..k], t)
    {
      var s := messages[k];
      OneMoreMessage(world, messages, k);
      if s !in types {
        types := types + [s];
        ghost var before := types;
        var interfaces := world.interfaces(s);
        for i := 0 to |interfaces|
          invariant Distinct(types)
          invariant forall t :: t in types <==> t in before || (t in interfaces[..i] && world.isMessage(t))
        {
          if world.isMessage(interfaces[i]) && interfaces[i] !in types {
            types := types + [interfaces[i]];
          }
        }
        assert interfaces[..|interfaces|] == interfaces;
      }
    }
    assert messages[..|messages|] == messages;
  }

  lemma OneMoreMessage(world: World, messages: seq<Type>, k: nat)
    requires TransitivelyClosed(world) && k < |messages|
    ensures forall t :: Counts(world, messages[..k + 1], t) <==>
              Counts(world, messages[..k], t) || t == messages[k] ||
                  (world.isMessage(t) && t in world.interfaces(messages[k]))
    ensures Counts(world, messages[..k], messages[k]) ==>
              forall t :: world.isMessage(t) && t in world.interfaces(messages[k]) ==> Counts(world, messages[..k], t)
  {
    var before, last := messages[..k], messages[k];
    assert messages[..k + 1] == before + [last];
    forall t
      ensures Counts(world, before + [last], t) <==>
                Counts(world, before, t) || t == last || (world.isMessage(t) && t in world.interfaces(last))
    {
      if world.isMessage(t) && t in world.interfaces(last) {
        assert last in before + [last];
      }
      if m :| m in before && t in world.interfaces(m) {
        assert m in before + [last];
      }
    }
  }

  // ---- The header ----

  function Concat(world: World, messages: seq<Type>): seq<Type> {
    if messages == [] then []
    else Concat(world, messages[..|messages| - 1]) + world.interfaces(messages[|messages| - 1])
  }

  function Filter(world: World, ts: seq<Type>): seq<Type> {
    if ts == [] then []
    else Filter(world, ts[..|ts| - 1]) + if world.isMessage(ts[|ts| - 1]) then [ts[|ts| - 1]] else []
  }

  function Unique(ts: seq<Type>): seq<Type> {
    if ts == [] then []
    else
      var front, last := Unique(ts[..|ts| - 1]), ts[|ts| - 1];
      if last in front then front else front + [last]
  }

  /** The types the header lists. */
  function Enclosed(world: World, messages: seq<Type>): seq<Type> {
    Unique(messages + Filter(world, Concat(world, messages)))
  }

  lemma {:induction false} ConcatHolds(world: World, messages: seq<Type>)
    ensures forall t :: t in Concat(world, messages) <==> exists m :: m in messages && t in world.interfaces(m)
  {
    if messages != [] {
      var front, last := messages[..|messages| - 1], messages[|messages| - 1];
      ConcatHolds(world, front);
      assert forall m :: m in messages <==> m in front || m == last by {
        assert messages == front + [last];
      }
    }
  }

  lemma {:induction false} FilterHolds(world: World, ts: seq<Type>)
    ensures forall t :: t in Filter(world, ts) <==> t in ts && world.isMessage(t)
  {
    if ts != [] {
      FilterHolds(world, ts[..|ts| - 1]);
      assert ts == ts[..|ts| - 1] + [ts[|ts| - 1]];
    }
  }

  lemma {:induction false} UniqueHolds(ts: seq<Type>)
    ensures Distinct(Unique(ts)) && forall t :: t in Unique(ts) <==> t in ts
  {
    if ts != [] {
      UniqueHolds(ts[..|ts| - 1]);
      assert ts == ts[..|ts| - 1] + [ts[|ts| - 1]];
    }
  }

  /** The header lists exactly the types the publisher uses, each once. */
  lemma EnclosedHolds(world: World, messages: seq<Type>)
    ensures Distinct(Enclosed(world, messages))
    ensures forall t :: t in Enclosed(world, messages) <==> Counts(world, messages, t)
  {
    ConcatHolds(world, messages);
    FilterHolds(world, Concat(world, messages));
    UniqueHolds(messages + Filter(world, Concat(world, messages)));
  }

  // ---- Numbers and versions as text ----

  function Digit(d: nat): char
    requires d < 10
  {
    ('0' as int + d) as char
  }

  function Digits(n: nat): string {
    if n < 10 then [Digit(n)] else Digits(n / 10) + [Digit(n % 10)]
  }

  predicate IsDigit(c: char) { '0' <= c <= '9' }

  function ParseNat(s: string): Option<nat> {
    if s == [] || !IsDigit(s[|s| - 1]) then None
    else
      var d := s[|s| - 1] as int - '0' as int;
      if |s| == 1 then Some(d)
      else
        var front := ParseNat(s[..|s| - 1]);
        if front.None? then None else Some(front.value * 10 + d)
  }

  lemma {:induction false} DigitsParse(n: nat)
    ensures Digits(n) != [] && ParseNat(Digits(n)) == Some(n)
    ensures forall c :: c in Digits(n) ==> IsDigit(c)
  {
    if n >= 10 {
      DigitsParse(n / 10);
      assert Digits(n)[..|Digits(n)| - 1] == Digits(n / 10);
    }
  }

  function PrintVersion(v: Version): string {
    Join([Digits(v.major), Digits(v.minor), Digits(v.build), Digits(v.revision)], '.')
  }

  /** Version.Parse for four components. */
  function ParseVersionNumber(s: string): Option<Version> {
    var parts := Split(s, '.');
    if |parts| != 4 then None
    else
      var a, b, c, d := ParseNat(parts[0]), ParseNat(parts[1]), ParseNat(parts[2]), ParseNat(parts[3]);
      if a.None? || b.None? || c.None? || d.None? then None
      else Some(Version(a.value, b.value, c.value, d.value))
  }

  lemma VersionParses(v: Version)
    ensures ParseVersionNumber(PrintVersion(v)) == Some(v)
    ensures ',' !in PrintVersion(v)
  {
    DigitsParse(v.major);
    DigitsParse(v.minor);
    DigitsParse(v.build);
    DigitsParse(v.revision);
    SplitJoinClean([Digits(v.major), Digits(v.minor), Digits(v.build), Digits(v.revision)], '.');
    JoinHas([Digits(v.major), Digits(v.minor), Digits(v.build), Digits(v.revision)], '.', ',');
  }

  lemma {:induction false} JoinHas(parts: seq<string>, c: char, d: char)
    requires d != c && forall p :: p in parts ==> d !in p
    ensures d !in Join(parts, c)
  {
    if |parts| > 1 {
      JoinHas(parts[1..], c, d);
    }
  }

  // ---- Message types ----

  datatype MessageType = MessageType(typeName: string, version: Version)

  /** The constructor from a type. */
  function FromType(info: TypeInfo): MessageType {
    MessageType(info.fullName, info.version)
  }

  const VERSION := "Version="

  /** Type.AssemblyQualifiedName. */
  function QualifiedName(info: TypeInfo): string {
    info.fullName + ", " + info.assembly + ", " + VERSION + PrintVersion(info.version) + ", " + info.rest
  }

  function VersionPart(s: string): string {
    var index := IndexOf(s, VERSION);
    if index >= 0 && index + |VERSION| <= |s| then Split(s[index + |VERSION|..], ',')[0] else s
  }

  /** The constructor from a string: the name up to the first comma, and the version that
      follows the first "Version=". */
  function FromString(s: string): Option<MessageType> {
    var version := ParseVersionNumber(VersionPart(s));
    if version.None? then None else Some(MessageType(Split(s, ',')[0], version.value))
  }

  /** Equality of message types looks at the name and the major version only. */
  predicate SameMessageType(a: MessageType, b: MessageType) {
    a.typeName == b.typeName && a.version.major == b.version.major
  }

  lemma FirstPart(s: string, c: char, rest: string)
    ensures Split(s + [c] + rest, c)[0] == s <==> c !in s
  {
    SplitParts(s + [c] + rest, c);
    assert Split(s + [c] + rest, c)[0] in Split(s + [c] + rest, c);
    if c !in s {
      SplitAtFirst(s, c, rest);
    }
  }

  lemma {:induction false} FirstPartOf(s: string, c: char, more: string)
    requires more == [] || more[0] == c
    ensures Split(s + more, c)[0] == Split(s, c)[0]
  {
    if s == [] {
      assert s + more == more;
    } else {
      assert (s + more)[1..] == s[1..] + more;
      FirstPartOf(s[1..], c, more);
    }
  }

  /** A string in the form of a type name, a version and possibly more. */
  function Versioned(head: string, v: Version, more: string): string {
    head + (", " + VERSION + (PrintVersion(v) + more))
  }

  /** Before `behind`, "Version=" occurs where it occurs in `head` and where it was put. */
  lemma VersionOccurs(head: string, behind: string, i: nat)
    requires i <= |head| + 2
    ensures OccursAt(head + (", " + VERSION + behind), VERSION, i) <==> OccursAt(head, VERSION, i) || i == |head| + 2
  {
    var more := ", " + VERSION + behind;
    if i + |VERSION| <= |head| {
      OccursInFirst(head, more, VERSION, i);
    } else {
      OccursMeans(head + more, VERSION, i);
      OccursMeans(head, VERSION, i);
      if i == |head| + 2 {
        assert forall j :: i <= j < i + |VERSION| ==> (head + more)[j] == more[j - |head|];
      } else {
        var j := if i <= |head| then |head| else i;
        assert (head + more)[j] == more[j - |head|];
        assert forall k :: 0 <= k < |VERSION| ==> VERSION[k] != ',' && VERSION[k] != ' ';
      }
    }
  }

  lemma VersionFound(head: string, behind: string)
    ensures IndexOf(head + (", " + VERSION + behind), VERSION)
         == if IndexOf(head, VERSION) == -1 then |head| + 2 else IndexOf(head, VERSION)
  {
    var found := if IndexOf(head, VERSION) == -1 then |head| + 2 else IndexOf(head, VERSION);
    IndexOfHolds(head, VERSION);
    assert found <= |head| + 2 && forall i :: 0 <= i < found ==> !OccursAt(head, VERSION, i);
    forall i | 0 <= i < found
      ensures !OccursAt(head + (", " + VERSION + behind), VERSION, i)
    {
      VersionOccurs(head, behind, i);
    }
    VersionOccurs(head, behind, found);
    IndexOfIs(head + (", " + VERSION + behind), VERSION, found);
  }

  /** A "Version=" in `head` is taken for the version; it misleads if something else follows. */
  predicate Misleading(head: string, v: Version) {
    IndexOf(head, VERSION) >= 0 && ParseVersionNumber(VersionPart(head)) != Some(v)
  }

  lemma VersionText(head: string, v: Version, more: string)
    requires more == [] || more[0] == ','
    ensures ParseVersionNumber(VersionPart(Versioned(head, v, more))) == Some(v) <==> !Misleading(head, v)
  {
    if IndexOf(head, VERSION) == -1 {
      VersionParses(v);
      OwnVersionPart(head, PrintVersion(v), more);
    } else {
      IndexOfHolds(head, VERSION);
      OtherVersionPart(head, PrintVersion(v) + more);
    }
  }

  lemma OwnVersionPart(head: string, text: string, more: string)
    requires IndexOf(head, VERSION) == -1 && ',' !in text && (more == [] || more[0] == ',')
    ensures VersionPart(head + (", " + VERSION + (text + more))) == text
  {
    var s := head + (", " + VERSION + (text + more));
    VersionFound(head, text + more);
    assert s[|head| + 2 + |VERSION|..] == text + more;
    SplitWithout(text, ',');
    FirstPartOf(text, ',', more);
  }

  lemma VersionPartAt(s: string, index: nat)
    requires IndexOf(s, VERSION) == index && index + |VERSION| <= |s|
    ensures VersionPart(s) == Split(s[index + |VERSION|..], ',')[0]
  {
  }

  lemma OtherVersionPart(head: string, behind: string)
    requires IndexOf(head, VERSION) != -1
    ensures VersionPart(head + (", " + VERSION + behind)) == VersionPart(head)
  {
    var more := ", " + VERSION + behind;
    var index := IndexOf(head, VERSION);
    assert 0 <= index && index + |VERSION| <= |head| by {
      IndexOfHolds(head, VERSION);
      OccursMeans(head, VERSION, index);
    }
    var at := index + |VERSION|;
    assert VersionPart(head + more) == Split(head[at..] + more, ',')[0] by {
      VersionFound(head, behind);
      VersionPartAt(head + more, index);
      DropSplits(head, more, at);
    }
    VersionPartAt(head, index);
    FirstPartOf(head[at..], ',', more);
  }

  lemma ReadAs(s: string, m: MessageType)
    ensures FromString(s) == Some(m) <==>
            Split(s, ',')[0] == m.typeName && ParseVersionNumber(VersionPart(s)) == Some(m.version)
  {
  }

  /** A type's assembly-qualified name gives back its message type exactly when the type's
      name has no comma, which generic types do, and no other "Version=" misleads. */
  lemma QualifiedNameParsesExactly(info: TypeInfo)
    ensures FromString(QualifiedName(info)) == Some(FromType(info)) <==>
            ',' !in info.fullName && !Misleading(info.fullName + ", " + info.assembly, info.version)
  {
    var s := QualifiedName(info);
    ReadAs(s, FromType(info));
    assert ParseVersionNumber(VersionPart(s)) == Some(info.version) <==>
           !Misleading(info.fullName + ", " + info.assembly, info.version) by {
      QualifiedIsVersioned(info);
      VersionText(info.fullName + ", " + info.assembly, info.version, ", " + info.rest);
    }
    NameThenComma(info);
  }

  lemma QualifiedIsVersioned(info: TypeInfo)
    ensures QualifiedName(info) == Versioned(info.fullName + ", " + info.assembly, info.version, ", " + info.rest)
  {
  }

  lemma NameThenComma(info: TypeInfo)
    ensures Split(QualifiedName(info), ',')[0] == info.fullName <==> ',' !in info.fullName
  {
    var behind := " " + info.assembly + ", " + VERSION + PrintVersion(info.version) + ", " + info.rest;
    assert QualifiedName(info) == info.fullName + [','] + behind;
    FirstPart(info.fullName, ',', behind);
  }

  /** MessageType.ToString. */
  function PrintType(m: MessageType): string {
    m.typeName + ", Version=" + PrintVersion(m.version)
  }

  /** The printed form gives a message type back under the same condition. */
  lemma PrintedTypeParsesExactly(m: MessageType)
    ensures FromString(PrintType(m)) == Some(m) <==> ',' !in m.typeName && !Misleading(m.typeName, m.version)
  {
    ReadAs(PrintType(m), m);
    PrintedIsVersioned(m);
    VersionText(m.typeName, m.version, []);
    PrintedNameThenComma(m);
  }

  lemma PrintedIsVersioned(m: MessageType)
    ensures PrintType(m) == Versioned(m.typeName, m.version, [])
  {
  }

  lemma PrintedNameThenComma(m: MessageType)
    ensures Split(PrintType(m), ',')[0] == m.typeName <==> ',' !in m.typeName
  {
    var behind := " Version=" + PrintVersion(m.version);
    assert PrintType(m) == m.typeName + [','] + behind;
    FirstPart(m.typeName, ',', behind);
  }

  // ---- Publisher and proxy agree ----

  function Names(world: World, ts: seq<Type>): seq<string> {
    seq(|ts|, i requires 0 <= i < |ts| => QualifiedName(world.named(ts[i])))
  }

  function Header(world: World, messages: seq<Type>): string {
    Join(Names(world, Enclosed(world, messages)), ';')
  }

  /** A non-generic type whose names hold no separator and no misleading version. */
  ghost predicate PlainName(info: TypeInfo) {
    && ',' !in info.fullName && ';' !in QualifiedName(info)
    && !Misleading(info.fullName + ", " + info.assembly, info.version)
  }

  /** Each part of the header stands for the listed type at its place. */
  ghost predicate ReadsBack(world: World, ts: seq<Type>, parts: seq<string>) {
    |parts| == |ts| && forall i :: 0 <= i < |ts| ==> FromString(parts[i]) == Some(FromType(world.named(ts[i])))
  }

  lemma {:induction false} PartsOfJoined(parts: seq<string>, c: char)
    requires parts != []
    ensures |Split(Join(parts, c), c)| >= |parts|
    ensures |Split(Join(parts, c), c)| == |parts| ==> forall part :: part in parts ==> c !in part
  {
    SplitParts(parts[0], c);
    if |parts| > 1 {
      PartsOfJoined(parts[1..], c);
      PartsAdd(parts[0], c, Join(parts[1..], c));
    }
  }

  lemma {:induction false} PartsAdd(a: string, c: char, b: string)
    ensures |Split(a + [c] + b, c)| == |Split(a, c)| + |Split(b, c)|
  {
    if a == [] {
      assert (a + [c] + b)[1..] == b;
    } else {
      assert (a + [c] + b)[1..] == a[1..] + [c] + b;
      PartsAdd(a[1..], c, b);
    }
  }

  lemma NamesRead(world: World, ts: seq<Type>)
    requires ts != []
    ensures ReadsBack(world, ts, Names(world, ts)) && (forall name :: name in Names(world, ts) ==> ';' !in name) <==>
            forall t :: t in ts ==> PlainName(world.named(t))
  {
    var names := Names(world, ts);
    forall i | 0 <= i < |ts|
      ensures FromString(names[i]) == Some(FromType(world.named(ts[i]))) && ';' !in names[i] <==>
                PlainName(world.named(ts[i]))
    {
      QualifiedNameParsesExactly(world.named(ts[i]));
    }
    assert forall i :: 0 <= i < |ts| ==> names[i] in names && ts[i] in ts;
  }

  /** Splitting the header and parsing each part gives, in order, the message types of the
      types the publisher uses, exactly when all of them have plain names. */
  lemma ProxySeesPublishersTypes(world: World, messages: seq<Type>)
    requires messages != []
    ensures ReadsBack(world, Enclosed(world, messages), Split(Header(world, messages), ';')) <==>
            forall t :: Counts(world, messages, t) ==> PlainName(world.named(t))
  {
    var ts := Enclosed(world, messages);
    EnclosedHolds(world, messages);
    assert Counts(world, messages, messages[0]);
    NamesRead(world, ts);
    HeaderSplits(Names(world, ts), ';');
  }

  lemma HeaderSplits(names: seq<string>, c: char)
    requires names != []
    ensures (forall name :: name in names ==> c !in name) <==> Split(Join(names, c), c) == names
    ensures |Split(Join(names, c), c)| == |names| ==> Split(Join(names, c), c) == names
  {
    PartsOfJoined(names, c);
    SplitJoin(names, c);
  }

  // ---- The forms as they are written ----

  lemma {:induction false} DigitsInBaseTen(n: nat)
    ensures n < 10 ==> Digits(n) == ["0123456789"[n]]
    ensures n >= 10 ==> Digits(n) == Digits(n / 10) + ["0123456789"[n % 10]]
  {
    assert forall d: nat :: d < 10 ==> "0123456789"[d] as int == '0' as int + d;
  }

  lemma NamesWritten(info: TypeInfo)
    ensures QualifiedName(info)
         == info.fullName + ", " + info.assembly + ", " + "Version=" + PrintVersion(info.version) + ", " + info.rest
    ensures FromType(info).typeName == info.fullName && FromType(info).version == info.version
    ensures PrintVersion(info.version)
         == Digits(info.version.major) + "." + (Digits(info.version.minor) + "." +
            (Digits(info.version.build) + "." + Digits(info.version.revision)))
  {
    var v := info.version;
    FourJoined(Digits(v.major), Digits(v.minor), Digits(v.build), Digits(v.revision));
  }

  lemma FourJoined(a: string, b: string, c: string, d: string)
    ensures Join([a, b, c, d], '.') == a + "." + (b + "." + (c + "." + d))
  {
    assert [a, b, c, d][1..] == [b, c, d] && [b, c, d][1..] == [c, d] && [c, d][1..] == [d];
    assert Join([d], '.') == d;
    assert Join([c, d], '.') == c + "." + d;
    assert Join([b, c, d], '.') == b + "." + (c + "." + d);
  }
}
