/** Addresses and their text forms: queue@machine and the MSMQ format name. */
module Addresses {
  import opened Strings

  datatype Mode = Local | Remote

  /** The static settings of the Address class. */
  datatype Settings = Settings(mode: Mode, defaultMachine: string)

  datatype Address = Address(queue: string, machine: string)

  const LOOPBACK := "127.0.0.1"

  function LowerChar(c: char): char {
    if 'A' <= c <= 'Z' then (c as int + 32) as char else c
  }

  function Lower(s: string): string {
    seq(|s|, i requires 0 <= i < |s| => LowerChar(s[i]))
  }

  function MachineName(settings: Settings, machine: string): string {
    if settings.mode.Local? then Lower(machine) else machine
  }

  /** The constructor. */
  function Make(settings: Settings, queue: string, machine: string): Address {
    Address(Lower(queue), MachineName(settings, machine))
  }

  predicate IsLocalAlias(machine: string) {
    machine == "." || Lower(machine) == "localhost" || machine == LOOPBACK
  }

  /** Address.Parse; it throws on the empty string only. */
  function Parse(settings: Settings, destination: string): Option<Address> {
    if destination == "" then None
    else
      var parts := Split(destination, '@');
      var machine := if |parts| == 2 && !IsLocalAlias(parts[1]) then parts[1] else settings.defaultMachine;
      Some(Make(settings, parts[0], machine))
  }

  function Print(a: Address): string {
    a.queue + ['@'] + a.machine
  }

  lemma LowerTwice(s: string)
    ensures Lower(Lower(s)) == Lower(s)
  {
  }

  lemma LowerKeeps(s: string, c: char)
    requires LowerChar(c) == c && !('a' <= c <= 'z')
    ensures c in Lower(s) <==> c in s
  {
    if c in s {
      var i :| 0 <= i < |s| && s[i] == c;
      assert Lower(s)[i] == c;
    }
    if c in Lower(s) {
      var i :| 0 <= i < |s| && Lower(s)[i] == c;
      assert s[i] == c;
    }
  }

  lemma ParsePrint(settings: Settings, a: Address)
    requires '@' !in a.queue
    ensures Parse(settings, Print(a)) ==
            Some(Make(settings, a.queue,
                      if IsLocalAlias(a.machine) || '@' in a.machine then settings.defaultMachine else a.machine))
  {
    SplitAtFirst(a.queue, '@', a.machine);
    SplitParts(a.machine, '@');
    if '@' !in a.machine {
      SplitWithout(a.machine, '@');
    }
  }

  /** Printing and parsing again returns every address that was itself parsed. */
  lemma ParsedRoundTrip(settings: Settings, destination: string)
    requires destination != ""
    ensures var a := Parse(settings, destination); a.Some? && Parse(settings, Print(a.value)) == a
  {
    var a := Parse(settings, destination).value;
    var parts := Split(destination, '@');
    SplitParts(destination, '@');
    assert parts[0] in parts;
    LowerKeeps(parts[0], '@');
    LowerTwice(parts[0]);
    ParsePrint(settings, a);
    LowerTwice(settings.defaultMachine);
    if |parts| == 2 && !IsLocalAlias(parts[1]) {
      assert parts[1] in parts;
      LowerKeeps(parts[1], '@');
      LowerTwice(parts[1]);
      LowerOfAlias(parts[1]);
    }
  }

  lemma LowerOfAlias(machine: string)
    ensures IsLocalAlias(Lower(machine)) <==> IsLocalAlias(machine)
  {
    LowerTwice(machine);
    LowerIs(machine, ".");
    LowerIs(machine, LOOPBACK);
  }

  lemma LowerIs(s: string, t: string)
    requires forall i :: 0 <= i < |t| ==> !('a' <= t[i] <= 'z') && !('A' <= t[i] <= 'Z')
    ensures Lower(s) == t <==> s == t
  {
    if Lower(s) == t {
      forall i | 0 <= i < |s|
        ensures s[i] == t[i]
      {
        assert Lower(s)[i] == t[i];
      }
    }
    if s == t {
      forall i | 0 <= i < |s|
        ensures Lower(s)[i] == t[i]
      {
      }
    }
  }

  /** Any address at all survives printing and parsing exactly when its queue is in lower
      case without '@' and its machine is in the form of the address mode, and, if it is a
      name for the local machine or contains '@', is the default machine. */
  lemma PrintedRoundTripExactly(settings: Settings, a: Address)
    ensures Parse(settings, Print(a)) == Some(a) <==>
            '@' !in a.queue && Lower(a.queue) == a.queue &&
            a.machine == MachineName(settings,
                                     if IsLocalAlias(a.machine) || '@' in a.machine
                                     then settings.defaultMachine else a.machine)
  {
    if '@' in a.queue {
      var parts := Split(Print(a), '@');
      SplitParts(Print(a), '@');
      assert parts[0] in parts;
      LowerKeeps(parts[0], '@');
    } else {
      ParsePrint(settings, a);
    }
  }

  // ---- MSMQ paths ----

  const DIRECT_OS := "DIRECT=OS:"
  const DIRECT_TCP := "DIRECT=TCP:"
  const PRIVATE := ['\\'] + "private$" + ['\\']

  /** The format name of the queue at GetFullPath(a): the path without "FormatName:". */
  function FormatName(isIp: string -> bool, a: Address): string {
    (if isIp(a.machine) then DIRECT_TCP else DIRECT_OS) + a.machine + PRIVATE + a.queue
  }

  /** GetIndependentAddressForQueue for a direct format name. */
  function IndependentAddress(settings: Settings, formatName: string): Option<Address> {
    var parts := Split(formatName, '\\');
    var queue, host := parts[|parts| - 1], parts[0];
    var os, tcp := IndexOf(host, DIRECT_OS), IndexOf(host, DIRECT_TCP);
    if os >= 0 && os + |DIRECT_OS| <= |host| then Some(Make(settings, queue, host[os + |DIRECT_OS|..]))
    else if tcp >= 0 && tcp + |DIRECT_TCP| <= |host| then Some(Make(settings, queue, host[tcp + |DIRECT_TCP|..]))
    else None
  }

  /** What an IP address cannot contain. */
  ghost predicate PlainIps(isIp: string -> bool) {
    forall m :: isIp(m) ==> IndexOf(m, DIRECT_OS) == -1
  }

  lemma TcpHostHasNoOsPrefix(machine: string)
    requires IndexOf(machine, DIRECT_OS) == -1
    ensures IndexOf(DIRECT_TCP + machine, DIRECT_OS) == -1
  {
    var s := DIRECT_TCP + machine;
    IndexOfHolds(s, DIRECT_OS);
    IndexOfHolds(machine, DIRECT_OS);
    forall i
      ensures !OccursAt(s, DIRECT_OS, i)
    {
      OccursMeans(s, DIRECT_OS, i);
      if i >= |DIRECT_TCP| {
        OccursInSecond(DIRECT_TCP, machine, DIRECT_OS, i);
      } else if 0 <= i && i + 7 < |s| {
        assert s[i] == DIRECT_TCP[i] && s[7] == DIRECT_TCP[7];
      }
    }
  }

  lemma SplitFormatName(host: string, queue: string)
    requires '\\' !in host
    ensures Split(host + PRIVATE + queue, '\\') == [host, "private$"] + Split(queue, '\\')
  {
    SplitTwice(host, "private$", queue, '\\');
    assert host + PRIVATE + queue == host + ['\\'] + ("private$" + ['\\'] + queue);
  }

  lemma SplitTwice(a: string, b: string, rest: string, c: char)
    requires c !in a && c !in b
    ensures Split(a + [c] + (b + [c] + rest), c) == [a, b] + Split(rest, c)
  {
    SplitAtFirst(a, c, b + [c] + rest);
    SplitAtFirst(b, c, rest);
  }

  lemma LastPart(queue: string)
    ensures var parts := Split(queue, '\\');
            '\\' !in parts[|parts| - 1] && ('\\' !in queue ==> parts[|parts| - 1] == queue)
  {
    var parts := Split(queue, '\\');
    SplitParts(queue, '\\');
    assert parts[|parts| - 1] in parts;
    if '\\' !in queue {
      SplitWithout(queue, '\\');
    }
  }

  lemma HostRecovered(settings: Settings, isIp: string -> bool, a: Address)
    requires PlainIps(isIp) && '\\' !in a.machine
    ensures var parts := Split(a.queue, '\\');
            IndependentAddress(settings, FormatName(isIp, a)) == Some(Make(settings, parts[|parts| - 1], a.machine))
  {
    var prefix := if isIp(a.machine) then DIRECT_TCP else DIRECT_OS;
    var host := prefix + a.machine;
    SplitFormatName(host, a.queue);
    assert prefix <= host && host[|prefix|..] == a.machine;
    assert IndexOf(host, prefix) == 0;
    if isIp(a.machine) {
      TcpHostHasNoOsPrefix(a.machine);
    }
  }

  /** The address is recovered from its MSMQ path, in host or IP form, exactly when its
      parts have no backslash and are in the form the constructor gives them. */
  lemma PathRoundTripExactly(settings: Settings, isIp: string -> bool, a: Address)
    requires PlainIps(isIp)
    ensures IndependentAddress(settings, FormatName(isIp, a)) == Some(a) <==>
            '\\' !in a.queue && '\\' !in a.machine && Lower(a.queue) == a.queue &&
                MachineName(settings, a.machine) == a.machine
  {
    if '\\' !in a.machine {
      HostRecovered(settings, isIp, a);
      var parts := Split(a.queue, '\\');
      LastPart(a.queue);
      LowerKeeps(parts[|parts| - 1], '\\');
    } else {
      var r := IndependentAddress(settings, FormatName(isIp, a));
      var parts := Split(FormatName(isIp, a), '\\');
      SplitParts(FormatName(isIp, a), '\\');
      assert parts[0] in parts;
      if r.Some? {
        forall k | 0 <= k <= |parts[0]|
          ensures '\\' !in MachineName(settings, parts[0][k..])
        {
          LowerKeeps(parts[0][k..], '\\');
        }
      }
    }
  }

  /** Every address read from an MSMQ path has a path it can be read from again. */
  lemma ReadAddressesRecover(settings: Settings, isIp: string -> bool, formatName: string)
    requires PlainIps(isIp) && IndependentAddress(settings, formatName).Some?
    ensures var a := IndependentAddress(settings, formatName);
            IndependentAddress(settings, FormatName(isIp, a.value)) == a
  {
    var a := IndependentAddress(settings, formatName).value;
    var parts := Split(formatName, '\\');
    SplitParts(formatName, '\\');
    assert parts[0] in parts && parts[|parts| - 1] in parts;
    LowerKeeps(parts[|parts| - 1], '\\');
    LowerTwice(parts[|parts| - 1]);
    forall k | 0 <= k <= |parts[0]|
      ensures '\\' !in MachineName(settings, parts[0][k..])
      ensures MachineName(settings, MachineName(settings, parts[0][k..])) == MachineName(settings, parts[0][k..])
    {
      LowerKeeps(parts[0][k..], '\\');
      LowerTwice(parts[0][k..]);
    }
    PathRoundTripExactly(settings, isIp, a);
  }

  // ---- What parsing makes of the forms that occur ----

  /** Character by character, only the letters A to Z change, by the distance between the cases. */
  ghost predicate LowerForm(s: string, t: string) {
    |s| == |t| &&
    forall i :: 0 <= i < |s| ==>
      if 'A' <= s[i] <= 'Z' then t[i] as int - 'a' as int == s[i] as int - 'A' as int else t[i] == s[i]
  }

  /** The machine's name is folded in local mode only. */
  lemma MadeOf(settings: Settings, queue: string, machine: string)
    ensures var a := Make(settings, queue, machine);
            LowerForm(queue, a.queue) &&
            (settings.mode.Local? ==> LowerForm(machine, a.machine)) && (settings.mode.Remote? ==> a.machine == machine)
  {
  }

  ghost predicate SpellsLocalhost(machine: string) {
    |machine| == 9 && forall i :: 0 <= i < 9 ==> machine[i] == "localhost"[i] || machine[i] == "LOCALHOST"[i]
  }

  /** A queue alone, or one with any of the names of this machine, is on the default machine; so is
      one with several machines. Otherwise the machine is the one named. */
  lemma ParsedForms(settings: Settings, queue: string, machine: string, more: string)
    requires '@' !in queue && '@' !in machine
    ensures queue != "" ==> Parse(settings, queue) == Some(Make(settings, queue, settings.defaultMachine))
    ensures machine == "." || machine == "127.0.0.1" || SpellsLocalhost(machine) ==>
              Parse(settings, queue + "@" + machine) == Some(Make(settings, queue, settings.defaultMachine))
    ensures machine != "." && machine != "127.0.0.1" && !SpellsLocalhost(machine) ==>
              Parse(settings, queue + "@" + machine) == Some(Make(settings, queue, machine))
    ensures Parse(settings, queue + "@" + (machine + "@" + more))
         == Some(Make(settings, queue, settings.defaultMachine))
  {
    SplitWithout(queue, '@');
    SplitWithout(machine, '@');
    SplitAtFirst(queue, '@', machine);
    SplitAtFirst(queue, '@', machine + "@" + more);
    SplitAtFirst(machine, '@', more);
    LocalhostSpelled(machine);
  }

  lemma LocalhostSpelled(machine: string)
    ensures Lower(machine) == "localhost" <==> SpellsLocalhost(machine)
  {
    var s := "localhost";
    assert Lower(machine) == s <==> |machine| == 9 && forall i :: 0 <= i < 9 ==> LowerChar(machine[i]) == s[i];
    if |machine| == 9 {
      forall i | 0 <= i < 9
        ensures LowerChar(machine[i]) == s[i] <==> machine[i] == s[i] || machine[i] == "LOCALHOST"[i]
      {
        assert "LOCALHOST"[i] as int + 32 == s[i] as int;
      }
    }
  }

  /** A path names the protocol by whether the machine is an IP address. */
  lemma PathForms(isIp: string -> bool, a: Address)
    ensures isIp(a.machine) ==> FormatName(isIp, a) == "DIRECT=TCP:" + a.machine + "\\private$\\" + a.queue
    ensures !isIp(a.machine) ==> FormatName(isIp, a) == "DIRECT=OS:" + a.machine + "\\private$\\" + a.queue
  {
  }
}
