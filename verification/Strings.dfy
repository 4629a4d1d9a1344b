/** The string operations of the .NET library that the text forms rely on, and Option. */
module Strings {

  datatype Option<+T> = None | Some(value: T)

  /** string.Split on one character, keeping empty parts. */
  function Split(s: string, c: char): (parts: seq<string>)
    ensures |parts| >= 1
  {
    if s == [] then [[]]
    else
      var rest := Split(s[1..], c);
      if s[0] == c then [[]] + rest else [[s[0]] + rest[0]] + rest[1..]
  }

  /** string.Join with a one-character separator. */
  function Join(parts: seq<string>, c: char): string {
    if parts == [] then []
    else if |parts| == 1 then parts[0]
    else parts[0] + [c] + Join(parts[1..], c)
  }

  lemma {:induction false} SplitAtFirst(a: string, c: char, b: string)
    requires c !in a
    ensures Split(a + [c] + b, c) == [a] + Split(b, c)
  {
    if a == [] {
      assert ([] + [c] + b)[1..] == b;
    } else {
      assert (a + [c] + b)[1..] == a[1..] + [c] + b;
      SplitAtFirst(a[1..], c, b);
      assert [a[0]] + a[1..] == a;
    }
  }

  lemma {:induction false} SplitWithout(s: string, c: char)
    requires c !in s
    ensures Split(s, c) == [s]
  {
    if s != [] {
      SplitWithout(s[1..], c);
      assert [s[0]] + s[1..] == s;
    }
  }

  lemma {:induction false} SplitParts(s: string, c: char)
    ensures forall part :: part in Split(s, c) ==> c !in part
    ensures |Split(s, c)| == 1 <==> c !in s
  {
    if s != [] {
      SplitParts(s[1..], c);
      var rest := Split(s[1..], c);
      assert rest[0] in rest;
      assert s == [s[0]] + s[1..];
    }
  }

  /** Splitting recovers what was joined exactly when there was something to join and
      no part contains the separator. */
  lemma {:induction false} SplitJoin(parts: seq<string>, c: char)
    ensures Split(Join(parts, c), c) == parts <==> parts != [] && forall part :: part in parts ==> c !in part
  {
    SplitParts(Join(parts, c), c);
    if parts != [] && forall part :: part in parts ==> c !in part {
      SplitJoinClean(parts, c);
    }
  }

  lemma {:induction false} SplitJoinClean(parts: seq<string>, c: char)
    requires parts != [] && forall part :: part in parts ==> c !in part
    ensures Split(Join(parts, c), c) == parts
  {
    if |parts| == 1 {
      SplitWithout(parts[0], c);
    } else {
      SplitJoinClean(parts[1..], c);
      SplitAtFirst(parts[0], c, Join(parts[1..], c));
      assert parts == [parts[0]] + parts[1..];
    }
  }

  /** string.IndexOf: the first position at which `pattern` occurs, or -1. */
  function IndexOf(s: string, pattern: string): int {
    if pattern <= s then 0
    else if s == [] then -1
    else
      var i := IndexOf(s[1..], pattern);
      if i == -1 then -1 else i + 1
  }

  ghost predicate OccursAt(s: string, pattern: string, i: int) {
    0 <= i <= |s| && pattern <= s[i..]
  }

  lemma {:induction false} IndexOfHolds(s: string, pattern: string)
    ensures -1 <= IndexOf(s, pattern)
    ensures IndexOf(s, pattern) == -1 ==> forall i :: !OccursAt(s, pattern, i)
    ensures IndexOf(s, pattern) != -1 ==> OccursAt(s, pattern, IndexOf(s, pattern))
    ensures forall i :: 0 <= i < IndexOf(s, pattern) ==> !OccursAt(s, pattern, i)
  {
    if pattern <= s {
      assert s[0..] == s;
    } else if s != [] {
      IndexOfHolds(s[1..], pattern);
      assert s[0..] == s;
      forall i | OccursAt(s, pattern, i)
        ensures i > 0 && OccursAt(s[1..], pattern, i - 1)
      {
        assert s[i..] == s[1..][i - 1..];
      }
      var k := IndexOf(s[1..], pattern);
      if k != -1 {
        assert s[k + 1..] == s[1..][k..];
      }
    }
  }

  lemma IndexOfIs(s: string, pattern: string, k: int)
    requires OccursAt(s, pattern, k)
    requires forall i :: 0 <= i < k ==> !OccursAt(s, pattern, i)
    ensures IndexOf(s, pattern) == k
  {
    IndexOfHolds(s, pattern);
  }

  /** An occurrence, character by character. */
  lemma OccursMeans(s: string, pattern: string, i: int)
    ensures OccursAt(s, pattern, i) <==>
            0 <= i && i + |pattern| <= |s| && forall j :: i <= j < i + |pattern| ==> s[j] == pattern[j - i]
  {
    if OccursAt(s, pattern, i) {
      forall j | i <= j < i + |pattern|
        ensures s[j] == pattern[j - i]
      {
        assert s[i..][j - i] == pattern[j - i];
      }
    }
  }

  lemma OccursInFirst(a: string, b: string, pattern: string, i: int)
    requires i + |pattern| <= |a|
    ensures OccursAt(a + b, pattern, i) <==> OccursAt(a, pattern, i)
  {
    OccursMeans(a + b, pattern, i);
    OccursMeans(a, pattern, i);
  }

  lemma OccursInSecond(a: string, b: string, pattern: string, i: int)
    requires i >= |a|
    ensures OccursAt(a + b, pattern, i) <==> OccursAt(b, pattern, i - |a|)
  {
    if i <= |a + b| {
      assert (a + b)[i..] == b[i - |a|..];
    }
  }
}
