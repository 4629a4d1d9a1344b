/** The MSMQ message label that carries the correlation id and identity name for 2.6. */
module MsmqLabel {
  import opened Strings

  const CORRELATION := "CorrId"
  const IDENTITY := "WinIdName"

  function Open(name: string): string { ['<'] + name + ['>'] }

  function Close(name: string): string { "</" + name + ['>'] }

  function Label(id: string, identity: string): string {
    Open(CORRELATION) + id + Close(CORRELATION) + Open(IDENTITY) + identity + Close(IDENTITY)
  }

  datatype Extracted = Absent | Text(text: string) | OutOfRange

  /** The text between the first opening and the first closing tag; cutting out a negative
      or overlong stretch throws. */
  function Extract(text: string, name: string): Extracted {
    if IndexOf(text, name) == -1 then Absent
    else
      var start := IndexOf(text, Open(name)) + |name| + 2;
      Between(text, start, IndexOf(text, Close(name)))
  }

  function Between(text: string, start: int, end: int): Extracted {
    if 0 <= start <= end <= |text| then Text(text[start..end]) else OutOfRange
  }

  ghost predicate Occurs(s: string, pattern: string) {
    exists i :: OccursAt(s, pattern, i)
  }

  ghost predicate IsTag(tag: string) {
    tag != [] && tag[0] == '<' && forall k :: 1 <= k < |tag| ==> tag[k] != '<'
  }

  /** A tag that starts in `before` ends in it if another tag follows. */
  lemma TagFits(before: string, rest: string, tag: string, i: int)
    requires IsTag(tag) && OccursAt(before + rest, tag, i) && i < |before|
    requires rest != [] && rest[0] == '<'
    ensures i + |tag| <= |before|
  {
    OccursMeans(before + rest, tag, i);
    assert (before + rest)[|before|] == '<';
  }

  /** A tag is found where it stands, unless it occurs before. */
  lemma TagFound(before: string, tag: string, after: string)
    requires IsTag(tag) && !Occurs(before, tag)
    ensures IndexOf(before + tag + after, tag) == |before|
  {
    var s := before + (tag + after);
    assert before + tag + after == s;
    assert s[|before|..] == tag + after;
    forall i | 0 <= i < |before|
      ensures !OccursAt(s, tag, i)
    {
      if i + |tag| <= |before| {
        OccursInFirst(before, tag + after, tag, i);
      } else if OccursAt(s, tag, i) {
        TagFits(before, tag + after, tag, i);
      }
    }
    IndexOfIs(s, tag, |before|);
  }

  lemma CutOut(text: string, name: string, start: int, content: string, rest: string)
    requires 0 <= start <= |text| && text[start..] == content + rest
    requires IndexOf(text, Open(name)) + |name| + 2 == start
    requires IndexOf(text, name) != -1
    ensures Extract(text, name) == Text(content) <==> IndexOf(text, Close(name)) == start + |content|
  {
    var end := IndexOf(text, Close(name));
    if start <= end <= |text| {
      assert text[start..end] == text[start..][..end - start];
      if text[start..end] == content {
        assert end - start == |content|;
      }
    }
    assert (content + rest)[..|content|] == content;
  }

  lemma NameOccurs(before: string, name: string, after: string)
    ensures IndexOf(before + name + after, name) != -1
  {
    IndexOfHolds(before + name + after, name);
    assert (before + name + after)[|before|..] == name + after;
    assert OccursAt(before + name + after, name, |before|);
  }

  lemma NotFoundThere(text: string, tag: string, start: int, content: string, rest: string)
    requires 0 <= start <= |text| && text[start..] == content + rest
    requires Occurs(content, tag) && tag != []
    ensures IndexOf(text, tag) != start + |content|
  {
    var i :| OccursAt(content, tag, i);
    OccursMeans(content, tag, i);
    OccursInFirst(content, rest, tag, i);
    assert text[start + i..] == text[start..][i..];
    assert OccursAt(text, tag, start + i);
    IndexOfHolds(text, tag);
  }

  lemma OpeningHasNoClosing(name: string, content: string)
    requires name != [] && name[0] != '/' && '<' !in name && !Occurs(content, Close(name))
    ensures !Occurs(Open(name) + content, Close(name))
  {
    var s := Open(name) + content;
    forall i
      ensures !OccursAt(s, Close(name), i)
    {
      OccursMeans(s, Close(name), i);
      if i >= |Open(name)| {
        OccursInSecond(Open(name), content, Close(name), i);
      } else if 0 <= i && i + 1 < |s| {
        assert s[i] == Open(name)[i] && s[1] == name[0];
        assert i > 0 && i < |Open(name)| - 1 ==> s[i] == name[i - 1];
      }
    }
  }

  ghost predicate IsName(name: string) {
    name != [] && name[0] != '/' && '<' !in name
  }

  lemma TextBetween(before: string, name: string, content: string, after: string)
    requires IsName(name) && IsTag(Open(name)) && !Occurs(before, Open(name))
    ensures var rest := Close(name) + after;
            var text := before + Open(name) + (content + rest);
            var start := |before| + |name| + 2;
            start <= |text| && text[start..] == content + rest &&
            IndexOf(text, Open(name)) + |name| + 2 == start && IndexOf(text, name) != -1
  {
    var rest := Close(name) + after;
    TagFound(before, Open(name), content + rest);
    NameOccurs(before + ['<'], name, ['>'] + content + rest);
    assert before + ['<'] + name + (['>'] + content + rest) == before + Open(name) + (content + rest);
  }

  /** What stands between the tags comes back exactly when it does not contain the closing
      tag, provided neither tag occurs before. */
  lemma ExtractExactly(before: string, name: string, content: string, after: string)
    requires IsName(name) && IsTag(Open(name)) && IsTag(Close(name))
    requires !Occurs(before, Open(name)) && !Occurs(before, Close(name))
    ensures var text := before + Open(name) + (content + (Close(name) + after));
            Extract(text, name) == Text(content) <==> !Occurs(content, Close(name))
  {
    var close, rest := Close(name), Close(name) + after;
    var text := before + Open(name) + (content + rest);
    var start := |before| + |name| + 2;
    TextBetween(before, name, content, after);
    CutOut(text, name, start, content, rest);
    if Occurs(content, close) {
      NotFoundThere(text, close, start, content, rest);
    } else {
      OpeningHasNoClosing(name, content);
      HeadThen(before, Open(name) + content, close);
      TagFound(before + (Open(name) + content), close, after);
      Reassociate(before, Open(name), content, close, after);
    }
  }

  lemma Reassociate(a: string, b: string, c: string, d: string, e: string)
    ensures a + b + (c + (d + e)) == a + (b + c) + d + e
  {
  }

  lemma Tags()
    ensures IsName(CORRELATION) && IsTag(Open(CORRELATION)) && IsTag(Close(CORRELATION))
    ensures IsName(IDENTITY) && IsTag(Open(IDENTITY)) && IsTag(Close(IDENTITY))
  {
  }

  /** The correlation id comes back from the label exactly when it does not contain its
      own closing tag, whatever the identity name is. */
  lemma CorrelationIdExactly(id: string, identity: string)
    ensures Extract(Label(id, identity), CORRELATION) == Text(id) <==> !Occurs(id, Close(CORRELATION))
  {
    var after := Open(IDENTITY) + identity + Close(IDENTITY);
    Tags();
    ExtractExactly("", CORRELATION, id, after);
    Regroup(Open(CORRELATION), id, Close(CORRELATION), Open(IDENTITY), identity, Close(IDENTITY));
  }

  /** The identity name comes back from the label exactly when neither it nor the correlation id
      contains its closing tag, or if the id contains its opening tag, when it is by chance what
      the id's own tags hold. */
  lemma IdentityNameExactly(id: string, identity: string)
    ensures Extract(Label(id, identity), IDENTITY) == Text(identity) <==>
            if Occurs(id, Open(IDENTITY)) then Extract(id, IDENTITY) == Text(identity)
            else !Occurs(id, Close(IDENTITY)) && !Occurs(identity, Close(IDENTITY))
  {
    Tags();
    HeadTags(id, Open(IDENTITY));
    HeadTags(id, Close(IDENTITY));
    if Occurs(id, Open(IDENTITY)) {
      if Occurs(id, Close(IDENTITY)) {
        TagsInId(id, identity);
      } else {
        OpenedOnlyInId(id, identity);
      }
    } else if Occurs(id, Close(IDENTITY)) {
      ClosedTooEarly(id, identity);
    } else {
      assert !Occurs(Head(id), Open(IDENTITY)) && !Occurs(Head(id), Close(IDENTITY));
      ExtractExactly(Head(id), IDENTITY, identity, "");
      Regroup(Open(CORRELATION), id, Close(CORRELATION), Open(IDENTITY), identity, Close(IDENTITY));
    }
  }

  lemma ExtractedHasNoClosing(text: string, name: string)
    ensures Extract(text, name).Text? ==> !Occurs(Extract(text, name).text, Close(name))
  {
    if Extract(text, name).Text? {
      var start, end := IndexOf(text, Open(name)) + |name| + 2, IndexOf(text, Close(name));
      var t := Extract(text, name).text;
      assert forall j :: 0 <= j < |t| ==> t[j] == text[start + j];
      IndexOfHolds(text, Close(name));
      forall i
        ensures !OccursAt(t, Close(name), i)
      {
        OccursMeans(t, Close(name), i);
        OccursMeans(text, Close(name), start + i);
        assert OccursAt(t, Close(name), i) ==> start + i < end;
      }
    }
  }

  /** What follows the correlation part of the label. */
  function Tail(identity: string): string {
    Open(IDENTITY) + identity + Close(IDENTITY)
  }

  lemma LabelParts(id: string, identity: string)
    ensures Label(id, identity) == Head(id) + Tail(identity)
    ensures Label(id, identity) == Head(id) + Open(IDENTITY) + (identity + Close(IDENTITY))
  {
    FiveJoined(Open(CORRELATION), id, Close(CORRELATION), Open(IDENTITY), identity, Close(IDENTITY));
  }

  lemma LabelAround(id: string, identity: string)
    ensures Label(id, identity) == Open(CORRELATION) + id + (Close(CORRELATION) + Tail(identity))
    ensures Label(id, identity) == Head(id) + (Open(IDENTITY) + identity) + Close(IDENTITY) + ""
  {
    FiveJoined(Open(CORRELATION), id, Close(CORRELATION), Open(IDENTITY), identity, Close(IDENTITY));
  }

  lemma FiveJoined(a: string, b: string, c: string, d: string, e: string, f: string)
    ensures a + b + c + d + e + f == (a + b + c) + (d + e + f)
    ensures a + b + c + d + e + f == (a + b + c) + d + (e + f)
    ensures a + b + c + d + e + f == a + b + (c + (d + e + f))
    ensures a + b + c + d + e + f == (a + b + c) + (d + e) + f + ""
  {
  }

  /** A tag that occurs in the id is found there. */
  lemma FoundInId(id: string, identity: string, tag: string)
    requires (tag == Open(IDENTITY) || tag == Close(IDENTITY)) && Occurs(id, tag)
    ensures 0 <= IndexOf(id, tag) <= |id| - |tag|
    ensures IndexOf(Label(id, identity), tag) == |Open(CORRELATION)| + IndexOf(id, tag)
  {
    var k, n := IndexOf(id, tag), |Open(CORRELATION)|;
    IndexOfHolds(id, tag);
    OccursMeans(id, tag, k);
    HeadTags(id, tag);
    LabelParts(id, identity);
    forall i | i <= n + k
      ensures OccursAt(Label(id, identity), tag, i) <==> OccursAt(Head(id), tag, i)
    {
      OccursInFirst(Head(id), Tail(identity), tag, i);
    }
    IndexOfIs(Label(id, identity), tag, n + k);
  }

  lemma NameInLabel(id: string, identity: string)
    ensures IndexOf(Label(id, identity), IDENTITY) != -1
  {
    NameOccurs(Head(id) + ['<'], IDENTITY, ['>'] + identity + Close(IDENTITY));
    assert Head(id) + ['<'] + IDENTITY + (['>'] + identity + Close(IDENTITY)) == Label(id, identity);
  }

  lemma NameIn(id: string)
    requires Occurs(id, Open(IDENTITY))
    ensures IndexOf(id, IDENTITY) != -1
  {
    var i :| OccursAt(id, Open(IDENTITY), i);
    OccursMeans(id, Open(IDENTITY), i);
    OccursMeans(id, IDENTITY, i + 1);
    assert forall k :: 0 <= k < |IDENTITY| ==> IDENTITY[k] == Open(IDENTITY)[k + 1];
    IndexOfHolds(id, IDENTITY);
    assert OccursAt(id, IDENTITY, i + 1);
  }

  lemma TagsInId(id: string, identity: string)
    requires Occurs(id, Open(IDENTITY)) && Occurs(id, Close(IDENTITY))
    ensures Extract(Label(id, identity), IDENTITY) == Extract(id, IDENTITY)
  {
    var text, n := Label(id, identity), |Open(CORRELATION)|;
    var open, close := IndexOf(id, Open(IDENTITY)), IndexOf(id, Close(IDENTITY));
    FoundInId(id, identity, Open(IDENTITY));
    FoundInId(id, identity, Close(IDENTITY));
    assert Extract(text, IDENTITY) == Between(text, n + open + |IDENTITY| + 2, n + close) by {
      NameInLabel(id, identity);
      ExtractIs(text, IDENTITY, n + open, n + close);
    }
    assert Extract(id, IDENTITY) == Between(id, open + |IDENTITY| + 2, close) by {
      NameIn(id);
      ExtractIs(id, IDENTITY, open, close);
    }
    assert Between(text, n + (open + |IDENTITY| + 2), n + close) == Between(id, open + |IDENTITY| + 2, close) by {
      IdInLabel(id, identity);
      SameBetween(text, n, id, open + |IDENTITY| + 2, close);
    }
  }

  ghost predicate StandsAt(part: string, text: string, n: nat) {
    n + |part| <= |text| && forall k :: 0 <= k < |part| ==> part[k] == text[n + k]
  }

  lemma IdInLabel(id: string, identity: string)
    ensures StandsAt(id, Label(id, identity), |Open(CORRELATION)|)
  {
    LabelAround(id, identity);
  }

  lemma ExtractIs(text: string, name: string, open: int, close: int)
    requires IndexOf(text, name) != -1 && IndexOf(text, Open(name)) == open && IndexOf(text, Close(name)) == close
    ensures Extract(text, name) == Between(text, open + |name| + 2, close)
  {
  }

  lemma SameBetween(text: string, n: nat, part: string, start: nat, end: nat)
    requires StandsAt(part, text, n) && end <= |part|
    ensures Between(text, n + start, n + end) == Between(part, start, end)
  {
    if start <= end {
      assert text[n + start..n + end] == part[start..end];
    }
  }

  lemma OpenedOnlyInId(id: string, identity: string)
    requires Occurs(id, Open(IDENTITY)) && !Occurs(id, Close(IDENTITY))
    ensures Extract(Label(id, identity), IDENTITY) != Text(identity) && Extract(id, IDENTITY) != Text(identity)
  {
    var text, close := Label(id, identity), Close(IDENTITY);
    IndexOfHolds(id, close);
    assert IndexOf(id, close) == -1;
    FoundInId(id, identity, Open(IDENTITY));
    if Occurs(identity, close) {
      ExtractedHasNoClosing(text, IDENTITY);
    } else {
      ClosedAtEnd(id, identity);
      HeadLength(id);
      NameInLabel(id, identity);
      ExtractIs(text, IDENTITY, IndexOf(text, Open(IDENTITY)), IndexOf(text, close));
    }
  }

  lemma HeadLength(id: string)
    ensures |Head(id)| == |Open(CORRELATION)| + |id| + |Close(CORRELATION)|
  {
  }

  lemma ClosedAtEnd(id: string, identity: string)
    requires !Occurs(id, Close(IDENTITY)) && !Occurs(identity, Close(IDENTITY))
    ensures IndexOf(Label(id, identity), Close(IDENTITY)) == |Head(id)| + |Open(IDENTITY)| + |identity|
  {
    var head, close := Head(id), Close(IDENTITY);
    Tags();
    HeadTags(id, close);
    OpeningHasNoClosing(IDENTITY, identity);
    HeadThen(head, Open(IDENTITY) + identity, close);
    TagFound(head + (Open(IDENTITY) + identity), close, "");
    LabelAround(id, identity);
  }

  lemma ClosedTooEarly(id: string, identity: string)
    requires !Occurs(id, Open(IDENTITY)) && Occurs(id, Close(IDENTITY))
    ensures Extract(Label(id, identity), IDENTITY) != Text(identity)
  {
    Tags();
    HeadTags(id, Open(IDENTITY));
    LabelParts(id, identity);
    TagFound(Head(id), Open(IDENTITY), identity + Close(IDENTITY));
    FoundInId(id, identity, Close(IDENTITY));
  }

  lemma Regroup(a: string, b: string, c: string, d: string, e: string, f: string)
    ensures a + b + c + d + e + f == "" + a + (b + (c + (d + e + f)))
    ensures a + b + c + d + e + f == (a + b + c) + d + (e + (f + ""))
  {
  }

  function Head(id: string): string {
    Open(CORRELATION) + id + Close(CORRELATION)
  }

  /** The correlation part of the label has the identity's tags where the id has them. */
  lemma HeadTags(id: string, tag: string)
    requires tag == Open(IDENTITY) || tag == Close(IDENTITY)
    ensures forall i :: OccursAt(Head(id), tag, i) <==> OccursAt(id, tag, i - |Open(CORRELATION)|)
    ensures Occurs(Head(id), tag) <==> Occurs(id, tag)
  {
    var n := |Open(CORRELATION)|;
    forall i
      ensures OccursAt(Head(id), tag, i) <==> OccursAt(id, tag, i - n)
    {
      HeadTagAt(id, tag, i);
    }
    if j :| OccursAt(id, tag, j) {
      assert OccursAt(Head(id), tag, j + n);
    }
  }

  lemma HeadTagAt(id: string, tag: string, i: int)
    requires tag == Open(IDENTITY) || tag == Close(IDENTITY)
    ensures OccursAt(Head(id), tag, i) <==> OccursAt(id, tag, i - |Open(CORRELATION)|)
  {
    var head, open, close := Head(id), Open(CORRELATION), Close(CORRELATION);
    var n := |open|;
    Tags();
    OccursMeans(head, tag, i);
    OccursMeans(id, tag, i - n);
    assert head[0] == '<' && head[1] == 'C' && forall k :: 1 <= k < n ==> head[k] != '<';
    assert forall k :: 0 <= k < |id| ==> head[n + k] == id[k];
    assert head == open + id + close;
    assert forall k :: n + |id| <= k < |head| ==> head[k] == close[k - n - |id|];
    assert |head| == n + |id| + |close| && head[n + |id| + 1] == '/' && head[n + |id| + 2] == 'C';
    if n <= i < n + |id| && OccursAt(head, tag, i) {
      TagFits(open + id, close, tag, i);
    }
  }

  lemma HeadThen(head: string, more: string, tag: string)
    requires IsTag(tag) && !Occurs(head, tag) && !Occurs(more, tag) && more != [] && more[0] == '<'
    ensures !Occurs(head + more, tag)
  {
    forall i
      ensures !OccursAt(head + more, tag, i)
    {
      if i >= |head| {
        OccursInSecond(head, more, tag, i);
      } else if i + |tag| <= |head| {
        OccursInFirst(head, more, tag, i);
      } else if OccursAt(head + more, tag, i) {
        TagFits(head, more, tag, i);
      }
    }
  }

  /** The label as it is written, and what is read from one without the name. */
  lemma LabelWritten(id: string, identity: string, text: string)
    ensures Label(id, identity) == "<CorrId>" + id + "</CorrId>" + "<WinIdName>" + identity + "</WinIdName>"
    ensures Extract(text, IDENTITY) == Absent <==> !Occurs(text, "WinIdName")
    ensures Extract(text, CORRELATION) == Absent <==> !Occurs(text, "CorrId")
  {
    Tags();
    IndexOfHolds(text, IDENTITY);
    IndexOfHolds(text, CORRELATION);
    assert Open(CORRELATION) == "<CorrId>" && Close(CORRELATION) == "</CorrId>";
    assert Open(IDENTITY) == "<WinIdName>" && Close(IDENTITY) == "</WinIdName>";
  }
}
