/** A printed request is itself split by the head reader exactly where its body starts. */
module HttpExchange {
  import opened Seqs
  import opened CStrings
  import opened HeaderTable
  import opened HttpRequest
  import opened HttpMessage
  import opened Http

  /** The head reader as a two-state machine: did the last byte that is not a CR end a line? */
  function Scan(s: seq<char>, afterFeed: bool): (k: nat)
    ensures k <= |s|
  {
    if s == [] then 0
    else if s[0] == '\r' then 1 + Scan(s[1..], afterFeed)
    else if s[0] == '\n' && afterFeed then 0
    else 1 + Scan(s[1..], s[0] == '\n')
  }

  /** Position i of s ends the head when s follows a text that ends a line or does not. */
  ghost predicate EndsAt(s: seq<char>, afterFeed: bool, i: nat) {
    && i < |s| && s[i] == '\n'
    && ((exists j: nat :: FeedBefore(s, j, i)) || (afterFeed && forall k :: 0 <= k < i ==> s[k] == '\r'))
  }

  lemma EndsAtTail(s: seq<char>, afterFeed: bool, i: nat)
    requires 0 < i < |s|
    ensures EndsAt(s, afterFeed, i)
            <==> EndsAt(s[1..], if s[0] == '\r' then afterFeed else s[0] == '\n', i - 1)
  {
    var t := s[1..];
    assert forall k :: 0 <= k < |t| ==> t[k] == s[k + 1];
    if j: nat :| FeedBefore(s, j, i) {
      if j > 0 {
        assert FeedBefore(t, j - 1, i - 1);
      }
    }
    var m := i - 1;
    if j: nat :| FeedBefore(t, j, m) {
      assert FeedBefore(s, j + 1, i);
    }
    if s[0] == '\n' && forall k :: 0 <= k < i - 1 ==> t[k] == '\r' {
      assert FeedBefore(s, 0, i);
    }
  }

  lemma {:induction false} ScanIsFirst(s: seq<char>, afterFeed: bool)
    ensures var k := Scan(s, afterFeed);
            && (k < |s| ==> EndsAt(s, afterFeed, k))
            && forall i :: 0 <= i < k ==> !EndsAt(s, afterFeed, i)
  {
    if s != [] && !(s[0] == '\n' && afterFeed) {
      var next := if s[0] == '\r' then afterFeed else s[0] == '\n';
      ScanIsFirst(s[1..], next);
      var k := Scan(s, afterFeed);
      assert k == 1 + Scan(s[1..], next);
      if k < |s| { EndsAtTail(s, afterFeed, k); }
      forall i | 0 <= i < k ensures !EndsAt(s, afterFeed, i) {
        if i > 0 { EndsAtTail(s, afterFeed, i); }
      }
    }
  }

  /** The machine stops where the first end of head is. */
  lemma ScanIsHeadEnd(s: seq<char>)
    ensures Scan(s, false) == HeadEnd(s)
  {
    ScanIsFirst(s, false);
    assert forall i :: EndsAt(s, false, i) <==> EndsHead(s, i);
    HeadEndIs(s, Scan(s, false));
  }

  lemma {:induction false} ScanLine(line: string, rest: string, afterFeed: bool)
    requires line != "" && NoLineBreak(line)
    ensures Scan(line + rest, afterFeed) == |line| + Scan(rest, false)
    decreases |line|
  {
    assert (line + rest)[1..] == line[1..] + rest;
    if |line| == 1 {
      assert line[1..] + rest == rest;
    } else {
      ScanLine(line[1..], rest, false);
    }
  }

  lemma ScanBreak(rest: string)
    ensures Scan(CRLF + rest, false) == 2 + Scan(rest, true)
  {
    assert (CRLF + rest)[1..] == ['\n'] + rest;
    assert (['\n'] + rest)[1..] == rest;
  }

  lemma ScanEmptyLine(rest: string)
    ensures Scan(CRLF + rest, true) == 1
  {
    assert (CRLF + rest)[1..] == ['\n'] + rest;
  }

  lemma ScanFullLine(line: string, rest: string, afterFeed: bool)
    requires line != "" && NoLineBreak(line)
    ensures Scan(line + CRLF + rest, afterFeed) == |line| + 2 + Scan(rest, true)
  {
    assert line + CRLF + rest == line + (CRLF + rest);
    ScanLine(line, CRLF + rest, afterFeed);
    ScanBreak(rest);
  }

  lemma BreakFree(a: string, b: string)
    requires NoLineBreak(a) && NoLineBreak(b)
    ensures NoLineBreak(a + b)
  {
  }

  /** Names and values without line breaks; nothing else is asked of them. */
  predicate OneLineFields(es: seq<Entry>) {
    forall i :: 0 <= i < |es| ==> NoLineBreak(es[i].name) && NoLineBreak(es[i].value)
  }

  lemma {:induction false} ScanFields(es: seq<Entry>, body: string)
    requires OneLineFields(es)
    ensures Scan(HeaderLines(es) + (CRLF + body), true) == |HeaderLines(es)| + 1
    decreases |es|
  {
    hide Scan, CRLF;
    if es == [] {
      assert HeaderLines(es) + (CRLF + body) == CRLF + body;
      ScanEmptyLine(body);
    } else {
      var tail := HeaderLines(es[1..]) + (CRLF + body);
      ScanFields(es[1..], body);
      FirstHeaderLine(es, CRLF + body);
      ScanField(es[0], tail);
    }
  }

  lemma ScanField(e: Entry, tail: string)
    requires NoLineBreak(e.name) && NoLineBreak(e.value)
    ensures Scan(HeaderLine(e) + tail, true) == |HeaderLine(e)| + Scan(tail, true)
  {
    var line := e.name + ": " + e.value;
    assert NoLineBreak(line) by {
      BreakFree(e.name, ": ");
      BreakFree(e.name + ": ", e.value);
    }
    ScanFullLine(line, tail, true);
  }

  /**
   Reading a printed request back byte by byte stops at its last line feed, so what follows
   is exactly the body. Resource, names and values may be anything without a line break.
   */
  lemma PrintedHeadSplits(t: RequestType, resource: string, es: seq<Entry>, body: string)
    requires NoLineBreak(resource) && OneLineFields(es)
    ensures HeadEnd(RequestText(t, resource, es) + body) == |RequestText(t, resource, es)| - 1
    ensures Body(RequestText(t, resource, es) + body) == body
  {
    var text := RequestText(t, resource, es);
    var tail := HeaderLines(es) + (CRLF + body);
    assert Scan(text + body, false) == |text| - 1 by {
      ScanRequestLine(t, resource, tail);
      ScanFields(es, body);
      SameText(t, resource, es, body);
      SameLength(t, resource, es);
    }
    ScanIsHeadEnd(text + body);
    hide Scan, RequestText, HeadEnd;
    assert (text + body)[|text|..] == body;
  }

  lemma SameLength(t: RequestType, resource: string, es: seq<Entry>)
    ensures |RequestText(t, resource, es)|
            == |MethodName(t) + " " + resource + " HTTP/1.1"| + 2 + |HeaderLines(es)| + 2
  {
    hide MethodName, HeaderLines;
  }

  lemma ScanRequestLine(t: RequestType, resource: string, tail: string)
    requires NoLineBreak(resource)
    ensures var line := MethodName(t) + " " + resource + " HTTP/1.1";
            Scan(line + CRLF + tail, false) == |line| + 2 + Scan(tail, true)
  {
    var name := MethodName(t);
    var line := name + " " + resource + " HTTP/1.1";
    MethodIsToken(t);
    TokenFree(name, '\r');
    TokenFree(name, '\n');
    hide MethodName, Token;
    BreakFree(name, " ");
    BreakFree(name + " ", resource);
    BreakFree(name + " " + resource, " HTTP/1.1");
    ScanFullLine(line, tail, false);
  }
}
