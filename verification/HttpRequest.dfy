/** Printing a request head into a buffer whose size is fixed before printing starts. */
module HttpRequest {
  import opened Seqs
  import opened CStrings
  import opened HeaderTable
  import opened HttpHeader

  datatype RequestType =
    | TypeGet | TypeOptions | TypeHead | TypePost | TypePut | TypeDelete | TypeTrace | TypeConnect
    | TypePropFind | TypePropPatch | TypeMkCol | TypeCopy | TypeMove | TypeLock | TypeUnlock

  function MethodName(t: RequestType): (name: string)
    ensures 3 <= |name| <= 9
  {
    match t
    case TypeGet => "GET"
    case TypeOptions => "OPTIONS"
    case TypeHead => "HEAD"
    case TypePost => "POST"
    case TypePut => "PUT"
    case TypeDelete => "DELETE"
    case TypeTrace => "TRACE"
    case TypeConnect => "CONNECT"
    case TypePropFind => "PROPFIND"
    case TypePropPatch => "PROPPATCH"
    case TypeMkCol => "MKCOL"
    case TypeCopy => "COPY"
    case TypeMove => "MOVE"
    case TypeLock => "LOCK"
    case TypeUnlock => "UNLOCK"
  }

  const CRLF: string := "\r\n"

  // ----- The text -----

  function FirstLine(t: RequestType, resource: string): string {
    MethodName(t) + " " + resource + " HTTP/1.1" + CRLF
  }

  function HeaderLine(e: Entry): string {
    e.name + ": " + e.value + CRLF
  }

  function HeaderLines(es: seq<Entry>): string {
    if es == [] then "" else HeaderLine(es[0]) + HeaderLines(es[1..])
  }

  function PrintedOf(slot: Option<Entry>): seq<Entry> {
    if Prints(slot) then [slot.value] else []
  }

  /** The headers that are printed: those with a name and a value that are not empty. */
  function Printed(slots: Slots): seq<Entry> {
    if slots == [] then [] else PrintedOf(slots[0]) + Printed(slots[1..])
  }

  predicate Prints(slot: Option<Entry>) {
    slot.Some? && slot.value.name != "" && slot.value.value != ""
  }

  function RequestText(t: RequestType, resource: string, es: seq<Entry>): string {
    FirstLine(t, resource) + HeaderLines(es) + CRLF
  }

  // ----- The buffer -----

  function BufferLength(resource: string): nat {
    if 32 + |resource| > 1024 then 1024 + 32 + |resource| else 1024
  }

  /** The printed head comes within ten bytes of the buffer's end, and there are headers. */
  predicate DoesNotFit(t: RequestType, resource: string, es: seq<Entry>) {
    es != [] && |RequestText(t, resource, es)| + 10 > BufferLength(resource)
  }

  lemma {:induction false} PrintedConcat(a: Slots, b: Slots)
    ensures Printed(a + b) == Printed(a) + Printed(b)
  {
    hide PrintedOf;
    if a == [] {
      assert a + b == b;
    } else {
      PrintedConcat(a[1..], b);
      assert (a + b)[1..] == a[1..] + b;
      assert Printed(a + b) == PrintedOf(a[0]) + (Printed(a[1..]) + Printed(b));
    }
  }

  lemma {:induction false} HeaderLinesAppend(es: seq<Entry>, more: seq<Entry>)
    ensures HeaderLines(es + more) == HeaderLines(es) + HeaderLines(more)
  {
    if es == [] {
      assert es + more == more;
    } else {
      assert (es + more)[1..] == es[1..] + more;
      HeaderLinesAppend(es[1..], more);
    }
  }

  lemma OneHeaderLine(es: seq<Entry>, e: Entry)
    ensures HeaderLines(es + [e]) == HeaderLines(es) + HeaderLine(e)
  {
    HeaderLinesAppend(es, [e]);
    assert HeaderLines([e]) == HeaderLine(e) + HeaderLines([]);
  }

  /** The text printed once the first i slots have been visited. */
  function HeadUpTo(t: RequestType, resource: string, slots: Slots, i: nat): string
    requires i <= |slots|
  {
    FirstLine(t, resource) + HeaderLines(Printed(slots[..i]))
  }

  lemma PrintedNext(slots: Slots, i: nat)
    requires i < |slots|
    ensures Printed(slots[..i + 1])
            == if Prints(slots[i]) then Printed(slots[..i]) + [slots[i].value] else Printed(slots[..i])
  {
    assert slots[..i + 1] == slots[..i] + [slots[i]];
    PrintedConcat(slots[..i], [slots[i]]);
    assert Printed([slots[i]]) == PrintedOf(slots[i]) + Printed([]);
  }

  lemma HeadNext(t: RequestType, resource: string, slots: Slots, i: nat)
    requires i < |slots|
    ensures HeadUpTo(t, resource, slots, i + 1)
            == if Prints(slots[i]) then HeadUpTo(t, resource, slots, i) + HeaderLine(slots[i].value)
               else HeadUpTo(t, resource, slots, i)
  {
    PrintedNext(slots, i);
    if Prints(slots[i]) {
      OneHeaderLine(Printed(slots[..i]), slots[i].value);
    }
  }

  lemma FirstLineFits(t: RequestType, resource: string)
    ensures |FirstLine(t, resource)| + 11 <= BufferLength(resource)
  {
    hide MethodName;
  }

  lemma LineLength(e: Entry)
    ensures |HeaderLine(e)| == |e.name| + |e.value| + 4
  {
  }

  lemma RoomMeansFit(t: RequestType, resource: string, slots: Slots)
    ensures DoesNotFit(t, resource, Printed(slots))
            <==> Printed(slots) != [] && |HeadUpTo(t, resource, slots, |slots|)| + 12 > BufferLength(resource)
  {
    hide Printed, HeaderLines, FirstLine, BufferLength;
    HeadEnds(t, resource, slots);
  }

  lemma HeadEnds(t: RequestType, resource: string, slots: Slots)
    ensures Printed(slots[..0]) == [] && HeadUpTo(t, resource, slots, 0) == FirstLine(t, resource)
    ensures HeadUpTo(t, resource, slots, |slots|) + CRLF == RequestText(t, resource, Printed(slots))
  {
    assert slots[..|slots|] == slots;
  }

  /** Once a line does not fit, whatever follows, the whole text does not fit. */
  lemma TooLongAlready(t: RequestType, resource: string, slots: Slots, i: nat)
    requires i < |slots| && Prints(slots[i])
    requires |HeadUpTo(t, resource, slots, i)| + |HeaderLine(slots[i].value)| + 12 > BufferLength(resource)
    ensures DoesNotFit(t, resource, Printed(slots))
  {
    assert slots == slots[..i] + slots[i..];
    PrintedConcat(slots[..i], slots[i..]);
    HeaderLinesAppend(Printed(slots[..i]), Printed(slots[i..]));
    assert Printed(slots[i..]) == [slots[i].value] + Printed(slots[i..][1..]);
    assert HeaderLines(Printed(slots[i..]))
           == HeaderLine(slots[i].value) + HeaderLines(Printed(slots[i..])[1..]);
  }

  lemma PrintedFrom(slots: Slots, lo: nat)
    requires lo < |slots|
    ensures Printed(slots[lo..])
            == if Prints(slots[lo]) then [slots[lo].value] + Printed(slots[lo + 1..]) else Printed(slots[lo + 1..])
  {
    assert slots[lo..][1..] == slots[lo + 1..];
    assert [] + Printed(slots[lo + 1..]) == Printed(slots[lo + 1..]);
  }

  /** The printed headers are those with a name and a value that are not empty, in slot order. */
  lemma {:induction false} PrintedInOrder(slots: Slots, lo: nat) returns (ks: seq<nat>)
    requires lo <= |slots|
    ensures Increasing(ks) && |ks| == |Printed(slots[lo..])|
    ensures forall k :: k in ks <==>
              lo <= k < |slots| && slots[k].Some? && slots[k].value.name != "" && slots[k].value.value != ""
    ensures forall j :: 0 <= j < |ks| ==> ks[j] < |slots| && slots[ks[j]] == Some(Printed(slots[lo..])[j])
    decreases |slots| - lo
  {
    if lo == |slots| {
      ks := [];
    } else {
      ks := PrintedInOrder(slots, lo + 1);
      PrintedFrom(slots, lo);
      if Prints(slots[lo]) {
        ConsIncreasing(lo, ks);
        ks := [lo] + ks;
      }
    }
  }

  /** g_snprintf of a finished text at an offset, cut to the size given. */
  method Snprintf(buf: array<char>, off: nat, size: nat, text: string) returns (ret: nat)
    requires off + size <= buf.Length && size > 0
    modifies buf
    ensures ret == |text|
    ensures buf[..] == old(buf[..off]) + Cut(text, size - 1) + [NUL] + old(buf[off + |Cut(text, size - 1)| + 1..])
  {
    ghost var was := buf[..];
    var n := Min(|text|, size - 1);
    for i := 0 to n
      invariant forall j :: 0 <= j < off ==> buf[j] == was[j]
      invariant forall j :: off <= j < off + i ==> buf[j] == text[j - off]
      invariant forall j :: off + i <= j < buf.Length ==> buf[j] == was[j]
    {
      buf[off + i] := text[i];
    }
    buf[off + n] := NUL;
    Rebuilt(buf[..], was[..off], Cut(text, size - 1), was[off + n + 1..]);
    ret := |text|;
  }

  function Empty(n: nat): (s: Slots)
    ensures |s| == n
  {
    seq(n, _ => None)
  }

  function Somes(es: seq<Entry>): (r: Slots)
    ensures |r| == |es|
  {
    seq(|es|, i requires 0 <= i < |es| => Some(es[i]))
  }

  /** A row whose entries come first. */
  function Row(es: seq<Entry>): (r: Slots)
    requires |es| <= HTTP_HEADER_MAX
    ensures |r| == HTTP_HEADER_MAX
    ensures forall i :: 0 <= i < |es| ==> r[i] == Some(es[i])
    ensures forall i :: |es| <= i < |r| ==> r[i] == None
  {
    Somes(es) + Empty(HTTP_HEADER_MAX - |es|)
  }

  lemma EmptyRow()
    ensures Row([]) == Empty(HTTP_HEADER_MAX) == seq(HTTP_HEADER_MAX, _ => None)
  {
  }

  /** Setting a name of a length that no name so far has fills the next slot. */
  lemma PutRow(known: seq<string>, es: seq<Entry>, key: string, value: string)
    requires |es| < HTTP_HEADER_MAX
    requires forall i :: 0 <= i < |es| ==> |es[i].name| != |key|
    ensures |Spelling(known, key)| == |key|
    ensures Put(known, Row(es), key, value) == Row(es + [Entry(Spelling(known, key), value)])
  {
    var slots := Row(es);
    assert |Lower(Spelling(known, key))| == |Lower(key)|;
    forall i | 0 <= i < |slots| ensures !Matches(slots[i], key) {
      if i < |es| { assert |Lower(es[i].name)| != |Lower(key)|; }
    }
    assert FirstMatch(slots, key) == |slots|;
    assert slots[|es|] == None;
    assert forall i :: 0 <= i < |es| ==> slots[i] == Some(es[i]);
  }

  /** The headers of a new request. */
  function DefaultEntries(known: seq<string>, agent: string, host: string): seq<Entry> {
    [
      Entry(Spelling(known, "Host"), host),
      Entry(Spelling(known, "Accept"), "*/*"),
      Entry(Spelling(known, "User-Agent"), agent),
      Entry(Spelling(known, "Accept-Encoding"), "identity")
    ]
  }

  lemma {:induction false} PrintedEmpty(n: nat)
    ensures Printed(Empty(n)) == []
  {
    if n > 0 {
      assert Empty(n)[1..] == Empty(n - 1);
      PrintedEmpty(n - 1);
    }
  }

  /** What an entry adds to the text: nothing when its name or its value is empty. */
  function EntryLength(e: Entry): nat {
    if Prints(Some(e)) then |e.name| + |e.value| + 4 else 0
  }

  lemma {:induction false} LinesLength(es: seq<Entry>)
    ensures |HeaderLines(Printed(Somes(es)))| == SumBy(es, EntryLength)
    ensures SumBy(es, EntryLength) > 0 <==> Printed(Somes(es)) != []
  {
    if es != [] {
      var rest := Printed(Somes(es[1..]));
      LinesLength(es[1..]);
      assert Somes(es)[1..] == Somes(es[1..]);
      assert Printed(Somes(es)) == PrintedOf(Some(es[0])) + rest;
      HeaderLinesAppend(PrintedOf(Some(es[0])), rest);
      OneHeaderLine([], es[0]);
      assert [] + [es[0]] == [es[0]];
    }
  }

  /** The empty slots behind the entries of a row print nothing. */
  lemma PrintedRow(es: seq<Entry>)
    requires |es| <= HTTP_HEADER_MAX
    ensures Printed(Row(es)) == Printed(Somes(es))
  {
    PrintedEmpty(HTTP_HEADER_MAX - |es|);
    PrintedConcat(Somes(es), Empty(HTTP_HEADER_MAX - |es|));
    hide Printed;
    assert Printed(Somes(es)) + [] == Printed(Somes(es));
  }

  lemma FourEntries(a: Entry, b: Entry, c: Entry, d: Entry)
    ensures SumBy([a, b, c, d], EntryLength) == EntryLength(a) + EntryLength(b) + EntryLength(c) + EntryLength(d)
  {
    hide EntryLength;
    assert [a, b, c, d][1..] == [b, c, d] && [b, c, d][1..] == [c, d] && [c, d][1..] == [d] && [d][1..] == [];
    assert SumBy([c, d], EntryLength) == EntryLength(c) + SumBy([d], EntryLength);
    assert SumBy([b, c, d], EntryLength) == EntryLength(b) + SumBy([c, d], EntryLength);
  }

  lemma DefaultLength(known: seq<string>, agent: string, host: string)
    ensures var es := Printed(Row(DefaultEntries(known, agent, host)));
            && es != []
            && |HeaderLines(es)|
               == 13 + 27 + (if host == "" then 0 else |host| + 8) + (if agent == "" then 0 else |agent| + 14)
  {
    var es := DefaultEntries(known, agent, host);
    assert forall key: string :: |Lower(Spelling(known, key))| == |Lower(key)|;
    PrintedRow(es);
    LinesLength(es);
    FourEntries(es[0], es[1], es[2], es[3]);
    hide Printed, Row, HeaderLines, Spelling;
    assert es == [es[0], es[1], es[2], es[3]];
  }

  /**
   A new request is refused exactly by the lengths of its parts. For a resource of up to 992
   bytes all three together may have 935; for a longer one host and agent may have 967. An
   empty host or agent has no line of its own, which leaves 8 or 14 bytes more.
   */
  lemma DefaultRequestRefused(known: seq<string>, agent: string, host: string, resource: string)
    ensures var spare := (if host == "" then 8 else 0) + (if agent == "" then 14 else 0);
            DoesNotFit(TypeGet, resource, Printed(Row(DefaultEntries(known, agent, host))))
            <==> if |resource| <= 992 then |resource| + |host| + |agent| > 935 + spare
                 else |host| + |agent| > 967 + spare
  {
    DefaultLength(known, agent, host);
    hide Printed, Row, HeaderLines, DefaultEntries;
  }

  class HttpRequest {
    var requestType: RequestType
    var host: string
    var resource: string
    var headers: HeaderList

    /** Lines 32-70: a GET request with four headers. */
    constructor (known: seq<Str>, agent: string, host: string, resource: string)
      ensures requestType == TypeGet && this.host == host && this.resource == resource
      ensures fresh(headers) && headers.Valid()
      ensures headers.Contents() == Row(DefaultEntries(TextsOf(known), agent, host))
    {
      var list := DefaultHeaders(known, agent, host);
      requestType := TypeGet;
      this.host := host;
      this.resource := resource;
      headers := list;
    }

    /**
     Lines 85-137. A line that does not fit makes the whole function return null, because
     the test after the realloc succeeds and jumps to the error exit.
     */
    method GetString() returns (r: array?<char>)
      requires headers.Shape()
      ensures var es := Printed(headers.Contents());
              && (r == null <==> DoesNotFit(requestType, resource, es))
              && (r != null ==>
                    var text := RequestText(requestType, resource, es);
                    |text| < r.Length && r[..|text|] == text && r[|text|] == NUL)
    {
      hide Printed, HeaderLines, DoesNotFit, RequestText, HeadUpTo, FirstLine, HeaderLine;
      ghost var slots := headers.Contents();
      var reqLen := 1024;
      if 32 + |resource| > reqLen {
        reqLen := reqLen + (32 + |resource|);
      }
      var reqStr := new char[reqLen + 1](_ => NUL);
      FirstLineFits(requestType, resource);
      assert reqLen == BufferLength(resource);
      var reqCurLen := PrintWhole(reqStr, 0, reqLen, FirstLine(requestType, resource));
      HeadEnds(requestType, resource, slots);
      ghost var printed, done := false, FirstLine(requestType, resource);
      var i := 0;
      while i < HTTP_HEADER_MAX
        invariant 0 <= i <= HTTP_HEADER_MAX
        invariant fresh(reqStr) && reqStr.Length == reqLen + 1
        invariant reqLen - reqCurLen >= if printed then 12 else 11
        invariant printed <==> Printed(slots[..i]) != []
        invariant done == HeadUpTo(requestType, resource, slots, i)
        invariant reqCurLen == |done| && reqStr[..reqCurLen] == done
      {
        HeadNext(requestType, resource, slots, i);
        PrintedNext(slots, i);
        assert slots[i] == headers.SlotAt(i);
        if headers.value[i] != null && headers.header[i] != null {
          var kl := |headers.value[i].text|;
          var vl := |headers.header[i].text|;
          if kl > 0 && vl > 0 {
            LineLength(slots[i].value);
            var remLen := reqLen - reqCurLen - 10;
            var lineLen := kl + vl + 6;
            if lineLen > remLen {
              TooLongAlready(requestType, resource, slots, i);
              return null;
            }
            var line := HeaderLine(Entry(headers.header[i].text, headers.value[i].text));
            var ret := PrintWhole(reqStr, reqCurLen, reqLen - reqCurLen, line);
            printed, done := true, done + line;
            reqCurLen := reqCurLen + ret;
          }
        }
        i := i + 1;
      }
      assert slots[..i] == slots;
      RoomMeansFit(requestType, resource, slots);
      reqCurLen := Finish(reqStr, reqCurLen);
      return reqStr;
    }
  }

  /** Set a name of a new length on a list whose entries come first. */
  method SetNext(headers: HeaderList, ghost es: seq<Entry>, key: string, value: string)
    requires headers.Valid() && |es| < HTTP_HEADER_MAX && headers.Contents() == Row(es)
    requires forall i :: 0 <= i < |es| ==> |es[i].name| != |key|
    modifies headers, headers.header, headers.value
    ensures headers.Valid()
    ensures |Spelling(TextsOf(headers.known), key)| == |key|
    ensures headers.Contents() == Row(es + [Entry(Spelling(TextsOf(headers.known), key), value)])
  {
    PutRow(TextsOf(headers.known), es, key, value);
    var ok := headers.SetValue(key, value);
  }

  /** Lines 51-59. */
  method DefaultHeaders(known: seq<Str>, agent: string, host: string) returns (headers: HeaderList)
    ensures fresh(headers) && headers.Valid()
    ensures headers.Contents() == Row(DefaultEntries(TextsOf(known), agent, host))
  {
    hide HeaderList.Valid, HeaderList.Contents, Row, Spelling;
    headers := new HeaderList(known);
    ghost var es := DefaultEntries(TextsOf(known), agent, host);
    EmptyRow();
    SetNext(headers, es[..0], "Host", host);
    assert es[..0] + [es[0]] == es[..1];
    SetNext(headers, es[..1], "Accept", "*/*");
    assert es[..1] + [es[1]] == es[..2];
    SetNext(headers, es[..2], "User-Agent", agent);
    assert es[..2] + [es[2]] == es[..3];
    SetNext(headers, es[..3], "Accept-Encoding", "identity");
    assert es[..3] + [es[3]] == es;
  }

  /** A print whose text, with its NUL, fits in the room it is given. */
  method PrintWhole(buf: array<char>, off: nat, size: nat, text: string) returns (ret: nat)
    requires off + size <= buf.Length && |text| < size
    modifies buf
    ensures ret == |text| && buf[..off + ret] == old(buf[..off]) + text
  {
    ret := Snprintf(buf, off, size, text);
  }

  /** Lines 127-129: the blank line and the terminator. */
  method Finish(buf: array<char>, len: nat) returns (total: nat)
    requires len + 2 < buf.Length
    modifies buf
    ensures total == len + 2 && buf[..total] == old(buf[..len]) + CRLF && buf[total] == NUL
  {
    total := len;
    buf[total] := '\r';
    total := total + 1;
    buf[total] := '\n';
    total := total + 1;
    buf[total] := NUL;
  }
}
