/**
 Reading a request back by RFC 7230: the request line of section 3.1.1 and the header
 fields of section 3.2. The printer of module HttpRequest is proved against this reader.
 */
module HttpMessage {
  import opened Seqs
  import opened CStrings
  import opened HeaderTable
  import opened HttpRequest

  datatype Message = Message(requestMethod: string, target: string, version: string, fields: seq<Entry>, body: string)

  const SP: string := " "
  const COLON: string := ":"

  /** A tchar of section 3.2.6. */
  predicate TokenChar(c: char) {
    'a' <= c <= 'z' || 'A' <= c <= 'Z' || '0' <= c <= '9' || c in "!#$%&'*+-.^_`|~"
  }

  predicate Token(s: string) {
    s != "" && forall i :: 0 <= i < |s| ==> TokenChar(s[i])
  }

  predicate Blank(c: char) {
    c == ' ' || c == '\t'
  }

  function TrimLeft(s: string): string {
    if s != "" && Blank(s[0]) then TrimLeft(s[1..]) else s
  }

  function TrimRight(s: string): string {
    if s != "" && Blank(s[|s| - 1]) then TrimRight(s[..|s| - 1]) else s
  }

  /** HTTP-version: "HTTP/" DIGIT "." DIGIT. */
  predicate Version(s: string) {
    |s| == 8 && s[..5] == "HTTP/" && '0' <= s[5] <= '9' && s[6] == '.' && '0' <= s[7] <= '9'
  }

  // ----- The reader -----

  predicate NoLineBreak(s: string) {
    Free(s, '\r') && Free(s, '\n')
  }

  /** The text up to the first CRLF and the text after it. */
  function TakeLine(s: string): (r: Option<(string, string)>)
    ensures r.Some? ==> |r.value.1| < |s|
  {
    var k := Find(s, CRLF);
    if k == |s| then None else
      assert HasPrefix(s[k..], CRLF);
      Some((s[..k], s[k + 2..]))
  }

  /** request-line = method SP request-target SP HTTP-version, without a stray CR or LF in the target. */
  function ParseRequestLine(line: string): Option<(string, string, string)> {
    var ps := Pieces(line, SP);
    if |ps| == 3 && Token(ps[0]) && ps[1] != "" && NoLineBreak(ps[1]) && Version(ps[2])
    then Some((ps[0], ps[1], ps[2])) else None
  }

  /** header-field = field-name ":" OWS field-value OWS, without a stray CR or LF in the value. */
  function ParseField(line: string): Option<Entry> {
    var k := Find(line, COLON);
    if k < |line| && Token(line[..k]) && NoLineBreak(TrimRight(TrimLeft(line[k + 1..])))
    then Some(Entry(line[..k], TrimRight(TrimLeft(line[k + 1..])))) else None
  }

  /** Header fields up to the empty line, and what follows it. */
  function ParseFields(s: string): Option<(seq<Entry>, string)>
    decreases |s|
  {
    match TakeLine(s)
    case None => None
    case Some((line, rest)) =>
      if line == "" then Some(([], rest)) else
        match (ParseField(line), ParseFields(rest))
        case (Some(e), Some((es, body))) => Some(([e] + es, body))
        case _ => None
  }

  function ParseMessage(s: string): Option<Message> {
    match TakeLine(s)
    case None => None
    case Some((line, rest)) =>
      match (ParseRequestLine(line), ParseFields(rest))
      case (Some((m, t, v)), Some((fields, body))) => Some(Message(m, t, v, fields, body))
      case _ => None
  }

  // ----- What can be printed and read back -----

  predicate GoodTarget(resource: string) {
    resource != "" && Free(resource, ' ') && NoLineBreak(resource)
  }

  predicate GoodValue(value: string) {
    NoLineBreak(value) && (value == "" || (!Blank(value[0]) && !Blank(value[|value| - 1])))
  }

  predicate GoodField(e: Entry) {
    && Token(e.name)
    && GoodValue(e.value)
  }

  predicate GoodFields(es: seq<Entry>) {
    forall i :: 0 <= i < |es| ==> GoodField(es[i])
  }

  lemma TokenFree(s: string, c: char)
    requires Token(s) && !TokenChar(c)
    ensures Free(s, c)
  {
  }

  lemma MethodIsToken(t: RequestType)
    ensures Token(MethodName(t))
  {
  }

  lemma FreeConcat(a: string, b: string, c: char)
    requires Free(a, c) && Free(b, c)
    ensures Free(a + b, c)
  {
  }

  lemma TakeFirstLine(line: string, rest: string)
    requires Free(line, '\r')
    ensures TakeLine(line + CRLF + rest) == Some((line, rest))
  {
    FindAfter(line, CRLF, rest);
    var s := line + CRLF + rest;
    assert s[..|line|] == line;
    assert s[|line| + 2..] == rest;
  }

  /** A printed request line reads back exactly when its resource is a well-formed target. */
  lemma RequestLineBack(name: string, resource: string)
    requires Token(name)
    ensures ParseRequestLine(name + " " + resource + " HTTP/1.1")
            == if GoodTarget(resource) then Some((name, resource, "HTTP/1.1")) else None
  {
    var line := name + " " + resource + " HTTP/1.1";
    if GoodTarget(resource) {
      GoodLineBack(name, resource);
    } else if ParseRequestLine(line).Some? {
      var (m, t, v) := ParseRequestLine(line).value;
      ReadLine(line);
      SameParts(name, resource, m, t, v);
    }
  }

  lemma GoodLineBack(name: string, resource: string)
    requires Token(name) && GoodTarget(resource)
    ensures ParseRequestLine(name + " " + resource + " HTTP/1.1") == Some((name, resource, "HTTP/1.1"))
  {
    var version := "HTTP/1.1";
    var ps := [name, resource, version];
    assert Pieces(Glue(ps, SP), SP) == ps by {
      TokenFree(name, ' ');
      PiecesOfGlue(ps, ' ');
    }
    assert NoLineBreak(resource) && resource != "";
    hide Pieces, Glue, Token, GoodTarget, NoLineBreak;
    GlueThree(name, resource, version);
    VersionText();
  }

  lemma VersionText()
    ensures Version("HTTP/1.1") && " " + "HTTP/1.1" == " HTTP/1.1"
  {
  }

  /** What the reader makes of a line is well-formed and is the line. */
  lemma ReadLine(line: string)
    requires ParseRequestLine(line).Some?
    ensures var (m, t, v) := ParseRequestLine(line).value;
            Token(m) && GoodTarget(t) && Version(v) && line == m + " " + t + (" " + v)
  {
    var ps := Pieces(line, SP);
    GluePieces(line, SP);
    PiecesAreFree(line, ' ');
    hide Pieces;
    assert ps == [ps[0], ps[1], ps[2]];
    GlueThree(ps[0], ps[1], ps[2]);
  }

  /** A line has one reading: what is before its first space, the last eight bytes, and the rest. */
  lemma SameParts(name: string, resource: string, m: string, t: string, v: string)
    requires Token(name) && Token(m) && |v| == 8
    requires name + " " + resource + " HTTP/1.1" == m + " " + t + (" " + v)
    ensures m == name && t == resource
  {
    TokenFree(name, ' ');
    TokenFree(m, ' ');
    var left := name + " " + resource;
    var right := m + " " + t;
    assert left + " HTTP/1.1" == right + (" " + v);
    assert left == (left + " HTTP/1.1")[..|left|] == (right + (" " + v))[..|right|] == right;
    FindAfter(name, SP, resource);
    FindAfter(m, SP, t);
    assert m == right[..|m|] == left[..|name|] == name;
    assert t == right[|m| + 1..] == left[|name| + 1..] == resource;
  }

  lemma GlueThree(a: string, b: string, c: string)
    ensures Glue([a, b, c], SP) == a + " " + b + (" " + c)
  {
    GlueCons(b, [c], SP);
    GlueCons(a, [b] + [c], SP);
    assert [a, b, c] == [a] + ([b] + [c]);
  }

  lemma FieldBack(e: Entry)
    requires GoodField(e)
    ensures ParseField(e.name + ": " + e.value) == Some(e)
  {
    TokenFree(e.name, ':');
    TrimmedBack(e.value);
    hide Token, NoLineBreak, TrimLeft, TrimRight, Blank, Find;
    FindAfter(e.name, COLON, SP + e.value);
    CutLine(e.name, e.value);
  }

  lemma CutLine(name: string, value: string)
    ensures var line := name + ": " + value;
            && line == name + COLON + (SP + value)
            && line[..|name|] == name && line[|name| + 1..] == SP + value
  {
    var line := name + ": " + value;
    assert ": " == COLON + SP;
    assert line == name + COLON + (SP + value);
  }

  lemma TrimmedBack(value: string)
    requires value == "" || (!Blank(value[0]) && !Blank(value[|value| - 1]))
    ensures TrimRight(TrimLeft(SP + value)) == value
  {
    assert (SP + value)[1..] == value;
    assert TrimLeft(SP + value) == TrimLeft((SP + value)[1..]);
  }

  lemma FieldStep(e: Entry, tail: string, es: seq<Entry>, body: string)
    requires GoodField(e) && ParseFields(tail) == Some((es, body))
    ensures ParseFields(HeaderLine(e) + tail) == Some(([e] + es, body))
  {
    var line := e.name + ": " + e.value;
    TokenFree(e.name, '\r');
    FreeConcat(e.name, ": ", '\r');
    FreeConcat(e.name + ": ", e.value, '\r');
    TakeFirstLine(line, tail);
    FieldBack(e);
  }

  lemma FirstHeaderLine(es: seq<Entry>, tail: string)
    requires es != []
    ensures HeaderLines(es) + tail == HeaderLine(es[0]) + (HeaderLines(es[1..]) + tail)
  {
    hide HeaderLine;
  }

  lemma NoFieldsBack(body: string)
    ensures ParseFields(HeaderLines([]) + (CRLF + body)) == Some(([], body))
  {
    TakeFirstLine("", body);
    assert "" + CRLF + body == HeaderLines([]) + (CRLF + body);
  }

  lemma {:induction false} FieldsBack(es: seq<Entry>, body: string)
    requires GoodFields(es)
    ensures ParseFields(HeaderLines(es) + (CRLF + body)) == Some((es, body))
    decreases |es|
  {
    hide ParseFields, HeaderLines, HeaderLine, GoodField, CRLF;
    if es == [] {
      NoFieldsBack(body);
    } else {
      FieldsBack(es[1..], body);
      FieldStep(es[0], HeaderLines(es[1..]) + (CRLF + body), es[1..], body);
      FirstHeaderLine(es, CRLF + body);
      assert [es[0]] + es[1..] == es;
    }
  }

  lemma {:induction false} TrimmedEnds(s: string)
    ensures var v := TrimRight(TrimLeft(s));
            v == "" || (!Blank(v[0]) && !Blank(v[|v| - 1]))
  {
    LeftTrimmed(s);
    RightTrimmed(TrimLeft(s));
  }

  lemma {:induction false} LeftTrimmed(s: string)
    ensures TrimLeft(s) == "" || !Blank(TrimLeft(s)[0])
  {
    if s != "" && Blank(s[0]) { LeftTrimmed(s[1..]); }
  }

  lemma {:induction false} RightTrimmed(s: string)
    ensures var v := TrimRight(s); v <= s && (v == "" || !Blank(v[|v| - 1]))
  {
    if s != "" && Blank(s[|s| - 1]) { RightTrimmed(s[..|s| - 1]); }
  }

  /** Whatever header fields the reader yields are well-formed. */
  lemma {:induction false} ReadFields(s: string)
    requires ParseFields(s).Some?
    ensures GoodFields(ParseFields(s).value.0)
    decreases |s|
  {
    var (line, rest) := TakeLine(s).value;
    if line != "" {
      ReadFields(rest);
      TrimmedEnds(line[Find(line, COLON) + 1..]);
      assert GoodField(ParseField(line).value);
    }
  }

  /** Whatever message the reader yields is well-formed. */
  lemma ReadMessage(s: string)
    requires ParseMessage(s).Some?
    ensures var m := ParseMessage(s).value; GoodTarget(m.target) && GoodFields(m.fields)
  {
    var (line, rest) := TakeLine(s).value;
    ReadLine(line);
    ReadFields(rest);
    hide TakeLine, ParseRequestLine, ParseFields, GoodTarget, GoodFields;
  }

  /**
   A printed request followed by any body reads back as its method, its resource, its headers
   in slot order, and that body, exactly when the resource is a well-formed target and the
   headers are well-formed fields.
   */
  lemma {:induction false} PrintThenParse(t: RequestType, resource: string, es: seq<Entry>, body: string)
    ensures ParseMessage(RequestText(t, resource, es) + body)
            == Some(Message(MethodName(t), resource, "HTTP/1.1", es, body))
            <==> GoodTarget(resource) && GoodFields(es)
  {
    hide *;
    if GoodTarget(resource) && GoodFields(es) {
      WellFormedBack(t, resource, es, body);
    } else if ParseMessage(RequestText(t, resource, es) + body).Some? {
      ReadMessage(RequestText(t, resource, es) + body);
    }
  }

  lemma {:induction false} WellFormedBack(t: RequestType, resource: string, es: seq<Entry>, body: string)
    requires GoodTarget(resource) && GoodFields(es)
    ensures ParseMessage(RequestText(t, resource, es) + body)
            == Some(Message(MethodName(t), resource, "HTTP/1.1", es, body))
  {
    var name := MethodName(t);
    var line := name + " " + resource + " HTTP/1.1";
    var rest := HeaderLines(es) + (CRLF + body);
    assert Free(resource, '\r');
    hide *;
    MethodIsToken(t);
    RequestLineBack(name, resource);
    FieldsBack(es, body);
    TakeRequestLine(name, resource, rest);
    SameText(t, resource, es, body);
    ParseParts(line, rest, name, resource, "HTTP/1.1", es, body);
  }

  /**
   A resource without line breaks that is no target, the empty one of a URI without a path
   among them, makes the printed request unreadable whatever its headers and body are.
   */
  lemma BadTargetUnreadable(t: RequestType, resource: string, es: seq<Entry>, body: string)
    requires NoLineBreak(resource) && !GoodTarget(resource)
    ensures ParseMessage(RequestText(t, resource, es) + body) == None
  {
    var name := MethodName(t);
    var line := name + " " + resource + " HTTP/1.1";
    var rest := HeaderLines(es) + (CRLF + body);
    MethodIsToken(t);
    RequestLineBack(name, resource);
    TakeRequestLine(name, resource, rest);
    SameText(t, resource, es, body);
    hide MethodName, HeaderLines, TakeLine, ParseRequestLine, ParseFields, RequestText;
    assert TakeLine(line + CRLF + rest) == Some((line, rest)) && ParseRequestLine(line) == None;
  }

  lemma TakeRequestLine(name: string, resource: string, rest: string)
    requires Token(name) && Free(resource, '\r')
    ensures TakeLine(name + " " + resource + " HTTP/1.1" + CRLF + rest)
            == Some((name + " " + resource + " HTTP/1.1", rest))
  {
    TokenFree(name, '\r');
    hide Token;
    FreeConcat(name, " ", '\r');
    FreeConcat(name + " ", resource, '\r');
    FreeConcat(name + " " + resource, " HTTP/1.1", '\r');
    TakeFirstLine(name + " " + resource + " HTTP/1.1", rest);
  }

  lemma ParseParts(line: string, rest: string, m: string, t: string, v: string, es: seq<Entry>, body: string)
    requires TakeLine(line + CRLF + rest) == Some((line, rest))
    requires ParseRequestLine(line) == Some((m, t, v)) && ParseFields(rest) == Some((es, body))
    ensures ParseMessage(line + CRLF + rest) == Some(Message(m, t, v, es, body))
  {
    hide TakeLine, ParseRequestLine, ParseFields;
  }

  lemma SameText(t: RequestType, resource: string, es: seq<Entry>, body: string)
    ensures RequestText(t, resource, es) + body
            == MethodName(t) + " " + resource + " HTTP/1.1" + CRLF + (HeaderLines(es) + (CRLF + body))
  {
    hide MethodName, HeaderLines;
  }
}
