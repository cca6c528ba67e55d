/** What a new request says, spelled out, and what each request type is called. */
module HttpNewRequest {
  import opened Seqs
  import opened CStrings
  import opened HeaderTable
  import opened HttpHeader
  import opened HttpRequest
  import opened HttpMessage

  /** Every well-formed request of this type reads back with this method. */
  ghost predicate ReadsAs(t: RequestType, name: string) {
    forall resource, es, body :: GoodTarget(resource) && GoodFields(es) ==>
      ParseMessage(RequestText(t, resource, es) + body) == Some(Message(name, resource, "HTTP/1.1", es, body))
  }

  lemma ReadsAsNamed(t: RequestType)
    ensures ReadsAs(t, MethodName(t))
  {
    forall resource, es, body | GoodTarget(resource) && GoodFields(es)
      ensures ParseMessage(RequestText(t, resource, es) + body)
              == Some(Message(MethodName(t), resource, "HTTP/1.1", es, body))
    {
      WellFormedBack(t, resource, es, body);
    }
    hide MethodName, ParseMessage, RequestText, GoodTarget, GoodFields;
  }

  /** The names of the fifteen request types. */
  lemma MethodsRead()
    ensures ReadsAs(TypeGet, "GET") && ReadsAs(TypeOptions, "OPTIONS") && ReadsAs(TypeHead, "HEAD")
    ensures ReadsAs(TypePost, "POST") && ReadsAs(TypePut, "PUT") && ReadsAs(TypeDelete, "DELETE")
    ensures ReadsAs(TypeTrace, "TRACE") && ReadsAs(TypeConnect, "CONNECT")
    ensures ReadsAs(TypePropFind, "PROPFIND") && ReadsAs(TypePropPatch, "PROPPATCH")
    ensures ReadsAs(TypeMkCol, "MKCOL") && ReadsAs(TypeCopy, "COPY") && ReadsAs(TypeMove, "MOVE")
    ensures ReadsAs(TypeLock, "LOCK") && ReadsAs(TypeUnlock, "UNLOCK")
  {
    hide ReadsAs;
    ReadsAsNamed(TypeGet);
    ReadsAsNamed(TypeOptions);
    ReadsAsNamed(TypeHead);
    ReadsAsNamed(TypePost);
    ReadsAsNamed(TypePut);
    ReadsAsNamed(TypeDelete);
    ReadsAsNamed(TypeTrace);
    ReadsAsNamed(TypeConnect);
    ReadsAsNamed(TypePropFind);
    ReadsAsNamed(TypePropPatch);
    ReadsAsNamed(TypeMkCol);
    ReadsAsNamed(TypeCopy);
    ReadsAsNamed(TypeMove);
    ReadsAsNamed(TypeLock);
    ReadsAsNamed(TypeUnlock);
  }

  /** A table of known names that spells this one in no other way. */
  predicate OneSpelling(known: seq<string>, name: string) {
    forall i :: 0 <= i < |known| && SameIgnoringCase(known[i], name) ==> known[i] == name
  }

  predicate UsualSpelling(known: seq<string>) {
    && OneSpelling(known, "Host") && OneSpelling(known, "Accept")
    && OneSpelling(known, "User-Agent") && OneSpelling(known, "Accept-Encoding")
  }

  lemma SpelledSo(known: seq<string>, name: string)
    requires OneSpelling(known, name)
    ensures Spelling(known, name) == name
  {
  }

  /** The header of this name, unless there is nothing to say. */
  function FieldOf(name: string, value: string): seq<Entry> {
    if value == "" then [] else [Entry(name, value)]
  }

  /** The headers of a new request as they are printed. */
  function NewFields(agent: string, host: string): seq<Entry> {
    FieldOf("Host", host) + [Entry("Accept", "*/*")] + FieldOf("User-Agent", agent)
    + [Entry("Accept-Encoding", "identity")]
  }

  lemma PrintedCons(e: Entry, es: seq<Entry>)
    requires e.name != ""
    ensures Printed(Somes([e] + es)) == FieldOf(e.name, e.value) + Printed(Somes(es))
  {
    assert Somes([e] + es)[1..] == Somes(es);
  }

  lemma NewFieldsPrinted(known: seq<string>, agent: string, host: string)
    requires UsualSpelling(known)
    ensures Printed(Row(DefaultEntries(known, agent, host))) == NewFields(agent, host)
  {
    var a, b, c, d := Entry("Host", host), Entry("Accept", "*/*"), Entry("User-Agent", agent),
                      Entry("Accept-Encoding", "identity");
    SpelledSo(known, "Host");
    SpelledSo(known, "Accept");
    SpelledSo(known, "User-Agent");
    SpelledSo(known, "Accept-Encoding");
    assert DefaultEntries(known, agent, host) == [a, b, c, d];
    PrintedRow([a, b, c, d]);
    FourPrinted(a, b, c, d);
    hide Printed, Row, Somes;
  }

  lemma FourPrinted(a: Entry, b: Entry, c: Entry, d: Entry)
    requires a.name != "" && b.name != "" && c.name != "" && d.name != ""
    ensures Printed(Somes([a, b, c, d]))
            == FieldOf(a.name, a.value) + FieldOf(b.name, b.value) + FieldOf(c.name, c.value) + FieldOf(d.name, d.value)
  {
    assert Printed(Somes([])) == [];
    hide *;
    PrintedCons(d, []);
    PrintedCons(c, [d]);
    PrintedCons(b, [c, d]);
    PrintedCons(a, [b, c, d]);
    FourByOne(a, b, c, d);
    Regroup(FieldOf(a.name, a.value), FieldOf(b.name, b.value), FieldOf(c.name, c.value), FieldOf(d.name, d.value));
  }

  lemma FourByOne(a: Entry, b: Entry, c: Entry, d: Entry)
    ensures [a, b, c, d] == [a] + [b, c, d] && [b, c, d] == [b] + [c, d] && [c, d] == [c] + [d] && [d] == [d] + []
  {
  }

  lemma Regroup(a: seq<Entry>, b: seq<Entry>, c: seq<Entry>, d: seq<Entry>)
    ensures a + (b + (c + (d + []))) == a + b + c + d
  {
  }

  lemma NewFieldsGood(agent: string, host: string)
    ensures GoodFields(NewFields(agent, host)) <==> GoodValue(host) && GoodValue(agent)
  {
    assert Token("Host") && Token("Accept") && Token("User-Agent") && Token("Accept-Encoding");
    assert GoodValue("") && GoodValue("*/*") && GoodValue("identity");
    hide Token, GoodValue;
    var es := NewFields(agent, host);
    assert host != "" ==> es[0] == Entry("Host", host);
    assert agent != "" ==> es[|es| - 2] == Entry("User-Agent", agent);
  }

  /**
   A request as the program makes it. It is refused exactly by its lengths; else its text
   reads back as a GET of the resource with up to four headers, those with something to say,
   exactly when resource, host and agent are well-formed.
   */
  method NewRequestText(known: seq<Str>, agent: string, host: string, resource: string)
    returns (text: array?<char>, ghost len: nat)
    requires UsualSpelling(TextsOf(known))
    ensures var spare := (if host == "" then 8 else 0) + (if agent == "" then 14 else 0);
            text == null
            <==> if |resource| <= 992 then |resource| + |host| + |agent| > 935 + spare
                 else |host| + |agent| > 967 + spare
    ensures text != null ==>
              && len < text.Length && text[len] == NUL
              && (ParseMessage(text[..len]) == Some(Message("GET", resource, "HTTP/1.1", NewFields(agent, host), ""))
                  <==> GoodTarget(resource) && GoodValue(host) && GoodValue(agent))
  {
    hide *;
    var request := new HttpRequest(known, agent, host, resource);
    text := ShapedText(request);
    DefaultRequestRefused(TextsOf(known), agent, host, resource);
    NewFieldsPrinted(TextsOf(known), agent, host);
    ghost var whole := RequestText(TypeGet, resource, NewFields(agent, host));
    len := |whole|;
    PrintThenParse(TypeGet, resource, NewFields(agent, host), "");
    NewFieldsGood(agent, host);
    assert whole + "" == whole;
    GetIsCalledGet();
  }

  lemma GetIsCalledGet()
    ensures MethodName(TypeGet) == "GET"
  {
  }

  method ShapedText(request: HttpRequest) returns (text: array?<char>)
    requires request.headers.Valid()
    ensures var es := Printed(request.headers.Contents());
            && (text == null <==> DoesNotFit(request.requestType, request.resource, es))
            && (text != null ==>
                  var whole := RequestText(request.requestType, request.resource, es);
                  |whole| < text.Length && text[..|whole|] == whole && text[|whole|] == NUL)
  {
    text := request.GetString();
  }
}
