/** The reply buffer, the reply to one command, and serving one request in place. */
module Service {
  import opened Seqs
  import opened CStrings
  import opened WorkQueue
  import opened DownloadManager
  import opened Command

  // ----- The buffer -----

  /** A buffer that holds a NUL-terminated text and nothing but NULs after it. */
  predicate ZeroFilled(buf: seq<char>) {
    && |buf| == COMMANDLINE_BUF
    && StrLen(buf) < COMMANDLINE_BUF
    && forall i :: StrLen(buf) <= i < COMMANDLINE_BUF ==> buf[i] == NUL
  }

  /** The zero-filled buffer that holds a text. */
  function Filled(text: string): (buf: seq<char>)
    requires |text| < COMMANDLINE_BUF
    ensures |buf| == COMMANDLINE_BUF
  {
    text + Zeros(COMMANDLINE_BUF - |text|)
  }

  lemma FilledHolds(text: string)
    requires |text| < COMMANDLINE_BUF && NoNul(text)
    ensures Text(Filled(text)) == text && ZeroFilled(Filled(text))
  {
    var buf := Filled(text);
    assert buf[..|text|] == text;
    StrLenIs(buf, |text|);
  }

  lemma ZeroFilledIs(buf: seq<char>)
    requires ZeroFilled(buf)
    ensures buf == Filled(Text(buf))
  {
  }

  datatype Message = Say(text: string) | Add(text: string)

  /** message_to_client: the text replaces whatever was there. */
  function Said(text: string): (buf: seq<char>)
    ensures |buf| == COMMANDLINE_BUF
  {
    Filled(Cut(text, COMMANDLINE_BUF - 1))
  }

  /** message_to_client_append: a line feed and the text, as far as they fit. */
  function Added(buf: seq<char>, text: string): (r: seq<char>)
    requires |buf| == COMMANDLINE_BUF
    ensures |r| == COMMANDLINE_BUF
  {
    var curLen := StrLen(buf);
    var min := Min(|text| + curLen + 1, COMMANDLINE_BUF - 1) - curLen;
    if min <= 0 then buf
    else buf[..curLen] + "\n" + text[..min - 1] + buf[curLen + min..]
  }

  function Apply(buf: seq<char>, m: Message): (r: seq<char>)
    requires |buf| == COMMANDLINE_BUF
    ensures |r| == COMMANDLINE_BUF
  {
    match m
    case Say(text) => Said(text)
    case Add(text) => Added(buf, text)
  }

  function ApplyAll(buf: seq<char>, ms: seq<Message>): (r: seq<char>)
    requires |buf| == COMMANDLINE_BUF
    ensures |r| == COMMANDLINE_BUF
    decreases |ms|
  {
    if ms == [] then buf else ApplyAll(Apply(buf, ms[0]), ms[1..])
  }

  lemma CutNoNul(text: string, n: nat)
    requires NoNul(text)
    ensures NoNul(Cut(text, n))
  {
  }

  lemma SaidHolds(text: string)
    requires NoNul(text)
    ensures Text(Said(text)) == Cut(text, 10239) && ZeroFilled(Said(text))
  {
    CutNoNul(text, COMMANDLINE_BUF - 1);
    FilledHolds(Cut(text, COMMANDLINE_BUF - 1));
  }

  /** On a zero-filled buffer an append yields the first bytes of old + line feed + text. */
  lemma AddedHolds(buf: seq<char>, text: string)
    requires ZeroFilled(buf) && NoNul(text)
    ensures Text(Added(buf, text)) == Cut(Text(buf) + "\n" + text, 10239)
    ensures ZeroFilled(Added(buf, text))
  {
    var before := Text(buf);
    var all := before + "\n" + text;
    var cut := Cut(all, COMMANDLINE_BUF - 1);
    var curLen := StrLen(buf);
    var min := |cut| - curLen;
    if min > 0 {
      assert cut == buf[..curLen] + "\n" + text[..min - 1];
      assert buf[curLen + min..] == Zeros(COMMANDLINE_BUF - |cut|);
      assert Added(buf, text) == Filled(cut);
    } else {
      assert cut == before;
      ZeroFilledIs(buf);
      assert Added(buf, text) == Filled(cut);
    }
    assert NoNul(all);
    CutNoNul(all, COMMANDLINE_BUF - 1);
    FilledHolds(cut);
  }

  lemma CutCut(a: string, b: string, n: nat)
    ensures Cut(Cut(a, n) + b, n) == Cut(a + b, n)
  {
  }

  // ----- The reply -----

  /** strcmp order. */
  predicate AtMost(a: string, b: string) {
    a == "" || (b != "" && (a[0] < b[0] || (a[0] == b[0] && AtMost(a[1..], b[1..]))))
  }

  predicate Ascending(xs: seq<string>) {
    forall i :: 0 < i < |xs| ==> AtMost(xs[i - 1], xs[i])
  }

  function Insert(x: string, xs: seq<string>): (r: seq<string>)
    ensures |r| == |xs| + 1
  {
    if xs == [] || AtMost(x, xs[0]) then [x] + xs else [xs[0]] + Insert(x, xs[1..])
  }

  /** g_list_sort by strcmp. */
  function Sort(xs: seq<string>): (r: seq<string>)
    ensures |r| == |xs|
  {
    if xs == [] then [] else Insert(xs[0], Sort(xs[1..]))
  }

  lemma {:induction false} AtMostTotal(a: string, b: string)
    ensures AtMost(a, b) || AtMost(b, a)
  {
    if a != "" && b != "" { AtMostTotal(a[1..], b[1..]); }
  }

  lemma HeadBefore(x: string, xs: seq<string>)
    requires Ascending(xs) && (xs != [] ==> AtMost(x, xs[0]))
    ensures Ascending([x] + xs)
  {
    hide AtMost;
  }

  lemma {:induction false} InsertSorts(x: string, xs: seq<string>)
    requires Ascending(xs)
    ensures Ascending(Insert(x, xs)) && multiset(Insert(x, xs)) == multiset(xs) + multiset{x}
    ensures Insert(x, xs)[0] == x || (xs != [] && Insert(x, xs)[0] == xs[0])
  {
    hide AtMost;
    if xs != [] && !AtMost(x, xs[0]) {
      AtMostTotal(x, xs[0]);
      InsertSorts(x, xs[1..]);
      HeadBefore(xs[0], Insert(x, xs[1..]));
      assert xs == [xs[0]] + xs[1..];
    } else if xs != [] {
      HeadBefore(x, xs);
    }
  }

  /** The sorted list is ascending and holds the same strings. */
  lemma {:induction false} SortSorts(xs: seq<string>)
    ensures Ascending(Sort(xs)) && multiset(Sort(xs)) == multiset(xs)
  {
    if xs != [] {
      SortSorts(xs[1..]);
      InsertSorts(xs[0], Sort(xs[1..]));
      assert xs == [xs[0]] + xs[1..];
    }
  }

  datatype Config = Config(help: string, version: string, schemas: seq<string>, analyse: string -> Option<Uri>)

  function TextsOf(uris: seq<Uri>): (r: seq<string>)
    ensures |r| == |uris| && forall i :: 0 <= i < |uris| ==> r[i] == uris[i].text
  {
    seq(|uris|, i requires 0 <= i < |uris| => uris[i].text)
  }

  function UnsupportedText(unsupported: seq<string>): string {
    "These URIs are not yet supported:\n" + Glue(Sort(unsupported), "\n") + "\n"
  }

  function SupportedText(uris: seq<Uri>): string {
    "These URIs are about to be added " + "to the download queue:\n" + Glue(TextsOf(uris), "\n") + "\n"
  }

  /** The messages sent for an outcome, in order. */
  function Messages(cfg: Config, o: Outcome): seq<Message> {
    match o
    case ShowHelp => [Say(cfg.help)]
    case ShowVersion => [Say(cfg.version)]
    case ListSchemas => if cfg.schemas == [] then [] else [Say(Glue(cfg.schemas, "\t"))]
    case Run(dir, hasUri, uris, unsupported) =>
      if !hasUri then [Say(cfg.help)]
      else
        (if unsupported != [] then [Say(UnsupportedText(unsupported))] else [])
        + (if uris != [] then [Add(SupportedText(uris))] else [])
  }

  /** The whole reply as it would read without the limit of the buffer. */
  function FullReply(cfg: Config, o: Outcome): string {
    match o
    case ShowHelp => cfg.help
    case ShowVersion => cfg.version
    case ListSchemas => Glue(cfg.schemas, "\t")
    case Run(dir, hasUri, uris, unsupported) =>
      if !hasUri then cfg.help
      else
        (if unsupported != [] then UnsupportedText(unsupported) else "")
        + (if uris != [] then "\n" + SupportedText(uris) else "")
  }

  /** What is handed to the downloader for an outcome. */
  function Submission(o: Outcome): Option<DownloadTask> {
    if o.Run? && o.hasUri && o.uris != [] then Some(DownloadTask(o.uris, o.dir)) else None
  }

  ghost predicate MessagesNoNul(cfg: Config, o: Outcome) {
    forall i :: 0 <= i < |Messages(cfg, o)| ==> NoNul(Messages(cfg, o)[i].text)
  }

  // ----- No reply contains a NUL -----

  predicate AllNoNul(ps: seq<string>) {
    forall i :: 0 <= i < |ps| ==> NoNul(ps[i])
  }

  /** The program's own texts and the texts of parsed URIs are C strings. */
  ghost predicate ConfigNoNul(cfg: Config) {
    && NoNul(cfg.help) && NoNul(cfg.version) && AllNoNul(cfg.schemas)
    && forall url :: cfg.analyse(url).Some? ==> NoNul(cfg.analyse(url).value.text)
  }

  lemma {:induction false} GlueNoNul(ps: seq<string>, sep: string)
    requires AllNoNul(ps) && NoNul(sep)
    ensures NoNul(Glue(ps, sep))
  {
    if |ps| > 1 { GlueNoNul(ps[1..], sep); }
  }

  lemma {:induction false} PiecesNoNul(s: string, sep: string)
    requires NoNul(s) && sep != ""
    ensures AllNoNul(Pieces(s, sep))
    decreases |s|
  {
    hide Find;
    var k := Find(s, sep);
    assert NoNul(s[..k]);
    if k < |s| {
      var rest := s[k + |sep|..];
      PiecesNoNul(rest, sep);
      assert Pieces(s, sep) == [s[..k]] + Pieces(rest, sep);
    } else {
      assert Pieces(s, sep) == [s];
    }
  }

  lemma {:induction false} InsertNoNul(x: string, xs: seq<string>)
    requires NoNul(x) && AllNoNul(xs)
    ensures AllNoNul(Insert(x, xs))
  {
    if xs != [] { InsertNoNul(x, xs[1..]); }
  }

  lemma {:induction false} SortNoNul(xs: seq<string>)
    requires AllNoNul(xs)
    ensures AllNoNul(Sort(xs))
  {
    if xs != [] {
      SortNoNul(xs[1..]);
      InsertNoNul(xs[0], Sort(xs[1..]));
    }
  }

  lemma {:induction false} GrammarNoNul(cfg: Config, args: seq<string>)
    requires ConfigNoNul(cfg) && AllNoNul(args)
    ensures var o := Grammar(args, cfg.analyse);
            o.Run? ==> AllNoNul(o.unsupported) && AllNoNul(TextsOf(o.uris))
  {
    if args != [] {
      GrammarNoNul(cfg, args[1..]);
      if |args| > 1 { GrammarNoNul(cfg, args[2..]); }
    }
  }

  lemma UnsupportedNoNul(unsupported: seq<string>)
    requires AllNoNul(unsupported)
    ensures NoNul(UnsupportedText(unsupported))
  {
    SortNoNul(unsupported);
    GlueNoNul(Sort(unsupported), "\n");
    hide Sort, Glue, AllNoNul;
  }

  lemma SupportedNoNul(uris: seq<Uri>)
    requires AllNoNul(TextsOf(uris))
    ensures NoNul(SupportedText(uris))
  {
    GlueNoNul(TextsOf(uris), "\n");
    hide Glue, AllNoNul;
  }

  lemma RepliesNoNul(cfg: Config, args: seq<string>)
    requires ConfigNoNul(cfg) && AllNoNul(args)
    ensures MessagesNoNul(cfg, Grammar(args, cfg.analyse))
  {
    var o := Grammar(args, cfg.analyse);
    GrammarNoNul(cfg, args);
    hide Grammar, Glue, UnsupportedText, SupportedText;
    GlueNoNul(cfg.schemas, "\t");
    if o.Run? {
      UnsupportedNoNul(o.unsupported);
      SupportedNoNul(o.uris);
    }
  }

  lemma Nothing()
    ensures Text(Zeros(COMMANDLINE_BUF)) == "" && ZeroFilled(Zeros(COMMANDLINE_BUF))
  {
    StrLenIs(Zeros(COMMANDLINE_BUF), 0);
  }

  lemma SayOnly(text: string)
    requires NoNul(text)
    ensures var buf := ApplyAll(Zeros(COMMANDLINE_BUF), [Say(text)]);
            ZeroFilled(buf) && Text(buf) == Cut(text, COMMANDLINE_BUF - 1)
  {
    SaidHolds(text);
    assert [Say(text)][1..] == [];
  }

  lemma AddOnly(text: string)
    requires NoNul(text)
    ensures var buf := ApplyAll(Zeros(COMMANDLINE_BUF), [Add(text)]);
            ZeroFilled(buf) && Text(buf) == Cut("\n" + text, COMMANDLINE_BUF - 1)
  {
    Nothing();
    AddedHolds(Zeros(COMMANDLINE_BUF), text);
    assert "" + "\n" + text == "\n" + text;
    assert [Add(text)][1..] == [];
  }

  lemma SayThenAdd(first: string, second: string)
    requires NoNul(first) && NoNul(second)
    ensures var buf := ApplyAll(Zeros(COMMANDLINE_BUF), [Say(first), Add(second)]);
            ZeroFilled(buf) && Text(buf) == Cut(first + ("\n" + second), COMMANDLINE_BUF - 1)
  {
    var ms := [Say(first), Add(second)];
    assert ms[1..] == [Add(second)];
    assert [Add(second)][1..] == [];
    assert ApplyAll(Said(first), [Add(second)]) == Added(Said(first), second);
    SaidHolds(first);
    AddedHolds(Said(first), second);
    hide ApplyAll, Said, Added, ZeroFilled;
    var cut := Cut(first, COMMANDLINE_BUF - 1);
    assert cut + "\n" + second == cut + ("\n" + second);
    CutCut(first, "\n" + second, COMMANDLINE_BUF - 1);
  }

  /** Starting from zeros, the messages leave the first bytes of the whole reply. */
  lemma ReplyIsCut(cfg: Config, o: Outcome)
    requires MessagesNoNul(cfg, o)
    ensures var buf := ApplyAll(Zeros(COMMANDLINE_BUF), Messages(cfg, o));
            ZeroFilled(buf) && Text(buf) == Cut(FullReply(cfg, o), COMMANDLINE_BUF - 1)
  {
    var ms := Messages(cfg, o);
    Nothing();
    hide ApplyAll, ZeroFilled, Text, UnsupportedText, SupportedText, Glue, Zeros;
    if ms == [] {
      NothingSaid(cfg, o);
    } else if |ms| == 2 {
      assert NoNul(ms[0].text) && NoNul(ms[1].text);
      assert ms == [Say(UnsupportedText(o.unsupported)), Add(SupportedText(o.uris))];
      SayThenAdd(UnsupportedText(o.unsupported), SupportedText(o.uris));
    } else {
      assert NoNul(ms[0].text) && ms == [ms[0]];
      match ms[0]
      case Say(text) =>
        SayOnly(text);
        assert FullReply(cfg, o) == text + "" || FullReply(cfg, o) == text;
      case Add(text) =>
        AddOnly(text);
        assert FullReply(cfg, o) == "" + ("\n" + text);
    }
  }

  lemma NothingSaid(cfg: Config, o: Outcome)
    requires Messages(cfg, o) == []
    ensures var buf := ApplyAll(Zeros(COMMANDLINE_BUF), Messages(cfg, o));
            ZeroFilled(buf) && Text(buf) == Cut(FullReply(cfg, o), COMMANDLINE_BUF - 1)
  {
  }

  // ----- The buffers in place -----

  /** memcpy of COMMANDLINE_BUF - 1 bytes from a command, its NUL, and whatever lies behind. */
  function Written(buf: seq<char>, cmd: string, behind: seq<char>): (r: seq<char>)
    requires |buf| == COMMANDLINE_BUF && |cmd| + 1 + |behind| >= COMMANDLINE_BUF - 1
    ensures |r| == COMMANDLINE_BUF
  {
    (cmd + [NUL] + behind)[..COMMANDLINE_BUF - 1] + buf[COMMANDLINE_BUF - 1..]
  }

  /** As long as the last byte stays zero, the buffer reads as the command cut to fit. */
  lemma WrittenReads(buf: seq<char>, cmd: string, behind: seq<char>)
    requires |buf| == COMMANDLINE_BUF && |cmd| + 1 + |behind| >= COMMANDLINE_BUF - 1
    requires buf[COMMANDLINE_BUF - 1] == NUL && NoNul(cmd)
    ensures Text(Written(buf, cmd, behind)) == Cut(cmd, 10239)
    ensures Written(buf, cmd, behind)[COMMANDLINE_BUF - 1] == NUL
  {
    var r := Written(buf, cmd, behind);
    var n := |Cut(cmd, COMMANDLINE_BUF - 1)|;
    assert r[..n] == Cut(cmd, COMMANDLINE_BUF - 1);
    CutNoNul(cmd, COMMANDLINE_BUF - 1);
    StrLenIs(r, n);
  }

  /** Applying the messages of a run with URIs: first the refused ones, then the accepted. */
  lemma ApplyRun(cfg: Config, o: Outcome, buf: seq<char>)
    requires o.Run? && o.hasUri && |buf| == COMMANDLINE_BUF
    ensures var first := if o.unsupported != [] then Said(UnsupportedText(o.unsupported)) else buf;
            ApplyAll(buf, Messages(cfg, o))
            == if o.uris != [] then Added(first, SupportedText(o.uris)) else first
  {
    hide UnsupportedText, SupportedText, Said, Added;
    var first := if o.unsupported != [] then Said(UnsupportedText(o.unsupported)) else buf;
    var add := Add(SupportedText(o.uris));
    assert ApplyAll(first, [add]) == Added(first, add.text) by {
      assert [add][1..] == [];
    }
    if o.unsupported != [] {
      var say := Say(UnsupportedText(o.unsupported));
      assert ([say] + [add])[1..] == [add] && ([say] + [])[1..] == [];
    } else {
      assert [] + [add] == [add];
    }
  }

  lemma SaidFits(text: string)
    ensures StrLen(Said(text)) < COMMANDLINE_BUF
  {
    assert Said(text)[COMMANDLINE_BUF - 1] == NUL;
  }

  /** A buffer with a text copied over it at an offset. */
  function Patched(buf: seq<char>, off: nat, text: string): (r: seq<char>)
    requires off + |text| <= |buf|
    ensures |r| == |buf|
  {
    buf[..off] + text + buf[off + |text|..]
  }

  lemma AddedIs(buf: seq<char>, text: string)
    requires |buf| == COMMANDLINE_BUF
    ensures var curLen := StrLen(buf);
            var n := Min(|text| + curLen + 1, COMMANDLINE_BUF - 1) - curLen - 1;
            && (n < 0 ==> Added(buf, text) == buf)
            && (n >= 0 ==> n <= |text| && curLen + 1 + n <= |buf|
                           && Added(buf, text) == buf[..curLen] + "\n" + text[..n] + buf[curLen + 1 + n..])
  {
    hide StrLen;
  }

  /** An append copies a line feed and then what fits of the text. */
  lemma AddedByCopies(buf: seq<char>, text: string)
    requires |buf| == COMMANDLINE_BUF
    ensures var curLen := StrLen(buf);
            var n := Min(|text| + curLen + 1, COMMANDLINE_BUF - 1) - curLen - 1;
            Added(buf, text)
            == if n < 0 then buf else Patched(Patched(buf, curLen, "\n"), curLen + 1, text[..n])
  {
    hide StrLen, Patched, Added, Min;
    AddedIs(buf, text);
    var curLen := StrLen(buf);
    var n := Min(|text| + curLen + 1, COMMANDLINE_BUF - 1) - curLen - 1;
    if n >= 0 {
      PatchedTwice(buf, curLen, text, n);
    }
  }

  lemma PatchedTwice(buf: seq<char>, off: nat, text: string, n: nat)
    requires n <= |text| && off + 1 + n <= |buf|
    ensures Patched(Patched(buf, off, "\n"), off + 1, text[..n])
            == buf[..off] + "\n" + text[..n] + buf[off + 1 + n..]
  {
    var once := Patched(buf, off, "\n");
    assert once[..off + 1] == buf[..off] + "\n";
    assert once[off + 1 + n..] == buf[off + 1 + n..];
  }

  class Channel {
    const clientBuf: array<char>
    const serverBuf: array<char>

    ghost predicate Valid() {
      clientBuf.Length == serverBuf.Length == COMMANDLINE_BUF && clientBuf != serverBuf
    }

    /** Fresh shared memory is zero. */
    constructor ()
      ensures Valid() && fresh(clientBuf) && fresh(serverBuf)
      ensures clientBuf[..] == Zeros(COMMANDLINE_BUF) && serverBuf[..] == Zeros(COMMANDLINE_BUF)
    {
      clientBuf := new char[COMMANDLINE_BUF](_ => NUL);
      serverBuf := new char[COMMANDLINE_BUF](_ => NUL);
    }

    method Clear(buf: array<char>)
      requires buf.Length == COMMANDLINE_BUF
      modifies buf
      ensures buf[..] == Zeros(COMMANDLINE_BUF)
    {
      forall i | 0 <= i < COMMANDLINE_BUF {
        buf[i] := NUL;
      }
    }

    /** memcpy(buf + off, text, n). */
    method CopyInto(buf: array<char>, off: nat, text: string, n: nat)
      requires n <= |text| && off + n <= buf.Length
      modifies buf
      ensures buf[..] == Patched(old(buf[..]), off, text[..n])
    {
      forall i | 0 <= i < n {
        buf[off + i] := text[i];
      }
      assert buf[..off] == old(buf[..off]) && buf[off..off + n] == text[..n] && buf[off + n..] == old(buf[off + n..]);
      assert buf[..] == buf[..off] + buf[off..off + n] + buf[off + n..];
    }

    /** Line 95. */
    method WriteCommand(cmd: string, behind: seq<char>)
      requires Valid() && |cmd| + 1 + |behind| >= COMMANDLINE_BUF - 1
      modifies clientBuf
      ensures clientBuf[..] == Written(old(clientBuf[..]), cmd, behind)
    {
      CopyInto(clientBuf, 0, cmd + [NUL] + behind, COMMANDLINE_BUF - 1);
    }

    /** Lines 100-103. */
    method PrintReply() returns (printed: string)
      requires Valid()
      modifies clientBuf, serverBuf
      ensures printed == old(Text(serverBuf[..]))
      ensures clientBuf[..] == Zeros(COMMANDLINE_BUF) && serverBuf[..] == Zeros(COMMANDLINE_BUF)
    {
      printed := Text(serverBuf[..]);
      Clear(clientBuf);
      Clear(serverBuf);
    }

    /** Lines 425-433. */
    method MessageToClient(msg: string)
      requires Valid()
      modifies clientBuf, serverBuf
      ensures serverBuf[..] == Said(msg)
      ensures clientBuf[..] == Zeros(COMMANDLINE_BUF)
    {
      var min := Min(|msg|, COMMANDLINE_BUF - 1);
      Clear(clientBuf);
      Clear(serverBuf);
      CopyInto(serverBuf, 0, msg, min);
    }

    /** Lines 435-447. */
    method MessageToClientAppend(msg: string)
      requires Valid()
      requires StrLen(serverBuf[..]) < COMMANDLINE_BUF
      modifies serverBuf
      ensures serverBuf[..] == Added(old(serverBuf[..]), msg)
    {
      hide Added, Patched, StrLen;
      AddedByCopies(serverBuf[..], msg);
      var curLen := StrLen(serverBuf[..]);
      var min := Min(|msg| + curLen + 1, COMMANDLINE_BUF - 1);
      min := min - curLen;
      if min <= 0 {
        return;
      }
      assert "\n"[..1] == "\n";
      CopyInto(serverBuf, curLen, "\n", 1);
      CopyInto(serverBuf, curLen + 1, msg, min - 1);
    }

    /** Lines 367-413: reply to the client and start the downloads. */
    method Answer(cfg: Config, o: Outcome, manager: Manager, pool: Pool<Downloader>)
      requires Valid() && StrLen(serverBuf[..]) < COMMANDLINE_BUF
      requires pool.Valid() && {manager, clientBuf, serverBuf} !! pool.Repr
      modifies clientBuf, serverBuf, pool.Repr
      ensures pool.Valid() && fresh(pool.Repr - old(pool.Repr))
      ensures serverBuf[..] == ApplyAll(old(serverBuf[..]), Messages(cfg, o))
      ensures pool.Contents() == old(pool.Contents()) + Submitted(manager.schemaAndDownloader, o)
    {
      hide Pool.Valid, Pool.Contents, Jobs, Glue, Sort, Said, Added, UnsupportedText, SupportedText;
      ghost var was := serverBuf[..];
      match o
      case ShowHelp =>
        MessageToClient(cfg.help);
      case ShowVersion =>
        MessageToClient(cfg.version);
      case ListSchemas =>
        if cfg.schemas != [] {
          MessageToClient(Glue(cfg.schemas, "\t"));
        }
      case Run(dir, hasUri, uris, unsupported) =>
        if !hasUri {
          MessageToClient(cfg.help);
        } else {
          ApplyRun(cfg, o, was);
          if unsupported != [] {
            AnswerRefused(unsupported);
          }
          if uris != [] {
            manager.Download(DownloadTask(uris, dir), pool);
            AnswerAccepted(uris);
          }
        }
    }

    /** Lines 372-386. */
    method AnswerRefused(unsupported: seq<string>)
      requires Valid()
      modifies clientBuf, serverBuf
      ensures serverBuf[..] == Said(UnsupportedText(unsupported)) && StrLen(serverBuf[..]) < COMMANDLINE_BUF
    {
      var turi := GlueLines(Sort(unsupported));
      MessageToClient("These URIs are not yet supported:\n" + turi + "\n");
      SaidFits(UnsupportedText(unsupported));
    }

    /** Lines 397-410. */
    method AnswerAccepted(uris: seq<Uri>)
      requires Valid() && StrLen(serverBuf[..]) < COMMANDLINE_BUF
      modifies serverBuf
      ensures serverBuf[..] == Added(old(serverBuf[..]), SupportedText(uris))
    {
      hide Added;
      var turi := GlueLines(TextsOf(uris));
      MessageToClientAppend("These URIs are about to be added " + "to the download queue:\n" + turi + "\n");
    }

    /** Lines 322-417: serve the request in the client's buffer. */
    method ServeRequest(cfg: Config, manager: Manager, pool: Pool<Downloader>) returns (o: Outcome)
      requires Valid() && StrLen(serverBuf[..]) < COMMANDLINE_BUF
      requires pool.Valid() && {manager, clientBuf, serverBuf} !! pool.Repr
      modifies clientBuf, serverBuf, pool.Repr
      ensures pool.Valid() && fresh(pool.Repr - old(pool.Repr))
      ensures o == Grammar(Split(old(Text(clientBuf[..])), "|"), cfg.analyse)
      ensures serverBuf[..] == ApplyAll(old(serverBuf[..]), Messages(cfg, o))
      ensures pool.Contents() == old(pool.Contents()) + Submitted(manager.schemaAndDownloader, o)
    {
      var arr := Split(Text(clientBuf[..]), "|");
      o := ParseOptions(arr, cfg.analyse);
      Answer(cfg, o, manager, pool);
    }

    /** The loops on lines 374-381 and 398-406 glue a list with line feeds. */
    method GlueLines(list: seq<string>) returns (turi: string)
      ensures turi == Glue(list, "\n")
    {
      turi := "";
      var first := true;
      var i := 0;
      while i < |list|
        invariant 0 <= i <= |list| && (first <==> i == 0)
        invariant turi == Glue(list[..i], "\n")
      {
        GlueNext(list, i);
        if first {
          turi := list[i];
          first := false;
        } else {
          turi := turi + "\n" + list[i];
        }
        i := i + 1;
      }
      assert list[..i] == list;
    }
  }

  // ----- What reaches the pool -----

  /** The gate of a manager, as a function of the argument. */
  ghost predicate Gate(analyse: string -> Option<Uri>, ports: map<string, string>, parse: string -> Option<Uri>) {
    forall url :: analyse(url) == UrlAnalysis(ports, parse, url)
  }

  /** Position k holds a URI argument that the gate lets through. */
  ghost predicate UriYields(args: seq<string>, ports: map<string, string>, parse: string -> Option<Uri>, k: int) {
    0 <= k < |args| && Roles(args)[k] == AsUri && exists uri :: Yields(ports, parse, args[k], uri)
  }

  /**
   From the command line to the pool: with an early answer nothing is submitted; otherwise
   each URI argument that the gate lets through is handed over exactly once, in command-line
   order, as what its text parses to, with a registered method and the last directory given.
   */
  lemma EndToEnd(args: seq<string>, analyse: string -> Option<Uri>, ports: map<string, string>,
                 downloaders: map<string, DownloadMethod>, parse: string -> Option<Uri>)
    returns (ia: seq<nat>)
    requires Gate(analyse, ports, parse) && KeepsScheme(parse) && TablesAgree(ports, downloaders)
    ensures (exists i :: 0 <= i < |args| && AsksEarly(args, i)) ==> Submitted(downloaders, Grammar(args, analyse)) == []
    ensures (forall i :: 0 <= i < |args| ==> !AsksEarly(args, i)) ==>
              var jobs := Submitted(downloaders, Grammar(args, analyse));
              && Increasing(ia) && |jobs| == |ia|
              && (forall k :: k in ia <==> UriYields(args, ports, parse, k))
              && (forall j :: 0 <= j < |ia| ==>
                    && ia[j] < |args| && Yields(ports, parse, args[ia[j]], jobs[j].uri)
                    && jobs[j].uri.scheme in downloaders
                    && jobs[j].downloadMethod == downloaders[jobs[j].uri.scheme]
                    && DirIsLast(args, jobs[j].dir))
  {
    hide *;
    HasExitIff(args);
    OptionMeaning(args, analyse);
    if exists i :: 0 <= i < |args| && AsksEarly(args, i) {
      ExitJobs(downloaders, Grammar(args, analyse));
      ia := [];
    } else {
      var ir: seq<nat>;
      var o := Grammar(args, analyse);
      ia, ir := TwoLists(args, analyse);
      AcceptedPositions(args, analyse, ia, ir, o.uris, o.unsupported);
      SplitIncreases(Roles(args), ia, ir, 0);
      AcceptedYield(args, analyse, ports, downloaders, parse, ia, o.uris);
      forall k ensures k in ia <==> UriYields(args, ports, parse, k) {
        UriYieldsIs(args, analyse, ports, parse, k);
      }
      JobsOfOutcome(downloaders, o);
    }
  }

  lemma UriYieldsIs(args: seq<string>, analyse: string -> Option<Uri>, ports: map<string, string>,
                    parse: string -> Option<Uri>, k: int)
    requires Gate(analyse, ports, parse)
    ensures UriYields(args, ports, parse, k)
            <==> 0 <= k < |args| && Roles(args)[k] == AsUri && analyse(args[k]).Some?
  {
    hide Roles, Yields, Gate;
    if 0 <= k < |args| { GateYields(analyse, ports, parse, args[k]); }
  }

  lemma SplitIncreases(rs: seq<Role>, ia: seq<nat>, ir: seq<nat>, lo: nat)
    requires SplitUris(rs, ia, ir, lo)
    ensures Increasing(ia) && Increasing(ir)
  {
  }

  lemma ExitJobs(downloaders: map<string, DownloadMethod>, o: Outcome)
    requires !o.Run?
    ensures Submitted(downloaders, o) == []
  {
  }

  lemma GateYields(analyse: string -> Option<Uri>, ports: map<string, string>, parse: string -> Option<Uri>,
                   url: string)
    requires Gate(analyse, ports, parse)
    ensures analyse(url).Some? <==> exists uri :: Yields(ports, parse, url, uri)
    ensures analyse(url).Some? ==> Yields(ports, parse, url, analyse(url).value)
  {
    assert analyse(url) == UrlAnalysis(ports, parse, url);
    hide UrlAnalysis, Yields;
    forall uri ensures analyse(url) == Some(uri) <==> Yields(ports, parse, url, uri) {
      GateIff(ports, parse, url, uri);
    }
  }

  lemma AcceptedYield(args: seq<string>, analyse: string -> Option<Uri>, ports: map<string, string>,
                      downloaders: map<string, DownloadMethod>, parse: string -> Option<Uri>,
                      ia: seq<nat>, uris: seq<Uri>)
    requires Gate(analyse, ports, parse) && KeepsScheme(parse) && TablesAgree(ports, downloaders)
    requires AcceptedAre(args, analyse, ia, uris)
    ensures |ia| == |uris|
    ensures forall j :: 0 <= j < |ia| ==>
              ia[j] < |args| && Yields(ports, parse, args[ia[j]], uris[j]) && uris[j].scheme in downloaders
  {
    hide Yields, UrlAnalysis, KeepsScheme, TablesAgree;
    forall j | 0 <= j < |ia|
      ensures ia[j] < |args| && Yields(ports, parse, args[ia[j]], uris[j]) && uris[j].scheme in downloaders
    {
      var url := args[ia[j]];
      GateYields(analyse, ports, parse, url);
      assert analyse(url) == UrlAnalysis(ports, parse, url);
      AcceptedHasDownloader(ports, downloaders, parse, url);
    }
  }

  lemma JobsOfOutcome(downloaders: map<string, DownloadMethod>, o: Outcome)
    requires o.Run? && (o.uris != [] ==> o.hasUri)
    requires forall i :: 0 <= i < |o.uris| ==> o.uris[i].scheme in downloaders
    ensures var jobs := Submitted(downloaders, o);
            && |jobs| == |o.uris|
            && forall i :: 0 <= i < |jobs| ==>
                 jobs[i].uri == o.uris[i] && jobs[i].dir == o.dir
                 && jobs[i].downloadMethod == downloaders[o.uris[i].scheme]
  {
    JobsOfAccepted(downloaders, o.uris, o.dir);
    hide Jobs;
  }

  /** A URI argument that the gate accepts. */
  predicate AcceptedAt(args: seq<string>, rs: seq<Role>, analyse: string -> Option<Uri>, i: nat)
    requires i < |args| == |rs|
  {
    rs[i] == AsUri && analyse(args[i]).Some?
  }

  lemma {:induction false} NoneAccepted(args: seq<string>, rs: seq<Role>, analyse: string -> Option<Uri>)
    requires |args| == |rs|
    ensures Accepted(WithRole(args, rs, AsUri), analyse) == []
            <==> forall i :: 0 <= i < |args| ==> !AcceptedAt(args, rs, analyse, i)
  {
    if args != [] {
      NoneAccepted(args[1..], rs[1..], analyse);
      assert forall i :: 0 < i < |args| ==>
               (AcceptedAt(args, rs, analyse, i) <==> AcceptedAt(args[1..], rs[1..], analyse, i - 1));
      assert (forall i :: 0 <= i < |args| ==> !AcceptedAt(args, rs, analyse, i))
             <==> !AcceptedAt(args, rs, analyse, 0)
                  && forall i :: 0 <= i < |args| - 1 ==> !AcceptedAt(args[1..], rs[1..], analyse, i) by {
        forall i | 0 <= i < |args| - 1
          ensures AcceptedAt(args[1..], rs[1..], analyse, i) == AcceptedAt(args, rs, analyse, i + 1)
        {
        }
      }
      var rest := WithRole(args[1..], rs[1..], AsUri);
      if rs[0] == AsUri {
        assert ([args[0]] + rest)[1..] == rest;
      } else {
        assert [] + rest == rest;
      }
    }
  }

  /** Nothing is submitted exactly when an option asks for an early answer or no URI is accepted. */
  lemma NothingSubmittedIff(args: seq<string>, analyse: string -> Option<Uri>)
    ensures Submission(Grammar(args, analyse)).None?
            <==> HasExit(args) || forall i :: 0 <= i < |args| ==> !AcceptedAt(args, Roles(args), analyse, i)
  {
    hide *;
    OptionMeaning(args, analyse);
    NoneAccepted(args, Roles(args), analyse);
    SubmissionByRole(args, analyse);
    if !Grammar(args, analyse).Run? { ExitSubmitsNothing(Grammar(args, analyse)); }
  }

  lemma SubmissionByRole(args: seq<string>, analyse: string -> Option<Uri>)
    ensures Submission(ByRole(args, analyse)).None? <==> Accepted(WithRole(args, Roles(args), AsUri), analyse) == []
  {
    hide WithRole, Roles;
  }

  lemma ExitSubmitsNothing(o: Outcome)
    requires !o.Run?
    ensures Submission(o).None?
  {
  }

  /** The jobs an outcome adds to the pool. */
  function Submitted(downloaders: map<string, DownloadMethod>, o: Outcome): seq<Downloader> {
    match Submission(o)
    case Some(task) => Jobs(downloaders, task.uris, task.dir)
    case None => []
  }

  lemma {:induction false} GlueAppend(ps: seq<string>, p: string, sep: string)
    requires ps != []
    ensures Glue(ps + [p], sep) == Glue(ps, sep) + sep + p
  {
    if |ps| == 1 {
      assert ps + [p] == [ps[0]] + [p];
      GlueCons(ps[0], [p], sep);
    } else {
      GlueAppend(ps[1..], p, sep);
      assert ps + [p] == [ps[0]] + (ps[1..] + [p]);
      GlueCons(ps[0], ps[1..] + [p], sep);
    }
  }

  lemma GlueNext(list: seq<string>, i: nat)
    requires i < |list|
    ensures Glue(list[..i + 1], "\n")
            == if i == 0 then list[i] else Glue(list[..i], "\n") + "\n" + list[i]
  {
    assert list[..i + 1] == list[..i] + [list[i]];
    if i > 0 { GlueAppend(list[..i], list[i], "\n"); }
  }
}
