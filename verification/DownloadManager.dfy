/** The scheme gate that accepts a URI and the loop that hands accepted ones to the pool. */
module DownloadManager {
  import opened Seqs
  import opened CStrings
  import opened WorkQueue

  /** What parsing a URI yields: its scheme and the text it prints as. */
  datatype Uri = Uri(scheme: string, text: string)

  datatype DownloadMethod = DmHttp

  /** What a worker is given: a URI, the functions that download it, where to save it. */
  datatype Downloader = Downloader(downloadMethod: DownloadMethod, uri: Uri, dir: Option<string>)

  datatype DownloadTask = DownloadTask(uris: seq<Uri>, dir: Option<string>)

  const SCHEME_MARK: string := "://"

  /** The parser is a parameter; all that is assumed is that it keeps the scheme, lower-cased. */
  ghost predicate KeepsScheme(parse: string -> Option<Uri>) {
    forall scheme, rest :: Free(scheme, ':') && parse(scheme + SCHEME_MARK + rest).Some? ==>
      parse(scheme + SCHEME_MARK + rest).value.scheme == Lower(scheme)
  }

  /** url_Analysis: no "://" means http; one means a registered scheme; more means refusal. */
  function UrlAnalysis(ports: map<string, string>, parse: string -> Option<Uri>, url: string): Option<Uri> {
    var arr := Split(url, SCHEME_MARK);
    if |arr| == 1 then parse("http" + SCHEME_MARK + url)
    else if |arr| == 2 && arr[0] in ports then parse(url)
    else None
  }

  // ----- What the gate lets through -----

  /** "://" stands at position i. */
  predicate MarkAt(url: string, i: nat) {
    i <= |url| && HasPrefix(url[i..], "://")
  }

  lemma MarkBytes(url: string, i: nat)
    requires MarkAt(url, i)
    ensures i + 3 <= |url| && url[i] == ':' && url[i + 1] == '/' && url[i + 2] == '/'
  {
    assert url[i..][..3] == "://";
    assert url[i..][0] == ':' && url[i..][1] == '/' && url[i..][2] == '/';
  }

  lemma MarkBehind(url: string, i: nat, j: nat)
    requires i + j <= |url|
    ensures MarkAt(url[i..], j) <==> MarkAt(url, i + j)
  {
    assert url[i..][j..] == url[i + j..];
  }

  lemma FindMark(url: string)
    ensures var k := Find(url, SCHEME_MARK);
            && (k < |url| ==> MarkAt(url, k) && k + 3 <= |url|)
            && forall i: nat :: i < k ==> !MarkAt(url, i)
    ensures Find(url, SCHEME_MARK) == |url| ==> forall i: nat :: !MarkAt(url, i)
  {
    var k := Find(url, SCHEME_MARK);
    if k < |url| { MarkBytes(url, k); }
    forall i: nat | MarkAt(url, i) ensures i < |url| {
      MarkBytes(url, i);
    }
  }

  lemma PiecesStep(url: string)
    requires var k := Find(url, SCHEME_MARK); k < |url| ==> k + 3 <= |url|
    ensures var k := Find(url, SCHEME_MARK);
            Pieces(url, SCHEME_MARK)
            == if k == |url| then [url] else [url[..k]] + Pieces(url[k + 3..], SCHEME_MARK)
  {
    hide Find;
  }

  lemma NoMarkPieces(url: string)
    requires forall i: nat :: !MarkAt(url, i)
    ensures Pieces(url, SCHEME_MARK) == [url]
  {
    hide MarkAt, Find, Pieces;
    FindMark(url);
    PiecesStep(url);
  }

  lemma OneMarkPieces(url: string, i: nat)
    requires MarkAt(url, i) && forall j: nat :: MarkAt(url, j) ==> j == i
    ensures i + 3 <= |url| && Pieces(url, SCHEME_MARK) == [url[..i], url[i + 3..]]
  {
    hide MarkAt, Find, Pieces;
    FindMark(url);
    PiecesStep(url);
    var rest := url[i + 3..];
    forall j: nat ensures !MarkAt(rest, j) {
      if j <= |rest| {
        MarkBehind(url, i + 3, j);
      } else {
        MarkInside(rest, j);
      }
    }
    NoMarkPieces(rest);
  }

  lemma MarkInside(url: string, i: nat)
    ensures MarkAt(url, i) ==> i <= |url|
  {
  }

  /** Marks do not overlap. */
  lemma MarksApart(url: string, i: nat, j: nat)
    requires i < j && MarkAt(url, i) && MarkAt(url, j)
    ensures i + 3 <= j
  {
    MarkBytes(url, i);
    MarkBytes(url, j);
  }

  lemma ManyMarksPieces(url: string, i: nat, j: nat)
    requires i < j && MarkAt(url, i) && MarkAt(url, j)
    ensures |Pieces(url, SCHEME_MARK)| > 2
  {
    hide MarkAt, Find, Pieces;
    FindMark(url);
    PiecesStep(url);
    var k := Find(url, SCHEME_MARK);
    MarksApart(url, k, j);
    MarkInside(url, j);
    var rest := url[k + 3..];
    MarkBehind(url, k + 3, j - k - 3);
    FindMark(rest);
    PiecesStep(rest);
  }

  /** One "://": the text as written is parsed when what stands before the mark is a registered scheme. */
  lemma GateWithScheme(ports: map<string, string>, parse: string -> Option<Uri>, url: string, i: nat)
    requires MarkAt(url, i) && forall j: nat :: MarkAt(url, j) ==> j == i
    ensures UrlAnalysis(ports, parse, url) == if url[..i] in ports then parse(url) else None
  {
    OneMarkPieces(url, i);
    MarkBytes(url, i);
    hide Pieces;
  }

  /** No "://": the text is parsed with http put before it, unless it is empty. */
  lemma GateWithoutScheme(ports: map<string, string>, parse: string -> Option<Uri>, url: string)
    requires forall i: nat :: !MarkAt(url, i)
    ensures UrlAnalysis(ports, parse, url) == if url == "" then None else parse("http://" + url)
  {
    NoMarkPieces(url);
    assert "http" + SCHEME_MARK == "http://";
    hide Pieces;
  }

  /** More than one "://": nothing is parsed. */
  lemma GateRefusesMany(ports: map<string, string>, parse: string -> Option<Uri>, url: string, i: nat, j: nat)
    requires i < j && MarkAt(url, i) && MarkAt(url, j)
    ensures UrlAnalysis(ports, parse, url) == None
  {
    ManyMarksPieces(url, i, j);
    hide Pieces;
  }

  /** The text that the gate has parsed, if any: the three cases in one. */
  ghost predicate Parses(ports: map<string, string>, url: string, text: string) {
    || (text == url && exists i: nat ::
          MarkAt(url, i) && url[..i] in ports && forall j: nat :: MarkAt(url, j) ==> j == i)
    || (text == "http://" + url && url != "" && forall i: nat :: !MarkAt(url, i))
  }

  /** What an argument comes to when the gate accepts it. */
  ghost predicate Yields(ports: map<string, string>, parse: string -> Option<Uri>, url: string, uri: Uri) {
    exists text :: Parses(ports, url, text) && parse(text) == Some(uri)
  }

  /** A URI is accepted exactly when there is a text to parse and it parses. */
  lemma GateIff(ports: map<string, string>, parse: string -> Option<Uri>, url: string, uri: Uri)
    ensures UrlAnalysis(ports, parse, url) == Some(uri) <==> Yields(ports, parse, url, uri)
  {
    if i: nat :| MarkAt(url, i) {
      if j: nat :| MarkAt(url, j) && j != i {
        GateRefusesMany(ports, parse, url, if i < j then i else j, if i < j then j else i);
        forall text ensures !Parses(ports, url, text) {}
      } else {
        GateWithScheme(ports, parse, url, i);
        assert url[..i] in ports ==> Parses(ports, url, url);
        forall text | Parses(ports, url, text) ensures text == url && url[..i] in ports {}
      }
    } else {
      GateWithoutScheme(ports, parse, url);
      assert url != "" ==> Parses(ports, url, "http://" + url);
      forall text | Parses(ports, url, text) ensures text == "http://" + url && url != "" {}
    }
  }

  // ----- The tables -----

  /** The two tables know the same schemes, http among them, all written in lower case. */
  ghost predicate TablesAgree(ports: map<string, string>, downloaders: map<string, DownloadMethod>) {
    && ports.Keys == downloaders.Keys
    && "http" in ports
    && forall scheme :: scheme in ports ==> Lower(scheme) == scheme && Free(scheme, ':')
  }

  /** Every accepted URI has a registered downloader, so the error branch is never taken. */
  lemma AcceptedHasDownloader(ports: map<string, string>, downloaders: map<string, DownloadMethod>,
                              parse: string -> Option<Uri>, url: string)
    requires KeepsScheme(parse) && TablesAgree(ports, downloaders)
    requires UrlAnalysis(ports, parse, url).Some?
    ensures UrlAnalysis(ports, parse, url).value.scheme in downloaders
  {
    var arr := Split(url, SCHEME_MARK);
    if |arr| == 1 {
      assert parse("http" + SCHEME_MARK + url).Some?;
      assert Free("http", ':') && Lower("http") == "http";
    } else {
      GlueSplit(url, SCHEME_MARK);
      assert arr == [arr[0]] + [arr[1]];
      GlueCons(arr[0], [arr[1]], SCHEME_MARK);
      assert url == arr[0] + SCHEME_MARK + arr[1];
    }
  }

  /** What the submission loop hands over: the URIs with a downloader, in order. */
  function Jobs(downloaders: map<string, DownloadMethod>, uris: seq<Uri>, dir: Option<string>): seq<Downloader> {
    if uris == [] then []
    else
      (if uris[0].scheme in downloaders then [Downloader(downloaders[uris[0].scheme], uris[0], dir)] else [])
      + Jobs(downloaders, uris[1..], dir)
  }

  lemma {:induction false} JobsConcat(downloaders: map<string, DownloadMethod>, a: seq<Uri>, b: seq<Uri>,
                                      dir: Option<string>)
    ensures Jobs(downloaders, a + b, dir) == Jobs(downloaders, a, dir) + Jobs(downloaders, b, dir)
  {
    if a == [] {
      assert a + b == b;
    } else {
      assert (a + b)[1..] == a[1..] + b;
      JobsConcat(downloaders, a[1..], b, dir);
    }
  }

  lemma JobsNext(downloaders: map<string, DownloadMethod>, uris: seq<Uri>, dir: Option<string>, i: nat)
    requires i < |uris|
    ensures Jobs(downloaders, uris[..i + 1], dir)
            == if uris[i].scheme in downloaders
               then Jobs(downloaders, uris[..i], dir) + [Downloader(downloaders[uris[i].scheme], uris[i], dir)]
               else Jobs(downloaders, uris[..i], dir)
  {
    assert uris[..i + 1] == uris[..i] + [uris[i]];
    JobsConcat(downloaders, uris[..i], [uris[i]], dir);
    assert [uris[i]][1..] == [];
  }

  /** When every URI has a downloader, each is handed over exactly once and in order. */
  lemma {:induction false} JobsOfAccepted(downloaders: map<string, DownloadMethod>, uris: seq<Uri>, dir: Option<string>)
    requires forall i :: 0 <= i < |uris| ==> uris[i].scheme in downloaders
    ensures var jobs := Jobs(downloaders, uris, dir);
            && |jobs| == |uris|
            && forall i :: 0 <= i < |uris| ==>
                 jobs[i].uri == uris[i] && jobs[i].dir == dir && jobs[i].downloadMethod == downloaders[uris[i].scheme]
  {
    if uris != [] { JobsOfAccepted(downloaders, uris[1..], dir); }
  }

  class Manager {
    var schemaAndPort: map<string, string>
    var schemaAndDownloader: map<string, DownloadMethod>
    const parse: string -> Option<Uri>

    constructor (parse: string -> Option<Uri>)
      ensures schemaAndPort == map[] && schemaAndDownloader == map[] && this.parse == parse
    {
      schemaAndPort := map[];
      schemaAndDownloader := map[];
      this.parse := parse;
    }

    ghost predicate Registered()
      reads this
    {
      TablesAgree(schemaAndPort, schemaAndDownloader)
    }

    /** Lines 36-49. */
    method ProtocolRegister()
      requires schemaAndPort == map[] && schemaAndDownloader == map[]
      modifies this
      ensures Registered()
      ensures schemaAndPort == map["http" := "80", "https" := "443"]
      ensures schemaAndDownloader == map["http" := DmHttp, "https" := DmHttp]
    {
      schemaAndPort := schemaAndPort["http" := "80"];
      schemaAndPort := schemaAndPort["https" := "443"];
      schemaAndDownloader := schemaAndDownloader["http" := DmHttp];
      schemaAndDownloader := schemaAndDownloader["https" := DmHttp];
      assert Lower("http") == "http" && Lower("https") == "https";
    }

    /** Lines 120-190: one job per URI that has a downloader, added in list order. */
    method Download(task: DownloadTask, pool: Pool<Downloader>)
      requires pool.Valid() && this !in pool.Repr
      modifies pool.Repr
      ensures pool.Valid() && fresh(pool.Repr - old(pool.Repr))
      ensures pool.Contents() == old(pool.Contents()) + Jobs(schemaAndDownloader, task.uris, task.dir)
    {
      assert Jobs(schemaAndDownloader, task.uris[..0], task.dir) == [];
      hide *;
      ghost var done: seq<Downloader> := [];
      var i := 0;
      while i < |task.uris|
        invariant 0 <= i <= |task.uris|
        invariant pool.Valid()
        invariant fresh(pool.Repr - old(pool.Repr))
        invariant pool.Contents() == old(pool.Contents()) + done
        invariant done == Jobs(schemaAndDownloader, task.uris[..i], task.dir)
      {
        var uri := task.uris[i];
        JobsNext(schemaAndDownloader, task.uris, task.dir, i);
        if uri.scheme in schemaAndDownloader {
          var dd := Downloader(schemaAndDownloader[uri.scheme], uri, task.dir);
          pool.AddWork(dd);
          done := done + [dd];
        }
        i := i + 1;
      }
      assert task.uris[..i] == task.uris;
    }
  }
}
