/**
 What a client reads for what it asked, spelled out: which text, in which order, down to the
 last byte that fits.
 */
module ClientReply {
  import opened Seqs
  import opened CStrings
  import opened DownloadManager
  import opened Command
  import opened Service
  import opened Handshake

  // ----- The texts -----

  /** strcmp(a, b) <= 0: a is the start of b, or the first byte that differs is smaller in a. */
  ghost predicate StrcmpAtMost(a: string, b: string) {
    exists k: nat :: StrcmpStopsAt(a, b, k)
  }

  predicate StrcmpStopsAt(a: string, b: string, k: nat) {
    k <= |a| && k <= |b| && a[..k] == b[..k] && (k == |a| || (k < |b| && a[k] < b[k]))
  }

  lemma StopsFurther(a: string, b: string, k: nat)
    requires a != "" && b != "" && a[0] == b[0]
    ensures StrcmpStopsAt(a[1..], b[1..], k) <==> StrcmpStopsAt(a, b, k + 1)
  {
    if k <= |a| - 1 && k <= |b| - 1 {
      assert a[..k + 1] == [a[0]] + a[1..][..k] && b[..k + 1] == [b[0]] + b[1..][..k];
    }
  }

  lemma {:induction false} AtMostIff(a: string, b: string)
    ensures AtMost(a, b) <==> StrcmpAtMost(a, b)
  {
    if a == "" || b == "" || a[0] < b[0] {
      assert a == "" || b != "" ==> StrcmpStopsAt(a, b, 0);
    } else if a[0] == b[0] {
      AtMostIff(a[1..], b[1..]);
      if k: nat :| StrcmpStopsAt(a[1..], b[1..], k) {
        StopsFurther(a, b, k);
      }
      if k: nat :| StrcmpStopsAt(a, b, k) {
        StopsFurther(a, b, k - 1);
      }
    } else {
      forall k: nat ensures !StrcmpStopsAt(a, b, k) {
        if 0 < k <= |a| && k <= |b| {
          assert a[..k][0] != b[..k][0];
        }
      }
    }
  }

  /** One line for each text. */
  function Lines(xs: seq<string>): string {
    if xs == [] then "" else xs[0] + "\n" + Lines(xs[1..])
  }

  lemma {:induction false} GluedLines(xs: seq<string>)
    requires xs != []
    ensures Glue(xs, "\n") + "\n" == Lines(xs)
  {
    if |xs| == 1 {
      assert Lines(xs[1..]) == "";
    } else {
      GluedLines(xs[1..]);
      assert Glue(xs, "\n") + "\n" == xs[0] + "\n" + (Glue(xs[1..], "\n") + "\n");
    }
  }

  /** The refused URIs sorted, one to a line under their heading; then the accepted ones in order. */
  function UriReply(sorted: seq<string>, accepted: seq<string>): string {
    (if sorted == [] then "" else "These URIs are not yet supported:\n" + Lines(sorted))
    + (if accepted == [] then ""
       else "\nThese URIs are about to be added " + "to the download queue:\n" + Lines(accepted))
  }

  /** The texts of a list in ascending strcmp order. */
  ghost predicate SortedFrom(texts: seq<string>, sorted: seq<string>) {
    multiset(sorted) == multiset(texts) && forall i :: 0 < i < |sorted| ==> StrcmpAtMost(sorted[i - 1], sorted[i])
  }

  lemma SortIsSorted(texts: seq<string>)
    ensures SortedFrom(texts, Sort(texts))
  {
    SortSorts(texts);
    hide Sort, AtMost, StrcmpAtMost;
    forall i | 0 < i < |Sort(texts)| ensures StrcmpAtMost(Sort(texts)[i - 1], Sort(texts)[i]) {
      AtMostIff(Sort(texts)[i - 1], Sort(texts)[i]);
    }
  }

  /** The reply to a command with URIs reads as just described. */
  lemma UriReplyIs(cfg: Config, o: Outcome) returns (sorted: seq<string>)
    requires o.Run? && o.hasUri
    ensures SortedFrom(o.unsupported, sorted) && |sorted| == |o.unsupported|
    ensures FullReply(cfg, o) == UriReply(sorted, TextsOf(o.uris))
  {
    sorted := Sort(o.unsupported);
    SortIsSorted(o.unsupported);
    hide Sort, TextsOf, SortedFrom;
    RefusedText(o.unsupported);
    AcceptedText(o.uris);
    hide UnsupportedText, SupportedText, Lines;
  }

  lemma RefusedText(unsupported: seq<string>)
    ensures unsupported != [] ==>
              UnsupportedText(unsupported) == "These URIs are not yet supported:\n" + Lines(Sort(unsupported))
  {
    hide Sort, Glue, Lines;
    if unsupported != [] {
      GluedLines(Sort(unsupported));
      Shift("These URIs are not yet supported:\n", Glue(Sort(unsupported), "\n"));
    }
  }

  lemma AcceptedText(uris: seq<Uri>)
    ensures uris != [] ==>
              "\n" + SupportedText(uris)
              == "\nThese URIs are about to be added " + "to the download queue:\n" + Lines(TextsOf(uris))
  {
    hide Glue, Lines, TextsOf;
    if uris != [] {
      GluedLines(TextsOf(uris));
      var heading := "These URIs are about to be added " + "to the download queue:\n";
      Heading();
      Prefixed("\n", heading, Glue(TextsOf(uris), "\n"));
    }
  }

  lemma Heading()
    ensures "\n" + ("These URIs are about to be added " + "to the download queue:\n")
            == "\nThese URIs are about to be added " + "to the download queue:\n"
  {
  }

  lemma Prefixed(a: string, b: string, c: string)
    ensures a + (b + c + "\n") == (a + b) + (c + "\n")
  {
  }

  lemma Shift(a: string, b: string)
    ensures a + b + "\n" == a + (b + "\n")
  {
  }

  // ----- What is printed -----

  /**
   A client whose command asks for help, the version or the schemes prints just that, cut to
   the buffer: the first such option on its command line decides.
   */
  lemma EarlyReply(cfg: Config, es: seq<Event>, i: nat, k: nat)
    requires ConfigNoNul(cfg) && Legal(cfg, Init(), es)
    requires i < |Handshake.Run(cfg, Init(), es).exchanges|
    requires var args := Received(Handshake.Run(cfg, Init(), es).exchanges[i].args);
             k < |args| && AsksEarly(args, k) && forall j :: 0 <= j < k ==> !AsksEarly(args, j)
    ensures var x := Handshake.Run(cfg, Init(), es).exchanges[i];
            var option := Received(x.args)[k];
            && (option == "-h" || option == "-H" ==> x.printed == Cut(cfg.help, 10239))
            && (option == "-v" || option == "-V" ==> x.printed == Cut(cfg.version, 10239))
            && (option == "-l" || option == "-L" ==> x.printed == Cut(Glue(cfg.schemas, "\t"), 10239))
  {
    hide *;
    var args := Received(Handshake.Run(cfg, Init(), es).exchanges[i].args);
    FreshReplies(cfg, es, i);
    EarlyAnswer(args, cfg.analyse, k);
    EarlyTexts(cfg);
  }

  lemma EarlyTexts(cfg: Config)
    ensures FullReply(cfg, ShowHelp) == cfg.help && FullReply(cfg, ShowVersion) == cfg.version
    ensures FullReply(cfg, ListSchemas) == Glue(cfg.schemas, "\t")
  {
  }

  /**
   Any other client prints the help text when it gave no URI. Else it prints the arguments that
   were refused, sorted, and what the others were analysed to, in command-line order; all cut
   to the buffer.
   */
  lemma ReplyToUris(cfg: Config, es: seq<Event>, i: nat)
    returns (ia: seq<nat>, ir: seq<nat>, uris: seq<Uri>, refused: seq<string>, sorted: seq<string>)
    requires ConfigNoNul(cfg) && Legal(cfg, Init(), es)
    requires i < |Handshake.Run(cfg, Init(), es).exchanges|
    requires var args := Received(Handshake.Run(cfg, Init(), es).exchanges[i].args);
             forall j :: 0 <= j < |args| ==> !AsksEarly(args, j)
    ensures var x := Handshake.Run(cfg, Init(), es).exchanges[i];
            var args := Received(x.args);
            && SplitUris(Roles(args), ia, ir, 0)
            && AcceptedAre(args, cfg.analyse, ia, uris) && RefusedAre(args, cfg.analyse, ir, refused)
            && SortedFrom(refused, sorted)
            && var reply := if uris == [] && refused == [] then cfg.help else UriReply(sorted, TextsOf(uris));
               x.printed == Cut(reply, 10239)
  {
    hide *;
    var args := Received(Handshake.Run(cfg, Init(), es).exchanges[i].args);
    var o := Grammar(args, cfg.analyse);
    FreshReplies(cfg, es, i);
    ia, ir := TwoLists(args, cfg.analyse);
    uris, refused := o.uris, o.unsupported;
    if o.hasUri {
      sorted := UriReplyIs(cfg, o);
    } else {
      sorted := Sort(refused);
      SortIsSorted(refused);
      NoUriText(cfg, o);
    }
  }

  lemma NoUriText(cfg: Config, o: Outcome)
    requires o.Run? && !o.hasUri
    ensures FullReply(cfg, o) == cfg.help
  {
  }
}
