/** The command a client sends: how it is joined, cut, split again, and read as options. */
module Command {
  import opened Seqs
  import opened CStrings
  import opened DownloadManager

  const COMMANDLINE_BUF: nat := 10240

  // ----- Sending -----

  /** What the service splits: the joined arguments, cut to the buffer less its terminator. */
  function Received(args: seq<string>): seq<string> {
    Split(Cut(Glue(args, "|"), COMMANDLINE_BUF - 1), "|")
  }

  /**
   The service sees the client's arguments exactly when none contains the separator, they are
   not a single empty argument, and the joined command fits the buffer.
   */
  lemma ReceivedIff(args: seq<string>)
    ensures Received(args) == args
            <==> && args != [""]
                 && (forall i :: 0 <= i < |args| ==> Free(args[i], '|'))
                 && |Glue(args, "|")| <= 10239
  {
    var whole := Glue(args, "|");
    var cut := Cut(whole, COMMANDLINE_BUF - 1);
    SplitGlueIff(args, '|');
    if Received(args) == args {
      GlueSplit(cut, "|");
      assert cut == whole;
    } else if |whole| <= COMMANDLINE_BUF - 1 {
      assert cut == whole;
    }
  }

  // ----- Options -----

  datatype Outcome =
    | ShowHelp
    | ShowVersion
    | ListSchemas
    | Run(dir: Option<string>, hasUri: bool, uris: seq<Uri>, unsupported: seq<string>)

  predicate IsOption(arg: string) {
    HasPrefix(arg, "-")
  }

  predicate IsExit(arg: string) {
    SameIgnoringCase("-h", arg) || SameIgnoringCase("-v", arg) || SameIgnoringCase("-l", arg)
  }

  function ExitOf(arg: string): Outcome
    requires IsExit(arg)
  {
    if SameIgnoringCase("-h", arg) then ShowHelp
    else if SameIgnoringCase("-v", arg) then ShowVersion
    else ListSchemas
  }

  predicate IsDir(arg: string) {
    SameIgnoringCase("-d", arg)
  }

  /** What the options mean, read from the front. */
  function Grammar(args: seq<string>, analyse: string -> Option<Uri>): Outcome {
    if args == [] then Run(None, false, [], [])
    else if IsOption(args[0]) then
      if IsExit(args[0]) then ExitOf(args[0])
      else if IsDir(args[0]) && |args| > 1 then WithDir(args[1], Grammar(args[2..], analyse))
      else Grammar(args[1..], analyse)
    else WithUri(args[0], analyse(args[0]), Grammar(args[1..], analyse))
  }

  /** A directory given before the rest, where a later one wins. */
  function WithDir(dir: string, rest: Outcome): Outcome {
    if rest.Run? && rest.dir.None? then rest.(dir := Some(dir)) else rest
  }

  function WithUri(arg: string, uri: Option<Uri>, rest: Outcome): Outcome {
    if !rest.Run? then rest
    else match uri
         case Some(u) => rest.(hasUri := true, uris := [u] + rest.uris)
         case None => rest.(hasUri := true, unsupported := [arg] + rest.unsupported)
  }

  /** What has been gathered so far, completed by what the rest means. */
  function Complete(dir: Option<string>, hasUri: bool, uris: seq<Uri>, unsupported: seq<string>,
                    rest: Outcome): Outcome
  {
    if !rest.Run? then rest
    else Run(if rest.dir.Some? then rest.dir else dir, hasUri || rest.hasUri,
             uris + rest.uris, unsupported + rest.unsupported)
  }

  lemma CompleteUri(dir: Option<string>, hasUri: bool, uris: seq<Uri>, unsupported: seq<string>,
                    arg: string, uri: Option<Uri>, rest: Outcome)
    ensures Complete(dir, hasUri, uris, unsupported, WithUri(arg, uri, rest))
            == match uri
               case Some(u) => Complete(dir, true, uris + [u], unsupported, rest)
               case None => Complete(dir, true, uris, unsupported + [arg], rest)
  {
    if rest.Run? {
      match uri
      case Some(u) => assert uris + ([u] + rest.uris) == uris + [u] + rest.uris;
      case None => assert unsupported + ([arg] + rest.unsupported) == unsupported + [arg] + rest.unsupported;
    }
  }

  /** Lines 318-365: the option loop. */
  method ParseOptions(arr: seq<string>, analyse: string -> Option<Uri>) returns (r: Outcome)
    ensures r == Grammar(arr, analyse)
  {
    var dir: Option<string> := None;
    var uris: seq<Uri> := [];
    var hasUri := false;
    var notSupportedUri: seq<string> := [];
    var len := |arr|;
    var i := 0;
    while i < len
      invariant 0 <= i <= len
      invariant Complete(dir, hasUri, uris, notSupportedUri, Grammar(arr[i..], analyse)) == Grammar(arr, analyse)
    {
      assert arr[i..][1..] == arr[i + 1..];
      assert i + 1 < len ==> arr[i..][2..] == arr[i + 2..];
      if IsOption(arr[i]) {
        if SameIgnoringCase("-h", arr[i]) {
          return ShowHelp;
        } else if SameIgnoringCase("-v", arr[i]) {
          return ShowVersion;
        } else if SameIgnoringCase("-l", arr[i]) {
          return ListSchemas;
        } else if SameIgnoringCase("-d", arr[i]) {
          if i + 1 < len {
            i := i + 1;
            dir := Some(arr[i]);
          }
        }
      } else {
        hasUri := true;
        var uri := analyse(arr[i]);
        CompleteUri(dir, hasUri, uris, notSupportedUri, arr[i], uri, Grammar(arr[i + 1..], analyse));
        match uri
        case Some(u) => uris := uris + [u];
        case None => notSupportedUri := notSupportedUri + [arr[i]];
      }
      i := i + 1;
    }
    return Run(dir, hasUri, uris, notSupportedUri);
  }

  // ----- The meaning by position -----

  datatype Role = AsOption | AsDirValue | AsUri

  /** The role of each argument; a directory option takes the next argument whatever it is. */
  function Roles(args: seq<string>): (rs: seq<Role>)
    ensures |rs| == |args|
  {
    if args == [] then []
    else if IsOption(args[0]) && IsDir(args[0]) && |args| > 1 then [AsOption, AsDirValue] + Roles(args[2..])
    else if IsOption(args[0]) then [AsOption] + Roles(args[1..])
    else [AsUri] + Roles(args[1..])
  }

  /** The spellings of the options, as the case-insensitive comparison admits them. */
  lemma OptionSpellings(arg: string)
    ensures IsOption(arg) <==> arg != "" && arg[0] == '-'
    ensures IsDir(arg) <==> arg == "-d" || arg == "-D"
    ensures SameIgnoringCase("-h", arg) <==> arg == "-h" || arg == "-H"
    ensures SameIgnoringCase("-v", arg) <==> arg == "-v" || arg == "-V"
    ensures SameIgnoringCase("-l", arg) <==> arg == "-l" || arg == "-L"
  {
    OptionSpelling('d', arg);
    OptionSpelling('h', arg);
    OptionSpelling('v', arg);
    OptionSpelling('l', arg);
    assert arg != "" ==> (arg[..1] == "-" <==> arg[0] == '-');
  }

  lemma OptionSpelling(letter: char, arg: string)
    requires 'a' <= letter <= 'z'
    ensures SameIgnoringCase(['-', letter], arg)
            <==> arg == ['-', letter] || arg == ['-', (letter as int - 32) as char]
  {
    SameIgnoringCaseIff(['-', letter], arg);
    hide SameIgnoringCase;
    if |arg| == 2 && SameLetter(['-', letter][0], arg[0]) && SameLetter(['-', letter][1], arg[1]) {
      assert arg == [arg[0], arg[1]];
    }
  }

  /**
   The roles are settled by each argument and the one before it: what follows a -d that is an
   option is its directory, whatever it looks like; else a leading dash makes an option.
   */
  lemma {:induction false} RolesByPosition(args: seq<string>, i: nat)
    requires i < |args|
    ensures var rs := Roles(args);
            && (rs[i] == AsDirValue
                <==> i > 0 && rs[i - 1] == AsOption && (args[i - 1] == "-d" || args[i - 1] == "-D"))
            && (rs[i] != AsDirValue ==> (rs[i] == AsOption <==> args[i] != "" && args[i][0] == '-'))
  {
    RolesFollow(args, i);
    OptionSpellings(args[i]);
    if i > 0 { OptionSpellings(args[i - 1]); }
    hide Roles, IsDir, IsOption;
  }

  lemma {:induction false} RolesFollow(args: seq<string>, i: nat)
    requires i < |args|
    ensures var rs := Roles(args);
            && (rs[i] == AsDirValue <==> i > 0 && rs[i - 1] == AsOption && IsDir(args[i - 1]))
            && (rs[i] != AsDirValue ==> (rs[i] == AsOption <==> IsOption(args[i])))
  {
    var rs := Roles(args);
    if IsOption(args[0]) && IsDir(args[0]) && |args| > 1 {
      if i >= 2 {
        RolesFollow(args[2..], i - 2);
      }
    } else if i >= 1 {
      RolesFollow(args[1..], i - 1);
    }
  }

  /** Some argument in option position asks for help, version or the scheme list. */
  ghost predicate HasExit(args: seq<string>) {
    exists i :: 0 <= i < |args| && ExitAt(args, i)
  }

  predicate ExitAt(args: seq<string>, i: nat)
    requires i < |args|
  {
    Roles(args)[i] == AsOption && IsExit(args[i])
  }

  /** The arguments with a given role, in order. */
  function WithRole(args: seq<string>, rs: seq<Role>, role: Role): seq<string>
    requires |args| == |rs|
  {
    if args == [] then []
    else (if rs[0] == role then [args[0]] else []) + WithRole(args[1..], rs[1..], role)
  }

  function Accepted(args: seq<string>, analyse: string -> Option<Uri>): seq<Uri> {
    if args == [] then []
    else (if analyse(args[0]).Some? then [analyse(args[0]).value] else []) + Accepted(args[1..], analyse)
  }

  function Refused(args: seq<string>, analyse: string -> Option<Uri>): seq<string> {
    if args == [] then []
    else (if analyse(args[0]).None? then [args[0]] else []) + Refused(args[1..], analyse)
  }

  function LastOf(xs: seq<string>): Option<string> {
    if xs == [] then None else Some(xs[|xs| - 1])
  }

  /** What the loop should yield when nothing asks for an early answer. */
  function ByRole(args: seq<string>, analyse: string -> Option<Uri>): Outcome {
    var uris := WithRole(args, Roles(args), AsUri);
    Run(LastOf(WithRole(args, Roles(args), AsDirValue)), uris != [], Accepted(uris, analyse), Refused(uris, analyse))
  }

  /** The first early answer wins and discards everything else. */
  lemma {:induction false} FirstExitWins(args: seq<string>, analyse: string -> Option<Uri>, i: nat)
    requires i < |args| && ExitAt(args, i)
    requires forall j :: 0 <= j < i ==> !ExitAt(args, j)
    ensures Grammar(args, analyse) == ExitOf(args[i])
  {
    if i > 0 {
      assert !ExitAt(args, 0);
      var skip := if IsOption(args[0]) && IsDir(args[0]) && |args| > 1 then 2 else 1;
      assert Roles(args)[skip..] == Roles(args[skip..]);
      assert forall j :: skip <= j < |args| ==>
               Roles(args)[j] == Roles(args[skip..])[j - skip] && args[j] == args[skip..][j - skip];
      forall j | 0 <= j < i - skip ensures !ExitAt(args[skip..], j) {
        assert !ExitAt(args, j + skip);
      }
      FirstExitWins(args[skip..], analyse, i - skip);
    }
  }

  /**
   Without an early answer, every URI argument goes to exactly one of two lists that keep the
   order, and the last directory value is the directory.
   */
  lemma {:induction false} NoEarlyAnswer(args: seq<string>, analyse: string -> Option<Uri>)
    requires !HasExit(args)
    ensures Grammar(args, analyse) == ByRole(args, analyse)
  {
    if args != [] {
      var skip := if IsOption(args[0]) && IsDir(args[0]) && |args| > 1 then 2 else 1;
      var rest := args[skip..];
      assert !ExitAt(args, 0);
      assert Roles(args)[skip..] == Roles(rest);
      forall j | 0 <= j < |rest| ensures !ExitAt(rest, j) {
        assert !ExitAt(args, j + skip);
        assert Roles(rest)[j] == Roles(args)[skip..][j];
      }
      NoEarlyAnswer(rest, analyse);
      ByRoleStep(args, skip, analyse);
      hide ByRole, ExitAt, Roles;
    }
  }

  lemma FirstExit(args: seq<string>) returns (i: nat)
    requires HasExit(args)
    ensures i < |args| && ExitAt(args, i) && forall j :: 0 <= j < i ==> !ExitAt(args, j)
  {
    i := 0;
    while !ExitAt(args, i)
      invariant i < |args| && forall j :: 0 <= j < i ==> !ExitAt(args, j)
      decreases |args| - i
    {
      i := i + 1;
    }
  }

  /** The option loop runs to its end exactly when no option asks for an early answer. */
  lemma OptionMeaning(args: seq<string>, analyse: string -> Option<Uri>)
    ensures Grammar(args, analyse).Run? <==> !HasExit(args)
    ensures Grammar(args, analyse).Run? ==> Grammar(args, analyse) == ByRole(args, analyse)
  {
    if HasExit(args) {
      var i := FirstExit(args);
      FirstExitWins(args, analyse, i);
    } else {
      NoEarlyAnswer(args, analyse);
    }
  }

  /** An argument in option position that asks for help, the version or the schemes, in either case. */
  predicate AsksEarly(args: seq<string>, i: nat)
    requires i < |args|
  {
    && Roles(args)[i] == AsOption
    && (args[i] == "-h" || args[i] == "-H" || args[i] == "-v" || args[i] == "-V" || args[i] == "-l" || args[i] == "-L")
  }

  lemma AsksEarlyIs(args: seq<string>, i: nat)
    requires i < |args|
    ensures AsksEarly(args, i) <==> ExitAt(args, i)
  {
    OptionSpellings(args[i]);
    hide Roles;
  }

  lemma HasExitIff(args: seq<string>)
    ensures HasExit(args) <==> exists i :: 0 <= i < |args| && AsksEarly(args, i)
  {
    forall i | 0 <= i < |args| ensures AsksEarly(args, i) <==> ExitAt(args, i) {
      AsksEarlyIs(args, i);
    }
  }

  /** The first early answer asked for is the one given, whatever else is on the command line. */
  lemma EarlyAnswer(args: seq<string>, analyse: string -> Option<Uri>, i: nat)
    requires i < |args| && AsksEarly(args, i)
    requires forall j :: 0 <= j < i ==> !AsksEarly(args, j)
    ensures Grammar(args, analyse) == ShowHelp <==> args[i] == "-h" || args[i] == "-H"
    ensures Grammar(args, analyse) == ShowVersion <==> args[i] == "-v" || args[i] == "-V"
    ensures Grammar(args, analyse) == ListSchemas <==> args[i] == "-l" || args[i] == "-L"
  {
    forall j | 0 <= j <= i ensures AsksEarly(args, j) <==> ExitAt(args, j) {
      AsksEarlyIs(args, j);
    }
    FirstExitWins(args, analyse, i);
    OptionSpellings(args[i]);
    hide Grammar, Roles, IsOption, IsDir, SameIgnoringCase;
  }

  lemma FirstRole(args: seq<string>, skip: nat, role: Role)
    requires args != []
    requires skip == if IsOption(args[0]) && IsDir(args[0]) && |args| > 1 then 2 else 1
    requires role != AsOption
    ensures Roles(args)[skip..] == Roles(args[skip..])
    ensures WithRole(args, Roles(args), role)
            == (if skip == 2 && role == AsDirValue then [args[1]] else [])
               + (if !IsOption(args[0]) && role == AsUri then [args[0]] else [])
               + WithRole(args[skip..], Roles(args[skip..]), role)
  {
    var rs := Roles(args);
    if skip == 2 {
      assert args[1..][1..] == args[2..] && rs[1..][1..] == rs[2..];
      assert rs[1..][0] == AsDirValue && args[1..][0] == args[1];
    }
  }

  lemma ByRoleStep(args: seq<string>, skip: nat, analyse: string -> Option<Uri>)
    requires args != []
    requires skip == if IsOption(args[0]) && IsDir(args[0]) && |args| > 1 then 2 else 1
    ensures ByRole(args, analyse)
            == if skip == 2 then WithDir(args[1], ByRole(args[2..], analyse))
               else if IsOption(args[0]) then ByRole(args[1..], analyse)
               else WithUri(args[0], analyse(args[0]), ByRole(args[1..], analyse))
  {
    FirstRole(args, skip, AsUri);
    FirstRole(args, skip, AsDirValue);
    hide Roles, WithRole;
    var uris := WithRole(args[skip..], Roles(args[skip..]), AsUri);
    var dirs := WithRole(args[skip..], Roles(args[skip..]), AsDirValue);
    assert [] + [] + dirs == dirs && [] + [] + uris == uris;
    if skip != 2 && !IsOption(args[0]) {
      assert WithRole(args, Roles(args), AsUri) == [args[0]] + uris;
      assert ([args[0]] + uris)[1..] == uris;
    }
  }

  /** Two increasing lists of positions that between them hold each URI position from lo on once. */
  ghost predicate SplitUris(rs: seq<Role>, ia: seq<nat>, ir: seq<nat>, lo: nat) {
    && Increasing(ia) && Increasing(ir)
    && (forall k :: k in ia || k in ir <==> lo <= k < |rs| && rs[k] == AsUri)
    && (forall k :: !(k in ia && k in ir))
  }

  lemma SplitMore(rs: seq<Role>, ia: seq<nat>, ir: seq<nat>, lo: nat, first: bool)
    requires lo < |rs| && rs[lo] == AsUri && SplitUris(rs, ia, ir, lo + 1)
    ensures SplitUris(rs, if first then [lo] + ia else ia, if first then ir else [lo] + ir, lo)
  {
    hide Increasing;
    if first {
      ConsIncreasing(lo, ia);
    } else {
      ConsIncreasing(lo, ir);
    }
  }

  /** The accepted URIs are what the arguments at these positions were analysed to. */
  predicate AcceptedAre(args: seq<string>, analyse: string -> Option<Uri>, ia: seq<nat>, uris: seq<Uri>) {
    |ia| == |uris| && forall j :: 0 <= j < |ia| ==> ia[j] < |args| && analyse(args[ia[j]]) == Some(uris[j])
  }

  /** The refused texts are the arguments at these positions, none of which was accepted. */
  predicate RefusedAre(args: seq<string>, analyse: string -> Option<Uri>, ir: seq<nat>, texts: seq<string>) {
    && |ir| == |texts|
    && forall j :: 0 <= j < |ir| ==> ir[j] < |args| && analyse(args[ir[j]]) == None && texts[j] == args[ir[j]]
  }

  lemma AcceptedMore(args: seq<string>, analyse: string -> Option<Uri>, ia: seq<nat>, uris: seq<Uri>, lo: nat)
    requires lo < |args| && analyse(args[lo]).Some? && AcceptedAre(args, analyse, ia, uris)
    ensures AcceptedAre(args, analyse, [lo] + ia, [analyse(args[lo]).value] + uris)
  {
  }

  lemma RefusedMore(args: seq<string>, analyse: string -> Option<Uri>, ir: seq<nat>, texts: seq<string>, lo: nat)
    requires lo < |args| && analyse(args[lo]).None? && RefusedAre(args, analyse, ir, texts)
    ensures RefusedAre(args, analyse, [lo] + ir, [args[lo]] + texts)
  {
  }

  /** The arguments with a role from position lo on. */
  function RoleFrom(args: seq<string>, rs: seq<Role>, role: Role, lo: nat): seq<string>
    requires lo <= |args| == |rs|
  {
    WithRole(args[lo..], rs[lo..], role)
  }

  lemma RoleNext(args: seq<string>, rs: seq<Role>, role: Role, lo: nat)
    requires lo < |args| == |rs|
    ensures RoleFrom(args, rs, role, lo)
            == if rs[lo] == role then [args[lo]] + RoleFrom(args, rs, role, lo + 1)
               else RoleFrom(args, rs, role, lo + 1)
  {
    assert args[lo..][1..] == args[lo + 1..] && rs[lo..][1..] == rs[lo + 1..];
    assert [] + RoleFrom(args, rs, role, lo + 1) == RoleFrom(args, rs, role, lo + 1);
  }

  lemma OneUri(arg: string, rest: seq<string>, analyse: string -> Option<Uri>)
    ensures var uris, texts := Accepted(rest, analyse), Refused(rest, analyse);
            match analyse(arg)
            case Some(u) => Accepted([arg] + rest, analyse) == [u] + uris && Refused([arg] + rest, analyse) == texts
            case None => Accepted([arg] + rest, analyse) == uris && Refused([arg] + rest, analyse) == [arg] + texts
  {
    assert ([arg] + rest)[1..] == rest;
  }

  lemma {:induction false} TwoListsFrom(args: seq<string>, rs: seq<Role>, analyse: string -> Option<Uri>, lo: nat)
    returns (ia: seq<nat>, ir: seq<nat>)
    requires lo <= |args| == |rs|
    ensures SplitUris(rs, ia, ir, lo)
    ensures AcceptedAre(args, analyse, ia, Accepted(RoleFrom(args, rs, AsUri, lo), analyse))
    ensures RefusedAre(args, analyse, ir, Refused(RoleFrom(args, rs, AsUri, lo), analyse))
    decreases |args| - lo
  {
    if lo == |args| {
      ia, ir := [], [];
    } else {
      hide *;
      ia, ir := TwoListsFrom(args, rs, analyse, lo + 1);
      var rest := RoleFrom(args, rs, AsUri, lo + 1);
      RoleNext(args, rs, AsUri, lo);
      if rs[lo] == AsUri {
        OneUri(args[lo], rest, analyse);
        var first := analyse(args[lo]).Some?;
        SplitMore(rs, ia, ir, lo, first);
        if first {
          AcceptedMore(args, analyse, ia, Accepted(rest, analyse), lo);
          ia := [lo] + ia;
        } else {
          RefusedMore(args, analyse, ir, Refused(rest, analyse), lo);
          ir := [lo] + ir;
        }
      } else {
        SplitSkips(rs, ia, ir, lo);
      }
    }
  }

  lemma SplitSkips(rs: seq<Role>, ia: seq<nat>, ir: seq<nat>, lo: nat)
    requires lo < |rs| && rs[lo] != AsUri && SplitUris(rs, ia, ir, lo + 1)
    ensures SplitUris(rs, ia, ir, lo)
  {
  }

  lemma {:induction false} LastWithRole(args: seq<string>, rs: seq<Role>, role: Role, lo: nat)
    requires lo <= |args| == |rs|
    ensures RoleFrom(args, rs, role, lo) == [] <==> forall k :: lo <= k < |args| ==> rs[k] != role
    ensures RoleFrom(args, rs, role, lo) != [] ==>
              exists k :: lo <= k < |args| && rs[k] == role && LastOf(RoleFrom(args, rs, role, lo)) == Some(args[k])
                          && forall j :: k < j < |args| ==> rs[j] != role
    decreases |args| - lo
  {
    if lo < |args| {
      LastWithRole(args, rs, role, lo + 1);
      RoleNext(args, rs, role, lo);
      hide RoleFrom;
    }
  }

  /** The directory is the last one given, if any is. */
  ghost predicate DirIsLast(args: seq<string>, dir: Option<string>) {
    match dir
    case None => forall k :: 0 <= k < |args| ==> Roles(args)[k] != AsDirValue
    case Some(d) => exists k :: 0 <= k < |args| && Roles(args)[k] == AsDirValue && args[k] == d
                                && forall j :: k < j < |args| ==> Roles(args)[j] != AsDirValue
  }

  /**
   When nothing asks for an early answer, each URI argument is in exactly one of the two lists,
   as what it was analysed to or as it was written, both lists keep the order of the command
   line, and the last directory given is the directory.
   */
  lemma TwoLists(args: seq<string>, analyse: string -> Option<Uri>) returns (ia: seq<nat>, ir: seq<nat>)
    requires forall i :: 0 <= i < |args| ==> !AsksEarly(args, i)
    ensures SplitUris(Roles(args), ia, ir, 0)
    ensures var o := Grammar(args, analyse);
            && o.Run? && DirIsLast(args, o.dir)
            && (o.hasUri <==> exists k :: 0 <= k < |args| && Roles(args)[k] == AsUri)
            && AcceptedAre(args, analyse, ia, o.uris) && RefusedAre(args, analyse, ir, o.unsupported)
            && (o.uris != [] || o.unsupported != [] <==> o.hasUri)
  {
    hide *;
    HasExitIff(args);
    NoEarlyAnswer(args, analyse);
    ByRoleIs(args, analyse);
    DirOfRoles(args);
    var rs := Roles(args);
    LastWithRole(args, rs, AsUri, 0);
    ia, ir := TwoListsFrom(args, rs, analyse, 0);
    BothLists(RoleFrom(args, rs, AsUri, 0), analyse);
  }

  lemma ByRoleIs(args: seq<string>, analyse: string -> Option<Uri>)
    ensures var o := ByRole(args, analyse);
            var uris := RoleFrom(args, Roles(args), AsUri, 0);
            && o.Run? && o.dir == LastOf(RoleFrom(args, Roles(args), AsDirValue, 0))
            && o.hasUri == (uris != []) && o.uris == Accepted(uris, analyse) && o.unsupported == Refused(uris, analyse)
  {
    hide Roles, WithRole, Accepted, Refused;
    assert args[0..] == args && Roles(args)[0..] == Roles(args);
  }

  lemma DirOfRoles(args: seq<string>)
    ensures DirIsLast(args, LastOf(RoleFrom(args, Roles(args), AsDirValue, 0)))
  {
    hide Roles, RoleFrom;
    LastWithRole(args, Roles(args), AsDirValue, 0);
  }

  lemma BothLists(uris: seq<string>, analyse: string -> Option<Uri>)
    ensures Accepted(uris, analyse) != [] || Refused(uris, analyse) != [] <==> uris != []
  {
  }

  /** The first list holds exactly the positions of the URI arguments that are accepted. */
  lemma AcceptedPositions(args: seq<string>, analyse: string -> Option<Uri>, ia: seq<nat>, ir: seq<nat>,
                          uris: seq<Uri>, texts: seq<string>)
    requires SplitUris(Roles(args), ia, ir, 0)
    requires AcceptedAre(args, analyse, ia, uris) && RefusedAre(args, analyse, ir, texts)
    ensures forall k :: k in ia <==> 0 <= k < |args| && Roles(args)[k] == AsUri && analyse(args[k]).Some?
  {
    hide Roles, Increasing;
  }
}
