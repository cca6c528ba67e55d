/**
 The client and the service as two processes over two shared buffers and two semaphores.
 Clients come one at a time, without limit on their number; a run is any interleaving of the
 client present with the service.
 */
module Handshake {
  import opened Seqs
  import opened CStrings
  import opened DownloadManager
  import opened Command
  import opened Service

  /** Where the client stands; the comment gives the line it is about to run. */
  datatype ClientPc =
    | NoClient
    | Copying(args: seq<string>)  // 95
    | Posting(args: seq<string>)  // 96
    | Waiting(args: seq<string>)  // 99
    | Printing(args: seq<string>) // 100
    | ClearingCommand             // 102
    | ClearingReply               // 103

  datatype Action = Send(m: Message) | Submit(task: DownloadTask)

  datatype ServicePc =
    | AtWait                   // 313
    | Reading                  // 322
    | Acting(rest: seq<Action>) // 328-410, then 417

  /** What a client asked and what it printed. */
  datatype Exchange = Exchange(args: seq<string>, printed: string)

  datatype State = State(
    clientBuf: seq<char>,
    serverBuf: seq<char>,
    clientSem: nat,
    serviceSem: nat,
    client: ClientPc,
    service: ServicePc,
    exchanges: seq<Exchange>,
    submitted: seq<DownloadTask>
  )

  datatype Event = Arrive(args: seq<string>) | ClientStep(behind: seq<char>) | ServiceStep

  function Init(): State {
    State(Zeros(COMMANDLINE_BUF), Zeros(COMMANDLINE_BUF), 0, 0, NoClient, AtWait, [], [])
  }

  // ----- Steps -----

  /** What the service does for an outcome: messages, with the submission between them. */
  function Actions(cfg: Config, o: Outcome): seq<Action> {
    if o.Run? && o.hasUri then RefusedActions(o) + AcceptedActions(o)
    else
      var ms := Messages(cfg, o);
      if ms == [] then [] else [Send(ms[0])]
  }

  function RefusedActions(o: Outcome): seq<Action>
    requires o.Run?
  {
    if o.unsupported != [] then [Send(Say(UnsupportedText(o.unsupported)))] else []
  }

  function AcceptedActions(o: Outcome): seq<Action>
    requires o.Run?
  {
    if o.uris != [] then [Submit(DownloadTask(o.uris, o.dir)), Send(Add(SupportedText(o.uris)))] else []
  }

  predicate Sized(s: State) {
    |s.clientBuf| == COMMANDLINE_BUF && |s.serverBuf| == COMMANDLINE_BUF
  }

  predicate Enabled(s: State, e: Event) {
    && Sized(s)
    && match e
       case Arrive(args) => s.client.NoClient? && AllNoNul(args)
       case ClientStep(behind) =>
         (match s.client
          case NoClient => false
          case Copying(args) => |Glue(args, "|")| + 1 + |behind| >= COMMANDLINE_BUF - 1
          case Waiting(_) => s.clientSem > 0
          case _ => true)
       case ServiceStep => s.service.AtWait? ==> s.serviceSem > 0
  }

  function StepClient(s: State, behind: seq<char>): State
    requires Enabled(s, ClientStep(behind))
  {
    match s.client
    case Copying(args) =>
      s.(clientBuf := Written(s.clientBuf, Glue(args, "|"), behind), client := Posting(args))
    case Posting(args) => s.(serviceSem := s.serviceSem + 1, client := Waiting(args))
    case Waiting(args) => s.(clientSem := s.clientSem - 1, client := Printing(args))
    case Printing(args) =>
      s.(exchanges := s.exchanges + [Exchange(args, Text(s.serverBuf))], client := ClearingCommand)
    case ClearingCommand => s.(clientBuf := Zeros(COMMANDLINE_BUF), client := ClearingReply)
    case ClearingReply => s.(serverBuf := Zeros(COMMANDLINE_BUF), client := NoClient)
  }

  function StepService(cfg: Config, s: State): State
    requires Enabled(s, ServiceStep)
  {
    match s.service
    case AtWait => s.(serviceSem := s.serviceSem - 1, service := Reading)
    case Reading =>
      s.(service := Acting(Actions(cfg, Grammar(Split(Text(s.clientBuf), "|"), cfg.analyse))))
    case Acting(rest) =>
      if rest == [] then s.(clientSem := s.clientSem + 1, service := AtWait)
      else match rest[0]
           case Submit(task) => s.(submitted := s.submitted + [task], service := Acting(rest[1..]))
           case Send(m) =>
             s.(clientBuf := if m.Say? then Zeros(COMMANDLINE_BUF) else s.clientBuf,
                serverBuf := Apply(s.serverBuf, m), service := Acting(rest[1..]))
  }

  function Do(cfg: Config, s: State, e: Event): State
    requires Enabled(s, e)
  {
    match e
    case Arrive(args) => s.(client := Copying(args))
    case ClientStep(behind) => StepClient(s, behind)
    case ServiceStep => StepService(cfg, s)
  }

  predicate Legal(cfg: Config, s: State, es: seq<Event>)
    decreases |es|
  {
    es == [] || (Enabled(s, es[0]) && Legal(cfg, Do(cfg, s, es[0]), es[1..]))
  }

  function Run(cfg: Config, s: State, es: seq<Event>): State
    requires Legal(cfg, s, es)
    decreases |es|
  {
    if es == [] then s else Run(cfg, Do(cfg, s, es[0]), es[1..])
  }

  // ----- What a client is owed -----

  function OutcomeOf(cfg: Config, args: seq<string>): Outcome {
    Grammar(Received(args), cfg.analyse)
  }

  /** The buffer that answers these arguments and nothing else. */
  function Goal(cfg: Config, args: seq<string>): seq<char> {
    ApplyAll(Zeros(COMMANDLINE_BUF), Messages(cfg, OutcomeOf(cfg, args)))
  }

  function TaskOf(cfg: Config, args: seq<string>): seq<DownloadTask> {
    match Submission(OutcomeOf(cfg, args))
    case Some(task) => [task]
    case None => []
  }

  function TasksOf(cfg: Config, xs: seq<Exchange>): seq<DownloadTask> {
    if xs == [] then [] else TasksOf(cfg, xs[..|xs| - 1]) + TaskOf(cfg, xs[|xs| - 1].args)
  }

  function SendOf(a: Action): seq<Message> {
    if a.Send? then [a.m] else []
  }

  function SubmitOf(a: Action): seq<DownloadTask> {
    if a.Submit? then [a.task] else []
  }

  /** The messages still to come in a list of actions. */
  function Sends(acts: seq<Action>): seq<Message> {
    if acts == [] then [] else SendOf(acts[0]) + Sends(acts[1..])
  }

  /** The submissions still to come in a list of actions. */
  function Submits(acts: seq<Action>): seq<DownloadTask> {
    if acts == [] then [] else SubmitOf(acts[0]) + Submits(acts[1..])
  }

  lemma {:induction false} SendsConcat(a: seq<Action>, b: seq<Action>)
    ensures Sends(a + b) == Sends(a) + Sends(b)
  {
    hide SendOf;
    if a == [] {
      assert a + b == b;
    } else {
      assert (a + b)[1..] == a[1..] + b;
      SendsConcat(a[1..], b);
      assert Sends(a + b) == SendOf(a[0]) + (Sends(a[1..]) + Sends(b));
    }
  }

  lemma {:induction false} SubmitsConcat(a: seq<Action>, b: seq<Action>)
    ensures Submits(a + b) == Submits(a) + Submits(b)
  {
    hide SubmitOf;
    if a == [] {
      assert a + b == b;
    } else {
      assert (a + b)[1..] == a[1..] + b;
      SubmitsConcat(a[1..], b);
      assert Submits(a + b) == SubmitOf(a[0]) + (Submits(a[1..]) + Submits(b));
    }
  }

  lemma OneAction(a: Action)
    ensures Sends([a]) == SendOf(a) && Submits([a]) == SubmitOf(a)
  {
    assert [a][1..] == [];
  }

  /** The actions for an outcome carry its messages in order and its task. */
  lemma ActionsDo(cfg: Config, o: Outcome)
    ensures Sends(Actions(cfg, o)) == Messages(cfg, o)
    ensures Submits(Actions(cfg, o)) == match Submission(o) case Some(task) => [task] case None => []
  {
    hide UnsupportedText, SupportedText;
    if o.Run? && o.hasUri {
      var first, second := RefusedActions(o), AcceptedActions(o);
      SendsConcat(first, second);
      SubmitsConcat(first, second);
      RefusedDo(o);
      AcceptedDo(o);
      hide Sends, Submits, RefusedActions, AcceptedActions;
    } else if Actions(cfg, o) != [] {
      OneAction(Actions(cfg, o)[0]);
    }
  }

  lemma RefusedDo(o: Outcome)
    requires o.Run?
    ensures Sends(RefusedActions(o)) == if o.unsupported != [] then [Say(UnsupportedText(o.unsupported))] else []
    ensures Submits(RefusedActions(o)) == []
  {
    hide UnsupportedText;
    if o.unsupported != [] { OneAction(RefusedActions(o)[0]); }
  }

  lemma AcceptedDo(o: Outcome)
    requires o.Run?
    ensures Sends(AcceptedActions(o)) == if o.uris != [] then [Add(SupportedText(o.uris))] else []
    ensures Submits(AcceptedActions(o)) == if o.uris != [] then [DownloadTask(o.uris, o.dir)] else []
  {
    hide SupportedText;
    if o.uris != [] {
      var acts := AcceptedActions(o);
      OneAction(acts[0]);
      OneAction(acts[1]);
      SendsConcat([acts[0]], [acts[1]]);
      SubmitsConcat([acts[0]], [acts[1]]);
      assert acts == [acts[0]] + [acts[1]];
    }
  }

  // ----- The invariant -----

  function Busy(pc: ServicePc): nat {
    if pc.AtWait? then 0 else 1
  }

  /** The client has posted and its wait has not returned. */
  function Owed(pc: ClientPc): nat {
    if pc.Waiting? then 1 else 0
  }

  /** A command lies in the buffer, posted or about to be, and has not been read yet. */
  predicate Unread(s: State) {
    s.client.Posting? || (s.client.Waiting? && (s.serviceSem == 1 || s.service.Reading?))
  }

  /** The reply is complete and has not been printed yet. */
  predicate Answered(s: State) {
    s.client.Printing? || (s.client.Waiting? && s.clientSem == 1)
  }

  predicate SemInv(s: State) {
    s.serviceSem + s.clientSem + Busy(s.service) == Owed(s.client)
  }

  predicate ClientNoNul(pc: ClientPc) {
    match pc
    case Copying(args) => AllNoNul(args)
    case Posting(args) => AllNoNul(args)
    case Waiting(args) => AllNoNul(args)
    case Printing(args) => AllNoNul(args)
    case _ => true
  }

  predicate BufferInv(cfg: Config, s: State)
    requires Sized(s)
  {
    && s.clientBuf[COMMANDLINE_BUF - 1] == NUL
    && (Unread(s) ==> Split(Text(s.clientBuf), "|") == Received(s.client.args))
    && (Unread(s) || s.client.NoClient? || s.client.Copying? ==> s.serverBuf == Zeros(COMMANDLINE_BUF))
    && (s.service.Acting? && s.client.Waiting? ==>
          ApplyAll(s.serverBuf, Sends(s.service.rest)) == Goal(cfg, s.client.args))
    && (Answered(s) ==> s.serverBuf == Goal(cfg, s.client.args))
  }

  predicate TaskInv(cfg: Config, s: State) {
    s.submitted + (if s.service.Acting? then Submits(s.service.rest) else [])
    == TasksOf(cfg, s.exchanges)
       + if Answered(s) || (s.client.Waiting? && s.service.Acting?) then TaskOf(cfg, s.client.args) else []
  }

  predicate FreshInv(cfg: Config, s: State) {
    forall i :: 0 <= i < |s.exchanges| ==>
      && AllNoNul(s.exchanges[i].args)
      && s.exchanges[i].printed == Text(Goal(cfg, s.exchanges[i].args))
  }

  predicate Inv(cfg: Config, s: State) {
    && Sized(s) && SemInv(s) && ClientNoNul(s.client)
    && BufferInv(cfg, s) && TaskInv(cfg, s) && FreshInv(cfg, s)
  }

  lemma InvInit(cfg: Config)
    ensures Inv(cfg, Init())
  {
    hide Goal, Text, Split, ApplyAll, Sends, Received, Submits, TaskOf, AllNoNul;
  }

  lemma SemStep(cfg: Config, s: State, e: Event)
    requires SemInv(s) && ClientNoNul(s.client) && Enabled(s, e)
    ensures Sized(Do(cfg, s, e)) && SemInv(Do(cfg, s, e)) && ClientNoNul(Do(cfg, s, e).client)
  {
    hide Actions, Grammar, Split, Glue;
  }

  lemma BufferClientStep(cfg: Config, s: State, behind: seq<char>)
    requires Inv(cfg, s) && Enabled(s, ClientStep(behind))
    ensures Sized(StepClient(s, behind)) && BufferInv(cfg, StepClient(s, behind))
  {
    hide Goal, Split, Glue, Text, Written, Sends, ApplyAll, TaskInv, FreshInv;
    if s.client.Copying? {
      GlueNoNul(s.client.args, "|");
      WrittenReads(s.clientBuf, Glue(s.client.args, "|"), behind);
    }
  }

  lemma BufferServiceStep(cfg: Config, s: State)
    requires Inv(cfg, s) && Enabled(s, ServiceStep)
    ensures Sized(StepService(cfg, s)) && BufferInv(cfg, StepService(cfg, s))
  {
    match s.service
    case AtWait =>
      hide ApplyAll, Goal, Split, Text, Sends;
    case Reading =>
      StartActing(cfg, s);
    case Acting(rest) =>
      ContinueActing(cfg, s);
  }

  lemma StartActing(cfg: Config, s: State)
    requires Inv(cfg, s) && s.service.Reading?
    ensures Sized(StepService(cfg, s)) && BufferInv(cfg, StepService(cfg, s))
  {
    ActionsDo(cfg, OutcomeOf(cfg, s.client.args));
    hide ApplyAll, Actions, Messages, Split, Text, Sends, Grammar;
  }

  lemma ContinueActing(cfg: Config, s: State)
    requires Inv(cfg, s) && s.service.Acting?
    ensures Sized(StepService(cfg, s)) && BufferInv(cfg, StepService(cfg, s))
  {
    hide Goal, Split, Text, Apply, TaskInv, FreshInv;
    if s.service.rest != [] {
      SendsNext(s.serverBuf, s.service.rest);
      hide ApplyAll, Sends;
    }
  }

  lemma SendsNext(buf: seq<char>, rest: seq<Action>)
    requires |buf| == COMMANDLINE_BUF && rest != []
    ensures ApplyAll(buf, Sends(rest))
            == ApplyAll(if rest[0].Send? then Apply(buf, rest[0].m) else buf, Sends(rest[1..]))
  {
    hide Apply;
    if rest[0].Send? {
      assert Sends(rest)[1..] == Sends(rest[1..]);
    } else {
      assert Sends(rest) == Sends(rest[1..]);
    }
  }

  lemma TaskClientStep(cfg: Config, s: State, behind: seq<char>)
    requires Inv(cfg, s) && Enabled(s, ClientStep(behind))
    ensures TaskInv(cfg, StepClient(s, behind))
  {
    hide TaskOf, TasksOf, Written, Glue, Text, BufferInv, FreshInv, Submits;
    if s.client.Printing? {
      PrintedTask(cfg, s.exchanges, Exchange(s.client.args, Text(s.serverBuf)));
    }
  }

  /** Printing moves the client's task from owed to done. */
  lemma PrintedTask(cfg: Config, xs: seq<Exchange>, x: Exchange)
    ensures TasksOf(cfg, xs + [x]) == TasksOf(cfg, xs) + TaskOf(cfg, x.args)
    ensures TasksOf(cfg, xs + [x]) + [] == TasksOf(cfg, xs + [x])
  {
    hide TaskOf;
    assert (xs + [x])[..|xs + [x]| - 1] == xs;
  }

  lemma TaskServiceStep(cfg: Config, s: State)
    requires Inv(cfg, s) && Enabled(s, ServiceStep)
    ensures TaskInv(cfg, StepService(cfg, s))
  {
    if s.service.Reading? {
      TaskReading(cfg, s);
    } else if s.service.Acting? && s.service.rest != [] {
      TaskActing(cfg, s);
    } else {
      TaskWaits(cfg, s);
    }
  }

  lemma TaskWaits(cfg: Config, s: State)
    requires Inv(cfg, s) && Enabled(s, ServiceStep)
    requires s.service.AtWait? || s.service == Acting([])
    ensures TaskInv(cfg, StepService(cfg, s))
  {
    hide BufferInv, FreshInv, TasksOf, TaskOf;
  }

  lemma TaskReading(cfg: Config, s: State)
    requires Inv(cfg, s) && s.service.Reading?
    ensures TaskInv(cfg, StepService(cfg, s))
  {
    hide TasksOf, Actions, Grammar, Split, Submits, Text, ApplyAll, Goal, FreshInv;
    ActionsDo(cfg, OutcomeOf(cfg, s.client.args));
    assert s.submitted + [] == s.submitted;
    assert TasksOf(cfg, s.exchanges) + [] == TasksOf(cfg, s.exchanges);
  }

  lemma SubmitsNext(submitted: seq<DownloadTask>, rest: seq<Action>)
    requires rest != []
    ensures submitted + Submits(rest) == (submitted + SubmitOf(rest[0])) + Submits(rest[1..])
  {
  }

  lemma TaskActing(cfg: Config, s: State)
    requires Inv(cfg, s) && s.service.Acting? && s.service.rest != []
    ensures TaskInv(cfg, StepService(cfg, s))
  {
    hide TasksOf, TaskOf, BufferInv, FreshInv, Apply, Submits;
    var t := StepService(cfg, s);
    SubmitsNext(s.submitted, s.service.rest);
    assert t.submitted == s.submitted + SubmitOf(s.service.rest[0]);
    assert s.client.Waiting? && t.client == s.client && t.exchanges == s.exchanges;
  }

  lemma TaskAtRest(cfg: Config, s: State)
    requires Inv(cfg, s) && s.client.NoClient?
    ensures s.submitted == TasksOf(cfg, s.exchanges)
  {
    hide BufferInv, FreshInv, TasksOf;
    assert s.submitted + [] == s.submitted;
    assert TasksOf(cfg, s.exchanges) + [] == TasksOf(cfg, s.exchanges);
  }

  lemma FreshStep(cfg: Config, s: State, e: Event)
    requires Inv(cfg, s) && Enabled(s, e)
    ensures FreshInv(cfg, Do(cfg, s, e))
  {
    hide Goal, Actions, Grammar, Split, Glue, Text;
  }

  lemma {:induction false} InvStep(cfg: Config, s: State, e: Event)
    requires Inv(cfg, s) && Enabled(s, e)
    ensures Inv(cfg, Do(cfg, s, e))
  {
    SemStep(cfg, s, e);
    FreshStep(cfg, s, e);
    match e
    case ClientStep(behind) =>
      BufferClientStep(cfg, s, behind);
      TaskClientStep(cfg, s, behind);
    case ServiceStep =>
      BufferServiceStep(cfg, s);
      TaskServiceStep(cfg, s);
    case Arrive(args) =>
  }

  lemma {:induction false} InvRun(cfg: Config, s: State, es: seq<Event>)
    requires Inv(cfg, s) && Legal(cfg, s, es)
    ensures Inv(cfg, Run(cfg, s, es))
    decreases |es|
  {
    if es != [] {
      InvStep(cfg, s, es[0]);
      InvRun(cfg, Do(cfg, s, es[0]), es[1..]);
    }
  }

  // ----- Main results -----

  /** The client reads or writes a shared buffer in its next step. */
  predicate ClientTouches(pc: ClientPc) {
    pc.Copying? || pc.Printing? || pc.ClearingCommand? || pc.ClearingReply?
  }

  lemma Reached(cfg: Config, es: seq<Event>)
    requires Legal(cfg, Init(), es)
    ensures Inv(cfg, Run(cfg, Init(), es))
  {
    hide Legal, Run;
    InvInit(cfg);
    InvRun(cfg, Init(), es);
  }

  /** Client and service never touch the buffers together, and no semaphore exceeds one. */
  lemma MutualExclusion(cfg: Config, es: seq<Event>)
    requires Legal(cfg, Init(), es)
    ensures var s := Run(cfg, Init(), es);
            && !(ClientTouches(s.client) && !s.service.AtWait?)
            && s.serviceSem + s.clientSem + Busy(s.service) == Owed(s.client)
            && s.serviceSem <= 1 && s.clientSem <= 1
  {
    hide Legal, Run, Init, BufferInv, TaskInv, FreshInv;
    Reached(cfg, es);
  }

  /**
   Every client, however many came before, prints exactly the reply to its own command, cut
   to the buffer, with nothing left over from an earlier one.
   */
  lemma FreshReplies(cfg: Config, es: seq<Event>, i: nat)
    requires ConfigNoNul(cfg) && Legal(cfg, Init(), es)
    requires i < |Run(cfg, Init(), es).exchanges|
    ensures var x := Run(cfg, Init(), es).exchanges[i];
            x.printed == Cut(FullReply(cfg, Grammar(Received(x.args), cfg.analyse)), 10239)
  {
    hide Legal, Run, Init, BufferInv, TaskInv;
    Reached(cfg, es);
    ReplyOf(cfg, Run(cfg, Init(), es).exchanges[i].args);
    hide Goal, FullReply, Grammar, Received;
  }

  // ----- Nobody is passed over -----

  /** The arguments of every client that came, in order. */
  function Arrived(es: seq<Event>): seq<seq<string>> {
    if es == [] then [] else (if es[0].Arrive? then [es[0].args] else []) + Arrived(es[1..])
  }

  function ArgsOf(xs: seq<Exchange>): (r: seq<seq<string>>)
    ensures |r| == |xs| && forall i :: 0 <= i < |xs| ==> r[i] == xs[i].args
  {
    seq(|xs|, i requires 0 <= i < |xs| => xs[i].args)
  }

  /** The arguments of a client that is present and has not printed its reply yet. */
  function Unanswered(pc: ClientPc): seq<seq<string>> {
    if pc.Copying? || pc.Posting? || pc.Waiting? || pc.Printing? then [pc.args] else []
  }

  lemma AnswerStep(cfg: Config, s: State, e: Event)
    requires Enabled(s, e)
    ensures var t := Do(cfg, s, e);
            ArgsOf(t.exchanges) + Unanswered(t.client)
            == ArgsOf(s.exchanges) + Unanswered(s.client) + if e.Arrive? then [e.args] else []
  {
    hide Actions, Grammar, Split, Text, Glue, Written, Apply;
  }

  lemma {:induction false} AnswerRun(cfg: Config, s: State, es: seq<Event>)
    requires Legal(cfg, s, es)
    ensures ArgsOf(Run(cfg, s, es).exchanges) + Unanswered(Run(cfg, s, es).client)
            == ArgsOf(s.exchanges) + Unanswered(s.client) + Arrived(es)
    decreases |es|
  {
    hide Do, Enabled, ArgsOf, Unanswered;
    if es != [] {
      AnswerStep(cfg, s, es[0]);
      AnswerRun(cfg, Do(cfg, s, es[0]), es[1..]);
    }
  }

  /** The exchanges of a run are those of its clients in the order they came, all but the one present. */
  lemma ArrivalsAnswered(cfg: Config, es: seq<Event>)
    requires Legal(cfg, Init(), es)
    ensures var s := Run(cfg, Init(), es);
            ArgsOf(s.exchanges) + Unanswered(s.client) == Arrived(es)
  {
    AnswerRun(cfg, Init(), es);
    assert ArgsOf(Init().exchanges) + Unanswered(Init().client) == [];
  }

  predicate Cleared(s: State) {
    s.client.NoClient? || s.client.Copying? || s.client.ClearingReply? ==> s.clientBuf == Zeros(COMMANDLINE_BUF)
  }

  lemma ClearedStep(cfg: Config, s: State, e: Event)
    requires SemInv(s) && Cleared(s) && Enabled(s, e)
    ensures Cleared(Do(cfg, s, e))
  {
    hide Actions, Grammar, Split, Text, Glue, Written, Apply, Zeros;
  }

  lemma {:induction false} ClearedRun(cfg: Config, s: State, es: seq<Event>)
    requires Inv(cfg, s) && Cleared(s) && Legal(cfg, s, es)
    ensures Cleared(Run(cfg, s, es))
    decreases |es|
  {
    hide Inv, Cleared, Do, Enabled;
    if es != [] {
      SemOf(cfg, s);
      ClearedStep(cfg, s, es[0]);
      InvStep(cfg, s, es[0]);
      ClearedRun(cfg, Do(cfg, s, es[0]), es[1..]);
    }
  }

  lemma SemOf(cfg: Config, s: State)
    requires Inv(cfg, s)
    ensures SemInv(s)
  {
  }

  /** Every client finds both buffers zero, so nothing of an earlier exchange is left in them. */
  lemma BuffersClear(cfg: Config, es: seq<Event>)
    requires Legal(cfg, Init(), es)
    ensures var s := Run(cfg, Init(), es);
            s.client.NoClient? ==> s.clientBuf == s.serverBuf == Zeros(COMMANDLINE_BUF)
  {
    hide Legal, Run, TaskInv, FreshInv, Zeros;
    Reached(cfg, es);
    InvInit(cfg);
    ClearedRun(cfg, Init(), es);
  }

  lemma ReplyOf(cfg: Config, args: seq<string>)
    requires ConfigNoNul(cfg) && AllNoNul(args)
    ensures Text(Goal(cfg, args)) == Cut(FullReply(cfg, OutcomeOf(cfg, args)), COMMANDLINE_BUF - 1)
  {
    GlueNoNul(args, "|");
    CutNoNul(Glue(args, "|"), COMMANDLINE_BUF - 1);
    PiecesNoNul(Cut(Glue(args, "|"), COMMANDLINE_BUF - 1), "|");
    assert AllNoNul(Received(args));
    RepliesNoNul(cfg, Received(args));
    hide Received, Grammar, ConfigNoNul, AllNoNul, MessagesNoNul;
    ReplyIsCut(cfg, OutcomeOf(cfg, args));
  }

  /** Between clients, everything submitted is the submission of each client in turn. */
  lemma SubmittedInTurn(cfg: Config, es: seq<Event>)
    requires Legal(cfg, Init(), es)
    ensures var s := Run(cfg, Init(), es);
            s.client.NoClient? ==> s.submitted == TasksOf(cfg, s.exchanges)
  {
    hide Legal, Run, Init, Inv, TasksOf;
    Reached(cfg, es);
    if Run(cfg, Init(), es).client.NoClient? {
      TaskAtRest(cfg, Run(cfg, Init(), es));
    }
  }

  // ----- Every exchange completes -----

  function ClientRank(pc: ClientPc): nat {
    match pc
    case NoClient => 0
    case ClearingReply => 1
    case ClearingCommand => 2
    case Printing(_) => 3
    case Waiting(_) => 4
    case Posting(_) => 20
    case Copying(_) => 21
  }

  /** Steps left in the current exchange. */
  function Left(s: State): nat {
    ClientRank(s.client) + 10 * s.serviceSem
    + match s.service
      case AtWait => 0
      case Reading => 8
      case Acting(rest) => 1 + |rest|
  }

  /** As long as a client is present somebody can step, and each step brings its exit nearer. */
  lemma ExchangeCompletes(cfg: Config, s: State)
    requires Inv(cfg, s)
    ensures s.client.NoClient? <==>
            !Enabled(s, ServiceStep) && forall behind :: !Enabled(s, ClientStep(behind))
  {
    if !s.client.NoClient? {
      var behind := Zeros(COMMANDLINE_BUF);
      assert Enabled(s, ServiceStep) || Enabled(s, ClientStep(behind));
    }
  }

  lemma ActionsFew(cfg: Config, o: Outcome)
    ensures |Actions(cfg, o)| <= 3
  {
  }

  lemma {:induction false} StepsCount(cfg: Config, s: State, e: Event)
    requires Inv(cfg, s) && Enabled(s, e) && !e.Arrive?
    ensures Left(Do(cfg, s, e)) < Left(s)
  {
    hide Actions, Grammar, Split, Text, Glue, BufferInv, TaskInv, FreshInv, Apply, Written;
    if s.service.Reading? {
      ActionsFew(cfg, Grammar(Split(Text(s.clientBuf), "|"), cfg.analyse));
    }
  }

  lemma {:induction false} RunConcat(cfg: Config, s: State, a: seq<Event>, b: seq<Event>)
    requires Legal(cfg, s, a) && Legal(cfg, Run(cfg, s, a), b)
    ensures Legal(cfg, s, a + b) && Run(cfg, s, a + b) == Run(cfg, Run(cfg, s, a), b)
    decreases |a|
  {
    hide Enabled, Do;
    if a == [] {
      assert a + b == b;
    } else {
      RunConcat(cfg, Do(cfg, s, a[0]), a[1..], b);
      assert (a + b)[1..] == a[1..] + b;
    }
  }

  /** Without a new client, whoever is present is served and leaves. */
  lemma {:induction false} RunOut(cfg: Config, s: State) returns (es: seq<Event>)
    requires Inv(cfg, s)
    ensures Legal(cfg, s, es) && Run(cfg, s, es).client.NoClient? && Arrived(es) == []
    decreases Left(s)
  {
    hide Inv, Left;
    ExchangeCompletes(cfg, s);
    if s.client.NoClient? {
      es := [];
    } else {
      var e :| Enabled(s, e) && !e.Arrive?;
      StepsCount(cfg, s, e);
      InvStep(cfg, s, e);
      var rest := RunOut(cfg, Do(cfg, s, e));
      es := [e] + rest;
      assert es[1..] == rest;
    }
  }

  lemma {:induction false} ArrivedConcat(a: seq<Event>, b: seq<Event>)
    ensures Arrived(a + b) == Arrived(a) + Arrived(b)
  {
    if a == [] {
      assert a + b == b;
    } else {
      assert (a + b)[1..] == a[1..] + b;
      ArrivedConcat(a[1..], b);
    }
  }

  /** When no client is present any command line may come, and it is answered after all earlier ones. */
  lemma NextClientAnswered(cfg: Config, es: seq<Event>, args: seq<string>) returns (more: seq<Event>)
    requires Legal(cfg, Init(), es) && Run(cfg, Init(), es).client.NoClient? && AllNoNul(args)
    ensures Legal(cfg, Init(), es + more)
    ensures var s := Run(cfg, Init(), es + more);
            s.client.NoClient? && ArgsOf(s.exchanges) == Arrived(es) + [args]
  {
    hide Inv, Do, AllNoNul, Goal, Init;
    var s := Run(cfg, Init(), es);
    Reached(cfg, es);
    SizedOf(cfg, s);
    InvStep(cfg, s, Arrive(args));
    var rest := RunOut(cfg, Do(cfg, s, Arrive(args)));
    more := [Arrive(args)] + rest;
    assert more[1..] == rest;
    RunConcat(cfg, Init(), es, more);
    ArrivalsAnswered(cfg, es + more);
    ArrivedConcat(es, more);
    assert Arrived(more) == [args] + Arrived(rest);
    var t := Run(cfg, Init(), es + more);
    assert ArgsOf(t.exchanges) + Unanswered(t.client) == ArgsOf(t.exchanges);
  }

  lemma SizedOf(cfg: Config, s: State)
    requires Inv(cfg, s)
    ensures Sized(s)
  {
  }
}
