# Verified model of graceful-downloader

This project models the parts of graceful-downloader whose correctness depends on more than
one function, and proves what they promise. Where the code does not do what it evidently
means to do, the code is modelled as it is and the exact condition under which it meets the
intent is proved.

| files | what they model |
|---|---|
| `ThreadPool.dfy`, `ThreadPoolSafety.dfy`, `ThreadPoolProgress.dfy`, `ThreadPoolSubmission.dfy`, `ThreadPoolShutdown.dfy`, `ThreadPoolLeftover.dfy` | the worker pool as a state machine: one program counter per worker, per thread that adds work and for the thread that destroys the pool; every shared access is a step |
| `WorkQueue.dfy` | the pool's linked list, walked and changed in place |
| `Service.dfy`, `Handshake.dfy`, `Command.dfy`, `ClientReply.dfy` | the client and the service: shared buffers, semaphores, command line, reply, and what a client reads for what it asked |
| `DownloadManager.dfy` | the scheme tables, the gate for URIs, the submission loop |
| `HttpRequest.dfy`, `HttpMessage.dfy`, `HttpNewRequest.dfy` | printing a request head into a sized buffer, what a new request says, and a reader after RFC 7230 sections 3.1.1 and 3.2 |
| `Http.dfy`, `HttpExchange.dfy` | reading a response head byte by byte, copying the body |
| `HeaderTable.dfy`, `HttpHeader.dfy` | the header list, as a value and in place with ownership |
| `Utils.dfy` | bounded string copy and append |
| `CStrings.dfy`, `Seqs.dfy` | C strings, split and join, sums over sequences |

`dafny verify dfyconfig.toml` checks the whole project.

## Reading the model

- A byte is a Dafny `char` and NUL is `'\0'`; nothing depends on the width of a byte.
- In the pool's runs memory is sequentially consistent, `pthread_cond_signal` wakes one sleeping
  worker of the scheduler's choice, and spurious wakeups may occur at any time (so "wakes at
  least one" is covered).
- In the handshake one client is present at a time, as `src/main.c:89-92` intends, and no signal
  arrives. What `memcpy` copies from behind the command's NUL is arbitrary.
- `g_uri_parse` is a parameter. `KeepsScheme`, the one assumption made about it, says that it
  keeps the scheme in lower case. The table of known header names and the user agent
  are parameters.
- `tcp_read` delivers any number of bytes between one and the room there is, until the stream
  ends; an error counts as the end. A `write` completes.
- Memory allocation succeeds.

## Where the code and its intent differ

- **Destroying the pool** (`core/thread-pool.c:143-144`). The flag is stored and broadcast without
  the lock, so a worker that has already found it zero may sleep for good. `DestroyJoinsIffAtRest`
  gives the condition at the call: with no later submission and no spurious wakeup, destroy joins
  all workers in every interleaving exactly when the pool is at rest, with nothing queued, run or
  being added and every worker asleep. `SpuriousWakeupUndoesRest` shows that one spurious wakeup
  just before the call is enough to lose even that. `BroadcastJoinsIff` gives the condition at the
  broadcast: no worker stands between its test and its wait, or some adder has yet to take the
  lock, whose signal then comes after that worker has gone to sleep. `MissedBroadcast` is a
  failing interleaving.
- **Freeing what is left in the queue** (`core/thread-pool.c:159-164`) frees every other node, so it
  leaks exactly when something is left: `FreesEveryOther`. Any backlog can be left: in
  `BacklogLeaks` all jobs of any list are added, destroy joins every worker, and no job was started.
- **Growing the request buffer** (`core/http-request.c:118-121`). The test after the realloc jumps
  to the error exit when the realloc succeeds, so a line that does not fit makes the function
  return NULL. `GetString` returns NULL exactly when `DoesNotFit` holds, which
  `DefaultRequestRefused` turns into lengths of resource, host and agent. The slack constants are
  tight: the loop invariant keeps 11 bytes free after the first line and 12 after a printed header,
  so no `g_snprintf` is cut and the subtraction before each line cannot wrap.
- **Growing the head buffer** (`core/http.c:137`) happens while there is room, so on every stored
  byte; the size is quadratic in the bytes stored and leaves a 32-bit int after 2895 of them
  (`BufferSizeFitsIff`). The model reports that moment as `SizeOverflow`.
- **Listing header names** (`core/http-header.c:231-238`) indexes by slot, so it is right exactly
  when the occupied slots come first; `GetHeaders` says so in both directions. A set keeps that
  (`PutKeepsPacked`), a clear keeps it exactly when it clears nothing or the last occupied slot
  (`RemoveKeepsPackedIff`), so two sets and a clear are enough to lose it (`HoleByClear`).
- **A URI without a path** (`core/http.c:47-51`). The default `/index.html` is used only for a NULL
  path, but GLib gives an empty path for such a URI, so the request line has an empty target.
  `PrintThenParse` is an equivalence for every resource and header list; `BadTargetUnreadable`
  shows that with an empty resource, or one with a space and no line break, no request reads back at all.
- **Sending a command** (`src/main.c:94-95`) loses the arguments when one contains `|`, when the
  only argument is empty, or when the joined text exceeds the buffer; `ReceivedIff` has no other case.
- **The save directory** is left unset without `-d` (`src/main.c:392-394`); it is modelled as `None`.

## Model

| member | source | states |
|---|---|---|
| ThreadPool.InvInit | core/thread-pool.c:44-66 | the pool's invariant holds once the workers are created |
| ThreadPool.LockStep | core/thread-pool.c:76-89 | every step keeps: a thread is in its critical section exactly when it owns the mutex |
| ThreadPool.CounterStep | core/thread-pool.c:86-127 | every step keeps workernum equal to the list length, up to the one critical section that has changed only one of them |
| ThreadPool.PlaceStep | core/thread-pool.c:77-86 | every step keeps what each place between the two reads of shutdown knows about the counter |
| ThreadPool.FifoStep | core/thread-pool.c:86-124 | every step keeps: jobs linked = jobs unlinked followed by jobs queued |
| ThreadPool.ConservedStep | core/thread-pool.c:86-91 | every step keeps: each unlinked job is in a worker's hands or finished, as often as it was unlinked |
| ThreadPool.WakeupStep | core/thread-pool.c:77-129 | every step keeps queued work covered by signals owed and workers about to look, while any worker sleeps |
| ThreadPool.InvStep | core/thread-pool.c:73-150 | every step of every thread keeps the whole invariant |
| ThreadPoolSafety.Reached | core/thread-pool.c:73-150 | every state of every interleaving satisfies the invariant |
| ThreadPoolSafety.MutualExclusion | core/thread-pool.c:76-128 | no two threads are ever in critical sections together |
| ThreadPoolSafety.CounterMatchesList | core/thread-pool.c:86-128 | whenever the lock is free workernum is the length of the list |
| ThreadPoolSafety.DequeueFindsWork | core/thread-pool.c:77-88 | a worker about to dequeue finds a nonempty list although shutdown is read twice and may change in between |
| ThreadPoolSafety.Fifo | core/thread-pool.c:86-124 | jobs leave in the order they were linked, over every run |
| ThreadPoolSafety.Conservation | core/thread-pool.c:86-127 | over every run each linked job is queued, held or finished, as often as it was linked |
| ThreadPoolSafety.ExactlyOnePlace | core/thread-pool.c:86-127 | distinct jobs are each in exactly one of queued, held by one worker, finished once |
| ThreadPoolSafety.WakeupsCoverQueue | core/thread-pool.c:76-129 | before shutdown, while a worker sleeps, queue length is at most signals owed plus workers about to look |
| ThreadPoolProgress.QueuedWorkMoves | core/thread-pool.c:75-129 | before shutdown a queued job always leaves a worker, adder or callback able to step, without spurious wakeups |
| ThreadPoolProgress.QuiescentIffDrained | core/thread-pool.c:75-129 | before shutdown the pool is at rest exactly when nothing is queued, run or being added |
| ThreadPoolProgress.InternalDecreases | core/thread-pool.c:75-129 | every step of a worker or adder lowers a measure of the work left |
| ThreadPoolProgress.SpuriousAddsFive | core/thread-pool.c:78 | a spurious wakeup raises the measure by exactly five |
| ThreadPoolProgress.DrainingIsBounded | core/thread-pool.c:75-129 | a run without submissions or destroy is no longer than the measure plus six steps per spurious wakeup |
| ThreadPoolProgress.DrainedMeansFinished | core/thread-pool.c:75-129 | such a run, once it cannot continue, has finished every linked job as often as it was linked |
| ThreadPoolProgress.RunToRest | core/thread-pool.c:75-129 | from every state the threads' own steps alone lead to rest |
| ThreadPoolSubmission.LinkedOrPending | core/thread-pool.c:96-127 | over every run each job handed to add_work is linked or still in an adder's hands, as often as it was submitted |
| ThreadPoolSubmission.Conservation | core/thread-pool.c:86-127 | over every run each submitted job is pending, queued, held or finished, as often as it was submitted |
| ThreadPoolSubmission.ExactlyOnePlace | core/thread-pool.c:86-127 | a job submitted once is in exactly one of those four places, once |
| ThreadPoolSubmission.RestMeansAllDone | core/thread-pool.c:75-129 | a run that comes to rest without destroy has finished exactly the submitted jobs |
| ThreadPoolSubmission.SubmittedGetsDone | core/thread-pool.c:75-129 | after any run without destroy an idle adder can submit any job, and the threads' own steps finish it and all earlier ones |
| ThreadPoolSubmission.StartedInOrder | core/thread-pool.c:86-127 | with one submitting thread jobs are started in the order of submission |
| ThreadPoolShutdown.AtMostOneMoreJob | core/thread-pool.c:81-88 | after shutdown is stored at most one more job is dequeued: the head, by a worker already past its second test |
| ThreadPoolShutdown.LeavingStep | core/thread-pool.c:77-84 | once the broadcast has fired with nobody sleeping or bound to sleep, it stays so whatever is done |
| ThreadPoolShutdown.RescuedStep | core/thread-pool.c:77-129 | after the broadcast every step keeps: only one worker may sleep or be about to, and then an adder on its way will signal it |
| ThreadPoolShutdown.LeaversJoin | core/thread-pool.c:143-150 | after a broadcast that finds no worker between test and wait, or an adder yet to lock, every run that stops has all workers exited and joined, submissions and spurious wakeups included |
| ThreadPoolShutdown.ClosingIsBounded | core/thread-pool.c:81-150 | closing down takes a bounded number of steps |
| ThreadPoolShutdown.LeftBehindForever | core/thread-pool.c:77-78 | with all adders idle and no new submission or spurious wakeup, a worker that sleeps after the broadcast never exits and the joins never get past it |
| ThreadPoolShutdown.BroadcastJoinsIff | core/thread-pool.c:143-150 | from the broadcast on, all interleavings join all workers iff no worker is between test and wait or some adder has yet to take the lock |
| ThreadPoolShutdown.DestroyAtRest | core/thread-pool.c:134-150 | destroying a pool at rest joins every worker and leaves an empty queue, in every run that stops |
| ThreadPoolShutdown.DestroyJoinsIffAtRest | core/thread-pool.c:134-150 | from the call on, whatever the threads are doing, all interleavings join all workers iff there are none or the pool is at rest when destroy is called |
| ThreadPoolShutdown.SpuriousWakeupUndoesRest | core/thread-pool.c:77-78 | one spurious wakeup of any worker before the call makes some interleaving leave a worker unjoined |
| ThreadPoolShutdown.MissedBroadcast | core/thread-pool.c:77-144 | a concrete interleaving, for any number of workers, in which destroy does not return |
| ThreadPoolLeftover.LeftoverIs | core/thread-pool.c:81-144 | once shutdown is stored the queue only grows at its end, save for the head a worker past its second test may still take |
| ThreadPoolLeftover.BacklogLeaks | core/thread-pool.c:134-164 | for any list of jobs and any number of workers there is a run in which destroy joins all, the whole list is left, and the cleanup frees half of its nodes |
| WorkQueue.Pool.AddWork | core/thread-pool.c:115-127 | the pointer walk appends to the queue, keeps the nodes before it and the counter exact |
| WorkQueue.Pool.TakeWork | core/thread-pool.c:86-88 | unlinks the head and leaves the rest in order |
| WorkQueue.Pool.Acyclic | core/thread-pool.c:117-126 | a list that ends visits no node twice |
| WorkQueue.Pool.FreeLeftover | core/thread-pool.c:157-164 | the cleanup loop ends and frees the first node of each adjacent pair, in list order |
| WorkQueue.FreesEveryOther | core/thread-pool.c:157-164 | that is half of the nodes, each once and in order, and all of them exactly when there are none |
| Utils.Strlcpy | core/utils.c:26-46 | the buffer becomes the cut text, a NUL and the old rest; the source length is returned |
| Utils.Strlcat | core/utils.c:49-78 | the text is appended within the bound, unchanged without a NUL in range; old length, at most the bound, plus source length is returned |
| Utils.CopiedBytes | core/utils.c:26-46 | byte by byte what a copy leaves, for every bound |
| Utils.AppendedBytes | core/utils.c:49-78 | byte by byte what an append leaves, for every bound and buffer, and the return value min(bound, old length) plus source length |
| Utils.CopyThenAppends | core/utils.c:26-78 | a copy and any appends leave the first dsize-1 bytes of the concatenation, nothing past dsize changes, and text was lost iff some call returned dsize or more |
| HeaderTable.GetLaw | core/http-header.c:197-211 | a get is a lookup of the lower-cased key in the map |
| HeaderTable.PutLaw | core/http-header.c:165-195 | a successful set updates the map at the lower-cased key only |
| HeaderTable.RemoveLaw | core/http-header.c:263-280 | a clear removes the lower-cased key only |
| HeaderTable.PutClean | core/http-header.c:165-195 | a set keeps names distinct ignoring case |
| HeaderTable.PutFailsIff | core/http-header.c:170-194 | a set fails iff the key is absent and the map is as large as the slots |
| HeaderTable.RefinesMap | core/http-header.c:165-280 | any sequence of sets and clears on the slots does what it does on a map of limited size |
| HeaderTable.PackedIff | core/http-header.c:217-238 | the occupied slots come first iff none lies at or beyond the number of names |
| HeaderTable.PutKeepsPacked | core/http-header.c:170-183 | sets keep the occupied slots first |
| HeaderTable.RemoveKeepsPackedIff | core/http-header.c:263-280 | a clear keeps the occupied slots first iff the key is absent or in the last of them |
| HeaderTable.HoleByClear | core/http-header.c:165-280 | setting two different names and clearing the first leaves an occupied slot behind an empty one |
| HttpHeader.HeaderList.HeaderIsKnown | core/http-header.c:150-163 | the first interned name equal ignoring case, or null when there is none |
| HttpHeader.HeaderList.GetValue | core/http-header.c:197-211 | the value object of the first matching slot, or null |
| HttpHeader.HeaderList.SetValue | core/http-header.c:165-195 | keeps ownership, updates exactly the slot a set should, and fails exactly when a set should |
| HttpHeader.HeaderList.ClearValue | core/http-header.c:263-280 | keeps ownership and empties exactly the matching slots |
| HttpHeader.HeaderList.GetHeaders | core/http-header.c:213-261 | lists the names in slot order iff the occupied slots come first; otherwise some name has no place |
| HttpHeader.HeaderList.Destroy | core/http-header.c:133-148 | afterwards every duplicate has been freed exactly once and no interned name ever |
| HttpHeader.LifeOfAList | core/http-header.c:128-280 | new, any sets and clears, destroy: contents follow the map and every duplicate is freed exactly once |
| HttpRequest.DefaultHeaders | core/http-request.c:51-59 | a new request has four headers in the first four slots |
| HttpRequest.FirstLineFits | core/http-request.c:94-107 | the first line leaves at least eleven bytes of the buffer, whatever the method and resource |
| HttpRequest.TooLongAlready | core/http-request.c:116-120 | a line refused at any point means the whole text is too long |
| HttpRequest.PrintedInOrder | core/http-request.c:111-116 | the printed headers are exactly the slots with a nonempty name and value, in slot order |
| HttpRequest.HttpRequest.GetString | core/http-request.c:85-137 | NULL iff the whole text comes within ten bytes of the buffer's end and has headers; otherwise the full text, uncut, and a NUL behind it |
| HttpRequest.DefaultRequestRefused | core/http-request.c:32-137 | the exact lengths of resource, host and agent at which a new request is refused, empty host or agent included |
| HttpNewRequest.NewRequestText | core/http-request.c:32-137 | a new request is NULL exactly by its lengths; else it reads back as GET, the resource, HTTP/1.1 and the nonempty ones of Host, Accept */*, User-Agent and Accept-Encoding identity, iff resource, host and agent are well-formed |
| HttpNewRequest.MethodsRead | core/http-request.c:11-27 | the literal method each of the fifteen request types reads back as |
| HttpMessage.RequestLineBack | core/http-request.c:107 | a printed request line parses to its method, resource and version when the resource is a well-formed target, and to nothing otherwise |
| HttpMessage.FieldsBack | core/http-request.c:111-129 | well-formed printed header lines and the blank line parse to the headers in slot order and the body |
| HttpMessage.PrintThenParse | core/http-request.c:107-131 | parsing a printed request and any body gives back method, resource, headers and body iff the resource is a well-formed target and the headers are well-formed fields |
| HttpMessage.BadTargetUnreadable | core/http.c:47-51 | a request for an empty resource, or for one with a space and no line break, parses to nothing whatever its headers and body |
| HttpExchange.ScanIsHeadEnd | core/http.c:122-148 | a two-state scan finds the first end of head |
| HttpExchange.PrintedHeadSplits | core/http.c:122-148 | the head reader splits a printed request and any body exactly at the body, for all resources, names and values without line breaks |
| Http.EndsAfter | core/http.c:128-134 | the test on the last stored byte recognises an LF whose previous byte other than CR is an LF |
| Http.KeptBytes | core/http.c:127-135 | what is stored of a head is every byte that is not a CR, once and in order |
| Http.BufferSizeFitsIff | core/http.c:138-145 | the buffer size fits a signed 32-bit int iff at most 2895 bytes are stored |
| Http.Http.Grow | core/http.c:137-147 | the growth branch is taken on every stored byte and gives the closed-form size |
| Http.Http.ReadHead | core/http.c:122-149 | stops just after the first end of head with the CR-free text before it stored and NUL-terminated, unless the size overflows |
| Http.CopyBody | core/http.c:194-206 | all remaining bytes reach the file for every chunking |
| Http.Receive | core/http.c:115-206 | head and file depend only on the bytes delivered |
| DownloadManager.Manager.ProtocolRegister | core/download-manager.c:36-49 | both scheme tables get the same keys, http among them |
| DownloadManager.AcceptedHasDownloader | core/download-manager.c:68-101 | every URI the gate accepts has a registered downloader |
| DownloadManager.GateWithScheme | core/download-manager.c:84-96 | a text with one "://" is parsed as written iff a registered scheme stands before it, else refused |
| DownloadManager.GateWithoutScheme | core/download-manager.c:73-83 | a text without "://" is parsed with http:// put before it, the empty one refused |
| DownloadManager.GateRefusesMany | core/download-manager.c:97-100 | a text with more than one "://" is refused |
| DownloadManager.GateIff | core/download-manager.c:60-107 | a URI is accepted iff one of these cases gives a text and that text parses to it |
| DownloadManager.JobsOfAccepted | core/download-manager.c:124-180 | then each URI yields one job, in order, with its method and directory |
| DownloadManager.Manager.Download | core/download-manager.c:120-190 | appends to the pool one job per URI that has a downloader, in list order |
| CStrings.GluePieces | src/main.c:94 | gluing the pieces of a string gives it back, for every separator |
| CStrings.SameIgnoringCaseIff | src/main.c:327-348 | names are equal ignoring case iff they have equal length and each pair of bytes is equal or the two cases of one ASCII letter |
| CStrings.GlueLaw | src/main.c:94 | gluing none gives the empty string, one gives it, more puts the separator between them |
| CStrings.SplitGlueIff | src/main.c:322 | splitting a glued list gives it back iff no part contains the separator and it is not one empty part |
| Command.ReceivedIff | src/main.c:94-95 | the service sees the client's arguments iff no part contains the separator, they are not one empty part, and they fit |
| Command.ParseOptions | src/main.c:318-365 | the option loop computes the recursive grammar |
| Command.OptionSpellings | src/main.c:326-348 | which spellings are options, and which of them ask for a directory, help, the version or the schemes |
| Command.RolesByPosition | src/main.c:325-354 | an argument is a directory value iff the one before is -d or -D in option position, else an option iff it starts with a dash |
| Command.EarlyAnswer | src/main.c:327-346 | the first -h, -v or -l in option position decides: -h shows the help, -v the version, -l the schemes, in either case of the letter |
| Command.NoEarlyAnswer | src/main.c:347-365 | otherwise URI arguments are split in order into accepted and refused, and the last directory wins |
| Command.OptionMeaning | src/main.c:325-365 | the option loop runs to its end iff no option asks for an early answer, and then the roles of the arguments settle the outcome |
| Command.TwoLists | src/main.c:347-363 | otherwise each URI argument is in exactly one of the two lists, as its URI or as written, both keep the order of the command line, and the last -d value is the directory |
| Service.SaidHolds | src/main.c:425-433 | a message leaves its first 10239 bytes, zero-filled behind |
| Service.AddedHolds | src/main.c:435-447 | an append leaves the first 10239 bytes of old, line feed and text, zero-filled behind |
| Service.SortSorts | src/main.c:373 | the refused URIs are listed in ascending order, none lost |
| Service.ReplyIsCut | src/main.c:328-410 | from a zero buffer the messages leave the first 10239 bytes of the whole reply, append-only replies included |
| Service.WrittenReads | src/main.c:95 | the copied command reads as the command cut to fit, whatever lies behind it |
| Service.Channel.WriteCommand | src/main.c:95 | the client's copy into the shared buffer |
| Service.Channel.PrintReply | src/main.c:100-103 | prints the text of the reply buffer and leaves both buffers zero |
| Service.Channel.MessageToClient | src/main.c:425-433 | in place, the reply buffer becomes the cut message and the command buffer zero |
| Service.Channel.MessageToClientAppend | src/main.c:435-447 | in place, the reply buffer gains a line feed and the text as far as they fit |
| Service.Channel.GlueLines | src/main.c:374-406 | the string-building loops glue a list with line feeds |
| Service.Channel.ServeRequest | src/main.c:322-417 | serves the command in the buffer: reply and pool change as its outcome says |
| Service.NothingSubmittedIff | src/main.c:325-395 | nothing is submitted iff an option asks for an early answer or the gate accepts no URI argument |
| Service.EndToEnd | src/main.c:318-413 | with an early answer nothing is submitted; otherwise each URI argument that parses at the gate becomes exactly one pool job, in command-line order, with a registered method and the last directory |
| Handshake.SemStep | src/main.c:94-105 | every step keeps: semaphores plus the busy service equal the client's pending wait |
| Handshake.InvStep | src/main.c:312-417 | every step of client and service keeps the whole invariant |
| Handshake.MutualExclusion | src/main.c:94-105 | client and service never touch the buffers together; no semaphore exceeds one |
| Handshake.FreshReplies | src/main.c:95-103 | every client of any run prints exactly the reply to its own command, nothing left over |
| Handshake.SubmittedInTurn | src/main.c:390-395 | between clients, what was submitted is each client's submission once and in turn |
| Handshake.ExchangeCompletes | src/main.c:94-105 | somebody can step exactly as long as a client is present |
| Handshake.StepsCount | src/main.c:312-417 | every step brings the client's exit nearer |
| Handshake.ArrivalsAnswered | src/main.c:94-103 | the exchanges of a run are those of its clients in the order they came, all but the one present |
| Handshake.NextClientAnswered | src/main.c:94-105 | when no client is present any command line may come, and it is answered after all earlier ones |
| Handshake.BuffersClear | src/main.c:102-103 | every client finds both buffers zero |
| ClientReply.AtMostIff | src/main.c:373 | the sort order is strcmp order: the first differing byte decides |
| ClientReply.UriReplyIs | src/main.c:371-410 | a reply about URIs is a heading and one line per refused URI in ascending order, then a heading and one line per accepted URI in order |
| ClientReply.EarlyReply | src/main.c:327-346 | in every run a client that first asks -h, -v or -l prints the help, the version or the tab-separated schemes, cut to 10239 bytes |
| ClientReply.ReplyToUris | src/main.c:347-410 | in every run any other client prints the help if it gave no URI, else its refused URIs sorted and its accepted URIs in order, cut to 10239 bytes |

## Left out

- Sockets, TLS and name resolution in `core/tcp.c`; connecting and sending in `core/http.c:98-113`.
- Logging, error objects, `gf_get_process_num_by_name`, and the `stfile` helpers in `core/utils.c`.
- File naming, base64 names and existence checks (`core/download-manager.c:131-170`, `core/http.c:161-192`); a file is the bytes written to it.
- Creating and removing shared memory and semaphores, signals and the post from `stop` (`src/main.c:151-293`).
- Allocation failure, a refused number of threads and thread creation failure (`core/thread-pool.c:32-34`, `core/thread-pool.c:60-68`), and a null callback (`core/thread-pool.c:98`).
- The pool's release of its own memory after the joins, and submissions that arrive later than that (`core/thread-pool.c:151-172`).
- A second call to destroy: it returns at once on seeing the flag (`core/thread-pool.c:136-138`).
- The equality function given to the downloader table (`core/download-manager.c:31`); tables are maps keyed by scheme.
- Setting a header to a pointer obtained from the same list; `SetValue` takes the new value as text.
- The concrete table of known header names (`core/http-header.c:73-124`); the results hold for every table, and a stored name is the table's spelling. `NewRequestText` asks that the table spell the four default names in one way, as the program's does.
- Parsing the response head, redirects and partial downloads, which the program does not do.
