# Verification of the runner broker, cross-stack routing and the shell stream

Bunshin hands every visitor a bash session on a runner. This project models the parts of it whose correctness spans
several functions, and proves what they promise. To verify: `dafny verify dfyconfig.toml`.

**The runner pool.** Brokers of one stack share a table of runners (`RunnerTable.dfy`; `RunnerHistory.dfy` is what the
others do to it between one broker's requests, `RunnerScan.dfy` the search for an idle runner), kept either by
DynamoDB with an explicit state field and a server cursor (`DynamoStore.dfy`) or by Firestore, which reads the state
off a null session and uses the last id as its cursor (`FirestoreStore.dfy`). Both are classes over their own
representation; every request first lets an arbitrary list of other brokers' operations land (`others`), may fail
(`fault`), and records the table it found (`history`); every contract is stated among such others, and more exactly
for the time nobody else acts (`Alone()`). `BrokerRepository.dfy` puts both stores behind one contract.
`BrokerService.dfy` creates, resolves, looks up and closes sessions on it with an arbitrary health oracle: `Attempt`
and `Visit` say what a createSession and a resolve did among other brokers, `Creation` and `Resolution` the whole
table before and after an undisturbed one; `ResolveLaws.dfy` reads off them what an answer tells the visitor.
`Interleaving.dfy` is the state machine of any number of brokers, one atomic store operation at a time, and
`Stickiness.dfy` says what a session keeps through its runs. `Traces.dfy` is what a call's requests do to the table
one by one; `TraceRuns.dfy` and `CreationRuns.dfy` prove that createSession is a run of that machine as long as the
others never give a session to a second record. `SessionLeaks.dfy` shows two runs that leave a runner busy.

**Routing between stacks.** `StackList.dfy` (splitting, the rotation around a stack), `BrokerTypes.dfy`,
`BrokerAnswers.dfy` and `BrokerHandler.dfy` (session ids, status and headers, the cookie a client holds),
`ReturnVisit.dfy` (its next request, and the reassignment asked without it), `ResolveCore.dfy` (the decisions),
`NginxScripts.dfy` (the two scripts) and `Routing.dfy`, which composes them into whole runs: `Handle` is a request
arriving at a stack, `Send` a forward over a link that may be lost, `Reassign` the 502/504 path. `RoutingTheorems.dfy`
proves what every run keeps. All stacks share one list of distinct, clean names without `.` and `_`; brokers, links
and the runner at each host and port answer arbitrarily, and a broker may not answer at all (`World.down` gives the
status its subrequest then has).

**The shell and its output.** `LineScan.dfy` and `StderrMarker.dfy` are the two marker protocols, `Shell.dfy` the
session class with its `broken` latch over any stderr bytes, `ShellSession.dfy` every sequence of calls, `Sse.dfy` the
event printer and the chunked parser over a codec with stated laws, `OutputBlock.dfy` the page's block (trailing
newlines, reserved rows) with a terminal that draws what is written to it at some later time and is then resized, and
`EndToEnd.dfy` all of them composed.

**Smaller cores.** `ShellManager.dfy` (ownership of shells), `HandlerFile.dfy` (atomic replacement of a file),
`Highlight.dfy` (the marked quiz map), with `Text.dfy` and `Ids.dfy` underneath.

Places where the code does not do what one might expect, each stated as an exact condition:

- Newline after the stderr marker: when it arrives in a chunk of its own it is not stripped; it ends up in this reply
  or in the next command's. When exactly follows from the chunks and the reads (`ShellSession.StderrExact`); a silent
  command whose reply has it is `ShellSession.StrayNewline`, and a page then shows it (`EndToEnd.RunCommand`).
- A command's output that forges a marker line leaves the session out of step, exactly then
  (`ShellSession.OwnOutput`); a forged exit code is `ShellSession.ForgedMarker`.
- A createSession that fails leaves its last runner busy with a session nobody was told exactly when that runner's
  check ended with the context or the delete after it fails (`BrokerService.LeakExactly`); both happen in
  `SessionLeaks.CheckCanceled` and `SessionLeaks.DropFailed`.
- The unhealthy runner is deleted by id alone. It is the record acquired exactly when nobody else deleted that id
  meanwhile (`Interleaving.DropHitsOwnRecord`); a newer registration is hit in `Interleaving.DropHitsNewer`.
- The host an acquire returns, and with it a createSession, is the one of the page read. It is the record's exactly
  when nobody deleted that id since, or the last registration since has that host (`RunnerScan.GrantedHost`,
  `Interleaving.HostStands`); another host is returned in `Interleaving.StaleHost`.
- `nginx/lua/resolve.lua:20-21` says a subrequest has its own variables, yet `/_resolve_reassigned` passes
  `$fwd_fallback_stack` from its parent (`nginx/nginx.conf:308-309`). `World.captureSeesVars` covers both readings:
  the failed owner is a candidate again exactly when the variables are not seen (`RoutingTheorems.ReassignPoolKnown`),
  and one more forward is then possible (`RoutingTheorems.BoundRun`).
- A write to a block reserves its rows at once, but the terminal draws later, and each drawing ends with a resize to
  the rows in use. If a resize leaves queued texts queued, these then lose the rows reserved for them: nothing scrolls
  off exactly when every text a fit finds first in the queue starts no more rows than are reserved between that fit
  and its drawing (`OutputBlock.NeverScrollsExactly`); for texts written in one go that means exactly that those from
  the second on start no new row (`OutputBlock.BurstStaysExactly`), and two events of one chunk suffice to break it
  (`OutputBlock.SecondTextScrolls`). If a resize first draws what is queued, nothing ever scrolls off while the width
  stays (`OutputBlock.DrainingNeverScrolls`). The repository does not say which of the two its terminal does
  (`front/package.json:16` asks for `@xterm/xterm` from 6.0.0 on). A change of width while texts are queued shows them
  twice, exactly then (`OutputBlock.Block.ShowsContent`), if a reset leaves the write queue as it is.
- `requiredRows` is too small for some full-width text exactly at odd widths (`OutputBlock.EnoughExactly`, whose proof
  names the text), and a control sequence swallows what follows exactly when its final byte is `[`
  (`OutputBlock.TransparentExactly`, with a newline swallowed).

## Model

| member | source | states |
|---|---|---|
| Ids.RankMonotone | broker/store/repository.go:31 | Ids of 32 hex digits are ordered like the numbers they write, so a strictly advancing cursor cannot advance forever. |
| Ids.HeadroomShrinks | broker/store/dynamo.go:102-115 | A cursor that moved up strictly loses headroom; this is the scan's termination measure. |
| RunnerScan.SmallestIsPage | broker/store/firestoreadapter/adapter.go:66-93 | The least `limit` ids of a range are a page: ascending, in range, and any idle runner left out lies beyond the cursor returned. |
| RunnerScan.PageCovers | broker/store/dynamo.go:102-118 | Once every candidate of a page was refused, every runner of the range up to the new cursor (all of it after the last page) was unavailable at some moment of the call. |
| RunnerScan.PageAdvances | broker/store/dynamo.go:111-114 | A continued page's cursor lies strictly beyond the previous one. |
| RunnerScan.GrantIsPick | broker/store/dynamo.go:94-138 | Undisturbed, a granted candidate whose predecessors were refused is the least idle id above the start, else the least idle id of all. |
| RunnerScan.NothingToPick | broker/store/dynamo.go:117 | Undisturbed, two ranges of refused ids leave no idle runner to name. |
| RunnerHistory.HostStands | broker/store/dynamo.go:79-92 | After any operations of others, a record has the host read before exactly when it was not deleted since, or the last registration since has that host. |
| RunnerScan.GrantedHost | broker/store/dynamo.go:120-138 | The host of a grant was read at a moment of the call, and is the granted record's exactly under that condition on what landed since. |
| DynamoStore.ItemsRefineTable | broker/store/dynamo.go:62-187 | Each conditional request on items changes the shared table exactly as the abstract operation does, and keeps items well keyed. |
| DynamoStore.QueryPageIsPage | broker/store/dynamo.go:140-161 | A query of the idle partition is a page of the abstract table and shows each runner's host as stored. |
| DynamoStore.DynamoRepository.Register | broker/store/dynamo.go:62-92 | Bad ids and hosts are refused without a request; a present id is a conflict and nothing changes; otherwise exactly one idle record appears. |
| DynamoStore.DynamoRepository.Delete | broker/store/dynamo.go:263-274 | Deletes at most that id, whatever it is, from the table it finds, and fails exactly on a fault. |
| DynamoStore.DynamoRepository.QueryIdlePage | broker/store/dynamo.go:140-161 | One page of the table as it is when the request lands, with the server's continuation. |
| DynamoStore.DynamoRepository.AssignSession | broker/store/dynamo.go:163-187 | Succeeds only on a runner idle at that moment, which is then busy with the session; a refusal means it was not idle. |
| DynamoStore.DynamoRepository.TryCandidate | broker/store/dynamo.go:126-135 | One attempt of a running scan keeps everything the scan knows: the tried ids stay distinct, every refused one was unavailable at some moment. |
| DynamoStore.DynamoRepository.AssignFirst | broker/store/dynamo.go:120-138 | Tries candidates in order, none twice in a call; the one granted was idle, all before it were unavailable at some moment. |
| DynamoStore.DynamoRepository.AcquireIdle | broker/store/dynamo.go:97-118 | Under any interference: no runner is tried twice, a success was idle and is now busy with the session, its host is the record's exactly when not deleted since the read or registered again with it, "no idle runner" means every id was unavailable at some moment of the call. Alone: answer and table are those of the least idle id above the start, else the least of all, in two requests or three. |
| DynamoStore.DynamoRepository.FindBySessionID | broker/store/dynamo.go:219-240 | Finds a record holding the session, or none does; an error exactly for the empty session or when this very request fails. |
| DynamoStore.DynamoRepository.FindByID | broker/store/dynamo.go:242-261 | Finds exactly the record of that id; an error exactly when this request fails. |
| FirestoreStore.NullSessionReading | broker/store/firestore.go:28-40 | Reading the state off the session is right exactly when the stored session is not the empty string. |
| FirestoreStore.DocsRefineTable | broker/store/firestore.go:96-180 | Each request on documents changes the shared table exactly as the abstract operation does, also around malformed documents. |
| FirestoreStore.QueryPageIsPage | broker/store/firestoreadapter/adapter.go:66-93 | The range query with its two optional bounds is a page of the same abstract segment as the other store's. |
| FirestoreStore.FirestoreRepository.Register | broker/store/firestore.go:96-107 | Same as the other store's, over the null-session document. |
| FirestoreStore.FirestoreRepository.Delete | broker/store/firestore.go:233-235 | Deletes at most that id, whatever it is, from the table it finds, and fails exactly on a fault. |
| FirestoreStore.FirestoreRepository.QueryIdleRange | broker/store/firestoreadapter/adapter.go:66-93 | One page of the documents as they are when the request lands; an error exactly when it fails. |
| FirestoreStore.FirestoreRepository.AssignSession | broker/store/firestore.go:166-180 | The transaction assigns exactly when the document is there with a null session, and changes that field of it only; a refusal means not idle. |
| FirestoreStore.FirestoreRepository.TryCandidate | broker/store/firestore.go:149-161 | One attempt of a running scan keeps everything the scan knows, as in the other store. |
| FirestoreStore.FirestoreRepository.AssignFirstIdle | broker/store/firestore.go:138-164 | Skips malformed documents, tries none twice; the one granted was idle, all before it were unavailable at some moment. |
| FirestoreStore.FirestoreRepository.ReadPage | broker/store/firestore.go:118-124 | One page of readable null-session runners beyond the cursor, in order; the scan keeps what it knows. |
| FirestoreStore.FirestoreRepository.AcquireIdle | broker/store/firestore.go:112-136 | The same contract as the other store's over its own cursor and page-length test, but for the number of requests; an error exactly when a request of this call fails, which is its last. |
| FirestoreStore.FirestoreRepository.FindBySessionID | broker/store/firestore.go:203-216 | Finds a record holding the session, or none does; the runner value is read right exactly when the session is not empty; an error only when this request fails or a document is malformed. |
| FirestoreStore.FirestoreRepository.FindByID | broker/store/firestore.go:218-231 | Finds the record of that id, read right exactly when it does not hold the empty session; an error exactly when this request fails or the document is malformed. |
| BrokerRepository.AcquireFromBoth | broker/store/firestore.go:109-111 | Over equal tables and equal starts, undisturbed and unfailed, the two stores give equal answers and leave equal tables. |
| BrokerRepository.Repository.AcquireIdle | broker/service/service.go:111-121 | Behind the interface, among other brokers: the runner given out was idle when assigned and is busy with the session, "no idle runner" means every id was unavailable at some moment, an error that the last request of this call failed and no other, and the host condition holds; alone, only that runner changed and "no idle runner" means there is none. |
| BrokerTypes.SplitNamespaced | broker/service/service.go:101-109 | A session id comes apart into the prefix and hex it was made of exactly when the prefix has no separator. |
| BrokerService.LeakExactly | broker/service/service.go:117-131 | A createSession that fails leaves a newly busy runner exactly when the last check ended with the context or the request that deletes after it fails; it then holds the session nobody was told. |
| BrokerService.BrokerService.Acquire | broker/service/service.go:117-121 | Among other brokers the acquired runner holds the session, alone in the table if nobody else uses it, and its host is the record's exactly when not deleted since the read or registered again with it; in the settled table fewer idle runners are left. |
| BrokerService.BrokerService.KeepOrDrop | broker/service/service.go:122-130 | An acquired runner is answered if healthy, kept if the context ended, else deleted by id; with the trace of what that did. |
| BrokerService.BrokerService.TryRunner | broker/service/service.go:117-131 | One turn among other brokers either answers or drops the runner that failed its check; once nobody registers, fewer idle runners are left. Alone, the whole table is told, also on a backend failure. |
| BrokerService.BrokerService.KeepTrying | broker/service/service.go:117-131 | The loop ends for any health oracle once registrations stop or the context ends, and then has told the whole story of its turns. |
| BrokerService.BrokerService.CreateSession | broker/service/service.go:111-132 | Among other brokers, for any health oracle: success hands out a runner idle when acquired, checked healthy and busy with the session, the only one to be if the session is fresh, at the record's host exactly under the acquire's condition; "no idle runner": every id was unavailable at some moment; every failed runner was dropped; a backend error: its last request failed. Its requests assign only when nothing is held and remove only what is held. Alone: exactly the failed ones are gone, the rest is untouched, and a failure leaves a runner busy exactly when it leaks. |
| BrokerService.BrokerService.Look | broker/service/service.go:143-166 | The lookup half of a resolve: answered by the record found and its check, or the record is deleted, or nobody held the session when it was looked up. |
| BrokerService.BrokerService.CheckFound | broker/service/service.go:146-162 | The record found answers by its check, or is deleted by id after failing it. |
| BrokerService.BrokerService.ResolveSession | broker/service/service.go:142-178 | Among other brokers: the lookup answers by the found record's check over the table it found, else that record was deleted and a new session is created; created exactly if createSession was called, marked reassigned exactly if a record had been found before; the host condition holds for a created answer, and a backend error means its last request failed or a record was unreadable. Alone: the whole table, unchanged when healthy or when the context ended. |
| ResolveLaws.VisitTells | broker/service/service.go:142-178 | Among other brokers, of every answered resolve: "reassigned" exactly when it is created and the table looked up had a record with the session presented, which failed its check; a created answer is the session drawn, at the host of a runner that was idle during the call, passed the last check and holds the session; any other is the presented session at the host of a record found that holds it and passed its check. |
| ResolveLaws.ResolutionTells | broker/service/service.go:142-178 | The same of an undisturbed resolve, over the table before and after it. |
| ResolveLaws.VisitFails | broker/service/service.go:142-178 | Why a resolve fails: no idle runner only if every id was unavailable at some moment and every check failed; an ended context with the last check; a missing prefix only for a session held without a separator in its id. |
| BrokerService.BrokerService.LookupSession | broker/service/service.go:180-186 | Among other brokers: the host of a record holding this stack's session of that hex in the table found, which stays; not found only when none does; any other error is a failed request or an unreadable record. |
| BrokerService.BrokerService.ResolveThenLookup | broker/service/service.go:142-186 | A session held by one record is resolved and then looked up among other brokers: as long as nobody deletes that record and no backend error is met, both reach it; healthy, both answer its host and nothing is created. |
| BrokerService.BrokerService.CloseSession | broker/service/service.go:134-140 | Among other brokers: deletes by id the record it found holding the session, whatever lands in between, or finds that none does. |
| BrokerService.CreationIsSafe | broker/service/service.go:111-132 | A fresh session keeps sessions unique, issued by this stack and readable, and is held by the runner answered. |
| BrokerService.ResolutionNames | broker/service/service.go:142-178 | After an answered resolve exactly the answered runner holds the answered session, whose prefix is this stack's. |
| BrokerService.FoundAgain | broker/service/service.go:142-166 | Resolving an answered session finds its record; if the check passes the answer is the same, not created, nothing changed. |
| BrokerService.VisitNames | broker/service/service.go:142-178 | Whatever the others did during a resolve, the answered session is held by exactly the answered record. |
| BrokerService.VisitAgain | broker/service/service.go:142-166 | Whatever the others did since, short of deleting that record or using the session, a later resolve finds it; healthy, it answers the record's host, not created. |
| BrokerService.BrokerService.VisitTwice | broker/service/service.go:142-186 | Stickiness over two visits and a lookup while other brokers act and requests may fail: the checks of both visits are the log's and the tables they find the history's; the table the first leaves names one record for the answered session; as long as nobody deletes that record and the later calls are not met by a backend error, the second finds it and, if its check passes, answers its host, not created, and the hex finds that host. |
| SessionLeaks.CheckCanceled | broker/service/service.go:122-126 | A createSession, by its trace and its account of the whole table, in which the check's context ends: an error, and the runner holds the session. |
| SessionLeaks.DropFailed | broker/service/service.go:127-130 | A createSession, likewise, in which the delete after a failed check fails: an error, and the runner holds the session. |
| Interleaving.InvStep | broker/service/service.go:111-140 | One step of any broker keeps: a session is held by at most one record, the one its creation works on. |
| Interleaving.SessionNamesOneRecord | broker/service/service.go:111-132 | In every reachable state of every interleaving each session names at most one record. |
| Interleaving.KeepsSession | broker/store/dynamo.go:164-187 | A busy record keeps its session through all steps that do not delete it. |
| Interleaving.ComesBackRegistered | broker/store/dynamo.go:79-83 | A record absent and later present was registered in between. |
| Interleaving.AcquiredOncePerRegistration | broker/store/dynamo.go:97-187 | Between two acquires of one runner there is a delete and then a register of it. |
| Interleaving.NotGivenAgain | broker/service/service.go:111-132 | While a creation checks or drops a runner, its session appears on no other record. |
| Interleaving.HostStands | broker/store/dynamo.go:120-138 | In any run, the host read at one moment is the host acquired later exactly when nobody deleted that id in between or the last registration has that host. |
| Interleaving.StaleHost | broker/store/dynamo.go:120-138 | A run in which a runner is acquired at another host than it was read at. |
| Interleaving.DropHitsOwnRecord | broker/service/service.go:127-130 | Deleting by id hits the record acquired exactly when nobody else deleted that id in between. |
| Interleaving.DropHitsNewer | broker/service/service.go:127-130 | A run in which that delete removes a newer registration. |
| Stickiness.HolderStays | broker/service/service.go:142-186 | In any run of any brokers, the record holding a session stays as it is and its only holder while nobody deletes it. |
| Stickiness.ResolvesAgain | broker/service/service.go:142-166 | At any later moment of such a run a resolve finds that record; healthy, it answers the host held at first, not created, over an unchanged table. |
| Stickiness.LooksUpAgain | broker/service/service.go:180-186 | At any later moment of such a run an app lookup reaches the host held at first. |
| Traces.FollowsTrace | broker/store/dynamo.go:97-118 | An acquire's requests form a trace: all leave the table as found, but for the one assignment at the end. |
| TraceRuns.OneOp | broker/store/dynamo.go:62-187 | Any one operation of a broker that gives no session to a second record is steps of the machine; a delete of a record under check is that creation's own drop. |
| TraceRuns.TraceRun | broker/service/service.go:111-132 | A call's whole trace, with orderly operations of the others before each request, continues any run; every table found is a state of it. |
| TraceRuns.AloneOrderly | broker/service/service.go:111-132 | With nobody else about every trace is orderly, so an undisturbed call always joins. |
| TraceRuns.OwnOrderly | broker/service/service.go:116-118 | What such a call does is orderly in the eyes of every other call: each relies on what the others guarantee. |
| CreationRuns.AloneJoins | broker/service/service.go:111-132 | A call that is alone may join every run that ends with its table and has not used its session id. |
| CreationRuns.CreateInRun | broker/service/service.go:111-132 | createSession's requests are a trace of one session at a time, and it continues any run it may join: it finds only states of the run, its creation ends serving the answered runner or stopped, and each session is left on one record. |
| CreationRuns.GivenTwice | broker/service/service.go:117-121 | If two createSession calls of one run acquire the same runner, it was deleted and then registered in between. |
| StackList.Split | broker/stacklist/stacklist.go:10-18 | The loop gives the trimmed non-empty pieces. |
| StackList.PiecesClean | broker/stacklist/stacklist.go:12-16 | Every piece is non-empty, comma-free and trimmed. |
| StackList.SplitUndoesJoin | broker/stacklist/stacklist.go:10-18 | Splitting a joined list gives it back exactly when all its names are clean. |
| StackList.PieceRuns | broker/stacklist/stacklist.go:10-18 | A list is split run by run: both sides of a comma, nothing of a blank run, any other trimmed. |
| StackList.SplitPadded | broker/stacklist/stacklist.go:10-18 | Splitting gives the names back from a list with white space around them. |
| StackList.TrimCuts | broker/stacklist/stacklist.go:13 | Trimming cuts off only white space at the ends, and all of it. |
| StackList.FindPivot | broker/stacklist/stacklist.go:32-38 | The first position of self, or -1. |
| StackList.Parse | broker/stacklist/stacklist.go:30-52 | The loops give the rotation around self and whether self is listed. |
| StackList.RotationKeepsOthers | broker/stacklist/stacklist.go:20-52 | Self never appears; every other element keeps its multiplicity. |
| StackList.KthFallback | broker/stacklist/stacklist.go:20-26 | The k-th fallback of the i-th stack is the (i+k)-th, cyclically. |
| StackList.KthFallbackInjective | broker/stacklist/stacklist.go:24-26 | No two stacks share their k-th fallback. |
| StackList.KthFallbackOnto | broker/stacklist/stacklist.go:24-26 | Every stack is somebody's k-th fallback, so overflow never converges. |
| ResolveCore.ListsAgree | nginx/lua/resolve_core.lua:50-58 | Broker and nginx read the same stacks from one joined list of clean names. |
| ResolveCore.Core.ReadNames | nginx/lua/resolve_core.lua:50-55 | The names in order and as a set, empty runs dropped. |
| ResolveCore.Core.Configure | nginx/lua/resolve_core.lua:38-67 | Accepts exactly complete, in-range settings whose stack is in its own list; otherwise names, domain and cloud stay as they were. |
| ResolveCore.Core.FallbackRemainingExcluding | nginx/lua/resolve_core.lua:81-92 | The list without this stack and the excluded one, joined; empty for none. |
| ResolveCore.CookieExactly | nginx/lua/resolve_core.lua:94-99 | A cookie's stack is what stands before the first `_`, if anything does. |
| ResolveCore.ArrivalExactly | nginx/lua/resolve_core.lua:161-179 | Where a request goes on arrival, in terms of its own text: handled here, sent to the listed stack its cookie claims, or refused, each exactly when. |
| ResolveCore.ListedRuns | nginx/lua/resolve_core.lua:50-55 | The list is read run by run: both sides of a comma, nothing of an empty run, any other as it is. |
| ResolveCore.HostsCompose | nginx/lua/runner_host.lua:6-11 | Letters and numbers are usable hosts, and so are usable ones put together, with a dot or a hyphen or directly; none is empty or repeated. |
| ResolveCore.InternalExactly | nginx/lua/resolve_core.lua:109-121 | A host is internal exactly when it is a listed name without a dot, a dot and the internal domain. |
| ResolveCore.RunnerReached | nginx/lua/resolve_core.lua:231-232 | The address built from a valid host and a port is that of exactly this host and port. |
| ResolveCore.FoldedReads | nginx/lua/resolve_core.lua:226-230 | Repeated cookies are folded into one line from which each can be read again. |
| BrokerAnswers.AppHostNamesSession | broker/handler/handler.go:132-141 | A host's first label is taken exactly when it is a session hex. |
| BrokerAnswers.AnswerSays | broker/handler/handler.go:85-108 | The answer header by header: 200 exactly for an outcome, 503 exactly for no idle runner, 500 otherwise; host, hex and stack name; a cookie exactly when created, the reassignment header exactly when reassigned, fallback headers exactly with candidates, the first and the rest of them. |
| BrokerAnswers.CookieReads | broker/handler/handler.go:97-100 | The client reads the session id back off the cookie of an answer. |
| BrokerAnswers.CookieAttributes | broker/handler/handler.go:97-100 | The cookie's pieces: name and value, for every path, hidden from scripts, over TLS only, from this site only. |
| BrokerHandler.HeldIs | broker/handler/handler.go:85-108 | After an answered request the client holds the cookie of the session answered, whether or not one was set; after any other what it held before. |
| BrokerHandler.Handler.SignalFallback | broker/handler/handler.go:144-164 | First candidate and joined rest, from the relayed list when the request was forwarded, else from the rotation. |
| BrokerHandler.Handler.GetResolveSession | broker/handler/handler.go:85-108 | Status and headers for every outcome of the service, each header on its own, and the cookie the client then holds; and all that the service guarantees of the outcome: the checks logged, the tables found, the session id drawn, the host condition, why a backend error. |
| ReturnVisit.AskAgain | broker/handler/handler.go:85-108 | A request with the cookie of a session one record holds: while nobody deletes it and without a backend error that record is checked, and if healthy the answer is its host and hex, without cookie or reassignment. |
| ReturnVisit.ComeBack | broker/handler/handler.go:83-108 | Two requests of one client among other brokers, the second with the cookie the first left it: an answered first one leaves it the session of one record, and the second finds that record. |
| ReturnVisit.ReassignHere | nginx/lua/reassign.lua:10-64 | A reassignment with the own broker, asked without a cookie: the missing-cookie error is unreachable, and exactly an answer with a usable host is proxied, to that host at the API port, with the new session's cookie, hex and the signal. |
| NginxScripts.Ngx.Resolve | nginx/lua/resolve.lua:1-100 | The script's jump for any broker; fallback headers count only on an internal host; proxied exactly for a local arrival with status 200 and a valid host, to that host at the API port, with cookie, hex, stack name and reassignment as the broker sent them. |
| NginxScripts.Ngx.MarkReassigned | nginx/lua/reassign.lua:3-8 | The reassignment is signalled, and the shell cookie expires unless this request creates a shell. |
| NginxScripts.Ngx.Reassign | nginx/lua/reassign.lua:10-64 | The jump and variables after a failed owner; every continuing path signals the reassignment; proxied exactly with status 200, a valid host and a cookie, to that host at the API port, and the missing-cookie error exactly without one. |
| NginxScripts.ResolveGoes | nginx/lua/resolve.lua:54-100 | A local arrival is proxied to the broker's runner, passed on to the stack the broker names with the rest as sent, or ended with the broker's status (500 for an unusable host), exactly as status and headers say. |
| NginxScripts.ReassignGoes | nginx/lua/reassign.lua:10-57 | A reassignment likewise, over its own location, but a runner without a session cookie is an error. |
| Routing.HostLands | nginx/lua/resolve_core.lua:101-121 | A host built for a listed stack is accepted by that stack as internal and resolves to it. |
| Routing.StackAtExactly | nginx/lua/resolve_core.lua:101-121 | A forward reaches a stack exactly over that stack's name, a dot and the internal domain. |
| Routing.PoolShrinks | broker/handler/handler.go:144-156 | The rest of a clean list survives the joined header. |
| Routing.OwnerStep | nginx/lua/resolve_core.lua:169-178 | A foreign cookie leads to another listed stack, which takes the request for its own with no fallback state. |
| Routing.FallbackLands | nginx/nginx.conf:261-282 | The stack forwarded to receives its own name and exactly the rest of the pool, and resolves locally. |
| Routing.FallbackStep | nginx/lua/resolve.lua:73-86 | A local handling forwards only to the first of its pool, a known stack, and the pool there is one shorter: runs end. |
| RoutingTheorems.HandleLocally | nginx/lua/resolve.lua:54-86 | One handling, whether or not its broker can be reached: the status of the runner at the broker's host and the API port, of the broker's refusal or of its absence, or the forward to the first candidate when it has no idle runner. |
| RoutingTheorems.StopsForTheBroker | nginx/lua/resolve_core.lua:196-216 | With known candidates the unknown-fallback and repeated-header exits are unreachable; "no candidate" exactly when the pool is empty. |
| RoutingTheorems.SendToNext | nginx/nginx.conf:261-282 | A delivered forward is a local arrival whose pool is the rest. |
| RoutingTheorems.HandleWalks | nginx/lua/resolve.lua:54-86 | A whole run of fallbacks equals the reference walk down the list. |
| RoutingTheorems.WalkShape | broker/handler/handler.go:143-164 | The walk asks a prefix of the list, each stack once, passing on only after no-idle over a working link, and ends with the first other answer (an unreachable broker's status among them), with 503 after the last, or with the lost link's status. |
| RoutingTheorems.FirstVisitWalks | broker/stacklist/stacklist.go:20-52 | From stack i the order is the whole list, cyclically, starting with i. |
| RoutingTheorems.RemainingPieces | nginx/lua/resolve_core.lua:81-92 | What the reassigning stack passes on splits into all stacks but itself and the failed owner. |
| RoutingTheorems.ReassignLocally | nginx/lua/reassign.lua:10-42 | A reassignment asks this stack's broker and forwards only to the first of its pool, without cookie; otherwise it ends with that runner's status, with 500 for an answer that created nothing, or as the broker refused. |
| RoutingTheorems.ReassignWalks | nginx/lua/reassign.lua:10-42 | After the reassigning stack a prefix of its pool is asked, in order, with at most that many forwards. |
| RoutingTheorems.ReassignPoolKnown | nginx/nginx.conf:300-312 | The pool never holds the reassigning stack, and holds the failed owner exactly when the subrequest does not see the exclusion. |
| RoutingTheorems.ReassignAvoids | nginx/lua/reassign.lua:28-42 | The reassigned request is never offered to the reassigning stack again, nor to the failed owner when the exclusion is seen. |
| RoutingTheorems.OwnerRun | nginx/nginx.conf:182-207 | A foreign request is the owner's own walk over all stacks, then the reassignment exactly on 502 or 504, also when it is the owner's broker that gives it. |
| RoutingTheorems.ForwardBound | nginx/lua/resolve.lua:33-86 | Any request from outside is forwarded between stacks at most 2N-2 times (2N-1 when the exclusion is not seen). |
| RoutingTheorems.BoundIsReached | nginx/lua/reassign.lua:28-42 | When nobody has an idle runner and only the owner's last fallback is lost, exactly that many forwards happen. |
| RoutingTheorems.OwnerAskedAgain | nginx/nginx.conf:300-312 | In that run the failed owner is asked again after the reassignment when the exclusion is not seen. |
| RoutingTheorems.BoundRun | nginx/lua/reassign.lua:28-42 | For every list of two stacks or more there are a world and a public request that need exactly that many, with the owner asked again when the exclusion is not seen. |
| RoutingTheorems.HopsWellAddressed | nginx/lua/resolve_core.lua:109-179 | A public request is refused only at once, for a cookie naming an unknown stack; every hop of a run arrives on a host the receiver accepts, with no fallback stack or its own. |
| RoutingTheorems.CookieNamesIssuer | nginx/lua/resolve_core.lua:94-99 | The cookie's stack is the issuer exactly when its name has no separator. |
| RoutingTheorems.OwnerReached | nginx/lua/resolve_core.lua:161-179 | A session's request reaches its issuer in no forward from there and in one from anywhere else. |
| LineScan.LinesConcat | runner/shell.go:291-292 | Lines of a text end at a newline, so concatenated output scans piecewise. |
| LineScan.PrintLines | runner/shell.go:275-283 | Printing scanned lines gives the text back exactly when no carriage return stood before a newline; otherwise less. |
| LineScan.SentText | runner/shell.go:285-328 | What is sent for output o is o, newline-terminated unless empty, exactly when it has no carriage return before a newline. |
| StderrMarker.FeedStep | runner/shell.go:205-223 | Nothing fires before the marker is complete; then the buffer is exactly the command's stderr. |
| StderrMarker.Detect | runner/shell.go:186-223 | Over every chunking, exactly the command's stderr is left exactly when no chunk ends between marker and newline; else the newline too. |
| StderrMarker.FirstAfterNewline | runner/shell.go:214-220 | A newline left over neither hides nor forges the next marker. |
| StderrMarker.AwaitFires | runner/shell.go:186-223 | The wait ends for any bytes and any chunking in which the marker occurs somewhere. |
| StderrMarker.AwaitFrom | runner/shell.go:186-223 | For stderr, marker and newline the wait reads exactly the chunks it takes to complete the marker; the newline is then still to come exactly when they end with the marker. |
| StderrMarker.HeardExactly | runner/shell.go:299-307 | What wait and late reads have heard is the stderr, and the newline exactly when a late read reaches it. |
| Shell.BashShell.CheckStderrMarker | runner/shell.go:205-223 | The buffer and the awaited marker after a check; the channel is closed exactly when no marker is awaited. |
| Shell.BashShell.AwaitMarker | runner/shell.go:299 | Buffer, marker and unread chunks after the wait, for any chunks; it ends exactly when the marker is found. |
| Shell.BashShell.SendLine | runner/shell.go:309-327 | One scanned line sends what it and the held-back empty line before it call for, up to the first failure. |
| Shell.BashShell.ReadUntilMarker | runner/shell.go:291-328 | Exactly the lines before the first marker line but a final empty one are sent, up to the first failed send; all of them are consumed. |
| Shell.BashShell.ReadReply | runner/shell.go:289-336 | The reply for both streams, whatever was waiting in them: stdout by its lines, stderr by chunks, wait and late reads. |
| Shell.BashShell.ExecuteStream | runner/shell.go:245-336 | Every exit: latched error, ended context, failed write, end of stdout, bad exit code, drained cancel, success; with what is left unread on both streams. |
| Shell.NeverHangs | runner/shell.go:299 | A script that runs to its end never leaves the call waiting, whatever stands around its marker on stderr. |
| Shell.MarkersDiffer | runner/shell.go:256 | The marker line of one call starts with the marker of no other call. |
| Shell.AtoiReads | runner/shell.go:293-298 | Exit codes read back, with a sign or without, up to 64 bits, and only digits do. |
| ShellSession.PrintedLines | runner/shell.go:263-264 | The script's own output adds one marker line and nothing to the command's lines. |
| ShellSession.OwnOutput | runner/shell.go:291-328 | In step, quiet output is answered with its own lines and exit code and leaves nothing; stdout is used up exactly when no line forges the marker. |
| ShellSession.ForgedMarker | runner/shell.go:291-328 | A call whose output forges the marker line: its exit code is believed and the real marker stays unread. |
| ShellSession.StderrExact | runner/shell.go:299-307 | The reply's stderr is the command's own exactly when no newline was left over and no late read takes in the marker's newline, a condition on the chunks and reads alone. |
| ShellSession.StderrIs | runner/shell.go:299-307 | For a plain command stderr is what was left over, its own, and the marker's newline exactly when heard. |
| ShellSession.StaysShort | runner/shell.go:225-237 | Over plain commands at most a newline is left unread, so that condition keeps applying. |
| ShellSession.StrayNewline | runner/shell.go:214-220 | A silent command whose reply has a stray newline on stderr. |
| ShellSession.RunOne | runner/shell.go:245-336 | One call on a session in step keeps it in step, whatever is on stderr around the marker. |
| ShellSession.RunAll | runner/shell.go:245-336 | Any sequence of calls with any cancellations and any stderr the marker is in (tracing included): every call on an unbroken session gets its own lines and exit code, and hears of stderr what chunks and reads say; only a failed write or the end of bash breaks it, and for good. |
| Sse.ResponseWriter.WriteSSE | runner/handler.go:268-273 | One event appends one data frame. |
| Sse.ResponseWriter.WriteReply | runner/handler.go:230-252 | What is parsed from the body: the lines sent, in order, then stderr if there is any, and at the end the exit code. |
| Sse.EventsTell | runner/handler.go:230-252 | The events of a reply end with its exit code, the only one among them, and no two replies share them. |
| Sse.ReplyReads | front/src/client.ts:48-80 | Parsing a printed reply gives events that tell exactly that reply. |
| Sse.OtherLine | front/src/client.ts:64-66 | A line that is no data line or carries nothing changes nothing. |
| Sse.DataLine | front/src/client.ts:64-67 | A data line adds the event that follows the white space, or ends the stream there if it does not parse. |
| Sse.SplitChunk | front/src/client.ts:55-61 | Keeping the unfinished piece for the next chunk loses nothing. |
| Sse.ParseLine | front/src/client.ts:63-68 | One line yields its event, nothing, or a failure. |
| Sse.ReadEvents | front/src/client.ts:48-80 | Events depend on the concatenated text alone; a line that fails to parse ends them and cancels the stream. |
| Sse.RoundTrip | front/src/client.ts:48-80 | Parsing what was printed gives the events back. |
| OutputBlock.RequiredRows | front/src/outputBlock.ts:22-43 | The loop computes the specified count for every text and width. |
| OutputBlock.Enough | front/src/outputBlock.ts:14-21 | The count covers the rows a greedily wrapping terminal newly takes from any column, and the first row too from column 0, for even widths or narrow text. |
| OutputBlock.WideExactly | front/src/outputBlock.ts:14-21 | For full-width text at an even width the count is the rows used plus one or two, so it does not over-reserve either. |
| OutputBlock.EnoughExactly | front/src/outputBlock.ts:14-21 | With wide characters the bound holds for all texts exactly at even widths. |
| OutputBlock.ControlSteps | front/src/outputBlock.ts:27-34 | A complete control sequence leaves the counters as they were unless its final byte is `[`. |
| OutputBlock.EnoughStyled | front/src/outputBlock.ts:14-43 | Complete control sequences between characters change neither the count nor its sufficiency. |
| OutputBlock.TransparentExactly | front/src/outputBlock.ts:31-34 | A control sequence is transparent in every context exactly when its final byte is not `[`. |
| OutputBlock.NothingScrollsOff | front/src/outputBlock.ts:73-79 | A terminal that held its text before a push holds it all after. |
| OutputBlock.ShowsVisible | front/src/outputBlock.ts:27-34 | A terminal that reads control sequences shows exactly the characters between them. |
| OutputBlock.NeverScrollsExactly | front/src/outputBlock.ts:68-93 | In any run of pushes, draws and changes of width nothing scrolls off exactly when every text a fit found first in the queue starts, from the column of the cursor, no more rows than are reserved until it is drawn; a text no fit found queued always stays. |
| OutputBlock.OneAtATime | front/src/outputBlock.ts:73-79 | When no fit finds a text queued, nothing ever scrolls off. |
| OutputBlock.BurstStaysExactly | front/src/terminal.ts:159-162 | Texts written in one go all stay exactly when those from the second on start no new row. |
| OutputBlock.SecondTextScrolls | front/src/outputBlock.ts:73-79 | A run of two pushes and two draws in which the second text scrolls off. |
| OutputBlock.DrainingNeverScrolls | front/src/outputBlock.ts:68-79 | On a terminal whose resize first draws what is queued, no run of pushes and draws scrolls anything off, and what is shown and queued is everything pushed, in order. |
| OutputBlock.StripUnique | front/src/outputBlock.ts:98 | Cutting the newlines at the end undoes appending any. |
| OutputBlock.Block.Push | front/src/outputBlock.ts:73-79 | Rows for the data are reserved at once and the data is queued behind what is not drawn yet. |
| OutputBlock.Block.DrawNext | front/src/outputBlock.ts:68-79 | The first text queued is drawn, then the terminal has exactly the rows in use. |
| OutputBlock.Block.Reflow | front/src/outputBlock.ts:82-92 | After a change of width the terminal is empty with room for the whole content, which is queued behind what was queued before. |
| OutputBlock.Block.Write | front/src/outputBlock.ts:95-104 | Content is always everything written without the newlines at the end, and only ever grows. |
| OutputBlock.Block.Finish | front/src/outputBlock.ts:105-115 | One more fit is queued, and the content stays. |
| OutputBlock.Block.ShowsContent | front/src/outputBlock.ts:82-104 | Once all is drawn the terminal shows exactly the content, unless the last change of width found texts queued. |
| EndToEnd.ShownReply | front/src/terminal.ts:33-42 | A reply shows its lines, then what is on stderr, then its exit code unless that is 0, on a line from which it reads back. |
| EndToEnd.CodeReads | front/src/terminal.ts:39-40 | An exit code is shown exactly when it is not 0, and the digits shown read back to it. |
| EndToEnd.ShownOutput | front/src/outputBlock.ts:95-104 | Output is shown as itself without final newlines exactly when it has no carriage return before a newline. |
| EndToEnd.StrayShows | front/src/terminal.ts:33-42 | A stray newline on stderr is seen: no output of the command would look like it. |
| EndToEnd.CodeShows | front/src/terminal.ts:39-40 | An exit code shown is seen: no output of the command would look like it. |
| EndToEnd.WriteEvents | front/src/terminal.ts:159-162 | The block shows what the events say, newlines at the end removed, whenever the terminal draws in between. |
| EndToEnd.ShowReply | runner/handler.go:230-252 | However the body is cut into chunks and whenever the terminal draws, the page gets events that tell the reply, and in the end has drawn what they say. |
| EndToEnd.RunCommand | runner/shell.go:245-336 | End to end, for a silent stderr and any exit code: the page gets the command's own code as its last event and shows it unless it is 0; the block shows stdout without final newlines, for every chunking of the response, exactly when the code is 0, no carriage return ends a line, no newline was left over and none is heard after the marker. |
| ShellManager.Manager.Create | runner/shell_manager.go:46-68 | A new open shell under a new id, or nothing changed; a shell made for a taken id is closed. |
| ShellManager.Manager.Get | runner/shell_manager.go:70-81 | The shell of that id, open. |
| ShellManager.Manager.Delete | runner/shell_manager.go:83-96 | Removes and closes exactly that shell. |
| ShellManager.Manager.CloseAll | runner/shell_manager.go:98-113 | Empties the map and closes every shell, also after a failure; an error exactly when some close fails. |
| ShellManager.StepKeepsOwnership | runner/shell_manager.go:47-113 | Every locked region and every close keeps each shell held once: by an unfinished Create, the map, one pending close, or closed. |
| ShellManager.NeverClosedTwice | runner/shell_manager.go:47-113 | In every interleaving no shell is closed twice. |
| ShellManager.AllClosedExactly | runner/shell_manager.go:98-113 | With no close outstanding all shells are closed exactly when no Create and no map entry holds one. |
| ShellManager.ShutdownClosesAll | runner/shell_manager.go:98-113 | After a CloseAll with no Create in flight or later, the pending closes leave every shell closed. |
| HandlerFile.TempPathsDistinct | runner/handler.go:128-138 | Temp paths of different calls differ, and none is the target. |
| HandlerFile.Disk.WriteHandlerAtomically | runner/handler.go:136-147 | The target changes exactly on success and then holds the data; a failed write leaves the bytes that got there, a failed open nothing, and otherwise no temp file is left; nothing else changes. |
| HandlerFile.InvStep | runner/handler.go:136-147 | Each piece of each call keeps: own temp files hold own prefixes, the target holds a whole body. |
| HandlerFile.AlwaysWhole | runner/handler.go:132-147 | In every interleaving the target holds its first content or the complete body renamed last. |
| HandlerFile.FixedPathTears | runner/handler.go:134-135 | With one fixed temp path a run exists that publishes a mixture. |
| Highlight.UnescapeEscape | runner/app/Quiz.pm:17-19 | Unescaping undoes escaping, and escaped text has no angle bracket or quote in it. |
| Highlight.HighlightSaysMap | runner/app/Quiz.pm:65-81 | Without tags and entities the highlighted map is the map, whatever the matches. |
| Highlight.MarksRead | runner/app/Quiz.pm:71-80 | Reading the tags of the highlighted map, counted in characters shown, gives exactly the marked spans. |
| Highlight.NoOverlap | runner/app/Quiz.pm:73-77 | Marked spans never overlap. |
| Highlight.OnlyMatches | runner/app/Quiz.pm:72-78 | Only matches are marked. |
| Highlight.MatchHit | runner/app/Quiz.pm:72-78 | A non-empty match goes unmarked only when it starts inside a marked span. |
| Highlight.SortSorts | runner/app/Quiz.pm:69 | Sorting by start keeps the matches. |
| Highlight.SortStable | runner/app/Quiz.pm:69 | Of matches that start together the earlier stays first. |
| Highlight.HighlightMap | runner/app/Quiz.pm:65-81 | For matches in any order: the output says the map, its tags enclose exactly the marked spans, these are disjoint, and every non-empty match is marked or starts inside a marked span. |

## Left out

- BrokerService.BrokerService.CreateSession: needs that at some time registrations stop or the context ends and its requests fail (`Ends`), because a pool for ever refilled with runners that fail their check keeps the source's loop running, and a call that never returns has no answer to speak of. A call that does return has made finitely many requests, so it goes the same way under a schedule that fails from there on, and that one satisfies `Ends`. What a loop still running keeps are the invariants of `KeepTrying`. The table as a whole is told for the time nobody else acts, which is where it is determined.
- BrokerService.BrokerService.KeepTrying: needs `Ends`, as the loop of that call.
- BrokerService.BrokerService.ResolveSession: needs `Ends`, as it calls createSession; so do `ResolveThenLookup`, `VisitTwice`, `CreateInRun`, `Handler.GetResolveSession` and the members of `ReturnVisit`.
- ListBusyRunners of both stores and of the service: it only collects records, no decision depends on it.
- Index staleness and ambiguous failures of the stores: a request sees the table as it is when it lands, and a failed request had no effect.
- Random ids: the scan start, session ids and shell ids are oracles; fresh session ids are assumed where a statement says so.
- DynamoDB, Firestore, gRPC, gin, nginx and TLS themselves: their contracts are the atomic steps and the headers each location sets.
- `client_address`, `last_forwarded_for`, the port-forward decisions of resolve_core.lua and `parseClientAddress`: one-branch facts about one header each.
- Absent headers are modelled as empty strings, which every reader of them treats alike; a port that is not a whole number is modelled as an absent one.
- The order of stacks is one shared list; different lists on different stacks are not modelled.
- The scan loops of `AcquireIdle` are split into one method per loop level; `ExecuteStream` into its prelude, the reading of both streams, and the sending of one line.
- Bash's output is available at once when the script is written; when it arrives matters only for stderr, whose chunks, leftovers and late reads are arbitrary. A wait that never ends shows as the error `Hung`; a call whose script printed its marker never has it.
- Lines over the scanner's limit, background jobs that print on stdout after a marker, and UTF-8 decoding.
- JSON: the codec is a parameter with stated laws.
- Percent-escaping of cookie values: a session id is a stack name and hex digits, and the model sends it as it is; what is said of the client's cookie is for ids without `;`.
- xterm itself: it draws queued texts in order, one at a time, and wraps greedily; the block's class has a terminal whose resize and reset leave queued texts queued, and `DrainingNeverScrolls` is about one that draws them first, without a change of width while something is queued; that rows which scroll off do not come back is the source's own remark. A width that changes between a push and its observer's turn, and the hiding of a block that stayed empty, are not modelled. Tabs and carriage returns have the width of a character.
- Floating point in `requiredRows`: widths are small whole numbers, for which the quotient's ceiling is exact.
- The uint64 wrap-around of the temp file counter, and two processes with one process id.
- `evaluate`, `judge` and `regex_display` of the quiz: the regex engine; matches are any list in range.
- Environment parsing, presets, translations, dialogs, graceful shutdown, registration retries, deployment.
