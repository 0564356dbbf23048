# Ledger, audit reach and secrets: a verified model

This project models five parts of the repository in Dafny and proves what they promise.

**The ledger** (`Ledger*.dfy`). Three tables (accounts, an append-only entry log with unique refs, holds) under the
constraints of their migration, and `DB.batch` as one atomic run of statements that stops at the first broken
constraint. A call is what it is in the source: an optional read, one batch, and the reads it makes after an abort, each
a step of its own (`LedgerCalls.Step`). A run is any sequence of arrivals and steps, so every statement about
`Run(events)` holds of every interleaving of credit, debit, reverse, transfer, hold, release and capture, with any number
of deliveries of each. `LedgerTables.Database` and `LedgerCalls.Server` are the same machine with rows and calls updated in
place, each keeping the list of what has happened to it, so that what is proved of every run holds of the object. `LedgerBooks` proves that each batch, statement by statement, has its write's effect and aborts for exactly the
right reason; `LedgerInvariant` that every write keeps the books; `LedgerRuns` that what a call has read stays true while
others run; `LedgerTheorems` and `LedgerAnswers` state the promises; `LedgerOperations` says, over the tables of any run, what
each operation makes of its arguments, of its first read, of its batch and of a replay; `LedgerRaces` builds the runs that break
a documented promise.

**Audit reach** (`Strings`, `Glob`, `Sorting`, `Keyed`, `RoutePattern`, `RouteSubject`, `ReachFold`, `ReachCalls`, `ReachAnswer`). Declared routes
compile to an SQLite `GLOB` and a slash count; `Glob.Match` is SQLite's own matching, classes included. The reach
statement's steps (rows, calls, matches, tenants, reached, the group) are functions over the trail, and the fold of its
rows is a loop over a map, proved equal to the group-by stated directly.

**Keyset paging** (`AuditTrail`, `AuditQuery`, `AuditPaging`). The conditions a filter collects, the page they select, and a
whole walk by cursor over a trail that grows between pages.

**Secrets** (`SharedSecrets`, `SecretRegistry`, `Keyspace`, `KeyspaceWrite`). The single-flight cache as a state machine whose
promise callbacks are steps of their own; the merge of registries and the names it refuses; the naming of keyspace members; and their writes and
removes, over the encrypted store and the rotation tracker.

**The boolean token reader** (`BooleanToken`). The one-pass loop against its declarative rule, and against citty's.

`Common` holds an option and a result type, and sums over finite maps.

Four passages of the source's documentation do not hold of its code. The code is modelled as it is:

- `packages/audit/src/routePattern.ts:59-60` says two routes of equal specificity cannot both match one path. `/:a/b` and
  `/b/:a` are tied, and both match `/b/b` (`TiedRoutesCanBothMatch`). Some path is both routes exactly when no position
  holds two different literals (`BothMatchExact`).
- `packages/ledger/src/ledger.ts:71-74` says the in-process release cancels a hold and refuses a resolved one, and that a
  capture finalizes one. Either, having read the hold open and lost to the other, returns as if it had resolved it (`InProcessReleaseCanLoseSilently`,
  `InProcessCaptureCanLoseSilently`); what a release returned of is released exactly when no capture of the hold committed
  (`InProcessReleaseExact`), and what a capture returned of is captured exactly when one did (`InProcessCaptureExact`). The
  management release has no such gap.
- `packages/ledger/src/ledger.ts:488-491` says `applied: false` means only a replay. A credit or debit is also accepted on top
  of a reversal of the same account, kind and amount under its ref (`SameEntryExact`), as in a credit, its reversal, and a
  debit under the reversal's ref (`ReversalTakenForDebit`). Under a ref that does not end in `:reverse` it means only that
  (`OwnEntryExact`).
- `packages/secrets/src/keyspaceWrite.ts:73-78` says a create racing another cannot silently overwrite. `put` checks again
  and updates a row it finds, so a create that finds one there replaces it (`CreateRaceExact` says exactly when), as when one
  create completes between another's two checks (`TwoCreatesBothAnswer`).

One property holds only between reconfigurations: after `configureSharedSecrets`, two fetches can come to wait at once exactly
when one was pending then (`ReconfigureExact`), and an access can be served what an old fetch resolved exactly when one was
still waiting then (`StaleExact`).

## Model

| member | source | states |
|---|---|---|
| LedgerTables.Database.Run | packages/ledger/src/migrations/0001_accounts.ts:20-67 | One statement under the tables' constraints: unique refs on entries and holds, and `0 <= held <= balance` on an account row; a statement that breaks one changes nothing. |
| LedgerTables.Database.RunBatch | packages/ledger/src/ledger.ts:24-28 | A batch commits every statement, or puts back every row written before the first that broke a constraint, and says which constraint. |
| LedgerTables.ExecAllSplit | packages/ledger/src/ledger.ts:24-28 | Running a prefix of a batch and then the rest from where it ended is running the batch. |
| LedgerWrites.DerivedInjective | packages/ledger/src/ledger.ts:37-40 | No two refs derive the same ref under `:reverse`, `:resolve`, `:in` and `:out`, whatever refs callers choose. |
| LedgerBooks.OpenLogMove | packages/ledger/src/ledger.ts:388-411 | Opening an account, logging an entry and moving the balance, in that order: UNIQUE when the ref is taken, else CHECK when the balance would fall below what is held, else all three. |
| LedgerBooks.OpenLogPay | packages/ledger/src/ledger.ts:531-553 | The six statements of a transfer: UNIQUE when either ref is taken, else CHECK when the payer cannot cover it, else both entries and both movements, a transfer to oneself included. |
| LedgerBooks.OpenHoldIsReserved | packages/ledger/src/ledger.ts:339-361 | An open hold's amount is inside its account's `held`, and the account exists. |
| LedgerBooks.BatchHasEffect | packages/ledger/src/ledger.ts:388-631 | Every operation's batch, from any tables in good order, does exactly what the operation is meant to: a replay aborts on UNIQUE even where the balance no longer covers it, shortage aborts on CHECK, anything else commits the whole movement. |
| LedgerInvariant.FlowSolvent | packages/ledger/src/ledger.ts:32-35 | A movement its account covers leaves every account it touches within the solvency check. |
| LedgerInvariant.CommitKeepsBooks | packages/ledger/src/ledger.ts:22-40 | A committed write keeps every balance the signed sum of its entries, every `held` the sum of its open holds, and the shape of every entry and hold; and takes nothing back. |
| LedgerInvariant.ResolvesOnly | packages/ledger/src/ledger.ts:346-348 | Only a resolution of that hold can put an entry related to it under its `:resolve`. |
| LedgerCalls.Server.Begin | packages/ledger/src/ledger.ts:388-389 | A call arrives: it raises on a bad amount, or waits for its first access. |
| LedgerCalls.Server.Advance | packages/ledger/src/ledger.ts:254-277 | A call makes its next access, and only that: its batch, or the one read it makes next. What each access comes to is stated, over the tables of any run, by the `LedgerOperations` rows. |
| LedgerRuns.EveryRunIsSound | packages/ledger/src/ledger.ts:20-35 | In every reachable state the books are in order, the log is what the committed batches wrote, and everything each call in flight has read and decided is still true. |
| LedgerRuns.StepKeepsSound | packages/ledger/src/ledger.ts:254-277 | Every step of any call keeps that, whoever else is between a read and a write. |
| LedgerRuns.RunExtends | packages/ledger/src/ledger.ts:37-40 | Nothing later changes or removes an entry, an account, a hold's terms or its resolution. |
| LedgerTheorems.Conservation | packages/ledger/src/ledger.ts:381-645 | In every reachable state each balance is the signed sum of its entries, `held` the sum of open holds, `0 <= held <= balance`; and a currency's total is what credits, debits, reversals and captures issued, so no transfer, hold or release changes it. |
| LedgerTheorems.Serializable | packages/ledger/src/ledger.ts:22-28 | However calls interleave, the tables are those of the committed batches run one after another. |
| LedgerTheorems.Erasure | packages/ledger/src/ledger.ts:29-31 | Calls that committed nothing leave no trace: taken out of the schedule, the rest ends in the same tables and with the same answers. |
| LedgerTheorems.AtMostOnce | packages/ledger/src/ledger.ts:29-31 | Of all calls that would take one ref, at most one ever commits. |
| LedgerTheorems.ExactlyOnce | packages/ledger/src/ledger.ts:29-31 | With every delivery of an operation but the committed one removed, the run ends in the same accounts, log and holds. |
| LedgerTheorems.ReplayBeforeShortage | packages/ledger/src/ledger.ts:254-277 | A batch whose ref is taken is a replay whatever the balance; else it is refused as short exactly when the account cannot cover it; else it commits and the call returns. |
| LedgerAnswers.ResolvedExact | packages/ledger/src/ledger.ts:346-348 | The entry `<ref>:resolve` related to the hold is in the log exactly when a release or capture of it committed. |
| LedgerAnswers.HoldResolvedOnce | packages/ledger/src/ledger.ts:582-631 | A hold is no longer open exactly when one resolution of it committed, and never do two commit, however many calls read it open. |
| LedgerAnswers.ResolutionNeverShort | packages/ledger/src/ledger.ts:626-630 | A release or a capture, of any amount from 0 to all of it, never aborts on CHECK; one that commits found the hold open. |
| LedgerAnswers.ReversalsPair | packages/ledger/src/ledger.ts:413-458 | A credit or debit with a related ref is exactly that entry's `:reverse`, on the same account, of the opposite kind, netting to zero; an entry has at most one, and a reversal has none. |
| LedgerAnswers.ReversalFindsItsAccount | packages/ledger/src/ledger.ts:437-447 | A reversal never opens an account, and its update always finds the row. |
| LedgerAnswers.OwnDerivedExact | packages/ledger/src/ledger.ts:286-297 | After a UNIQUE abort a reversal or a resolution is accepted exactly when one of its own committed, and otherwise raises a ref conflict naming the ref. |
| LedgerAnswers.SameEntryExact | packages/ledger/src/ledger.ts:308-329 | A management credit or debit is accepted as a replay exactly when it committed before, or a reversal that moved the same did under the ref it was given. |
| LedgerAnswers.OwnEntryExact | packages/ledger/src/ledger.ts:299-329 | Under a ref that does not end in `:reverse`, a management credit or debit is accepted as a replay exactly when that same write committed. |
| LedgerAnswers.OutcomeExact | packages/ledger/src/ledger.ts:273-276 | A write that commits answers the account as its batch left it and as it stood just before, zero for one just opened. |
| LedgerAnswers.FallbackUnreachable | packages/ledger/src/ledger.ts:274-274 | The read that would stand in for a row missing from the batch is never made. |
| LedgerAnswers.CommitsWhatWasAsked | packages/ledger/src/ledger.ts:381-631 | Every committed batch is of a call that returned, and is what it asked: its account and amount, only on the account a management call is confined to, and for a capture the amount named or all that is held. |
| LedgerAnswers.AppliedExact | packages/ledger/src/ledger.ts:93-100 | `applied` is true exactly when that call's own batch committed. |
| LedgerAnswers.ReleaseIsTrue | packages/ledger/src/ledger.ts:460-477 | A management release returns only if the hold is released, then and in every later state. |
| LedgerAnswers.LostRaceAnswers | packages/ledger/src/ledger.ts:473-476 | A management release that lost its race never returns if a capture won, never raises and answers `applied: false` if a release won, and raises a ref conflict if neither did, wherever the winner fell between its reads. |
| LedgerAnswers.InProcessReleaseExact | packages/ledger/src/ledger.ts:582-585 | What an in-process release returned of is resolved, and released exactly when no capture of it committed. |
| LedgerAnswers.InProcessCaptureExact | packages/ledger/src/ledger.ts:587-631 | What an in-process capture returned of is resolved, and captured exactly when a capture of it committed. |
| LedgerAnswers.CallEnds | packages/ledger/src/ledger.ts:254-277 | However accesses interleave, every call is over after at most five of its own. |
| LedgerOperations.Arrives | packages/ledger/src/ledger.ts:388-400 | Each of credit, debit, transfer and hold takes only a whole amount above zero and goes straight to the batch of its own arguments, and otherwise raises; the others read first. |
| LedgerOperations.ReversalReads | packages/ledger/src/ledger.ts:413-437 | In any run a reversal writes exactly when its ref is logged, on the account named if one is, as a credit or a debit with no related ref, and then the opposite of the same amount; each failed condition raises its own error. |
| LedgerOperations.ReleaseReads | packages/ledger/src/ledger.ts:648-660 | An in-process release writes exactly when its hold is there and open: not there, or no longer open, it raises so. |
| LedgerOperations.ManagedReleaseReads | packages/ledger/src/ledger.ts:460-473 | A management release writes exactly when its hold is there, open and on the account named; captured it raises, and released it has nothing left to do. |
| LedgerOperations.CaptureReads | packages/ledger/src/ledger.ts:587-594 | A capture writes exactly when its hold is there and open and the amount it names is whole and from 0 to what is held; it takes all that is held where it names none. |
| LedgerOperations.ReversalProceedsExact | packages/ledger/src/ledger.ts:413-437 | A reversal goes on to write exactly when a credit or a debit of its ref has committed, on the account it is confined to. |
| LedgerOperations.ResolutionProceedsExact | packages/ledger/src/ledger.ts:460-594 | A release or a capture goes on to write exactly when a hold of its ref has committed, on the account it is confined to, and no release or capture of it has; and, for a capture, its amount is one it may take. |
| LedgerOperations.CreditLands | packages/ledger/src/ledger.ts:388-397 | In any run a credit's batch logs the credit, adds the amount to the balance and answers the account before and after; or its ref was taken, and nothing moves. |
| LedgerOperations.DebitLands | packages/ledger/src/ledger.ts:399-411 | A debit's batch takes the amount, is refused as short exactly when less is available, or finds its ref taken. |
| LedgerOperations.HoldLands | packages/ledger/src/ledger.ts:555-580 | A hold's batch reserves the amount and leaves the balance, is refused as short exactly when less is available, or finds its ref taken. |
| LedgerOperations.ReversalLands | packages/ledger/src/ledger.ts:437-456 | A reversal's batch logs the opposite of its entry under `:reverse` and moves it back: of a debit always, of a credit exactly when that much is available, unless the ref is taken. |
| LedgerOperations.UnreversedReverses | packages/ledger/src/ledger.ts:413-458 | From read to write, an entry nobody holds the `:reverse` of is reversed: a debit always, a credit exactly when it is still covered. |
| LedgerOperations.ReleaseLands | packages/ledger/src/ledger.ts:339-361 | A release's batch, its `:resolve` free, finds the hold open, marks it released and gives back all that was held. |
| LedgerOperations.CaptureLands | packages/ledger/src/ledger.ts:595-631 | A capture's batch, its `:resolve` free, finds the hold open, marks it captured, gives back all that was held and spends what it captures. |
| LedgerOperations.TransferLands | packages/ledger/src/ledger.ts:531-553 | A transfer's batch logs both entries and moves the amount between two accounts, or none where they are one; refused as short exactly when less is available; a silent no-op when either ref is taken. |
| LedgerOperations.ReplayReads | packages/ledger/src/ledger.ts:264-267 | A call whose ref was taken reads its account as it stands; an in-process credit or debit, or a hold, answers that, before and after, and the others carry it to their proof. |
| LedgerOperations.AlreadyReleasedReads | packages/ledger/src/ledger.ts:468-472 | A management release of a released hold answers the account as it stands, before and after. |
| LedgerOperations.ProofReads | packages/ledger/src/ledger.ts:286-329 | The proof accepts an entry on the write's account that is related to what it derives from, or is of its kind and amount, and the balance read before is answered; any other, and it raises a conflict on that ref. |
| LedgerOperations.ShortSays | packages/ledger/src/ledger.ts:174-194 | A refusal as short names the amount, what was available when it looked and what was missing, never below zero; a hold's names none. |
| LedgerOperations.ReplaySaysWhatStood | packages/ledger/src/ledger.ts:264-267 | Any answer that nothing was applied has one balance before and after: its account's at some moment since the call began with the replayed ref already taken, carried unchanged through the proof. |
| LedgerRaces.InProcessReleaseCanLoseSilently | packages/ledger/src/ledger.ts:582-585 | For any account, amount and refs, a run in which an in-process release returns although its hold was captured. |
| LedgerRaces.InProcessCaptureCanLoseSilently | packages/ledger/src/ledger.ts:587-631 | For any account, amount and refs, a run in which an in-process capture returns although its hold was released and nothing spent. |
| LedgerRaces.ReversalTakenForDebit | packages/ledger/src/ledger.ts:481-509 | For any account, amount and ref: a credit, its reversal, and a management debit under the reversal's ref that answers `applied: false` although no debit was ever made. |
| Strings.SplitJoin | packages/audit/src/routePattern.ts:106-107 | Splitting on `/` undoes joining slash-free parts. |
| Glob.EscapedLiteral | packages/audit/src/routePattern.ts:42-45 | An escaped literal matches itself and nothing else, whatever pattern follows it. |
| Glob.Star | packages/audit/src/routePattern.ts:15-16 | A star takes any stretch of characters, slashes included. |
| RoutePattern.ParamNameExact | packages/audit/src/routePattern.ts:39-40 | A segment declares a parameter exactly when it is a colon, a name of letters, digits and underscores, and then a one-line pattern in braces or none, and a question mark or none. |
| RoutePattern.CompiledRouteExact | packages/audit/src/routePattern.ts:73-86 | A path matches a non-wildcard route's glob and has its slash count exactly when both have as many segments and every literal segment is equal. |
| RoutePattern.BothMatchExact | packages/audit/src/routePattern.ts:55-61 | Some path is both of two routes exactly when they have as many segments and no position holds two different literals. |
| RoutePattern.SameLiteralsSameRoute | packages/audit/src/routePattern.ts:55-61 | Two routes with literals in the same positions that both match a path differ only in parameter names. |
| RoutePattern.TiedRoutesCanBothMatch | packages/audit/src/routePattern.ts:59-60 | `/:a/b` and `/b/:a` have one specificity and both match `/b/b`. |
| Sorting.SortStable | packages/audit/src/routePattern.ts:65-72 | The sort keeps what its comparator leaves tied in the order it was given. |
| Keyed.UniqueExact | packages/audit/src/routePattern.ts:63-65 | A map's values are of the elements set in it, in the order their keys were first set, and no key is missing. |
| RoutePattern.ReachPatterns | packages/audit/src/routePattern.ts:62-87 | One pattern per method and path, none lost and none made up, each as close as every later one counted in segments (literals, then parameters, then a wildcard), then by declaration, each compiled under its position. |
| RoutePattern.RanksBySegments | packages/audit/src/routePattern.ts:47-53 | The comparator's order, in segments: no fewer literals; where as many, no more parameters; where as many of those, no wildcard the other lacks. |
| RoutePattern.LiteralBeforeParameter | packages/audit/src/routePattern.ts:55-72 | Of two routes that differ only where one has literals and the other parameters, the one with the literals has the lower rank. |
| RoutePattern.TieGoesToFirstDeclared | packages/audit/src/routePattern.ts:55-72 | Of routes with as many of each kind of segment that both match, the one declared first is the one a call is given. |
| RoutePattern.CompiledMatchExact | packages/audit/src/reach.ts:192-209 | The statement matches a call to a non-wildcard route exactly when the method is the route's and the path fits it segment by segment. |
| RoutePattern.LeastRankIsMostSpecific | packages/audit/src/routePattern.ts:47-87 | The match of least rank is alone in its rank, and has no fewer literal segments than any other route that matches; where as many, no more parameters; where as many of those, no wildcard the other lacks. |
| RouteSubject.RouteParams | packages/audit/src/routePattern.ts:105-115 | The record of a path's parameters, in the order they are first declared; none for a path of another length. |
| RouteSubject.ParamAt | packages/audit/src/routePattern.ts:105-115 | A fitting path sets exactly the declared names in order, each to the decoded segment at its last declaration. |
| RouteSubject.NamesIdExact | packages/audit/src/routePattern.ts:117-118 | A name names an id exactly when it is `id` or ends in `Id`. |
| RouteSubject.SubjectAt | packages/audit/src/routePattern.ts:117-138 | The subject is the last name that names an id, or the last of all where none does. |
| RouteSubject.LastId | packages/audit/src/routePattern.ts:117-138 | The last name that names an id, if any does. |
| RouteSubject.SubjectIdExact | packages/audit/src/routePattern.ts:133-141 | The subject's id is its own parameter's decoded value, and absent exactly when the route declares no parameter. |
| RouteSubject.SubjectKeysAgree | packages/audit/src/routePattern.ts:127-141 | Two paths of a route have one subject key exactly when they agree on every decoded parameter up to the subject. |
| ReachFold.Fold | packages/audit/src/reach.ts:360-395 | The loop over a map of groups answers the direct group-by. |
| ReachFold.ByGroupTotal | packages/audit/src/reach.ts:444-454 | `byGroup` is a strict total order of group keys, null first. |
| ReachFold.ByGroupExact | packages/audit/src/reach.ts:444-454 | The first of tenant, route, action, method, match, outcome and scope that differs decides, null before any text. |
| ReachFold.FoldExact | packages/audit/src/reach.ts:354-395 | For rows of any order: output strictly increasing under `byGroup`, one row per group, each the group's summed count, extreme instants and distinct subjects, and no count lost. |
| ReachFold.GroupsPartition | packages/audit/src/reach.ts:354-359 | The groups' counts add up to all the rows'. |
| ReachCalls.Rows | packages/audit/src/reach.ts:122-145 | Exactly the connection's call rows in the window that name a path, each as often as the trail has it. |
| ReachCalls.RefusedExact | packages/audit/src/reach.ts:162-177 | An admission is dropped exactly when a refusal with its request, actor, method and path, none of them null, is among the rows. |
| ReachCalls.GatesExact | packages/audit/src/reach.ts:150-160 | A refusal's gate rows are exactly the admissions with its request, actor, method and path, none of them null, each as often as it is there; nothing else has any. |
| ReachCalls.NullPairsWithNothing | packages/audit/src/reach.ts:150-177 | A row with no request id or no actor has no gate, is no row's gate, is refused by nothing, and is always a call. |
| ReachCalls.CallRowsExact | packages/audit/src/reach.ts:162-177 | The rows that stand for a call are every refusal, and each admission no refusal pairs with by all four columns, each as often as it is there. |
| ReachCalls.CallsExact | packages/audit/src/reach.ts:178-190 | The calls are exactly those rows, their scope and key their own where they name one, else one of their gates'. |
| ReachCalls.PairingExact | packages/audit/src/reach.ts:146-191 | Pairing yields one row per call, every refusal and each admission no refusal pairs with, exactly when no refusal has two admissions with its request, actor, method and path, none of them null. |
| ReachCalls.OneGateEach | packages/audit/src/reach.ts:150-160 | At most one gate row per request, actor, method and path gives every refusal at most one. |
| ReachCalls.KeepKeyExact | packages/audit/src/reach.ts:148-190 | The key filter keeps exactly the calls made with the key, each as often as it was there. |
| ReachCalls.Pick | packages/audit/src/reach.ts:192-217 | A call gets at most one route: a match of least rank, whenever any route matches. |
| ReachCalls.PickIsMostSpecific | packages/audit/src/reach.ts:192-217 | Whenever a declared route matches a call, the route the call gets has no fewer literal segments than that one, and then no more parameters, and then no wildcard it lacks. |
| ReachCalls.Tenants | packages/audit/src/reach.ts:218-231 | Each tenant the call's handler recorded, once. |
| ReachCalls.TenantsExact | packages/audit/src/reach.ts:218-231 | A tenant is a call's exactly when another control-plane event of its request and actor, neither null, names it. |
| ReachCalls.ReachedExact | packages/audit/src/reach.ts:232-252 | The reached rows are exactly the calls', each under its route or else its own path, and under each tenant it reached or else its own. |
| ReachCalls.ReachedTotal | packages/audit/src/reach.ts:232-252 | Reached rows number the total over calls of the distinct tenants each reached, one for a call that reached none. |
| ReachAnswer.GroupedCounts | packages/audit/src/reach.ts:253-263 | The statement's rows of a group count exactly the group's reached rows, between the earliest and the latest. |
| ReachAnswer.KeptGroup | packages/audit/src/reach.ts:261-261 | A read narrowed to a route keeps that route's groups whole, and no other. |
| ReachAnswer.AnswerCountsCalls | packages/audit/src/reach.ts:407-414 | Narrowed to a route or not, every row of the answer counts exactly its group's calls between their extremes, every group asked for has a row, and with no route asked for the counts add up to the total over calls of max(1, distinct tenants). |
| ReachAnswer.AnswerCountsSubjects | packages/audit/src/reach.ts:320-395 | A row's subjects are the distinct subject keys among its group's calls, 0 for a route with no parameter and none for an unmatched path. |
| ReachAnswer.AnswerCountsEachCallOnce | packages/audit/src/reach.ts:146-259 | With no key or route asked for and no refusal with two gates, that total is over each call once. |
| AuditQuery.DomainRange | packages/audit/src/query.ts:105-109 | `p/ <= action < p0` holds exactly of the actions that begin with `p/`. |
| AuditQuery.AuditEventQuery | packages/audit/src/query.ts:90-135 | The collected conditions together are exactly the filter, a null tenant asking for the events of none. |
| AuditQuery.MatchesByColumn | packages/audit/src/query.ts:90-135 | An event matches exactly when every column asked for is as asked, its action begins with the domain and a slash, and it is inside the window, ends included. |
| AuditPaging.PageLimit | packages/core/src/data/cursor.ts:32-47 | The page size is what is asked for within 1 to 100, the nearer bound outside it, and 25 when none is asked for. |
| AuditPaging.ToPage | packages/core/src/data/cursor.ts:111-126 | What is over the limit is dropped, and gives a cursor at the last row kept, if one was. |
| AuditPaging.PageAuditEvents | packages/audit/src/query.ts:172-195 | The page is the front of the matching events after the cursor, newest first, a malformed cursor being none. |
| AuditPaging.RestIs | packages/audit/src/query.ts:81-89 | What a query selects is exactly the matching events after the position, strictly newest first, the id breaking ties. |
| AuditPaging.PageSplits | packages/audit/src/query.ts:172-195 | A page and what its cursor leaves are what was left before it. |
| AuditPaging.FollowCursor | packages/audit/src/query.ts:163-195 | On a fixed trail following the cursor ends, and returns the unpaged answer. |
| AuditPaging.WalkExact | packages/audit/src/query.ts:163-195 | A walk followed to its end over a growing trail returns, strictly descending and so never twice, exactly the events that were there and not yet passed when some page was read: every matching event present at the start among them, for any page sizes. |
| SharedSecrets.Store.ConfigureSharedSecrets | packages/secrets/src/sharedSecretsStore.ts:95-124 | A lifetime that is not finite, negative or over 3600 seconds raises and changes nothing; any other, or 60 where none is given, replaces the configuration, in milliseconds, and clears cache and slot. |
| SharedSecrets.AcceptedExact | packages/secrets/src/sharedSecretsStore.ts:96-124 | From any state a lifetime is accepted exactly when finite and from 0 to 3600 seconds, 60 where none is given, and is kept as a thousand times that in milliseconds. |
| SharedSecrets.LifetimeExact | packages/secrets/src/sharedSecretsStore.ts:96-155 | After an accepted configuration of s seconds, an accessor fetched under it and resolved at t is served at any later moment exactly when it is before t + 1000 s, whatever happens meanwhile, until another configuration or resolution. |
| SharedSecrets.ConfiguredAs | packages/secrets/src/sharedSecretsStore.ts:96-131 | After any run the configuration in force is the last accepted registry and lifetime, unless they were reset. |
| SharedSecrets.Store.SharedSecretsStore | packages/secrets/src/sharedSecretsStore.ts:144-187 | An access raises, is served from the cache, shares the pending fetch, or starts one. |
| SharedSecrets.Store.OnResolved | packages/secrets/src/sharedSecretsStore.ts:150-155 | A fetch that resolves fills the cache, dated by its own configuration. |
| SharedSecrets.Store.OnFinally | packages/secrets/src/sharedSecretsStore.ts:156-158 | Whatever the slot holds, it is cleared. |
| SharedSecrets.EveryAccess | packages/secrets/src/sharedSecretsStore.ts:143-160 | After any lawful run at most one fetch is pending; what the cache serves at t was resolved under this configuration at some t0 with t0 <= t < t0 + 1000 s, s the seconds configured and at most an hour; an access it does not serve shares the pending fetch, and starts one only where there is none. |
| SharedSecrets.FetchAgain | packages/secrets/src/sharedSecretsStore.ts:150-160 | After a failure the next access the cache does not serve fetches afresh; after a success the accessor is served for the seconds configured and no longer. |
| SharedSecrets.ReconfigureExact | packages/secrets/src/sharedSecretsStore.ts:90-160 | After an accepted configuration, with no further one, two fetches can come to wait at once exactly when a fetch was pending when it was made. |
| SharedSecrets.StaleExact | packages/secrets/src/sharedSecretsStore.ts:90-160 | An access after it can be served an accessor from before it exactly when a fetch, with a lifetime above zero, was still waiting when it was made. |
| SharedSecrets.OldFetchFillsNewCache | packages/secrets/src/sharedSecretsStore.ts:122-158 | From any state with a pending fetch, reconfiguring lets a second one join it, and the old one's accessor be served to accesses of the new registry. |
| SecretRegistry.MergeExact | packages/secrets/src/sharedSecretsStore.ts:189-226 | The merge succeeds exactly when all declarations of every name agree on every axis, holds each name's first declaration, and otherwise stops at the first clash, naming both owners. |
| SecretRegistry.ConsistentExact | packages/secrets/src/sharedSecretsStore.ts:203-221 | Declarations agree exactly when any two of one name have one backend, scope, type and rotation and are both keyed or both not. |
| SecretRegistry.BindingExact | packages/secrets/src/env/bindingName.ts:25-39 | A derived binding can be bound exactly when its key does not start with a digit, and deriving it again changes nothing. |
| SecretRegistry.BindableExact | packages/secrets/src/registry.ts:593-652 | Only a Secrets Store name outside any keyspace is ever refused as unbindable, and exactly when it is empty or starts with a digit. |
| SecretRegistry.CollideExact | packages/secrets/src/env/bindingName.ts:25-39 | Two such names share a binding exactly when they are as long and differ only in the case of letters and in characters that are neither letters nor digits. |
| SecretRegistry.RefuseUnbindableStoreSecrets | packages/secrets/src/registry.ts:593-652 | Nothing is refused exactly when every store secret's binding can be bound and no two names share one; otherwise the first unbindable name, or else the first collision, is. |
| SecretRegistry.AggregateSecretRegistries | packages/secrets/src/sharedSecretsStore.ts:196-233 | The registry is built exactly when all declarations agree and every store secret can be bound and told apart, and is refused for the first thing wrong. |
| SecretRegistry.OrderIrrelevant | packages/secrets/src/sharedSecretsStore.ts:189-195 | The order capabilities are composed in decides neither whether the registry is built nor what any name resolves as. |
| Keyspace.ValidKeyExact | packages/secrets/src/keyspace.ts:28-37 | A key is legal exactly when it is 1 to 128 letters, digits, dots, dashes and underscores, the first a letter or digit. |
| Keyspace.ComposeInjective | packages/secrets/src/keyspace.ts:48-58 | Two members share a stored name only by being the same member, whatever their keyspaces are called. |
| Keyspace.RoundTripExact | packages/secrets/src/keyspace.ts:48-70 | Parsing a composed name gives its keyspace and key back exactly when the keyspace is a legal entry name. |
| Keyspace.ParseExact | packages/secrets/src/keyspace.ts:65-70 | A name parses to a member exactly when that member is legal and composes to it. |
| KeyspaceWrite.Store.RunKeyedWrite | packages/secrets/src/keyspaceWrite.ts:80-119 | Create refuses a stored member and changes nothing; replace and create leave one version, with a baseline for a new rotatable member; rotate adds a version, made current, and keeps every other. |
| KeyspaceWrite.Store.RunKeyedRemove | packages/secrets/src/keyspaceWrite.ts:132-135 | The member and its rotation history go together, whether or not it was there. |
| KeyspaceWrite.Store.Keyed | packages/secrets/src/secretsStore.ts:462-494 | The keyspace, the key and the value are proved in turn before the store is touched; a bad one is refused and changes nothing. |
| KeyspaceWrite.Isolated | packages/secrets/src/keyspace.ts:15-22 | An operation on one member leaves every other member's row and history as they were, from any database. |
| KeyspaceWrite.AppendNumbered | packages/secrets/src/crypto/versionedValue.ts:39-43 | Appending to versions 1 to n gives versions 1 to n + 1, the last current. |
| KeyspaceWrite.MembersHoldTheirOwn | packages/secrets/src/keyspaceWrite.ts:80-135 | After any run of completed operations every member holds exactly what its own operations say, with one baseline per lifetime if its keyspace rotates and no history while it is not stored. |
| KeyspaceWrite.OnlyMembersStored | packages/secrets/src/keyspace.ts:60-70 | Every row and every history row is a declared keyspace's member's, and history exists only for stored members. |
| KeyspaceWrite.CreateRaceExact | packages/secrets/src/keyspaceWrite.ts:70-119 | A create raced between its check and its write leaves what one completed at once would, exactly when no other had stored the member by the time `put` checked again; otherwise it silently replaces the other's, or stores nothing and leaves a baseline. |
| KeyspaceWrite.TwoCreatesBothAnswer | packages/secrets/src/keyspaceWrite.ts:70-119 | Two creates of one member can both answer version 1, the one completed between the other's two checks being replaced, with two baselines. |
| BooleanToken.ReadBooleanToken | packages/cli/src/booleanToken.ts:45-72 | The loop reads the declarative rule: tokens after `--` ignored, a bare negation anywhere is false, else the last deciding token; the first malformed and the first negated value reported. |
| BooleanToken.LastMention | packages/cli/src/booleanToken.ts:45-72 | A bare negation anywhere reads false; else the last token to mention the flag decides: the bare flag true, a value true unless `false`, a negated true or false its opposite. |
| BooleanToken.AgreesWithCitty | packages/cli/src/booleanToken.ts:13-25 | Where no token is a negation with a value, the flag reads as citty parses it. |
| BooleanToken.AgreeExact | packages/cli/src/booleanToken.ts:21-25 | The two readings agree exactly when a bare negation settles both, or what follows the last token citty reads decides nothing or the same. |
| BooleanToken.AcceptedJson | packages/cli/src/declaredFlags.ts:243-269 | An argv `--json` accepts spells it only `--json`, `--no-json`, `--json=true` or `--json=false`, and citty reads it the same. |

## Left out

- D1 and Kysely: SQL text, statement compilation and the matching of error messages; a batch is a step that commits or aborts on UNIQUE or CHECK. Other database errors are not modelled.
- Timestamps, memos, error wording, audit writes and the purge of ledger rows: they decide no balance, and a purge breaks the append-only log by design.
- Number widths: amounts are unbounded integers, so no JavaScript double or 64-bit SQLite overflow.
- `transactions`: the log is a map by ref, so the order of its ids is not modelled.
- A hold's `resolvedAt`, and the parse of a stored row into its app shape.
- A second `*` in one route counts as a literal, as in the source's subtraction.
- Wildcard routes in the segment rule: `CompiledRouteExact` is about routes without `*`; their glob is modelled, and `LeastRankIsMostSpecific` covers their rank.
- Parameter names that look like integers, which JavaScript moves to the front of a record.
- `decodeURIComponent` is a parameter of the model, and the JSON text of a subject key and of a group key is taken as injective.
- The reach statement's own `ORDER BY`, which the fold does not rely on, a call row whose metadata names no method, and `controlPlaneReachSubjects`.
- Patterns given to the reach statement with repeated ranks: SQLite may pick either, and the model picks the first.
- Text compares by code point, as the UTF-8 bytes SQLite compares do. JavaScript compares UTF-16 code units, which differ from that only above U+FFFF; `byGroup` and the binding rule are modelled on code points.
- Retention pruning during a page walk: `WalkExact` is about appends. `queryAuditEvents` and `readAuditEvent` are the same query without a cursor.
- The base64url and JSON text of a cursor: a token is an encoded cursor or other text. Limits and cursor numbers are integers.
- Value types, schemas, encryption and audit of a keyspace write: a value comes as it serializes or as one that fails to, and a stored member is its versions.
- Entry names that are properties of every JavaScript object, and names that look like integers, which such an object lists first.
- The gap between a raced create's row and its baseline, and races of replace, rotate and remove; completed operations are covered in any order.
- The source writes one `if` per filter field; the model gives each kind of field one small method.
- Access history, usage, capability wiring, the other flags of the command line, and every entry point.
