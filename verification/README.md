# Verified models of the notees core

Dafny models of fifteen behaviours of the notees monorepo, with proofs that hold for every
input, every run or every reachable state. `dafny verify dfyconfig.toml` checks all of it.

Where the code updates state step by step the model is imperative (classes and loops), and
each such method is proved equal to a function; the properties are then proved of the
function. Where the code computes by expressions and recursion the model is functions.

| files | what they model |
|---|---|
| Calendar | proleptic Gregorian day arithmetic, as section 21.4.1 of ECMA-262 defines it for `Date.UTC` |
| Recurrence | repeating dates: rules, occurrences and the plain enumeration of a window |
| RecurrenceWalk, RecurrenceLoops | the candidates the expansion looks at, compared as texts, and the three loops over them |
| RecurrenceRange, RecurrenceDense, RecurrenceEdge, RecurrenceExpansion, RecurrenceAnswer | the expansion, and exactly when it is the plain enumeration, when it lists days past the year 9999 and when it never returns |
| RecurrenceSplit, RecurrenceMetadata | the "this and following" split, exceptions and bound |
| IsoDates, DateNodeIds | ISO days and the ids of date nodes |
| RelayLog, RelayStorage | the append-only log, paged catch-up, snapshots |
| DerivedStore, WorkspaceRuns, WorkspaceEffects, WorkspaceConvergence, WorkspaceRebuild, WorkspaceReopens, WorkspaceManager | derived stores rebuilt from the log, over runs with crashes; what each step does, what a pass tries again, what stores are made of, and where reopens end |
| Bibtex, BibtexRoundTrip, BibtexReading, BibtexPrinting, BibtexScanner | the tolerant BibTeX parser and the canonical printer: what documents written with any delimiters and noise read as, and what is printed |
| QueryAst, QueryMeaning, QueryMapping, QueryText | the version 1 to version 2 query rewriting, what both versions mean, and the meaning of version 1 told on its text |
| CreateOrder, CreateSorter, CreateReading | the ordering of create rows in a migration, and what it keeps told on the rows of the log |
| LinkGrammar, LinkWording, LinkSplit, LinkCompleteness, MarkdownLinks | links in plain text |
| Excerpt | the one-line excerpt of a block |
| Workflows, WorkflowContents, WorkflowPlan, WorkflowBlockIds, WorkflowIds | the workflow planner: what its plans hold, their references and ids |
| ClassClosure | the extends closure of classes and feature toggles |
| RateLimit, RateLimitDecision | the fixed-window limiter, and what decides a charge |
| Text, Wrappers | JavaScript string primitives, Option and Result |

Some choices that matter for reading the results:

- `Store.apply` is a parameter `f` (`DerivedStore.Applier`): a deterministic partial function
  on the state. Applying records the envelope's id; a rejection changes nothing.
- The clock, new snapshot ids and the optional name lookups are parameters.
- The expansion compares ISO texts, as the code does: `"10000-01-01"` sorts before
  `"9999-12-31"`. For days of four year digits this is the order of the days
  (`IsoDates.IsoOrder`); `IsoDates.FarOrder` and `IsoDates.NanOrder` say what it is for later
  years and for a day out of the range of `Date` (10^8 days around 1970), which prints as NaN.
- An expansion that never returns has the result `Endless`. The model's loop returns it when
  the candidate is NaN and neither ends the loop nor is listed: every later candidate is the
  same (`RecurrenceLoops.NanEndless`).
- A regular expression's search is modelled by its leftmost match. The expressions involved
  have at most one match at each position, since every repetition ends at a character it
  excludes.
- A loop is proved equal to a function, and what the function means is then stated in words of
  its own: literal names, characters, ids and positions, without the helpers the loop uses
  (`Recurrence.OccursMeans`, `RecurrenceAnswer.AnswerMeans`, `QueryText.DocumentMeans`, `BibtexReading.DocumentReads`,
  `WorkflowContents.PlanHolds`, `RateLimitDecision.GrantedExactly`, `WorkspaceEffects`,
  `CreateReading`, `LinkWording`, `Excerpt.FlatIsSaid`, `ClassClosure.AncestorsClimbed`).

Where the documentation in the code and the code disagree, the model follows the code:

- The expansion's documentation calls the anchor day the first occurrence
  (packages/domain/src/recurrence.ts:370). It is one exactly unless the rule is the weekdays rule
  and the anchor falls on a weekend: `Recurrence.AnchorOccurs`, and `Recurrence.SaturdayAnchor` for
  an anchor that is not.
- The expansion is documented to give the days inside the window
  (packages/domain/src/recurrence.ts:368-374). It can list days past the year 9999
  (`RecurrenceEdge.ExpansionOverruns`: daily from 9999-12-31, window up to that day), and rules of
  522 weeks and more can make it run for ever (`RecurrenceEdge.ExpansionHangs`).
  `RecurrenceExpansion.Expand` says exactly when it does give the days of the window.
  `RecurrenceDense.DenseExact` says so in terms of the series and the window alone, for rules that
  have a day in any ten years: daily rules, the weekdays rule, weekly rules up to 521 weeks, and
  monthly and yearly rules up to ten years unless the months they step to can lack the anchor's
  day for as long (`RecurrenceDense.EarlyDaysDense`, `RecurrenceDense.OwnMonthDense`).
- The sweep's documentation says that skipped envelopes are retried on the next pass
  (apps/server/src/workspace-store.ts:157-159). A sweep tries an unapplied envelope exactly when
  its number is above the watermark (`WorkspaceConvergence.SweepTries`), and every sweep, reopen and
  write that goes through with a new plaintext envelope moves the watermark past all of the workspace's rows
  (`WorkspaceConvergence.PassStrandsTheRest`, `WorkspaceRuns.ApplyJumps`), so no sweep tries a skipped
  envelope again. `WorkspaceConvergence.SkippedChild` is a run where the prerequisite of a skipped
  envelope arrives and still only a reopen applies it; `WorkspaceConvergence.OvertakenEnvelope` one where
  the envelope was never tried at all.
- The write path is documented to apply "the newly-saved ones" of a batch after persisting it
  (apps/server/src/workspace-store.ts:5-7). It picks them by id. When a batch brings a new id first
  sealed and later as plaintext, the log keeps the sealed envelope and the store applies the other:
  `WorkspaceRebuild.SealedCopyFirst` is such a run, and no envelopes of the log give its store.
  `WorkspaceRebuild.WriteExact` shows that nothing else does this.
- `dateChainParentId` is documented to return a parent or null. For the id of a day that does
  not exist it throws; `DateNodeIds.ChainParentThrows` says exactly when and
  `DateNodeIds.FebruaryThirtyFirstThrows` gives an id.
- `parseIsoDate` reads the year 0 as 1900, which is no leap year, and so refuses 0000-02-29:
  the one date `IsoDates.ParseFormat` has to except.
- The BibTeX serializer escapes braces so that values survive. The parser drops the braces and
  keeps the backslashes; `BibtexRoundTrip.ValueRoundTrip` shows that a value comes back exactly when it
  is whitespace-normalised and has no brace, and `BibtexRoundTrip.BracesLost` a value that does not.
- The planner's comment says that siblings of different sections may reuse a key without colliding
  (packages/domain/src/workflows.ts:523-524). The children of an unnamed block at the root share
  the ids of its own level; `WorkflowIds.CreatedIdsDistinct` says exactly when ids collide.

## Model

| member | source | states |
|---|---|---|
| Calendar.YearFromDay | packages/domain/src/recurrence.ts:333-366 | the year read from a day number is the one whose first day is at or before it and whose successor's first day is after it |
| Calendar.DayZero | packages/domain/src/recurrence.ts:338-340 | day 0 of a month is the last day of the month before it |
| Calendar.DaysInMonth | packages/domain/src/recurrence.ts:338-340 | the length read off day 0 is 30, 31, 28 or 29 as the Gregorian calendar has it |
| Calendar.FromMakeDay | packages/domain/src/recurrence.ts:358-361 | every real date is read back from its own day number |
| Calendar.FromDayValid | packages/domain/src/recurrence.ts:358-361 | every day number is a real date, and that date's day number |
| Calendar.ToDayOrder | packages/domain/src/recurrence.ts:352-356 | day numbers order dates as year, month and day do, and are equal only for equal dates |
| Calendar.AddDaysAction | packages/domain/src/recurrence.ts:352-366 | adding days is a group action on real dates: validity, sums, the difference and the weekday modulo 7 |
| Calendar.AddDaysReaches | packages/domain/src/recurrence.ts:352-361 | adding the difference of two dates to the first gives the second |
| Calendar.AddDaysOrder | packages/domain/src/recurrence.ts:358-361 | adding days keeps the order of dates, and a positive number of days goes forward |
| Calendar.FourCenturies | packages/domain/src/recurrence.ts:338-340 | the calendar repeats every 400 years, 146097 days |
| Recurrence.WindowExact | packages/domain/src/recurrence.ts:368-380 | the plain enumeration holds exactly the days that occur, are kept and lie in the window, in strictly ascending order |
| Recurrence.DayPeriods | packages/domain/src/recurrence.ts:412-421 | a daily or weekly rule occurs exactly on the days a whole number of steps from the anchor |
| Recurrence.WeekdayPeriods | packages/domain/src/recurrence.ts:422-431 | the weekdays rule occurs exactly on the weekdays from the anchor on |
| Recurrence.OccursMeans | packages/domain/src/recurrence.ts:412-445 | an occurrence is: every `interval` days; every 7 times `interval` days; a weekday from the anchor on; the anchor's day every `interval` months; the anchor's day and month every `interval` years |
| Recurrence.AnchorOccurs | packages/domain/src/recurrence.ts:368-380 | the anchor is an occurrence exactly unless the rule is the weekdays rule and the anchor a weekend day |
| Recurrence.SaturdayAnchor | packages/domain/src/recurrence.ts:422-431 | a weekdays series anchored on a Saturday does not hold its anchor |
| RecurrenceWalk.OutcomeUnique | packages/domain/src/recurrence.ts:401-410 | once a candidate has ended the loop or the cap is reached, looking at more candidates changes nothing |
| RecurrenceLoops.WeekdaysHalt | packages/domain/src/recurrence.ts:422-431 | the weekdays loop always meets a candidate that ends it, before any day `Date` cannot represent |
| RecurrenceLoops.MonthsHalt | packages/domain/src/recurrence.ts:432-445 | the monthly loop always meets a candidate that ends it, however many months lack the day |
| RecurrenceLoops.ExpandDays | packages/domain/src/recurrence.ts:412-421 | the loop of daily and weekly rules comes to what its candidates decide, running for ever included |
| RecurrenceLoops.ExpandWeekdays | packages/domain/src/recurrence.ts:422-431 | the loop of the weekdays rule comes to what its candidates decide, and always returns |
| RecurrenceLoops.ExpandMonths | packages/domain/src/recurrence.ts:432-445 | the loop of monthly and yearly rules comes to what its candidates decide, and always returns |
| RecurrenceRange.FastForward | packages/domain/src/recurrence.ts:412-439 | the fast-forward to the first candidate skips no occurrence of the window |
| RecurrenceRange.OnlyCandidate | packages/domain/src/recurrence.ts:412-445 | the only occurrence from one candidate's period up to the next is the candidate itself |
| RecurrenceRange.RealDateRecurs | packages/domain/src/recurrence.ts:343-349 | every 4800th step is a real date: the anchor's month and day in a later year |
| RecurrenceRange.WindowListed | packages/domain/src/recurrence.ts:401-445 | up to the first candidate that ends the loop or lies past the year 9999, the loop lists exactly the days of the plain enumeration |
| RecurrenceRange.ExpansionExact | packages/domain/src/recurrence.ts:375-447 | the loops give the first `cap` days of the plain enumeration if and only if that has `cap` days or the loop ends before it lists a day past the year 9999 |
| RecurrenceDense.ClosedInTime | packages/domain/src/recurrence.ts:401-410 | a day of the series past the window or the bound and before the year 10000 ends the loop in time |
| RecurrenceDense.DenseExact | packages/domain/src/recurrence.ts:375-447 | for every rule with a day in any ten years, monthly and yearly ones included: the plain enumeration if and only if it has `cap` days, or such a closing day exists, or the earlier of the years that window and bound end in is at most 1000 or the year the window begins in |
| RecurrenceDense.EarlyDaysDense | packages/domain/src/recurrence.ts:432-445 | every monthly and yearly rule up to ten years on a day up to the 28th is such a rule |
| RecurrenceDense.OwnMonthDense | packages/domain/src/recurrence.ts:432-445 | so is one on any day but 29 February whose own month comes round within ten years |
| RecurrenceDense.MonthWithin | packages/domain/src/recurrence.ts:432-445 | such a monthly or yearly rule has a day in each ten years from 10000 to 99999, the leap days of every one, two, four or eight years included |
| RecurrenceDense.DenseReturns | packages/domain/src/recurrence.ts:375-447 | for the same rules the expansion always returns |
| RecurrenceEdge.ExpansionOverruns | packages/domain/src/recurrence.ts:401-421 | the daily series of 9999-12-31 over a window ending that day lists 10000-01-01 as well |
| RecurrenceEdge.EndlessExactly | packages/domain/src/recurrence.ts:401-421 | a daily or weekly rule runs for ever if and only if nothing ends it before the first NaN candidate, the cap is not reached by then, and NaN sorts neither after the end nor at or after the beginning |
| RecurrenceEdge.EndlessOnly | packages/domain/src/recurrence.ts:401-421 | only weekly rules of 522 weeks and more run for ever, and only over windows that end in the year 9999 |
| RecurrenceEdge.ExpansionHangs | packages/domain/src/recurrence.ts:401-421 | every 999 weeks from 2029-01-01 over the window of the one day 9999-12-31 never returns, whatever the cap |
| RecurrenceExpansion.Expand | packages/domain/src/recurrence.ts:375-447 | for every rule, anchor, window, exceptions, bound and cap: the error cases, nothing when the anchor is past the end, and otherwise the first `cap` days of the plain enumeration exactly under the condition of `ExpansionExact`, for which a closing day is enough; for dense rules exactly under that of `DenseExact` |
| RecurrenceAnswer.AnswerMeans | packages/domain/src/recurrence.ts:368-410 | an answer is the plain enumeration cut at `cap` exactly when it lists, in order, the first `cap` of the days that the rule means, that are not excluded nor past the bound, and that lie in the inclusive window |
| RecurrenceSplit.ReanchorOccurs | packages/domain/src/recurrence.ts:343-349 | the same rule anchored at one of its own occurrences occurs on exactly the days from there on |
| RecurrenceSplit.SplitPartitions | packages/domain/src/recurrence.ts:247-263 | bounding a series the day before one of its occurrences and re-anchoring it there splits every window of it in two, in order |
| RecurrenceSplit.AdjacentWindows | packages/domain/src/recurrence.ts:368-380 | two adjacent capped enumerations concatenate to the whole one exactly when the whole fits the cap or one of the two is empty |
| RecurrenceMetadata.ExdatesOf | packages/domain/src/recurrence.ts:151-170 | the reading loop computes the specified list or error |
| RecurrenceMetadata.ExdatesExact | packages/domain/src/recurrence.ts:150-170 | the list read is strictly ascending and holds exactly the days stored |
| RecurrenceMetadata.ExdateRoundTrip | packages/domain/src/recurrence.ts:202-213 | adding an exception succeeds exactly on a real day and readable exceptions, and reading back gives the old exceptions and the new one |
| RecurrenceMetadata.UntilRoundTrip | packages/domain/src/recurrence.ts:247-263 | the bound written is the bound read, clearing deletes the key, and every other key stays |
| RecurrenceMetadata.ExcludeOne | packages/domain/src/recurrence.ts:202-213 | "only this event" takes exactly one day out of the series |
| RecurrenceMetadata.BoundBefore | packages/domain/src/recurrence.ts:247-263 | writing a bound changes the series read back in its bound only |
| IsoDates.ParseFormat | packages/domain/src/dates.ts:54-68 | the ISO text of a real date of the years 0 to 9999 parses back to it, except for 0000-02-29 |
| IsoDates.FormatParse | packages/domain/src/dates.ts:54-68 | what parses is a real date whose ISO text is the trimmed input |
| IsoDates.IsoOrder | packages/domain/src/recurrence.ts:333-336 | padded ISO strings are ordered as the dates are, for four-digit years |
| IsoDates.FarOrder | packages/domain/src/recurrence.ts:333-336 | a day of a year past 9999 sorts by the first four digits of its year: at or after every day of years up to them, before every later one |
| IsoDates.NanOrder | packages/domain/src/recurrence.ts:333-336 | NaN sorts after the days up to the year 999 and before those from 1000 on |
| IsoDates.IsoOrderFailsAtFiveDigits | packages/domain/src/recurrence.ts:405 | with a five-digit year the string order is no longer chronological |
| DateNodeIds.IdRoundTrip | packages/domain/src/dates.ts:177-226 | parsing a generated id gives back its precision and its components, within 1900 to 2200, and nothing outside |
| DateNodeIds.GeneratedChain | packages/domain/src/dates.ts:145-157 | the chain parent of a generated day is the generated month, of a month the year, of a year none |
| DateNodeIds.ChainParentThrows | packages/domain/src/dates.ts:145-157 | finding a parent throws exactly for the ids of days that their month does not have |
| DateNodeIds.FebruaryThirtyFirstThrows | packages/domain/src/dates.ts:145-157 | the id of 2025-02-31 is recognised as a day and asking for its parent throws |
| DateNodeIds.PayloadOrder | packages/domain/src/dates.ts:70-97 | the 12-digit payloads sort chronologically, a year before its months and a month before its days |
| DateNodeIds.IdsSpelled | packages/domain/src/dates.ts:70-97 | for a real day yyyy-mm-dd the ids are 00000000-0000-0000-00dd-yyyymmdd0000, …00aa-yyyymm000000 and …00bb-yyyy00000000 |
| RelayLog.IngestValid | apps/server/src/relay-storage.ts:242-276 | ingesting keeps ids unique and sequence numbers ascending, and new rows get numbers never used before |
| RelayLog.IngestIds | apps/server/src/relay-storage.ts:242-276 | after ingesting, the log holds exactly the ids it held and those of the batch |
| RelayLog.IngestKnown | apps/server/src/relay-storage.ts:242-276 | ingesting what is already there changes nothing |
| RelayLog.TailAfter | apps/server/src/relay-storage.ts:284-307 | the tail after the last row of a page is the rest of the tail: no row lost or repeated |
| RelayLog.ClientExact | apps/server/src/relay-storage.ts:289-307 | over every interleaving of ingests and polls with any limits, the client stays in step with the log |
| RelayLog.HeldMeans | apps/server/src/relay-storage.ts:289-307 | a client in step holds exactly its workspace's envelopes up to its cursor, ascending, each once |
| RelayLog.PollProgress | apps/server/src/relay-storage.ts:284-307 | a poll with a positive limit moves exactly when something is left, shortens what is left by the limit, and reports the end truthfully |
| RelayLog.ReingestChangesNothing | apps/server/src/relay-storage.ts:241-276 | at any later time of any run, ingesting an earlier batch again changes nothing |
| WorkspaceEffects.PageMeans | apps/server/src/relay-storage.ts:284-307 | a page is the first rows after the cursor up to the limit, by number; its cursor is the last one's number, its total the number of such rows, and it says that there are more exactly when it left some out |
| RelayStorage.Storage.Ingest | apps/server/src/relay-storage.ts:242-276 | the insert loop leaves the specified log and returns exactly the new ids with their numbers |
| RelayStorage.Storage.SaveSnapshot | apps/server/src/relay-storage.ts:385-416 | a save drops the workspace's older snapshots with their files, keeps those of others, and is what is served next |
| WorkspaceEffects.ServedIsNewest | apps/server/src/relay-storage.ts:418-425 | the snapshot served covers at least what every other of its workspace covers, the greatest id among equals; none is served exactly when there is none |
| RelayStorage.SavedIsServed | apps/server/src/relay-storage.ts:385-425 | after a save the saved snapshot is served, and other workspaces are served what they were |
| DerivedStore.PassDecides | apps/server/src/workspace-store.ts:188-203 | after a pass every plaintext envelope of it is applied or was rejected in it |
| DerivedStore.ReopensSettle | apps/server/src/workspace-store.ts:13-16 | from an empty store, as many passes as there are envelopes reach a fixed point |
| DerivedStore.OrderIndependent | apps/server/src/workspace-store.ts:185-250 | when envelopes apply exactly once their prerequisites have, two logs with the same plaintext envelopes in any orders settle on the same applied set, the least one closed under prerequisites |
| DerivedStore.ApplyManyBounds | packages/store/src/store.ts:438-487 | a batch that goes through records all its ids |
| WorkspaceRuns.RunsAreSafe | apps/server/src/workspace-store.ts:185-315 | over every run of appends, writes, sweeps, crashes at any point, reopens and file deletions, the ids recorded in the derived store and in the snapshot are ids of the log, and neither watermark runs ahead of it |
| WorkspaceRuns.ReopenDecides | apps/server/src/workspace-store.ts:210-250 | a reopen replays everything after its starting point, from 0 unless a snapshot restores an empty store, and leaves each plaintext envelope of it applied or rejected |
| WorkspaceRuns.PendingCounts | apps/server/src/workspace-store.ts:185-208 | pending is 0 exactly when the pass rejected nothing |
| WorkspaceEffects.SweepEffect | apps/server/src/workspace-store.ts:185-208 | a sweep takes the workspace's rows above the watermark by number; known, sealed and rejected envelopes leave the store alone, each other one is applied and recorded; pending is the number rejected, and the watermark the greatest number of the workspace or what it was |
| WorkspaceEffects.ReopenEffect | apps/server/src/workspace-store.ts:210-281 | a reopen does so from the snapshot and its number when nothing is applied and there is one, else from the file and 0; a snapshot of the outcome is saved exactly when there is none and the workspace has 1000 rows or more |
| WorkspaceEffects.WriteEffect | apps/server/src/workspace-store.ts:300-315 | a write extends the log; the plaintext envelopes of the batch under ids new to the log are all applied in order and the watermark moves, or, when the store would reject one at its turn, none is and it stays |
| WorkspaceRuns.SnapshotEqualsReplay | apps/server/src/workspace-store.ts:217-281 | a snapshot written by a hydration from an empty store, restored later and followed by the tail, gives the store that replaying the whole log gives |
| WorkspaceRuns.IngestIsExtension | apps/server/src/relay-storage.ts:242-276 | a log that grew keeps its rows, and its new rows have higher numbers: what the snapshot theorem asks of the later log |
| WorkspaceRuns.ApplyJumps | apps/server/src/workspace-store.ts:300-315 | a successful write moves the watermark past every row of the workspace, applied or not |
| WorkspaceRuns.StrandedForGood | apps/server/src/workspace-store.ts:185-208 | an envelope at or below the watermark that is not applied stays so through every run of appends, writes and sweeps |
| WorkspaceRuns.ReopensArePasses | apps/server/src/workspace-store.ts:210-250 | reopening n times is n passes over the whole log |
| WorkspaceConvergence.PassTries | apps/server/src/workspace-store.ts:185-208 | a pass from a cursor tries an unapplied plaintext envelope of its workspace if and only if it is numbered above the cursor, and then applies or rejects it |
| WorkspaceConvergence.SweepTries | apps/server/src/workspace-store.ts:322-331 | the next sweep tries an unapplied plaintext envelope if and only if it is numbered above the watermark; else it stays stranded |
| WorkspaceConvergence.ReopenTries | apps/server/src/workspace-store.ts:210-250 | a reopen tries it if and only if it is numbered above the point hydration starts from |
| WorkspaceConvergence.PassStrandsTheRest | apps/server/src/workspace-store.ts:205-207 | whatever a sweep or reopen leaves unapplied is at or below the watermark |
| WorkspaceConvergence.WriteStrandsTheRest | apps/server/src/workspace-store.ts:300-315 | one accepted write of a new envelope strands every row not applied by then |
| WorkspaceConvergence.OvertakenEnvelope | apps/server/src/workspace-store.ts:300-315 | a run from the start in which an envelope appended by another writer is never tried by the open handle, though the store accepts everything |
| WorkspaceConvergence.SkippedChild | apps/server/src/workspace-store.ts:157-159 | a run from the start in which a skipped child stays unapplied through any appends, writes and sweeps after its parent is applied, and the next reopen applies it |
| WorkspaceConvergence.RunExtends | apps/server/src/relay-storage.ts:242-276 | over every run, crashes and reopens included, the log keeps its rows and numbers new ones higher |
| WorkspaceConvergence.RunsRestoreToReplay | apps/server/src/workspace-store.ts:217-281 | open a workspace, let any run follow, lose the derived file: restoring the first opening's snapshot and replaying the tail gives the store of a full replay |
| WorkspaceRebuild.ApplyIsReplay | packages/store/src/store.ts:438-487 | a batch that goes through does what a replay of the first envelope of each unknown id does |
| WorkspaceRebuild.IngestKeepsFirst | apps/server/src/relay-storage.ts:242-276 | of the envelopes of a batch under a new id the log takes the first |
| WorkspaceRebuild.WriteExact | apps/server/src/workspace-store.ts:300-315 | every envelope a write applies is one the log holds, if and only if no new id of the batch comes first sealed and later as plaintext |
| WorkspaceRebuild.RunsRebuild | apps/server/src/workspace-store.ts:185-315 | over every run without such a write, crashes at any point included, the derived store and the snapshot are what some envelopes of the log give, replayed from the blank store, all of the workspaces that writes stay in |
| WorkspaceRebuild.RememberExact | apps/server/src/workspace-store.ts:300-315 | for a store that remembers what it applied, a write keeps store and snapshot made of the log's envelopes if and only if it is not such a write |
| WorkspaceRebuild.SealedCopyFirst | apps/server/src/workspace-store.ts:300-315 | one such batch leaves a store that no envelopes of the log give, whatever the store does with the one it applies |
| WorkspaceReopens.RunsAreReady | apps/server/src/workspace-store.ts:185-315 | over every run a snapshot that holds nothing leaves out only what the blank store takes nothing of |
| WorkspaceReopens.CycleFromAny | apps/server/src/workspace-store.ts:210-250 | a reopen is one pass over the whole log, or restores a snapshot that holds something into a store that held nothing |
| WorkspaceReopens.CyclesSettle | apps/server/src/workspace-store.ts:210-250 | from wherever a run leaves the workspace, as many reopens as the log has envelopes of it reach a fixed point |
| WorkspaceReopens.RunConverges | apps/server/src/workspace-store.ts:13-16 | after any run with crashes, lost files and restored snapshots, that many reopens end with the least applied set closed under prerequisites |
| WorkspaceReopens.RunsConverge | apps/server/src/workspace-store.ts:13-16 | two such runs whose logs hold the same plaintext envelopes of the workspace, in any orders, end with the same applied set |
| WorkspaceManager.Manager.ApplyPage | apps/server/src/workspace-store.ts:190-203 | the loop over a page replays it and counts its rejections |
| WorkspaceManager.Manager.ReplaySince | apps/server/src/workspace-store.ts:185-208 | the paged loop, whatever the page boundaries, is the sweep step of the state machine |
| WorkspaceManager.Manager.Hydrate | apps/server/src/workspace-store.ts:210-250 | hydration is the reopen step of the state machine and leaves the log alone |
| WorkspaceManager.Manager.EnsureSnapshotAfterReplay | apps/server/src/workspace-store.ts:267-287 | a snapshot of the current store is saved exactly when there is none and the log is long enough |
| WorkspaceManager.Manager.ApplyNow | apps/server/src/workspace-store.ts:300-315 | a write is the apply step of the state machine, fails exactly when the batch is rejected, and returns the newly saved ids |
| WorkspaceManager.Manager.SweepNow | apps/server/src/workspace-store.ts:322-331 | a sweep is the sweep step from the handle's watermark |
| BibtexRoundTrip.ValueRoundTrip | packages/export/src/bibtex.ts:62-107 | a value is read back as it was if and only if it is whitespace-normalised and has no brace |
| BibtexRoundTrip.BracesLost | packages/export/src/bibtex.ts:62-107 | the value {T} comes back with backslashes for braces |
| BibtexRoundTrip.FieldsBack | packages/export/src/bibtex.ts:168-203 | the printed fields of an entry are read back in order |
| BibtexRoundTrip.EntryBack | packages/export/src/bibtex.ts:113-206 | a printed entry is read back and the reading goes on right behind it |
| BibtexRoundTrip.CanonicalIdempotent | packages/export/src/bibtex.ts:243-246 | the canonical field order is a fixed point of itself |
| BibtexRoundTrip.RoundTrip | packages/export/src/bibtex.ts:260-262 | printing and parsing any list of well-formed entries gives their canonical forms, and printing those again gives the same text |
| BibtexRoundTrip.RoundTripKeepsFields | packages/export/src/bibtex.ts:242-262 | the entries read back have the types, keys and fields of the ones printed |
| BibtexReading.DocumentReads | packages/export/src/bibtex.ts:43-206 | a document put together of entries with braced, quoted and bare values, comments and noise between any tokens, repeated names, stray characters, garbled fields, skipped constructs, prose and mentions reads as the entries it says |
| BibtexReading.ValueReads | packages/export/src/bibtex.ts:61-107 | behind any noise a quoted value comes back verbatim, a balanced braced one without its braces, a bare one up to its top-level comma or brace, trimmed |
| BibtexReading.CollectedIsSaid | packages/export/src/bibtex.ts:194-196 | the fields of an entry are the names in the order they first come, each once and with its last value |
| BibtexReading.UnclosedQuoted | packages/export/src/bibtex.ts:83-92 | a quoted value without its end is the rest of the text |
| BibtexReading.UnclosedBraced | packages/export/src/bibtex.ts:65-82 | a braced value without its end is the rest of the text without braces |
| BibtexReading.SkippedReads | packages/export/src/bibtex.ts:136-161 | a skipped construct with its braced, quoted or one-line body changes nothing |
| BibtexPrinting.NamesAreWritten | packages/export/src/bibtex.ts:35-41 | name characters are the letters, the digits, the underscore and the hyphen |
| BibtexPrinting.LowerIs | packages/export/src/bibtex.ts:193 | lowercasing turns each capital of the alphabet into its letter and nothing else |
| BibtexPrinting.PrintedValue | packages/export/src/bibtex.ts:237-239 | a value is printed as its words with one space between them, its braces escaped |
| BibtexPrinting.PrintedOrder | packages/export/src/bibtex.ts:210-248 | the fields are printed in the canonical order of 23 names, the others behind them as inserted; none is lost or added |
| BibtexPrinting.ShapeOfEntry | packages/export/src/bibtex.ts:241-257 | the exact text of an entry without fields and of one with two |
| BibtexPrinting.ShapeOfDocument | packages/export/src/bibtex.ts:259-262 | entries are separated by a blank line and the document ends with a line break |
| BibtexScanner.ReadValueAt | packages/export/src/bibtex.ts:62-107 | the index-driven reader ends and reads the value of the specification, described by `BibtexReading.ValueReads` |
| BibtexScanner.ReadFieldsAt | packages/export/src/bibtex.ts:168-203 | the field loop ends on every input with the fields of the specification, described by `BibtexReading.CollectedIsSaid` |
| BibtexScanner.ParseBibtex | packages/export/src/bibtex.ts:113-206 | the parser ends on every input string with the entries of the specification, which `BibtexReading.DocumentReads` describes |
| BibtexScanner.SerializeBibEntry | packages/export/src/bibtex.ts:242-257 | the line-building loop with its last comma removed prints the specified text |
| BibtexScanner.SerializeBibtex | packages/export/src/bibtex.ts:260-262 | the printed document is the specified text |
| QueryMapping.TablesAgree | scripts/lib/map-query-ast-v1-v2.ts:87-130 | every row of the member table names the relation and target that the version 1 type means |
| QueryText.WrittenIsGrammar | scripts/lib/map-query-ast-v1-v2.ts:132-284 | the version 1 checks accept exactly the documents that the literal type names and the fields they call for describe |
| QueryText.MeetsIsSatisfies | scripts/lib/map-query-ast-v1-v2.ts:87-254 | what a version 1 node means, told by its literal type name, is what the proofs take it to mean |
| QueryText.AcceptsChild | scripts/lib/map-query-ast-v1-v2.ts:256-272 | a child is mapped exactly when it is written in version 1, at any depth |
| QueryText.ChildMeans | scripts/lib/map-query-ast-v1-v2.ts:256-272 | a node satisfies the image of a child exactly when it meets the child as written, through nested queries, groups and negations: `parentOf` becomes family `parent`, `childOf` family `child` |
| QueryText.GroupMeans | scripts/lib/map-query-ast-v1-v2.ts:274-284 | the same for groups |
| QueryText.SucceedsExactly | scripts/lib/map-query-ast-v1-v2.ts:301-317 | the mapping succeeds exactly on documents written in version 1 |
| QueryText.DocumentMeans | scripts/lib/map-query-ast-v1-v2.ts:301-317 | the image of a document has version 2, the same scope, sort and aggregation, and a root satisfied by exactly the nodes that meet the document's root as written |
| QueryMapping.ImageRefused | scripts/lib/map-query-ast-v1-v2.ts:286-305 | the mapping refuses its own output |
| CreateOrder.RootedOrCycle | scripts/migrate-v1/migrate.py:321-327 | a parent chain ends or runs into a cycle, never both |
| CreateOrder.EmissionOrderUnique | scripts/migrate-v1/migrate.py:328-346 | the log's numbers being distinct, the rows have exactly one emission order: greedy part, fallback and the border between them |
| CreateOrder.ExpandPermutes | scripts/migrate-v1/migrate.py:347-349 | with its duplicates behind it, each node row is emitted exactly once |
| CreateSorter.FirstAndDuplicates | scripts/migrate-v1/migrate.py:312-319 | a node's first row and its duplicates together are all its rows in log order |
| CreateSorter.ParentLinks | scripts/migrate-v1/migrate.py:321-327 | each node's children and counts are exactly the nodes whose parent the log creates |
| CreateSorter.EmitAvailable | scripts/migrate-v1/migrate.py:328-341 | every step of the heap loop emits, of the nodes whose parent has been emitted, the one created earliest, until none is left |
| CreateSorter.FallbackCompletes | scripts/migrate-v1/migrate.py:342-346 | the fallback holds exactly the nodes whose parent chain runs into a cycle, in log order |
| CreateSorter.SortedCreateRows | scripts/migrate-v1/migrate.py:301-350 | the result is a permutation of the rows: class rows first, then node rows in emission order |
| CreateSorter.ParentComesFirst | scripts/migrate-v1/migrate.py:302-308 | each node's first create comes after its parent's unless its chain runs into a cycle, and its duplicates come right behind it |
| CreateReading.ChildAfterParent | scripts/migrate-v1/migrate.py:302-350 | on the rows of the log: the first create of a node comes after the first create of the parent it names, when the log creates that, unless the walk from parent to parent circles; the node's rows stand together in the order of the log |
| CreateReading.ClassRowsPicked | scripts/migrate-v1/migrate.py:309-310 | the class rows keep the order of the log |
| CreateReading.CirclesIs | scripts/migrate-v1/migrate.py:321-327 | a chain runs into a cycle exactly when a walk along the parents that rows name comes to a node twice |
| LinkGrammar.SpanIsFound | packages/domain/src/markdownLinks.ts:25 | wherever a span `[label](href)` stands the search finds it, with that label and href |
| LinkWording.SchemesAllowed | packages/domain/src/markdownLinks.ts:39-44 | an address may become a link exactly when it begins with http://, https:// or mailto:, in any mix of capitals |
| LinkWording.BareMeans | packages/domain/src/markdownLinks.ts:37 | a bare URL is http:// or https:// and the longest non-empty run without whitespace, angle brackets and quotes |
| LinkWording.HostMeans | packages/domain/src/markdownLinks.ts:73-83 | a trimmed URL is linked exactly when its scheme is followed by a character other than /, ? and # |
| LinkWording.TailStays | packages/domain/src/markdownLinks.ts:53-71 | a last character stays unless it is one of .,;:!?= or a bracket that closes more often than it opens |
| LinkWording.CharsAre | packages/domain/src/markdownLinks.ts:25-37 | the characters of labels, addresses, URLs and sentence ends, with the whitespace of ECMA-262 by code point |
| LinkSplit.SplitLossless | packages/domain/src/markdownLinks.ts:95-131 | the sources of the segments, put together, are the text; every link has an allowed scheme, every bare link a clean tail |
| LinkCompleteness.SpanInsideSpan | packages/domain/src/markdownLinks.ts:25 | a span inside a span has the same href |
| LinkCompleteness.QuietSlice | packages/domain/src/markdownLinks.ts:73-93 | the stretch before a linked URL holds none that would be linked if it stood alone |
| LinkCompleteness.SplitMissesNone | packages/domain/src/markdownLinks.ts:95-131 | no plain segment holds a span with an allowed scheme, and splitting a plain segment for URLs again leaves it as it is |
| MarkdownLinks.TrimBareUrlTail | packages/domain/src/markdownLinks.ts:53-71 | the trimmed URL is the longest prefix without trailing punctuation and without an unbalanced closer |
| MarkdownLinks.SplitBareUrls | packages/domain/src/markdownLinks.ts:73-93 | the scanning loop computes the specified segments, losing nothing |
| MarkdownLinks.SplitMarkdownLinks | packages/domain/src/markdownLinks.ts:95-131 | both passes compute the specified split: lossless, safe and complete |
| Excerpt.Walker.Walk | packages/domain/src/excerpt.ts:67-107 | the early-exit walk over nested tokens leaves what flattening everything and cutting afterwards leaves |
| Excerpt.ExcerptOf | packages/domain/src/excerpt.ts:57-110 | the excerpt is the text before the first break cut at 80; it is truncated exactly when there is a break or that text is longer, and the cut is then its length |
| Excerpt.ExcerptIsHead | packages/domain/src/excerpt.ts:27-39 | the excerpt is the head of the block's prose, ends at the reported cut when truncated, and is all of the prose exactly when it is not |
| Excerpt.FlatIsSaid | packages/domain/src/excerpt.ts:45-100 | the prose is what the leaf tokens say in reading order: their own words, a mention's label or else its target's name, a chip's wording or else its class's name |
| Workflows.EmitBlocks | packages/domain/src/workflows.ts:517-536 | the recursive loop emits the blocks of the specification, described by `WorkflowContents.TemplateOrder`, and collects their grafts |
| Workflows.PlanEnable | packages/domain/src/workflows.ts:437-565 | the loops emit the plan of the specification, whose steps `WorkflowContents.PlanHolds` names one by one |
| WorkflowContents.PlanHolds | packages/domain/src/workflows.ts:437-565 | a step is in the plan exactly when the definition asks for it: the anchor page, a class with its title, icon and description, a schema with its fields and options, a binding for a schema that names one, a template's node, a block under the block one key up its path or under the template, a grafted value on its template, the has-template value on the bound class; all ids spelled out |
| WorkflowContents.PlanOrder | packages/domain/src/workflows.ts:437-565 | the page, the classes, the schemas and the bindings come in the order of the definition, and the templates behind them |
| WorkflowContents.TemplateOrder | packages/domain/src/workflows.ts:500-562 | a template's part is its node, its blocks in outline order with the ids their paths of keys spell, the grafted values in the same order, and the has-template value |
| WorkflowContents.VisitsExact | packages/domain/src/workflows.ts:517-536 | the blocks visited are exactly those that a place and a path of keys lead to |
| WorkflowContents.VisitsAscend | packages/domain/src/workflows.ts:517-536 | a block is visited before what is below it, and all that before its next sibling |
| WorkflowContents.ClassCalledIs | packages/domain/src/workflows.ts:418-427 | the three classes of the workflows have derived ids, all others seeded ones |
| Workflows.PlanDisable | packages/domain/src/workflows.ts:567-593 | the loops emit the plan of the specification, which `WorkflowContents.DisableHolds` spells out |
| WorkflowPlan.DefinedBeforeUse | packages/domain/src/workflows.ts:437-565 | when references are declared, each step refers only to seeded ids and to ids earlier steps created, at any nesting depth |
| WorkflowBlockIds.EntityIdInjective | packages/domain/src/workflows.ts:44-56 | an id determines its kind and its key |
| WorkflowBlockIds.BlocksDistinctExactly | packages/domain/src/workflows.ts:517-536 | keys being sibling-unique and free of separators, the ids of a template's blocks are distinct if and only if no unnamed root block hoists a key that is already there |
| WorkflowBlockIds.HoistedKeyCollides | packages/domain/src/workflows.ts:522-526 | the child of an unnamed block and the block beside it get the same id |
| WorkflowIds.CreatedIdsDistinct | packages/domain/src/workflows.ts:437-565 | under the same conditions on keys, all ids a plan creates are pairwise distinct if and only if no template hoists a taken key |
| WorkflowIds.DisableArchivesCreated | packages/domain/src/workflows.ts:567-593 | disabling only archives, only ids that enabling creates, and each once |
| WorkflowContents.DisableHolds | packages/domain/src/workflows.ts:567-593 | disabling archives the anchor page, then every class, then every template's node, and nothing else |
| ClassClosure.SystemClassAncestors | packages/domain/src/seeds.ts:471-481 | on every extends map, cyclic or not, the worklist ends with exactly the transitive closure, each class once, in depth-first order |
| ClassClosure.DepthFirst | packages/domain/src/seeds.ts:471-481 | a class is followed by all that is found above it before what stood earlier on the stack |
| ClassClosure.AncestorsClimbed | packages/domain/src/seeds.ts:462-481 | the ancestors of a class are where walks up the table from it lead |
| ClassClosure.FeaturesInOrder | packages/domain/src/features.ts:246-255 | a feature listed before another has a class that comes before every class of the other |
| ClassClosure.LookupKeepsLast | packages/domain/src/features.ts:179-188 | of the features with one base class the lookup keeps the last |
| ClassClosure.FamilyExact | packages/domain/src/features.ts:192-216 | a family is its base and the classes below it, each once, sorted after the base |
| ClassClosure.FamilyTable.FamilyMap | packages/domain/src/features.ts:190-207 | the cached table holds exactly each feature's family |
| ClassClosure.FamilyTable.FamilyClassNames | packages/domain/src/features.ts:209-216 | a feature's list is its family, read from the cache or not |
| ClassClosure.GatingFeaturesForClass | packages/domain/src/features.ts:246-255 | the features gating a class are exactly those whose base is the class or an ancestor, each once, its own first and the others in the order in which the worklist finds the ancestors |
| ClassClosure.DualityExactly | packages/domain/src/features.ts:179-255 | families and gating agree on every class exactly when no two features share a base class |
| ClassClosure.GatingIsInherited | packages/domain/src/seeds.ts:462-470 | whatever gates a class gates everything that extends it |
| RateLimit.AtMostTwice | apps/server/src/rate-limit.ts:21-31 | on a clock that does not run backwards and with a fixed limit for the key, no interval of one window length is granted more than twice the limit |
| RateLimit.BoundIsReached | apps/server/src/rate-limit.ts:21-31 | twice the limit is granted in one interval by some run |
| RateLimit.WindowHoldsLimit | apps/server/src/rate-limit.ts:21-31 | a stored window counts exactly what was granted in it, at most the limit |
| RateLimitDecision.GrantedExactly | apps/server/src/rate-limit.ts:21-31 | without pruning, whatever the clock does: a charge is granted exactly when its weight fits the limit beside all that was granted to its key since the last charge that opened a window, if that still runs, and by itself otherwise; a charge, granted or not, opens a window when the one before has run its length |
| RateLimitDecision.GrantedWhilePruning | apps/server/src/rate-limit.ts:21-39 | the same with pruning anywhere, on a clock that does not run backwards |
| RateLimitDecision.GrantedInWindow | apps/server/src/rate-limit.ts:21-31 | on such a clock that is what was granted from the start of the window in force to now |
| RateLimit.PruneChangesNothing | apps/server/src/rate-limit.ts:33-39 | pruning anywhere in a run changes no decision |
| RateLimit.FixedWindowLimiter.TryAcquire | apps/server/src/rate-limit.ts:21-31 | the object's table and answer are those of the run of its calls, which `RateLimitDecision.GrantedExactly` decides from the log |
| RateLimit.FixedWindowLimiter.Prune | apps/server/src/rate-limit.ts:33-39 | pruning leaves exactly the windows that have not expired |

## Left out

- Recurrence with an anchor, a window or a bound outside the years 100 to 9999: below 100 `Date.UTC` remaps years, and texts of five year digits do not parse. Days past 9999 that the loops run into are modelled.
- RecurrenceDense.DenseExact: not for rules that can go ten years without a day (weekly from 522 weeks, monthly and yearly of more than ten years, and some on the 29th to 31st); for those `RecurrenceRange.ExpansionExact` gives the condition in terms of the loop's candidates.
- The `repeat` grammar, the span end and completed occurrences: readers and writers like those of the exceptions and the bound.
- `Store.apply` itself, its schema checks and its quarantine mode: an abstract function takes its place.
- RelayLog.Insert: numbers are consecutive; AUTOINCREMENT promises ascending ones and may leave gaps, also after an ignored insert.
- Pruning of the log, compaction and snapshots uploaded by clients: nothing ties their contents to the sequence number they claim.
- Snapshots of zero bytes, which hydration ignores: a snapshot is a store image.
- A snapshot write that fails during hydration: the code ignores it, and the model has every write succeed.
- Clock stamps, sizes, epochs and the sealed flag of snapshots; JSON columns of envelopes beyond id, workspace and whether the payload is sealed.
- The queue of a workspace handle: steps are taken one at a time, which is what the queue is for.
- Error messages and the paths in them: an error is a value without text.
- Strings are sequences of characters; JavaScript's are sequences of UTF-16 units, so the cut at 80 counts a character beyond the basic plane once rather than twice.
- Keys whose value is `undefined` and names inherited from `Object.prototype` in JSON objects and field tables.
- `flattenMarkdownLinks` and the image form of a span: display text only.
- sha256 and the uuid layout of derived ids: deriving an id is taken to be injective and never to hit a seeded id.
- Workflows.SchemaStep: a definition without options has an empty list of them, and payload entries that are absent or false are one.
- The registry of workflows and the seeded tables of classes and features: every definition and table is a parameter.
- CreateSorter.PopLowest: between rows with equal numbers the heap compares node ids; the log's numbers are distinct, so the model leaves that open.
- WorkflowPlan.DefinedBeforeUse: an executor's existence checks, which skip steps already done, are not modelled.
- The rest of `migrate.py`, HTTP routes, sockets, authentication, cryptography, review scheduling (`srs.ts`), CSV, the user interface and build configuration.
