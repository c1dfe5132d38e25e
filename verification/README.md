# Flagbase, verified models

Flagbase is a single-binary backend: user-defined tables over SQLite, feature flags, an anomaly worker,
a package registry, function triggers and a WASM host. This project models the parts of it that keep
state in step with other state, and proves what they promise. `dafny verify dfyconfig.toml` checks
everything (Dafny 4.11).

The database is a value with the constraints its schema declares: keys, uniqueness, NOT NULL, cascading
deletes, transactions that roll back. Each engine is a class over such a value. Its methods are proved
equal to functions on the state, and the properties are proved about those functions, for every state,
input or interleaving.

| files | what they model |
|---|---|
| `Ddl.dfy` | the DDL text the table engine prints, with a lexer and parser for it |
| `TableStore.dfy`, `TableSpec.dfy`, `TableEngine.dfy` | schema registry, physical tables, schema evolution, records |
| `TableRollback.dfy`, `TableQuery.dfy`, `Like.dfy`, `TableRecords.dfy` | flag contexts, filters and paging, LIKE, reading back what was written |
| `FeatureModel.dfy`, `FeatureStore.dfy`, `FeatureEngine.dfy`, `FeatureRuns.dfy` | flag evaluation, the four tables, the cache of flag objects, runs of calls |
| `FeatureReload.dfy` | the cache reload as separate queries interleaved with writes and other reloads |
| `WorkerModel.dfy`, `Worker.dfy` | anomaly detection, its log, and switching failing flags off |
| `Packages.dfy`, `PackageStore.dfy` | package requests, approvals with background jobs, and deletes, interleaved |
| `TriggerModel.dfy`, `TriggerEngine.dfy`, `Wiring.dfy` | trigger rows against live subscriptions and cron entries, and the table events that reach them |
| `HostAbi.dfy` | the two-call protocol over WASM linear memory |
| `Wrappers.dfy`, `Seqs.dfy`, `Text.dfy`, `Ordering.dfy` | options, sequences, string helpers, ORDER BY with ties in any order |

## What turned out not to hold

Some promises hold only under a condition. The code is modelled as it is, and the condition is proved.

* The DDL text reads back as declared exactly when every numeric default is a numeral
  (`Ddl.DdlRoundTrip`): a default with any other character becomes NULL, and one such as `1-2` or `.`
  is not a literal at all.
* Rolling back a flag context gives, at every point of a run, what the run would be without its flagged
  inserts, exactly when no AddColumns tells whether the tagged rows are there
  (`TableRollback.RollbackErasesFlaggedInserts`): SQLite refuses a NOT NULL column whose default is written
  as NULL only while the table has rows, so one tagged row decides on an otherwise empty table.
  `TableRollback.RollbackCanDiffer` is the failing case in any system with an empty table. It cannot happen
  when every added column is nullable or has a default other than NULL (`TableRollback.BackfillingRunErased`).
* A `contains` filter is a substring search exactly when its value has no `%` and no `_`
  (`Like.ContainsExactly`).
* A feature engine call that starts with an agreeing cache ends with one exactly when it does not write
  half: a `CreateFlag` of a new key and id, one of whose rules has an id that is stored already or comes
  twice (`FeatureRuns.AgreementAfterCall`, with an instance in `FeatureRuns.HalfWriteHappens`). A run ends
  in agreement exactly when no half-write follows its last call that returned nil
  (`FeatureRuns.RunAgrees`).
* When reloads overlap, the cache agrees at the end exactly when each part of the reload that published
  last has the content it had at the moment of its own query (`FeatureReload.EndAgreesIffUnmoved`). In any
  system, any change can be lost until the next reload, although every call returned nil
  (`FeatureReload.AnyChangeCanBeLost`).
* An approval of a package keeps the recorded bundle size right exactly when no other approval that may
  still store a bundle for it is unfinished (`Packages.ApprovalSafeIffAlone`). Approving any package twice
  at once can leave it available with one job's bundle and the other job's size
  (`Packages.ApprovedTwice`).
* A deleted package can leave its bundle or types behind, exactly when the object store refused the deletion
  or a job stored the object after it (`Packages.LeftAfterDelete`, with an instance in any state where a job
  is about to store in `Packages.DeleteUnderJob`).
* Auto-disable can leave a failing flag on: when an earlier write of it failed it is skipped, since the
  cached object is already off, and the reload behind the next flag's write switches it on again.
  `WorkerModel.EndsOffUnlessLeftOn` says exactly when; it cannot happen from a cache that agrees with
  the database.
* A reported latency spike should mean more than three times as many baseline runs as recent ones. The query
  computes in doubles, and at exactly three times as many, with every older run at 0 ms, rounding can lift the
  ratio 3 over the threshold (`WorkerModel.SpikeAtThreeToOne`). That is the only exception
  (`WorkerModel.SpikeNeedsBaseline`); the error-rate threshold is exact (`WorkerModel.ErrorProneExactly`).
* Running `Start` again on a trigger engine leaks cron entries exactly when it held any, and subscriptions
  exactly when the bus accepts one for a trigger that held one (`TriggerModel.StartAgainLeaks`). `Stop` in
  between saves the bus side only: the clock still leaks exactly when it held any
  (`TriggerModel.StopStartLeaks`).
* The guest receives a result exactly as the host holds it when it has fewer than 2^32 - 1 bytes
  (`HostAbi.ResultRoundTrip`).

Where comments and code disagree, the model follows the code. `CreateTable` does not require columns to
be nullable or have a default (`internal/table/engine.go:96-98`). A query limit above 1000 becomes 100,
it is not capped at 1000 (`internal/table/records.go:216-260`). Rolling back a flag context removes
inserted rows but does not undo updates (`internal/table/records.go:108-110`). The bundle is fetched
from one address (`internal/packages/packages.go:220-233`).

## Model

| member | source | states |
|---|---|---|
| Ddl.SqlLiteral | internal/table/engine.go:411-434 | a default is written as the literal its column type means by it; a number with a foreign character is written as NULL |
| Ddl.ColFragment | internal/table/engine.go:322-335 | the fragment is the text of the column's name, type, NOT NULL mark and default |
| Ddl.BuildCreateDDL | internal/table/engine.go:305-316 | the loop prints exactly the text of the four system columns and the user's columns in order |
| Ddl.BuildAlterDDL | internal/table/engine.go:318-320 | the same for one added column |
| Ddl.CreateRoundTrip | internal/table/engine.go:305-335 | parsing a printed table gives it back, and fails just when a numeric literal is not a numeral |
| Ddl.AlterRoundTrip | internal/table/engine.go:318-335 | parsing a printed ALTER gives the table name and column back, or fails in the same case |
| Ddl.CreateParsesTo | internal/table/engine.go:305-316 | what the database reads in the CREATE text of any valid definition |
| Ddl.WrittenAsDeclared | internal/table/engine.go:411-434 | a column reads back as declared if and only if its default is well formed |
| Ddl.DdlRoundTrip | internal/table/engine.go:305-335 | name, types, NOT NULL marks and defaults all survive if and only if every numeric default is a numeral |
| Ddl.AlterRoundTripDeclared | internal/table/engine.go:318-335 | the same equivalence for an added column |
| Ddl.TextDefaultSurvives | internal/table/engine.go:431-433 | a text default survives exactly, however many quotes, commas or parentheses it holds |
| Ddl.ColumnPrintedAs | internal/table/engine.go:322-434 | a column is printed as its name, TEXT, REAL or INTEGER, NOT NULL unless nullable, and its default as a trimmed number, NULL, 0 or 1, or a quoted text |
| Ddl.ValidKeyMeans | internal/table/engine.go:14 | a key is a lower-case letter and up to 62 more letters, digits and underscores |
| TableSpec.BackfillsUnlessForeign | internal/table/engine.go:411-434 | a column with a default has a value for existing rows unless it forbids NULL and its numeric default has a foreign character |
| TableSpec.AddedColumns | internal/table/engine.go:206-273 | AddColumns appends exactly the new columns, numbered after the existing ones |
| TableSpec.AddedDef | internal/table/engine.go:268-270 | it dates the definition and changes nothing else of it, nor any other definition |
| TableSpec.InsertDecided | internal/table/records.go:346-405 | an insert is accepted if and only if the table exists, the id is free, every field supplied has a value its column takes, and every column left out allows null or has a default that is not NULL |
| TableSpec.UpdateDecided | internal/table/records.go:161-187 | an update is accepted if and only if the table exists and every field supplied has a value its column takes |
| TableStore.ByPositionMembers | internal/table/engine.go:339-343 | loading the columns loses and repeats none |
| TableStore.ByPositionSorted | internal/table/engine.go:339-343 | they come by position |
| TableStore.WholeReads | internal/table/engine.go:418-430 | a whole number written in decimal, with or without a minus sign, is that number as a default |
| TableStore.FractionReads | internal/table/engine.go:418-430 | with a point, the digits after it count as that many places |
| TableStore.DigitsJoined | internal/table/engine.go:418-430 | each place is worth ten times the next |
| TableSpec.ApplyKeepsInv | internal/table/engine.go:99-295 | every call, accepted or not, keeps registry, physical tables and rows in step |
| TableSpec.RunKeepsInv | internal/table/engine.go:99-295 | over every run: each registered table has a physical table with exactly its columns, positions are 0..n-1, and every row holds a value of the right kind in each column |
| TableSpec.ApplyAppends | internal/table/engine.go:202-273 | one call that does not delete the table leaves its column list a prefix of the next |
| TableSpec.RunAppends | internal/table/engine.go:202-295 | until a table is deleted its earlier column list is a prefix of its later one |
| TableRollback.StripKept | internal/table/records.go:65-138 | an operation outside the flag context does the same with and without the tagged rows, if and only if it is not an AddColumns that needs a table without rows and finds only tagged ones |
| TableRollback.StripErased | internal/table/records.go:65-138 | an operation on tagged rows leaves the rest of the database alone |
| TableRollback.RunStrip | internal/table/records.go:65-138 | unless one of its operations is such an AddColumns, a run without its tagged operations gives the run's database without its tagged rows |
| TableRollback.RollbackErasesFlaggedInserts | internal/table/records.go:108-122 | at every point of a run rolling a context back equals the same run with its flagged inserts, and everything done to those rows, left out, if and only if no operation of the run is such an AddColumns |
| TableRollback.BackfillingRunErased | internal/table/records.go:108-122 | so it always does when the requested columns all have a value for existing rows |
| TableRollback.RollbackCanDiffer | internal/table/engine.go:263-265 | the failing case: a flagged insert into an empty table, then a column that only an empty table can take |
| TableRollback.PairExists | internal/table/engine.go:263-265 | every new table without columns and every such column give an instance |
| TableRollback.AbcDoesNotBackfill | internal/table/engine.go:418-430 | such as an integer column that forbids NULL and defaults to "abc" |
| TableRollback.PromotedRows | internal/table/records.go:127-138 | promoting clears exactly the tags of the context; ids, values, times and other tags stay |
| TableRollback.PromoteProtects | internal/table/records.go:108-138 | rolling a context back right after promoting it changes nothing |
| TableRollback.PromotedForGood | internal/table/records.go:108-138 | nor does it after any run that inserts nothing under the context |
| TableRollback.CountIsTagged | internal/table/records.go:111-138 | both calls reply the number of tagged rows |
| Like.ContainsIsSubstring | internal/table/records.go:243-248 | LIKE with %value% is ASCII-case-insensitive substring search when the value has no wildcard |
| Like.ContainsExactly | internal/table/records.go:243-248 | it is substring search on every text if and only if the value has no % and no _ |
| TableQuery.MatchingMeans | internal/table/records.go:232-255 | a row is selected if and only if it satisfies every filter, each as its own operator says |
| TableQuery.ContainsFilterSelects | internal/table/records.go:243-248 | a contains filter on a text column selects exactly the rows whose text has the value as a substring |
| TableQuery.KnownOperators | internal/table/records.go:232-249 | a filter is accepted if and only if it names a column and one of the seven operators |
| TableQuery.NumberFilterSelects | internal/table/records.go:232-255 | any other filter on a numeric or boolean column selects exactly the rows whose value is not null and compares so with the number given |
| TableQuery.TextFilterSelects | internal/table/records.go:232-255 | and on a text column those whose text compares so, in code point order |
| TableQuery.ByTimeMembers | internal/table/records.go:255 | ordering loses and repeats no row |
| TableQuery.ByTimeSorted | internal/table/records.go:255 | the rows come out by creation time |
| TableQuery.MatchingOrdered | internal/table/records.go:251-255 | a query lists its rows by creation time, each row once |
| TableQuery.PagesCoverExactly | internal/table/records.go:257-261 | pages at offsets 0, L, 2L, ... concatenate to the whole filtered list |
| TableQuery.OddLimitIsHundred | internal/table/records.go:257-260 | a limit outside 1..1000 behaves as 100 |
| TableRecords.BindThenRead | internal/table/records.go:330-405 | a value that passes validation is read back as it was given, booleans as booleans |
| TableRecords.InsertThenGet | internal/table/records.go:12-59 | after an insert each supplied value comes back and every other column holds its declared default or null |
| TableRecords.UpdateThenGet | internal/table/records.go:161-205 | an update replaces exactly the supplied columns of that record and changes no other record |
| TableEngine.CreateRuns | internal/table/engine.go:152-154 | running the CREATE text makes the declared physical table, or fails on an ungrammatical default |
| TableEngine.AlterRuns | internal/table/engine.go:255-265 | registering a column and running its ALTER text extends the table by it, or fails: its default does not parse, or there are rows and it has no value for them |
| TableEngine.RegisteredSoFar | internal/table/engine.go:215-266 | a duplicate within one AddColumns call is what the uniqueness constraint rejects |
| TableEngine.AllKnown | internal/table/records.go:352-357 | true if and only if every supplied field names a column, in whatever order fields are visited |
| TableEngine.BuildInsertData | internal/table/records.go:346-376 | succeeds if and only if the data fits the schema, and pairs names with values as supplied |
| TableEngine.BuildUpdateData | internal/table/records.go:170-187 | succeeds if and only if every supplied field is known and valid; the result does not depend on map order |
| TableEngine.BuildWhere | internal/table/records.go:227-249 | succeeds if and only if every filter names a column and a known operator, and compiles each |
| TableEngine.PlaceColumns | internal/table/engine.go:103-115 | accepts exactly valid columns with distinct names, and numbers them from 0 |
| TableEngine.Engine.CreateTable | internal/table/engine.go:99-157 | succeeds if and only if the definition is acceptable; the database is then the created one, else unchanged |
| TableEngine.Engine.GetTable | internal/table/engine.go:160-177 | for a registered key and no other, its columns: each once, numbered from 0, and in that order |
| TableEngine.Engine.AddColumns | internal/table/engine.go:206-273 | succeeds if and only if every column fits what is there, rows included, and what came before it; otherwise nothing changes |
| TableEngine.Engine.DeleteTable | internal/table/engine.go:276-295 | removes the definition, its columns and the physical table of a valid key |
| TableEngine.Engine.GetRecord | internal/table/records.go:141-157 | the stored row as a record, none when missing, an error for an unknown table |
| TableEngine.Engine.InsertRecord | internal/table/records.go:12-59 | inserts exactly one untagged row when the data is acceptable, returns it, and publishes it when a bus is attached |
| TableEngine.Engine.InsertRecordFlagged | internal/table/records.go:65-106 | the same with the tag, and nothing is published |
| TableEngine.Engine.UpdateRecord | internal/table/records.go:161-205 | the partial update, or an error and no change |
| TableEngine.Engine.DeleteRecord | internal/table/records.go:208-214 | removes exactly the rows with that id |
| TableEngine.Engine.RollbackByFlagCtx | internal/table/records.go:111-122 | removes exactly the tagged rows and returns how many went |
| TableEngine.Engine.PromoteByFlagCtx | internal/table/records.go:127-138 | clears the tag of exactly the tagged rows and returns how many there were |
| TableEngine.Engine.QueryRecords | internal/table/records.go:218-281 | the requested page of the selected rows in order |
| Text.EqualFoldMeans | internal/feature/engine.go:409-434 | equal lengths and the same letter up to ASCII case at every position |
| Text.SplitMeans | internal/feature/engine.go:409-434 | the parts of a list are exactly the pieces between its commas |
| Text.TrimMeans | internal/feature/engine.go:409-434 | trimming leaves what lies between the outer white space |
| Text.SpacesListed | internal/feature/engine.go:409-434 | the white space that trimming knows, code point by code point |
| Text.LessMeans | internal/feature/engine.go:350-352 | one text is before another if it ends first or has the smaller character at the first difference |
| FeatureModel.MatchRuleMeans | internal/feature/engine.go:409-434 | each operator fires exactly when it should: the same text, another text, a text inside, one of the trimmed parts, letter case aside; any other operator never |
| FeatureModel.LoadedHolds | internal/feature/engine.go:328-405 | a loaded flag holds exactly its own rules by priority, variants by key and overrides oldest first |
| FeatureModel.CacheAnswersAllowed | internal/feature/engine.go:46-89 | evaluating a cache that agrees with the tables gives an answer the direct definition allows: override, then least-priority rule, then default; the definition says itself when a rule fires, whom an override is for and what a rule gives |
| FeatureModel.AllowedUnique | internal/feature/engine.go:46-89 | at most one override applies, and without a tie among winning rules the answer is unique |
| FeatureModel.AllowedIsReachable | internal/feature/engine.go:328-348 | every answer the definition allows is the answer of some load, so ties are the only freedom |
| FeatureModel.InRuleAsEqualsRules | internal/feature/engine.go:409-434 | an `in` rule can be replaced by consecutive `equals` rules without changing any evaluation |
| FeatureStore.OverrideIsolation | internal/feature/engine.go:233-250 | a new override decides that user's answer on that flag and changes no other answer |
| FeatureStore.OthersUnmoved | internal/feature/engine.go:59-66 | a change to one user's override on one flag is invisible to every other user and flag |
| FeatureStore.DeleteUndoesCreate | internal/feature/engine.go:253-261 | deleting a new override gives the earlier database back |
| FeatureStore.InsertsAccepted | internal/database/db.go:90-204 | flags, rules, variants and overrides go in exactly when ids, keys and names are free and the flag exists |
| FeatureStore.CreateReadsBack | internal/feature/engine.go:107-114 | a created flag reads back as given, the others as before |
| FeatureStore.UpdateReadsBack | internal/feature/engine.go:127-140 | an updated flag reads back as given and keeps its id; nothing else changes |
| FeatureStore.StatusReadsBack | internal/feature/engine.go:143-157 | a transition sets the status and changes nothing else |
| FeatureStore.TransitionDecides | internal/feature/engine.go:46-89 | a deprecated flag answers its default to everyone, a draft "false" to everyone not overridden |
| FeatureStore.DeletedAnswers | internal/feature/engine.go:160-166 | a deleted flag answers "false" |
| FeatureStore.CallMovesOneFlag | internal/feature/engine.go:91-261 | a call about one flag leaves every other flag as it was |
| FeatureStore.SameFlagSameAnswers | internal/feature/engine.go:46-89 | a flag's answers depend on its own rows only |
| FeatureStore.DeleteUndoesCreateFlag | internal/feature/engine.go:107-166 | deleting a flag right after creating it gives the earlier database back, even after a half-write |
| FeatureStore.DeleteUndoesCreateVariant | internal/feature/engine.go:190-215 | so does deleting a new variant |
| FeatureStore.VariantsLeft | internal/feature/engine.go:207-215 | deleting a variant leaves exactly the others |
| FeatureStore.VariantAdded | internal/feature/engine.go:190-204 | creating one adds exactly it |
| FeatureEngine.LookupOverride | internal/feature/engine.go:60-66 | the loop finds the first override of that user |
| FeatureEngine.LookupRule | internal/feature/engine.go:73-81 | the loop finds the first rule that applies |
| FeatureEngine.PreparedMeans | internal/feature/engine.go:116-121 | a new flag's rules go in as given, bound to the flag and with a generated id where they have none |
| FeatureEngine.Engine.EvaluateVariant | internal/feature/engine.go:46-89 | the loops over the cached object compute the evaluation function |
| FeatureEngine.Engine.EvaluateBool | internal/feature/engine.go:39-42 | only "false" and the empty key are false |
| FeatureEngine.Engine.Reload | internal/feature/engine.go:278-326 | the new objects agree with the database, one object for each key |
| FeatureEngine.Engine.CreateFlag | internal/feature/engine.go:92-124 | the flag and its rules up to the first rejected one are inserted; nil means the cache agrees, an error that it is untouched |
| FeatureEngine.Engine.UpdateFlag | internal/feature/engine.go:127-140 | writes the object's fields under its key and reloads, or on an error writes nothing |
| FeatureEngine.Engine.TransitionStatus | internal/feature/engine.go:143-157 | sets one of the four statuses and reloads; any other is refused |
| FeatureEngine.Engine.DeleteFlag | internal/feature/engine.go:160-166 | removes the flag with its rules, variants and overrides |
| FeatureEngine.Engine.CreateVariant | internal/feature/engine.go:190-204 | adds a variant of a new key to an existing flag, or fails without a change |
| FeatureEngine.Engine.DeleteVariant | internal/feature/engine.go:207-215 | removes exactly that variant |
| FeatureEngine.Engine.CreateOverride | internal/feature/engine.go:233-250 | inserts the override or re-points the user's existing one |
| FeatureEngine.Engine.DeleteOverride | internal/feature/engine.go:253-261 | removes exactly that user's override on that flag |
| FeatureRuns.AgreementAfterCall | internal/feature/engine.go:91-261 | a call from agreement ends in agreement if and only if it is not a CreateFlag that goes in with clashing rule ids |
| FeatureRuns.HalfWriteHappens | internal/feature/engine.go:107-121 | the failing case: a new flag with two rules of one id |
| FeatureRuns.RulesGoIn | internal/feature/engine.go:116-121 | the rules of a new flag all go in if and only if no id clashes |
| FeatureRuns.RunAgrees | internal/feature/engine.go:91-261 | a run ends in agreement if and only if no half-write follows its last call that returned nil; every mutator of FeatureEngine.Engine promises to be such a call |
| FeatureRuns.RunKeepsDbOk | internal/database/db.go:90-204 | the constraints of the four tables hold over every run |
| FeatureRuns.RunAnswersAllowed | internal/feature/engine.go:44-89 | after every run that ends so each answer is one the tables allow |
| FeatureReload.PublishedWasTrue | internal/feature/engine.go:278-326 | in every interleaving each published part was the database's content for that flag at some moment of that reload |
| FeatureReload.UndisturbedReloadAgrees | internal/feature/engine.go:278-326 | with no write between first query and publish the cache equals the database view |
| FeatureReload.PublishAgreesIffUnmoved | internal/feature/engine.go:278-326 | after a publish the cache agrees if and only if each part of that reload has the content it had at its own query |
| FeatureReload.EndAgreesIffUnmoved | internal/feature/engine.go:278-326 | the same at the end of any run, for the reload that published last |
| FeatureReload.AnyChangeCanBeLost | internal/feature/engine.go:322-325 | from any quiet system, any change of the view can be followed by a late publish of the content before it |
| FeatureReload.EndedPublishesNothing | internal/feature/engine.go:278-326 | a reload that failed leaves the cache and does not publish, and one that published does not publish again |
| WorkerModel.SpikeNeedsBaseline | internal/worker/worker.go:126-148 | under any rounding as accurate as that to doubles, a latency spike implies at least 9 baseline successes, and more than three times as many as recent ones unless it is exactly three times and all older ones took 0 ms |
| WorkerModel.ClearSpikeIsReported | internal/worker/worker.go:126-148 | an exact ratio above 3 by more than one part in 2^51, from at least 3 recent runs, is reported |
| WorkerModel.SpikeAtThreeToOne | internal/worker/worker.go:126-148 | with the doubles nearest to 17/3, 17/9 and their quotient, runs of 5, 5 and 7 ms after six of 0 ms are a spike |
| WorkerModel.ErrorProneExactly | internal/worker/worker.go:98-109 | rounding or not, a function is reported if and only if at least 5 invocations completed in the window and more than a fifth of them failed, counted one by one |
| WorkerModel.AllOrNone | internal/worker/worker.go:98-109 | a function whose runs all succeed is never reported, one whose runs all fail is from 5 runs on |
| WorkerModel.FinishesCount | internal/worker/worker.go:98-109 | the two counts are the completed invocations in the window and the failed ones of them |
| WorkerModel.ErrorsCount | internal/worker/worker.go:59-66 | a flag offends when more than 10 of its error metrics fall in the last 5 minutes |
| WorkerModel.TimingsCount | internal/worker/worker.go:126-148 | the timed runs are the successful ones in the window that have a time |
| WorkerModel.TotalBetween | internal/worker/worker.go:126-148 | their total lies where the single times lie |
| WorkerModel.UnresolvedAreSpaced | internal/worker/worker.go:168-183 | two unresolved anomalies of one type and reference were detected at least 30 minutes apart |
| WorkerModel.HistoryKeeps | internal/api/monitoring_handlers.go:339-345 | resolving, also between the worker's query and insert, keeps the spacing |
| WorkerModel.ResolvedMeans | internal/api/monitoring_handlers.go:339-345 | resolving dates exactly the unresolved anomalies of that id and changes nothing else |
| WorkerModel.NotedIsAskInsert | internal/worker/worker.go:168-183 | recordAnomaly is one query followed, when nothing is active, by one insert |
| WorkerModel.NotedIsActive | internal/worker/worker.go:168-183 | after recordAnomaly an unresolved anomaly of the last 30 minutes is on record, unless the id was taken |
| WorkerModel.NotedMeans | internal/worker/worker.go:168-183 | exactly one dated, unresolved anomaly is added when none of its type and reference from the last 30 minutes is unresolved and the id is free, and otherwise none |
| WorkerModel.AllNoted | internal/worker/worker.go:73-164 | after a check every reported reference is on record, what was on record stays as it was, and nothing else is added |
| WorkerModel.LoopTurnsOff | internal/worker/worker.go:73-92 | from an agreeing cache the loop switches off, and announces, exactly the listed flags that were on and whose write succeeds |
| WorkerModel.EndsOffUnlessLeftOn | internal/worker/worker.go:84-91 | from any cache, with all writes succeeding, a listed flag ends off if and only if it is not one left flipped by an earlier failed write and listed before the first flag that is on in the cache |
| WorkerModel.SkippedThenSwitchedOn | internal/worker/worker.go:84-91 | two checks, the first with a failing write, after which a failing flag is on |
| WorkerModel.TurnedOffAnswers | internal/worker/worker.go:84-91 | switched-off flags answer "false" to every context and all others answer as before |
| WorkerModel.FlippedAnswers | internal/worker/worker.go:84-88 | a flag whose write failed answers "false" from the cache only |
| Worker.AutoDisable | internal/worker/worker.go:59-93 | with all writes succeeding, each flag with more than 10 errors evaluates to "false", the rest as before, and rules, overrides, variants, defaults and statuses stay |
| Worker.Select | internal/worker/worker.go:60-73 | the result set holds exactly the qualifying keys, each once |
| Worker.Worker.CheckFlagAnomalies | internal/worker/worker.go:59-93 | exactly the offenders are recorded and go through the loop above in turn, from any cache that agrees but for flipped flags; cached objects are flipped before the write |
| Worker.Worker.CheckFunctionAnomalies | internal/worker/worker.go:96-164 | exactly the functions that the two rounded comparisons select are recorded, the error-prone and then the spiking |
| Worker.Worker.RecordAnomaly | internal/worker/worker.go:168-183 | inserts one anomaly unless one is active or the id is taken |
| Worker.Worker.RecordMetric | internal/worker/worker.go:194-200 | appends one metric row with the current time |
| Worker.Worker.ResolveAnomaly | internal/api/monitoring_handlers.go:339-345 | resolves exactly the unresolved anomaly of that id and says whether there was one |
| Packages.AvailableIsStored | internal/packages/packages.go:68-159 | in every interleaving an available package has its own non-empty bundle stored, there for LoadBundle, unless a Delete is in flight, and a bundling one has a job |
| Packages.NothingLeftBundling | internal/packages/packages.go:84-109 | once all processes end nothing is bundling and what is available is stored |
| Packages.InvKept | internal/packages/packages.go:45-120 | each single step keeps the whole invariant, names included |
| Packages.JobOutcome | internal/packages/packages.go:84-109 | one job alone ends in available with exactly the fetched bundle and its size, or in error with the store untouched |
| Packages.SizeIsStoredSize | internal/packages/packages.go:94-103 | while approvals that may still store do not overlap, the recorded size is that of the stored bundle |
| Packages.OverlapMisrecordsSize | internal/packages/packages.go:84-103 | from any state, two unfinished approvals of a package that may come to mark bundles of different lengths, one yet to store, can end with the wrong size |
| Packages.ApprovedTwice | internal/packages/packages.go:68-112 | from any state, approving a package twice at once can end so |
| Packages.ApprovalSafeIffAlone | internal/packages/packages.go:68-112 | an approval keeps the size right whatever follows if and only if no other one that may still store is unfinished |
| Packages.BundleThereIff | internal/packages/packages.go:84-117 | in every interleaving a bundle is stored if and only if some job stored it and no accepted deletion came after |
| Packages.TypesThereIff | internal/packages/packages.go:105-117 | the same for the type definitions |
| Packages.LeftAfterDelete | internal/packages/packages.go:115-120 | after a Delete and the end of all processes the row is gone, and an object is left only if its deletion was refused or a job stored it afterwards |
| Packages.DeleteUnderJob | internal/packages/packages.go:84-120 | the failing case: a Delete that runs to its end before a job stores leaves the bundle without a row |
| PackageStore.Registry.Request | internal/packages/packages.go:45-64 | adds a pending row for a new name and version, or nothing |
| Packages.RequestMeans | internal/packages/packages.go:45-64 | a request goes in as pending if and only if it has a name and a version that no row has together |
| PackageStore.Registry.Approve | internal/packages/packages.go:68-112 | marks the row as bundling and hands back the job for its own name and version |
| Packages.ApproveMeans | internal/packages/packages.go:77-79 | approving sets its own row to bundling under the approver's name and changes nothing else |
| PackageStore.Registry.Bundle | internal/packages/packages.go:84-109 | the job's statements are the steps of the interleaved model, taken in a row |
| PackageStore.Registry.Delete | internal/packages/packages.go:115-120 | bundle, types and row go, in that order, whatever the object store answers |
| PackageStore.Registry.ListAvailable | internal/packages/packages.go:129-132 | exactly the available packages, each once, by name |
| TriggerModel.StartMatches | internal/trigger/engine.go:44-61 | Start on a new engine makes live exactly what the rows call for, in whatever order they are listed |
| TriggerModel.CreateKeepsMatch | internal/trigger/engine.go:214-247 | creating keeps bus and scheduler in step with the rows |
| TriggerModel.UpdateKeepsMatch | internal/trigger/engine.go:296-318 | so does updating, with the new config and nothing of the old one left live |
| TriggerModel.DeleteKeepsMatch | internal/trigger/engine.go:321-325 | so does deleting |
| TriggerModel.LiveIsWhatRowsWant | internal/trigger/engine.go:44-162 | after Start and any run of calls, live entries and the rows that call for one, and were not refused at their last activation, correspond one to one with current settings |
| TriggerModel.LiveIff | internal/trigger/engine.go:44-178 | after Start and any run of calls, an entry is live if and only if it is what an enabled row asks for: flagbase.bucket.B.created for bucket B, flagbase.table.K.created for table K, its schedule for a cron trigger, and nothing without a setting |
| TriggerModel.SharedSubject | internal/trigger/engine.go:165-178 | two triggers listen on one subject if and only if type and name agree |
| TriggerModel.RowsAfter | internal/trigger/engine.go:214-325 | what each call does to the rows |
| TriggerModel.RefusedAfter | internal/trigger/engine.go:102-131 | an updated trigger counts as refused exactly when the bus was asked and said no |
| Wiring.InsertFires | internal/table/records.go:53-58 | the message of an insert goes to exactly the live subscriptions of the triggers on that table, and every enabled one not refused has one |
| TriggerModel.StopSilences | internal/trigger/engine.go:64-73 | after Stop nothing is subscribed or held and the scheduler does not run |
| TriggerModel.StartAgainLeaks | internal/trigger/engine.go:44-61 | a second Start keeps each side free of leaks if and only if it renews nothing held there: on the clock nothing was held, on the bus every held one is refused |
| TriggerModel.StopStartLeaks | internal/trigger/engine.go:44-73 | after Stop and Start the bus side has no leak, and the clock side has none if and only if nothing was held there |
| TriggerEngine.Engine.Start | internal/trigger/engine.go:44-61 | activates each enabled row of the list once and starts the scheduler |
| TriggerEngine.Engine.Stop | internal/trigger/engine.go:64-73 | ends every held subscription, forgets both books and stops the scheduler, whose entries stay |
| TriggerEngine.Engine.Activate | internal/trigger/engine.go:76-86 | puts on bus or scheduler what the trigger's type and config derive, or nothing |
| TriggerEngine.Engine.Subscribe | internal/trigger/engine.go:102-131 | one new live subscription under the trigger's id when the bus accepts this call, or an error and no change |
| TriggerEngine.Engine.ScheduleCron | internal/trigger/engine.go:133-162 | one new cron entry under the trigger's id, or an error and no change |
| TriggerEngine.Engine.Deactivate | internal/trigger/engine.go:89-100 | what the trigger held is gone from both sides |
| TriggerEngine.Engine.Create | internal/trigger/engine.go:214-247 | a row of a known type for an existing function, activated if enabled; else no change |
| TriggerEngine.Engine.Update | internal/trigger/engine.go:296-318 | the row's new settings are the ones that are live; a missing row changes nothing |
| TriggerEngine.Engine.Delete | internal/trigger/engine.go:321-325 | the row and what it held are gone |
| TriggerEngine.Engine.List | internal/trigger/engine.go:250-259 | every row once, newest first |
| HostAbi.RunShowsLatest | internal/function/hostfuncs.go:80-88 | over any run of host calls the state shows what the last call left, result and error never both |
| HostAbi.ResultRoundTrip | internal/function/hostfuncs.go:693-703 | the guest gets the host's bytes if and only if there are fewer than 2^32 - 1 |
| HostAbi.ErrorRoundTrip | pkg/fnruntime/runtime_wasip1.go:29-35 | the guest gets the first 4096 bytes of a non-empty error text if and only if its 32-bit length does not cut it shorter |
| HostAbi.EmptyErrorReads | pkg/fnruntime/runtime_wasip1.go:29-35 | an error without a text reads as "unknown error" |
| HostAbi.ArgumentArrives | internal/function/hostfuncs.go:101-125 | an argument passed by pointer and length arrives as it is |
| HostAbi.WrittenFrom | internal/function/hostfuncs.go:693-703 | a write that fits fills the buffer's front and changes no byte outside the buffer |
| HostAbi.Copy32 | internal/function/hostfuncs.go:693-703 | copies the reported count of bytes when the range fits; reports it even when it does not |
| HostAbi.ReadStr | internal/function/hostfuncs.go:101-110 | the bytes in range, or the empty string |
| HostAbi.ReadBytes | internal/function/hostfuncs.go:113-125 | a copy of the bytes in range, or nil |
| HostAbi.InvState.Produce | internal/function/hostfuncs.go:241-266 | leaves data or error to be read and replies with the 32-bit length or the error mark |
| HostAbi.InvState.Act | internal/function/hostfuncs.go:268-295 | replies 1 and leaves the state, or 0 and leaves the error |
| HostAbi.InvState.ResultRead | internal/function/hostfuncs.go:153-165 | copies the result, consuming nothing |
| HostAbi.InvState.ErrorRead | internal/function/hostfuncs.go:167-179 | copies the error text, consuming nothing |
| HostAbi.InvState.GetCallerContext | internal/function/hostfuncs.go:381-404 | copies the caller, replies 0 without one, and leaves an encoding error |
| HostAbi.ReadResult | pkg/fnruntime/runtime_wasip1.go:18-25 | the result's bytes, zero-padded to the size; only the new buffer changes |
| HostAbi.ReadLastError | pkg/fnruntime/runtime_wasip1.go:29-35 | the front of the error text, or "unknown error"; only the error buffer changes |
| HostAbi.CallAndRead | pkg/fnruntime/bucket_wasip1.go:23-31 | a call and the read behind it give the guest the result or the error, changing only its own buffer |
| HostAbi.CallAndCheck | pkg/fnruntime/bucket_wasip1.go:35-44 | success changes no memory, failure gives the error text |

## Left out

- TableRollback.RollbackErasesFlaggedInserts: covers inserts; an update made under a flag context is not tagged by the code and cannot be rolled back. It takes generated record ids to be fresh, and the equivalence is about every point of the run: after a divergence two runs can come together again.
- TableRecords.InsertThenGet: numbers are exact reals, so float rounding, integer precision and NaN are not captured; numeric defaults are numerals.
- TableQuery.PagesCoverExactly: rows of the same second are taken in one fixed order; SQLite promises none between queries.
- FeatureReload.PublishedWasTrue: the worker's early flip of a cached object is not among the interleaved writes.
- Packages.AvailableIsStored: database calls succeed, object writes are atomic, ids are not repeated and the process does not restart while a job runs.
- TriggerModel.LiveIsWhatRowsWant: calls are taken one at a time with Start once, and functions are not deleted (the cascade would remove rows without deactivating them).
- WorkerModel.SpikeNeedsBaseline: rounding is any function with the relative error of doubles on numbers between 10^-30 and 10^30; counts and sums of milliseconds are below 10^12, and run times are not negative.
- WorkerModel.UnresolvedAreSpaced: the deduplication query succeeds; the code reads a failed query as "nothing active".
- Worker.Worker.CheckFlagAnomalies: message texts and logging are dropped, and a failed publish is only logged. The status of a row with an empty status is written back as "ga", which is how it was read.
- HostAbi.CallAndRead: linear memory does not grow during a call, and the buffer address is chosen by the caller.
- Text: case folding and EqualFold are ASCII only.
- Like and Ddl: SQL keywords as names, case-insensitive keywords, comments inside numeric defaults and NUL bytes are outside the grammar.
- Generated ids are parameters of the methods. Primary keys are checked for records, flags, rules, triggers, packages and anomalies, not for overrides, variants and registry columns.
- Column ids and column creation times, and the timestamps of flags and rules, are dropped.
- The SELECT, INSERT and UPDATE texts of the table engine; only DDL text is modelled.
- Database failures other than constraint violations (except for UpdateFlag), SQLite's own limits, and the single-connection pool.
- Concurrent calls into the table and trigger engines.
- Trigger config is kept as a value: its JSON encoding, and config that JSON cannot encode, are not part of this model. NATS wildcards in a bucket name are not interpreted.
- What a fired trigger does, ServeHTTPTrigger, and the cron timetable.
- Where type definitions for a package are looked for; the lookup is one answer.
- Host functions' own work (storage, HTTP, JSON): each is an outcome. Telemetry spans and custom metrics.
- HTTP handlers, command line, frontends, identity, function store, storage adapter, gateway, setup and mock runtime.
