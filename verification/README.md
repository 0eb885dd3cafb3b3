# A verified model of the MSSQL ODBC driver

This project models the connection actor of the `sqlx-mssql-odbc` driver as a
set of linked state machines, together with the printers and parsers the
driver uses at its edges, and proves what they promise. `dafny verify
dfyconfig.toml` checks all of it.

## How it is put together

| file | what it models |
|---|---|
| `Odbc.dfy` | one server session: durable and current data, autocommit, the SAVE TRANSACTION log |
| `Transactions.dfy` | begin, commit, rollback, start_rollback and execute on the session; a stack of snapshots as reference |
| `Handle.dfy` | the connection handle with its own depth, joined to the actor by a FIFO queue |
| `Migrations.dfy` | applying and reverting a migration; tracking records over whole runs |
| `Tracking.dfy` | which versions stand as applied: read from the tracking table, and told from the run that filled it |
| `Values.dfy`, `Rows.dfy` | values, reading integers from them, decoding one cell row-wise and column-wise |
| `ResultSets.dfy` | the walk over the results of a batch, the buffered and the unbuffered row loop |
| `Emissions.dfy` | what the stream means: flattening, affected rows, `fetch_optional`, buffered against unbuffered |
| `ResponseChannel.dfy` | every interleaving of the actor and its consumer over the 64-slot channel |
| `StatementCache.dfy`, `Execution.dfy` | the capacity-bounded cache; execute and prepare with it and without it |
| `Actor.dfy` | the actor as an object: all handlers, and the loop that serves commands in order |
| `Answers.dfy` | what each of its answers means, over any sequence of commands |
| `ConnectionString.dfy`, `ConnectionUrl.dfy`, `ConnectionReader.dfy` | connection strings: rewriting, building, and reading back by the ODBC brace rules |
| `SqlText.dfy` | the T-SQL printed for migrations, and a lexer that reads it back |
| `TypeInfo.dfy` | the hand-written serialization of type information |
| `Dates.dfy` | YYYYMMDD dates and ODBC timestamps for both date libraries |
| `Text.dfy`, `DataTypes.dfy`, `Wrappers.dfy` | strings, SQL data types, `Option` |

The stateful parts of the driver are classes (`Handle.MssqlConnection`,
`Actor.ConnectionActor`, `StatementCache.LruCache`,
`ResultSets.ExecuteSender`, `Emissions.QueryResult`) and methods with loops.
Each method is proved against a function of the old state, and the properties
are lemmas about these functions and their runs. `Actor.ActorRunIsItsTrace`
connects the two levels: the loop of the actor object moves the session
exactly as the transaction and migration machines do, and
`Answers.RunIsAnswered` says what it answers to each command.

## What is assumed

* An ODBC call that fails has no effect on the session; its outcome is a
  parameter (`Fate`, `MigrationFate`, the flags of `RowSet`), so every lemma
  holds for all combinations of failures. A poisoned lock shows as the first
  call of a handler failing, and so does a SAVE TRANSACTION that the server
  refuses because no statement has opened a transaction yet.
* A batch is different from a call: the statements before the failing one keep
  their effect, and so do any behind it that the server ran before the failure
  was seen (`Batch.beyond`).
* Switching autocommit on commits an open transaction, as ODBC prescribes for
  `SQL_ATTR_AUTOCOMMIT`.
* Of several savepoints with one name the newest is rolled back to (T-SQL
  reference, SAVE TRANSACTION, Remarks). The savepoints below it survive;
  which others do is left open (`Fate.kept`), and the lemmas hold for every
  choice.
* The contents of a database are a function of the effects applied to it, so
  a snapshot is the list of effects so far.
* User SQL does no transaction control of its own and leaves the tracking
  table alone; the server does not abort transactions by itself.
* What the server answers is a function of its data (`Execution.Driver`).
* In a T-SQL string constant a backslash directly before a line break (LF or
  CR LF) continues the line: both are dropped (T-SQL reference, Backslash
  (Line Continuation)).
* Readers of connection strings differ on whether blanks around a value count;
  the results on reading are proved for both kinds (`ConnectionReader.Blanks`).
* `u64` sums wrap, as in release builds.

## What turned out not to hold

Where the code misses a property, the property is proved under the exact
condition, as an equivalence.

* `start_rollback` at handle depth 2 or more breaks the agreement of the two
  depths (`Handle.DepthsAgreeExactly`); then a transaction can be answered Ok
  without being durable (`Handle.CommitLostAfterNestedStartRollback`).
* A `start_rollback` whose autocommit restore is dropped leaves the session in
  manual mode at depth 0; that is the only thing that breaks the refinement of
  the stack (`Transactions.RefinableExactlyWithoutLeaks`).
* A migration that is reported as failed can be durable, or half durable
  (`Migrations.ErrorYetDurable`), and with `no_tx` a failure keeps what ran
  (`Migrations.WithoutTransaction`). The comment at
  `sqlx-mssql-odbc-core/src/migrate.rs:209-210` says that a partially applied
  migration cannot occur; the model follows the code.
* A cached statement that the server would no longer prepare is still used,
  and shows if it can still be executed or described
  (`Execution.ServeIsTransparent`, `Execution.CacheIsTransparentExactly`).
* `with_database` leaves a piece of the first name behind when that contains
  `;` (`ConnectionString.LastWriteWinsExactly`). Its search for the key does
  not know about values, as `ConnectionString.Rewritten` states: the first
  match is replaced wherever it stands.
* A requested flag is not set when its key stands in some value, in the driver
  in force at that moment, or in what a replaced driver with a `;` left behind
  (`ConnectionReader.FlagsExactly`).
* The host is written without escaping: one with a `;` or a leading `{` is not
  read back. Values with outer blanks and nothing else to escape are written
  bare, so that a reader which drops blanks loses them
  (`ConnectionReader.BuiltReadsBackExactly`).
* A migration in which a backslash ends a line is recorded without that
  backslash and line break (`SqlText.InsertReadsBackExactly`,
  `SqlText.ContinuationIsLost`).
* A table name that starts with `.` is quoted as another name
  (`SqlText.TableNameReadsBackExactly`).
* Buffered fetching truncates values that do not fit, silently
  (`Rows.BufferedValueExactly`).
* An `Other` type that carries a standard type code changes its name on the
  way through the serialized form (`TypeInfo.NameSurvivesExactly`).
* A timestamp loses its year beyond 16 bits
  (`Dates.TimestampReadsBackExactly`), and the two date libraries differ on
  field values beyond one byte, on leap seconds and on years beyond 9999
  (`Dates.TimestampsAgreeExactly`).

## Model

| member | source | states |
|---|---|---|
| `Transactions.RunRefinesStack` | sqlx-mssql-odbc-core/src/connection/actor.rs:346-469 | over every run, whatever calls fail, session and depth refine a plain stack of snapshots: the newest `sqlx_sp_k` holds the data of level k and these marks lie in increasing log order |
| `Transactions.StepRefines` | sqlx-mssql-odbc-core/src/connection/actor.rs:346-469 | one handler call does on the stack what its meaning says: a push, a pop that keeps, a pop that restores, or nothing |
| `Transactions.RefinableExactlyWithoutLeaks` | sqlx-mssql-odbc-core/src/connection/actor.rs:451-469 | some stack is refined at every point of a run if and only if no start_rollback at depth 1 lost its autocommit restore |
| `Transactions.RollbackRestoresBegin` | sqlx-mssql-odbc-core/src/connection/actor.rs:346-469 | at any nesting depth, rollback and start_rollback after any properly nested body restore the data of the matching begin, with nothing durable in between; rollback says Ok exactly when its calls succeed |
| `Transactions.LevelsBelowAreKept` | sqlx-mssql-odbc-core/src/connection/actor.rs:377-449 | operations that stay above a level change neither the snapshots up to it nor the durable data |
| `Transactions.MarksRollback` | sqlx-mssql-odbc-core/src/connection/actor.rs:431-446 | the savepoint rolled back to always exists, holds the data of its level, and leaves the marks of the lower levels intact for any server policy on the rest of the log |
| `Transactions.MarksPush` | sqlx-mssql-odbc-core/src/connection/actor.rs:357-371 | a new savepoint hides stale ones of its name and no mark of another level |
| `Transactions.MarksCut` | sqlx-mssql-odbc-core/src/connection/actor.rs:431-446 | cutting the log at or above the top mark keeps the marks below |
| `Transactions.SavepointNameInjective` | sqlx-mssql-odbc-core/src/connection/actor.rs:358 | different depths have different savepoint names |
| `Transactions.PositiveDepthIsManual` | sqlx-mssql-odbc-core/src/connection/actor.rs:346-469 | with any call failing, a positive depth means manual commit mode |
| `Handle.HandleNeverAhead` | sqlx-mssql-odbc-core/src/connection.rs:101-147 | in every reachable state, over all kinds of commands, the handle's depth is at most the depth the actor has once it worked off the queue, however its calls end |
| `Handle.DepthsAgreeExactly` | sqlx-mssql-odbc-core/src/connection.rs:144-147 | the two depths agree throughout a run if and only if every start_rollback is issued at handle depth 0 or 1 |
| `Handle.MoveKeepsDepths` | sqlx-mssql-odbc-core/src/connection.rs:101-147 | each move of caller or actor keeps the inequality, and keeps agreement exactly if it is not a start_rollback at depth 2 or more |
| `Handle.FoldedIsTheDepthReached` | sqlx-mssql-odbc-core/src/connection/actor.rs:451-469 | folding the pending commands gives the depth the actor really reaches |
| `Handle.OutermostCommitPublishes` | sqlx-mssql-odbc-core/src/connection.rs:110-124 | a commit the handle takes for the outermost one makes the data durable if the depths agree, and otherwise makes nothing durable |
| `Handle.CommitLostAfterNestedStartRollback` | sqlx-mssql-odbc-core/src/connection.rs:144-147 | a concrete run, with a statement in every transaction, in which a transaction is answered Ok and is not durable |
| `Handle.StartRollbackRewinds` | sqlx-mssql-odbc-core/src/connection/actor.rs:451-461 | once a start_rollback queued at depth 1 is served, whatever executes and commands were queued around it, the session stands on exactly the data of the outermost begin |
| `Handle.MssqlConnection.SendCommandBlocking` | sqlx-mssql-odbc-core/src/connection/helpers.rs:43-55 | the answer is that of the command served after everything queued before it |
| `Handle.MssqlConnection.BeginBlocking` | sqlx-mssql-odbc-core/src/connection.rs:101-107 | the handle moves as the two-machine system does, Ok is what the actor answers behind all that was queued, and the depth rises exactly on Ok |
| `Handle.MssqlConnection.CommitBlocking` | sqlx-mssql-odbc-core/src/connection.rs:110-124 | nothing is sent at depth 0, which is Ok; otherwise the system's move and the actor's answer, and the depth falls exactly on Ok |
| `Handle.MssqlConnection.RollbackBlocking` | sqlx-mssql-odbc-core/src/connection.rs:127-141 | nothing is sent at depth 0, which is Ok; otherwise the system's move and the actor's answer, and the depth falls exactly on Ok |
| `Handle.MssqlConnection.StartRollback` | sqlx-mssql-odbc-core/src/connection.rs:144-147 | queues without waiting and zeroes the handle's depth, which keeps the system sound |
| `Handle.MssqlConnection.AskBlocking` | sqlx-mssql-odbc-core/src/connection.rs:160-234 | preparing, plain SQL and migrations are the system's move with the actor's answer, and leave the depth alone |
| `Handle.MssqlConnection.ExecuteReceiver` | sqlx-mssql-odbc-core/src/connection.rs:237-258 | an execute is queued without waiting for the actor |
| `Handle.BlockedCall` | sqlx-mssql-odbc-core/src/connection/helpers.rs:43-55 | a blocking call on the two machines: the queue is worked off, the command answered, the inequality of the depths kept |
| `Handle.ManagerBegin` | sqlx-mssql-odbc-core/src/transaction.rs:9-22 | the second writer of the depth leaves state, depth and answer of the blocking call |
| `Handle.ManagerCommit` | sqlx-mssql-odbc-core/src/transaction.rs:24-38 | as for begin, with the depth-0 shortcut |
| `Handle.ManagerRollback` | sqlx-mssql-odbc-core/src/transaction.rs:40-54 | as for begin, with the depth-0 shortcut |
| `Migrations.RecordsAreBacked` | sqlx-mssql-odbc-core/src/connection/actor.rs:573-656 | over every run of migrations and transactions, in either mode and with any call failing, a tracking record is durable only right behind a complete error-free run of its own batch |
| `Migrations.MigrateBacked` | sqlx-mssql-odbc-core/src/connection/actor.rs:573-740 | one apply or revert keeps that of the durable data, the current data and every savepoint |
| `Migrations.MigrationIsAtomic` | sqlx-mssql-odbc-core/src/connection/actor.rs:587-655 | in transactional mode, if only calls inside the batch fail: Ok means batch and tracking change are durable, Err means nothing changed, autocommit is on again |
| `Migrations.AtomicExactly` | sqlx-mssql-odbc-core/src/connection/actor.rs:573-740 | exactly which failing calls leave a migration all-or-nothing |
| `Migrations.ErrorYetDurable` | sqlx-mssql-odbc-core/src/connection/actor.rs:623-653 | exactly when a migration reported as failed has changed the durable data |
| `Migrations.WithoutTransaction` | sqlx-mssql-odbc-core/src/connection/actor.rs:587-636 | without a transaction every statement that ran sticks, those behind the failing one included, and Ok means batch and mark both succeeded |
| `Migrations.PositiveDepthStaysManual` | sqlx-mssql-odbc-core/src/connection/actor.rs:573-740 | with migrations only at depth 0, a positive depth means manual commit mode in every reachable state |
| `Migrations.MigrationInsideTransaction` | sqlx-mssql-odbc-core/src/connection/actor.rs:638-653 | inside a transaction a migration breaks that exactly when it gets as far as restoring autocommit |
| `Tracking.StandsExactly` | sqlx-mssql-odbc-core/src/connection/actor.rs:573-740 | over every run on a table with any contents, whatever calls fail: a version stands in the durable table if and only if the last migration of it that reached its mark durably was an apply, or there was none and it stood before |
| `Tracking.AppliedStands` | sqlx-mssql-odbc-core/src/connection/actor.rs:633-655 | after an apply that is answered Ok the version stands, right behind its complete batch, and durably unless it ran inside a transaction |
| `Tracking.RevertedDoesNotStand` | sqlx-mssql-odbc-core/src/connection/actor.rs:717-739 | after a revert that is answered Ok the version does not stand |
| `Tracking.OtherVersionsStay` | sqlx-mssql-odbc-core/src/connection/actor.rs:573-740 | however it ends, a migration changes nothing for any other version |
| `Tracking.CommandMoves` | sqlx-mssql-odbc-core/src/connection/actor.rs:346-740 | every command, with any failure, takes the data back to an earlier point, adds events without a mark, or adds a complete batch with its mark; what is durable only grows |
| `Tracking.MarkHasOrigin` | sqlx-mssql-odbc-core/src/connection/actor.rs:573-740 | every mark that a run added was made by one migration of it and not taken back since |
| `ResultSets.DriveResultSets` | sqlx-mssql-odbc-core/src/connection/helpers.rs:143-198 | the walk delivers the sequential output of the batch as far as the consumer listens, and reports an error exactly for a failed result unless the consumer is gone |
| `ResultSets.EmitResult` | sqlx-mssql-odbc-core/src/connection/helpers.rs:151-181 | one result: a count clamped at 0, or the stream of its rows |
| `ResultSets.StreamRowsBuffered` | sqlx-mssql-odbc-core/src/connection/helpers.rs:264-356 | for every batch size the rows come in order, then a zero count; the error for too few values is never returned |
| `ResultSets.SendBatch` | sqlx-mssql-odbc-core/src/connection/helpers.rs:301-346 | the columns of a batch are turned back into exactly its rows |
| `ResultSets.NextRow` | sqlx-mssql-odbc-core/src/connection/helpers.rs:324-334 | one row takes the head of every column and leaves the tails |
| `ResultSets.StreamRowsUnbuffered` | sqlx-mssql-odbc-core/src/connection/helpers.rs:562-594 | the rows in order, then a zero count; a closed channel ends the stream without error |
| `ResultSets.StreamOneResultSet` | sqlx-mssql-odbc-core/src/connection/helpers.rs:227-242 | chooses the path by the setting, with one contract for both |
| `ResultSets.ExecuteSender.Send` | sqlx-mssql-odbc-core/src/connection/helpers.rs:72-79 | delivers while the receiver exists and says whether it did |
| `ResultSets.SendAllDeliversPrefix` | sqlx-mssql-odbc-core/src/connection/helpers.rs:72-79 | sending a sequence delivers exactly the prefix there is room for |
| `Emissions.OutputIsFlattening` | sqlx-mssql-odbc-core/src/connection/helpers.rs:151-197 | the stream is everything of the results before the first failing one, what that one sent itself, and one error; without a failure the flattening of all results |
| `Emissions.SucceedsExactly` | sqlx-mssql-odbc-core/src/connection/helpers.rs:151-197 | the stream ends without an error if and only if no call fails on any result, nor at the end |
| `Emissions.ResultIsShown` | sqlx-mssql-odbc-core/src/connection/helpers.rs:164-183 | a result is one count, never below 0, or all rows in order and a zero count, each value showing the cell of its row and column on either path |
| `Emissions.GoneIsNoError` | sqlx-mssql-odbc-core/src/connection/helpers.rs:173-183 | a consumer found gone ends the walk without an error |
| `Emissions.AffectedIsCounted` | sqlx-mssql-odbc-core/src/connection/helpers.rs:164-173 | the counts in the stream add up to the non-negative row counts of the batch, result sets adding nothing |
| `Emissions.QueryResult.Extend` | sqlx-mssql-odbc-core/src/query_result.rs:19-26 | folding adds the sum of all counts modulo 2^64 |
| `Emissions.StreamCounts` | sqlx-mssql-odbc-core/src/connection/helpers.rs:164-173 | the counts filtered from the messages of a batch, with or without an error at the end, add up to its non-negative row counts |
| `Emissions.QueryResult.ExtendByStream` | sqlx-mssql-odbc-core/src/query_result.rs:19-26 | folding the stream of a batch adds exactly its row counts modulo 2^64 |
| `Emissions.FetchOptional` | sqlx-mssql-odbc-core/src/connection.rs:354-378 | the first row or error is returned, only counts were skipped before it |
| `Emissions.BufferedRowsExactly` | sqlx-mssql-odbc-core/src/connection/helpers.rs:264-356 | a result set gives the same rows on both paths if and only if every value fits the buffer, for any batch size |
| `Emissions.RowsShowCells` | sqlx-mssql-odbc-core/src/connection/helpers.rs:264-356 | entry (i, c) of the stream shows cell (i, c) of the result set |
| `Emissions.BufferedRefinesUnbuffered` | sqlx-mssql-odbc-core/src/connection/helpers.rs:227-356 | for a whole batch and any batch size, the buffered stream shows what the unbuffered one shows |
| `Emissions.BrokenFetchLosesLessThanABatch` | sqlx-mssql-odbc-core/src/connection/helpers.rs:301-303 | where fetching breaks, the buffered rows are a prefix of the unbuffered ones, short by less than a batch |
| `Rows.BufferedValueExactly` | sqlx-mssql-odbc-core/src/connection/helpers.rs:380-515 | a cell decodes to the same value on both paths if and only if it fits the buffer |
| `Rows.SameValueReadsTheSame` | sqlx-mssql-odbc-core/src/value.rs:26-155 | values that the two paths give for one cell read the same as integer of any target type, boolean and text |
| `Rows.CellIsShown` | sqlx-mssql-odbc-core/src/connection/helpers.rs:380-748 | a client reads from either path what the server holds: a number as integer of exactly the types that hold it, and as boolean; flags, floats, times, bytes, UTF-16 text, and the digits of decimals |
| `Rows.EncodedReadsBack` | sqlx-mssql-odbc-core/src/connection/helpers.rs:488-496 | decoding the UTF-16 encoding of any text gives the text |
| `Rows.ShorterTextDiffers` | sqlx-mssql-odbc-core/src/connection/helpers.rs:488-496 | cut UTF-16 text never decodes to the uncut text, even where the cut splits a surrogate pair |
| `ResponseChannel.ReceivedIsPrefix` | sqlx-mssql-odbc-core/src/connection.rs:237-258 | in every interleaving the consumer has a prefix of the sequential output, at most 64 messages are in flight, and nothing is lost while the receiver exists |
| `ResponseChannel.QuietMeansDone` | sqlx-mssql-odbc-core/src/connection/actor.rs:26-47 | any run continued until nobody can move ends with the actor done; the consumer has everything unless it dropped the receiver |
| `ResponseChannel.ReadingToTheEndGetsAll` | sqlx-mssql-odbc-core/src/connection.rs:237-258 | a consumer that reads to the end receives the whole output |
| `ResponseChannel.RunsAreBounded` | sqlx-mssql-odbc-core/src/connection/helpers.rs:143-198 | no interleaving is longer than twice the output plus one move |
| `ResponseChannel.ActorFinishesAlone` | sqlx-mssql-odbc-core/src/connection/helpers.rs:72-79 | after an early drop the actor gets through what is left by itself |
| `ResponseChannel.WalkDeliversWhatIsAccepted` | sqlx-mssql-odbc-core/src/connection.rs:237-258 | the sender used by the walk agrees with every interleaving of the bounded channel |
| `StatementCache.InsertKeepsExactly` | sqlx-mssql-odbc-core/src/connection/actor.rs:218-220 | for any capacity an insertion keeps the cache coherent (size, distinct keys, every entry prepared from its key); the new key is there if there is any room, and every other key stays except the oldest of a full cache that did not have the new one |
| `StatementCache.TouchKeeps` | sqlx-mssql-odbc-core/src/connection/actor.rs:138-139 | a hit changes neither the set of cached texts nor what they were prepared from |
| `StatementCache.AlwaysOrderedByUse` | sqlx-mssql-odbc-core/src/connection/actor.rs:138-220 | over every sequence of lookups and insertions, for any capacity, the entries stand in the order of their last use |
| `StatementCache.EvictedIsLeastRecent` | sqlx-mssql-odbc-core/src/connection/actor.rs:218-220 | the key that gives way is the one whose last use is longest ago |
| `StatementCache.KeysAreCounted` | sqlx-mssql-odbc-core/src/connection/actor.rs:79-81 | the reported size is the number of cached keys |
| `StatementCache.LruCache.GetMut` | sqlx-mssql-odbc-core/src/connection/actor.rs:138-139 | returns the statement prepared from the key and makes it the newest, or changes nothing; the set of keys stays |
| `StatementCache.LruCache.Put` | sqlx-mssql-odbc-core/src/connection/actor.rs:218-220 | after the eviction steps a coherent cache is coherent and has exactly the new key and all earlier ones but the oldest of a full cache; nothing is evicted while there is room |
| `Execution.CacheIsTransparentExactly` | sqlx-mssql-odbc-core/src/connection/actor.rs:125-330 | for any run, capacity and coherent cache: session and responses are at every point those of an actor without a cache, if and only if no request is misled by a stale entry |
| `Execution.ServeIsTransparent` | sqlx-mssql-odbc-core/src/connection/actor.rs:125-330 | for one request, session and response are those without a cache, if and only if it does not meet a stale entry that can still be executed or described |
| `Execution.StableDriverNeverMisleads` | sqlx-mssql-odbc-core/src/connection/actor.rs:138-228 | if preparing does not depend on the data, no request of a run is misled |
| `Execution.ExecutesItsRequest` | sqlx-mssql-odbc-core/src/connection/actor.rs:125-261 | on each of the three paths an execute appends exactly its own text with its own arguments, once, and answers what that returns on the data before it, if its statement could be had and the call does not fail outright; otherwise it changes nothing and answers one error |
| `Execution.PreparesItsText` | sqlx-mssql-odbc-core/src/connection/actor.rs:263-330 | a prepare answers the description of its own text if that could be had, and changes no data |
| `Execution.PreparedIsCached` | sqlx-mssql-odbc-core/src/connection/actor.rs:325-327 | with room in the cache, a prepared and described text is there for the next request |
| `Execution.ExecutedIsCachedExactly` | sqlx-mssql-odbc-core/src/connection/actor.rs:208-228 | an execute keeps a new statement if and only if its first result had no columns and the walk reported no error |
| `Execution.ServeKeepsCache` | sqlx-mssql-odbc-core/src/connection/actor.rs:125-330 | a request keeps the cache coherent and adds at most its own, preparable text |
| `Actor.ActorRunIsItsTrace` | sqlx-mssql-odbc-core/src/connection/actor.rs:26-119 | over any command sequence the actor moves the session as the transaction and migration machines do |
| `Actor.ActorKeepsPromises` | sqlx-mssql-odbc-core/src/connection/actor.rs:26-119 | over the whole life of a connection durable tracking records are backed, the cache is bounded, and with migrations at depth 0 a positive depth is manual mode |
| `Answers.RunIsAnswered` | sqlx-mssql-odbc-core/src/connection/actor.rs:26-119 | over any command sequence there is one response for each served command, in order, and response k says what command k did: begin, commit and rollback whether the depth moved (an outermost commit answered Ok is durable, with autocommit on), migrations whether the mark was made and autocommit came back, executes and prepares what their own text gives, and the number of cached keys |
| `Answers.ServeOneIsAnswered` | sqlx-mssql-odbc-core/src/connection/actor.rs:32-116 | the same for one command, with any failure |
| `Answers.AnswersAsTheHandleTakesIt` | sqlx-mssql-odbc-core/src/connection/actor.rs:54-62 | the actor answers begin, commit, rollback and migrations exactly as the handle's side of the system takes them |
| `Answers.TableTellsWhatStands` | sqlx-mssql-odbc-core/src/connection/actor.rs:26-119 | over the whole life of a connection, on a database with any contents, the durable table tells which versions stand |
| `Actor.ConnectionActor.Run` | sqlx-mssql-odbc-core/src/connection/actor.rs:26-119 | the loop answers every command in order, up to a shutdown, with the responses that RunIsAnswered is about |
| `Actor.ConnectionActor.Serve` | sqlx-mssql-odbc-core/src/connection/actor.rs:32-116 | dispatch: new state and response of each command, as ServeOneIsAnswered reads them |
| `Actor.ConnectionActor.ServeExecute` | sqlx-mssql-odbc-core/src/connection/actor.rs:33-47 | the consumer gets the prefix it listened to of the whole output, with an early error forwarded |
| `Actor.ConnectionActor.HandleExecute` | sqlx-mssql-odbc-core/src/connection/actor.rs:125-261 | cached, prepared and one-shot path: session, cache and messages are those that ExecutesItsRequest ties to the request and CacheIsTransparentExactly to the cache-free actor |
| `Actor.ConnectionActor.HandlePrepare` | sqlx-mssql-odbc-core/src/connection/actor.rs:263-330 | a hit is described from the cached statement; a miss is cached only if it could be described and the cache is enabled |
| `Actor.ConnectionActor.HandleBegin` | sqlx-mssql-odbc-core/src/connection/actor.rs:346-375 | on the fields of the actor: autocommit off at depth 0, a savepoint named for the depth above it, and the depth rises exactly on Ok; the function it equals is the one that StepRefines ties to a push |
| `Actor.ConnectionActor.HandleCommit` | sqlx-mssql-odbc-core/src/connection/actor.rs:377-405 | the function that StepRefines ties to a pop: durable only at depth 1, nothing sent above it, depth kept where the commit or the autocommit restore fails |
| `Actor.ConnectionActor.HandleRollback` | sqlx-mssql-odbc-core/src/connection/actor.rs:407-449 | the function that RollbackRestoresBegin is about: the savepoint one below the depth, or a full rollback, and depth kept on failure |
| `Actor.ConnectionActor.HandleStartRollback` | sqlx-mssql-odbc-core/src/connection/actor.rs:451-469 | the same restore with errors dropped: the depth always falls |
| `Actor.ConnectionActor.RunBatch` | sqlx-mssql-odbc-core/src/connection/helpers.rs:206-223 | draining keeps every statement up to the first failing one, and what the server ran behind it; Ok only if all ran |
| `Actor.ConnectionActor.HandleApplyMigration` | sqlx-mssql-odbc-core/src/connection/actor.rs:573-656 | for every combination of failures and both modes, the outcome that AtomicExactly, RecordsAreBacked and AppliedStands are about |
| `Actor.ConnectionActor.HandleRevertMigration` | sqlx-mssql-odbc-core/src/connection/actor.rs:659-740 | the same with the deletion of the record, which RevertedDoesNotStand is about |
| `Actor.StreamIsPrefix` | sqlx-mssql-odbc-core/src/connection/actor.rs:39-46 | walk and forwarded error together are a prefix of the whole output with its one error |
| `ConnectionString.LastWriteWinsExactly` | sqlx-mssql-odbc-core/src/options.rs:131-150 | for ASCII text, replacing the database twice is replacing it with the last name if and only if the first name has no `;` |
| `ConnectionString.Rewritten` | sqlx-mssql-odbc-core/src/options.rs:131-150 | the text around the replaced or appended segment is the same for every name, and the new key is where the search finds it |
| `ConnectionUrl.BuildConnectionString` | sqlx-mssql-odbc-core/src/options.rs:190-244 | the text for any URL, which UrlReadsBackExactly reads back in the fields of the URL; other schemes pass |
| `ConnectionReader.UrlReadsBackExactly` | sqlx-mssql-odbc-core/src/options.rs:190-244 | from URL to reader, in the fields of the URL: host or localhost with port or 1433, the path without leading slashes, user name and password, each under its own key and left out when empty, if and only if the host is bounded and the values are safe |
| `ConnectionReader.OtherSchemesPass` | sqlx-mssql-odbc-core/src/options.rs:191-197 | text of any other scheme is left alone |
| `ConnectionUrl.HandledExactly` | sqlx-mssql-odbc-core/src/options.rs:191-197 | the two schemes are recognized in any mixture of cases, and no other is |
| `ConnectionUrl.FlagParameters` | sqlx-mssql-odbc-core/src/options.rs:219-231 | which parameters ask for which flag |
| `ConnectionUrl.ApplyQueryPairs` | sqlx-mssql-odbc-core/src/options.rs:219-241 | the loop over the query parameters as a fold |
| `ConnectionUrl.PairsSet` | sqlx-mssql-odbc-core/src/options.rs:219-241 | for all parameters, rewriting the text in place amounts to updating its parts: driver, rest and flags |
| `ConnectionUrl.LastDriverWins` | sqlx-mssql-odbc-core/src/options.rs:232-238 | for all parameters, the text goes on behind `Driver=` with the last driver given, or the default one |
| `ConnectionUrl.DriverReplacesDriver` | sqlx-mssql-odbc-core/src/options.rs:232-238 | if no replaced driver has a `;`, exactly the driver in force stands between `Driver=` and the other parts |
| `ConnectionUrl.FlagsSetExactly` | sqlx-mssql-odbc-core/src/options.rs:222-231 | each flag stands at most once, and exactly if some request for it comes when its key is nowhere in driver and rest |
| `ConnectionUrl.HasKeyExactly` | sqlx-mssql-odbc-core/src/options.rs:219-241 | whether the key is in the text at that moment, told from the parameters before it: in the driver in force, in the tail of an earlier one, or in the other parts |
| `ConnectionReader.BuiltReadsBackExactly` | sqlx-mssql-odbc-core/src/options.rs:190-244 | a reader that follows the brace rules (section 2 of [MS-ODBCSTR]) gets exactly the given server, database, user and password, the driver in force and the flags, if and only if the host has no `;` and does not start braced and, for a reader that drops outer blanks, no bare value has any |
| `ConnectionReader.BuiltReads` | sqlx-mssql-odbc-core/src/options.rs:190-244 | for such a host, and any database, user and password, what each kind of reader gets |
| `ConnectionReader.EscapeIsDelimited` | sqlx-mssql-odbc-core/src/options.rs:173-179 | every escaped value ends where its text ends, whatever follows |
| `ConnectionReader.ShownExactly` | sqlx-mssql-odbc-core/src/options.rs:173-179 | an escaped value reads back as itself if and only if it is braced, or has no outer blanks that the reader drops |
| `ConnectionReader.FlagReadBackExactly` | sqlx-mssql-odbc-core/src/options.rs:190-244 | in what the reader gets no key comes twice, and a flag is there if and only if some request for it comes when its key is in no value, driver or leftover |
| `ConnectionReader.FlagsExactly` | sqlx-mssql-odbc-core/src/options.rs:220-231 | the same of the flags the loop sets, for all parameters and values, drivers included |
| `ConnectionReader.KeyInTextExactly` | sqlx-mssql-odbc-core/src/options.rs:220-231 | the text searched for a flag contains its key if and only if one of the values does, escaped or not |
| `ConnectionReader.DefaultDriver` | sqlx-mssql-odbc-core/src/options.rs:205-207 | the default driver reads back without its braces and contains no flag key |
| `SqlText.InsertLexes` | sqlx-mssql-odbc-core/src/migrate.rs:283-294 | for every input the INSERT lexes to the same token shape, with exactly the checksum bytes, and the texts as a server reads them |
| `SqlText.InsertReadsBackExactly` | sqlx-mssql-odbc-core/src/migrate.rs:283-294 | description, type and SQL text come back exactly, if and only if none of them has a backslash directly before a line break |
| `SqlText.ContinuationIsLost` | sqlx-mssql-odbc-core/src/migrate.rs:39-41 | a two-line text with such a backslash is recorded as one line |
| `SqlText.DeleteReadsBack` | sqlx-mssql-odbc-core/src/migrate.rs:314-318 | the DELETE names the same table and exactly the version |
| `SqlText.TableNameReadsBackExactly` | sqlx-mssql-odbc-core/src/migrate.rs:56-78 | the quoted table name reads back to the name if and only if that does not start with `.` |
| `SqlText.FormatHex` | sqlx-mssql-odbc-core/src/migrate.rs:44-51 | the loop prints two upper-case digits per byte behind `0x` |
| `SqlText.HexReads` | sqlx-mssql-odbc-core/src/migrate.rs:44-51 | reading the digits gives the bytes back |
| `SqlText.WrittenHex` | sqlx-mssql-odbc-core/src/migrate.rs:44-51 | two capital digits a byte, the high one first |
| `SqlText.WrittenValues` | sqlx-mssql-odbc-core/src/migrate.rs:283-294 | the tokens of the values, one by one |
| `SqlText.PrintedLexes` | sqlx-mssql-odbc-core/src/migrate.rs:34-51 | any well-spaced list of printed tokens lexes back to itself |
| `TypeInfo.SerializedReadsBack` | sqlx-mssql-odbc-core/src/type_info.rs:17-260 | deserializing undoes serializing up to the normal form, negative 16-bit precisions included |
| `TypeInfo.NameSurvivesExactly` | sqlx-mssql-odbc-core/src/type_info.rs:399-444 | the type name survives if and only if no `Other` carries a standard code |
| `TypeInfo.SecondTripExactly` | sqlx-mssql-odbc-core/src/type_info.rs:17-260 | a second trip changes nothing, except exactly for an `Other` that turns out to be a LONG type with a length |
| `TypeInfo.FieldOrderIrrelevant` | sqlx-mssql-odbc-core/src/type_info.rs:83-137 | the fields may come in any order, for accepted and for rejected inputs |
| `TypeInfo.VisitMap` | sqlx-mssql-odbc-core/src/type_info.rs:83-243 | the loop over the fields computes the specification: duplicates and wrong kinds are errors, nulls leave a field open |
| `TypeInfo.NameParses` | sqlx-mssql-odbc-core/src/type_info.rs:139-240 | every name that is written is recognized as itself |
| `TypeInfo.WrittenNumbers` | sqlx-mssql-odbc-core/src/type_info.rs:17-36 | the fields of numeric and temporal types, as written |
| `TypeInfo.WrittenLengths` | sqlx-mssql-odbc-core/src/type_info.rs:37-45 | a length is written as a number, or null if missing |
| `TypeInfo.WrittenOthers` | sqlx-mssql-odbc-core/src/type_info.rs:46-54 | code, size and digits of the other types, and their names |
| `TypeInfo.WrittenNames` | sqlx-mssql-odbc-core/src/type_info.rs:399-444 | the names of the plain types, as written |
| `Values.ParseIntegerTextExactly` | sqlx-mssql-odbc-core/src/value.rs:335-349 | text reads as n if and only if it is a blank-padded signed numeral for n, perhaps with a point and zeros, and n fits 64 bits |
| `Values.NumeralIsRead` | sqlx-mssql-odbc-core/src/value.rs:335-349 | every such numeral is read to its value, or refused for its size |
| `Values.ReadIsNumeral` | sqlx-mssql-odbc-core/src/value.rs:335-349 | whatever is read is such a numeral |
| `Values.DecimalSeparatorIrrelevant` | sqlx-mssql-odbc-core/src/value.rs:326-333 | a decimal reads the same with `.` and `,` exchanged |
| `Values.IntegerDecodesExactly` | sqlx-mssql-odbc-core/src/value.rs:170-203 | for every value and integer type: decoding gives n if and only if the value is an integer holding n, or text or a decimal spelling n, and n is in the range of the type |
| `Values.TargetRange` | sqlx-mssql-odbc-core/src/value.rs:196-203 | the ranges are those of two's complement at the width of the type |
| `Dates.AcceptedExactly` | sqlx-mssql-odbc-core/src/types/chrono.rs:148-157 | an integer reads as a date if and only if it is the encoding of an existing day of the years 1900 to 3000 |
| `Dates.CycleLength` | sqlx-mssql-odbc-core/src/types/chrono.rs:148-157 | the calendar used repeats after 400 years, which are 146097 days |
| `Dates.YearLength` | sqlx-mssql-odbc-core/src/types/chrono.rs:148-157 | the months of a year have 365 days and the leap days counted independently |
| `Dates.ReadingOrder` | sqlx-mssql-odbc-core/src/types/chrono.rs:148-168 | a literal date in both forms: year, month, day |
| `Dates.OrderIsKept` | sqlx-mssql-odbc-core/src/types/chrono.rs:148-157 | reading keeps the order and is injective |
| `Dates.BothLibrariesAgree` | sqlx-mssql-odbc-core/src/types/time.rs:152-162 | both libraries read the same date from every integer |
| `Dates.TextAgreesExactly` | sqlx-mssql-odbc-core/src/types/chrono.rs:159-168 | eight digits read as the date of their number if and only if that number is in the accepted range or year, month and day are no day of the calendar; the same for both libraries |
| `Dates.NumeralReadsTheSame` | sqlx-mssql-odbc-core/src/types/chrono.rs:148-168 | the numeral of an accepted integer reads as the same date |
| `Dates.TimestampReadsBackExactly` | sqlx-mssql-odbc-core/src/types/chrono.rs:136-206 | a date and time comes back, cut to microseconds, if and only if its year fits 16 bits |
| `Dates.CutToMicroseconds` | sqlx-mssql-odbc-core/src/types/chrono.rs:136-146 | what is cut is less than a microsecond, and nothing else changes |
| `Dates.PrimitiveReadsBack` | sqlx-mssql-odbc-core/src/types/time.rs:110-189 | for the other library it always does, by the same timestamp |
| `Dates.TimestampsAgreeExactly` | sqlx-mssql-odbc-core/src/types/time.rs:176-189 | the two libraries read a timestamp alike, if and only if fields that are a date and time as they stand have a year up to 9999 and no leap second, and fields that are one after narrowing to bytes needed no narrowing |

## Left out

- ConnectionReader.BuiltReadsBackExactly: the driver in force must be a value by itself and no replaced driver may have a `;`; drivers are written as given, and what they leave behind can spell any attributes.
- ConnectionReader.FlagReadBackExactly: the same condition on drivers, and a bounded host; FlagsExactly needs neither.
- Handle.MssqlConnection.SendCommandBlocking: the error when the actor is gone; after that no command reaches a session.
- ConnectionString.LastWriteWinsExactly: ASCII only; beyond that, upper-casing can change the length of the text and the positions found in it.
- ConnectionString.Rewritten: ASCII only, for the same reason.
- Rows.BufferedValueExactly: not for GUIDs, narrow text and fallback columns, where the two paths produce different kinds of value or depend on the code page.
- Rows.SameValueReadsTheSame: not for floating-point targets; parsing text as a boolean is a parameter.
- Emissions.BufferedRefinesUnbuffered: assumes that describing, binding and unbinding succeed; the failures of these calls are in the contracts of StreamRowsBuffered and DriveResultSets.
- Emissions.QueryResult.Extend: overflow wraps; a debug build would stop instead.
- Execution.CacheIsTransparentExactly: error texts are not part of a response, and describing a statement is one opaque answer (its calls and the count-only fallback are not separate).
- Tracking.StandsExactly: the same as for RecordsAreBacked, next.
- Migrations.RecordsAreBacked: user SQL that writes the tracking table, and `skip`, which records without running on purpose, are not among the commands.
- Dates.TextAgreesExactly: trimming and the other text formats of dates and times are not part of this model.
- Ping, ExecSql, ScalarI64 and ListMigrations commands: each runs one fixed statement and keeps no state.
- The end of the actor thread, and commands sent after it: every sender then gets the same error.
- URL parsing, percent-decoding, the encrypt and trust builder methods and the choice between URL, DSN and raw string: done by a library, or the same step as a query parameter.
- Column names, metadata and the row index beyond 65535 columns: presentation, and out of reach of the server.
- Error messages, context strings, SQL previews, logging and Debug output: presentation.
- Codecs for Decimal, BigDecimal, JSON, UUID and geometry, datetime text, and `as_f64`: done by libraries that are not part of this model.
- The `compatible` tables, the `Any` conversions and `describe`: per-variant mappings.
- Creating and dropping databases, creating the schema and the tracking table, and the application lock: single statements.
- SQL that does transaction control of its own, and aborts by the server: assumed absent, since the driver does not see them.
