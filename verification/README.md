# A verified model of the change-data-capture pipeline

The pipeline copies a PostgreSQL source into a destination: a reader decodes the replication
stream and publishes row events to Kafka, a writer applies them transaction by transaction, an
initial snapshot seeds the destination, and events that cannot apply are quarantined. This
project models the three hard pieces over one destination state and proves what they promise.

* **Apply engine** (`Cdc`, `Destination`, `Sql`, `Names`, `Applier`, `Batch`, `Replay`). The
  destination is a value: tables as maps from primary key to columns with `source_lsn`, markers, truncate
  watermarks and dead letters. `Destination` says what one event does; `Applier` is the imperative
  engine, with statements built in loops, run by the interpreter of `Sql` on an open transaction
  object, and proved against that specification. `Batch` is why the two-phase batch agrees.
* **Meaning** (`Convergence`, `Failures`, `Integrity`, `Healing`, `Snapshot`, `Handover`, `Lockstep`). What events
  mean for the source; when an event can fail at all and what is never stored; the fuzzy snapshot hand-over, which always
  converges, and when it does so without a failure.
* **Decoder** (`EventIds`, `Identity`, `Pgoutput`, `Decoder`, `Translation`, `Acceptance`). `Pgoutput` is
  the meaning of each message, `Decoder` the class with its loops, memory and spool, `Translation`
  the commuting square from source statement to events, `Acceptance` which messages are refused.
  Tuple kinds follow the PostgreSQL documentation, section "Logical Replication Message Formats".
* **Delivery** (`Reader`, `Writer`, `WriterRuns`, `DeadLetters`, `Quarantine`, `Transactions`,
  `Pipeline`, `Consistency`, `CatchUp`, `Progress`). Reader and publisher are a transition system, because their
  goroutines interleave at every channel operation; the writer is the class `Consumer` and, for crashes between its commits,
  a transition system over the same functions. `Pipeline` joins both over one Kafka log,
  `Quarantine` is what the poison path leaves, and `Consistency` and `CatchUp` say what the
  destination holds, `Progress` that without failures everything arrives. `Witness` holds concrete
  inputs.

Every lemma carries `{:induction false}`: each proof is its body, and none leans on automatic
induction. To verify the project, run `dafny verify dfyconfig.toml`.

## Assumptions

* Source transactions arrive in commit order, and commit LSN < end LSN <= next commit LSN; from a
  position PostgreSQL sends the transactions whose commit LSN is not below it.
* A redelivered transaction decodes to the same events. The catalogs are fixed, and the identity
  columns the source catalog lists are the destination's primary key (`Translation.Agreed`).
* A destination transaction commits atomically, and only the writer changes the destination while
  it runs. Columns an INSERT does not name become NULL.
* The Kafka log has one partition and is append-only. A produce that reports failure may have
  appended the record; a record does not arrive after the process that sent it has stopped.
* One reader at a time.
* A batch or a healing step may fail for reasons of its own, a lock or a timeout, at any event that
  is new or misshapen; writing a marker that exists already does not fail. `Consistency` and
  `CatchUp` speak of runs in which the database alone decides what fails (`AllDecided`), and, with
  poison, of runs in which a healing breaks only where the next delivery mends it (`AllMended`, and
  on events that are in order `AllRowsAbsent`).
* For the snapshot: every transaction with a commit LSN below the stamp is visible in it, which
  reading the LSN before opening the snapshot guarantees.

## Where the code and its documentation differ

The model follows the code.

* When the reader dies, PostgreSQL is said to send the transaction again and every event to be applied
  once (README.md:87-91); when it dies between two events of one transaction, the log holds a torn
  delivery, and the writer never gets past it (`Reader.CrashTearsDelivery`,
  `Pipeline.TornDeliveryBlocks`).
* After a Kafka outage the stream is said to resume silently (README.md:101); a failed publish that is
  seen with the last event or the descriptor of a transaction leaves a reader without a publisher
  (`Reader.HandingToNobody`).
* `DropDeadLetter` is documented to make sure the event is never seen again; it removes the marker,
  so a redelivered event is applied (`DeadLetters.DropForgets`).
* The comment in `ReplayDeadLetter` says a missing marker would make a restart skip the event; a
  missing marker makes a redelivery apply it (`DeadLetters.InterruptedReplay`).
* Snapshot rows are said to be at the slot's consistent point; they are as of the snapshot
  transaction, which is later. `Handover` proves that this does not matter.
* A key change is said to need the full old image to be detected; a key-only old image is enough,
  and then any unchanged column makes the decoder refuse (`Translation.FillOnlyRefuses`).
* Two truncates of one table in one source transaction: the second is skipped
  (`Replay.SecondTruncateIsSkipped`), so the end-to-end results assume at most one.
* A hand-over is said to be covered by the LSN guard; it can still meet poison, in an update of a row
  that a later delete removed before the snapshot, when a NOT NULL column is unchanged
  (`Handover.SnapshotThenReplay` says exactly when, `Witness.HandoverMeetsPoison` gives the input).

## Model

| member | source | states |
|---|---|---|
| `EventIds.ReadEventId` | internal/source/decoder.go:320-333 | A reader that knows only digit characters gets the high half, the low half and the sequence back from an identifier, for every 64-bit commit LSN. |
| `EventIds.RenderIsCanonical` | internal/source/decoder.go:320-324 | Numbers are written without padding, one digit when they are below the base. |
| `EventIds.EventIdInjective` | internal/source/decoder.go:320-324 | Two events share an identifier only when they share commit LSN and sequence, for all 64-bit LSNs. |
| `EventIds.LsnTextInjective` | internal/source/decoder.go:324-333 | The textual LSN determines the LSN. |
| `Sql.UpsertMeans` | internal/destination/applier.go:876-914 | Run by the interpreter on values, LSN and time, the built upsert is the LSN-guarded map upsert of the row, for any number of columns and key columns. |
| `Sql.UpdateMeans` | internal/destination/applier.go:759-795 | The built UPDATE, on values, LSN, time and key values, is the guarded rewrite of the rows that match the key. |
| `Sql.InsertMeans` | internal/destination/applier.go:797-815 | The built INSERT adds the row, its unnamed columns NULL, and fails on a taken key. |
| `Sql.DeleteMeans` | internal/destination/applier.go:916-930 | The built DELETE removes exactly the matching rows whose LSN is not newer. |
| `Applier.TranscodeRow` | internal/destination/applier.go:731-751 | Accepts exactly rows with valid, unreserved column names; lists every column once, in ascending order, with its value beside it. |
| `Applier.BuildUpsert` | internal/destination/applier.go:876-914 | The loop emits the upsert statement whose meaning UpsertMeans gives. |
| `Applier.BuildUpdate` | internal/destination/applier.go:759-795 | The loop emits the guarded UPDATE with its parameter layout. |
| `Applier.BuildInsert` | internal/destination/applier.go:797-815 | The loop emits the INSERT with its parameter layout. |
| `Applier.BuildDelete` | internal/destination/applier.go:916-930 | The loop emits the guarded DELETE with its parameter layout. |
| `Applier.BuildKeyWhere` | internal/destination/applier.go:859-868 | The key condition numbers its placeholders from the given one. |
| `Applier.CheckKeyColumns` | internal/destination/applier.go:272-285 | True exactly when every key column is in the change row and none is marked unchanged. |
| `Applier.PrepareWrite` | internal/destination/applier.go:263-286 | Passes exactly the events whose key checks hold, and assembles the parameter list the statements expect. |
| `Applier.PrepareDelete` | internal/destination/applier.go:302-312 | The delete statement and parameters mean the guarded delete on every database. |
| `Applier.PrepareUpsert` | internal/destination/applier.go:296-300 | The upsert statement and parameters mean the guarded upsert on every database. |
| `Applier.Transaction.Probe` | internal/destination/applier.go:838-841 | Reports whether any row carries the key, without a guard, and changes nothing. |
| `Applier.Transaction.ClearTable` | internal/destination/applier.go:669-678 | The table is emptied and its watermark advanced, or the transaction is aborted. |
| `Applier.ApplyUpdatePreserving` | internal/destination/applier.go:823-857 | UPDATE, probe, INSERT leave the transaction as the preserving update of the table, or fail with it. |
| `Applier.ApplyMutation` | internal/destination/applier.go:252-315 | The statements sent leave the transaction as the specified insert, update or delete, with the same error kind. |
| `Applier.ApplyTruncate` | internal/destination/applier.go:653-679 | Clears the table and advances the watermark unless the truncate is stale. |
| `Applier.ApplyEventInTx` | internal/destination/applier.go:224-250 | Marker and change together, or nothing but false when the marker exists; false leaves rows and watermarks as they were, true means that the marker is new; the error kind is that of the specification. |
| `Applier.Transaction.MarkApplied` | internal/destination/applier.go:619-633 | Inserts the marker once and reports whether it was new. |
| `Applier.Connection.Apply` | internal/destination/applier.go:200-218 | One event in its own transaction: the specified new database, or the old one untouched. The answer is false exactly when the event was marked before or is a truncate not above the watermark. |
| `Applier.CheckShapes` | internal/destination/applier.go:390-402 | Finds the first event that fails Validate or the identifier checks, before anything is sent. |
| `Applier.WriteMarkers` | internal/destination/applier.go:404-418 | Writes every marker ahead of the mutations and knows which were new, repeated ids included. |
| `Applier.Flush` | internal/destination/applier.go:428-449 | Sends the queue in order; a failure names the queued event whose statement failed. |
| `Applier.RunNow` | internal/destination/applier.go:456-527 | A truncate or a preserving update flushes the queue first and then runs, keeping source order. |
| `Applier.Stage` | internal/destination/applier.go:451-535 | Phase 2 for one new event keeps the pending transaction in agreement with the sequential fold. |
| `Applier.ApplyBatch` | internal/destination/applier.go:383-537 | Succeeds exactly when applying the events one by one does, with the same rows, markers and watermarks; otherwise the event reported is the first one the fold fails at or one that fails a check whatever the rows are, and it is misshapen or new. |
| `Batch.AgreesStep` | internal/destination/applier.go:451-535 | Queueing a new event keeps the delayed state equal to the fold up to the markers, or both failed. |
| `Batch.AgreesSkip` | internal/destination/applier.go:452-454 | An event whose marker already exists changes nothing on either side. |
| `Batch.EffectIgnoresMarkers` | internal/destination/applier.go:404-420 | A change neither reads nor writes markers, so markers may be written ahead. |
| `Replay.CrashReplayIsNoOp` | internal/destination/applier.go:400-454 | After any committed run, feeding any stretch of it again leaves the whole database unchanged. |
| `Replay.LsnsMoveForward` | internal/destination/applier.go:644-705 | For any event: no watermark decreases, and no row LSN decreases while its key stays. |
| `Replay.OlderEventOnlyMarks` | internal/destination/applier.go:787-795 | A row event older than the stored row cannot fail and changes nothing but the marker set. |
| `Replay.UpsertOrderIsIrrelevant` | internal/destination/applier.go:876-914 | When full-row upserts with distinct LSNs go through in one order, they do in every order, with the same rows, the highest LSN winning per key. |
| `Replay.TruncateTakesEffect` | internal/destination/applier.go:653-679 | A truncate leaves the destination equal to the truncated source if and only if it is not stale or there is nothing to clear. |
| `Replay.SecondTruncateIsSkipped` | internal/destination/applier.go:703-705 | Counterexample: truncate, insert, truncate of one table at one commit LSN goes through and leaves the row the source no longer has. |
| `Convergence.ApplyOnEntries` | internal/destination/applier.go:224-315 | An acceptable event rewrites the entry of its own key and no other entry of any table. |
| `Convergence.KeyInvStep` | internal/destination/applier.go:319-358 | One replayed event keeps the hand-over invariant of every key, even when the row is from the future. |
| `Healing.HealedReplayConverges` | internal/destination/snapshot.go:139-197 | However far ahead of the start each captured row is, replaying the log with failing events quarantined ends with exactly the source rows, whatever fails on the way. |
| `Healing.ReplaySucceedsExactlyWhen` | internal/destination/applier.go:823-857 | A replay of a genuine log fails if and only if the destination lacks the row of an update that leaves a NOT NULL column unsaid and is the first event of the replay to concern it. |
| `Healing.CarryStep` | cmd/destination-writer/main.go:405-438 | One event, applied or quarantined, keeps the hand-over invariant of every key. |
| `Snapshot.VerifyRowAgainstPrimaryKey` | internal/destination/snapshot.go:419-427 | True exactly when every key column is present and not NULL. |
| `Snapshot.SelectColumns` | internal/destination/snapshot.go:246-262 | Selects exactly the destination columns the source has; refuses when a key column is missing. |
| `Snapshot.UpsertSnapshotRow` | internal/destination/applier.go:319-358 | Leaves the transaction as the guarded upsert at the snapshot LSN, or fails with it. |
| `Snapshot.ScanRow` | internal/destination/snapshot.go:290-300 | The scanned row holds the value of each selected column and nothing else. |
| `Snapshot.CopyScanned` | internal/destination/snapshot.go:284-309 | The row loop upserts every scanned row in order or stops at the first failure. |
| `Snapshot.CopyTableRows` | internal/destination/snapshot.go:229-310 | One upsert for each scanned row, in order; the count is the number of rows. |
| `Snapshot.RunSnapshot` | internal/destination/snapshot.go:132-197 | Every table is copied and committed, or nothing is; no published table is an error. |
| `Snapshot.CopyRowLands` | internal/destination/snapshot.go:284-309 | A copied row is under its key, with snapshot LSN and time, unless a newer row is: shared columns from the source, missing ones old or NULL, extra ones passed over; no other row of any table changes. |
| `Snapshot.TableStopsSnapshot` | internal/destination/snapshot.go:229-262 | One table without a destination, without a primary key there, or without one of its key columns at the source stops the whole snapshot. |
| `Snapshot.CopyRowStops` | internal/destination/snapshot.go:246-305 | A NULL or missing key value stops the snapshot, and so does a source column of a reserved name. |
| `Snapshot.SnapshotRowIsInsert` | internal/destination/applier.go:317-318 | A snapshot row is applied exactly like an insert event at the snapshot LSN. |
| `Handover.TablesLand` | internal/destination/snapshot.go:174-187 | The copy offers every source row once to its key and changes nothing else. |
| `Handover.SnapshotCaptures` | internal/destination/snapshot.go:139-187 | A snapshot at any log position, stamped in time, leaves every key captured there or where it was before. |
| `Handover.SnapshotSucceeds` | internal/destination/snapshot.go:139-197 | A snapshot of tables whose rows fit and have no NULL in the key cannot fail, whatever the destination holds. |
| `Handover.SnapshotThenReplay` | cmd/destination-writer/main.go:132-150 | Snapshot into empty tables at position s, then replay from any p not after s: the result is the source at the end of the log, and nothing fails on the way if and only if the snapshot shows every row that an update needs before anything else concerns it. |
| `Handover.RetakenSnapshotThenReplay` | cmd/destination-writer/main.go:142-147 | The same when the snapshot is taken again because its completion was never recorded: nothing fails if and only if one of the two shows every such row. |
| `Witness.HandoverMeetsPoison` | cmd/destination-writer/main.go:132-150 | Input: a two-event log and a snapshot taken after its delete; the replay fails at the update, and healed it converges. |
| `Integrity.ApplyKeepsIntact` | internal/destination/applier.go:224-315 | Whatever event is applied, no stored row has a text its column type rejects, NULL where the column or the key forbids it, a missing column or a key that is not its own. |
| `Integrity.FoldKeepsIntact` | internal/destination/applier.go:383-537 | The same after any batch. |
| `Integrity.SnapshotKeepsIntact` | internal/destination/snapshot.go:132-197 | The same after any snapshot of any source. |
| `Integrity.WrongTextIsPoison` | internal/destination/applier.go:289-300 | A text that the type of its column rejects makes a new event of any kind fail as poison, on any database. |
| `Integrity.RefusedExactlyWhen` | internal/destination/applier.go:252-315 | On intact rows a new event of the decoder's shape fails if and only if it sends a rejected text, or NULL for a NOT NULL column of a row that is not newer already, or must create a row it does not fully know; and then as poison. |
| `Integrity.OnlyCleanEventsPass` | internal/destination/applier.go:200-286 | An event that is new fails unless version, id, names character by character, columns and key are in order; if they are, only its rows can fail it. |
| `Integrity.TakenColumnsAreKnown` | internal/destination/applier.go:296-300 | What takes effect sends known columns only, and a full row conflicts on the primary key of the table. |
| `Integrity.DeleteRemovesExactly` | internal/destination/applier.go:916-930 | A delete removes exactly the rows equal to its key in every column it names, NULL never being equal, and not newer; every other row of every table stays. |
| `Integrity.UpdateRewritesExactly` | internal/destination/applier.go:759-795 | An UPDATE moves each selected row, merged, to its new key with the new LSN and time, and keeps the others. |
| `Identity.DiscoverIdentity` | cmd/source-reader/main.go:426-464 | Refuses exactly when some table has no usable key; otherwise lists for each the identity index, or the primary key also when the whole row is streamed. |
| `Identity.QualifiedIsUnambiguous` | cmd/source-reader/main.go:433-459 | The dotted name tells tables with plain names apart, and not tables with dots in their names. |
| `Decoder.DecodeTupleLoop` | internal/source/decoder.go:419-461 | The column loop computes the decoded row and unchanged columns, or refuses, as specified. |
| `Decoder.KeyColumnsLoop` | internal/source/decoder.go:464-473 | Resolved identity columns, or the flagged ones when none were resolved. |
| `Decoder.PrimaryKeyLoop` | internal/source/decoder.go:474-488 | The key columns with their values, or a refusal when one is missing, NULL or there are none. |
| `Decoder.FillLoop` | internal/source/decoder.go:180-188 | The fill loop completes the row from the old image, or refuses. |
| `Decoder.DecodeUpdate` | internal/source/decoder.go:141-209 | One update, or a delete and an insert when the key changed. |
| `Decoder.Decoder.Append` | internal/source/decoder.go:381-407 | Appends a change; memory never exceeds the cap and the spool fills only after it. |
| `Decoder.Decoder.HandleRow` | internal/source/decoder.go:120-227 | An insert, update or delete appends its changes, or is refused, as its specification says. |
| `Decoder.Decoder.HandleCommit` | internal/source/decoder.go:252-278 | The buffered changes, memory first, become the pull, with their number as count. |
| `Decoder.Decoder.HandleTruncate` | internal/source/decoder.go:229-250 | One change for each truncated relation, in order; an undescribed relation is refused. |
| `Decoder.Decoder.Handle` | internal/source/decoder.go:104-284 | The whole message machine: what each message adds, when it is refused, and that nothing can be pulled before Commit; the key of every accepted change has the columns the catalog lists. |
| `Decoder.CatalogDecidesTheKey` | internal/source/decoder.go:463-488 | Whatever columns the relation message flags, the key of every accepted change has the columns the catalog lists, none NULL; the flags count only where it lists none. |
| `Decoder.Decoder.NextEvent` | internal/source/decoder.go:289-342 | Hands out the remaining changes in order, numbered on, each as an event with every field from its change or the commit; one call after the last ends the pull. |
| `Decoder.Decoder.Reset` | internal/source/decoder.go:348-358 | No transaction, pull or relation survives a reconnect. |
| `Decoder.PullAll` | cmd/source-reader/main.go:677-694 | Exactly count calls, none of which fails, yield the events of the transaction. |
| `Decoder.DecodeTransaction` | internal/source/decoder.go:252-342 | For every cap, Begin, changes, Commit and pulls give exactly the appended changes, numbered from 1, then the end. |
| `Translation.CatalogDescribes` | cmd/source-reader/main.go:378-464 | When the catalog lists the destination's primary key for the described tables, a decoder that followed the relation messages has the right key columns for all of them. |
| `Translation.DecodeTells` | internal/source/decoder.go:419-461 | Every decoded column has its true value and every other column is reported unchanged and kept its value. |
| `Translation.FillOnlyRefuses` | internal/source/decoder.go:180-188 | On a key change the fill loop never fills anything: it refuses, or there was nothing unchanged. |
| `Translation.InsertSquare` | internal/source/decoder.go:120-137 | Source insert, message, event and meaning commute. |
| `Translation.DeleteSquare` | internal/source/decoder.go:211-227 | The same for a delete with a full or a key-only old image. |
| `Translation.UpdateSquare` | internal/source/decoder.go:141-209 | The same for an update with any choice of unchanged columns and any old image, key changes included. |
| `Translation.TruncateSquare` | internal/source/decoder.go:229-250 | The same for a truncate of any list of tables. |
| `Translation.StatementSquare` | internal/source/decoder.go:104-250 | For any statement and any admissible message the decoder accepts: the events are acceptable downstream and mean what the statement did. |
| `Translation.TransactionSquare` | internal/source/decoder.go:104-342 | The same for a transaction of any statements. |
| `Acceptance.DecodesExactlyWhen` | internal/source/decoder.go:419-461 | A tuple of any cells is refused exactly when a cell it reads is binary, unknown, or unchanged in a key-only image. |
| `Acceptance.DecodedSays` | internal/source/decoder.go:419-461 | Column by column what a decoded tuple says: NULL, the text, the old image's value for an unchanged column, or that it is unchanged; in a key-only image nothing of the others. |
| `Acceptance.InsertShowsAll` | internal/source/decoder.go:120-137 | An accepted insert shows every column, and its one change has them all. |
| `Acceptance.BeforeIsOldImage` | internal/source/decoder.go:141-227 | The before image of a delete or an update is the old image that was sent, or nothing; two changes are a delete and an insert under another key. |
| `Acceptance.UpdateAcceptedExactlyWhen` | internal/source/decoder.go:141-209 | An admissible update is accepted if and only if no key column is hidden behind an unchanged marker and, when the key changes, no column is. |
| `Acceptance.AcceptedExactlyWhen` | internal/source/decoder.go:104-250 | The decoder accepts an admissible message if and only if it withholds nothing the decoder needs; inserts, deletes and truncates always pass. |
| `Acceptance.ReportedUnchanged` | internal/source/decoder.go:419-461 | The columns reported unchanged are exactly the marked ones the old image says nothing about. |
| `Failures.AcceptablePassesChecks` | internal/destination/applier.go:263-285 | The key checks of the applier never fire on an event the decoder emits. |
| `Failures.FailsExactlyWhen` | internal/destination/applier.go:838-848 | With types and NOT NULL respected, an event fails if and only if it is an update of an absent key that leaves a NOT NULL column unsaid. |
| `Lockstep.LockStep` | internal/destination/applier.go:224-315 | From a destination in step with the source, applying the log succeeds and ends with the source rows. |
| `Lockstep.DecodeThenApply` | internal/source/decoder.go:104-342 | Decode then apply: from a destination equal to the source before, the transaction applies without failure and gives the source after, if no table is truncated twice in it; each row it concerns is gone or carries its commit LSN and commit time, and no other row changes. |
| `DeadLetters.RecordDeadLetter` | internal/destination/applier.go:570-614 | Marker and record together; recording again only changes the reason. |
| `DeadLetters.ReplayDeadLetter` | internal/destination/deadletter.go:164-194 | Rewind, apply, then close or record again; no record is an error that changes nothing. |
| `DeadLetters.DropDeadLetter` | internal/destination/deadletter.go:199-218 | Removes record and marker in one transaction. |
| `DeadLetters.RecordingTouchesOne` | internal/destination/applier.go:570-614 | Recording sets one record and one marker; an existing marker stays, an existing record keeps what it says of its event, and rows, watermarks and all other records and markers stay. |
| `DeadLetters.DropTouchesOne` | internal/destination/deadletter.go:199-218 | Dropping removes one record and its marker; every other record and marker, the rows and the watermarks stay. |
| `DeadLetters.LetterKeepsEvent` | internal/destination/deadletter.go:34-53 | A record rebuilds the event with its images, key, unchanged columns, LSN and commit time. |
| `DeadLetters.LetterIsFaithful` | internal/destination/deadletter.go:34-53 | Recording a version-1 event and rebuilding it gives the same apply result on every database. |
| `DeadLetters.FailedReplayKeepsQuarantine` | internal/destination/deadletter.go:176-184 | A failed replay leaves rows, watermarks, marked ids and the record, but for its reason, as they were. |
| `DeadLetters.SuccessfulReplayCloses` | internal/destination/deadletter.go:185-193 | A successful replay is the event itself; its marker stays and the record goes. |
| `DeadLetters.CallsKeepQuarantine` | internal/destination/deadletter.go:159-218 | Over any sequence of completed apply, record, replay and drop calls every record has its marker. |
| `DeadLetters.InterruptedReplay` | internal/destination/deadletter.go:171-176 | Counterexample: stopped after the rewind, a record has no marker. |
| `DeadLetters.RedeliveredBesideRecord` | internal/destination/deadletter.go:171-176 | After such a stop a redelivery applies the event beside its record, if and only if it does not lack the row it needs. |
| `DeadLetters.DropForgets` | internal/destination/deadletter.go:196-212 | A dropped event is applied again when it is redelivered, as if never seen. |
| `DeadLetters.OldLetterResurrectsExactlyWhen` | internal/destination/deadletter.go:176-194 | Replaying a record brings an absent row back if and only if the event writes a row and says every NOT NULL column of it; no watermark is consulted. |
| `Witness.OldLetterResurrects` | internal/destination/deadletter.go:176-194 | Input: quarantine an insert, truncate its table later, replay the record; the row is back and the source does not have it. |
| `Reader.StepKeeps` | cmd/source-reader/main.go:533-909 | Every step of reader, publisher, slot and crash keeps the invariant of log, acknowledgements and resume position. |
| `Reader.QueuedIsAccepted` | cmd/source-reader/main.go:835-846 | An outstanding acknowledgement is never behind the durable LSN. |
| `Reader.DurableIsInKafka` | cmd/source-reader/main.go:807-909 | Every LSN that is durable, was sent in a standby status or was persisted covers only transactions whose events are all in Kafka, in order. |
| `Reader.AcknowledgementsComeInOrder` | cmd/source-reader/main.go:839-845 | The out of source order branch is unreachable, and no result taken at the top of the loop is a failure. |
| `Reader.DurableNeverFalls` | cmd/source-reader/main.go:835-846 | While the process lives the durable LSN never falls, and every status it sends meanwhile lies between its old and its new value. |
| `Reader.KafkaLogIsGapFree` | cmd/source-reader/main.go:741-759 | Whenever a transaction has a record, all events of every earlier transaction are before it. |
| `Reader.MatchedInOrder` | cmd/source-reader/main.go:877-907 | What counts as matched sits at rising positions of the log, one for each sequence. |
| `Reader.StatusAcknowledgesAll` | cmd/source-reader/main.go:1058-1067 | With nothing outstanding, a standby status reaches the end of the last transaction handed over; the slot can persist it unless it has more, and a restart from there hands none of them over again. |
| `Reader.HealthLasts` | cmd/source-reader/main.go:700-759 | Only a failed produce or a crash ends a life that is healthy: reconnects and late acknowledgements do not. |
| `Reader.NothingSkippedOrRepeated` | cmd/source-reader/main.go:677-732 | While nothing fails, records published and records still to be published make up the same sequence: each event once, in order. |
| `Reader.DeliversAll` | cmd/source-reader/main.go:533-909 | From a healthy state the steps without failure end with every transaction in Kafka, each record once more, and the slot at the end of the WAL. |
| `Reader.CatchesUp` | cmd/source-reader/main.go:533-909 | From any state of any run, a reader whose publisher is gone being stopped, a path without failures publishes every transaction and persists the end. |
| `Reader.FailedPublishIsFinal` | cmd/source-reader/main.go:864-909 | After a failed publish nothing more reaches Kafka or becomes durable until the process stops. |
| `Reader.FailedProduceAbandons` | cmd/source-reader/main.go:877-909 | A produce that fails reports it and leaves the publisher gone. |
| `Reader.FailureIsSeen` | cmd/source-reader/main.go:700-732 | A failed publish stops the reader, unless it is seen while the last event or the descriptor is handed over. |
| `Reader.HandingToNobody` | cmd/source-reader/main.go:700-732 | Then the reader hands over to a publisher that is gone, and only a crash gets it further. |
| `Reader.CrashTearsDelivery` | cmd/source-reader/main.go:864-909 | A run in which a crash after the first event of a transaction leaves it twice in the log. |
| `Writer.Consumer.HandleEvent` | cmd/destination-writer/main.go:239-304 | A record opens, extends or closes the group, or is refused; a closed group is applied whole or healed around the reported event, and only then the offset moves. |
| `Writer.Consumer.CloseGroup` | cmd/destination-writer/main.go:309-337 | The destination first, the offset second; a failure leaves the offset behind. |
| `Writer.Consumer.CommitDestinationTransaction` | cmd/destination-writer/main.go:350-400 | The batch commits whole; otherwise nothing of it survives and the poison path runs on the old database. |
| `Writer.Consumer.ReplayHealthyEvents` | cmd/destination-writer/main.go:405-438 | Each healthy event in its own transaction, permanent failures quarantined, the first other failure stops. |
| `Writer.NotOnlyPermanentFailuresAreQuarantined` | cmd/destination-writer/main.go:365-388 | Input: a missing table is not a permanent failure, and the event is dead-lettered all the same. |
| `Quarantine.QuarantinedExactlyWhen` | cmd/destination-writer/main.go:365-481 | A poisoned group dead-letters exactly the events that fail in their place; those failures are permanent, but for the reported one if and only if Validate rejects it or its table is missing. |
| `Quarantine.FailureIsPermanentExactlyWhen` | internal/destination/applier.go:200-315 | Whether a failure is permanent depends on the event and the catalog alone. |
| `Quarantine.HealedGroupIsCarried` | cmd/destination-writer/main.go:402-481 | Healed to its end, a poisoned group leaves exactly the database of its events applied or quarantined one by one in their order. |
| `Quarantine.CarriedAgain` | cmd/destination-writer/main.go:405-438 | Delivering any stretch of it again changes nothing, dead letters and misshapen events included. |
| `Quarantine.BrokenHealingIsMendedExactlyWhen` | cmd/destination-writer/main.go:402-438 | A healing that a crash or a transient error stops is mended by the next delivery of its group if and only if it had not gone past the poison, or what it left does not hold the row whose absence made the poison fail. |
| `Quarantine.NewTransactionIsMendedExactlyWhen` | cmd/destination-writer/main.go:402-438 | On the first delivery the events alone decide: it is mended if and only if the events healed after the poison do not bring its row back. |
| `Witness.BrokenHealingReorders` | cmd/destination-writer/main.go:402-438 | Input: a transaction that updates, deletes and inserts a row, stopped after the insert; the next delivery applies the update last and is not mended. |
| `WriterRuns.GroupsAreWhole` | cmd/destination-writer/main.go:250-303 | Over any Kafka log whatever: a group that closes is exactly the records since the committed offset, one transaction id, numbered 1 to count; the offset is the end of a complete delivery. |
| `WriterRuns.RefusedExactlyWhen` | cmd/destination-writer/main.go:250-285 | A poll refuses its record if and only if the records since the offset, it included, are not one transaction numbered from 1; otherwise the group is exactly these records, and it closes with the last one of the count. |
| `WriterRuns.DeliveryCloses` | cmd/destination-writer/main.go:250-303 | At the start of a complete delivery the writer reads all of it, refuses none, and the last record closes a group that is the delivery. |
| `WriterRuns.DeliveryIsApplied` | cmd/destination-writer/main.go:309-337 | When its batch applies, the writer then commits exactly the fold and moves the offset past it. |
| `WriterRuns.DeliveryIsHealed` | cmd/destination-writer/main.go:350-481 | When it fails and the healing goes through, the writer ends with the healed database and the offset past it. |
| `WriterRuns.HealingGoesOn` | cmd/destination-writer/main.go:405-438 | A healing step that applies its event, or fails for reasons of its own and dead-letters it, goes on to the next event. |
| `WriterRuns.BlockedForEver` | cmd/destination-writer/main.go:250-285 | Where the records since the offset stop being one transaction before a delivery is complete, no crash, restart or later record gets the offset any further. |
| `WriterRuns.RunStaysIntact` | cmd/destination-writer/main.go:239-504 | In every state of every run, healing and dead letters included, no row is stored that the column types, NOT NULL or the primary key forbid. |
| `WriterRuns.EveryEventIsAccountedFor` | cmd/destination-writer/main.go:350-481 | Below the committed offset every event is marked, and unless known before, was committed once or has a dead letter, never both; whatever made a batch or a healing step fail. |
| `WriterRuns.NothingIsAppliedTwice` | cmd/destination-writer/main.go:402-438 | No change is committed twice over any run with crashes between any two commits. |
| `WriterRuns.PoisonWasNotMutated` | cmd/destination-writer/main.go:443-481 | An event a failed batch reports, whatever made it fail, was never committed as a change. |
| `WriterRuns.RedeliveryIsNoOp` | cmd/destination-writer/main.go:292-295 | In every state of every run, feeding any stretch of the log below the offset again is a no-op on the whole database, if and only if its events are well shaped. |
| `WriterRuns.StepAccounted` | cmd/destination-writer/main.go:239-504 | Every step of the writer keeps the accounting. |
| `Transactions.PrefixMirrors` | internal/destination/applier.go:383-537 | Every whole-transaction prefix applies without failure and leaves exactly the source rows after it. |
| `Transactions.DecodedIsSourced` | internal/source/decoder.go:104-342 | Transactions decoded from admissible messages for the statements the source ran form the log the end-to-end results speak of. |
| `Pipeline.DeliveryIsTransaction` | cmd/destination-writer/main.go:250-303 | A complete delivery in the log the reader produced is one source transaction, whole. |
| `Pipeline.RunIsAccounted` | cmd/destination-writer/main.go:239-505 | Every run of reader, publisher and writer together keeps the accounting, for records produced, lost and produced again by the reader. |
| `Pipeline.TransactionIsAccountedFor` | cmd/destination-writer/main.go:350-505 | End to end with poison: once the offset has passed all events of a source transaction, each is marked and was applied once or has a dead letter, never both. |
| `Pipeline.EarlierAreAccountedFor` | cmd/source-reader/main.go:741-759 | The same for every transaction before one that has a record at or below the offset. |
| `Pipeline.OpenGroupIsIncomplete` | cmd/destination-writer/main.go:511-534 | On the log the reader produced, a group open at a poll still misses events, so shutdown never commits one. |
| `Pipeline.DeliveredExactlyWhen` | cmd/destination-writer/main.go:250-303 | The writer finds a complete delivery at its offset if and only if the log holds the whole transaction there, each event once and in order. |
| `Pipeline.TornDeliveryBlocks` | cmd/destination-writer/main.go:250-285 | A transaction that a crash of the reader left torn at the offset stops the writer for good, whatever runs, restarts or is published later. |
| `Consistency.OldTransactionIsSkipped` | cmd/destination-writer/main.go:292-295 | A transaction delivered again is a no-op, quarantined events included. |
| `Consistency.PrefixIsCarried` | cmd/destination-writer/main.go:239-505 | Prefix consistency with poison, over any events: when a group has just been closed, and outside of a healing always where none breaks, the database is that of a whole number of source transactions, each event applied or quarantined in its place; it marks exactly those, and dead-letters exactly those that fail in their place. In between it may hold what a broken healing left of the next transaction, which the next delivery completes. |
| `Consistency.MendsExactlyWhen` | cmd/destination-writer/main.go:402-438 | In any run over events that are in order, a healing that breaks is mended if and only if it had not gone past the poison or the row the poison lacks is still absent. |
| `Consistency.SoundPrefixIsCarried` | cmd/destination-writer/main.go:239-505 | Prefix consistency with poison for events that are in order, where healings break only before their poison or while the row it lacks is absent. |
| `Consistency.PrefixConsistency` | cmd/destination-writer/main.go:239-505 | Over every interleaving of reader, publisher and writer with crashes, reconnects and failed produces, without poison: the database is the fold of a whole-transaction prefix, the markers are its ids, and the offset covers only its records. |
| `Consistency.DestinationIsASourcePrefix` | cmd/source-reader/main.go:533-909 | The destination rows are the source rows after a whole number of transactions that never goes down. |
| `CatchUp.SnapshotDestinationCatchesUp` | internal/destination/snapshot.go:126-197 | From an actual snapshot, and with poison: once the applied prefix has reached what the snapshot shows, the rows are the source rows after that prefix, whenever a group has just been closed, and outside of a healing always where none breaks; a healing may break before its poison, and after it while the row the poison lacks is absent. |
| `CatchUp.SnapshotIsPoisonFreeExactlyWhen` | internal/destination/snapshot.go:126-197 | Such a start meets no poison at all if and only if the snapshot shows every row that an update needs first. |
| `CatchUp.SnapshotWithoutPoisonCatchesUp` | internal/destination/snapshot.go:126-197 | Then the same holds wherever a run crashes, and no dead letter is written. |
| `Progress.EverythingArrives` | cmd/destination-writer/main.go:239-505 | From any start there is a run without failures that publishes every transaction once, lets the slot persist the end, moves the writer to the end of the log and leaves the source's rows at the destination. |
| `Witness.InsertionArrives` | cmd/source-reader/main.go:378-388 | Input: an insert into a table whose whole row is its replica identity; keyed by the listed primary key, it is decoded, published, consumed and becomes the row of the destination. |

## Left out

- Applier.ApplyBatch: does not model failures of the connection itself, because they end the writer like a crash, which the runs contain.
- Applier.ApplyEventInTx: does not model LSN texts that do not parse, because LSNs are numbers here and their text form is the subject of EventIds.
- Snapshot.SelectColumns: takes the catalog answers as given, because the catalog queries are constants.
- Writer.Consumer.CommitDestinationTransaction: does not model the schema repair of an added column, because it changes the catalog.
- Decoder.Decoder.Append: does not model the JSON lines of the spool file and their deletion, because the content is what NextEvent depends on.
- Reader.DurableIsInKafka: states occurrence in order, not contiguous delivery, because a failed produce may have appended its record.
- Writer.Consumer.ReplayHealthyEvents: fails only as the database decides, because failures of other kinds are steps of WriterRuns.
- Consistency.PrefixConsistency: assumes no poison event; with poison the result is Consistency.PrefixIsCarried.
- Consistency.PrefixIsCarried: assumes that the database decides what fails and that a healing breaks only where it mends, because otherwise an event can be quarantined that could apply, or applied out of its order (Witness.BrokenHealingReorders); the accounting of Pipeline.TransactionIsAccountedFor holds for every run.
- CatchUp.SnapshotDestinationCatchesUp: assumes the same, because a healthy event quarantined after a lock or a timeout is missing from the rows until it is replayed.
- The reader and its publisher are values and steps, not objects: their fields change at the same points, but aliasing and the Go scheduler are not modelled.
- Extra UNIQUE constraints, column defaults other than NULL, triggers, and normalisation of texts by column types.
- Column-type cache, enum creation, schema repair statements, the catalog queries.
- Kafka and PostgreSQL clients, encryption, metrics, observer, logging, retry and error classification, lag helpers, the advisory-lock fence, command-line parsing.
- The Kafka record key, which is not injective and is not used for ordering with one partition.
- JSON and Unicode encoding of events, spool lines and dead letters; the columns replicated_at, applied_at and occurred_at.
