/**
  Concrete inputs: a hand-over that meets poison, an old dead letter whose replay brings back
  a truncated row, a healing that a stop leaves out of order, and an insert that arrives.
*/
module Witness {
  import opened Wrappers
  import opened Cdc
  import opened Destination
  import opened Convergence
  import opened DeadLetters
  import opened Failures
  import opened Healing
  import opened Snapshot
  import opened Handover
  import opened Quarantine
  import opened Writer
  import opened Applier
  import opened Pgoutput
  import opened Decoder
  import opened Translation
  import opened Transactions
  import Lockstep
  import Pipeline
  import Progress
  import Reader
  import WriterRuns

  const NAME := TableName("public", "t")

  /** `CREATE TABLE t (id PRIMARY KEY, a, b NOT NULL)`, of a type that takes every text. */
  const DEF := TableDef({"id", "a", "b"}, {"id"}, {"b"}, (c: string, t: string) => true)

  const CATALOG: Catalog := map[NAME := DEF]

  const KEY: Row := map["id" := Text("1")]

  const ROW: Row := map["id" := Text("1"), "a" := Text("x"), "b" := Text("y")]

  const EMPTY := Db(map[], map[], map[], map[])

  /** Commits `operation` on the row at LSN `l`. */
  function RowChange(id: string, operation: Operation, after: Row, l: Lsn, kept: seq<string>): Event {
    Event(EVENT_VERSION, id, "public", "t", operation, KEY, map[], after, SourceMetadata(l, l, l + 1, 0, 1, 1), kept)
  }

  const INSERT := RowChange("1", Operation.Insert, ROW, 10, [])
  const UPDATE := RowChange("2", Operation.Update, map["id" := Text("1"), "a" := Text("z")], 20, ["b"])
  const DELETE := RowChange("3", Operation.Delete, map[], 30, [])
  const TRUNCATE := RowChange("4", Operation.Truncate, map[], 40, [])

  lemma {:induction false} NamesAreGood()
    ensures IsIdent("public") && IsIdent("t") && IsIdent("id") && IsIdent("a") && IsIdent("b")
    ensures RESERVED !! DEF.columns
  {
    assert "id"[0] != "source_lsn"[0] && "a"[0] != "source_lsn"[0] && "b"[0] != "source_lsn"[0];
    assert |"id"| == 2 && |"a"| == 1 && |"b"| == 1;
    assert |SOURCE_LSN| == 10 && |SOURCE_COMMIT_TIME| == 18 && |REPLICATED_AT| == 13;
  }

  lemma {:induction false} KeyIsGood()
    ensures KEY.Keys == DEF.key && KEY["id"] != Null && Transcodable(KEY) && FitRow(DEF, KEY) && FitRow(DEF, map[])
  {
    NamesAreGood();
    assert "id" in KEY;
  }

  lemma {:induction false} InsertIsGood()
    ensures Acceptable(CATALOG, INSERT) && Fit(CATALOG, INSERT)
  {
    NamesAreGood();
    KeyIsGood();
    assert ROW.Keys == DEF.columns && Columns(INSERT) == {};
    assert "id" in ROW && Restrict(ROW, DEF.key) == KEY;
  }

  lemma {:induction false} UpdateIsGood()
    ensures Acceptable(CATALOG, UPDATE) && Fit(CATALOG, UPDATE) && NeedsRow(DEF, UPDATE)
  {
    NamesAreGood();
    KeyIsGood();
    assert UPDATE.after.Keys == {"id", "a"} && Columns(UPDATE) == {"b"};
    assert "id" in UPDATE.after && Restrict(UPDATE.after, DEF.key) == KEY;
    assert UPDATE.unchangedColumns[0] == "b";
  }

  lemma {:induction false} OthersAreGood()
    ensures Acceptable(CATALOG, DELETE) && Fit(CATALOG, DELETE)
    ensures Acceptable(CATALOG, TRUNCATE) && Fit(CATALOG, TRUNCATE)
  {
    NamesAreGood();
    KeyIsGood();
  }

  // ---- a hand-over that meets poison ------------------------------------------------------------

  const BEFORE: Source := map[NAME := map[KEY := ROW]]
  const LOG := [UPDATE, DELETE]
  const HISTORY := [BEFORE, Meaning(BEFORE, UPDATE), Meaning(Meaning(BEFORE, UPDATE), DELETE)]

  /** The snapshot is taken after the row is gone. */
  const VIEW := SourceView(map[NAME := DEF.columns], map[NAME := []])

  lemma {:induction false} BeforeIsGood()
    ensures SourceOk(CATALOG, BEFORE) && SourceFit(CATALOG, BEFORE)
  {
    assert ROW.Keys == DEF.columns;
    assert FitRow(DEF, ROW);
  }

  lemma {:induction false} LogIsOrdered()
    ensures Ordered(LOG) && DistinctIds(LOG) && TruncatesApart(LOG)
  {
    assert UPDATE.id[0] != DELETE.id[0];
  }

  lemma {:induction false} LogIsHistory()
    ensures History(LOG, HISTORY)
  {
    assert LOG[0] == UPDATE && LOG[1] == DELETE;
  }

  lemma {:induction false} LogIsGenuine()
    ensures Genuine(CATALOG, LOG, HISTORY) && AllFit(CATALOG, LOG)
  {
    UpdateIsGood();
    OthersAreGood();
    assert KEY in SourceRows(BEFORE, NAME);
    assert Name(UPDATE) == NAME && UPDATE.key == KEY;
  }

  lemma {:induction false} WitnessLog()
    ensures LogOk(CATALOG, LOG, HISTORY) && SourceFit(CATALOG, HISTORY[0]) && AllFit(CATALOG, LOG)
  {
    BeforeIsGood();
    LogIsOrdered();
    LogIsHistory();
    LogIsGenuine();
    assert CatalogOk(CATALOG) by {
      assert "id" in DEF.key;
    }
  }

  lemma {:induction false} WitnessSnapshot()
    ensures Taken(CATALOG, LOG, HISTORY, 0, 2, VIEW, [NAME], 31)
    ensures CopyTables(CATALOG, EMPTY, VIEW, [NAME], 31, 0, 0) == Ok(EMPTY)
  {
    NamesAreGood();
    assert SourceRows(HISTORY[2], NAME) == map[];
    SelectedIsAll(DEF, DEF.columns);
    assert CopyTable(CATALOG, EMPTY, VIEW, NAME, 31, 0) == Ok(EMPTY);
  }

  /**
    A genuine log and a snapshot of it whose replay fails: the update, replayed first, says
    nothing of `b`, and the snapshot came after the delete. Healed, the replay converges.
  */
  lemma {:induction false} HandoverMeetsPoison()
    ensures LogOk(CATALOG, LOG, HISTORY) && SourceFit(CATALOG, HISTORY[0]) && AllFit(CATALOG, LOG)
    ensures Taken(CATALOG, LOG, HISTORY, 0, 2, VIEW, [NAME], 31)
    ensures CopyTables(CATALOG, EMPTY, VIEW, [NAME], 31, 0, 0) == Ok(EMPTY)
    ensures ApplyAll(CATALOG, EMPTY, LOG[0..]).Err?
    ensures Mirrors(CATALOG, Carried(CATALOG, EMPTY, LOG[0..]), HISTORY[2])
  {
    WitnessLog();
    WitnessSnapshot();
    UpdateIsGood();
    SnapshotThenReplay(CATALOG, LOG, HISTORY, 0, 2, EMPTY, VIEW, [NAME], 31, 0, EMPTY);
    assert Name(UPDATE) == NAME && FirstNeeds(CATALOG, LOG, 0, 0);
    assert SourceEntry(HISTORY[2], NAME, KEY).None?;
  }

  // ---- an old dead letter -----------------------------------------------------------------------

  /** The insert is quarantined, its table truncated later, and the record replayed: the row is back. */
  const CALLS := [Record(INSERT, REASON), Apply(TRUNCATE), Call.Replay("1")]

  const CLEARED := Db(map[NAME := map[]], map["1" := 10, "4" := 40], map[NAME := 40],
    map["1" := LetterOf(INSERT, REASON)])

  lemma {:induction false} RecordedThenTruncated()
    ensures AfterCalls(CATALOG, EMPTY, CALLS[..2]) == CLEARED
  {
    OthersAreGood();
    assert INSERT.id[0] != TRUNCATE.id[0];
    assert CALLS[..1][..0] == [] && CALLS[..2][..1] == CALLS[..1];
    var recorded := Recorded(EMPTY, INSERT, REASON);
    assert AfterCalls(CATALOG, EMPTY, CALLS[..1]) == recorded;
    assert recorded == Db(map[], map["1" := 10], map[], map["1" := LetterOf(INSERT, REASON)]);
    assert ApplyInTx(CATALOG, recorded, TRUNCATE) == Ok(CLEARED);
  }

  lemma {:induction false} LetterIsGood()
    ensures var e := EventOfLetter(LetterOf(INSERT, REASON));
            Acceptable(CATALOG, e) && Fit(CATALOG, e) && Name(e) == NAME && !NeedsRow(DEF, e)
  {
    InsertIsGood();
  }

  lemma {:induction false} ClearedIsGood()
    ensures CatalogOk(CATALOG) && DbOk(CATALOG, CLEARED) && DbFit(CATALOG, CLEARED) && Quarantined(CLEARED)
  {
    assert "id" in DEF.key;
  }

  lemma {:induction false} ReplayBringsBack()
    ensures KEY in Rows(Replayed(CATALOG, CLEARED, "1"), NAME)
  {
    ClearedIsGood();
    LetterIsGood();
    OldLetterResurrectsExactlyWhen(CATALOG, CLEARED, "1");
  }

  lemma {:induction false} RunIsReplay()
    ensures AfterCalls(CATALOG, EMPTY, CALLS) == Replayed(CATALOG, CLEARED, "1")
  {
    RecordedThenTruncated();
    assert CALLS == CALLS[..2] + [Call.Replay("1")];
  }

  /** The row is back although the watermark is past it, and the source does not have it. */
  lemma {:induction false} OldLetterResurrects()
    ensures AfterCalls(CATALOG, EMPTY, CALLS[..2]) == CLEARED && INSERT.source.commitLsn < Watermark(CLEARED, NAME)
    ensures KEY in Rows(AfterCalls(CATALOG, EMPTY, CALLS), NAME)
    ensures KEY !in SourceRows(Run(map[], [INSERT, TRUNCATE]), NAME)
  {
    RecordedThenTruncated();
    RunIsReplay();
    ReplayBringsBack();
    assert [INSERT, TRUNCATE][..1] == [INSERT];
  }

  // ---- a broken healing -------------------------------------------------------------------------

  const DELETED := RowChange("5", Operation.Delete, map[], 20, [])
  const INSERTED := RowChange("6", Operation.Insert, ROW, 20, [])

  /** One transaction: the row is updated, deleted and inserted again. */
  const GROUP := [UPDATE, DELETED, INSERTED]

  lemma {:induction false} GroupIsGood()
    ensures DistinctIds(GROUP)
    ensures Acceptable(CATALOG, DELETED) && Fit(CATALOG, DELETED) && Acceptable(CATALOG, INSERTED) &&
            Fit(CATALOG, INSERTED)
  {
    InsertIsGood();
    OthersAreGood();
    assert UPDATE.id[0] != DELETED.id[0] && UPDATE.id[0] != INSERTED.id[0] && DELETED.id[0] != INSERTED.id[0];
    assert Columns(INSERTED) == {};
  }

  /** An event of the group that applies leaves a database that is in order. */
  lemma {:induction false} GoesThrough(d: Db, e: Event) returns (after: Db)
    requires DbOk(CATALOG, d) && EntriesFit(CATALOG, d) && Acceptable(CATALOG, e) && Fit(CATALOG, e)
    requires e.id !in d.markers && !e.operation.Truncate? && !(NeedsRow(DEF, e) && e.key !in Rows(d, NAME)) &&
             Name(e) == NAME
    ensures ApplyInTx(CATALOG, d, e) == Ok(after) && DbOk(CATALOG, after) && EntriesFit(CATALOG, after)
    ensures Entry(after, NAME, e.key) == EntryStep(DEF, Entry(d, NAME, e.key), e, NAME, e.key)
    ensures after.markers == d.markers[e.id := e.source.commitLsn]
  {
    assert CatalogOk(CATALOG) by {
      assert "id" in DEF.key;
    }
    EntriesFitDb(CATALOG, d);
    FailsExactlyWhen(CATALOG, d, e);
    after := ApplyInTx(CATALOG, d, e).value;
    ApplyOnEntries(CATALOG, d, e);
    AppliedFits(CATALOG, d, e);
    ApplyMarks(CATALOG, d, e);
  }

  lemma {:induction false} UpdateFailsOnEmpty()
    ensures Reports(CATALOG, EMPTY, GROUP, BatchError(0, UPDATE))
  {
    UpdateIsGood();
    ClearedIsGood();
    FailsExactlyWhen(CATALOG, EMPTY, UPDATE);
    assert GROUP[..0] == [] && GROUP[..1] == [UPDATE];
    ApplyOne(CATALOG, EMPTY, UPDATE);
  }

  lemma {:induction false} DeleteHeals() returns (d: Db)
    ensures ApplyInTx(CATALOG, EMPTY, DELETED) == Ok(d) && DbOk(CATALOG, d) && EntriesFit(CATALOG, d)
    ensures d.markers == map["5" := 20]
  {
    GroupIsGood();
    d := GoesThrough(EMPTY, DELETED);
  }

  lemma {:induction false} InsertHeals(d: Db) returns (h: Db)
    requires DbOk(CATALOG, d) && EntriesFit(CATALOG, d) && d.markers == map["5" := 20]
    ensures ApplyInTx(CATALOG, d, INSERTED) == Ok(h) && DbOk(CATALOG, h) && EntriesFit(CATALOG, h)
    ensures h.markers == map["5" := 20, "6" := 20] && KEY in Rows(h, NAME)
  {
    GroupIsGood();
    assert "5"[0] != "6"[0];
    h := GoesThrough(d, INSERTED);
    assert Entry(h, NAME, KEY).Some?;
  }

  /** Healing passes the update over and applies the delete and the insert. */
  lemma {:induction false} HealedPastUpdate(d: Db, h: Db)
    requires ApplyInTx(CATALOG, EMPTY, DELETED) == Ok(d) && ApplyInTx(CATALOG, d, INSERTED) == Ok(h)
    ensures HealUpTo(CATALOG, EMPTY, GROUP, UPDATE.id, 3) == Healed(h, true)
  {
    assert UPDATE.id[0] != DELETED.id[0] && UPDATE.id[0] != INSERTED.id[0];
    assert HealUpTo(CATALOG, EMPTY, GROUP, UPDATE.id, 1) == Healed(EMPTY, true);
    assert HealUpTo(CATALOG, EMPTY, GROUP, UPDATE.id, 2) == Healed(d, true);
  }

  lemma {:induction false} GroupIsSound()
    ensures CatalogOk(CATALOG) && Sound(CATALOG, EMPTY) && AllSound(CATALOG, GROUP) && Quarantined(EMPTY)
  {
    GroupIsGood();
    UpdateIsGood();
    ClearedIsGood();
    assert GROUP[0] == UPDATE && GROUP[1] == DELETED && GROUP[2] == INSERTED;
  }

  /** Stopped there, the next delivery applies the update after the insert, and does not mend it. */
  lemma {:induction false} BrokenHealingReorders() returns (h: Db)
    ensures HealUpTo(CATALOG, EMPTY, GROUP, UPDATE.id, 3) == Healed(h, true)
    ensures Reports(CATALOG, EMPTY, GROUP, BatchError(0, UPDATE))
    ensures Carried(CATALOG, h, GROUP) != Carried(CATALOG, EMPTY, GROUP)
  {
    GroupIsGood();
    GroupIsSound();
    UpdateFailsOnEmpty();
    var d := DeleteHeals();
    h := InsertHeals(d);
    HealedPastUpdate(d, h);
    BrokenHealingIsMendedExactlyWhen(CATALOG, EMPTY, GROUP, 0, 3);
  }

  // ---- a transaction that arrives ---------------------------------------------------------------

  /** REPLICA IDENTITY FULL: the relation message flags every column. */
  const RELATION := Relation(1, "public", "t", [Column("id", true), Column("a", true), Column("b", true)])

  const MESSAGE := Message.Insert(1, Some([TextCell("1"), TextCell("x"), TextCell("y")]))

  const RELATIONS: map<nat, Relation> := map[1 := RELATION]

  const LISTED: seq<string> := ["id"]

  /** What the source catalog lists: the primary key. */
  const IDENTITY: map<string, seq<string>> := map["public.t" := LISTED]

  const KEYS: map<nat, seq<string>> := map[1 := LISTED]

  const INSERTION := Change("public", "t", Operation.Insert, KEY, map[], ROW, [])

  const TX := Tx(Committed(7, 10, 11, 5, 1), [INSERTION])

  const AFTERWARDS: Source := map[NAME := map[KEY := ROW]]

  /** A new slot, an empty log and an empty destination. */
  const START := Pipeline.State(Reader.State([], 0, {}, Reader.Down),
    WriterRuns.State([], EMPTY, 0, WriterRuns.Down, multiset{}), 0, EMPTY)

  lemma {:induction false} RelationIsKnown()
    ensures Identified(Some(IDENTITY), RELATIONS, KEYS) && Agreed(CATALOG, IDENTITY, RELATIONS)
  {
    NamesAreGood();
    assert "public" + ['.'] + "t" == "public.t" && "public" + "." + "t" == "public.t";
    assert RELATION.columns[0].name == "id" && RELATION.columns[1].name == "a" && RELATION.columns[2].name == "b";
    assert |"id"| == 2 && |"a"| == 1 && "a"[0] != "b"[0];
    assert Translation.Names(RELATION, 3) == {"id", "a", "b"};
    assert LISTED[0] == "id" && (set c | c in LISTED) == {"id"};
  }

  lemma {:induction false} MessageDecodes()
    ensures Changes(RELATIONS, KEYS, MESSAGE) == Some([INSERTION])
  {
    var tuple := MESSAGE.tuple.value;
    assert |"id"| == 2 && |"a"| == 1 && "a"[0] != "b"[0];
    assert DecodeUpTo(RELATION, tuple, false, map[], 1) == Some((map["id" := Text("1")], []));
    assert DecodeUpTo(RELATION, tuple, false, map[], 2) == Some((map["id" := Text("1"), "a" := Text("x")], []));
    assert DecodeUpTo(RELATION, tuple, false, map[], 3) == Some((ROW, []));
    assert LISTED[0] == "id" && (set c | c in LISTED) == {"id"};
    assert Restrict(ROW, {"id"}) == KEY;
    assert PrimaryKey(LISTED, ROW) == Some(KEY);
  }

  /** The statement behind it, and the message the source sends for it. */
  lemma {:induction false} InsertionIsSent()
    ensures DecodedFrom(CATALOG, RELATIONS, KEYS, [InsertOne(RELATION, ROW)], [MESSAGE], TX, map[], AFTERWARDS)
  {
    var stmt, row := InsertOne(RELATION, ROW), ROW;
    MessageDecodes();
    assert ROW.Keys == DEF.columns && FitRow(DEF, ROW);
    assert "id" in ROW && KeyOf(CATALOG, RELATION, ROW) == KEY;
    assert Legal(CATALOG, map[], stmt) && Execute(CATALOG, map[], stmt) == AFTERWARDS;
    assert ExecuteAll(CATALOG, map[], [stmt], 0) == Some(map[]);
    assert ExecuteAll(CATALOG, map[], [stmt], 1) == Some(AFTERWARDS);
    assert AllChanges(RELATIONS, KEYS, [MESSAGE], 0) == Some([]);
    var none: seq<Change> := [];
    assert none + [INSERTION] == TX.changes;
    assert [MESSAGE][0] == MESSAGE && AllChanges(RELATIONS, KEYS, [MESSAGE], 1) == Some(none + [INSERTION]);
    assert ShowsRow(RELATION, MESSAGE.tuple.value, ROW);
  }

  lemma {:induction false} InsertionIsSourced()
    ensures Sourced(CATALOG, [TX], [map[], AFTERWARDS])
  {
    RelationIsKnown();
    InsertionIsSent();
    assert CatalogOk(CATALOG) by {
      assert "id" in DEF.key;
    }
    var txs, srcs := [TX], [map[], AFTERWARDS];
    assert txs[0] == TX && srcs[0] == map[] && srcs[1] == AFTERWARDS;
    assert Lockstep.TruncatesOnce(TX.changes);
    DecodedIsSourced(CATALOG, IDENTITY, RELATIONS, KEYS, [[InsertOne(RELATION, ROW)]], [[MESSAGE]], txs, srcs);
  }

  lemma {:induction false} StartIsUntouched()
    ensures TxsOk([TX]) && Untouched(CATALOG, [TX], map[], EMPTY)
  {
  }

  /**
    An insert into a table whose whole row is its replica identity: decoded by the listed key,
    published, consumed and applied, it is the row of the destination.
  */
  lemma {:induction false} InsertionArrives() returns (states: seq<Pipeline.State>, steps: seq<Pipeline.Step>)
    ensures Pipeline.Run(CATALOG, [TX], EMPTY, states, steps) && states[0] == START
    ensures Mirrors(CATALOG, states[|steps|].writer.db, AFTERWARDS)
    ensures Entry(states[|steps|].writer.db, NAME, KEY).Some?
    ensures Entry(states[|steps|].writer.db, NAME, KEY).value.cols == ROW
  {
    StartIsUntouched();
    InsertionIsSourced();
    states, steps := Progress.EverythingArrives(CATALOG, [TX], [map[], AFTERWARDS], EMPTY, START);
    assert SourceEntry(AFTERWARDS, NAME, KEY) == Some(ROW);
  }
}
