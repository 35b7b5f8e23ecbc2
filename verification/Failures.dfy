/**
  When an acceptable event can fail at all.
*/
module Failures {
  import opened Wrappers
  import opened Cdc
  import opened Destination
  import opened Convergence

  predicate TableFit(def: TableDef, t: Table) {
    forall k | k in t :: FitRow(def, t[k].cols)
  }

  predicate DbFit(cat: Catalog, db: Db) {
    forall n | n in cat :: TableFit(cat[n], Rows(db, n))
  }

  /** An update that leaves a NOT NULL column unsaid. */
  predicate NeedsRow(def: TableDef, e: Event) {
    e.operation.Update? && exists c | c in e.unchangedColumns :: c in def.notNull
  }

  /** The one way an acceptable event with fitting values can fail: the row it needs is not there. */
  predicate LacksValue(def: TableDef, t: Table, e: Event) {
    NeedsRow(def, e) && e.key !in t
  }

  lemma {:induction false} AcceptablePassesChecks(def: TableDef, e: Event)
    requires RowAcceptable(def, e)
    ensures Transcodable(e.key) && ColumnsFree(e)
    ensures !e.operation.Delete? ==> KeyChecks(e)
  {
    if !e.operation.Delete? {
      forall c | c in e.key ensures c in e.after && c !in e.unchangedColumns {
        assert c in Restrict(e.after, def.key);
        assert c !in Columns(e);
      }
    }
  }

  lemma {:induction false} WholeRowFits(def: TableDef, e: Event)
    requires RowAcceptable(def, e) && !e.operation.Delete? && e.unchangedColumns == [] && FitRow(def, e.after)
    ensures e.after.Keys == def.columns && NotNullOk(def, Candidate(def, e.after))
  {
    assert Columns(e) == {};
    KeyNotNull(def, e);
  }

  lemma {:induction false} UpsertSucceeds(def: TableDef, t: Table, e: Event)
    requires RowAcceptable(def, e) && !e.operation.Delete? && e.unchangedColumns == [] && FitRow(def, e.after)
    ensures UpsertRow(def, t, e.after, e.key.Keys, e.source.commitLsn, e.source.commitTime).Ok?
  {
    WholeRowFits(def, e);
  }

  lemma {:induction false} KeyNotNull(def: TableDef, e: Event)
    requires RowAcceptable(def, e) && !e.operation.Delete?
    ensures forall c | c in def.key :: c in e.after && e.after[c] != Null
  {
    forall c | c in def.key ensures c in e.after && e.after[c] != Null {
      assert c in e.key;
      assert c in Restrict(e.after, def.key);
    }
  }

  lemma {:induction false} RewrittenFits(def: TableDef, cols: Row, after: Row, key: Row)
    requires FitRow(def, cols) && FitRow(def, after) && cols.Keys == def.columns && after.Keys <= def.columns
    requires Restrict(cols, def.key) == key && Restrict(after, def.key) == key && key.Keys == def.key
    requires forall c | c in key :: key[c] != Null
    ensures NotNullOk(def, cols + after)
  {
    forall c | c in def.key ensures c in after && after[c] != Null {
      assert c in Restrict(after, def.key);
    }
  }

  lemma {:induction false} UpdateSucceeds(def: TableDef, t: Table, e: Event)
    requires def.key <= def.columns && TableOk(def, t) && TableFit(def, t)
    requires RowAcceptable(def, e) && e.operation.Update? && FitRow(def, e.after) && FitRow(def, e.key)
    ensures UpdateRows(def, t, e.after, e.key, e.source.commitLsn, Some(e.source.commitLsn), e.source.commitTime).Ok?
  {
    HitOnKey(def, t, e.key, e.source.commitLsn);
    if e.key in t {
      OneRewrites(def, t, e);
    }
  }

  lemma {:induction false} OneRewrites(def: TableDef, t: Table, e: Event)
    requires def.key <= def.columns && TableOk(def, t) && TableFit(def, t) && e.key in t
    requires RowAcceptable(def, e) && e.operation.Update? && FitRow(def, e.after)
    ensures CanRewrite(def, t, {e.key}, e.after)
  {
    AfterKeepsKey(def, t[e.key].cols, e.after, e.key);
    RewrittenFits(def, t[e.key].cols, e.after, e.key);
    RewriteOfOne(def, t, e.key, e.after);
  }

  lemma {:induction false} RewriteOfOne(def: TableDef, t: Table, key: Row, after: Row)
    requires key in t && NotNullOk(def, t[key].cols + after) && NewKey(def, t[key], after) == key
    ensures CanRewrite(def, t, {key}, after)
  {
  }

  lemma {:induction false} InsertFails(def: TableDef, t: Table, e: Event)
    requires def.key <= def.columns && e.key !in t
    requires RowAcceptable(def, e) && e.operation.Update? && FitRow(def, e.after)
    ensures InsertRow(def, t, e.after, e.source.commitLsn, e.source.commitTime).Err? <==> LacksValue(def, t, e)
  {
    KeyNotNull(def, e);
    CandidateKey(def, e.after, e.key);
    if LacksValue(def, t, e) {
      var c :| c in e.unchangedColumns && c in def.notNull;
      assert c in Columns(e) && c !in e.after;
      assert Candidate(def, e.after)[c] == Null;
    } else {
      forall c | c in def.columns && c in def.notNull ensures c in e.after {
        assert c !in Columns(e);
      }
    }
  }

  /** With types and NOT NULL respected, an event fails just when it must create a row it does not fully know. */
  lemma {:induction false} MutateFailsExactlyWhen(def: TableDef, t: Table, e: Event)
    requires def.key <= def.columns && TableOk(def, t) && TableFit(def, t)
    requires RowAcceptable(def, e) && FitRow(def, e.after) && FitRow(def, e.key)
    ensures MutateTable(def, t, e).Err? <==> LacksValue(def, t, e)
  {
    AcceptablePassesChecks(def, e);
    if !e.operation.Delete? {
      if e.unchangedColumns == [] {
        UpsertSucceeds(def, t, e);
      } else {
        PreservingFailsExactlyWhen(def, t, e);
      }
    }
  }

  lemma {:induction false} PreservingFailsExactlyWhen(def: TableDef, t: Table, e: Event)
    requires def.key <= def.columns && TableOk(def, t) && TableFit(def, t)
    requires RowAcceptable(def, e) && e.operation.Update? && FitRow(def, e.after) && FitRow(def, e.key)
    ensures PreservingUpdate(def, t, e.after, e.key, e.source.commitLsn, e.source.commitTime).Err? <==>
            LacksValue(def, t, e)
  {
    UpdateSucceeds(def, t, e);
    if e.key in t {
      PreservingSucceeds(def, t, e);
    } else {
      UpdateOnKey(def, t, e.after, e.key, e.source.commitLsn, e.source.commitTime);
      AnyMatchIsKey(def, t, e.key);
      InsertFails(def, t, e);
    }
  }

  lemma {:induction false} PreservingSucceeds(def: TableDef, t: Table, e: Event)
    requires def.key <= def.columns && TableOk(def, t) && e.key in t
    requires RowAcceptable(def, e) && e.operation.Update?
    requires UpdateRows(def, t, e.after, e.key, e.source.commitLsn, Some(e.source.commitLsn), e.source.commitTime).Ok?
    ensures PreservingUpdate(def, t, e.after, e.key, e.source.commitLsn, e.source.commitTime).Ok?
  {
    var l := e.source.commitLsn;
    UpdateOnKey(def, t, e.after, e.key, l, e.source.commitTime);
    var t1 := UpdateRows(def, t, e.after, e.key, l, Some(l), e.source.commitTime).value;
    AfterKeepsKey(def, t[e.key].cols, e.after, e.key);
    PutEntryOk(def, t, e.key, Some(Rewritten(t[e.key], e.after, Some(l), e.source.commitTime)));
    AnyMatchIsKey(def, t1, e.key);
  }

  /**
    ApplyInTx of an acceptable, fitting event fails if and only if it is an update of a
    key the destination does not hold that leaves a NOT NULL column unsaid.
  */
  lemma {:induction false} FailsExactlyWhen(cat: Catalog, db: Db, e: Event)
    requires CatalogOk(cat) && DbOk(cat, db) && DbFit(cat, db)
    requires Acceptable(cat, e) && Fit(cat, e) && e.id !in db.markers
    ensures ApplyInTx(cat, db, e).Err? <==>
            !e.operation.Truncate? && LacksValue(cat[Name(e)], Rows(db, Name(e)), e)
  {
    if !e.operation.Truncate? {
      AcceptablePassesChecks(cat[Name(e)], e);
      MutateFailsExactlyWhen(cat[Name(e)], Rows(db, Name(e)), e);
      assert Rows(Marked(db, e), Name(e)) == Rows(db, Name(e));
    }
  }

  // ---- a source that fits -------------------------------------------------------------------

  predicate SourceFit(cat: Catalog, src: Source) {
    forall n | n in cat :: forall k | k in SourceRows(src, n) :: FitRow(cat[n], SourceRows(src, n)[k])
  }

  lemma {:induction false} MeaningFits(cat: Catalog, src: Source, e: Event)
    requires SourceFit(cat, src) && Fit(cat, e)
    ensures SourceFit(cat, Meaning(src, e))
  {
    forall n, k | n in cat && k in SourceRows(Meaning(src, e), n)
      ensures FitRow(cat[n], SourceRows(Meaning(src, e), n)[k])
    {
      MeaningOnEntries(src, e, n, k);
      assert SourceEntry(src, n, k).Some? ==> FitRow(cat[n], SourceEntry(src, n, k).value);
    }
  }

  lemma {:induction false} HistoryFits(cat: Catalog, log: seq<Event>, hist: seq<Source>, m: nat)
    requires History(log, hist) && m <= |log| && SourceFit(cat, hist[0]) && AllFit(cat, log)
    ensures SourceFit(cat, hist[m])
  {
    if m > 0 {
      HistoryFits(cat, log, hist, m - 1);
      MeaningFits(cat, hist[m - 1], log[m - 1]);
    }
  }
}
