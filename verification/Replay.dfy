/**
  What any run of events keeps: markers grow, re-feeding committed events is a no-op
  on the whole database, LSNs only move forward, and full-row upserts commute.
*/
module Replay {
  import opened Wrappers
  import opened Cdc
  import opened Destination
  import opened Convergence
  import opened Failures

  lemma {:induction false} FoldMarks(cat: Catalog, db: Db, es: seq<Event>)
    requires ApplyAll(cat, db, es).Ok?
    ensures ApplyAll(cat, db, es).value.markers.Keys == db.markers.Keys + Ids(es)
    ensures ApplyAll(cat, db, es).value.letters == db.letters
  {
    if es != [] {
      var init, last := es[..|es| - 1], es[|es| - 1];
      FoldMarks(cat, db, init);
      ApplyMarks(cat, ApplyAll(cat, db, init).value, last);
      IdsOfAll(es);
    }
  }

  lemma {:induction false} IdsOfAll(es: seq<Event>)
    requires es != []
    ensures Ids(es) == Ids(es[..|es| - 1]) + {es[|es| - 1].id}
  {
    assert es == es[..|es| - 1] + [es[|es| - 1]];
    IdsSnoc(es[..|es| - 1], es[|es| - 1]);
  }

  lemma {:induction false} IdsSnoc(init: seq<Event>, last: Event)
    ensures Ids(init + [last]) == Ids(init) + {last.id}
  {
    forall x | x in Ids(init) + {last.id} ensures x in Ids(init + [last]) {
      if x in Ids(init) {
        var i :| 0 <= i < |init| && init[i].id == x;
        assert (init + [last])[i].id == x;
      } else {
        assert (init + [last])[|init|].id == x;
      }
    }
  }

  predicate AllShaped(es: seq<Event>) {
    forall i | 0 <= i < |es| :: Shaped(es[i])
  }

  lemma {:induction false} FoldShapes(cat: Catalog, db: Db, es: seq<Event>)
    requires ApplyAll(cat, db, es).Ok?
    ensures AllShaped(es)
  {
    if es != [] {
      FoldShapes(cat, db, es[..|es| - 1]);
    }
  }

  /** Events whose markers exist change nothing, whatever the rest of the database holds. */
  lemma {:induction false} MarkedIsNoOp(cat: Catalog, db: Db, es: seq<Event>)
    requires AllShaped(es) && Ids(es) <= db.markers.Keys
    ensures ApplyAll(cat, db, es) == Ok(db)
  {
    if es != [] {
      var init := es[..|es| - 1];
      IdsOfAll(es);
      assert es[|es| - 1].id in Ids(es);
      MarkedIsNoOp(cat, db, init);
    }
  }

  lemma {:induction false} StretchIsKnown(a: seq<Event>, es: seq<Event>, b: seq<Event>)
    ensures Ids(es) <= Ids(a + es + b)
    ensures AllShaped(a + es + b) ==> AllShaped(es)
  {
    var all := a + es + b;
    forall i | 0 <= i < |es| ensures es[i].id in Ids(all) && (AllShaped(all) ==> Shaped(es[i])) {
      assert all[|a| + i] == es[i];
    }
  }

  /** After a committed run, feeding any stretch of it again leaves the whole database as it is. */
  lemma {:induction false} CrashReplayIsNoOp(cat: Catalog, db: Db, a: seq<Event>, es: seq<Event>, b: seq<Event>)
    requires ApplyAll(cat, db, a + es + b).Ok?
    ensures var d := ApplyAll(cat, db, a + es + b).value;
            ApplyAll(cat, d, es) == Ok(d)
  {
    FoldMarks(cat, db, a + es + b);
    FoldShapes(cat, db, a + es + b);
    StretchIsKnown(a, es, b);
    MarkedIsNoOp(cat, ApplyAll(cat, db, a + es + b).value, es);
  }

  // ---- LSNs only move forward ------------------------------------------------------

  function Stamp(s: Stored): int {
    if s.lsn.Some? then s.lsn.value else -1
  }

  predicate Forward(t: Table, u: Table) {
    forall k | k in t && k in u :: Stamp(t[k]) <= Stamp(u[k])
  }

  lemma {:induction false} RewriteForward(def: TableDef, t: Table, hit: set<Row>, after: Row, l: Lsn, time: int)
    requires hit <= t.Keys && CanRewrite(def, t, hit, after)
    requires forall k | k in hit :: GuardOk(t[k], l)
    ensures Forward(t, Rewrite(def, t, hit, after, Some(l), time))
  {
    var m := Moved(def, t, hit, after, Some(l), time);
    forall j | j in t && j in m ensures Stamp(t[j]) <= Stamp(m[j]) {
      var k :| k in hit && j == NewKey(def, t[k], after) && m[j] == Rewritten(t[k], after, Some(l), time);
      assert j == k;
    }
  }

  lemma {:induction false} RewriteDrops(def: TableDef, t: Table, hit: set<Row>, after: Row, lsn: Option<Lsn>,
      time: int, k: Row)
    requires hit <= t.Keys && CanRewrite(def, t, hit, after)
    requires k in t && k !in Rewrite(def, t, hit, after, lsn, time)
    ensures k in hit
  {
  }

  lemma {:induction false} PutForward(t: Table, u: Table, k: Row, s: Stored)
    requires Forward(t, u) && (k in t ==> Stamp(t[k]) <= Stamp(s))
    ensures Forward(t, u[k := s])
  {
  }

  /** An INSERT after the UPDATE can only fill a key the UPDATE moved away from. */
  lemma {:induction false} InsertForward(def: TableDef, t: Table, hit: set<Row>, after: Row, l: Lsn, time: int,
      k: Row, s: Stored)
    requires hit <= t.Keys && CanRewrite(def, t, hit, after)
    requires (forall j | j in hit :: GuardOk(t[j], l)) && s.lsn == Some(l)
    requires k !in Rewrite(def, t, hit, after, Some(l), time)
    ensures Forward(t, Rewrite(def, t, hit, after, Some(l), time)[k := s])
  {
    RewriteForward(def, t, hit, after, l, time);
    if k in t {
      RewriteDrops(def, t, hit, after, Some(l), time, k);
    }
    PutForward(t, Rewrite(def, t, hit, after, Some(l), time), k, s);
  }

  lemma {:induction false} PreservingForward(def: TableDef, t: Table, after: Row, key: Row, l: Lsn, time: int)
    requires PreservingUpdate(def, t, after, key, l, time).Ok?
    ensures Forward(t, PreservingUpdate(def, t, after, key, l, time).value)
  {
    var hit := Touched(t, key, l);
    var t1 := Rewrite(def, t, hit, after, Some(l), time);
    if AnyMatch(t1, key) {
      RewriteForward(def, t, hit, after, l, time);
    } else {
      var cand := Candidate(def, after);
      InsertForward(def, t, hit, after, l, time, Restrict(cand, def.key), Stored(cand, Some(l), time));
    }
  }

  lemma {:induction false} UpsertForward(def: TableDef, t: Table, after: Row, target: set<string>, l: Lsn, time: int)
    requires UpsertRow(def, t, after, target, l, time).Ok?
    ensures Forward(t, UpsertRow(def, t, after, target, l, time).value)
  {
  }

  lemma {:induction false} DeleteForward(def: TableDef, t: Table, key: Row, l: Lsn)
    requires DeleteRows(def, t, key, l).Ok?
    ensures Forward(t, DeleteRows(def, t, key, l).value)
  {
  }

  lemma {:induction false} MutateForward(def: TableDef, t: Table, e: Event)
    requires MutateTable(def, t, e).Ok?
    ensures Forward(t, MutateTable(def, t, e).value)
  {
    var l, time := e.source.commitLsn, e.source.commitTime;
    if e.operation.Delete? {
      DeleteForward(def, t, e.key, l);
    } else if e.unchangedColumns != [] {
      PreservingForward(def, t, e.after, e.key, l, time);
    } else {
      UpsertForward(def, t, e.after, e.key.Keys, l, time);
    }
  }

  /**
    For any event at all: watermarks never decrease, and neither does the LSN of a row
    whose key stays present.
  */
  lemma {:induction false} LsnsMoveForward(cat: Catalog, db: Db, e: Event)
    requires ApplyInTx(cat, db, e).Ok?
    ensures var d := ApplyInTx(cat, db, e).value;
            && (forall n :: Watermark(db, n) <= Watermark(d, n))
            && (forall n :: Forward(Rows(db, n), Rows(d, n)))
  {
    var m := Marked(db, e);
    if Shaped(e) && e.id !in db.markers && !e.operation.Truncate? {
      MutateForward(cat[Name(e)], Rows(m, Name(e)), e);
    }
  }

  lemma {:induction false} StaleMutation(def: TableDef, t: Table, e: Event)
    requires def.key <= def.columns && TableOk(def, t) && TableFit(def, t)
    requires RowAcceptable(def, e) && FitRow(def, e.after) && FitRow(def, e.key)
    requires e.key in t && !GuardOk(t[e.key], e.source.commitLsn)
    ensures MutateTable(def, t, e) == Ok(t)
  {
    MutateFailsExactlyWhen(def, t, e);
    MutateTableOnKey(def, t, e);
    PutSame(t, e.key);
  }

  lemma {:induction false} UnchangedTable(cat: Catalog, d: Db, e: Event)
    requires ColumnsFree(e) && Name(e) in cat && Name(e) in d.tables
    requires MutateTable(cat[Name(e)], Rows(d, Name(e)), e) == Ok(Rows(d, Name(e)))
    ensures Mutate(cat, d, e) == Ok(d)
  {
    assert WithRows(d, Name(e), Rows(d, Name(e))) == d;
  }

  /** A row event older than the stored row cannot fail, and changes nothing but the marker set. */
  lemma {:induction false} OlderEventOnlyMarks(cat: Catalog, db: Db, e: Event)
    requires CatalogOk(cat) && DbOk(cat, db) && DbFit(cat, db)
    requires Acceptable(cat, e) && Fit(cat, e) && !e.operation.Truncate?
    requires e.key in Rows(db, Name(e)) && !GuardOk(Rows(db, Name(e))[e.key], e.source.commitLsn)
    ensures ApplyInTx(cat, db, e) == Ok(Marked(db, e))
  {
    if e.id !in db.markers {
      AcceptablePassesChecks(cat[Name(e)], e);
      StaleMutation(cat[Name(e)], Rows(db, Name(e)), e);
      UnchangedTable(cat, Marked(db, e), e);
    }
  }

  // ---- a truncate takes effect exactly when it is not stale ------------------------------

  /** The stale guard is right exactly when there is nothing to clear. */
  lemma {:induction false} TruncateTakesEffect(cat: Catalog, db: Db, src: Source, e: Event)
    requires CatalogOk(cat) && DbOk(cat, db) && Acceptable(cat, e) && e.operation.Truncate?
    requires e.id !in db.markers && Mirrors(cat, db, src)
    ensures ApplyInTx(cat, db, e).Ok?
    ensures Mirrors(cat, ApplyInTx(cat, db, e).value, Meaning(src, e)) <==>
            !TruncateIsStale(e.source.commitLsn, Watermark(db, Name(e))) || Rows(db, Name(e)) == map[]
  {
    if TruncateIsStale(e.source.commitLsn, Watermark(db, Name(e))) {
      StaleTruncateOnlyMarks(cat, db, e);
      StaleMirrors(cat, db, src, e);
    } else {
      ApplyOnEntries(cat, db, e);
      MeaningEverywhere(src, e);
    }
  }

  lemma {:induction false} MeaningEverywhere(src: Source, e: Event)
    ensures forall n, k :: SourceEntry(Meaning(src, e), n, k) == SourceStep(SourceEntry(src, n, k), e, n, k)
  {
    forall n, k ensures SourceEntry(Meaning(src, e), n, k) == SourceStep(SourceEntry(src, n, k), e, n, k) {
      MeaningOnEntries(src, e, n, k);
    }
  }

  lemma {:induction false} StaleMirrors(cat: Catalog, db: Db, src: Source, e: Event)
    requires Name(e) in cat && e.operation.Truncate? && Mirrors(cat, db, src)
    ensures Mirrors(cat, Marked(db, e), Meaning(src, e)) <==> Rows(db, Name(e)) == map[]
  {
    MeaningEverywhere(src, e);
    var n := Name(e);
    assert forall m :: Rows(Marked(db, e), m) == Rows(db, m);
    if Rows(db, n) != map[] {
      var k :| k in Rows(db, n);
      assert Cols(Entry(Marked(db, e), n, k)).Some? && SourceEntry(Meaning(src, e), n, k) == None;
    }
  }

  lemma {:induction false} StaleTruncateOnlyMarks(cat: Catalog, db: Db, e: Event)
    requires Shaped(e) && e.operation.Truncate? && TruncateIsStale(e.source.commitLsn, Watermark(db, Name(e)))
    ensures ApplyInTx(cat, db, e) == Ok(Marked(db, e))
  {
  }

  /**
    Two truncates of one table in one source transaction: the second carries the LSN of
    the watermark, is skipped, and leaves the row inserted in between.
  */
  lemma {:induction false} SecondTruncateIsSkipped(cat: Catalog, db: Db, src: Source, t1: Event, row: Event, t2: Event)
    requires CatalogOk(cat) && DbOk(cat, db)
    requires Acceptable(cat, t1) && Acceptable(cat, row) && Acceptable(cat, t2)
    requires t1.operation.Truncate? && row.operation.Insert? && t2.operation.Truncate?
    requires Name(t1) == Name(row) == Name(t2)
    requires t1.source.commitLsn == row.source.commitLsn == t2.source.commitLsn > Watermark(db, Name(t1))
    requires t1.id !in db.markers && row.id !in db.markers && row.id != t1.id
    requires DbFit(cat, db) && Fit(cat, row)
    ensures ApplyAll(cat, db, [t1, row, t2]).Ok?
    ensures row.key in Rows(ApplyAll(cat, db, [t1, row, t2]).value, Name(row))
    ensures SourceRows(Run(src, [t1, row, t2]), Name(row)) == map[]
  {
    assert [t1, row, t2] == [t1, row] + [t2];
    LastTruncateClears(src, [t1, row], t2);
    TruncateThenRest(cat, db, t1, row, t2);
  }

  lemma {:induction false} TruncateThenRest(cat: Catalog, db: Db, t1: Event, row: Event, t2: Event)
    requires CatalogOk(cat) && DbOk(cat, db) && DbFit(cat, db)
    requires Acceptable(cat, t1) && t1.operation.Truncate? && t1.id !in db.markers
    requires Acceptable(cat, row) && Fit(cat, row) && row.operation.Insert? && row.id !in db.markers && row.id != t1.id
    requires Shaped(t2) && t2.operation.Truncate? && Name(t1) == Name(row) == Name(t2)
    requires t2.source.commitLsn == t1.source.commitLsn > Watermark(db, Name(t1))
    ensures ApplyAll(cat, db, [t1, row, t2]).Ok?
    ensures row.key in Rows(ApplyAll(cat, db, [t1, row, t2]).value, Name(row))
  {
    var d := TruncateFirst(cat, db, t1, [row, t2]);
    assert [t1] + [row, t2] == [t1, row, t2];
    RowThenStaleTruncate(cat, d, row, t2);
  }

  lemma {:induction false} RowThenStaleTruncate(cat: Catalog, d: Db, row: Event, t: Event)
    requires CatalogOk(cat) && DbOk(cat, d) && DbFit(cat, d)
    requires Acceptable(cat, row) && Fit(cat, row) && row.operation.Insert? && row.id !in d.markers
    requires Shaped(t) && t.operation.Truncate? && TruncateIsStale(t.source.commitLsn, Watermark(d, Name(t)))
    requires row.key !in Rows(d, Name(row))
    ensures ApplyAll(cat, d, [row, t]).Ok?
    ensures row.key in Rows(ApplyAll(cat, d, [row, t]).value, Name(row))
  {
    InsertArrives(cat, d, row);
    var inserted := ApplyInTx(cat, d, row).value;
    TwoEvents(cat, d, row, t);
    StaleTruncateOnlyMarks(cat, inserted, t);
    assert Rows(Marked(inserted, t), Name(row)) == Rows(inserted, Name(row));
  }

  lemma {:induction false} TwoEvents(cat: Catalog, d: Db, a: Event, b: Event)
    ensures ApplyAll(cat, d, [a, b]) ==
            match ApplyInTx(cat, d, a) case Err(f) => Err(f) case Ok(x) => ApplyInTx(cat, x, b)
  {
    assert [a, b][..1] == [a];
    ApplyOne(cat, d, a);
  }

  lemma {:induction false} InsertArrives(cat: Catalog, d: Db, row: Event)
    requires CatalogOk(cat) && DbOk(cat, d) && DbFit(cat, d)
    requires Acceptable(cat, row) && Fit(cat, row) && row.operation.Insert?
    requires row.id !in d.markers && row.key !in Rows(d, Name(row))
    ensures ApplyInTx(cat, d, row).Ok?
    ensures row.key in Rows(ApplyInTx(cat, d, row).value, Name(row))
    ensures ApplyInTx(cat, d, row).value.watermarks == d.watermarks
  {
    FailsExactlyWhen(cat, d, row);
    ApplyOnEntries(cat, d, row);
    assert Entry(ApplyInTx(cat, d, row).value, Name(row), row.key).Some?;
  }

  lemma {:induction false} LastTruncateClears(src: Source, es: seq<Event>, t: Event)
    requires t.operation.Truncate?
    ensures SourceRows(Run(src, es + [t]), Name(t)) == map[]
  {
    assert (es + [t])[..|es|] == es;
  }

  lemma {:induction false} TruncateFirst(cat: Catalog, db: Db, t: Event, rest: seq<Event>) returns (d: Db)
    requires CatalogOk(cat) && DbOk(cat, db) && Acceptable(cat, t) && t.operation.Truncate?
    requires t.id !in db.markers && t.source.commitLsn > Watermark(db, Name(t)) && DbFit(cat, db)
    ensures DbFit(cat, d) && ApplyInTx(cat, db, t) == Ok(d) && ApplyAll(cat, db, [t] + rest) == ApplyAll(cat, d, rest)
    ensures DbOk(cat, d) && Watermark(d, Name(t)) == t.source.commitLsn
    ensures d.markers.Keys == db.markers.Keys + {t.id} && Rows(d, Name(t)) == map[]
  {
    d := ApplyInTx(cat, db, t).value;
    ApplyOnEntries(cat, db, t);
    ApplyHead(cat, db, [t] + rest);
    assert ([t] + rest)[1..] == rest;
  }

  // ---- full-row upserts in any order -----------------------------------------------------

  /** Full-row inserts and updates with distinct LSNs and ids, none of them known yet. */
  predicate FullUpserts(cat: Catalog, db: Db, es: seq<Event>) {
    && DistinctIds(es)
    && (forall i | 0 <= i < |es| ::
         && Acceptable(cat, es[i])
         && (es[i].operation.Insert? || es[i].operation.Update?)
         && es[i].unchangedColumns == []
         && es[i].id !in db.markers)
    && (forall i, j | 0 <= i < j < |es| :: es[i].source.commitLsn != es[j].source.commitLsn)
  }

  function Written(e: Event): Stored {
    Stored(e.after, Some(e.source.commitLsn), e.source.commitTime)
  }

  predicate On(e: Event, n: TableName, k: Row) {
    Name(e) == n && e.key == k
  }

  /** `r` is the newest of the entry `d` and the deliveries for key `k`; a tie with `d` goes to the delivery. */
  predicate Newest(es: seq<Event>, d: Option<Stored>, n: TableName, k: Row, r: Option<Stored>) {
    && (forall e | e in es && On(e, n, k) :: r.Some? && e.source.commitLsn <= Stamp(r.value))
    && ((r == d && forall e | e in es && On(e, n, k) :: d.Some? && e.source.commitLsn < Stamp(d.value))
        || exists e | e in es ::
           On(e, n, k) && r == Some(Written(e)) && (d.Some? ==> Stamp(d.value) <= e.source.commitLsn))
  }

  lemma {:induction false} WholeRowStep(def: TableDef, d: Option<Stored>, e: Event, n: TableName, k: Row)
    requires RowAcceptable(def, e) && !e.operation.Delete? && !e.operation.Truncate? && e.unchangedColumns == []
    requires d.Some? ==> d.value.cols.Keys == def.columns
    ensures EntryStep(def, d, e, n, k) ==
            if On(e, n, k) && !(d.Some? && !GuardOk(d.value, e.source.commitLsn)) then Some(Written(e)) else d
  {
    assert Columns(e) == {};
    assert Candidate(def, e.after) == e.after;
    if d.Some? { assert d.value.cols + e.after == e.after; }
  }

  lemma {:induction false} NewestStep(init: seq<Event>, last: Event, d: Option<Stored>, n: TableName, k: Row,
      r: Option<Stored>)
    requires Newest(init, d, n, k, r)
    ensures Newest(init + [last], d, n, k,
                   if On(last, n, k) && !(r.Some? && !GuardOk(r.value, last.source.commitLsn))
                   then Some(Written(last)) else r)
  {
    var es := init + [last];
    assert last in es;
    assert forall e :: e in es <==> e in init || e == last;
  }

  lemma {:induction false} NextIsUnseen(cat: Catalog, db: Db, es: seq<Event>, k: nat)
    requires FullUpserts(cat, db, es) && k < |es|
    ensures Acceptable(cat, es[k]) && (es[k].operation.Insert? || es[k].operation.Update?) &&
            es[k].unchangedColumns == []
    ensures es[k].id !in db.markers.Keys + Ids(es[..k])
  {
    forall i | 0 <= i < k ensures es[..k][i].id != es[k].id {
      assert es[i].id != es[k].id;
    }
  }

  /** The entry of one key after the deliveries, each replacing what is not newer. */
  function Latest(es: seq<Event>, d: Option<Stored>, n: TableName, k: Row): Option<Stored> {
    if es == [] then d
    else
      var r, last := Latest(es[..|es| - 1], d, n, k), es[|es| - 1];
      if On(last, n, k) && !(r.Some? && !GuardOk(r.value, last.source.commitLsn)) then Some(Written(last)) else r
  }

  lemma {:induction false} LatestIsNewest(es: seq<Event>, d: Option<Stored>, n: TableName, k: Row)
    ensures Newest(es, d, n, k, Latest(es, d, n, k))
  {
    if es != [] {
      var init, last := es[..|es| - 1], es[|es| - 1];
      LatestIsNewest(init, d, n, k);
      NewestStep(init, last, d, n, k, Latest(init, d, n, k));
      assert es == init + [last];
    }
  }

  ghost predicate AllLatest(cat: Catalog, db: Db, es: seq<Event>, d: Db) {
    DbOk(cat, d) && forall n, k | n in cat :: Entry(d, n, k) == Latest(es, Entry(db, n, k), n, k)
  }

  lemma {:induction false} NextIsLatest(cat: Catalog, db: Db, init: seq<Event>, d: Db, next: Event)
    requires CatalogOk(cat) && AllLatest(cat, db, init, d) && Acceptable(cat, next)
    requires (next.operation.Insert? || next.operation.Update?) && next.unchangedColumns == []
    requires next.id !in d.markers && ApplyInTx(cat, d, next).Ok?
    ensures AllLatest(cat, db, init + [next], ApplyInTx(cat, d, next).value)
  {
    ApplyOnEntries(cat, d, next);
    assert (init + [next])[..|init|] == init;
    forall n, k | n in cat
      ensures EntryStep(cat[n], Entry(d, n, k), next, n, k) == Latest(init + [next], Entry(db, n, k), n, k)
    {
      if Name(next) == n {
        WholeRowStep(cat[n], Entry(d, n, k), next, n, k);
      }
    }
  }

  /** A fold that succeeds succeeds at every event. */
  lemma {:induction false} NextSucceeds(cat: Catalog, db: Db, es: seq<Event>, k: nat)
    requires k < |es| && ApplyAll(cat, db, es).Ok?
    ensures ApplyAll(cat, db, es[..k]).Ok? && ApplyInTx(cat, ApplyAll(cat, db, es[..k]).value, es[k]).Ok?
  {
    assert es == es[..k] + ([es[k]] + es[k + 1..]);
    ApplyAllAppend(cat, db, es[..k], [es[k]] + es[k + 1..]);
    ApplyHead(cat, ApplyAll(cat, db, es[..k]).value, [es[k]] + es[k + 1..]);
  }

  lemma {:induction false} LatestStep(cat: Catalog, db: Db, init: seq<Event>, d: Db, next: Event)
    requires CatalogOk(cat) && ApplyAll(cat, db, init) == Ok(d) && AllLatest(cat, db, init, d)
    requires ApplyInTx(cat, d, next).Ok?
    requires Acceptable(cat, next) && (next.operation.Insert? || next.operation.Update?) && next.unchangedColumns == []
    requires next.id !in db.markers.Keys + Ids(init)
    ensures ApplyAll(cat, db, init + [next]) == ApplyInTx(cat, d, next)
    ensures AllLatest(cat, db, init + [next], ApplyInTx(cat, d, next).value)
  {
    ApplyAllAppend(cat, db, init, [next]);
    ApplyOne(cat, d, next);
    FoldMarks(cat, db, init);
    NextIsLatest(cat, db, init, d, next);
  }

  lemma {:induction false} FoldIsLatest(cat: Catalog, db: Db, es: seq<Event>)
    requires CatalogOk(cat) && DbOk(cat, db) && FullUpserts(cat, db, es) && ApplyAll(cat, db, es).Ok?
    ensures AllLatest(cat, db, es, ApplyAll(cat, db, es).value)
  {
    var init, d := [], db;
    for k := 0 to |es|
      invariant init == es[..k] && ApplyAll(cat, db, init) == Ok(d)
      invariant AllLatest(cat, db, init, d)
    {
      assert ApplyInTx(cat, d, es[k]).Ok? by {
        NextSucceeds(cat, db, es, k);
      }
      NextIsUnseen(cat, db, es, k);
      LatestStep(cat, db, init, d, es[k]);
      init, d := init + [es[k]], ApplyInTx(cat, d, es[k]).value;
    }
    assert es[..|es|] == es;
  }

  lemma {:induction false} NewestIsUnique(es: seq<Event>, fs: seq<Event>, d: Option<Stored>, n: TableName, k: Row,
      r: Option<Stored>, q: Option<Stored>)
    requires forall e :: e in es <==> e in fs
    requires forall e, f | e in es && f in es :: e.source.commitLsn == f.source.commitLsn ==> e == f
    requires Newest(es, d, n, k, r) && Newest(fs, d, n, k, q)
    ensures r == q
  {
  }

  const NOTHING := Db(map[], map[], map[], map[])

  /** Whether a full-row upsert goes through does not depend on the rows. */
  lemma {:induction false} UpsertIsStateless(cat: Catalog, db: Db, e: Event)
    requires Acceptable(cat, e) && (e.operation.Insert? || e.operation.Update?) && e.unchangedColumns == []
    requires e.id !in db.markers
    ensures ApplyInTx(cat, db, e).Ok? <==> ApplyInTx(cat, NOTHING, e).Ok?
  {
  }

  lemma {:induction false} EachGoesThrough(cat: Catalog, db: Db, es: seq<Event>, k: nat)
    requires FullUpserts(cat, db, es) && ApplyAll(cat, db, es).Ok? && k < |es|
    ensures ApplyInTx(cat, NOTHING, es[k]).Ok?
  {
    NextSucceeds(cat, db, es, k);
    NextIsUnseen(cat, db, es, k);
    FoldMarks(cat, db, es[..k]);
    UpsertIsStateless(cat, ApplyAll(cat, db, es[..k]).value, es[k]);
  }

  lemma {:induction false} AllGoThrough(cat: Catalog, db: Db, es: seq<Event>, n: nat)
    requires FullUpserts(cat, db, es) && n <= |es|
    requires forall k | 0 <= k < |es| :: ApplyInTx(cat, NOTHING, es[k]).Ok?
    ensures ApplyAll(cat, db, es[..n]).Ok?
  {
    if n > 0 {
      var k := n - 1;
      AllGoThrough(cat, db, es, k);
      NextIsUnseen(cat, db, es, k);
      FoldMarks(cat, db, es[..k]);
      UpsertIsStateless(cat, ApplyAll(cat, db, es[..k]).value, es[k]);
      assert es[..n][..k] == es[..k];
    }
  }

  lemma {:induction false} CountOne(es: seq<Event>, e: Event)
    requires DistinctIds(es)
    ensures multiset(es)[e] <= 1
  {
    if es != [] {
      var init, last := es[..|es| - 1], es[|es| - 1];
      assert es == init + [last];
      CountOne(init, e);
      if e == last {
        assert e !in init;
      }
    }
  }

  lemma {:induction false} CountTwo(es: seq<Event>, i: nat, j: nat)
    requires i < j < |es| && es[i] == es[j]
    ensures multiset(es)[es[i]] >= 2
  {
    assert es == es[..j] + ([es[j]] + es[j + 1..]);
    assert es[i] in es[..j];
  }

  /** A permutation of full-row upserts is one too. */
  lemma {:induction false} PermutedUpserts(cat: Catalog, db: Db, es: seq<Event>, fs: seq<Event>)
    requires FullUpserts(cat, db, es) && multiset(es) == multiset(fs)
    ensures FullUpserts(cat, db, fs)
  {
    SameMembers(es, fs);
    forall i, j | 0 <= i < j < |fs| ensures fs[i].id != fs[j].id && fs[i].source.commitLsn != fs[j].source.commitLsn {
      assert fs[i] in es && fs[j] in es;
      if fs[i] == fs[j] {
        CountOne(es, fs[i]);
        CountTwo(fs, i, j);
      }
    }
    forall i | 0 <= i < |fs|
      ensures Acceptable(cat, fs[i]) && (fs[i].operation.Insert? || fs[i].operation.Update?)
      ensures fs[i].unchangedColumns == [] && fs[i].id !in db.markers
    {
      assert fs[i] in es;
    }
  }

  lemma {:induction false} PermutedGoThrough(cat: Catalog, db: Db, es: seq<Event>, fs: seq<Event>)
    requires FullUpserts(cat, db, es) && multiset(es) == multiset(fs) && ApplyAll(cat, db, es).Ok?
    ensures FullUpserts(cat, db, fs) && ApplyAll(cat, db, fs).Ok?
  {
    PermutedUpserts(cat, db, es, fs);
    SameMembers(es, fs);
    forall k | 0 <= k < |fs| ensures ApplyInTx(cat, NOTHING, fs[k]).Ok? {
      assert fs[k] in es;
      var i :| 0 <= i < |es| && es[i] == fs[k];
      EachGoesThrough(cat, db, es, i);
    }
    AllGoThrough(cat, db, fs, |fs|);
    assert fs[..|fs|] == fs;
  }

  /**
    Order independence: when one delivery of full-row upserts goes through, every other order
    of it does, with the same rows, the newest LSN winning per key, and the same marked ids.
  */
  lemma {:induction false} UpsertOrderIsIrrelevant(cat: Catalog, db: Db, es: seq<Event>, fs: seq<Event>)
    requires CatalogOk(cat) && DbOk(cat, db)
    requires FullUpserts(cat, db, es) && multiset(es) == multiset(fs) && ApplyAll(cat, db, es).Ok?
    ensures ApplyAll(cat, db, fs).Ok?
    ensures forall n | n in cat :: Rows(ApplyAll(cat, db, es).value, n) == Rows(ApplyAll(cat, db, fs).value, n)
    ensures ApplyAll(cat, db, es).value.markers.Keys == ApplyAll(cat, db, fs).value.markers.Keys
    ensures forall n, k | n in cat :: Newest(es, Entry(db, n, k), n, k, Entry(ApplyAll(cat, db, es).value, n, k))
  {
    PermutedGoThrough(cat, db, es, fs);
    FoldIsLatest(cat, db, es);
    FoldIsLatest(cat, db, fs);
    FoldMarks(cat, db, es);
    FoldMarks(cat, db, fs);
    SameMembers(es, fs);
    SameLatest(cat, db, es, fs, ApplyAll(cat, db, es).value, ApplyAll(cat, db, fs).value);
  }

  lemma {:induction false} SameLatest(cat: Catalog, db: Db, es: seq<Event>, fs: seq<Event>, a: Db, b: Db)
    requires FullUpserts(cat, db, es) && forall e :: e in es <==> e in fs
    requires AllLatest(cat, db, es, a) && AllLatest(cat, db, fs, b)
    ensures forall n | n in cat :: Rows(a, n) == Rows(b, n)
    ensures forall n, k | n in cat :: Newest(es, Entry(db, n, k), n, k, Entry(a, n, k))
  {
    forall n, k | n in cat
      ensures Entry(a, n, k) == Entry(b, n, k) && Newest(es, Entry(db, n, k), n, k, Entry(a, n, k))
    {
      LatestIsNewest(es, Entry(db, n, k), n, k);
      LatestIsNewest(fs, Entry(db, n, k), n, k);
      NewestIsUnique(es, fs, Entry(db, n, k), n, k, Entry(a, n, k), Entry(b, n, k));
    }
    forall n | n in cat ensures Rows(a, n) == Rows(b, n) {
      SameEntries(a, b, n);
    }
  }

  lemma {:induction false} SameMembers(es: seq<Event>, fs: seq<Event>)
    requires multiset(es) == multiset(fs)
    ensures forall e :: e in es <==> e in fs
    ensures Ids(es) == Ids(fs)
  {
    forall e ensures e in es <==> e in fs {
      assert e in es <==> e in multiset(es);
      assert e in fs <==> e in multiset(fs);
    }
    forall i | 0 <= i < |es| ensures es[i].id in Ids(fs) {
      assert es[i] in fs;
    }
    forall i | 0 <= i < |fs| ensures fs[i].id in Ids(es) {
      assert fs[i] in es;
    }
  }

  lemma {:induction false} SameEntries(a: Db, b: Db, n: TableName)
    requires forall k :: Entry(a, n, k) == Entry(b, n, k)
    ensures Rows(a, n) == Rows(b, n)
  {
    forall k ensures k in Rows(a, n) <==> k in Rows(b, n) {
      assert Entry(a, n, k) == Entry(b, n, k);
    }
    forall k | k in Rows(a, n) ensures Rows(a, n)[k] == Rows(b, n)[k] {
      assert Entry(a, n, k) == Entry(b, n, k);
    }
  }
}
