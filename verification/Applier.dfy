/**
  The destination apply engine in its imperative form: statements are built in loops,
  sent on an open transaction, and batched (internal/destination/applier.go).
  Every method is proved against the functions of module Destination.
*/
module Applier {
  import opened Wrappers
  import opened Cdc
  import opened Destination
  import opened Sql
  import opened Batch
  import Names

  /** An open SQL transaction: its own view of the database, lost unless committed. */
  class Transaction {
    const cat: Catalog
    var view: Db
    var aborted: bool

    constructor (cat: Catalog, committed: Db)
      ensures this.cat == cat && view == committed && !aborted
    {
      this.cat, view, aborted := cat, committed, false;
    }

    /** Sends one statement; a failing statement aborts the transaction. */
    method Exec(stmt: Statement, args: seq<Arg>) returns (r: Result<(), Failure>)
      requires !aborted
      modifies this
      ensures match Sql.Exec(cat, old(view), stmt, args)
              case Ok(d) => r == Ok(()) && view == d && !aborted
              case Err(f) => r == Err(f) && view == old(view) && aborted
    {
      match Sql.Exec(cat, view, stmt, args) {
        case Ok(d) =>
          view := d;
          r := Ok(());
        case Err(f) =>
          aborted := true;
          r := Err(f);
      }
    }

    /** `SELECT source_lsn FROM table WHERE key`: whether a row carries the key. */
    method Probe(n: TableName, where: seq<Comparison>, args: seq<Arg>) returns (r: Result<bool, Failure>)
      requires !aborted
      modifies this
      ensures view == old(view)
      ensures n in cat && EvalWhere(where, args).Some? ==>
                !aborted && r == Ok(AnyMatch(Rows(view, n), EvalWhere(where, args).value))
      ensures r.Err? ==> aborted
      ensures r.Ok? ==> !aborted
    {
      match EvalWhere(where, args) {
        case Some(key) =>
          if n in cat {
            return Ok(AnyMatch(Rows(view, n), key));
          }
        case None =>
      }
      aborted := true;
      r := Err(POISON);
    }

    /** markApplied: inserts the marker and reports whether it is new. */
    method MarkApplied(e: Event) returns (isNew: bool)
      requires !aborted
      modifies this
      ensures isNew == (e.id !in old(view).markers)
      ensures view == Marked(old(view), e) && !aborted
    {
      isNew := e.id !in view.markers;
      if isNew {
        view := view.(markers := view.markers[e.id := e.source.commitLsn]);
      }
    }

    /** `TRUNCATE TABLE` followed by the watermark upsert. */
    method ClearTable(n: TableName, l: Lsn) returns (r: Result<(), Failure>)
      requires !aborted
      modifies this
      ensures n in cat ==>
                r == Ok(()) && !aborted
                && view == WithRows(old(view), n, map[]).(watermarks := old(view).watermarks[n := l])
      ensures n !in cat ==> r == Err(POISON) && aborted && view == old(view)
    {
      if n !in cat {
        aborted := true;
        return Err(POISON);
      }
      view := WithRows(view, n, map[]);
      view := view.(watermarks := view.watermarks[n := l]);
      r := Ok(());
    }
  }

  // ---- building statements -----------------------------------------------------

  /** transcodeRow: the columns of a row in sorted order, each once, with their values alongside. */
  method TranscodeRow(row: Row) returns (r: Result<(seq<string>, seq<Arg>), Failure>)
    ensures r.Ok? <==> Transcodable(row)
    ensures r.Ok? ==> Lists(r.value.0, row) && Bound(r.value.0, row, r.value.1, 0) && |r.value.1| == |r.value.0|
    ensures r.Ok? ==> Names.Ascending(r.value.0)
    ensures r.Err? ==> r.error == POISON
  {
    if row == map[] {
      return Err(POISON);
    }
    var columns: seq<string> := [];
    var rest := row.Keys;
    while rest != {}
      invariant rest <= row.Keys
      invariant forall c | c in row :: c in rest <==> c !in columns
      invariant AllOf(columns, row) && Distinct(columns)
      invariant forall c | c in columns :: IsIdent(c) && c !in RESERVED
      decreases rest
    {
      var c :| c in rest;
      if !IsIdent(c) || c in RESERVED {
        return Err(POISON);
      }
      columns, rest := columns + [c], rest - {c};
    }
    assert forall c :: c in columns <==> c in row;
    columns := Names.Sort(columns);
    Names.AscendingIsDistinct(columns);
    assert AllOf(columns, row) by {
      forall i | 0 <= i < |columns| ensures columns[i] in row {
        assert columns[i] in columns;
      }
    }
    var values: seq<Arg> := [];
    for i := 0 to |columns|
      invariant |values| == i
      invariant forall j | 0 <= j < i :: values[j] == Cell(row[columns[j]])
    {
      values := values + [Cell(row[columns[i]])];
    }
    return Ok((columns, values));
  }

  /** `c1 = $1, c2 = $2, ...` */
  method WriteParams(columns: seq<string>) returns (sets: seq<Assignment>)
    ensures sets == ParamSets(columns, |columns|)
  {
    sets := [];
    for i := 0 to |columns|
      invariant sets == ParamSets(columns, i)
    {
      sets := sets + [Assignment(columns[i], Param(i + 1))];
    }
  }

  /** buildKeyWhere */
  method BuildKeyWhere(keyColumns: seq<string>, first: nat) returns (where: seq<Comparison>)
    ensures where == KeyWhere(keyColumns, first, |keyColumns|)
  {
    where := [];
    for i := 0 to |keyColumns|
      invariant where == KeyWhere(keyColumns, first, i)
    {
      where := where + [Comparison(keyColumns[i], first + i)];
    }
  }

  method BuildUpsert(n: TableName, columns: seq<string>, keyColumns: seq<string>) returns (stmt: Statement)
    ensures stmt == UpsertStatement(n, columns, keyColumns)
  {
    var values := WriteParams(columns);
    var sets: seq<Assignment> := [];
    for i := 0 to |columns|
      invariant sets == ExcludedSets(columns, i)
    {
      sets := sets + [Assignment(columns[i], Excluded(columns[i]))];
    }
    stmt := InsertInto(n, values + MetaSets(|columns|),
                       Some(OnConflict(keyColumns, sets + EXCLUDED_META, Excluded(SOURCE_LSN))));
  }

  method BuildUpdate(n: TableName, columns: seq<string>, keyColumns: seq<string>) returns (stmt: Statement)
    ensures stmt == UpdateStatement(n, columns, keyColumns)
  {
    var sets := WriteParams(columns);
    var where := BuildKeyWhere(keyColumns, |columns| + 3);
    stmt := UpdateSet(n, sets + MetaSets(|columns|), where, Param(|columns| + 1));
  }

  method BuildInsert(n: TableName, columns: seq<string>) returns (stmt: Statement)
    ensures stmt == InsertStatement(n, columns)
  {
    var values := WriteParams(columns);
    stmt := InsertInto(n, values + MetaSets(|columns|), None);
  }

  method BuildDelete(n: TableName, keyColumns: seq<string>) returns (stmt: Statement)
    ensures stmt == DeleteStatement(n, keyColumns)
  {
    var where := BuildKeyWhere(keyColumns, 1);
    stmt := DeleteFrom(n, where, Param(|keyColumns| + 1));
  }

  /** The checked parts of an insert or update, ready to be sent. */
  datatype Prepared = Prepared(
    columns: seq<string>, keyColumns: seq<string>, parameters: seq<Arg>, keyValues: seq<Arg>)

  predicate PreparedFor(p: Prepared, after: Row, key: Row, l: Lsn, time: int) {
    && WriteArgs(p.columns, after, p.parameters, l, time)
    && |p.parameters| == |p.columns| + 2
    && Lists(p.keyColumns, key) && Bound(p.keyColumns, key, p.keyValues, 0)
    && |p.keyValues| == |p.keyColumns|
  }

  /** Every key column is in the change row and none is marked unchanged. */
  method CheckKeyColumns(columns: seq<string>, keyColumns: seq<string>,
      unchangedColumns: seq<string>)
    returns (ok: bool)
    ensures ok <==> forall c | c in keyColumns :: c in columns && c !in unchangedColumns
  {
    for i := 0 to |keyColumns|
      invariant forall j | 0 <= j < i :: keyColumns[j] in columns
    {
      if keyColumns[i] !in columns {
        return false;
      }
    }
    for i := 0 to |keyColumns|
      invariant forall j | 0 <= j < i :: keyColumns[j] !in unchangedColumns
    {
      if keyColumns[i] in unchangedColumns {
        return false;
      }
    }
    return true;
  }

  lemma {:induction false} ListsMembers(columns: seq<string>, row: Row)
    requires Lists(columns, row)
    ensures forall c :: c in columns <==> c in row
  {
  }

  /** transcodeRow of both rows and the two key checks (applier.go:264-286). */
  method PrepareWrite(e: Event) returns (r: Result<Prepared, Failure>)
    ensures r.Ok? <==> KeyChecks(e)
    ensures r.Ok? ==> PreparedFor(r.value, e.after, e.key, e.source.commitLsn, e.source.commitTime)
    ensures r.Err? ==> r.error == POISON
  {
    var after := TranscodeRow(e.after);
    if after.Err? {
      return Err(after.error);
    }
    var key := TranscodeRow(e.key);
    if key.Err? {
      return Err(key.error);
    }
    ListsMembers(after.value.0, e.after);
    ListsMembers(key.value.0, e.key);
    var ok := CheckKeyColumns(after.value.0, key.value.0, e.unchangedColumns);
    if !ok {
      return Err(POISON);
    }
    var parameters := after.value.1 + [LsnArg(e.source.commitLsn), TimeArg(e.source.commitTime)];
    return Ok(Prepared(after.value.0, key.value.0, parameters, key.value.1));
  }

  // ---- one event in an open transaction ---------------------------------------------

  predicate Sent(tx: Transaction, was: Db, n: TableName, r: Result<(), Failure>, expected: Result<Table, Failure>)
    reads tx
  {
    match expected
    case Ok(t) => r == Ok(()) && tx.view == WithRows(was, n, t) && !tx.aborted
    case Err(f) => r == Err(f)
  }

  method SendUpdate(tx: Transaction, n: TableName, p: Prepared, ghost after: Row, ghost key: Row, ghost l: Lsn,
      ghost time: int)
    returns (r: Result<(), Failure>)
    requires !tx.aborted && n in tx.cat && PreparedFor(p, after, key, l, time)
    modifies tx
    ensures Sent(tx, old(tx.view), n, r, UpdateRows(tx.cat[n], Rows(old(tx.view), n), after, key, l, Some(l), time))
  {
    var stmt := BuildUpdate(n, p.columns, p.keyColumns);
    var args := p.parameters + p.keyValues;
    UpdateMeans(tx.cat, tx.view, n, p.columns, p.keyColumns, after, key, l, time, args);
    r := tx.Exec(stmt, args);
  }

  method SendInsert(tx: Transaction, n: TableName, p: Prepared, ghost after: Row, ghost key: Row, ghost l: Lsn,
      ghost time: int)
    returns (r: Result<(), Failure>)
    requires !tx.aborted && n in tx.cat && PreparedFor(p, after, key, l, time)
    modifies tx
    ensures Sent(tx, old(tx.view), n, r, InsertRow(tx.cat[n], Rows(old(tx.view), n), after, l, time))
  {
    var stmt := BuildInsert(n, p.columns);
    InsertMeans(tx.cat, tx.view, n, p.columns, after, l, time, p.parameters);
    r := tx.Exec(stmt, p.parameters);
  }

  method KeyPresent(tx: Transaction, n: TableName, p: Prepared, ghost after: Row, ghost key: Row, ghost l: Lsn,
      ghost time: int)
    returns (present: bool)
    requires !tx.aborted && n in tx.cat && PreparedFor(p, after, key, l, time)
    modifies tx
    ensures tx.view == old(tx.view) && !tx.aborted
    ensures present == AnyMatch(Rows(tx.view, n), key)
  {
    var where := BuildKeyWhere(p.keyColumns, 1);
    EvalKey(p.keyColumns, key, p.keyValues, 0);
    var r := tx.Probe(n, where, p.keyValues);
    present := r.value;
  }

  /** applyUpdatePreserving */
  method ApplyUpdatePreserving(tx: Transaction, n: TableName, p: Prepared, ghost after: Row, ghost key: Row,
                               ghost l: Lsn, ghost time: int)
    returns (r: Result<(), Failure>)
    requires !tx.aborted && n in tx.cat && PreparedFor(p, after, key, l, time)
    modifies tx
    ensures Sent(tx, old(tx.view), n, r, PreservingUpdate(tx.cat[n], Rows(old(tx.view), n), after, key, l, time))
  {
    r := SendUpdate(tx, n, p, after, key, l, time);
    if r.Err? {
      return;
    }
    ghost var updated := Rows(tx.view, n);
    var present := KeyPresent(tx, n, p, after, key, l, time);
    if present {
      return;
    }
    r := SendInsert(tx, n, p, after, key, l, time);
    if r.Ok? {
      WithRowsTwice(old(tx.view), n, updated, Rows(tx.view, n));
    }
  }

  lemma {:induction false} WithRowsTwice(db: Db, n: TableName, t: Table, u: Table)
    ensures WithRows(WithRows(db, n, t), n, u) == WithRows(db, n, u)
  {
    assert db.tables[n := t][n := u] == db.tables[n := u];
  }

  /** The statement and parameters of a delete (applier.go:303-309). */
  method PrepareDelete(e: Event, ghost cat: Catalog) returns (r: Result<(Statement, seq<Arg>), Failure>)
    requires Name(e) in cat
    ensures r.Ok? <==> Transcodable(e.key)
    ensures r.Err? ==> r.error == POISON
    ensures r.Ok? ==> forall db :: Sql.Exec(cat, db, r.value.0, r.value.1) ==
                                   OnTable(db, Name(e),
                                     DeleteRows(cat[Name(e)], Rows(db, Name(e)), e.key, e.source.commitLsn))
  {
    var key := TranscodeRow(e.key);
    if key.Err? {
      return Err(key.error);
    }
    var (keyColumns, keyValues) := key.value;
    var args := keyValues + [LsnArg(e.source.commitLsn)];
    var stmt := BuildDelete(Name(e), keyColumns);
    forall db ensures Sql.Exec(cat, db, stmt, args) ==
                      OnTable(db, Name(e), DeleteRows(cat[Name(e)], Rows(db, Name(e)), e.key, e.source.commitLsn))
    {
      DeleteMeans(cat, db, Name(e), keyColumns, e.key, e.source.commitLsn, args);
    }
    return Ok((stmt, args));
  }

  /** The statement of an upsert with the prepared parameters. */
  method PrepareUpsert(e: Event, p: Prepared, ghost cat: Catalog) returns (stmt: Statement)
    requires Name(e) in cat && PreparedFor(p, e.after, e.key, e.source.commitLsn, e.source.commitTime)
    ensures forall db :: Sql.Exec(cat, db, stmt, p.parameters) ==
                         OnTable(db, Name(e), UpsertRow(cat[Name(e)], Rows(db, Name(e)), e.after, e.key.Keys,
                                                        e.source.commitLsn, e.source.commitTime))
  {
    stmt := BuildUpsert(Name(e), p.columns, p.keyColumns);
    forall db ensures Sql.Exec(cat, db, stmt, p.parameters) ==
                      OnTable(db, Name(e), UpsertRow(cat[Name(e)], Rows(db, Name(e)), e.after, e.key.Keys,
                                                     e.source.commitLsn, e.source.commitTime))
    {
      UpsertMeans(cat, db, Name(e), p.columns, p.keyColumns, e.after, e.key, e.source.commitLsn, e.source.commitTime,
        p.parameters);
    }
  }

  /** applyMutation */
  method ApplyMutation(tx: Transaction, e: Event) returns (r: Result<(), Failure>)
    requires !tx.aborted && Valid(e) && !e.operation.Truncate?
    modifies tx
    ensures match Mutate(tx.cat, old(tx.view), e)
            case Ok(d) => r == Ok(()) && tx.view == d && !tx.aborted
            case Err(f) => r == Err(f)
  {
    if !ColumnsFree(e) {
      return Err(POISON);
    }
    if Name(e) !in tx.cat {
      return Err(TRANSIENT);
    }
    if e.operation.Delete? {
      var deletion := PrepareDelete(e, tx.cat);
      if deletion.Err? {
        return Err(deletion.error);
      }
      r := tx.Exec(deletion.value.0, deletion.value.1);
    } else {
      var p := PrepareWrite(e);
      if p.Err? {
        return Err(p.error);
      }
      if e.unchangedColumns != [] {
        r := ApplyUpdatePreserving(tx, Name(e), p.value, e.after, e.key, e.source.commitLsn, e.source.commitTime);
      } else {
        var stmt := PrepareUpsert(e, p.value, tx.cat);
        r := tx.Exec(stmt, p.value.parameters);
      }
    }
  }

  /** The steps of a truncate after its marker (applyTruncateBatched); true when the table was cleared. */
  method ApplyTruncate(tx: Transaction, e: Event) returns (r: Result<bool, Failure>)
    requires !tx.aborted
    modifies tx
    ensures match TruncateTable(tx.cat, old(tx.view), e)
            case Ok(d) => tx.view == d && !tx.aborted
                          && r == Ok(!TruncateIsStale(e.source.commitLsn, Watermark(old(tx.view), Name(e))))
            case Err(f) => r == Err(f)
  {
    var watermark := Watermark(tx.view, Name(e));
    if TruncateIsStale(e.source.commitLsn, watermark) {
      return Ok(false);
    }
    var cleared := tx.ClearTable(Name(e), e.source.commitLsn);
    if cleared.Err? {
      return Err(cleared.error);
    }
    return Ok(true);
  }

  /** What ApplyInTx reports besides its effect: the event did something now. */
  predicate Applies(db: Db, e: Event) {
    && e.id !in db.markers
    && (e.operation.Truncate? ==> !TruncateIsStale(e.source.commitLsn, Watermark(db, Name(e))))
  }

  method ApplyEventInTx(tx: Transaction, e: Event) returns (r: Result<bool, Failure>)
    requires !tx.aborted
    modifies tx
    ensures match ApplyInTx(tx.cat, old(tx.view), e)
            case Ok(d) => r == Ok(Applies(old(tx.view), e)) && tx.view == d && !tx.aborted
            case Err(f) => r == Err(f)
    ensures r == Ok(false) ==>
              && tx.view.tables == old(tx.view.tables) && tx.view.watermarks == old(tx.view.watermarks)
              && (e.id in old(tx.view.markers) || e.operation.Truncate?)
    ensures r == Ok(true) ==> e.id !in old(tx.view.markers) && e.id in tx.view.markers
  {
    if !Valid(e) {
      return Err(TRANSIENT);
    }
    if !IsIdent(e.schema) || !IsIdent(e.table) {
      return Err(POISON);
    }
    var isNew := tx.MarkApplied(e);
    if !isNew {
      return Ok(false);
    }
    if e.operation.Truncate? {
      r := ApplyTruncate(tx, e);
      return;
    }
    var done := ApplyMutation(tx, e);
    if done.Err? {
      return Err(done.error);
    }
    return Ok(true);
  }

  // ---- a whole source transaction ----------------------------------------------------

  datatype BatchError = BatchError(index: nat, event: Event)

  /**
    The contract of a reported failure: the fold of the events up to the reported one
    fails as well. That event is the first the fold fails at, or fails a check that does
    not depend on the rows; and it either has a bad shape or was new.
  */
  predicate Reports(cat: Catalog, db: Db, events: seq<Event>, error: BatchError) {
    && error.index < |events|
    && error.event == events[error.index]
    && ApplyAll(cat, db, events[..error.index + 1]).Err?
    && (ApplyAll(cat, db, events[..error.index]).Ok? || Unfit(cat, error.event))
    && (Shaped(error.event) ==> Fresh(db, events, error.index))
  }

  /** Phase 1, first half: the shape of every event is checked before anything is sent. */
  method CheckShapes(events: seq<Event>) returns (r: Option<nat>)
    ensures r.None? ==> forall i | 0 <= i < |events| :: Shaped(events[i])
    ensures r.Some? ==>
              && r.value < |events| && !Shaped(events[r.value])
              && forall i | 0 <= i < r.value :: Shaped(events[i])
  {
    for i := 0 to |events|
      invariant forall j | 0 <= j < i :: Shaped(events[j])
    {
      if !Shaped(events[i]) {
        return Some(i);
      }
    }
    return None;
  }

  /** Phase 1, second half: every marker, noting which were new. */
  method WriteMarkers(tx: Transaction, events: seq<Event>) returns (isNew: array<bool>)
    requires !tx.aborted
    modifies tx
    ensures fresh(isNew) && isNew.Length == |events| && !tx.aborted
    ensures forall i | 0 <= i < |events| :: isNew[i] == Fresh(old(tx.view), events, i)
    ensures tx.view == old(tx.view).(markers := MarkAll(old(tx.view).markers, events))
  {
    ghost var db := tx.view;
    isNew := new bool[|events|];
    for i := 0 to |events|
      invariant !tx.aborted
      invariant tx.view == db.(markers := MarkAll(db.markers, events[..i]))
      invariant forall j | 0 <= j < i :: isNew[j] == Fresh(db, events, j)
    {
      MarkNext(db.markers, events, i);
      var n := tx.MarkApplied(events[i]);
      isNew[i] := n;
    }
    assert events[..|events|] == events;
  }

  /** The flush closure: sends the queued statements in order. */
  method Flush(tx: Transaction, queue: seq<Queued>) returns (r: Option<nat>)
    requires !tx.aborted
    modifies tx
    ensures match RunQueue(tx.cat, old(tx.view), queue)
            case Ok(d) => r == None && tx.view == d && !tx.aborted
            case Err(i) => r == Some(i)
  {
    assert queue[0..] == queue;
    for k := 0 to |queue|
      invariant !tx.aborted
      invariant RunQueue(tx.cat, tx.view, queue[k..]) == RunQueue(tx.cat, old(tx.view), queue)
    {
      RunQueueHead(tx.cat, tx.view, queue[k..]);
      assert queue[k..][1..] == queue[k + 1..];
      var sent := tx.Exec(queue[k].stmt, queue[k].args);
      if sent.Err? {
        return Some(queue[k].index);
      }
    }
    return None;
  }

  /** The transaction, once its queue is sent, will agree with the fold of the first `i` events. */
  predicate Pending(tx: Transaction, db: Db, events: seq<Event>, i: nat, queue: seq<Queued>)
    requires i <= |events|
    reads tx
  {
    !tx.aborted && Agrees(tx.cat, db, events, i, RunQueue(tx.cat, tx.view, queue))
  }

  /** Flush inside phase 2: either the queue is gone or the failing event is reported. */
  method FlushPending(tx: Transaction, ghost db: Db, events: seq<Event>, ghost i: nat, queue: seq<Queued>)
    returns (r: Option<BatchError>)
    requires i <= |events| && Pending(tx, db, events, i, queue)
    modifies tx
    ensures r.None? ==> Pending(tx, db, events, i, []) && RunQueue(tx.cat, old(tx.view), queue) == Ok(tx.view)
    ensures r.Some? ==> Reports(tx.cat, db, events, r.value)
  {
    var failed := Flush(tx, queue);
    match failed {
      case None => r := None;
      case Some(j) => r := Some(BatchError(j, events[j]));
    }
  }

  /** Appends a statement whose meaning is the effect of event `i`. */
  method Enqueue(tx: Transaction, ghost db: Db, events: seq<Event>, i: nat, queue: seq<Queued>, stmt: Statement,
      args: seq<Arg>)
    returns (q: seq<Queued>)
    requires i < |events| && Pending(tx, db, events, i, queue)
    requires Shaped(events[i]) && Fresh(db, events, i)
    requires forall d :: Effect(tx.cat, d, events[i]) == Sql.Exec(tx.cat, d, stmt, args)
    ensures Pending(tx, db, events, i + 1, q)
  {
    q := queue + [Queued(i, stmt, args)];
    RunQueueSnoc(tx.cat, tx.view, queue, Queued(i, stmt, args));
    AgreesStep(tx.cat, db, events, i, RunQueue(tx.cat, tx.view, queue));
  }

  /** A truncate, or an update with unchanged columns: flush, then run it at once. */
  method RunNow(tx: Transaction, ghost db: Db, events: seq<Event>, i: nat, queue: seq<Queued>)
    returns (r: Option<BatchError>)
    requires i < |events| && Pending(tx, db, events, i, queue)
    requires Shaped(events[i]) && Fresh(db, events, i)
    modifies tx
    ensures r.None? ==> Pending(tx, db, events, i + 1, [])
    ensures r.Some? ==> Reports(tx.cat, db, events, r.value)
  {
    r := FlushPending(tx, db, events, i, queue);
    if r.Some? {
      return;
    }
    AgreesStep(tx.cat, db, events, i, Ok(tx.view));
    if Effect(tx.cat, tx.view, events[i]).Err? {
      AgreesFail(tx.cat, db, events, i, Ok(tx.view));
    }
    var failed: bool;
    if events[i].operation.Truncate? {
      var done := ApplyTruncate(tx, events[i]);
      failed := done.Err?;
    } else {
      var done := ApplyMutation(tx, events[i]);
      failed := done.Err?;
    }
    if failed {
      r := Some(BatchError(i, events[i]));
    }
  }

  /** Phase 2 for one new event. */
  method Stage(tx: Transaction, ghost db: Db, events: seq<Event>, i: nat, queue: seq<Queued>)
    returns (r: Option<BatchError>, q: seq<Queued>)
    requires i < |events| && Pending(tx, db, events, i, queue)
    requires Shaped(events[i]) && Fresh(db, events, i)
    modifies tx
    ensures r.None? ==> Pending(tx, db, events, i + 1, q)
    ensures r.Some? ==> Reports(tx.cat, db, events, r.value)
  {
    var e := events[i];
    q := [];
    if e.operation.Truncate? {
      r := RunNow(tx, db, events, i, queue);
      return;
    }
    var ok := ColumnsFree(e) && Name(e) in tx.cat;
    if ok && e.operation.Delete? {
      var deletion := PrepareDelete(e, tx.cat);
      if deletion.Ok? {
        q := Enqueue(tx, db, events, i, queue, deletion.value.0, deletion.value.1);
        r := None;
        return;
      }
    } else if ok {
      var p := PrepareWrite(e);
      if p.Ok? && e.unchangedColumns != [] {
        r := RunNow(tx, db, events, i, queue);
        return;
      }
      if p.Ok? {
        var stmt := PrepareUpsert(e, p.value, tx.cat);
        q := Enqueue(tx, db, events, i, queue, stmt, p.value.parameters);
        r := None;
        return;
      }
    }
    // a check failed before anything of this event was sent
    UnfitReports(tx.cat, db, events, i, RunQueue(tx.cat, tx.view, queue));
    r := Some(BatchError(i, e));
  }

  lemma {:induction false} UnfitReports(cat: Catalog, db: Db, events: seq<Event>, i: nat, q: Result<Db, nat>)
    requires i < |events| && Agrees(cat, db, events, i, q)
    requires Shaped(events[i]) && Fresh(db, events, i) && Unfit(cat, events[i])
    ensures Reports(cat, db, events, BatchError(i, events[i]))
  {
    AgreesFail(cat, db, events, i, q);
  }

  /**
    ApplyBatch. It succeeds exactly when the sequential fold does, with the same
    database; otherwise the fold fails no later than the event it reports.
  */
  method ApplyBatch(tx: Transaction, events: seq<Event>) returns (r: Option<BatchError>)
    requires !tx.aborted
    modifies tx
    ensures r.None? <==> ApplyAll(tx.cat, old(tx.view), events).Ok?
    ensures r.None? ==> !tx.aborted && ApplyAll(tx.cat, old(tx.view), events) == Ok(tx.view)
    ensures r.Some? ==> Reports(tx.cat, old(tx.view), events, r.value)
  {
    ghost var db := tx.view;
    var misshapen := CheckShapes(events);
    if misshapen.Some? {
      ShapeFails(tx.cat, db, events, misshapen.value);
      PrefixFails(tx.cat, db, events, misshapen.value + 1);
      return Some(BatchError(misshapen.value, events[misshapen.value]));
    }
    var isNew := WriteMarkers(tx, events);
    var queue: seq<Queued> := [];
    AgreesStart(tx.cat, db, events);
    for i := 0 to |events|
      invariant Pending(tx, db, events, i, queue)
      invariant forall j | 0 <= j < |events| :: isNew[j] == Fresh(db, events, j)
    {
      if !isNew[i] {
        AgreesSkip(tx.cat, db, events, i, RunQueue(tx.cat, tx.view, queue));
        continue;
      }
      r, queue := Stage(tx, db, events, i, queue);
      if r.Some? {
        PrefixFails(tx.cat, db, events, r.value.index + 1);
        return;
      }
    }
    r := FlushPending(tx, db, events, |events|, queue);
    if r.Some? {
      PrefixFails(tx.cat, db, events, r.value.index + 1);
    } else {
      AgreesEnd(tx.cat, db, events, tx.view);
    }
  }

  // ---- the destination connection ------------------------------------------------------

  /** The writer's connection: what is committed, and one transaction at a time. */
  class Connection {
    const cat: Catalog
    var committed: Db

    constructor (cat: Catalog, db: Db)
      ensures this.cat == cat && committed == db
    {
      this.cat, committed := cat, db;
    }

    method Begin() returns (tx: Transaction)
      ensures fresh(tx) && tx.cat == cat && tx.view == committed && !tx.aborted
    {
      tx := new Transaction(cat, committed);
    }

    method Commit(tx: Transaction)
      requires !tx.aborted
      modifies this
      ensures committed == tx.view
    {
      committed := tx.view;
    }

    /** Apply: one event in its own transaction; a failure leaves nothing behind. */
    method Apply(e: Event) returns (r: Result<bool, Failure>)
      modifies this
      ensures match ApplyInTx(cat, old(committed), e)
              case Ok(d) => r == Ok(Applies(old(committed), e)) && committed == d
              case Err(f) => r == Err(f) && committed == old(committed)
      ensures r.Ok? ==>
                (!r.value <==>
                  || e.id in old(committed.markers)
                  || (e.operation.Truncate? && Name(e) in old(committed.watermarks)
                      && 0 < old(committed.watermarks)[Name(e)]
                      && e.source.commitLsn <= old(committed.watermarks)[Name(e)]))
    {
      if !Valid(e) {
        return Err(TRANSIENT);
      }
      var tx := Begin();
      r := ApplyEventInTx(tx, e);
      if r.Ok? {
        Commit(tx);
      }
    }
  }
}
