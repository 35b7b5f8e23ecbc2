/**
  The initial snapshot: every row of every published table is upserted inside one
  destination transaction (internal/destination/snapshot.go), and the hand-over to the
  live log that follows it.
*/
module Snapshot {
  import opened Wrappers
  import opened Cdc
  import opened Destination
  import opened Sql
  import opened Applier

  /** What the repeatable-read transaction shows: the columns and the rows of each table, in reading order. */
  datatype SourceView = SourceView(columns: map<TableName, set<string>>, rows: map<TableName, seq<Row>>)

  /** Every row has exactly the columns of its table. */
  predicate WellFormed(view: SourceView) {
    && view.columns.Keys == view.rows.Keys
    && forall n | n in view.rows :: forall i | 0 <= i < |view.rows[n]| :: view.rows[n][i].Keys == view.columns[n]
  }

  // ---- specification ----------------------------------------------------------------

  predicate KeyPresentIn(row: Row, key: set<string>) {
    forall c | c in key :: c in row && row[c] != Null
  }

  /** UpsertSnapshotRow */
  function SnapshotRow(cat: Catalog, db: Db, n: TableName, after: Row, key: Row, l: Lsn, time: int)
    : Result<Db, Failure>
  {
    if !IsIdent(n.schema) || !IsIdent(n.table) then Err(POISON)
    else if !Transcodable(after) || !Transcodable(key) || !(key.Keys <= after.Keys) then Err(POISON)
    else if n !in cat then Err(TRANSIENT)
    else OnTable(db, n, UpsertRow(cat[n], Rows(db, n), after, key.Keys, l, time))
  }

  /** The destination columns, metadata included, that the source has too. */
  function Selected(def: TableDef, present: set<string>): set<string> {
    set c | c in def.columns + RESERVED && c in present
  }

  /** One scanned row of copyTable. */
  function CopyRow(cat: Catalog, db: Db, n: TableName, columns: set<string>, values: Row, l: Lsn,
      time: int)
    : Result<Db, Failure>
    requires n in cat
  {
    var row := Restrict(values, columns);
    if !KeyPresentIn(row, cat[n].key) then Err(TRANSIENT)
    else SnapshotRow(cat, db, n, row, Restrict(row, cat[n].key), l, time)
  }

  /** The rows of copyTable from the `k`th on. */
  function CopyRows(cat: Catalog, db: Db, n: TableName, columns: set<string>, rows: seq<Row>, l: Lsn, time: int, k: nat)
    : Result<Db, Failure>
    requires n in cat && k <= |rows|
    decreases |rows| - k
  {
    if k == |rows| then Ok(db)
    else
      match CopyRow(cat, db, n, columns, rows[k], l, time)
      case Err(f) => Err(f)
      case Ok(d) => CopyRows(cat, d, n, columns, rows, l, time, k + 1)
  }

  function CopyTable(cat: Catalog, db: Db, view: SourceView, n: TableName, l: Lsn, time: int): Result<Db, Failure> {
    if n !in cat || n !in view.columns || n !in view.rows || cat[n].key == {} then Err(TRANSIENT)
    else
      var columns := Selected(cat[n], view.columns[n]);
      if !(cat[n].key <= columns) then Err(TRANSIENT)
      else CopyRows(cat, db, n, columns, view.rows[n], l, time, 0)
  }

  /** The tables of RunSnapshot from the `k`th on. */
  function CopyTables(cat: Catalog, db: Db, view: SourceView, tables: seq<TableName>, l: Lsn, time: int, k: nat)
    : Result<Db, Failure>
    requires k <= |tables|
    decreases |tables| - k
  {
    if k == |tables| then Ok(db)
    else
      match CopyTable(cat, db, view, tables[k], l, time)
      case Err(f) => Err(f)
      case Ok(d) => CopyTables(cat, d, view, tables, l, time, k + 1)
  }

  // ---- the loops ------------------------------------------------------------------------

  method VerifyRowAgainstPrimaryKey(row: Row, primaryKey: seq<string>) returns (ok: bool)
    ensures ok <==> KeyPresentIn(row, set c | c in primaryKey)
  {
    for i := 0 to |primaryKey|
      invariant forall j | 0 <= j < i :: primaryKey[j] in row && row[primaryKey[j]] != Null
    {
      if primaryKey[i] !in row || row[primaryKey[i]] == Null {
        assert primaryKey[i] in primaryKey;
        return false;
      }
    }
    return true;
  }

  method UpsertSnapshotRow(tx: Transaction, n: TableName, after: Row, key: Row, l: Lsn,
      time: int)
    returns (r: Result<(), Failure>)
    requires !tx.aborted
    modifies tx
    ensures match SnapshotRow(tx.cat, old(tx.view), n, after, key, l, time)
            case Ok(d) => r == Ok(()) && tx.view == d && !tx.aborted
            case Err(f) => r == Err(f)
  {
    if !IsIdent(n.schema) || !IsIdent(n.table) {
      return Err(POISON);
    }
    var written := TranscodeRow(after);
    if written.Err? {
      return Err(written.error);
    }
    var identity := TranscodeRow(key);
    if identity.Err? {
      return Err(identity.error);
    }
    var (columns, values) := written.value;
    var keyColumns := identity.value.0;
    ListsMembers(columns, after);
    ListsMembers(keyColumns, key);
    var ok := CheckKeyColumns(columns, keyColumns, []);
    if !ok {
      return Err(POISON);
    }
    if n !in tx.cat {
      return Err(TRANSIENT);
    }
    var stmt := BuildUpsert(n, columns, keyColumns);
    var parameters := values + [LsnArg(l), TimeArg(time)];
    UpsertMeans(tx.cat, tx.view, n, columns, keyColumns, after, key, l, time, parameters);
    r := tx.Exec(stmt, parameters);
  }

  /** The members of a set, in some order: the answer of a catalog query. */
  method List(names: set<string>) returns (r: seq<string>)
    ensures forall c :: c in r <==> c in names
  {
    r := [];
    var rest := names;
    while rest != {}
      invariant rest <= names
      invariant forall c :: c in r <==> c in names && c !in rest
      decreases rest
    {
      var c :| c in rest;
      r, rest := r + [c], rest - {c};
    }
  }

  /** The image of one scanned row: a value for each selected column. */
  method ScanRow(values: Row, columns: seq<string>) returns (row: Row)
    requires forall c | c in columns :: c in values
    ensures row == Restrict(values, set c | c in columns)
  {
    row := map[];
    for i := 0 to |columns|
      invariant row == Restrict(values, set c | c in columns[..i])
    {
      assert columns[..i + 1] == columns[..i] + [columns[i]];
      row := row[columns[i] := values[columns[i]]];
    }
    assert columns[..|columns|] == columns;
  }

  /** The list of columns to read, or None when a key column is missing on the source. */
  method SelectColumns(dstColumns: seq<string>, present: set<string>,
      primaryKey: seq<string>)
    returns (r: Option<seq<string>>)
    ensures r.Some? <==> forall c | c in primaryKey :: c in dstColumns && c in present
    ensures r.Some? ==> forall c :: c in r.value <==> c in dstColumns && c in present
  {
    var columns: seq<string> := [];
    for i := 0 to |dstColumns|
      invariant forall c :: c in columns <==> c in dstColumns[..i] && c in present
    {
      assert dstColumns[..i + 1] == dstColumns[..i] + [dstColumns[i]];
      if dstColumns[i] in present {
        columns := columns + [dstColumns[i]];
      }
    }
    assert dstColumns[..|dstColumns|] == dstColumns;
    for i := 0 to |primaryKey|
      invariant forall j | 0 <= j < i :: primaryKey[j] in columns
    {
      if primaryKey[i] !in columns {
        assert primaryKey[i] in primaryKey;
        return None;
      }
    }
    return Some(columns);
  }

  method CopyOneRow(tx: Transaction, n: TableName, columns: seq<string>, primaryKey: seq<string>, values: Row,
      l: Lsn, time: int)
    returns (r: Result<(), Failure>)
    requires !tx.aborted && n in tx.cat && (set c | c in primaryKey) == tx.cat[n].key
    requires forall c | c in columns :: c in values
    modifies tx
    ensures match CopyRow(tx.cat, old(tx.view), n, (set c | c in columns), values, l, time)
            case Ok(d) => r == Ok(()) && tx.view == d && !tx.aborted
            case Err(f) => r == Err(f)
  {
    var row := ScanRow(values, columns);
    var ok := VerifyRowAgainstPrimaryKey(row, primaryKey);
    if !ok {
      return Err(TRANSIENT);
    }
    assert forall c | c in primaryKey :: c in tx.cat[n].key;
    var key := ScanRow(row, primaryKey);
    r := UpsertSnapshotRow(tx, n, row, key, l, time);
  }

  /** The row loop of copyTable: one upsert per scanned row. */
  method CopyScanned(tx: Transaction, n: TableName, columns: seq<string>, primaryKey: seq<string>, rows: seq<Row>,
      l: Lsn, time: int)
    returns (r: Result<nat, Failure>)
    requires !tx.aborted && n in tx.cat && (set c | c in primaryKey) == tx.cat[n].key
    requires forall i | 0 <= i < |rows| :: forall c | c in columns :: c in rows[i]
    modifies tx
    ensures match CopyRows(tx.cat, old(tx.view), n, (set c | c in columns), rows, l, time, 0)
            case Ok(d) => r == Ok(|rows|) && tx.view == d && !tx.aborted
            case Err(f) => r == Err(f)
  {
    ghost var db, selected := tx.view, (set c | c in columns);
    for i := 0 to |rows|
      invariant !tx.aborted
      invariant CopyRows(tx.cat, db, n, selected, rows, l, time, 0) ==
                CopyRows(tx.cat, tx.view, n, selected, rows, l, time, i)
    {
      var done := CopyOneRow(tx, n, columns, primaryKey, rows[i], l, time);
      if done.Err? {
        return Err(done.error);
      }
    }
    return Ok(|rows|);
  }

  /** copyTable: the columns both sides have, then one upsert per source row. */
  method CopyTableRows(tx: Transaction, view: SourceView, n: TableName, primaryKey: seq<string>, l: Lsn, time: int)
    returns (r: Result<nat, Failure>)
    requires !tx.aborted && WellFormed(view) && n in tx.cat && n in view.rows
    requires primaryKey != [] && (set c | c in primaryKey) == tx.cat[n].key
    modifies tx
    ensures match CopyTable(tx.cat, old(tx.view), view, n, l, time)
            case Ok(d) => r == Ok(|view.rows[n]|) && tx.view == d && !tx.aborted
            case Err(f) => r == Err(f)
  {
    var def := tx.cat[n];
    assert primaryKey[0] in def.key;
    assert forall c :: c in def.key <==> c in primaryKey;
    var dstColumns := List(def.columns + RESERVED);
    var columns := SelectColumns(dstColumns, view.columns[n], primaryKey);
    if columns.None? {
      return Err(TRANSIENT);
    }
    assert (set c | c in columns.value) == Selected(def, view.columns[n]);
    r := CopyScanned(tx, n, columns.value, primaryKey, view.rows[n], l, time);
  }

  /** One published table; a table without a destination, or without a primary key there, stops the snapshot. */
  method CopyPublished(tx: Transaction, view: SourceView, n: TableName, l: Lsn, time: int)
    returns (r: Result<nat, Failure>)
    requires !tx.aborted && WellFormed(view)
    modifies tx
    ensures match CopyTable(tx.cat, old(tx.view), view, n, l, time)
            case Ok(d) => n in view.rows && r == Ok(|view.rows[n]|) && tx.view == d && !tx.aborted
            case Err(f) => r == Err(f)
  {
    if n !in tx.cat || n !in view.rows || tx.cat[n].key == {} {
      return Err(TRANSIENT);
    }
    var primaryKey := List(tx.cat[n].key);
    r := CopyTableRows(tx, view, n, primaryKey, l, time);
  }

  /** The rows of the first `n` tables. */
  function RowCount(view: SourceView, tables: seq<TableName>, n: nat): nat
    requires n <= |tables|
  {
    if n == 0 then 0
    else
      RowCount(view, tables, n - 1) + if tables[n - 1] in view.rows then |view.rows[tables[n - 1]]| else 0
  }

  /** The table loop of RunSnapshot, in the destination transaction. */
  method CopyPublishedTables(tx: Transaction, view: SourceView, tables: seq<TableName>, l: Lsn, time: int)
    returns (r: Result<nat, Failure>)
    requires !tx.aborted && WellFormed(view)
    modifies tx
    ensures match CopyTables(tx.cat, old(tx.view), view, tables, l, time, 0)
            case Ok(d) => r == Ok(RowCount(view, tables, |tables|)) && tx.view == d && !tx.aborted
            case Err(f) => r == Err(f)
  {
    ghost var db := tx.view;
    var total: nat := 0;
    for i := 0 to |tables|
      invariant !tx.aborted && total == RowCount(view, tables, i)
      invariant CopyTables(tx.cat, db, view, tables, l, time, 0) ==
                CopyTables(tx.cat, tx.view, view, tables, l, time, i)
    {
      var count := CopyPublished(tx, view, tables[i], l, time);
      if count.Err? {
        return Err(count.error);
      }
      total := total + count.value;
    }
    return Ok(total);
  }

  /** RunSnapshot: every table or nothing. */
  method RunSnapshot(c: Connection, view: SourceView, tables: seq<TableName>, l: Lsn,
      time: int)
    returns (r: Result<nat, Failure>)
    requires WellFormed(view)
    modifies c
    ensures tables == [] ==> r.Err? && c.committed == old(c.committed)
    ensures tables != [] ==>
              match CopyTables(c.cat, old(c.committed), view, tables, l, time, 0)
              case Ok(d) => r == Ok(RowCount(view, tables, |tables|)) && c.committed == d
              case Err(f) => r == Err(f) && c.committed == old(c.committed)
  {
    if tables == [] {
      return Err(TRANSIENT);
    }
    var tx := c.Begin();
    r := CopyPublishedTables(tx, view, tables, l, time);
    if r.Ok? {
      c.Commit(tx);
    }
  }

  // ---- what stops a snapshot --------------------------------------------------------------

  /** The destination has the table with a primary key, and the source has all columns of that key. */
  predicate Replicable(cat: Catalog, view: SourceView, n: TableName) {
    && n in cat && n in view.columns && n in view.rows
    && cat[n].key != {} && forall c | c in cat[n].key :: c in view.columns[n]
  }

  /** One table that cannot be copied stops the whole snapshot, even when it has no rows. */
  lemma {:induction false} TableStopsSnapshot(cat: Catalog, db: Db, view: SourceView, tables: seq<TableName>, l: Lsn,
      time: int, k: nat, i: nat)
    requires k <= i < |tables| && !Replicable(cat, view, tables[i])
    ensures CopyTables(cat, db, view, tables, l, time, k).Err?
    decreases i - k
  {
    if k < i && CopyTable(cat, db, view, tables[k], l, time).Ok? {
      TableStopsSnapshot(cat, CopyTable(cat, db, view, tables[k], l, time).value, view, tables, l, time, k + 1, i);
    }
  }

  // ---- what a copied row leaves -----------------------------------------------------------

  lemma {:induction false} UpsertLands(def: TableDef, t: Table, row: Row, k: Row, l: Lsn, time: int)
    requires def.key <= def.columns && Restrict(row, def.key) == k && k.Keys == def.key
    requires UpsertRow(def, t, row, def.key, l, time).Ok?
    ensures UpsertRow(def, t, row, def.key, l, time).value ==
            if k !in t then t[k := Stored(Candidate(def, row), Some(l), time)]
            else if GuardOk(t[k], l) then t[k := Stored(t[k].cols + row, Some(l), time)]
            else t
  {
    forall c | c in def.key ensures Candidate(def, row)[c] == k[c] {
      assert c in Restrict(row, def.key);
    }
    assert Restrict(Candidate(def, row), def.key) == k;
  }

  /**
    What is under the key of a copied row: the newer row that was there, or else in each column
    the source's value, where the source lacks the column the old value, and NULL without one.
  */
  predicate Landed(def: TableDef, values: Row, was: Option<Stored>, now: Option<Stored>, l: Lsn, time: int) {
    && now.Some?
    && (if was.Some? && was.value.lsn.Some? && was.value.lsn.value > l then now == was
       else
         && now.value.lsn == Some(l) && now.value.time == time
         && forall c | c in def.columns ::
              if c in values then c in now.value.cols && now.value.cols[c] == values[c]
              else if was.None? then c in now.value.cols && now.value.cols[c] == Null
              else c in was.value.cols ==> c in now.value.cols && now.value.cols[c] == was.value.cols[c])
  }

  lemma {:induction false} RowLands(def: TableDef, values: Row, row: Row, was: Option<Stored>, now: Option<Stored>,
      l: Lsn, time: int)
    requires row.Keys == def.columns * values.Keys && forall c | c in row :: row[c] == values[c]
    requires now == if was.None? then Some(Stored(Candidate(def, row), Some(l), time))
                    else if GuardOk(was.value, l) then Some(Stored(was.value.cols + row, Some(l), time))
                    else was
    ensures Landed(def, values, was, now, l, time)
  {
  }

  lemma {:induction false} OneChanges(db: Db, n: TableName, u: Table, k: Row)
    requires forall j | j != k :: (j in u <==> j in Rows(db, n)) && (j in u ==> u[j] == Rows(db, n)[j])
    ensures forall m, j | m != n || j != k :: Entry(WithRows(db, n, u), m, j) == Entry(db, m, j)
  {
  }

  lemma {:induction false} UpsertedLands(cat: Catalog, db: Db, n: TableName, values: Row, row: Row, l: Lsn, time: int)
    requires n in cat && cat[n].key <= cat[n].columns && cat[n].key <= row.Keys
    requires row.Keys == cat[n].columns * values.Keys && forall c | c in row :: row[c] == values[c]
    requires UpsertRow(cat[n], Rows(db, n), row, cat[n].key, l, time).Ok?
    ensures var d := WithRows(db, n, UpsertRow(cat[n], Rows(db, n), row, cat[n].key, l, time).value);
            var k := Restrict(values, cat[n].key);
            && Landed(cat[n], values, Entry(db, n, k), Entry(d, n, k), l, time)
            && forall m, j | m != n || j != k :: Entry(d, m, j) == Entry(db, m, j)
  {
    var def, t, k := cat[n], Rows(db, n), Restrict(values, cat[n].key);
    assert Restrict(row, def.key) == k;
    UpsertLands(def, t, row, k, l, time);
    var u := UpsertRow(def, t, row, def.key, l, time).value;
    RowLands(def, values, row, Entry(db, n, k), Entry(WithRows(db, n, u), n, k), l, time);
    OneChanges(db, n, u, k);
  }

  lemma {:induction false} CopiedIsUpserted(cat: Catalog, db: Db, n: TableName, values: Row, l: Lsn, time: int)
    returns (row: Row)
    requires n in cat && cat[n].key <= cat[n].columns
    requires CopyRow(cat, db, n, Selected(cat[n], values.Keys), values, l, time).Ok?
    ensures row.Keys == cat[n].columns * values.Keys && forall c | c in row :: row[c] == values[c]
    ensures cat[n].key <= row.Keys
    ensures UpsertRow(cat[n], Rows(db, n), row, cat[n].key, l, time).Ok?
    ensures CopyRow(cat, db, n, Selected(cat[n], values.Keys), values, l, time).value ==
            WithRows(db, n, UpsertRow(cat[n], Rows(db, n), row, cat[n].key, l, time).value)
  {
    row := Restrict(values, Selected(cat[n], values.Keys));
    assert Restrict(row, cat[n].key).Keys == cat[n].key;
  }

  /** A copied row lands under its key; a column the destination lacks is passed over, and nothing else changes. */
  lemma {:induction false} CopyRowLands(cat: Catalog, db: Db, n: TableName, values: Row, l: Lsn, time: int)
    requires n in cat && cat[n].key <= cat[n].columns
    requires CopyRow(cat, db, n, Selected(cat[n], values.Keys), values, l, time).Ok?
    ensures cat[n].key <= values.Keys
    ensures var d := CopyRow(cat, db, n, Selected(cat[n], values.Keys), values, l, time).value;
            var k := Restrict(values, cat[n].key);
            && Landed(cat[n], values, Entry(db, n, k), Entry(d, n, k), l, time)
            && (forall m, j | m != n || j != k :: Entry(d, m, j) == Entry(db, m, j))
            && d.markers == db.markers && d.watermarks == db.watermarks && d.letters == db.letters
  {
    var row := CopiedIsUpserted(cat, db, n, values, l, time);
    UpsertedLands(cat, db, n, values, row, l, time);
  }

  /** A row without a value in a key column stops the snapshot, and so does a source column of a reserved name. */
  lemma {:induction false} CopyRowStops(cat: Catalog, db: Db, n: TableName, values: Row, l: Lsn, time: int, c: string)
    requires n in cat
    ensures c in cat[n].key && (c !in values || values[c] == Null) ==>
              CopyRow(cat, db, n, Selected(cat[n], values.Keys), values, l, time) == Err(TRANSIENT)
    ensures (c == "source_lsn" || c == "source_commit_time" || c == "replicated_at") && c in values ==>
              CopyRow(cat, db, n, Selected(cat[n], values.Keys), values, l, time).Err?
  {
    if c in RESERVED && c in values {
      assert c in Restrict(values, Selected(cat[n], values.Keys));
    }
  }

  // ---- what a snapshot row is -----------------------------------------------------------

  /** The insert event a snapshot row stands for. */
  function RowEvent(n: TableName, row: Row, key: Row, l: Lsn, time: int): Event {
    Event(EVENT_VERSION, "snapshot", n.schema, n.table, Operation.Insert, key, map[], row,
          SourceMetadata(0, l, l, time, 1, 1), [])
  }

  /** A snapshot row is applied exactly like an insert event at the snapshot's LSN. */
  lemma {:induction false} SnapshotRowIsInsert(cat: Catalog, db: Db, n: TableName, after: Row, key: Row, l: Lsn,
      time: int)
    requires IsIdent(n.schema) && IsIdent(n.table)
    ensures var r, e := SnapshotRow(cat, db, n, after, key, l, time), Effect(cat, db, RowEvent(n, after, key, l, time));
            (r.Ok? <==> e.Ok?) && (r.Ok? ==> r.value == e.value)
  {
    assert Name(RowEvent(n, after, key, l, time)) == n;
  }
}
