/**
  From the snapshot to the live log: whatever moment of the log the snapshot shows, and
  however often it was retaken, replaying the log reaches the source's rows.
*/
module Handover {
  import opened Wrappers
  import opened Cdc
  import opened Destination
  import opened Convergence
  import opened Failures
  import opened Healing
  import opened Snapshot

  /** The entry after a snapshot upsert of `row`, or of nothing. */
  function Offered(d: Option<Stored>, row: Option<Row>, l: Lsn, time: int): Option<Stored> {
    if row.Some? && (d.Some? ==> GuardOk(d.value, l)) then Some(Stored(row.value, Some(l), time)) else d
  }

  function KeyAt(rows: seq<Row>, def: TableDef, i: nat): Row
    requires i < |rows|
  {
    Restrict(rows[i], def.key)
  }

  function ImageAt(rows: seq<Row>, def: TableDef, i: nat): Row
    requires i < |rows|
  {
    Restrict(rows[i], def.columns)
  }

  /** The first `i` scanned rows by key. */
  function Listed(rows: seq<Row>, def: TableDef, i: nat): SourceTable
    requires i <= |rows|
  {
    if i == 0 then map[] else Listed(rows, def, i - 1)[KeyAt(rows, def, i - 1) := ImageAt(rows, def, i - 1)]
  }

  function Lookup(t: SourceTable, k: Row): Option<Row> {
    if k in t then Some(t[k]) else None
  }

  predicate DistinctKeys(rows: seq<Row>, def: TableDef) {
    forall i, j {:trigger KeyAt(rows, def, i), KeyAt(rows, def, j)} | 0 <= i < j < |rows| ::
      KeyAt(rows, def, i) != KeyAt(rows, def, j)
  }

  /** The view holds table `n` of `src`: all its columns, one row per key. */
  predicate ShowsTable(def: TableDef, view: SourceView, src: Source, n: TableName) {
    && n in view.columns && n in view.rows
    && def.columns <= view.columns[n] && view.columns[n] !! RESERVED
    && (forall i | 0 <= i < |view.rows[n]| :: def.columns <= view.rows[n][i].Keys)
    && DistinctKeys(view.rows[n], def)
    && Listed(view.rows[n], def, |view.rows[n]|) == SourceRows(src, n)
  }

  /** The view is the state `src`. */
  predicate Shows(cat: Catalog, view: SourceView, src: Source) {
    WellFormed(view) && forall n | n in cat :: ShowsTable(cat[n], view, src, n)
  }

  lemma {:induction false} RestrictTwice(row: Row, a: set<string>, b: set<string>)
    requires b <= a
    ensures Restrict(Restrict(row, a), b) == Restrict(row, b)
  {
  }

  lemma {:induction false} NotListedYet(rows: seq<Row>, def: TableDef, i: nat, j: nat)
    requires j <= i < |rows| && DistinctKeys(rows, def)
    ensures KeyAt(rows, def, i) !in Listed(rows, def, j)
  {
    if j > 0 {
      NotListedYet(rows, def, i, j - 1);
    }
  }

  // ---- what the copy leaves ----------------------------------------------------------------

  lemma {:induction false} RowEventAcceptable(cat: Catalog, n: TableName, row: Row, l: Lsn, time: int)
    requires CatalogOk(cat) && n in cat && IsIdent(n.schema) && IsIdent(n.table)
    requires row.Keys == cat[n].columns && KeyPresentIn(row, cat[n].key)
    requires Transcodable(row) && Transcodable(Restrict(row, cat[n].key))
    ensures Acceptable(cat, RowEvent(n, row, Restrict(row, cat[n].key), l, time))
  {
    assert Columns(RowEvent(n, row, Restrict(row, cat[n].key), l, time)) == {};
  }

  /** Only tables differ, and there only one entry. */
  ghost predicate OneEntry(cat: Catalog, db: Db, d: Db, n: TableName, key: Row, entry: Option<Stored>) {
    && DbOk(cat, d) && d.markers == db.markers && d.watermarks == db.watermarks && d.letters == db.letters
    && forall m, k | m in cat :: Entry(d, m, k) == if m == n && k == key then entry else Entry(db, m, k)
  }

  lemma {:induction false} RowLands(cat: Catalog, db: Db, n: TableName, values: Row, l: Lsn, time: int)
    requires CatalogOk(cat) && DbOk(cat, db) && n in cat && cat[n].columns <= values.Keys
    requires CopyRow(cat, db, n, cat[n].columns, values, l, time).Ok?
    ensures var key := Restrict(values, cat[n].key);
            OneEntry(cat, db, CopyRow(cat, db, n, cat[n].columns, values, l, time).value, n, key,
                     Offered(Entry(db, n, key), Some(Restrict(values, cat[n].columns)), l, time))
  {
    var row := Restrict(values, cat[n].columns);
    RestrictTwice(values, cat[n].columns, cat[n].key);
    var key := Restrict(row, cat[n].key);
    assert row.Keys == cat[n].columns;
    UpsertLands(cat, db, n, row, key, l, time);
  }

  lemma {:induction false} UpsertLands(cat: Catalog, db: Db, n: TableName, row: Row, key: Row, l: Lsn, time: int)
    requires CatalogOk(cat) && DbOk(cat, db) && n in cat && row.Keys == cat[n].columns
    requires KeyPresentIn(row, cat[n].key) && key == Restrict(row, cat[n].key)
    requires SnapshotRow(cat, db, n, row, key, l, time).Ok?
    ensures OneEntry(cat, db, SnapshotRow(cat, db, n, row, key, l, time).value, n, key,
                     Offered(Entry(db, n, key), Some(row), l, time))
  {
    var e := RowEvent(n, row, key, l, time);
    var d := SnapshotRow(cat, db, n, row, key, l, time).value;
    SnapshotRowIsInsert(cat, db, n, row, key, l, time);
    RowEventAcceptable(cat, n, row, l, time);
    EffectRows(cat, db, e);
    EntriesOf(cat, db, d, e);
    InsertStep(cat[n], Entry(db, n, key), row, e, n, key);
    assert TableOk(cat[n], Rows(db, n));
  }

  lemma {:induction false} InsertStep(def: TableDef, d: Option<Stored>, row: Row, e: Event, n: TableName, key: Row)
    requires e.operation.Insert? && Name(e) == n && e.key == key && e.after == row && row.Keys == def.columns
    requires d.Some? ==> d.value.cols.Keys == def.columns
    ensures EntryStep(def, d, e, n, key) == Offered(d, Some(row), e.source.commitLsn, e.source.commitTime)
  {
    assert Candidate(def, row) == row;
    if d.Some? {
      assert d.value.cols + row == row;
    }
  }

  /** Every key of `listed` was offered its row; nothing else changed. */
  ghost predicate RowsOffered(cat: Catalog, db: Db, d: Db, n: TableName, listed: SourceTable, l: Lsn, time: int) {
    && DbOk(cat, d) && d.markers == db.markers && d.watermarks == db.watermarks && d.letters == db.letters
    && forall m, k | m in cat ::
         Entry(d, m, k) == if m == n then Offered(Entry(db, m, k), Lookup(listed, k), l, time) else Entry(db, m, k)
  }

  lemma {:induction false} RowsLandStep(cat: Catalog, db: Db, mid: Db, n: TableName, rows: seq<Row>, k: nat, l: Lsn,
      time: int)
    requires CatalogOk(cat) && n in cat && k < |rows| && cat[n].columns <= rows[k].Keys
    requires KeyAt(rows, cat[n], k) !in Listed(rows, cat[n], k)
    requires RowsOffered(cat, db, mid, n, Listed(rows, cat[n], k), l, time)
    requires CopyRow(cat, mid, n, cat[n].columns, rows[k], l, time).Ok?
    ensures RowsOffered(cat, db, CopyRow(cat, mid, n, cat[n].columns, rows[k], l, time).value, n,
            Listed(rows, cat[n], k + 1), l, time)
  {
    RowLands(cat, mid, n, rows[k], l, time);
    RowsCompose(cat, db, mid, CopyRow(cat, mid, n, cat[n].columns, rows[k], l, time).value, n, Listed(rows, cat[n], k),
                KeyAt(rows, cat[n], k), ImageAt(rows, cat[n], k), l, time);
  }

  lemma {:induction false} RowsLand(cat: Catalog, db: Db, n: TableName, rows: seq<Row>, l: Lsn, time: int)
    requires CatalogOk(cat) && DbOk(cat, db) && n in cat
    requires DistinctKeys(rows, cat[n]) && forall j | 0 <= j < |rows| :: cat[n].columns <= rows[j].Keys
    requires CopyRows(cat, db, n, cat[n].columns, rows, l, time, 0).Ok?
    ensures RowsOffered(cat, db, CopyRows(cat, db, n, cat[n].columns, rows, l, time, 0).value, n,
                        Listed(rows, cat[n], |rows|), l, time)
  {
    var d := db;
    for k := 0 to |rows|
      invariant CopyRows(cat, db, n, cat[n].columns, rows, l, time, 0) ==
                CopyRows(cat, d, n, cat[n].columns, rows, l, time, k)
      invariant RowsOffered(cat, db, d, n, Listed(rows, cat[n], k), l, time)
    {
      NotListedYet(rows, cat[n], k, k);
      var next := CopyRow(cat, d, n, cat[n].columns, rows[k], l, time).value;
      RowsLandStep(cat, db, d, n, rows, k, l, time);
      d := next;
    }
  }

  lemma {:induction false} RowsCompose(cat: Catalog, db: Db, mid: Db, d: Db, n: TableName, listed: SourceTable,
      key: Row, row: Row, l: Lsn, time: int)
    requires n in cat && key !in listed && RowsOffered(cat, db, mid, n, listed, l, time)
    requires OneEntry(cat, mid, d, n, key, Offered(Entry(mid, n, key), Some(row), l, time))
    ensures RowsOffered(cat, db, d, n, listed[key := row], l, time)
  {
  }

  lemma {:induction false} SelectedIsAll(def: TableDef, present: set<string>)
    requires def.columns <= present && present !! RESERVED
    ensures Selected(def, present) == def.columns
  {
  }

  /** Every source row of the tables in `copied` was offered; nothing else changed. */
  ghost predicate TablesOffered(cat: Catalog, db: Db, d: Db, copied: set<TableName>, src: Source, l: Lsn, time: int) {
    && DbOk(cat, d) && d.markers == db.markers && d.watermarks == db.watermarks && d.letters == db.letters
    && forall m, k | m in cat ::
         Entry(d, m, k) ==
           if m in copied then Offered(Entry(db, m, k), SourceEntry(src, m, k), l, time) else Entry(db, m, k)
  }

  lemma {:induction false} TableLands(cat: Catalog, db: Db, view: SourceView, src: Source, n: TableName, l: Lsn,
      time: int)
    requires CatalogOk(cat) && DbOk(cat, db) && n in cat && ShowsTable(cat[n], view, src, n)
    requires CopyTable(cat, db, view, n, l, time).Ok?
    ensures TablesOffered(cat, db, CopyTable(cat, db, view, n, l, time).value, {n}, src, l, time)
  {
    SelectedIsAll(cat[n], view.columns[n]);
    RowsLand(cat, db, n, view.rows[n], l, time);
  }

  lemma {:induction false} TablesCompose(cat: Catalog, db: Db, mid: Db, d: Db, copied: set<TableName>, n: TableName,
      src: Source, l: Lsn, time: int)
    requires n !in copied
    requires TablesOffered(cat, db, mid, copied, src, l, time) && TablesOffered(cat, mid, d, {n}, src, l, time)
    ensures TablesOffered(cat, db, d, copied + {n}, src, l, time)
  {
  }

  function FirstTables(tables: seq<TableName>, k: nat): (r: set<TableName>)
    requires k <= |tables|
    ensures forall n :: n in r <==> exists i | 0 <= i < k :: tables[i] == n
  {
    set i | 0 <= i < k :: tables[i]
  }

  lemma {:induction false} FirstTablesStep(tables: seq<TableName>, k: nat)
    requires k < |tables| && forall a, b | 0 <= a < b < |tables| :: tables[a] != tables[b]
    ensures tables[k] !in FirstTables(tables, k)
    ensures FirstTables(tables, k + 1) == FirstTables(tables, k) + {tables[k]}
  {
    assert tables[k] in FirstTables(tables, k + 1);
  }

  lemma {:induction false} TablesLandStep(cat: Catalog, db: Db, mid: Db, view: SourceView, src: Source,
      copied: set<TableName>, n: TableName, l: Lsn, time: int)
    requires CatalogOk(cat) && n !in copied && (n in cat ==> ShowsTable(cat[n], view, src, n))
    requires TablesOffered(cat, db, mid, copied, src, l, time) && CopyTable(cat, mid, view, n, l, time).Ok?
    ensures TablesOffered(cat, db, CopyTable(cat, mid, view, n, l, time).value, copied + {n}, src, l, time)
  {
    TableLands(cat, mid, view, src, n, l, time);
    TablesCompose(cat, db, mid, CopyTable(cat, mid, view, n, l, time).value, copied, n, src, l, time);
  }

  lemma {:induction false} TablesLand(cat: Catalog, db: Db, view: SourceView, src: Source, tables: seq<TableName>,
      l: Lsn, time: int)
    requires CatalogOk(cat) && DbOk(cat, db) && Shows(cat, view, src)
    requires forall a, b | 0 <= a < b < |tables| :: tables[a] != tables[b]
    requires CopyTables(cat, db, view, tables, l, time, 0).Ok?
    ensures TablesOffered(cat, db, CopyTables(cat, db, view, tables, l, time, 0).value,
                          FirstTables(tables, |tables|), src, l, time)
  {
    var d, copied := db, {};
    for k := 0 to |tables|
      invariant CopyTables(cat, db, view, tables, l, time, 0) == CopyTables(cat, d, view, tables, l, time, k)
      invariant copied == FirstTables(tables, k) && TablesOffered(cat, db, d, copied, src, l, time)
    {
      FirstTablesStep(tables, k);
      TablesLandStep(cat, db, d, view, src, copied, tables[k], l, time);
      d, copied := CopyTable(cat, d, view, tables[k], l, time).value, copied + {tables[k]};
    }
  }

  // ---- the copy goes through -----------------------------------------------------------------

  /** The names of the table and its columns pass the identifier checks. */
  predicate Copiable(cat: Catalog, n: TableName) {
    && n in cat && IsIdent(n.schema) && IsIdent(n.table)
    && forall c | c in cat[n].columns :: IsIdent(c)
  }

  /** A row that fits its table, with no NULL in the key. */
  predicate WholeRow(def: TableDef, row: Row) {
    row.Keys == def.columns && FitRow(def, row) && forall c | c in def.key :: c in row && row[c] != Null
  }

  predicate WholeRows(cat: Catalog, src: Source) {
    forall n | n in cat :: forall k | k in SourceRows(src, n) :: WholeRow(cat[n], SourceRows(src, n)[k])
  }

  lemma {:induction false} ListedAt(rows: seq<Row>, def: TableDef, i: nat, j: nat)
    requires i < j <= |rows| && DistinctKeys(rows, def)
    ensures Lookup(Listed(rows, def, j), KeyAt(rows, def, i)) == Some(ImageAt(rows, def, i))
  {
    if i < j - 1 {
      ListedAt(rows, def, i, j - 1);
      assert KeyAt(rows, def, i) != KeyAt(rows, def, j - 1);
    }
  }

  lemma {:induction false} RowCopies(cat: Catalog, db: Db, n: TableName, values: Row, l: Lsn, time: int)
    requires CatalogOk(cat) && Copiable(cat, n) && cat[n].columns !! RESERVED
    requires WholeRow(cat[n], Restrict(values, cat[n].columns))
    ensures CopyRow(cat, db, n, cat[n].columns, values, l, time).Ok?
  {
    var row := Restrict(values, cat[n].columns);
    var key := Restrict(row, cat[n].key);
    var c :| c in cat[n].key;
    assert c in row && c in key;
    assert Candidate(cat[n], row) == row;
  }

  lemma {:induction false} RowsCopy(cat: Catalog, db: Db, n: TableName, rows: seq<Row>, l: Lsn, time: int, k: nat)
    requires CatalogOk(cat) && Copiable(cat, n) && cat[n].columns !! RESERVED && k <= |rows|
    requires forall i | 0 <= i < |rows| :: WholeRow(cat[n], Restrict(rows[i], cat[n].columns))
    ensures CopyRows(cat, db, n, cat[n].columns, rows, l, time, k).Ok?
    decreases |rows| - k
  {
    if k < |rows| {
      RowCopies(cat, db, n, rows[k], l, time);
      RowsCopy(cat, CopyRow(cat, db, n, cat[n].columns, rows[k], l, time).value, n, rows, l, time, k + 1);
    }
  }

  lemma {:induction false} TableCopies(cat: Catalog, db: Db, view: SourceView, src: Source, n: TableName, l: Lsn,
      time: int)
    requires CatalogOk(cat) && Copiable(cat, n) && ShowsTable(cat[n], view, src, n) && WholeRows(cat, src)
    ensures CopyTable(cat, db, view, n, l, time).Ok?
  {
    var rows := view.rows[n];
    SelectedIsAll(cat[n], view.columns[n]);
    forall i | 0 <= i < |rows| ensures WholeRow(cat[n], Restrict(rows[i], cat[n].columns)) {
      ListedAt(rows, cat[n], i, |rows|);
    }
    RowsCopy(cat, db, n, rows, l, time, 0);
  }

  /** A snapshot of tables whose rows fit cannot fail, whatever the destination holds. */
  lemma {:induction false} SnapshotSucceeds(cat: Catalog, db: Db, view: SourceView, src: Source, tables: seq<TableName>,
      l: Lsn, time: int, k: nat)
    requires CatalogOk(cat) && Shows(cat, view, src) && WholeRows(cat, src) && k <= |tables|
    requires forall n | n in tables :: Copiable(cat, n)
    ensures CopyTables(cat, db, view, tables, l, time, k).Ok?
    decreases |tables| - k
  {
    if k < |tables| {
      TableCopies(cat, db, view, src, tables[k], l, time);
      SnapshotSucceeds(cat, CopyTable(cat, db, view, tables[k], l, time).value, view, src, tables, l, time, k + 1);
    }
  }

  // ---- the hand-over -------------------------------------------------------------------------

  /** Every event older than the stamp had committed before the snapshot was opened. */
  predicate StampIsPast(log: seq<Event>, l: Lsn, s: nat) {
    forall j | 0 <= j < |log| :: log[j].source.commitLsn < l ==> j < s
  }

  /** A snapshot of all tables taken at log position `s`, not before `p`, and stamped in time. */
  predicate Taken(cat: Catalog, log: seq<Event>, hist: seq<Source>, p: nat, s: nat, view: SourceView,
      tables: seq<TableName>, l: Lsn)
    requires |hist| == |log| + 1
  {
    && p <= s <= |log| && StampIsPast(log, l, s)
    && Shows(cat, view, hist[s])
    && (forall n | n in cat :: n in tables)
    && (forall a, b | 0 <= a < b < |tables| :: tables[a] != tables[b])
  }

  /** Whether the snapshot at `src` writes the entry. */
  predicate Overwrites(db: Db, src: Source, n: TableName, k: Row, l: Lsn) {
    SourceEntry(src, n, k).Some? && (Entry(db, n, k).Some? ==> GuardOk(Entry(db, n, k).value, l))
  }

  /** Entries the snapshot leaves alone already hold what the source held at some point of their own. */
  ghost predicate RestCaptured(
      cat: Catalog, log: seq<Event>, hist: seq<Source>, at: (TableName, Row) -> nat, p: nat, s: nat, db: Db, l: Lsn)
    requires |hist| == |log| + 1 && s <= |log|
  {
    forall n, k | n in cat && !Overwrites(db, hist[s], n, k, l) ::
      && p <= at(n, k) <= |log|
      && Cols(Entry(db, n, k)) == SourceEntry(hist[at(n, k)], n, k)
      && StampedBefore(log, Entry(db, n, k), at(n, k))
  }

  function NextAt(at: (TableName, Row) -> nat, db: Db, src: Source, l: Lsn, s: nat): (TableName, Row) -> nat {
    (n: TableName, k: Row) => if Overwrites(db, src, n, k, l) then s else at(n, k)
  }

  /** A snapshot at log position `s` leaves every key captured, at `s` or where it was before. */
  lemma {:induction false} SnapshotCaptures(
      cat: Catalog, log: seq<Event>, hist: seq<Source>, at: (TableName, Row) -> nat, p: nat, s: nat, db: Db,
      view: SourceView, tables: seq<TableName>, l: Lsn, time: int)
    requires LogOk(cat, log, hist) && Taken(cat, log, hist, p, s, view, tables, l)
    requires DbOk(cat, db) && Unseen(db, log, p) && RestCaptured(cat, log, hist, at, p, s, db, l)
    requires CopyTables(cat, db, view, tables, l, time, 0).Ok?
    ensures Captured(cat, log, hist, NextAt(at, db, hist[s], l, s), p,
            CopyTables(cat, db, view, tables, l, time, 0).value)
  {
    var d := CopyTables(cat, db, view, tables, l, time, 0).value;
    TablesLand(cat, db, view, hist[s], tables, l, time);
    forall n, k | n in cat
      ensures var a := NextAt(at, db, hist[s], l, s)(n, k);
              && p <= a <= |log| && Cols(Entry(d, n, k)) == SourceEntry(hist[a], n, k) &&
                 StampedBefore(log, Entry(d, n, k), a)
    {
      assert Entry(d, n, k) == Offered(Entry(db, n, k), SourceEntry(hist[s], n, k), l, time);
    }
  }

  function Always(s: nat): (TableName, Row) -> nat {
    (n: TableName, k: Row) => s
  }

  /** A snapshot into empty tables captures every key at `s`. */
  lemma {:induction false} FirstSnapshotCaptures(
      cat: Catalog, log: seq<Event>, hist: seq<Source>, p: nat, s: nat, db: Db,
      view: SourceView, tables: seq<TableName>, l: Lsn, time: int)
    requires LogOk(cat, log, hist) && Taken(cat, log, hist, p, s, view, tables, l)
    requires Unseen(db, log, p) && (forall n | n in cat :: Rows(db, n) == map[])
    requires CopyTables(cat, db, view, tables, l, time, 0).Ok?
    ensures Captured(cat, log, hist, NextAt(Always(s), db, hist[s], l, s), p,
            CopyTables(cat, db, view, tables, l, time, 0).value)
  {
    SnapshotCaptures(cat, log, hist, Always(s), p, s, db, view, tables, l, time);
  }

  /** The snapshot left out no row that an update of the replay needs. */
  ghost predicate RowsAreIn(cat: Catalog, log: seq<Event>, p: nat, src: Source) {
    forall j | p <= j < |log| && FirstNeeds(cat, log, p, j) :: SourceEntry(src, Name(log[j]), log[j].key).Some?
  }

  lemma {:induction false} RowsOfSnapshot(
      cat: Catalog, log: seq<Event>, hist: seq<Source>, at: (TableName, Row) -> nat, p: nat, s: nat, d: Db)
    requires |hist| == |log| + 1 && s <= |log| && Captured(cat, log, hist, at, p, d)
    requires forall n, k | n in cat :: at(n, k) == s
    ensures RowsAreThere(cat, log, p, d) <==> RowsAreIn(cat, log, p, hist[s])
  {
    forall j | p <= j < |log| && FirstNeeds(cat, log, p, j)
      ensures Entry(d, Name(log[j]), log[j].key).Some? <==> SourceEntry(hist[s], Name(log[j]), log[j].key).Some?
    {
      assert at(Name(log[j]), log[j].key) == s;
    }
  }

  /**
    The first snapshot, into empty tables, shows the source at `s`. Replaying the log from any
    point not after `s` ends with the source's rows, and it fails on the way just when an
    update needs a row that was deleted before the snapshot showed it.
  */
  lemma {:induction false} SnapshotThenReplay(
      cat: Catalog, log: seq<Event>, hist: seq<Source>, p: nat, s: nat, db: Db,
      view: SourceView, tables: seq<TableName>, l: Lsn, time: int, d: Db)
    requires LogOk(cat, log, hist) && Taken(cat, log, hist, p, s, view, tables, l)
    requires SourceFit(cat, hist[0]) && AllFit(cat, log)
    requires Unseen(db, log, p) && (forall n | n in cat :: Rows(db, n) == map[])
    requires CopyTables(cat, db, view, tables, l, time, 0) == Ok(d)
    ensures Mirrors(cat, Carried(cat, d, log[p..]), hist[|log|])
    ensures ApplyAll(cat, d, log[p..]).Ok? <==> RowsAreIn(cat, log, p, hist[s])
    ensures ApplyAll(cat, d, log[p..]).Ok? ==> ApplyAll(cat, d, log[p..]).value == Carried(cat, d, log[p..])
  {
    var at := NextAt(Always(s), db, hist[s], l, s);
    FirstSnapshotCaptures(cat, log, hist, p, s, db, view, tables, l, time);
    FuzzyHandover(cat, log, hist, at, p, d);
    RowsOfSnapshot(cat, log, hist, at, p, s, d);
  }

  lemma {:induction false} OfferedTwice(
      cat: Catalog, db: Db, view: SourceView, src: Source, tables: seq<TableName>, l: Lsn, time: int, d: Db)
    requires CatalogOk(cat) && DbOk(cat, db) && Shows(cat, view, src) && (forall n | n in cat :: n in tables)
    requires forall a, b | 0 <= a < b < |tables| :: tables[a] != tables[b]
    requires CopyTables(cat, db, view, tables, l, time, 0) == Ok(d)
    ensures forall n, k | n in cat :: Entry(d, n, k).Some? <==> Entry(db, n, k).Some? || SourceEntry(src, n, k).Some?
  {
    TablesLand(cat, db, view, src, tables, l, time);
    forall n, k | n in cat
      ensures Entry(d, n, k).Some? <==> Entry(db, n, k).Some? || SourceEntry(src, n, k).Some?
    {
      assert n in FirstTables(tables, |tables|);
      assert Entry(d, n, k) == Offered(Entry(db, n, k), SourceEntry(src, n, k), l, time);
    }
  }

  /**
    A snapshot retaken because the writer stopped before it recorded completion: rows
    deleted in between stay, under the first stamp, and the replay still removes them.
    It fails on the way just when neither snapshot showed a row that an update needs.
  */
  lemma {:induction false} RetakenSnapshotThenReplay(
      cat: Catalog, log: seq<Event>, hist: seq<Source>, p: nat, s: nat, s2: nat, db: Db, db2: Db,
      view: SourceView, view2: SourceView, tables: seq<TableName>, l: Lsn, l2: Lsn, time: int, time2: int, d: Db)
    requires LogOk(cat, log, hist) && Taken(cat, log, hist, p, s, view, tables, l)
    requires Taken(cat, log, hist, p, s2, view2, tables, l2)
    requires SourceFit(cat, hist[0]) && AllFit(cat, log)
    requires Unseen(db, log, p) && (forall n | n in cat :: Rows(db, n) == map[])
    requires CopyTables(cat, db, view, tables, l, time, 0) == Ok(db2)
    requires CopyTables(cat, db2, view2, tables, l2, time2, 0) == Ok(d)
    ensures Mirrors(cat, Carried(cat, d, log[p..]), hist[|log|])
    ensures ApplyAll(cat, d, log[p..]).Ok? <==>
            forall j | p <= j < |log| && FirstNeeds(cat, log, p, j) ::
              var n, k := Name(log[j]), log[j].key;
              SourceEntry(hist[s], n, k).Some? || SourceEntry(hist[s2], n, k).Some?
  {
    FirstSnapshotCaptures(cat, log, hist, p, s, db, view, tables, l, time);
    var at := NextAt(Always(s), db, hist[s], l, s);
    SnapshotCaptures(cat, log, hist, at, p, s2, db2, view2, tables, l2, time2);
    FuzzyHandover(cat, log, hist, NextAt(at, db2, hist[s2], l2, s2), p, d);
    OfferedTwice(cat, db, view, hist[s], tables, l, time, db2);
    OfferedTwice(cat, db2, view2, hist[s2], tables, l2, time2, d);
  }
}
