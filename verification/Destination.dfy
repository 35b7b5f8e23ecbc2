/**
  The destination database as a value, and what one event does to it
  (internal/destination/applier.go). A SQL transaction works on a copy of this
  value, which is committed or dropped.
*/
module Destination {
  import opened Wrappers
  import opened Cdc

  datatype TableName = TableName(schema: string, table: string)

  /**
    A destination table: its user columns, its primary key, the columns declared
    NOT NULL, and which texts the type of a column accepts.
  */
  datatype TableDef = TableDef(
    columns: set<string>,
    key: set<string>,
    notNull: set<string>,
    casts: (string, string) -> bool)

  type Catalog = map<TableName, TableDef>

  /** A stored row: user columns, `source_lsn` (None is NULL) and `source_commit_time`. */
  datatype Stored = Stored(cols: Row, lsn: Option<Lsn>, time: int)

  /** Rows by primary-key value. */
  type Table = map<Row, Stored>

  datatype DeadLetter = DeadLetter(
    eventId: string,
    schema: string,
    table: string,
    operation: Operation,
    sourceLsn: Lsn,
    sourceCommitTime: int,
    key: Row,
    before: Row,
    after: Row,
    unchangedColumns: seq<string>,
    reason: string)

  /** User tables, `cdc_applied_events`, `cdc_table_watermarks` and `cdc_dead_letters`. */
  datatype Db = Db(
    tables: map<TableName, Table>,
    markers: map<string, Lsn>,
    watermarks: map<TableName, Lsn>,
    letters: map<string, DeadLetter>)

  /** `permanent` is errclass.IsPermanent of the Go error. */
  datatype Failure = Failure(permanent: bool)

  const POISON := Failure(true)
  const TRANSIENT := Failure(false)

  function Name(e: Event): TableName {
    TableName(e.schema, e.table)
  }

  function Rows(db: Db, n: TableName): Table {
    if n in db.tables then db.tables[n] else map[]
  }

  /** The row under one key, if there is one. */
  function Entry(db: Db, n: TableName, k: Row): Option<Stored> {
    if k in Rows(db, n) then Some(Rows(db, n)[k]) else None
  }

  function WithRows(db: Db, n: TableName, t: Table): Db {
    db.(tables := db.tables[n := t])
  }

  // ---- single-table operations -------------------------------------------

  /** Every text in `row` can be cast to the type of its column. */
  predicate CastOk(def: TableDef, row: Row) {
    forall c | c in row :: row[c].Text? ==> def.casts(c, row[c].text)
  }

  predicate NotNullOk(def: TableDef, cols: Row) {
    forall c | c in def.columns :: (c in def.notNull || c in def.key) ==> c in cols && cols[c] != Null
  }

  /** The value of a column nothing is said of. */
  function Blank(column: string): Value {
    Null
  }

  /** The row an INSERT proposes: columns it does not name become NULL. */
  function Candidate(def: TableDef, after: Row): (r: Row)
    ensures r.Keys == def.columns
    ensures forall c | c in r :: r[c] == if c in after then after[c] else Null
  {
    (map c | c in def.columns :: Blank(c)) + Restrict(after, def.columns)
  }

  /** `source_lsn IS NULL OR source_lsn <= l` */
  predicate GuardOk(s: Stored, l: Lsn) {
    s.lsn.None? || s.lsn.value <= l
  }

  /** The row satisfies `c1 = v1 AND c2 = v2 ...`; a comparison with NULL is never true. */
  predicate Matches(s: Stored, key: Row) {
    forall c | c in key :: c in s.cols && key[c] != Null && s.cols[c] == key[c]
  }

  function InsertRow(def: TableDef, t: Table, after: Row, l: Lsn, time: int): Result<Table, Failure> {
    var cand := Candidate(def, after);
    var k := Restrict(cand, def.key);
    if !(after.Keys <= def.columns) || !CastOk(def, after) || !NotNullOk(def, cand) || k in t then
      Err(POISON)
    else
      Ok(t[k := Stored(cand, Some(l), time)])
  }

  /** INSERT ... ON CONFLICT (target) DO UPDATE, guarded by the row's LSN. */
  function UpsertRow(def: TableDef, t: Table, after: Row, target: set<string>, l: Lsn, time: int)
    : Result<Table, Failure>
  {
    var cand := Candidate(def, after);
    var k := Restrict(cand, def.key);
    if !(after.Keys <= def.columns) || target != def.key || !CastOk(def, after) || !NotNullOk(def, cand) then
      Err(POISON)
    else if k !in t then
      Ok(t[k := Stored(cand, Some(l), time)])
    else if GuardOk(t[k], l) then
      Ok(t[k := Stored(t[k].cols + after, Some(l), time)])
    else
      Ok(t)
  }

  /** The rows a guarded WHERE clause selects. */
  function Touched(t: Table, key: Row, l: Lsn): (r: set<Row>) {
    set k | k in t && Matches(t[k], key) && GuardOk(t[k], l)
  }

  function DeleteRows(def: TableDef, t: Table, key: Row, l: Lsn): Result<Table, Failure> {
    if !(key.Keys <= def.columns) || !CastOk(def, key) then
      Err(POISON)
    else
      Ok(t - Touched(t, key, l))
  }

  function Rewritten(s: Stored, after: Row, lsn: Option<Lsn>, time: int): Stored {
    Stored(s.cols + after, lsn, time)
  }

  function NewKey(def: TableDef, s: Stored, after: Row): Row {
    Restrict(s.cols + after, def.key)
  }

  /** Every rewritten row respects NOT NULL and keeps the primary key unique. */
  predicate CanRewrite(def: TableDef, t: Table, hit: set<Row>, after: Row)
    requires hit <= t.Keys
  {
    && (forall k | k in hit :: NotNullOk(def, t[k].cols + after))
    && (forall k | k in hit :: NewKey(def, t[k], after) == k || NewKey(def, t[k], after) !in t)
    && (forall j, k | j in hit && k in hit :: NewKey(def, t[j], after) == NewKey(def, t[k], after) ==> j == k)
  }

  function NewKeys(def: TableDef, t: Table, hit: set<Row>, after: Row): set<Row>
    requires hit <= t.Keys
  {
    set k | k in hit :: NewKey(def, t[k], after)
  }

  /** The rewritten row under the new key `j`, if there is one. */
  function MovedTo(def: TableDef, t: Table, hit: set<Row>, after: Row, lsn: Option<Lsn>, time: int, j: Row): Stored
    requires hit <= t.Keys && CanRewrite(def, t, hit, after)
  {
    if j in NewKeys(def, t, hit, after) then
      var k :| k in hit && j == NewKey(def, t[k], after);
      Rewritten(t[k], after, lsn, time)
    else Stored(map[], None, 0)
  }

  /** The selected rows, rewritten, under their new keys. */
  function Moved(def: TableDef, t: Table, hit: set<Row>, after: Row, lsn: Option<Lsn>, time: int): (r: Table)
    requires hit <= t.Keys && CanRewrite(def, t, hit, after)
    ensures forall k | k in hit :: NewKey(def, t[k], after) in r
    ensures forall j | j in r :: exists k | k in hit ::
            j == NewKey(def, t[k], after) && r[j] == Rewritten(t[k], after, lsn, time)
  {
    map j | j in NewKeys(def, t, hit, after) :: MovedTo(def, t, hit, after, lsn, time, j)
  }

  function Rewrite(def: TableDef, t: Table, hit: set<Row>, after: Row, lsn: Option<Lsn>, time: int): Table
    requires hit <= t.Keys && CanRewrite(def, t, hit, after)
  {
    (t - hit) + Moved(def, t, hit, after, lsn, time)
  }

  /** UPDATE ... SET after WHERE key AND guard; a rewritten primary key must stay unique. */
  function UpdateRows(def: TableDef, t: Table, after: Row, key: Row, limit: Lsn, lsn: Option<Lsn>, time: int)
    : Result<Table, Failure>
  {
    var hit := Touched(t, key, limit);
    if !(after.Keys <= def.columns) || !(key.Keys <= def.columns) || !CastOk(def, after) || !CastOk(def, key) then
      Err(POISON)
    else if !CanRewrite(def, t, hit, after) then
      Err(POISON)
    else
      Ok(Rewrite(def, t, hit, after, lsn, time))
  }

  predicate AnyMatch(t: Table, key: Row) {
    exists k | k in t :: Matches(t[k], key)
  }

  /** applyUpdatePreserving: guarded UPDATE, then an INSERT only for a key no row carries. */
  function PreservingUpdate(def: TableDef, t: Table, after: Row, key: Row, l: Lsn, time: int)
    : Result<Table, Failure>
  {
    match UpdateRows(def, t, after, key, l, Some(l), time)
    case Err(f) => Err(f)
    case Ok(t1) =>
      if AnyMatch(t1, key) then Ok(t1)
      else InsertRow(def, t1, after, l, time)
  }

  // ---- one event -----------------------------------------------------------

  /** transcodeRow succeeds. */
  predicate Transcodable(row: Row) {
    && row != map[]
    && forall c | c in row :: IsIdent(c) && c !in RESERVED
  }

  /** verifyColumns succeeds. */
  predicate ColumnsFree(e: Event) {
    (forall c | c in e.after :: c !in RESERVED) && (forall c | c in e.key :: c !in RESERVED)
  }

  /** The key checks of an insert or update (applier.go:272-285). */
  predicate KeyChecks(e: Event) {
    && Transcodable(e.after)
    && Transcodable(e.key)
    && e.key.Keys <= e.after.Keys
    && (forall c | c in e.key :: c !in e.unchangedColumns)
  }

  /** The row part of an event on its own table. */
  function MutateTable(def: TableDef, t: Table, e: Event): Result<Table, Failure> {
    var l, time := e.source.commitLsn, e.source.commitTime;
    match e.operation
    case Delete =>
      if !Transcodable(e.key) then Err(POISON) else DeleteRows(def, t, e.key, l)
    case _ =>
      if !KeyChecks(e) then Err(POISON)
      else if e.unchangedColumns != [] then PreservingUpdate(def, t, e.after, e.key, l, time)
      else UpsertRow(def, t, e.after, e.key.Keys, l, time)
  }

  /** applyMutation for an insert, update or delete. */
  function Mutate(cat: Catalog, db: Db, e: Event): Result<Db, Failure> {
    if !ColumnsFree(e) then Err(POISON)
    else if Name(e) !in cat then Err(TRANSIENT)
    else
      match MutateTable(cat[Name(e)], Rows(db, Name(e)), e)
      case Err(f) => Err(f)
      case Ok(t) => Ok(WithRows(db, Name(e), t))
  }

  function Watermark(db: Db, n: TableName): Lsn {
    if n in db.watermarks then db.watermarks[n] else 0
  }

  predicate TruncateIsStale(l: Lsn, watermark: Lsn) {
    watermark != 0 && l <= watermark
  }

  /** The truncate steps after the marker. */
  function TruncateTable(cat: Catalog, db: Db, e: Event): Result<Db, Failure> {
    var n, l := Name(e), e.source.commitLsn;
    if TruncateIsStale(l, Watermark(db, n)) then Ok(db)
    else if n !in cat then Err(POISON)
    else Ok(WithRows(db, n, map[]).(watermarks := db.watermarks[n := l]))
  }

  function Effect(cat: Catalog, db: Db, e: Event): Result<Db, Failure> {
    if e.operation.Truncate? then TruncateTable(cat, db, e) else Mutate(cat, db, e)
  }

  /** The checks every entry point makes before it touches the database. */
  predicate Shaped(e: Event) {
    Valid(e) && IsIdent(e.schema) && IsIdent(e.table)
  }

  function ShapeFailure(e: Event): Failure {
    if Valid(e) then POISON else TRANSIENT
  }

  /** The event fails a check that does not depend on the rows: it fails wherever it is new. */
  predicate Unfit(cat: Catalog, e: Event) {
    || !Shaped(e)
    || (!e.operation.Truncate?
        && (!ColumnsFree(e) || Name(e) !in cat
            || (if e.operation.Delete? then !Transcodable(e.key) else !KeyChecks(e))))
  }

  function Marked(db: Db, e: Event): Db {
    if e.id in db.markers then db else db.(markers := db.markers[e.id := e.source.commitLsn])
  }

  /** ApplyInTx: the marker and the change, or nothing when the marker already exists. */
  function ApplyInTx(cat: Catalog, db: Db, e: Event): Result<Db, Failure> {
    if !Shaped(e) then Err(ShapeFailure(e))
    else if e.id in db.markers then Ok(db)
    else Effect(cat, Marked(db, e), e)
  }

  /** The sequential reference form: one event after another. */
  function ApplyAll(cat: Catalog, db: Db, es: seq<Event>): Result<Db, Failure> {
    if es == [] then Ok(db)
    else
      match ApplyAll(cat, db, es[..|es| - 1])
      case Err(f) => Err(f)
      case Ok(d) => ApplyInTx(cat, d, es[|es| - 1])
  }

  function Ids(es: seq<Event>): set<string> {
    set i | 0 <= i < |es| :: es[i].id
  }

  lemma {:induction false} ApplyAllAppend(cat: Catalog, db: Db, a: seq<Event>, b: seq<Event>)
    ensures ApplyAll(cat, db, a + b) ==
            match ApplyAll(cat, db, a) case Err(f) => Err(f) case Ok(d) => ApplyAll(cat, d, b)
  {
    if b == [] {
      assert a + b == a;
    } else {
      assert (a + b)[..|a + b| - 1] == a + b[..|b| - 1];
      ApplyAllAppend(cat, db, a, b[..|b| - 1]);
    }
  }

  lemma {:induction false} ApplyOne(cat: Catalog, db: Db, e: Event)
    ensures ApplyAll(cat, db, [e]) == ApplyInTx(cat, db, e)
  {
    assert [e][..0] == [];
    assert ApplyAll(cat, db, []) == Ok(db);
  }

  /** The fold, read from its first event. */
  lemma {:induction false} ApplyHead(cat: Catalog, d: Db, es: seq<Event>)
    requires es != []
    ensures ApplyAll(cat, d, es) ==
            match ApplyInTx(cat, d, es[0]) case Err(f) => Err(f) case Ok(x) => ApplyAll(cat, x, es[1..])
  {
    assert es == [es[0]] + es[1..];
    ApplyAllAppend(cat, d, [es[0]], es[1..]);
    ApplyOne(cat, d, es[0]);
  }

  /** A new event leaves its marker, whatever else it does; nothing else touches markers or dead letters. */
  lemma {:induction false} ApplyMarks(cat: Catalog, db: Db, e: Event)
    requires ApplyInTx(cat, db, e).Ok?
    ensures ApplyInTx(cat, db, e).value.markers == Marked(db, e).markers
    ensures Marked(db, e).markers == if e.id in db.markers then db.markers else db.markers[e.id := e.source.commitLsn]
    ensures ApplyInTx(cat, db, e).value.letters == db.letters
  {
  }
}
