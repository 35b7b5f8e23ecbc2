/**
  What the events mean for the source, and why replaying them at the destination
  reproduces the source: in lock step when both sides start equal, and eventually
  when the destination starts from a fuzzy snapshot taken later in the log.
*/
module Convergence {
  import opened Wrappers
  import opened Cdc
  import opened Destination

  /** Source rows by primary-key value. */
  type SourceTable = map<Row, Row>
  type Source = map<TableName, SourceTable>

  function SourceRows(src: Source, n: TableName): SourceTable {
    if n in src then src[n] else map[]
  }

  /** The unguarded meaning of one event. */
  function Meaning(src: Source, e: Event): Source {
    var n := Name(e);
    var rows := SourceRows(src, n);
    match e.operation
    case Insert => src[n := rows[e.key := e.after]]
    case Update => if e.key in rows then src[n := rows[e.key := rows[e.key] + e.after]] else src
    case Delete => src[n := rows - {e.key}]
    case Truncate => src[n := map[]]
    case Unknown(_) => src
  }

  function Run(src: Source, log: seq<Event>): Source {
    if log == [] then src else Meaning(Run(src, log[..|log| - 1]), log[|log| - 1])
  }

  function Columns(e: Event): (r: set<string>) {
    set c | c in e.unchangedColumns
  }

  /** The shape of every event the decoder emits for a table of the catalog. */
  predicate Acceptable(cat: Catalog, e: Event) {
    && Shaped(e)
    && Name(e) in cat
    && (e.operation.Truncate? || RowAcceptable(cat[Name(e)], e))
  }

  predicate RowAcceptable(def: TableDef, e: Event) {
    && Transcodable(e.key)
    && e.key.Keys == def.key
    && (forall c | c in e.key :: e.key[c] != Null)
    && match e.operation
       case Delete => e.after == map[]
       case Insert => Transcodable(e.after) && e.unchangedColumns == [] && AfterShape(def, e)
       case Update => Transcodable(e.after) && AfterShape(def, e)
       case _ => false
  }

  /** `after` and the unchanged columns partition the table's columns. */
  predicate AfterShape(def: TableDef, e: Event) {
    && e.after.Keys !! Columns(e)
    && e.after.Keys + Columns(e) == def.columns
    && Restrict(e.after, def.key) == e.key
  }

  /** The types of the table accept the values, and no NOT NULL column is NULL. */
  predicate FitRow(def: TableDef, row: Row) {
    CastOk(def, row) && forall c | c in row :: c in def.notNull ==> row[c] != Null
  }

  predicate Fit(cat: Catalog, e: Event) {
    Name(e) in cat ==> FitRow(cat[Name(e)], e.after) && FitRow(cat[Name(e)], e.key)
  }

  predicate AllFit(cat: Catalog, es: seq<Event>) {
    forall i | 0 <= i < |es| :: Fit(cat, es[i])
  }

  predicate CatalogOk(cat: Catalog) {
    forall n | n in cat :: cat[n].key != {} && cat[n].key <= cat[n].columns
  }

  predicate TableOk(def: TableDef, t: Table) {
    forall k | k in t :: t[k].cols.Keys == def.columns && k == Restrict(t[k].cols, def.key)
  }

  predicate DbOk(cat: Catalog, db: Db) {
    forall n | n in cat :: TableOk(cat[n], Rows(db, n))
  }

  predicate SourceOk(cat: Catalog, src: Source) {
    forall n | n in cat :: forall k | k in SourceRows(src, n) :: SourceRows(src, n)[k].Keys == cat[n].columns
  }

  // ---- one key at a time -----------------------------------------------------

  function SourceEntry(src: Source, n: TableName, k: Row): Option<Row> {
    if k in SourceRows(src, n) then Some(SourceRows(src, n)[k]) else None
  }

  function Cols(d: Option<Stored>): Option<Row> {
    if d.Some? then Some(d.value.cols) else None
  }

  /** What an acceptable, not stale event does to the entry of one key. */
  function EntryStep(def: TableDef, d: Option<Stored>, e: Event, n: TableName, k: Row): Option<Stored> {
    if Name(e) != n then d
    else if e.operation.Truncate? then None
    else if e.key != k then d
    else if d.Some? && !GuardOk(d.value, e.source.commitLsn) then d
    else if e.operation.Delete? then None
    else
      var cols := if d.Some? then d.value.cols + e.after else Candidate(def, e.after);
      Some(Stored(cols, Some(e.source.commitLsn), e.source.commitTime))
  }

  lemma {:induction false} MatchesIsKey(def: TableDef, t: Table, key: Row)
    requires TableOk(def, t)
    requires key.Keys == def.key && (forall c | c in key :: key[c] != Null)
    requires def.key <= def.columns
    ensures forall k | k in t :: Matches(t[k], key) <==> k == key
  {
    forall k | k in t ensures Matches(t[k], key) <==> k == key {
      if Matches(t[k], key) {
        assert k.Keys == key.Keys;
        assert forall c | c in key :: k[c] == key[c];
      }
      if k == key {
        assert forall c | c in key :: c in t[k].cols && t[k].cols[c] == key[c];
      }
    }
  }

  lemma {:induction false} AfterKeepsKey(def: TableDef, cols: Row, after: Row, key: Row)
    requires cols.Keys == def.columns && after.Keys <= def.columns
    requires Restrict(after, def.key) == key && key.Keys == def.key
    requires Restrict(cols, def.key) == key
    ensures Restrict(cols + after, def.key) == key
    ensures (cols + after).Keys == def.columns
  {
    forall c | c in def.key ensures c in after && (cols + after)[c] == key[c] {
      assert c in Restrict(after, def.key);
    }
  }

  lemma {:induction false} CandidateKey(def: TableDef, after: Row, key: Row)
    requires def.key <= def.columns
    requires Restrict(after, def.key) == key && key.Keys == def.key
    ensures Restrict(Candidate(def, after), def.key) == key
  {
    forall c | c in def.key ensures Candidate(def, after)[c] == key[c] {
      assert c in Restrict(after, def.key);
    }
  }

  lemma {:induction false} HitOnKey(def: TableDef, t: Table, key: Row, l: Lsn)
    requires TableOk(def, t) && def.key <= def.columns
    requires key.Keys == def.key && (forall c | c in key :: key[c] != Null)
    ensures Touched(t, key, l) == if key in t && GuardOk(t[key], l) then {key} else {}
  {
    MatchesIsKey(def, t, key);
  }

  lemma {:induction false} MinusNone<K, V>(t: map<K, V>)
    ensures t - {} == t
  {
  }

  lemma {:induction false} PlusNone<K, V>(t: map<K, V>, m: map<K, V>)
    requires forall k :: k !in m
    ensures t + m == t
  {
  }

  lemma {:induction false} MinusPlus<K, V>(t: map<K, V>, k: K, m: map<K, V>)
    requires m.Keys == {k}
    ensures (t - {k}) + m == t[k := m[k]]
  {
    assert k in m;
  }

  lemma {:induction false} RewriteOne(def: TableDef, t: Table, key: Row, after: Row, lsn: Option<Lsn>, time: int)
    requires key in t && CanRewrite(def, t, {key}, after)
    requires NewKey(def, t[key], after) == key
    ensures Rewrite(def, t, {key}, after, lsn, time) == t[key := Rewritten(t[key], after, lsn, time)]
  {
    var m := Moved(def, t, {key}, after, lsn, time);
    assert key in {key};
    MinusPlus(t, key, m);
  }

  lemma {:induction false} RewriteNone(def: TableDef, t: Table, after: Row, lsn: Option<Lsn>, time: int)
    requires CanRewrite(def, t, {}, after)
    ensures Rewrite(def, t, {}, after, lsn, time) == t
  {
    var m := Moved(def, t, {}, after, lsn, time);
    assert forall j :: j !in m;
    PlusNone(t - {}, m);
    MinusNone(t);
  }

  /** A guarded UPDATE on the primary key rewrites that row and nothing else. */
  lemma {:induction false} UpdateOnKey(def: TableDef, t: Table, after: Row, key: Row, l: Lsn, time: int)
    requires def.key <= def.columns && TableOk(def, t)
    requires key.Keys == def.key && (forall c | c in key :: key[c] != Null)
    requires Restrict(after, def.key) == key
    requires UpdateRows(def, t, after, key, l, Some(l), time).Ok?
    ensures UpdateRows(def, t, after, key, l, Some(l), time).value ==
            if key in t && GuardOk(t[key], l) then t[key := Rewritten(t[key], after, Some(l), time)] else t
  {
    HitOnKey(def, t, key, l);
    if key in t && GuardOk(t[key], l) {
      AfterKeepsKey(def, t[key].cols, after, key);
      RewriteOne(def, t, key, after, Some(l), time);
    } else {
      RewriteNone(def, t, after, Some(l), time);
    }
  }

  function PutEntry(t: Table, k: Row, d: Option<Stored>): Table {
    if d.Some? then t[k := d.value] else t - {k}
  }

  function EntryOf(t: Table, k: Row): Option<Stored> {
    if k in t then Some(t[k]) else None
  }

  lemma {:induction false} PutSame(t: Table, k: Row)
    ensures PutEntry(t, k, EntryOf(t, k)) == t
  {
  }

  lemma {:induction false} PutEntryOk(def: TableDef, t: Table, k: Row, d: Option<Stored>)
    requires TableOk(def, t)
    requires d.Some? ==> d.value.cols.Keys == def.columns && Restrict(d.value.cols, def.key) == k
    ensures TableOk(def, PutEntry(t, k, d))
  {
  }

  lemma {:induction false} AnyMatchIsKey(def: TableDef, t: Table, key: Row)
    requires TableOk(def, t) && def.key <= def.columns
    requires key.Keys == def.key && (forall c | c in key :: key[c] != Null)
    ensures AnyMatch(t, key) <==> key in t
  {
    MatchesIsKey(def, t, key);
  }

  /** UPDATE, probe, INSERT on the primary key: the row is rewritten, skipped as stale, or created. */
  lemma {:induction false} PreservingRow(def: TableDef, t: Table, after: Row, key: Row, l: Lsn, time: int)
    requires def.key <= def.columns && TableOk(def, t)
    requires key.Keys == def.key && (forall c | c in key :: key[c] != Null)
    requires Restrict(after, def.key) == key && after.Keys <= def.columns
    requires PreservingUpdate(def, t, after, key, l, time).Ok?
    ensures PreservingUpdate(def, t, after, key, l, time).value ==
            if key !in t then t[key := Stored(Candidate(def, after), Some(l), time)]
            else if GuardOk(t[key], l) then t[key := Rewritten(t[key], after, Some(l), time)]
            else t
  {
    UpdateOnKey(def, t, after, key, l, time);
    var t1 := UpdateRows(def, t, after, key, l, Some(l), time).value;
    if key in t {
      AfterKeepsKey(def, t[key].cols, after, key);
      PutEntryOk(def, t, key, Some(Rewritten(t[key], after, Some(l), time)));
    } else {
      CandidateKey(def, after, key);
    }
    AnyMatchIsKey(def, t1, key);
  }

  lemma {:induction false} PreservingOnKey(def: TableDef, t: Table, e: Event)
    requires def.key <= def.columns && TableOk(def, t)
    requires RowAcceptable(def, e) && e.operation.Update?
    requires PreservingUpdate(def, t, e.after, e.key, e.source.commitLsn, e.source.commitTime).Ok?
    ensures PreservingUpdate(def, t, e.after, e.key, e.source.commitLsn, e.source.commitTime).value ==
            PutEntry(t, e.key, EntryStep(def, EntryOf(t, e.key), e, Name(e), e.key))
  {
    PreservingRow(def, t, e.after, e.key, e.source.commitLsn, e.source.commitTime);
    RowIsEntryStep(def, t, e);
  }

  lemma {:induction false} RowIsEntryStep(def: TableDef, t: Table, e: Event)
    requires e.operation.Update?
    ensures PutEntry(t, e.key, EntryStep(def, EntryOf(t, e.key), e, Name(e), e.key)) ==
            if e.key !in t then
              t[e.key := Stored(Candidate(def, e.after), Some(e.source.commitLsn), e.source.commitTime)]
            else if GuardOk(t[e.key], e.source.commitLsn) then
              t[e.key := Rewritten(t[e.key], e.after, Some(e.source.commitLsn), e.source.commitTime)]
            else t
  {
    PutSame(t, e.key);
  }

  lemma {:induction false} UpsertOnKey(def: TableDef, t: Table, e: Event)
    requires def.key <= def.columns && TableOk(def, t)
    requires RowAcceptable(def, e) && (e.operation.Update? || e.operation.Insert?)
    requires UpsertRow(def, t, e.after, e.key.Keys, e.source.commitLsn, e.source.commitTime).Ok?
    ensures UpsertRow(def, t, e.after, e.key.Keys, e.source.commitLsn, e.source.commitTime).value ==
            PutEntry(t, e.key, EntryStep(def, EntryOf(t, e.key), e, Name(e), e.key))
  {
    CandidateKey(def, e.after, e.key);
    PutSame(t, e.key);
  }

  lemma {:induction false} DeleteRow(def: TableDef, t: Table, key: Row, l: Lsn)
    requires def.key <= def.columns && TableOk(def, t)
    requires key.Keys == def.key && (forall c | c in key :: key[c] != Null)
    requires DeleteRows(def, t, key, l).Ok?
    ensures DeleteRows(def, t, key, l).value == if key in t && GuardOk(t[key], l) then t - {key} else t
  {
    HitOnKey(def, t, key, l);
    MinusNone(t);
  }

  lemma {:induction false} DeleteOnKey(def: TableDef, t: Table, e: Event)
    requires def.key <= def.columns && TableOk(def, t)
    requires RowAcceptable(def, e) && e.operation.Delete?
    requires DeleteRows(def, t, e.key, e.source.commitLsn).Ok?
    ensures DeleteRows(def, t, e.key, e.source.commitLsn).value ==
            PutEntry(t, e.key, EntryStep(def, EntryOf(t, e.key), e, Name(e), e.key))
  {
    DeleteRow(def, t, e.key, e.source.commitLsn);
    PutSame(t, e.key);
  }

  lemma {:induction false} EntryStepOk(def: TableDef, d: Option<Stored>, e: Event)
    requires def.key <= def.columns
    requires RowAcceptable(def, e)
    requires d.Some? ==> d.value.cols.Keys == def.columns && Restrict(d.value.cols, def.key) == e.key
    ensures var r := EntryStep(def, d, e, Name(e), e.key);
            r.Some? ==> r.value.cols.Keys == def.columns && Restrict(r.value.cols, def.key) == e.key
  {
    if !e.operation.Delete? {
      CandidateKey(def, e.after, e.key);
      if d.Some? { AfterKeepsKey(def, d.value.cols, e.after, e.key); }
    }
  }

  /** An acceptable event rewrites the entry of its own key by EntryStep and leaves every other entry alone. */
  lemma {:induction false} MutateTableOnKey(def: TableDef, t: Table, e: Event)
    requires def.key <= def.columns && TableOk(def, t)
    requires RowAcceptable(def, e) && MutateTable(def, t, e).Ok?
    ensures MutateTable(def, t, e).value == PutEntry(t, e.key, EntryStep(def, EntryOf(t, e.key), e, Name(e), e.key))
    ensures TableOk(def, MutateTable(def, t, e).value)
  {
    if e.operation.Delete? {
      DeleteOnKey(def, t, e);
    } else if e.unchangedColumns != [] {
      PreservingOnKey(def, t, e);
    } else {
      UpsertOnKey(def, t, e);
    }
    EntryStepOk(def, EntryOf(t, e.key), e);
    PutEntryOk(def, t, e.key, EntryStep(def, EntryOf(t, e.key), e, Name(e), e.key));
  }

  predicate NotStale(db: Db, e: Event) {
    e.operation.Truncate? ==> !TruncateIsStale(e.source.commitLsn, Watermark(db, Name(e)))
  }

  /** The effect of ApplyInTx on the rows of one table. */
  function RowsAfter(def: TableDef, t: Table, e: Event): Table {
    if e.operation.Truncate? then map[] else PutEntry(t, e.key, EntryStep(def, EntryOf(t, e.key), e, Name(e), e.key))
  }

  lemma {:induction false} EffectRows(cat: Catalog, db: Db, e: Event)
    requires CatalogOk(cat) && DbOk(cat, db) && Acceptable(cat, e)
    requires NotStale(db, e) && Effect(cat, db, e).Ok?
    ensures TableOk(cat[Name(e)], RowsAfter(cat[Name(e)], Rows(db, Name(e)), e))
    ensures Effect(cat, db, e).value.tables == db.tables[Name(e) := RowsAfter(cat[Name(e)], Rows(db, Name(e)), e)]
  {
    if !e.operation.Truncate? {
      MutateTableOnKey(cat[Name(e)], Rows(db, Name(e)), e);
    }
  }

  lemma {:induction false} PutThenRead(t: Table, k: Row, d: Option<Stored>, j: Row)
    ensures EntryOf(PutEntry(t, k, d), j) == if j == k then d else EntryOf(t, j)
  {
  }

  lemma {:induction false} RowsAfterEntry(def: TableDef, t: Table, e: Event, n: TableName, k: Row)
    requires Name(e) == n
    ensures EntryOf(RowsAfter(def, t, e), k) == EntryStep(def, EntryOf(t, k), e, n, k)
  {
    if !e.operation.Truncate? {
      PutThenRead(t, e.key, EntryStep(def, EntryOf(t, e.key), e, n, e.key), k);
    }
  }

  lemma {:induction false} ApplyTables(cat: Catalog, db: Db, e: Event)
    requires CatalogOk(cat) && DbOk(cat, db) && Acceptable(cat, e)
    requires e.id !in db.markers && NotStale(db, e)
    requires ApplyInTx(cat, db, e).Ok?
    ensures TableOk(cat[Name(e)], RowsAfter(cat[Name(e)], Rows(db, Name(e)), e))
    ensures ApplyInTx(cat, db, e).value.tables == db.tables[Name(e) := RowsAfter(cat[Name(e)], Rows(db, Name(e)), e)]
  {
    EffectRows(cat, Marked(db, e), e);
  }

  /** The effect of ApplyInTx on every entry of every table of the catalog. */
  lemma {:induction false} ApplyOnEntries(cat: Catalog, db: Db, e: Event)
    requires CatalogOk(cat) && DbOk(cat, db) && Acceptable(cat, e)
    requires e.id !in db.markers && NotStale(db, e)
    requires ApplyInTx(cat, db, e).Ok?
    ensures DbOk(cat, ApplyInTx(cat, db, e).value)
    ensures forall n, k | n in cat ::
              Entry(ApplyInTx(cat, db, e).value, n, k) == EntryStep(cat[n], Entry(db, n, k), e, n, k)
  {
    ApplyTables(cat, db, e);
    EntriesOf(cat, db, ApplyInTx(cat, db, e).value, e);
  }

  lemma {:induction false} EntriesOf(cat: Catalog, db: Db, d: Db, e: Event)
    requires Name(e) in cat && DbOk(cat, db)
    requires d.tables == db.tables[Name(e) := RowsAfter(cat[Name(e)], Rows(db, Name(e)), e)]
    requires TableOk(cat[Name(e)], RowsAfter(cat[Name(e)], Rows(db, Name(e)), e))
    ensures DbOk(cat, d)
    ensures forall n, k | n in cat :: Entry(d, n, k) == EntryStep(cat[n], Entry(db, n, k), e, n, k)
  {
    forall n, k | n in cat ensures Entry(d, n, k) == EntryStep(cat[n], Entry(db, n, k), e, n, k) {
      if n == Name(e) {
        RowsAfterEntry(cat[n], Rows(db, n), e, n, k);
      }
    }
  }

  // ---- a replay that starts behind the state it runs on ------------------------

  predicate Ordered(log: seq<Event>) {
    forall i, j | 0 <= i <= j < |log| :: log[i].source.commitLsn <= log[j].source.commitLsn
  }

  predicate DistinctIds(log: seq<Event>) {
    forall i, j | 0 <= i < j < |log| :: log[i].id != log[j].id
  }

  /** No table is truncated twice at one commit LSN. */
  predicate TruncatesApart(log: seq<Event>) {
    forall i, j | 0 <= i < j < |log| && log[i].operation.Truncate? && log[j].operation.Truncate? ::
      Name(log[i]) == Name(log[j]) ==> log[i].source.commitLsn < log[j].source.commitLsn
  }

  /** The log could have come from the source: acceptable events, updates of existing rows only. */
  predicate Genuine(cat: Catalog, log: seq<Event>, hist: seq<Source>)
    requires |hist| == |log| + 1
  {
    forall i {:trigger log[i]} | 0 <= i < |log| ::
      && Acceptable(cat, log[i])
      && (log[i].operation.Update? ==> log[i].key in SourceRows(hist[i], Name(log[i])))
  }

  /** `hist[i]` is the source after the first `i` events. */
  predicate History(log: seq<Event>, hist: seq<Source>) {
    && |hist| == |log| + 1
    && forall i {:trigger log[i]} | 0 <= i < |log| :: hist[i + 1] == Meaning(hist[i], log[i])
  }

  /** The states a log takes the source through. */
  function States(src: Source, log: seq<Event>): (r: seq<Source>)
    ensures |r| == |log| + 1 && r[0] == src && r[|log|] == Run(src, log)
  {
    if log == [] then [src]
    else
      var init := States(src, log[..|log| - 1]);
      init + [Meaning(init[|log| - 1], log[|log| - 1])]
  }

  lemma {:induction false} StatesAreHistory(src: Source, log: seq<Event>)
    ensures History(log, States(src, log))
  {
    if log != [] {
      var init := log[..|log| - 1];
      StatesAreHistory(src, init);
      forall i {:trigger log[i]} | 0 <= i < |log|
        ensures States(src, log)[i + 1] == Meaning(States(src, log)[i], log[i])
      {
        if i < |log| - 1 {
          assert init[i] == log[i];
        }
      }
    }
  }

  /** Genuine, event by event: acceptable, and an update meets its row. */
  ghost predicate GenuineRun(cat: Catalog, src: Source, log: seq<Event>) {
    log == [] ||
    var init, e := log[..|log| - 1], log[|log| - 1];
    && GenuineRun(cat, src, init) && Acceptable(cat, e)
    && (e.operation.Update? ==> e.key in SourceRows(Run(src, init), Name(e)))
  }

  lemma {:induction false} GenuineStates(cat: Catalog, src: Source, log: seq<Event>)
    requires GenuineRun(cat, src, log)
    ensures Genuine(cat, log, States(src, log))
  {
    if log != [] {
      var init := log[..|log| - 1];
      GenuineStates(cat, src, init);
      forall i {:trigger log[i]} | 0 <= i < |log|
        ensures Acceptable(cat, log[i]) &&
                (log[i].operation.Update? ==> log[i].key in SourceRows(States(src, log)[i], Name(log[i])))
      {
        if i < |log| - 1 {
          assert init[i] == log[i];
        }
      }
    }
  }

  lemma {:induction false} RunAppend(src: Source, a: seq<Event>, b: seq<Event>)
    ensures Run(src, a + b) == Run(Run(src, a), b)
  {
    if b == [] {
      assert a + b == a;
    } else {
      assert (a + b)[..|a + b| - 1] == a + b[..|b| - 1];
      RunAppend(src, a, b[..|b| - 1]);
    }
  }

  lemma {:induction false} GenuineAppend(cat: Catalog, src: Source, a: seq<Event>, b: seq<Event>)
    requires GenuineRun(cat, src, a) && GenuineRun(cat, Run(src, a), b)
    ensures GenuineRun(cat, src, a + b)
  {
    if b == [] {
      assert a + b == a;
    } else {
      assert (a + b)[..|a + b| - 1] == a + b[..|b| - 1];
      GenuineAppend(cat, src, a, b[..|b| - 1]);
      RunAppend(src, a, b[..|b| - 1]);
    }
  }

  predicate LogOk(cat: Catalog, log: seq<Event>, hist: seq<Source>) {
    && CatalogOk(cat) && History(log, hist) && SourceOk(cat, hist[0])
    && Genuine(cat, log, hist)
    && Ordered(log) && DistinctIds(log) && TruncatesApart(log)
  }

  predicate SameAt(d: Option<Row>, s: Option<Row>, c: string) {
    if d.None? || s.None? then d.None? && s.None?
    else c in d.value && c in s.value && d.value[c] == s.value[c]
  }

  /** The event decides column `c` of key `k`. */
  predicate Touches(e: Event, n: TableName, k: Row, c: string) {
    Name(e) == n && (e.operation.Truncate? || (e.key == k && (e.operation.Update? ==> c in e.after)))
  }

  predicate TouchedIn(log: seq<Event>, lo: nat, hi: nat, n: TableName, k: Row, c: string) {
    exists j | lo <= j < hi && j < |log| :: Touches(log[j], n, k, c)
  }

  function SourceStep(s: Option<Row>, e: Event, n: TableName, k: Row): Option<Row> {
    if Name(e) != n then s
    else if e.operation.Truncate? then None
    else if e.operation.Unknown? || e.key != k then s
    else match e.operation
         case Insert => Some(e.after)
         case Update => if s.Some? then Some(s.value + e.after) else None
         case _ => None
  }

  lemma {:induction false} MeaningOnEntries(src: Source, e: Event, n: TableName, k: Row)
    ensures SourceEntry(Meaning(src, e), n, k) == SourceStep(SourceEntry(src, n, k), e, n, k)
  {
  }

  lemma {:induction false} HistoryKeepsColumns(cat: Catalog, log: seq<Event>, hist: seq<Source>, m: nat)
    requires m <= |log| && LogOk(cat, log, hist)
    ensures SourceOk(cat, hist[m])
  {
    if m > 0 {
      HistoryKeepsColumns(cat, log, hist, m - 1);
      var before, e := hist[m - 1], log[m - 1];
      forall n, k | n in cat && k in SourceRows(Meaning(before, e), n)
        ensures SourceRows(Meaning(before, e), n)[k].Keys == cat[n].columns
      {
        MeaningOnEntries(before, e, n, k);
        assert SourceEntry(before, n, k).Some? ==> SourceEntry(before, n, k).value.Keys == cat[n].columns;
        assert Acceptable(cat, e);
        if Name(e) == n && e.operation.Insert? && e.key == k {
          assert Columns(e) == {};
        }
      }
    }
  }

  /** What the log says about one step of one key. */
  predicate StepOk(def: TableDef, before: Option<Row>, e: Event, n: TableName, k: Row) {
    && (before.Some? ==> before.value.Keys == def.columns)
    && (Name(e) == n && !e.operation.Truncate? ==>
          match e.operation
          case Insert => e.after.Keys == def.columns
          case Update => (e.key == k ==> before.Some?) && e.after.Keys <= def.columns
          case Delete => true
          case _ => false)
  }

  lemma {:induction false} StepFacts(cat: Catalog, log: seq<Event>, hist: seq<Source>, m: nat, n: TableName, k: Row)
    requires m < |log| && n in cat && LogOk(cat, log, hist)
    ensures StepOk(cat[n], SourceEntry(hist[m], n, k), log[m], n, k)
    ensures SourceEntry(hist[m + 1], n, k) ==
            SourceStep(SourceEntry(hist[m], n, k), log[m], n, k)
  {
    HistoryKeepsColumns(cat, log, hist, m);
    MeaningOnEntries(hist[m], log[m], n, k);
    var e := log[m];
    assert Acceptable(cat, e);
    if Name(e) == n && e.operation.Insert? {
      assert Columns(e) == {};
    }
  }

  lemma {:induction false} SourceUntouched(def: TableDef, s: Option<Row>, e: Event, n: TableName, k: Row, c: string)
    requires StepOk(def, s, e, n, k) && c in def.columns && !Touches(e, n, k, c)
    ensures SameAt(SourceStep(s, e, n, k), s, c)
  {
  }

  lemma {:induction false} SameAtTransitive(a: Option<Row>, b: Option<Row>, d: Option<Row>, c: string)
    requires SameAt(a, b, c) && SameAt(b, d, c)
    ensures SameAt(a, d, c)
  {
  }

  lemma {:induction false} UntouchedStep(cat: Catalog, log: seq<Event>, hist: seq<Source>, m: nat, n: TableName,
      k: Row, c: string)
    requires m < |log| && LogOk(cat, log, hist) && n in cat && c in cat[n].columns
    requires !Touches(log[m], n, k, c)
    ensures SameAt(SourceEntry(hist[m + 1], n, k), SourceEntry(hist[m], n, k), c)
  {
    StepFacts(cat, log, hist, m, n, k);
    SourceUntouched(cat[n], SourceEntry(hist[m], n, k), log[m], n, k, c);
  }

  lemma {:induction false} SameAsItself(cat: Catalog, log: seq<Event>, hist: seq<Source>, m: nat, n: TableName,
      k: Row, c: string)
    requires m <= |log| && LogOk(cat, log, hist) && n in cat && c in cat[n].columns
    ensures SameAt(SourceEntry(hist[m], n, k), SourceEntry(hist[m], n, k), c)
  {
    HistoryKeepsColumns(cat, log, hist, m);
  }

  lemma {:induction false} TouchedInGrows(log: seq<Event>, i: nat, s: nat, n: TableName, k: Row, c: string)
    requires i <= s < |log| && !TouchedIn(log, i, s + 1, n, k, c)
    ensures !TouchedIn(log, i, s, n, k, c) && !Touches(log[s], n, k, c)
  {
  }

  /** A column that no event in between decides is the same at both ends. */
  lemma {:induction false} UntouchedIsSame(
      cat: Catalog, log: seq<Event>, hist: seq<Source>, i: nat, s: nat, n: TableName, k: Row, c: string)
    requires i <= s <= |log| && LogOk(cat, log, hist) && n in cat && c in cat[n].columns
    requires !TouchedIn(log, i, s, n, k, c)
    ensures SameAt(SourceEntry(hist[s], n, k), SourceEntry(hist[i], n, k), c)
    decreases s
  {
    if i < s {
      TouchedInGrows(log, i, s - 1, n, k, c);
      UntouchedIsSame(cat, log, hist, i, s - 1, n, k, c);
      UntouchedStep(cat, log, hist, s - 1, n, k, c);
      SameAtTransitive(SourceEntry(hist[s], n, k), SourceEntry(hist[s - 1], n, k),
                       SourceEntry(hist[i], n, k), c);
    } else {
      SameAsItself(cat, log, hist, i, n, k, c);
    }
  }

  /** An event the guard lets through settles every column it decides. */
  lemma {:induction false} FreshEventAgrees(def: TableDef, d: Option<Stored>, before: Option<Row>, e: Event,
      n: TableName, k: Row, c: string)
    requires StepOk(def, before, e, n, k) && c in def.columns
    requires d.Some? ==> d.value.cols.Keys == def.columns
    requires d.Some? ==> GuardOk(d.value, e.source.commitLsn)
    requires Touches(e, n, k, c) || SameAt(Cols(d), before, c)
    ensures SameAt(Cols(EntryStep(def, d, e, n, k)), SourceStep(before, e, n, k), c)
  {
  }

  lemma {:induction false} EntryStepColumns(def: TableDef, d: Option<Stored>, before: Option<Row>, e: Event,
      n: TableName, k: Row)
    requires StepOk(def, before, e, n, k)
    requires d.Some? ==> d.value.cols.Keys == def.columns
    ensures var d' := EntryStep(def, d, e, n, k); d'.Some? ==> d'.value.cols.Keys == def.columns
  {
  }

  /** Every event older than the stamp of the entry is before `s`. */
  predicate StampedBefore(log: seq<Event>, d: Option<Stored>, s: nat) {
    d.Some? && d.value.lsn.Some? ==>
      forall j | 0 <= j < |log| :: log[j].source.commitLsn < d.value.lsn.value ==> j < s
  }

  predicate StampedPast(log: seq<Event>, d: Option<Stored>, m: nat) {
    d.Some? && d.value.lsn.Some? ==>
      forall j | m <= j < |log| :: d.value.lsn.value <= log[j].source.commitLsn
  }

  /**
    The replay stands at `m`. Where the destination differs from the source there,
    some event before `s` will still decide that column; and an entry is either not
    newer than anything to come, or still the row captured at `s`.
  */
  predicate KeyInv(cat: Catalog, log: seq<Event>, hist: seq<Source>, m: nat, s: nat, d: Option<Stored>, n: TableName,
      k: Row)
    requires m <= |log| && s <= |log| && |hist| == |log| + 1 && n in cat
  {
    && (d.Some? ==> d.value.cols.Keys == cat[n].columns)
    && (forall c | c in cat[n].columns ::
         SameAt(Cols(d), SourceEntry(hist[m], n, k), c) || TouchedIn(log, m, s, n, k, c))
    && (StampedPast(log, d, m)
        || (Cols(d) == SourceEntry(hist[s], n, k) && StampedBefore(log, d, s)))
  }

  lemma {:induction false} CapturedKeyInv(cat: Catalog, log: seq<Event>, hist: seq<Source>, m: nat, s: nat,
      d: Option<Stored>, n: TableName, k: Row)
    requires m <= s <= |log| && n in cat && LogOk(cat, log, hist)
    requires Cols(d) == SourceEntry(hist[s], n, k) && StampedBefore(log, d, s)
    ensures KeyInv(cat, log, hist, m, s, d, n, k)
  {
    HistoryKeepsColumns(cat, log, hist, s);
    forall c | c in cat[n].columns
      ensures SameAt(Cols(d), SourceEntry(hist[m], n, k), c) || TouchedIn(log, m, s, n, k, c)
    {
      if !TouchedIn(log, m, s, n, k, c) {
        UntouchedIsSame(cat, log, hist, m, s, n, k, c);
      }
    }
  }

  lemma {:induction false} StampStep(def: TableDef, log: seq<Event>, d: Option<Stored>, m: nat, n: TableName, k: Row)
    requires m < |log| && Ordered(log)
    requires d.Some? ==> GuardOk(d.value, log[m].source.commitLsn)
    ensures StampedPast(log, EntryStep(def, d, log[m], n, k), m + 1)
  {
    var d' := EntryStep(def, d, log[m], n, k);
    if d'.Some? && d'.value.lsn.Some? {
      assert d'.value.lsn.value <= log[m].source.commitLsn;
    }
  }

  predicate StaleFor(d: Option<Stored>, e: Event) {
    d.Some? && !GuardOk(d.value, e.source.commitLsn)
  }

  /** The heart of the hand-over: one replayed event keeps the invariant of one key. */
  lemma {:induction false} KeyInvStep(cat: Catalog, log: seq<Event>, hist: seq<Source>, m: nat, s: nat,
      d: Option<Stored>, n: TableName, k: Row)
    requires m < |log| && s <= |log| && n in cat && LogOk(cat, log, hist)
    requires KeyInv(cat, log, hist, m, s, d, n, k)
    ensures KeyInv(cat, log, hist, m + 1, s, EntryStep(cat[n], d, log[m], n, k), n, k)
  {
    StepFacts(cat, log, hist, m, n, k);
    var e := log[m];
    if StaleFor(d, e) {
      StaleStep(cat, log, hist, m, s, d, n, k);
    } else {
      var before := SourceEntry(hist[m], n, k);
      EntryStepColumns(cat[n], d, before, e, n, k);
      StampStep(cat[n], log, d, m, n, k);
      forall c | c in cat[n].columns
        ensures SameAt(Cols(EntryStep(cat[n], d, e, n, k)), SourceStep(before, e, n, k), c)
                || TouchedIn(log, m + 1, s, n, k, c)
      {
        if Touches(e, n, k, c) || SameAt(Cols(d), before, c) {
          FreshEventAgrees(cat[n], d, before, e, n, k, c);
        } else {
          var j :| m <= j < s && j < |log| && Touches(log[j], n, k, c);
          assert j != m;
        }
      }
    }
  }

  /** The entry is newer than the event, so it is still the captured row, and the event is older than the capture. */
  lemma {:induction false} StaleStep(cat: Catalog, log: seq<Event>, hist: seq<Source>, m: nat, s: nat,
      d: Option<Stored>, n: TableName, k: Row)
    requires m < |log| && s <= |log| && n in cat && LogOk(cat, log, hist)
    requires KeyInv(cat, log, hist, m, s, d, n, k) && StaleFor(d, log[m])
    ensures KeyInv(cat, log, hist, m + 1, s, EntryStep(cat[n], d, log[m], n, k), n, k)
  {
    if Name(log[m]) == n && log[m].operation.Truncate? {
      StepFacts(cat, log, hist, m, n, k);
      AbsentKeyInv(cat, log, hist, m + 1, s, n, k);
    } else {
      StaleIsCaptured(log, d, m, s);
      CapturedKeyInv(cat, log, hist, m + 1, s, d, n, k);
    }
  }

  lemma {:induction false} AbsentKeyInv(cat: Catalog, log: seq<Event>, hist: seq<Source>, m: nat, s: nat,
      n: TableName, k: Row)
    requires m <= |log| && s <= |log| && |hist| == |log| + 1 && n in cat
    requires SourceEntry(hist[m], n, k) == None
    ensures KeyInv(cat, log, hist, m, s, None, n, k)
  {
  }

  lemma {:induction false} StaleIsCaptured(log: seq<Event>, d: Option<Stored>, m: nat, s: nat)
    requires m < |log| && StaleFor(d, log[m])
    ensures !StampedPast(log, d, m)
    ensures StampedBefore(log, d, s) ==> m < s
  {
  }

  // ---- whole replays -----------------------------------------------------------

  /** Nothing in the rest of the log is known to the destination yet. */
  predicate Unseen(db: Db, log: seq<Event>, m: nat) {
    forall j | m <= j < |log| :: log[j].id !in db.markers && NotStale(db, log[j])
  }

  ghost predicate Inv(cat: Catalog, log: seq<Event>, hist: seq<Source>, at: (TableName, Row) -> nat, m: nat, d: Db)
    requires m <= |log| && |hist| == |log| + 1
  {
    && DbOk(cat, d)
    && Unseen(d, log, m)
    && (forall n, k | n in cat ::
         at(n, k) <= |log| && KeyInv(cat, log, hist, m, at(n, k), Entry(d, n, k), n, k))
  }

  /**
    The destination holds, for every key, what the source held after `at` events,
    stamped so that every older event is among them; the replay will start at `p`.
  */
  ghost predicate Captured(cat: Catalog, log: seq<Event>, hist: seq<Source>, at: (TableName, Row) -> nat, p: nat, d: Db)
    requires |hist| == |log| + 1
  {
    && DbOk(cat, d)
    && Unseen(d, log, p)
    && (forall n, k | n in cat ::
         && p <= at(n, k) <= |log|
         && Cols(Entry(d, n, k)) == SourceEntry(hist[at(n, k)], n, k)
         && StampedBefore(log, Entry(d, n, k), at(n, k)))
  }

  /** Table by table, the destination's user columns are the source's rows. */
  ghost predicate Mirrors(cat: Catalog, d: Db, src: Source) {
    forall n, k | n in cat :: Cols(Entry(d, n, k)) == SourceEntry(src, n, k)
  }

  lemma {:induction false} UnseenStep(cat: Catalog, d: Db, log: seq<Event>, m: nat)
    requires m < |log| && Unseen(d, log, m) && DistinctIds(log) && TruncatesApart(log)
    requires ApplyInTx(cat, d, log[m]).Ok?
    ensures Unseen(ApplyInTx(cat, d, log[m]).value, log, m + 1)
  {
    var d' := ApplyInTx(cat, d, log[m]).value;
    forall j | m + 1 <= j < |log| ensures log[j].id !in d'.markers && NotStale(d', log[j]) {
      assert log[m].id != log[j].id;
      assert NotStale(d, log[j]);
    }
  }

  lemma {:induction false} InvStep(cat: Catalog, log: seq<Event>, hist: seq<Source>, at: (TableName, Row) -> nat,
      m: nat, d: Db)
    requires m < |log| && LogOk(cat, log, hist)
    requires Inv(cat, log, hist, at, m, d) && ApplyInTx(cat, d, log[m]).Ok?
    ensures Inv(cat, log, hist, at, m + 1, ApplyInTx(cat, d, log[m]).value)
  {
    var d' := ApplyInTx(cat, d, log[m]).value;
    UnseenStep(cat, d, log, m);
    ApplyOnEntries(cat, d, log[m]);
    forall n, k | n in cat
      ensures at(n, k) <= |log| && KeyInv(cat, log, hist, m + 1, at(n, k), Entry(d', n, k), n, k)
    {
      KeyInvStep(cat, log, hist, m, at(n, k), Entry(d, n, k), n, k);
    }
  }

  lemma {:induction false} CapturedInv(cat: Catalog, log: seq<Event>, hist: seq<Source>, at: (TableName, Row) -> nat,
      p: nat, d: Db)
    requires p <= |log| && LogOk(cat, log, hist) && Captured(cat, log, hist, at, p, d)
    ensures Inv(cat, log, hist, at, p, d)
  {
    forall n, k | n in cat
      ensures at(n, k) <= |log| && KeyInv(cat, log, hist, p, at(n, k), Entry(d, n, k), n, k)
    {
      CapturedKeyInv(cat, log, hist, p, at(n, k), Entry(d, n, k), n, k);
    }
  }

  /** At the end of the log the invariant leaves no difference. */
  lemma {:induction false} EndOfReplay(cat: Catalog, log: seq<Event>, hist: seq<Source>, at: (TableName, Row) -> nat,
      e: Db)
    requires LogOk(cat, log, hist) && Inv(cat, log, hist, at, |log|, e)
    ensures Mirrors(cat, e, hist[|log|])
  {
    HistoryKeepsColumns(cat, log, hist, |log|);
    forall n, k | n in cat ensures Cols(Entry(e, n, k)) == SourceEntry(hist[|log|], n, k) {
      assert KeyInv(cat, log, hist, |log|, at(n, k), Entry(e, n, k), n, k);
      AgreeEverywhere(cat[n], Entry(e, n, k), SourceEntry(hist[|log|], n, k));
    }
  }

  lemma {:induction false} AgreeEverywhere(def: TableDef, d: Option<Stored>, s: Option<Row>)
    requires def.key != {} && def.key <= def.columns
    requires d.Some? ==> d.value.cols.Keys == def.columns
    requires s.Some? ==> s.value.Keys == def.columns
    requires forall c | c in def.columns :: SameAt(Cols(d), s, c)
    ensures Cols(d) == s
  {
    var c :| c in def.key;
    assert SameAt(Cols(d), s, c);
    if d.Some? {
      forall c | c in def.columns ensures d.value.cols[c] == s.value[c] {
        assert SameAt(Cols(d), s, c);
      }
      assert d.value.cols == s.value;
    }
  }

  /** The destination mirrors the source and no row of it is newer than the log. */
  ghost predicate InStep(cat: Catalog, log: seq<Event>, hist: seq<Source>, d: Db)
    requires |hist| == |log| + 1
  {
    && DbOk(cat, d) && Unseen(d, log, 0)
    && Mirrors(cat, d, hist[0])
    && forall n, k | n in cat :: StampedPast(log, Entry(d, n, k), 0)
  }
}
