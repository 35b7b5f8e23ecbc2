/**
  What the destination never stores, and every way a well-formed event can be refused:
  texts its column types reject, NULL where none may be, rows filed under a wrong key.
*/
module Integrity {
  import opened Wrappers
  import opened Cdc
  import opened Destination
  import opened Convergence
  import opened Failures
  import opened Snapshot

  // ---- stored rows --------------------------------------------------------------------

  /** A row as PostgreSQL guarantees it: typed, NOT NULL respected, filed under its own primary key. */
  predicate RowIntact(def: TableDef, k: Row, cols: Row) {
    && cols.Keys == def.columns
    && (forall c | c in cols && cols[c].Text? :: def.casts(c, cols[c].text))
    && (forall c | c in def.columns && (c in def.notNull || c in def.key) :: cols[c] != Null)
    && k.Keys == def.key * def.columns
    && (forall c | c in k :: k[c] == cols[c])
  }

  predicate TableIntact(def: TableDef, t: Table) {
    forall k | k in t :: RowIntact(def, k, t[k].cols)
  }

  predicate Intact(cat: Catalog, db: Db) {
    forall n | n in cat :: TableIntact(cat[n], Rows(db, n))
  }

  lemma {:induction false} CandidateIntact(def: TableDef, after: Row)
    requires after.Keys <= def.columns && CastOk(def, after) && NotNullOk(def, Candidate(def, after))
    ensures RowIntact(def, Restrict(Candidate(def, after), def.key), Candidate(def, after))
  {
  }

  /** An upsert merges into the row of the same key. */
  lemma {:induction false} MergedIntact(def: TableDef, cols: Row, after: Row)
    requires after.Keys <= def.columns && CastOk(def, after) && NotNullOk(def, Candidate(def, after))
    requires RowIntact(def, Restrict(Candidate(def, after), def.key), cols)
    ensures RowIntact(def, Restrict(Candidate(def, after), def.key), cols + after)
  {
    var cand := Candidate(def, after);
    forall c | c in def.columns && (c in def.notNull || c in def.key) ensures (cols + after)[c] != Null {
      assert cand[c] != Null;
    }
    forall c | c in def.key && c in def.columns ensures (cols + after)[c] == cand[c] {
      assert cand[c] != Null;
    }
  }

  lemma {:induction false} InsertIntact(def: TableDef, t: Table, after: Row, l: Lsn, time: int)
    requires TableIntact(def, t) && InsertRow(def, t, after, l, time).Ok?
    ensures TableIntact(def, InsertRow(def, t, after, l, time).value)
  {
    CandidateIntact(def, after);
  }

  lemma {:induction false} UpsertIntact(def: TableDef, t: Table, after: Row, target: set<string>, l: Lsn, time: int)
    requires TableIntact(def, t) && UpsertRow(def, t, after, target, l, time).Ok?
    ensures TableIntact(def, UpsertRow(def, t, after, target, l, time).value)
  {
    CandidateIntact(def, after);
    var k := Restrict(Candidate(def, after), def.key);
    if k in t {
      MergedIntact(def, t[k].cols, after);
    }
  }

  lemma {:induction false} RewrittenIntact(def: TableDef, k: Row, s: Stored, after: Row)
    requires RowIntact(def, k, s.cols) && after.Keys <= def.columns && CastOk(def, after)
    requires NotNullOk(def, s.cols + after)
    ensures RowIntact(def, NewKey(def, s, after), s.cols + after)
  {
  }

  lemma {:induction false} UpdateIntact(def: TableDef, t: Table, after: Row, key: Row, l: Lsn, time: int)
    requires TableIntact(def, t) && UpdateRows(def, t, after, key, l, Some(l), time).Ok?
    ensures TableIntact(def, UpdateRows(def, t, after, key, l, Some(l), time).value)
  {
    var hit := Touched(t, key, l);
    var m := Moved(def, t, hit, after, Some(l), time);
    forall j | j in m ensures RowIntact(def, j, m[j].cols) {
      var k :| k in hit && j == NewKey(def, t[k], after) && m[j] == Rewritten(t[k], after, Some(l), time);
      RewrittenIntact(def, k, t[k], after);
    }
  }

  lemma {:induction false} MutateTableIntact(def: TableDef, t: Table, e: Event)
    requires TableIntact(def, t) && MutateTable(def, t, e).Ok?
    ensures TableIntact(def, MutateTable(def, t, e).value)
  {
    var l, time := e.source.commitLsn, e.source.commitTime;
    if e.operation.Delete? {
    } else if e.unchangedColumns == [] {
      UpsertIntact(def, t, e.after, e.key.Keys, l, time);
    } else {
      UpdateIntact(def, t, e.after, e.key, l, time);
      var t1 := UpdateRows(def, t, e.after, e.key, l, Some(l), time).value;
      if !AnyMatch(t1, e.key) {
        InsertIntact(def, t1, e.after, l, time);
      }
    }
  }

  lemma {:induction false} WithRowsIntact(cat: Catalog, db: Db, n: TableName, t: Table)
    requires n in cat && Intact(cat, db) && TableIntact(cat[n], t)
    ensures Intact(cat, WithRows(db, n, t))
  {
    forall m | m in cat ensures TableIntact(cat[m], Rows(WithRows(db, n, t), m)) {
      assert m != n ==> Rows(WithRows(db, n, t), m) == Rows(db, m);
    }
  }

  /**
    Whatever event a writer sends, a row that is stored has texts its column types accept,
    no NULL where none may be, all its columns, and its own primary key.
  */
  lemma {:induction false} ApplyKeepsIntact(cat: Catalog, db: Db, e: Event)
    requires Intact(cat, db) && ApplyInTx(cat, db, e).Ok?
    ensures Intact(cat, ApplyInTx(cat, db, e).value)
  {
    if e.id !in db.markers && !e.operation.Truncate? {
      var n := Name(e);
      assert Rows(Marked(db, e), n) == Rows(db, n);
      MutateTableIntact(cat[n], Rows(db, n), e);
      WithRowsIntact(cat, Marked(db, e), n, MutateTable(cat[n], Rows(db, n), e).value);
    }
  }

  lemma {:induction false} FoldKeepsIntact(cat: Catalog, db: Db, es: seq<Event>)
    requires Intact(cat, db) && ApplyAll(cat, db, es).Ok?
    ensures Intact(cat, ApplyAll(cat, db, es).value)
  {
    if es != [] {
      FoldKeepsIntact(cat, db, es[..|es| - 1]);
      ApplyKeepsIntact(cat, ApplyAll(cat, db, es[..|es| - 1]).value, es[|es| - 1]);
    }
  }

  lemma {:induction false} CopyRowIntact(cat: Catalog, db: Db, n: TableName, columns: set<string>, values: Row, l: Lsn,
      time: int)
    requires n in cat && Intact(cat, db) && CopyRow(cat, db, n, columns, values, l, time).Ok?
    ensures Intact(cat, CopyRow(cat, db, n, columns, values, l, time).value)
  {
    var row := Restrict(values, columns);
    UpsertIntact(cat[n], Rows(db, n), row, Restrict(row, cat[n].key).Keys, l, time);
    WithRowsIntact(cat, db, n, UpsertRow(cat[n], Rows(db, n), row, Restrict(row, cat[n].key).Keys, l, time).value);
  }

  lemma {:induction false} CopyRowsIntact(cat: Catalog, db: Db, n: TableName, columns: set<string>, rows: seq<Row>,
      l: Lsn, time: int, k: nat)
    requires n in cat && k <= |rows| && Intact(cat, db) && CopyRows(cat, db, n, columns, rows, l, time, k).Ok?
    ensures Intact(cat, CopyRows(cat, db, n, columns, rows, l, time, k).value)
    decreases |rows| - k
  {
    if k < |rows| {
      CopyRowIntact(cat, db, n, columns, rows[k], l, time);
      CopyRowsIntact(cat, CopyRow(cat, db, n, columns, rows[k], l, time).value, n, columns, rows, l, time, k + 1);
    }
  }

  /** The same for whatever a snapshot copies. */
  lemma {:induction false} SnapshotKeepsIntact(cat: Catalog, db: Db, view: SourceView, tables: seq<TableName>, l: Lsn,
      time: int, k: nat)
    requires k <= |tables| && Intact(cat, db) && CopyTables(cat, db, view, tables, l, time, k).Ok?
    ensures Intact(cat, CopyTables(cat, db, view, tables, l, time, k).value)
    decreases |tables| - k
  {
    if k < |tables| {
      var n, d := tables[k], CopyTable(cat, db, view, tables[k], l, time).value;
      CopyRowsIntact(cat, db, n, Selected(cat[n], view.columns[n]), view.rows[n], l, time, 0);
      SnapshotKeepsIntact(cat, d, view, tables, l, time, k + 1);
    }
  }

  // ---- which rows a key condition selects ----------------------------------------------------

  /** `c = v` for every column of the key; a comparison with NULL is not true. */
  predicate Equal(cols: Row, key: Row) {
    forall c | c in key :: c in cols && key[c].Text? && cols[c] == key[c]
  }

  predicate NotNewer(s: Stored, l: Lsn) {
    match s.lsn case None => true case Some(stamp) => stamp <= l
  }

  /** A delete removes exactly the rows equal to its key, whatever columns that names, that are not newer. */
  lemma {:induction false} DeleteRemovesExactly(cat: Catalog, db: Db, e: Event, n: TableName, k: Row)
    requires ApplyInTx(cat, db, e).Ok? && e.id !in db.markers && e.operation.Delete? && k in Rows(db, n)
    ensures var d := ApplyInTx(cat, db, e).value;
            if n == Name(e) && Equal(Rows(db, n)[k].cols, e.key) && NotNewer(Rows(db, n)[k], e.source.commitLsn)
            then k !in Rows(d, n)
            else k in Rows(d, n) && Rows(d, n)[k] == Rows(db, n)[k]
  {
    var t, l := Rows(Marked(db, e), n), e.source.commitLsn;
    EqualIsMatch(t[k], e.key);
    assert n == Name(e) ==> (k in Touched(t, e.key, l) <==> Equal(t[k].cols, e.key) && NotNewer(t[k], l));
  }

  lemma {:induction false} EqualIsMatch(s: Stored, key: Row)
    ensures Equal(s.cols, key) <==> Matches(s, key)
  {
  }

  /** An UPDATE keeps every row its condition does not select, and merges the new values into the others. */
  lemma {:induction false} UpdateRewritesExactly(def: TableDef, t: Table, after: Row, key: Row, l: Lsn, time: int,
      k: Row)
    requires UpdateRows(def, t, after, key, l, Some(l), time).Ok? && k in t
    ensures var u := UpdateRows(def, t, after, key, l, Some(l), time).value;
            var j := if Equal(t[k].cols, key) && NotNewer(t[k], l) then Restrict(t[k].cols + after, def.key) else k;
            && j in u
            && u[j] == if Equal(t[k].cols, key) && NotNewer(t[k], l) then Stored(t[k].cols + after, Some(l), time)
                       else t[k]
  {
    EqualIsMatch(t[k], key);
    var hit := Touched(t, key, l);
    var m := Moved(def, t, hit, after, Some(l), time);
    assert k in hit <==> Equal(t[k].cols, key) && NotNewer(t[k], l);
    if k in hit {
      var j := NewKey(def, t[k], after);
      assert j in m;
      var i :| i in hit && j == NewKey(def, t[i], after) && m[j] == Rewritten(t[i], after, Some(l), time);
      assert i == k;
    }
  }

  // ---- refused events -------------------------------------------------------------------

  /** The row a statement sends the values of. */
  function Written(e: Event): Row {
    if e.operation.Delete? then e.key else e.after
  }

  /** A text the type of its column rejects. */
  predicate WrongText(def: TableDef, row: Row) {
    exists c | c in row :: row[c].Text? && !def.casts(c, row[c].text)
  }

  /**
    A value of the wrong type is poison, on any database: for a row that is written, and for
    the key of a delete or of an update with unchanged columns.
  */
  lemma {:induction false} WrongTextIsPoison(cat: Catalog, db: Db, e: Event, c: string)
    requires Shaped(e) && e.id !in db.markers && !e.operation.Truncate? && ColumnsFree(e) && Name(e) in cat
    requires || (c in Written(e) && Written(e)[c].Text? && !cat[Name(e)].casts(c, Written(e)[c].text))
             || (e.unchangedColumns != [] && c in e.key && e.key[c].Text? && !cat[Name(e)].casts(c, e.key[c].text))
    ensures ApplyInTx(cat, db, e) == Err(POISON)
  {
    var def, t := cat[Name(e)], Rows(Marked(db, e), Name(e));
    if c in Written(e) && Written(e)[c].Text? && !def.casts(c, Written(e)[c].text) {
      assert !CastOk(def, Written(e));
    } else {
      assert !CastOk(def, e.key);
    }
    assert MutateTable(def, t, e) == Err(POISON);
  }

  /** NULL for a NOT NULL column. */
  predicate WritesNull(def: TableDef, e: Event) {
    exists c | c in def.notNull && c in e.after :: e.after[c] == Null
  }

  /** The stored row is newer, so that an update with unchanged columns does not touch it. */
  predicate Outrun(t: Table, e: Event) {
    e.unchangedColumns != [] && e.key in t && !GuardOk(t[e.key], e.source.commitLsn)
  }

  lemma {:induction false} WrongTextMeans(def: TableDef, row: Row)
    ensures CastOk(def, row) <==> !WrongText(def, row)
  {
  }

  lemma {:induction false} UpsertRefusedExactlyWhen(def: TableDef, t: Table, e: Event)
    requires def.key <= def.columns && RowAcceptable(def, e) && !e.operation.Delete? && e.unchangedColumns == []
    ensures UpsertRow(def, t, e.after, e.key.Keys, e.source.commitLsn, e.source.commitTime).Err? <==>
            WrongText(def, e.after) || WritesNull(def, e)
  {
    assert Columns(e) == {};
    KeyNotNull(def, e);
    WrongTextMeans(def, e.after);
    assert Candidate(def, e.after) == e.after;
  }

  lemma {:induction false} IntactIsOk(def: TableDef, t: Table)
    requires TableIntact(def, t)
    ensures TableOk(def, t)
  {
    forall k | k in t ensures t[k].cols.Keys == def.columns && k == Restrict(t[k].cols, def.key) {
      assert RowIntact(def, k, t[k].cols);
    }
  }

  /** The key is part of the row, so its texts are tested with it. */
  lemma {:induction false} KeyTextsAreRowTexts(def: TableDef, e: Event)
    requires RowAcceptable(def, e) && !e.operation.Delete?
    ensures WrongText(def, e.key) ==> WrongText(def, e.after)
  {
    if WrongText(def, e.key) {
      var c :| c in e.key && e.key[c].Text? && !def.casts(c, e.key[c].text);
      assert c in Restrict(e.after, def.key);
    }
  }

  /** With no NULL of its own an update cannot leave one: the stored row and its key have none. */
  lemma {:induction false} MergeRefusedExactlyWhen(def: TableDef, cols: Row, e: Event)
    requires def.key <= def.columns && RowIntact(def, e.key, cols)
    requires RowAcceptable(def, e) && e.operation.Update?
    ensures NotNullOk(def, cols + e.after) <==> !WritesNull(def, e)
  {
    KeyNotNull(def, e);
    if WritesNull(def, e) {
      var c :| c in def.notNull && c in e.after && e.after[c] == Null;
      assert c in def.columns && (cols + e.after)[c] == Null;
    }
  }

  lemma {:induction false} RewriteRefusedExactlyWhen(def: TableDef, t: Table, e: Event)
    requires def.key <= def.columns && TableIntact(def, t) && e.key in t
    requires RowAcceptable(def, e) && e.operation.Update?
    ensures CanRewrite(def, t, {e.key}, e.after) <==> !WritesNull(def, e)
  {
    IntactIsOk(def, t);
    assert RowIntact(def, e.key, t[e.key].cols);
    MergeRefusedExactlyWhen(def, t[e.key].cols, e);
    if WritesNull(def, e) {
      assert e.key in {e.key};
    } else {
      AfterKeepsKey(def, t[e.key].cols, e.after, e.key);
      RewriteOfOne(def, t, e.key, e.after);
    }
  }

  /** Apart from types, an UPDATE is refused by the rows it hits. */
  lemma {:induction false} UpdateNeeds(def: TableDef, t: Table, after: Row, key: Row, l: Lsn, time: int)
    requires after.Keys <= def.columns && key.Keys <= def.columns && (WrongText(def, key) ==> WrongText(def, after))
    ensures UpdateRows(def, t, after, key, l, Some(l), time).Err? <==>
            WrongText(def, after) || !CanRewrite(def, t, Touched(t, key, l), after)
  {
    WrongTextMeans(def, after);
    WrongTextMeans(def, key);
  }

  lemma {:induction false} HitIsRefused(def: TableDef, t: Table, e: Event)
    requires def.key <= def.columns && TableIntact(def, t)
    requires RowAcceptable(def, e) && e.operation.Update?
    ensures CanRewrite(def, t, Touched(t, e.key, e.source.commitLsn), e.after) <==>
            !(e.key in t && GuardOk(t[e.key], e.source.commitLsn) && WritesNull(def, e))
  {
    IntactIsOk(def, t);
    HitOnKey(def, t, e.key, e.source.commitLsn);
    if e.key in t && GuardOk(t[e.key], e.source.commitLsn) {
      RewriteRefusedExactlyWhen(def, t, e);
    } else {
      assert CanRewrite(def, t, {}, e.after);
    }
  }

  lemma {:induction false} UpdateRefusedExactlyWhen(def: TableDef, t: Table, e: Event)
    requires def.key <= def.columns && TableIntact(def, t)
    requires RowAcceptable(def, e) && e.operation.Update?
    ensures UpdateRows(def, t, e.after, e.key, e.source.commitLsn, Some(e.source.commitLsn), e.source.commitTime).Err?
            <==> WrongText(def, e.after)
                 || (e.key in t && GuardOk(t[e.key], e.source.commitLsn) && WritesNull(def, e))
  {
    KeyTextsAreRowTexts(def, e);
    UpdateNeeds(def, t, e.after, e.key, e.source.commitLsn, e.source.commitTime);
    HitIsRefused(def, t, e);
  }

  lemma {:induction false} InsertRefusedExactlyWhen(def: TableDef, t: Table, e: Event)
    requires def.key <= def.columns && e.key !in t && RowAcceptable(def, e) && e.operation.Update?
    ensures InsertRow(def, t, e.after, e.source.commitLsn, e.source.commitTime).Err? <==>
            WrongText(def, e.after) || WritesNull(def, e) || NeedsRow(def, e)
  {
    KeyNotNull(def, e);
    CandidateKey(def, e.after, e.key);
    WrongTextMeans(def, e.after);
    var cand := Candidate(def, e.after);
    if NeedsRow(def, e) {
      var c :| c in e.unchangedColumns && c in def.notNull;
      assert c in Columns(e) && c !in e.after;
      assert cand[c] == Null;
    } else if WritesNull(def, e) {
      var c :| c in def.notNull && c in e.after && e.after[c] == Null;
      assert cand[c] == Null;
    } else {
      forall c | c in def.columns && c in def.notNull ensures c in e.after && cand[c] != Null {
        assert c !in Columns(e);
      }
      assert NotNullOk(def, cand);
    }
  }

  lemma {:induction false} PreservingRefusedExactlyWhen(def: TableDef, t: Table, e: Event)
    requires def.key <= def.columns && TableIntact(def, t)
    requires RowAcceptable(def, e) && e.operation.Update? && e.unchangedColumns != []
    ensures PreservingUpdate(def, t, e.after, e.key, e.source.commitLsn, e.source.commitTime).Err? <==>
            WrongText(def, e.after) || (WritesNull(def, e) && !Outrun(t, e)) || LacksValue(def, t, e)
  {
    IntactIsOk(def, t);
    UpdateRefusedExactlyWhen(def, t, e);
    if UpdateRows(def, t, e.after, e.key, e.source.commitLsn, Some(e.source.commitLsn), e.source.commitTime).Ok? {
      if e.key in t {
        PreservingSucceeds(def, t, e);
      } else {
        UpdateOnKey(def, t, e.after, e.key, e.source.commitLsn, e.source.commitTime);
        AnyMatchIsKey(def, t, e.key);
        InsertRefusedExactlyWhen(def, t, e);
      }
    }
  }

  lemma {:induction false} MutateRefusedExactlyWhen(def: TableDef, t: Table, e: Event)
    requires def.key <= def.columns && TableIntact(def, t) && RowAcceptable(def, e)
    ensures MutateTable(def, t, e).Err? <==>
            WrongText(def, Written(e)) || (WritesNull(def, e) && !Outrun(t, e)) || LacksValue(def, t, e)
    ensures MutateTable(def, t, e).Err? ==> MutateTable(def, t, e) == Err(POISON)
  {
    AcceptablePassesChecks(def, e);
    if e.operation.Delete? {
      DeleteRefusedExactlyWhen(def, t, e);
    } else if e.unchangedColumns == [] {
      UpsertRefusedExactlyWhen(def, t, e);
    } else {
      PreservingRefusedExactlyWhen(def, t, e);
    }
    OnlyPoison(def, t, e);
  }

  lemma {:induction false} DeleteRefusedExactlyWhen(def: TableDef, t: Table, e: Event)
    requires def.key <= def.columns && RowAcceptable(def, e) && e.operation.Delete?
    ensures DeleteRows(def, t, e.key, e.source.commitLsn).Err? <==> WrongText(def, e.key)
    ensures !WritesNull(def, e)
  {
    WrongTextMeans(def, e.key);
  }

  /** Whatever the rows make of an event, their refusal is permanent. */
  lemma {:induction false} OnlyPoison(def: TableDef, t: Table, e: Event)
    ensures MutateTable(def, t, e).Err? ==> MutateTable(def, t, e) == Err(POISON)
  {
  }

  /**
    The exact reasons. On rows that are intact, a new event of the decoder's shape fails if
    and only if it sends a text its column type rejects, or NULL for a NOT NULL column of a
    row that is not newer already, or is an update that has to create its row and does not
    know all NOT NULL columns; and then it is poison.
  */
  lemma {:induction false} RefusedExactlyWhen(cat: Catalog, db: Db, e: Event)
    requires CatalogOk(cat) && Intact(cat, db) && Acceptable(cat, e) && e.id !in db.markers
    ensures ApplyInTx(cat, db, e).Err? <==>
            !e.operation.Truncate? &&
            var def, t := cat[Name(e)], Rows(db, Name(e));
            WrongText(def, Written(e)) || (WritesNull(def, e) && !Outrun(t, e)) || LacksValue(def, t, e)
    ensures ApplyInTx(cat, db, e).Err? ==> ApplyInTx(cat, db, e) == Err(POISON)
  {
    if !e.operation.Truncate? {
      AcceptablePassesChecks(cat[Name(e)], e);
      MutateRefusedExactlyWhen(cat[Name(e)], Rows(db, Name(e)), e);
      assert Rows(Marked(db, e), Name(e)) == Rows(db, Name(e));
    }
  }

  // ---- checks that read no row -----------------------------------------------------------

  /** A character that needs no quoting; a digit does not start a name. */
  predicate Plain(c: char, first: bool) {
    ('a' <= c <= 'z') || ('A' <= c <= 'Z') || c == '_' || (!first && '0' <= c <= '9')
  }

  predicate PlainName(s: string) {
    s != "" && forall i | 0 <= i < |s| :: Plain(s[i], i == 0)
  }

  predicate Reserved(c: string) {
    c == "source_lsn" || c == "source_commit_time" || c == "replicated_at"
  }

  predicate Ordinary(row: Row) {
    row != map[] && forall c | c in row :: PlainName(c) && !Reserved(c)
  }

  /** A well-formed event for a known table: plain names everywhere and a key that the row contains. */
  predicate Clean(cat: Catalog, e: Event) {
    && e.version == 1 && e.id != "" && PlainName(e.schema) && PlainName(e.table)
    && match e.operation
       case Truncate => true
       case Delete => Name(e) in cat && Ordinary(e.key) && forall c | c in e.after :: !Reserved(c)
       case Unknown(_) => false
       case _ =>
         && Name(e) in cat && Ordinary(e.key) && Ordinary(e.after)
         && forall c | c in e.key :: c in e.after && c !in e.unchangedColumns
  }

  lemma {:induction false} IdentIsPlain(s: string)
    ensures IsIdent(s) <==> PlainName(s)
  {
    if IsIdent(s) {
      assert PlainName(s);
    }
    if PlainName(s) {
      assert Plain(s[0], true);
      forall i | 0 <= i < |s| ensures IsLetter(s[i]) || '0' <= s[i] <= '9' {
        assert Plain(s[i], i == 0);
      }
    }
  }

  lemma {:induction false} TranscodableIsOrdinary(row: Row)
    ensures Transcodable(row) <==> Ordinary(row)
  {
    forall c | c in row ensures IsIdent(c) <==> PlainName(c) {
      IdentIsPlain(c);
    }
  }

  /** A new event that is not clean fails on every database; a clean one meets no failure but those of its rows. */
  lemma {:induction false} OnlyCleanEventsPass(cat: Catalog, db: Db, e: Event)
    requires e.id !in db.markers
    ensures !Clean(cat, e) ==> ApplyInTx(cat, db, e).Err?
    ensures Clean(cat, e) && e.operation.Truncate? && Name(e) in cat ==> ApplyInTx(cat, db, e).Ok?
    ensures Clean(cat, e) && !e.operation.Truncate? ==>
              (ApplyInTx(cat, db, e).Ok? <==> MutateTable(cat[Name(e)], Rows(db, Name(e)), e).Ok?)
  {
    CleanIsFit(cat, e);
    assert Rows(Marked(db, e), Name(e)) == Rows(db, Name(e));
  }

  lemma {:induction false} CleanIsFit(cat: Catalog, e: Event)
    ensures Clean(cat, e) <==> !Unfit(cat, e)
  {
    IdentIsPlain(e.schema);
    IdentIsPlain(e.table);
    TranscodableIsOrdinary(e.key);
    TranscodableIsOrdinary(e.after);
  }

  /** What takes effect names only columns of its table, and an upsert conflicts on the primary key. */
  lemma {:induction false} TakenColumnsAreKnown(cat: Catalog, db: Db, e: Event)
    requires ApplyInTx(cat, db, e).Ok? && e.id !in db.markers && !e.operation.Truncate?
    ensures Clean(cat, e)
    ensures forall c | c in Written(e) :: c in cat[Name(e)].columns
    ensures e.operation.Delete? || e.unchangedColumns != [] || e.key.Keys == cat[Name(e)].key
  {
    CleanIsFit(cat, e);
  }
}
