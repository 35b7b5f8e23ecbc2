/**
  Decoding preserves meaning: source statement, replication message, events and
  destination effect form a commuting square.
*/
module Translation {
  import opened Wrappers
  import opened Cdc
  import opened Destination
  import opened Convergence
  import opened Pgoutput
  import opened Decoder
  import EventIds

  // ---- source statements ------------------------------------------------------------

  datatype Statement =
    | InsertOne(rel: Relation, row: Row)
    | UpdateOne(rel: Relation, before: Row, row: Row)
    | DeleteOne(rel: Relation, before: Row)
    | TruncateTables(rels: seq<Relation>)

  function TableOf(rel: Relation): TableName {
    TableName(rel.namespace, rel.name)
  }

  function KeyOf(cat: Catalog, rel: Relation, row: Row): Row
    requires TableOf(rel) in cat
  {
    Restrict(row, cat[TableOf(rel)].key)
  }

  function Names(rel: Relation, n: nat): set<string>
    requires n <= |rel.columns|
  {
    set i | 0 <= i < n :: rel.columns[i].name
  }

  /** The relation message lists the columns of the destination table. */
  predicate Matching(cat: Catalog, rel: Relation) {
    && TableOf(rel) in cat
    && IsIdent(rel.namespace) && IsIdent(rel.name)
    && (forall i, j | 0 <= i < j < |rel.columns| :: rel.columns[i].name != rel.columns[j].name)
    && (forall i | 0 <= i < |rel.columns| :: IsIdent(rel.columns[i].name) && rel.columns[i].name !in RESERVED)
    && Names(rel, |rel.columns|) == cat[TableOf(rel)].columns
    && cat[TableOf(rel)].key <= cat[TableOf(rel)].columns
  }

  /** And the identity columns are its primary key. */
  predicate Describes(cat: Catalog, rel: Relation, keyColumns: seq<string>) {
    && Matching(cat, rel)
    && keyColumns != [] && (set c | c in keyColumns) == cat[TableOf(rel)].key
  }

  /** A whole row of the table, with values the destination's types and NOT NULL constraints accept. */
  predicate FullRow(cat: Catalog, rel: Relation, row: Row) {
    TableOf(rel) in cat && row.Keys == cat[TableOf(rel)].columns && FitRow(cat[TableOf(rel)], row)
  }

  /** The statement can run on `src`. */
  predicate Legal(cat: Catalog, src: Source, stmt: Statement) {
    match stmt
    case InsertOne(rel, row) =>
      FullRow(cat, rel, row) && KeyOf(cat, rel, row) !in SourceRows(src, TableOf(rel))
    case UpdateOne(rel, before, row) =>
      && FullRow(cat, rel, before) && FullRow(cat, rel, row)
      && KeyOf(cat, rel, before) in SourceRows(src, TableOf(rel))
      && SourceRows(src, TableOf(rel))[KeyOf(cat, rel, before)] == before
      && (KeyOf(cat, rel, row) == KeyOf(cat, rel, before) || KeyOf(cat, rel, row) !in SourceRows(src, TableOf(rel)))
    case DeleteOne(rel, before) =>
      && FullRow(cat, rel, before)
      && KeyOf(cat, rel, before) in SourceRows(src, TableOf(rel))
    case TruncateTables(rels) => forall i | 0 <= i < |rels| :: TableOf(rels[i]) in cat
  }

  function Truncated(src: Source, rels: seq<Relation>, n: nat): Source
    requires n <= |rels|
  {
    if n == 0 then src else Truncated(src, rels, n - 1)[TableOf(rels[n - 1]) := map[]]
  }

  /** What the statement does at the source. */
  function Execute(cat: Catalog, src: Source, stmt: Statement): Source
    requires Legal(cat, src, stmt)
  {
    match stmt
    case InsertOne(rel, row) => src[TableOf(rel) := SourceRows(src, TableOf(rel))[KeyOf(cat, rel, row) := row]]
    case UpdateOne(rel, before, row) =>
      src[TableOf(rel) := (SourceRows(src, TableOf(rel)) - {KeyOf(cat, rel, before)})[KeyOf(cat, rel, row) := row]]
    case DeleteOne(rel, before) => src[TableOf(rel) := SourceRows(src, TableOf(rel)) - {KeyOf(cat, rel, before)}]
    case TruncateTables(rels) => Truncated(src, rels, |rels|)
  }

  // ---- admissible encodings ------------------------------------------------------------

  predicate ShowsCell(cell: Cell, v: Value) {
    match cell
    case NullCell => v == Null
    case TextCell(text) => v == Text(text)
    case _ => false
  }

  /** A tuple that carries the whole row. */
  predicate ShowsRow(rel: Relation, tuple: Tuple, row: Row) {
    && |tuple| == |rel.columns|
    && forall i | 0 <= i < |tuple| :: rel.columns[i].name in row && ShowsCell(tuple[i], row[rel.columns[i].name])
  }

  /** A 'K' tuple: true values in the flagged columns, anything elsewhere. */
  predicate ShowsKey(rel: Relation, tuple: Tuple, row: Row) {
    && |tuple| == |rel.columns|
    && forall i | 0 <= i < |tuple| && rel.columns[i].isKey ::
         rel.columns[i].name in row && ShowsCell(tuple[i], row[rel.columns[i].name])
  }

  /** A cell of a new tuple: the value of the column, or 'u' for a value that is kept and not NULL. */
  predicate ShowsCellChange(cell: Cell, c: string, before: Row, row: Row) {
    && c in row
    && (ShowsCell(cell, row[c]) || (cell == UnchangedCell && c in before && before[c] == row[c] && row[c] != Null))
  }

  /** A new tuple: each column by value, or 'u' for a column that keeps a value that is not NULL. */
  predicate ShowsChange(rel: Relation, tuple: Tuple, before: Row, row: Row) {
    && |tuple| == |rel.columns|
    && forall i | 0 <= i < |tuple| :: ShowsCellChange(tuple[i], rel.columns[i].name, before, row)
  }

  predicate ShowsOld(rel: Relation, oldType: char, tuple: Tuple, row: Row) {
    if oldType == 'K' then ShowsKey(rel, tuple, row) else ShowsRow(rel, tuple, row)
  }

  /** `m` is one of the messages the source may send for the statement. */
  predicate Encodes(cat: Catalog, relations: map<nat, Relation>, stmt: Statement, m: Message) {
    match stmt
    case InsertOne(rel, row) =>
      && m.Insert? && m.relationId in relations && relations[m.relationId] == rel
      && m.tuple.Some? && ShowsRow(rel, m.tuple.value, row)
    case DeleteOne(rel, before) =>
      && m.Delete? && m.relationId in relations && relations[m.relationId] == rel
      && m.oldTuple.Some? && ShowsOld(rel, m.oldType, m.oldTuple.value, before)
    case UpdateOne(rel, before, row) =>
      && m.Update? && m.relationId in relations && relations[m.relationId] == rel
      && m.newTuple.Some? && ShowsChange(rel, m.newTuple.value, before, row)
      && (m.oldTuple.Some? ==> ShowsOld(rel, m.oldType, m.oldTuple.value, before))
      && (m.oldTuple.None? ==> TableOf(rel) in cat && KeyOf(cat, rel, before) == KeyOf(cat, rel, row))
    case TruncateTables(rels) =>
      && m.Truncate? && |m.relationIds| == |rels|
      && forall i | 0 <= i < |rels| :: m.relationIds[i] in relations && relations[m.relationIds[i]] == rels[i]
  }

  predicate AllDescribed(cat: Catalog, relations: map<nat, Relation>, keys: map<nat, seq<string>>) {
    forall id | id in relations :: Describes(cat, relations[id], KeyColumns(relations[id], Resolved(keys, id)))
  }

  /** The source catalog lists the destination's primary key for every table that is described. */
  predicate Agreed(cat: Catalog, identity: map<string, seq<string>>, relations: map<nat, Relation>) {
    forall id | id in relations ::
      var rel := relations[id];
      var q := rel.namespace + "." + rel.name;
      && Matching(cat, rel)
      && q in identity && identity[q] != [] && (set c | c in identity[q]) == cat[TableOf(rel)].key
  }

  /** Then a valid decoder has, after any relation messages, the right key columns, whatever columns they flag. */
  lemma {:induction false} CatalogDescribes(cat: Catalog, identity: map<string, seq<string>>,
      relations: map<nat, Relation>, keys: map<nat, seq<string>>)
    requires Identified(Some(identity), relations, keys) && Agreed(cat, identity, relations)
    ensures AllDescribed(cat, relations, keys)
  {
    forall id | id in relations ensures Describes(cat, relations[id], KeyColumns(relations[id], Resolved(keys, id))) {
      var rel := relations[id];
      assert rel.namespace + ['.'] + rel.name == rel.namespace + "." + rel.name;
    }
  }

  // ---- what a decoded tuple says ------------------------------------------------------

  /** Every decoded column has its true value; the others are reported and kept their value. */
  ghost predicate Tells(decoded: (Row, seq<string>), columns: set<string>, fill: Row, before: Row, row: Row) {
    && (forall c | c in decoded.0 :: c in row && decoded.0[c] == row[c])
    && (forall c | c in decoded.1 :: c !in decoded.0 && c in row && c in before && before[c] == row[c])
    && (forall c | c in decoded.1 :: c !in fill || fill[c] == Null)
    && (forall c :: c in columns <==> c in decoded.0 || c in decoded.1)
  }

  lemma {:induction false} NamesStep(rel: Relation, n: nat)
    requires 0 < n <= |rel.columns|
    ensures Names(rel, n) == Names(rel, n - 1) + {rel.columns[n - 1].name}
  {
    forall c | c in Names(rel, n - 1) + {rel.columns[n - 1].name} ensures c in Names(rel, n) {
      if c in Names(rel, n - 1) {
        var i :| 0 <= i < n - 1 && rel.columns[i].name == c;
      }
    }
  }

  lemma {:induction false} CellTells(r: Row, u: seq<string>, columns: set<string>, c: string, cell: Cell, fill: Row,
      before: Row, row: Row)
    requires Tells((r, u), columns, fill, before, row) && c !in columns && ShowsCellChange(cell, c, before, row)
    requires c in fill ==> c in before && fill[c] == before[c]
    ensures DecodeCell(r, u, c, cell, false, fill).Some?
    ensures Tells(DecodeCell(r, u, c, cell, false, fill).value, columns + {c}, fill, before, row)
  {
  }

  lemma {:induction false} DecodeTells(rel: Relation, tuple: Tuple, fill: Row, before: Row, row: Row, n: nat)
    requires n <= |rel.columns| && ShowsChange(rel, tuple, before, row)
    requires forall i, j | 0 <= i < j < |rel.columns| :: rel.columns[i].name != rel.columns[j].name
    requires forall c | c in fill :: c in before && fill[c] == before[c]
    ensures DecodeUpTo(rel, tuple, false, fill, n).Some?
    ensures Tells(DecodeUpTo(rel, tuple, false, fill, n).value, Names(rel, n), fill, before, row)
  {
    if n > 0 {
      DecodeTells(rel, tuple, fill, before, row, n - 1);
      NamesStep(rel, n);
      var c := rel.columns[n - 1].name;
      assert c !in Names(rel, n - 1);
      var (r, u) := DecodeUpTo(rel, tuple, false, fill, n - 1).value;
      CellTells(r, u, Names(rel, n - 1), c, tuple[n - 1], fill, before, row);
    }
  }

  lemma {:induction false} DecodeKeyTells(rel: Relation, tuple: Tuple, row: Row, n: nat)
    requires n <= |rel.columns| && ShowsKey(rel, tuple, row)
    ensures DecodeUpTo(rel, tuple, true, map[], n).Some?
    ensures var decoded := DecodeUpTo(rel, tuple, true, map[], n).value;
            forall c | c in decoded.0 :: c in row && decoded.0[c] == row[c]
  {
    if n > 0 {
      DecodeKeyTells(rel, tuple, row, n - 1);
    }
  }

  lemma {:induction false} ShowsRowIsChange(rel: Relation, tuple: Tuple, row: Row)
    requires ShowsRow(rel, tuple, row)
    ensures ShowsChange(rel, tuple, map[], row)
  {
  }

  lemma {:induction false} Inhabited(u: seq<string>)
    ensures u != [] ==> exists c :: c in u
  {
    if u != [] {
      assert u[0] in u;
    }
  }

  /** A tuple with every value decodes to the row itself. */
  lemma {:induction false} DecodeWhole(cat: Catalog, rel: Relation, keyColumns: seq<string>, tuple: Tuple, row: Row)
    requires Describes(cat, rel, keyColumns) && ShowsRow(rel, tuple, row) && FullRow(cat, rel, row)
    ensures DecodeTuple(rel, Some(tuple), false, map[]) == Some((row, []))
  {
    ShowsRowIsChange(rel, tuple, row);
    DecodeTells(rel, tuple, map[], map[], row, |rel.columns|);
    var (r, u) := DecodeUpTo(rel, tuple, false, map[], |rel.columns|).value;
    Inhabited(u);
    assert r.Keys == row.Keys;
    assert r == row;
  }

  /** The old image, when one was sent, holds true values of the old row. */
  lemma {:induction false} OldTells(cat: Catalog, rel: Relation, keyColumns: seq<string>, oldType: char,
      tuple: Tuple, before: Row)
    requires Describes(cat, rel, keyColumns) && ShowsOld(rel, oldType, tuple, before) && FullRow(cat, rel, before)
    ensures DecodeTuple(rel, Some(tuple), oldType == 'K', map[]).Some?
    ensures var decoded := DecodeTuple(rel, Some(tuple), oldType == 'K', map[]).value;
            forall c | c in decoded.0 :: c in before && decoded.0[c] == before[c]
  {
    if oldType == 'K' {
      DecodeKeyTells(rel, tuple, before, |rel.columns|);
    } else {
      DecodeWhole(cat, rel, keyColumns, tuple, before);
    }
  }

  lemma {:induction false} KeyTells(keyColumns: seq<string>, decoded: Row, row: Row)
    requires forall c | c in decoded :: c in row && decoded[c] == row[c]
    requires PrimaryKey(keyColumns, decoded).Some?
    ensures PrimaryKey(keyColumns, decoded).value == Restrict(row, set c | c in keyColumns)
    ensures PrimaryKey(keyColumns, decoded).value.Keys == set c | c in keyColumns
    ensures forall c | c in PrimaryKey(keyColumns, decoded).value :: PrimaryKey(keyColumns, decoded).value[c] != Null
  {
  }

  /** After a key change the fill loop finds nothing it could use: it refuses, or has nothing to do. */
  lemma {:induction false} FillOnlyRefuses(after: Row, oldRow: Row, unchangedColumns: seq<string>)
    requires forall c | c in unchangedColumns :: c !in oldRow || oldRow[c] == Null
    ensures FillUpTo(after, oldRow, unchangedColumns, |unchangedColumns|) ==
            if unchangedColumns == [] then Some(after) else None
  {
    if unchangedColumns != [] {
      assert unchangedColumns[0] in unchangedColumns;
      assert FillUpTo(after, oldRow, unchangedColumns, 1) == None;
      FillRefusedEarly(after, oldRow, unchangedColumns, 1, |unchangedColumns|);
    }
  }

  // ---- one statement ---------------------------------------------------------------------

  /** The events of one transaction that follow its first `from` events. */
  function EventsFrom(commit: Committed, changes: seq<Change>, from: nat): (r: seq<Event>)
    ensures |r| == |changes|
    ensures forall i | 0 <= i < |r| :: r[i] == EventOf(commit, changes[i], from + i + 1)
  {
    seq(|changes|, i requires 0 <= i < |changes| => EventOf(commit, changes[i], from + i + 1))
  }

  lemma {:induction false} EventsFromAppend(commit: Committed, a: seq<Change>, b: seq<Change>, from: nat)
    ensures EventsFrom(commit, a + b, from) == EventsFrom(commit, a, from) + EventsFrom(commit, b, from + |a|)
  {
  }

  lemma {:induction false} IdNotEmpty(lsn: Lsn, sequence: nat)
    ensures EventIds.EventId(lsn, sequence) != ""
  {
  }

  /** The events are acceptable, fit the tables, meet the rows they update, and take `src` to `end`. */
  ghost predicate Square(cat: Catalog, src: Source, es: seq<Event>, end: Source) {
    Run(src, es) == end && GenuineRun(cat, src, es) && AllFit(cat, es)
  }

  lemma {:induction false} OneEvent(cat: Catalog, src: Source, e: Event)
    requires Acceptable(cat, e) && Fit(cat, e) && (e.operation.Update? ==> e.key in SourceRows(src, Name(e)))
    ensures Square(cat, src, [e], Meaning(src, e))
  {
    assert [e][..0] == [];
    assert Run(src, []) == src && GenuineRun(cat, src, []);
  }

  lemma {:induction false} TwoEvents(cat: Catalog, src: Source, e: Event, f: Event)
    requires Acceptable(cat, e) && Fit(cat, e) && !e.operation.Update?
    requires Acceptable(cat, f) && Fit(cat, f) && !f.operation.Update?
    ensures Square(cat, src, [e, f], Meaning(Meaning(src, e), f))
  {
    OneEvent(cat, src, e);
    assert [e, f][..1] == [e];
  }

  /** A key read from a decoded row is the key of the row, and fit for the applier. */
  lemma {:induction false} KeyIsKey(cat: Catalog, rel: Relation, keyColumns: seq<string>, decoded: Row, row: Row)
    requires Describes(cat, rel, keyColumns) && FullRow(cat, rel, row)
    requires forall c | c in decoded :: c in row && decoded[c] == row[c]
    requires PrimaryKey(keyColumns, decoded).Some?
    ensures var key := PrimaryKey(keyColumns, decoded).value;
            && key == KeyOf(cat, rel, row) && key == Restrict(decoded, cat[TableOf(rel)].key)
            && key.Keys == cat[TableOf(rel)].key && Transcodable(key) && FitRow(cat[TableOf(rel)], key)
            && forall c | c in key :: key[c] != Null
  {
    KeyTells(keyColumns, decoded, row);
    Inhabited(keyColumns);
    var c :| c in keyColumns;
    assert c in PrimaryKey(keyColumns, decoded).value;
    NamesAreFree(cat, rel, keyColumns);
  }

  lemma {:induction false} NamesAreFree(cat: Catalog, rel: Relation, keyColumns: seq<string>)
    requires Describes(cat, rel, keyColumns)
    ensures forall c | c in cat[TableOf(rel)].columns :: IsIdent(c) && c !in RESERVED
  {
    forall c | c in cat[TableOf(rel)].columns ensures IsIdent(c) && c !in RESERVED {
      assert c in Names(rel, |rel.columns|);
    }
  }

  /** A change of a described table, with the key of a row, becomes an acceptable event. */
  lemma {:induction false} ChangeIsAcceptable(cat: Catalog, rel: Relation, keyColumns: seq<string>, change: Change,
      commit: Committed, sequence: nat)
    requires Describes(cat, rel, keyColumns)
    requires change.schema == rel.namespace && change.table == rel.name
    requires RowAcceptable(cat[TableOf(rel)], EventOf(commit, change, sequence))
    requires FitRow(cat[TableOf(rel)], change.after) && FitRow(cat[TableOf(rel)], change.key)
    ensures Acceptable(cat, EventOf(commit, change, sequence)) && Fit(cat, EventOf(commit, change, sequence))
  {
    IdNotEmpty(commit.commitLsn, sequence);
  }

  lemma {:induction false} InsertSquare(cat: Catalog, src: Source, rel: Relation, keyColumns: seq<string>, row: Row,
      tuple: Tuple,
                     commit: Committed, from: nat)
    requires Describes(cat, rel, keyColumns) && Legal(cat, src, InsertOne(rel, row)) && ShowsRow(rel, tuple, row)
    requires InsertChanges(rel, keyColumns, Some(tuple)).Some?
    ensures Square(cat, src, EventsFrom(commit, InsertChanges(rel, keyColumns, Some(tuple)).value, from),
                   Execute(cat, src, InsertOne(rel, row)))
  {
    DecodeWhole(cat, rel, keyColumns, tuple, row);
    KeyIsKey(cat, rel, keyColumns, row, row);
    NamesAreFree(cat, rel, keyColumns);
    var change := InsertChanges(rel, keyColumns, Some(tuple)).value[0];
    var e := EventOf(commit, change, from + 1);
    ChangeIsAcceptable(cat, rel, keyColumns, change, commit, from + 1);
    OneEvent(cat, src, e);
    assert EventsFrom(commit, [change], from) == [e];
  }

  lemma {:induction false} DeleteSquare(cat: Catalog, src: Source, rel: Relation, keyColumns: seq<string>,
      before: Row, oldType: char, tuple: Tuple,
                     commit: Committed, from: nat)
    requires Describes(cat, rel, keyColumns) && Legal(cat, src, DeleteOne(rel, before))
    requires ShowsOld(rel, oldType, tuple, before)
    requires DeleteChanges(rel, keyColumns, oldType, Some(tuple)).Some?
    ensures Square(cat, src, EventsFrom(commit, DeleteChanges(rel, keyColumns, oldType, Some(tuple)).value, from),
                   Execute(cat, src, DeleteOne(rel, before)))
  {
    OldTells(cat, rel, keyColumns, oldType, tuple, before);
    var decoded := DecodeTuple(rel, Some(tuple), oldType == 'K', map[]).value.0;
    KeyIsKey(cat, rel, keyColumns, decoded, before);
    var change := DeleteChanges(rel, keyColumns, oldType, Some(tuple)).value[0];
    var e := EventOf(commit, change, from + 1);
    ChangeIsAcceptable(cat, rel, keyColumns, change, commit, from + 1);
    OneEvent(cat, src, e);
    assert EventsFrom(commit, [change], from) == [e];
  }

  /** The new image of an update, over the true old values in `fill`. */
  lemma {:induction false} NewTells(cat: Catalog, rel: Relation, keyColumns: seq<string>, tuple: Tuple, fill: Row,
      before: Row, row: Row)
    requires Describes(cat, rel, keyColumns) && FullRow(cat, rel, before) && FullRow(cat, rel, row)
    requires ShowsChange(rel, tuple, before, row)
    requires forall c | c in fill :: c in before && fill[c] == before[c]
    ensures DecodeTuple(rel, Some(tuple), false, fill).Some?
    ensures Tells(DecodeTuple(rel, Some(tuple), false, fill).value, cat[TableOf(rel)].columns, fill, before, row)
    ensures before + DecodeTuple(rel, Some(tuple), false, fill).value.0 == row
    ensures DecodeTuple(rel, Some(tuple), false, fill).value.1 == [] ==>
            DecodeTuple(rel, Some(tuple), false, fill).value.0 == row
  {
    DecodeTells(rel, tuple, fill, before, row, |rel.columns|);
    Overlay(DecodeTuple(rel, Some(tuple), false, fill).value, cat[TableOf(rel)].columns, fill, before, row);
  }

  lemma {:induction false} Overlay(decoded: (Row, seq<string>), columns: set<string>, fill: Row, before: Row, row: Row)
    requires Tells(decoded, columns, fill, before, row) && before.Keys == columns && row.Keys == columns
    ensures before + decoded.0 == row
    ensures decoded.1 == [] ==> decoded.0 == row
  {
    assert (before + decoded.0).Keys == row.Keys;
    if decoded.1 == [] {
      assert decoded.0.Keys == row.Keys;
    }
  }

  /** The key did not change: one update that leaves the unchanged columns alone. */
  lemma {:induction false} UpdateInPlace(cat: Catalog, src: Source, rel: Relation, keyColumns: seq<string>,
      before: Row, row: Row,
                      fill: Row, after: Row, unchangedColumns: seq<string>, change: Change, commit: Committed,
                        sequence: nat)
    requires Describes(cat, rel, keyColumns) && Legal(cat, src, UpdateOne(rel, before, row))
    requires Tells((after, unchangedColumns), cat[TableOf(rel)].columns, fill, before, row) && before + after == row
    requires PrimaryKey(keyColumns, after) == Some(KeyOf(cat, rel, before))
    requires change ==
             Change(rel.namespace, rel.name, Cdc.Operation.Update, KeyOf(cat, rel, before), fill, after,
               unchangedColumns)
    ensures Square(cat, src, [EventOf(commit, change, sequence)], Execute(cat, src, UpdateOne(rel, before, row)))
  {
    KeyIsKey(cat, rel, keyColumns, after, row);
    NamesAreFree(cat, rel, keyColumns);
    var e := EventOf(commit, change, sequence);
    UpdateShape(cat[TableOf(rel)], e, fill, before, row);
    ChangeIsAcceptable(cat, rel, keyColumns, change, commit, sequence);
    OneEvent(cat, src, e);
    MoveInPlace(SourceRows(src, TableOf(rel)), e.key, row);
  }

  lemma {:induction false} NotEmpty(row: Row)
    requires row != map[]
    ensures exists c :: c in row
  {
    assert row.Keys != {};
  }

  lemma {:induction false} UpdateShape(def: TableDef, e: Event, fill: Row, before: Row, row: Row)
    requires Tells((e.after, e.unchangedColumns), def.columns, fill, before, row)
    requires forall c | c in def.columns :: IsIdent(c) && c !in RESERVED
    requires e.key == Restrict(e.after, def.key) && e.key.Keys == def.key && Transcodable(e.key)
    ensures AfterShape(def, e) && Transcodable(e.after)
  {
    assert e.after.Keys + Columns(e) == def.columns;
    WholeIsNotEmpty(e.key, e.after);
  }

  lemma {:induction false} MoveInPlace(rows: SourceTable, key: Row, row: Row)
    requires key in rows
    ensures (rows - {key})[key := row] == rows[key := row]
  {
  }

  /** The key changed: a delete and an insert of the whole row. */
  lemma {:induction false} UpdateMoves(cat: Catalog, src: Source, rel: Relation, keyColumns: seq<string>,
      before: Row, row: Row, oldRow: Row,
                    commit: Committed, from: nat)
    requires Describes(cat, rel, keyColumns) && Legal(cat, src, UpdateOne(rel, before, row))
    requires forall c | c in oldRow :: c in before && oldRow[c] == before[c]
    requires PrimaryKey(keyColumns, oldRow).Some? && PrimaryKey(keyColumns, row).Some?
    ensures Square(cat, src, EventsFrom(commit, MoveChanges(cat, rel, before, row, oldRow), from),
                   Execute(cat, src, UpdateOne(rel, before, row)))
  {
    var changes := MoveChanges(cat, rel, before, row, oldRow);
    var e, f := EventOf(commit, changes[0], from + 1), EventOf(commit, changes[1], from + 2);
    assert EventsFrom(commit, changes, from) == [e, f];
    assert Square(cat, src, [e, f], Execute(cat, src, UpdateOne(rel, before, row))) by {
      MoveIsAcceptable(cat, rel, keyColumns, before, row, oldRow, e, f);
      ChangeIsAcceptable(cat, rel, keyColumns, changes[0], commit, from + 1);
      ChangeIsAcceptable(cat, rel, keyColumns, changes[1], commit, from + 2);
      MoveSquare(cat, src, rel, before, row, e, f);
    }
  }

  lemma {:induction false} MoveSquare(cat: Catalog, src: Source, rel: Relation, before: Row, row: Row, e: Event,
      f: Event)
    requires Legal(cat, src, UpdateOne(rel, before, row))
    requires Fit(cat, e) && Fit(cat, f)
    requires Acceptable(cat, e) && e.operation.Delete? && Name(e) == TableOf(rel) && e.key == KeyOf(cat, rel, before)
    requires Acceptable(cat, f) && f.operation.Insert? && Name(f) == TableOf(rel) && f.key == KeyOf(cat, rel, row)
    requires f.after == row
    ensures Square(cat, src, [e, f], Execute(cat, src, UpdateOne(rel, before, row)))
  {
    TwoEvents(cat, src, e, f);
    MoveMeans(src, TableOf(rel), e, f);
  }

  lemma {:induction false} MoveMeans(src: Source, n: TableName, e: Event, f: Event)
    requires Name(e) == n && Name(f) == n && e.operation.Delete? && f.operation.Insert?
    ensures Meaning(Meaning(src, e), f) == src[n := (SourceRows(src, n) - {e.key})[f.key := f.after]]
  {
    assert SourceRows(Meaning(src, e), n) == SourceRows(src, n) - {e.key};
  }

  lemma {:induction false} MoveIsAcceptable(cat: Catalog, rel: Relation, keyColumns: seq<string>, before: Row,
      row: Row, oldRow: Row, e: Event, f: Event)
    requires Describes(cat, rel, keyColumns) && FullRow(cat, rel, before) && FullRow(cat, rel, row)
    requires forall c | c in oldRow :: c in before && oldRow[c] == before[c]
    requires PrimaryKey(keyColumns, oldRow).Some? && PrimaryKey(keyColumns, row).Some?
    requires e.operation.Delete? && e.key == KeyOf(cat, rel, before) && e.after == map[]
    requires f.operation.Insert? && f.key == KeyOf(cat, rel, row) && f.after == row && f.unchangedColumns == []
    ensures RowAcceptable(cat[TableOf(rel)], e) && RowAcceptable(cat[TableOf(rel)], f)
    ensures FitRow(cat[TableOf(rel)], e.key) && FitRow(cat[TableOf(rel)], f.key)
  {
    KeyIsKey(cat, rel, keyColumns, oldRow, before);
    KeyIsKey(cat, rel, keyColumns, row, row);
    NamesAreFree(cat, rel, keyColumns);
    assert Columns(f) == {};
    WholeIsNotEmpty(f.key, row);
  }

  lemma {:induction false} WholeIsNotEmpty(key: Row, row: Row)
    requires key != map[] && key.Keys <= row.Keys
    ensures row != map[]
  {
    NotEmpty(key);
    var c :| c in key;
    assert c in row;
  }

  function MoveChanges(cat: Catalog, rel: Relation, before: Row, row: Row, oldRow: Row): seq<Change>
    requires TableOf(rel) in cat
  {
    [Change(rel.namespace, rel.name, Cdc.Operation.Delete, KeyOf(cat, rel, before), oldRow, map[], []),
     Change(rel.namespace, rel.name, Cdc.Operation.Insert, KeyOf(cat, rel, row), map[], row, [])]
  }

  /** What an accepted update decodes to: a move of the whole row, or a change in place. */
  lemma {:induction false} UpdateSquare(cat: Catalog, src: Source, rel: Relation, keyColumns: seq<string>,
      before: Row, row: Row,
                     oldType: char, oldTuple: Option<Tuple>, tuple: Tuple, commit: Committed, from: nat)
    requires Describes(cat, rel, keyColumns) && Legal(cat, src, UpdateOne(rel, before, row))
    requires ShowsChange(rel, tuple, before, row)
    requires oldTuple.Some? ==> ShowsOld(rel, oldType, oldTuple.value, before)
    requires oldTuple.None? ==> KeyOf(cat, rel, before) == KeyOf(cat, rel, row)
    requires UpdateChanges(rel, keyColumns, oldType, oldTuple, Some(tuple)).Some?
    ensures Square(cat, src,
            EventsFrom(commit, UpdateChanges(rel, keyColumns, oldType, oldTuple, Some(tuple)).value, from),
                   Execute(cat, src, UpdateOne(rel, before, row)))
  {
    var changes := UpdateChanges(rel, keyColumns, oldType, oldTuple, Some(tuple)).value;
    if oldTuple.Some? {
      OldTells(cat, rel, keyColumns, oldType, oldTuple.value, before);
    }
    var image := DecodeOld(rel, keyColumns, oldType, oldTuple).value;
    if image.key.Some? {
      KeyIsKey(cat, rel, keyColumns, image.row, before);
    }
    NewTells(cat, rel, keyColumns, tuple, image.row, before, row);
    var (after, unchangedColumns) := DecodeTuple(rel, Some(tuple), false, image.row).value;
    KeyIsKey(cat, rel, keyColumns, after, row);
    if image.key.Some? && image.key.value != KeyOf(cat, rel, row) {
      FillOnlyRefuses(after, image.row, unchangedColumns);
      UpdateMoves(cat, src, rel, keyColumns, before, row, image.row, commit, from);
    } else {
      UpdateInPlace(cat, src, rel, keyColumns, before, row, image.row, after, unchangedColumns, changes[0], commit,
        from + 1);
      assert EventsFrom(commit, changes, from) == [EventOf(commit, changes[0], from + 1)];
    }
  }

  lemma {:induction false} TruncateEvent(cat: Catalog, src: Source, rel: Relation, commit: Committed, sequence: nat)
    requires Known(cat, rel)
    ensures Square(cat, src, [EventOf(commit, TruncateChange(rel), sequence)], src[TableOf(rel) := map[]])
  {
    IdNotEmpty(commit.commitLsn, sequence);
    OneEvent(cat, src, EventOf(commit, TruncateChange(rel), sequence));
  }

  lemma {:induction false} SquareAppend(cat: Catalog, src: Source, a: seq<Event>, mid: Source, b: seq<Event>,
      end: Source)
    requires Square(cat, src, a, mid) && Square(cat, mid, b, end)
    ensures Square(cat, src, a + b, end)
  {
    RunAppend(src, a, b);
    GenuineAppend(cat, src, a, b);
  }

  predicate Known(cat: Catalog, rel: Relation) {
    TableOf(rel) in cat && IsIdent(rel.namespace) && IsIdent(rel.name)
  }

  function TruncatesOf(rels: seq<Relation>, n: nat): (r: seq<Change>)
    requires n <= |rels|
    ensures |r| == n
  {
    if n == 0 then [] else TruncatesOf(rels, n - 1) + [TruncateChange(rels[n - 1])]
  }

  lemma {:induction false} TruncateDecodes(relations: map<nat, Relation>, ids: seq<nat>, rels: seq<Relation>, n: nat)
    requires n <= |ids| == |rels| && forall i | 0 <= i < |rels| :: ids[i] in relations && relations[ids[i]] == rels[i]
    ensures TruncateUpTo(relations, ids, n) == Some(TruncatesOf(rels, n))
  {
    if n > 0 {
      TruncateDecodes(relations, ids, rels, n - 1);
    }
  }

  lemma {:induction false} TruncateSquare(cat: Catalog, src: Source, rels: seq<Relation>, n: nat, commit: Committed,
      from: nat)
    requires n <= |rels| && forall i | 0 <= i < |rels| :: Known(cat, rels[i])
    ensures Square(cat, src, EventsFrom(commit, TruncatesOf(rels, n), from), Truncated(src, rels, n))
  {
    if n == 0 {
      assert EventsFrom(commit, [], from) == [];
    } else {
      var k := n - 1;
      var init, last, mid := TruncatesOf(rels, k), TruncateChange(rels[k]), Truncated(src, rels, k);
      TruncateSquare(cat, src, rels, k, commit, from);
      var a, b := EventsFrom(commit, init, from), [EventOf(commit, last, from + n)];
      TruncateEvent(cat, mid, rels[k], commit, from + n);
      SquareAppend(cat, src, a, mid, b, Truncated(src, rels, n));
      EventsFromAppend(commit, init, [last], from);
      assert EventsFrom(commit, [last], from + |init|) == b;
    }
  }

  /**
    The commuting square. Any statement the source can run, any message it may send for
    it: if the decoder accepts the message, its events mean what the statement did.
  */
  lemma {:induction false} StatementSquare(
      cat: Catalog, relations: map<nat, Relation>, keys: map<nat, seq<string>>, src: Source, stmt: Statement,
      m: Message,
      commit: Committed, from: nat)
    requires AllDescribed(cat, relations, keys) && Legal(cat, src, stmt)
    requires IsRowMessage(m) && Encodes(cat, relations, stmt, m) && Changes(relations, keys, m).Some?
    ensures Square(cat, src, EventsFrom(commit, Changes(relations, keys, m).value, from), Execute(cat, src, stmt))
  {
    match stmt
    case InsertOne(rel, row) =>
      var keyColumns := KeyColumns(rel, Resolved(keys, m.relationId));
      InsertSquare(cat, src, rel, keyColumns, row, m.tuple.value, commit, from);
    case DeleteOne(rel, before) =>
      var keyColumns := KeyColumns(rel, Resolved(keys, m.relationId));
      DeleteSquare(cat, src, rel, keyColumns, before, m.oldType, m.oldTuple.value, commit, from);
    case UpdateOne(rel, before, row) =>
      var keyColumns := KeyColumns(rel, Resolved(keys, m.relationId));
      UpdateSquare(cat, src, rel, keyColumns, before, row, m.oldType, m.oldTuple, m.newTuple.value, commit, from);
    case TruncateTables(rels) =>
      TruncateDecodes(relations, m.relationIds, rels, |rels|);
      assert forall i | 0 <= i < |rels| :: Known(cat, relations[m.relationIds[i]]);
      TruncateSquare(cat, src, rels, |rels|, commit, from);
  }

  // ---- one transaction ----------------------------------------------------------------------

  /** The source after the first `n` statements, or None when one of them cannot run. */
  function ExecuteAll(cat: Catalog, src: Source, stmts: seq<Statement>, n: nat): Option<Source>
    requires n <= |stmts|
  {
    if n == 0 then Some(src)
    else
      match ExecuteAll(cat, src, stmts, n - 1)
      case None => None
      case Some(mid) => if Legal(cat, mid, stmts[n - 1]) then Some(Execute(cat, mid, stmts[n - 1])) else None
  }

  /** One row message for each statement, each admissible. */
  predicate Sends(cat: Catalog, relations: map<nat, Relation>, stmts: seq<Statement>, ms: seq<Message>) {
    && |stmts| == |ms|
    && (forall i | 0 <= i < |ms| :: IsRowMessage(ms[i]))
    && (forall i | 0 <= i < |ms| :: Encodes(cat, relations, stmts[i], ms[i]))
  }

  lemma {:induction false} TransactionSquare(
      cat: Catalog, relations: map<nat, Relation>, keys: map<nat, seq<string>>, src: Source, stmts: seq<Statement>,
      ms: seq<Message>, n: nat, commit: Committed)
    requires AllDescribed(cat, relations, keys) && Sends(cat, relations, stmts, ms) && n <= |stmts|
    requires ExecuteAll(cat, src, stmts, n).Some? && AllChanges(relations, keys, ms, n).Some?
    ensures Square(cat, src, EventsFrom(commit, AllChanges(relations, keys, ms, n).value, 0),
            ExecuteAll(cat, src, stmts, n).value)
  {
    if n == 0 {
      assert EventsFrom(commit, [], 0) == [];
    } else {
      TransactionSquare(cat, relations, keys, src, stmts, ms, n - 1, commit);
      NextStatement(cat, relations, keys, src, ExecuteAll(cat, src, stmts, n - 1).value,
        AllChanges(relations, keys, ms, n - 1).value,
                    stmts[n - 1], ms[n - 1], commit);
    }
  }

  lemma {:induction false} NextStatement(
      cat: Catalog, relations: map<nat, Relation>, keys: map<nat, seq<string>>, src: Source, mid: Source,
        init: seq<Change>,
      stmt: Statement, m: Message, commit: Committed)
    requires AllDescribed(cat, relations, keys) && Legal(cat, mid, stmt)
    requires IsRowMessage(m) && Encodes(cat, relations, stmt, m) && Changes(relations, keys, m).Some?
    requires Square(cat, src, EventsFrom(commit, init, 0), mid)
    ensures Square(cat, src, EventsFrom(commit, init + Changes(relations, keys, m).value, 0), Execute(cat, mid, stmt))
  {
    StatementSquare(cat, relations, keys, mid, stmt, m, commit, |init|);
    SquareOfBoth(cat, src, commit, init, mid, Changes(relations, keys, m).value, Execute(cat, mid, stmt));
  }

  lemma {:induction false} SquareOfBoth(
      cat: Catalog, src: Source, commit: Committed, init: seq<Change>, mid: Source, more: seq<Change>, end: Source)
    requires Square(cat, src, EventsFrom(commit, init, 0), mid)
    requires Square(cat, mid, EventsFrom(commit, more, |init|), end)
    ensures Square(cat, src, EventsFrom(commit, init + more, 0), end)
  {
    EventsFromAppend(commit, init, more, 0);
    SquareAppend(cat, src, EventsFrom(commit, init, 0), mid, EventsFrom(commit, more, |init|), end);
  }

  lemma {:induction false} EventsFromStart(commit: Committed, changes: seq<Change>)
    ensures EventsFrom(commit, changes, 0) == EventsOf(commit, changes)
  {
  }
}
