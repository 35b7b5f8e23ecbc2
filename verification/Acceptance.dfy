/**
  Which admissible messages the decoder accepts: all of them, except an update that hides a
  key column, or that changes the key while hiding any column.
*/
module Acceptance {
  import opened Wrappers
  import opened Cdc
  import opened Destination
  import opened Convergence
  import opened Pgoutput
  import opened Translation

  /** Column `i` of the new tuple is 'u' and no old image was sent that could tell its value. */
  predicate Hides(rel: Relation, oldType: char, oldTuple: Option<Tuple>, tuple: Tuple, i: nat)
    requires i < |rel.columns| == |tuple|
  {
    tuple[i] == UnchangedCell && (oldTuple.None? || (oldType == 'K' && !rel.columns[i].isKey))
  }

  predicate HidesKey(rel: Relation, keyColumns: seq<string>, oldType: char, oldTuple: Option<Tuple>, tuple: Tuple)
    requires |rel.columns| == |tuple|
  {
    exists i: nat | i < |tuple| :: rel.columns[i].name in keyColumns && Hides(rel, oldType, oldTuple, tuple, i)
  }

  predicate HidesAny(rel: Relation, oldType: char, oldTuple: Option<Tuple>, tuple: Tuple)
    requires |rel.columns| == |tuple|
  {
    exists i: nat | i < |tuple| :: Hides(rel, oldType, oldTuple, tuple, i)
  }

  /** The relation message flags every identity column as key. */
  predicate KeyFlagged(rel: Relation, keyColumns: seq<string>) {
    forall c | c in keyColumns :: exists i: nat | i < |rel.columns| :: rel.columns[i].name == c && rel.columns[i].isKey
  }

  predicate KeyWhole(keyColumns: seq<string>, row: Row) {
    forall c | c in keyColumns :: c in row && row[c] != Null
  }

  // ---- any tuple ------------------------------------------------------------------------------------

  /** The cell of column `i` is read: all are, or in a key-only image the flagged ones. */
  predicate Read(rel: Relation, keyOnly: bool, i: nat)
    requires i < |rel.columns|
  {
    !keyOnly || rel.columns[i].isKey
  }

  /** A tuple is refused exactly when it has the wrong length or shows a cell the decoder cannot read. */
  lemma {:induction false} DecodesExactlyWhen(rel: Relation, tuple: Tuple, keyOnly: bool, fill: Row, n: nat)
    requires n <= |rel.columns| == |tuple|
    ensures DecodeUpTo(rel, tuple, keyOnly, fill, n).Some? <==>
            forall i | 0 <= i < n && Read(rel, keyOnly, i) ::
              tuple[i].NullCell? || tuple[i].TextCell? || (tuple[i].UnchangedCell? && !keyOnly)
  {
    if n > 0 {
      DecodesExactlyWhen(rel, tuple, keyOnly, fill, n - 1);
    }
  }

  /**
    What a decoded tuple says of column `i`: NULL, its text, the value the old image has for
    an unchanged one, or that the column is unchanged.
  */
  predicate Says(rel: Relation, tuple: Tuple, keyOnly: bool, fill: Row, decoded: (Row, seq<string>), i: nat)
    requires i < |rel.columns| == |tuple|
  {
    var c := rel.columns[i].name;
    if !Read(rel, keyOnly, i) then c !in decoded.0 && c !in decoded.1
    else
      match tuple[i]
      case NullCell => c in decoded.0 && decoded.0[c] == Null && c !in decoded.1
      case TextCell(text) => c in decoded.0 && decoded.0[c] == Text(text) && c !in decoded.1
      case UnchangedCell =>
        if c in fill && fill[c].Text? then c in decoded.0 && decoded.0[c] == fill[c] && c !in decoded.1
        else c !in decoded.0 && c in decoded.1
      case _ => false
  }

  lemma {:induction false} DecodedNames(rel: Relation, tuple: Tuple, keyOnly: bool, fill: Row, n: nat)
    requires n <= |rel.columns| == |tuple| && DecodeUpTo(rel, tuple, keyOnly, fill, n).Some?
    ensures var decoded := DecodeUpTo(rel, tuple, keyOnly, fill, n).value;
            forall c | c in decoded.0 || c in decoded.1 :: c in Translation.Names(rel, n)
  {
    if n > 0 {
      DecodedNames(rel, tuple, keyOnly, fill, n - 1);
      NamesStep(rel, n);
    }
  }

  lemma {:induction false} DecodedSays(rel: Relation, tuple: Tuple, keyOnly: bool, fill: Row, n: nat, i: nat)
    requires i < n <= |rel.columns| == |tuple| && DecodeUpTo(rel, tuple, keyOnly, fill, n).Some?
    requires forall i, j | 0 <= i < j < |rel.columns| :: rel.columns[i].name != rel.columns[j].name
    ensures Says(rel, tuple, keyOnly, fill, DecodeUpTo(rel, tuple, keyOnly, fill, n).value, i)
  {
    DecodedNames(rel, tuple, keyOnly, fill, n - 1);
    if i < n - 1 {
      DecodedSays(rel, tuple, keyOnly, fill, n - 1, i);
      assert rel.columns[i].name != rel.columns[n - 1].name;
    } else {
      assert rel.columns[i].name !in Translation.Names(rel, n - 1);
    }
  }

  /** An insert has to show every column, and its one change shows them all. */
  lemma {:induction false} InsertShowsAll(rel: Relation, keyColumns: seq<string>, tuple: Option<Tuple>)
    requires forall i, j | 0 <= i < j < |rel.columns| :: rel.columns[i].name != rel.columns[j].name
    requires InsertChanges(rel, keyColumns, tuple).Some?
    ensures tuple.Some? && |tuple.value| == |rel.columns|
    ensures forall i | 0 <= i < |rel.columns| :: tuple.value[i].NullCell? || tuple.value[i].TextCell?
    ensures var changes := InsertChanges(rel, keyColumns, tuple).value;
            && |changes| == 1 && changes[0].operation.Insert? && changes[0].before == map[]
            && changes[0].schema == rel.namespace && changes[0].table == rel.name && changes[0].unchangedColumns == []
            && forall i | 0 <= i < |rel.columns| ::
                 var c := rel.columns[i].name;
                 c in changes[0].after && changes[0].after[c] ==
                 if tuple.value[i].NullCell? then Null else Text(tuple.value[i].text)
  {
    var n, changes := |rel.columns|, InsertChanges(rel, keyColumns, tuple).value;
    var decoded := DecodeUpTo(rel, tuple.value, false, map[], n).value;
    assert decoded == (changes[0].after, []);
    DecodesExactlyWhen(rel, tuple.value, false, map[], n);
    forall i | 0 <= i < n
      ensures tuple.value[i].NullCell? || tuple.value[i].TextCell?
      ensures rel.columns[i].name in changes[0].after
      ensures changes[0].after[rel.columns[i].name] ==
              if tuple.value[i].NullCell? then Null else Text(tuple.value[i].text)
    {
      DecodedSays(rel, tuple.value, false, map[], n, i);
      assert Read(rel, false, i);
    }
  }

  /** The before image of a delete or an update is the old image that was sent, or nothing. */
  lemma {:induction false} BeforeIsOldImage(rel: Relation, keyColumns: seq<string>, oldType: char,
      oldTuple: Option<Tuple>, newTuple: Option<Tuple>)
    ensures DeleteChanges(rel, keyColumns, oldType, oldTuple).Some? ==>
              var changes := DeleteChanges(rel, keyColumns, oldType, oldTuple).value;
              && DecodeTuple(rel, oldTuple, oldType == 'K', map[]).Some?
              && |changes| == 1 && changes[0].operation.Delete? && changes[0].after == map[]
              && changes[0].before == DecodeTuple(rel, oldTuple, oldType == 'K', map[]).value.0
    ensures UpdateChanges(rel, keyColumns, oldType, oldTuple, newTuple).Some? ==>
              var changes := UpdateChanges(rel, keyColumns, oldType, oldTuple, newTuple).value;
              && (oldTuple.Some? ==>
                   && DecodeTuple(rel, oldTuple, oldType == 'K', map[]).Some?
                   && changes[0].before == DecodeTuple(rel, oldTuple, oldType == 'K', map[]).value.0)
              && (oldTuple.None? ==> |changes| == 1 && changes[0].before == map[])
              && (|changes| == 1 ==> changes[0].operation.Update?)
              && (|changes| > 1 ==>
                   && |changes| == 2 && changes[0].operation.Delete? && changes[0].after == map[]
                   && changes[1].operation.Insert? && changes[1].before == map[]
                   && changes[0].key != changes[1].key)
  {
  }

  // ---- admissible tuples ------------------------------------------------------------------------------

  lemma {:induction false} KeyCellsAreDecoded(rel: Relation, tuple: Tuple, row: Row, n: nat, i: nat)
    requires i < n <= |rel.columns| && rel.columns[i].isKey && ShowsKey(rel, tuple, row)
    ensures DecodeUpTo(rel, tuple, true, map[], n).Some?
    ensures rel.columns[i].name in DecodeUpTo(rel, tuple, true, map[], n).value.0
  {
    DecodeKeyTells(rel, tuple, row, n);
    if i < n - 1 {
      KeyCellsAreDecoded(rel, tuple, row, n - 1, i);
    }
  }

  /** The old image tells the true value of every flagged column, and of every column when it is full. */
  lemma {:induction false} OldImageTells(
      cat: Catalog, rel: Relation, keyColumns: seq<string>, oldType: char, tuple: Tuple, before: Row, i: nat)
    requires Describes(cat, rel, keyColumns) && FullRow(cat, rel, before) && ShowsOld(rel, oldType, tuple, before)
    requires i < |rel.columns| && (oldType != 'K' || rel.columns[i].isKey)
    ensures DecodeTuple(rel, Some(tuple), oldType == 'K', map[]).Some?
    ensures var image, c := DecodeTuple(rel, Some(tuple), oldType == 'K', map[]).value.0, rel.columns[i].name;
            c in image && c in before && image[c] == before[c]
  {
    OldTells(cat, rel, keyColumns, oldType, tuple, before);
    if oldType == 'K' {
      KeyCellsAreDecoded(rel, tuple, before, |rel.columns|, i);
    } else {
      DecodeWhole(cat, rel, keyColumns, tuple, before);
      assert rel.columns[i].name in Names(rel, |rel.columns|);
    }
  }

  lemma {:induction false} OldKeyIsFound(
      cat: Catalog, rel: Relation, keyColumns: seq<string>, oldType: char, tuple: Tuple, before: Row)
    requires Describes(cat, rel, keyColumns) && FullRow(cat, rel, before) && ShowsOld(rel, oldType, tuple, before)
    requires KeyFlagged(rel, keyColumns) && KeyWhole(keyColumns, before)
    ensures DecodeTuple(rel, Some(tuple), oldType == 'K', map[]).Some?
    ensures PrimaryKey(keyColumns, DecodeTuple(rel, Some(tuple), oldType == 'K', map[]).value.0) ==
            Some(KeyOf(cat, rel, before))
  {
    OldTells(cat, rel, keyColumns, oldType, tuple, before);
    var image := DecodeTuple(rel, Some(tuple), oldType == 'K', map[]).value.0;
    forall c | c in keyColumns ensures c in image && image[c] != Null {
      var i: nat :| i < |rel.columns| && rel.columns[i].name == c && rel.columns[i].isKey;
      OldImageTells(cat, rel, keyColumns, oldType, tuple, before, i);
    }
    KeyIsKey(cat, rel, keyColumns, image, before);
  }

  lemma {:induction false} InsertAccepted(cat: Catalog, rel: Relation, keyColumns: seq<string>, row: Row, tuple: Tuple)
    requires Describes(cat, rel, keyColumns) && FullRow(cat, rel, row) && KeyWhole(keyColumns, row)
    requires ShowsRow(rel, tuple, row)
    ensures InsertChanges(rel, keyColumns, Some(tuple)).Some?
  {
    DecodeWhole(cat, rel, keyColumns, tuple, row);
  }

  lemma {:induction false} DeleteAccepted(
      cat: Catalog, rel: Relation, keyColumns: seq<string>, before: Row, oldType: char, tuple: Tuple)
    requires Describes(cat, rel, keyColumns) && FullRow(cat, rel, before) && ShowsOld(rel, oldType, tuple, before)
    requires KeyFlagged(rel, keyColumns) && KeyWhole(keyColumns, before)
    ensures DeleteChanges(rel, keyColumns, oldType, Some(tuple)).Some?
  {
    OldKeyIsFound(cat, rel, keyColumns, oldType, tuple, before);
  }

  // ---- which columns of a new tuple stay unknown ------------------------------------------------

  /** The columns reported unchanged among the first `n` are the 'u' columns the fill says nothing about. */
  lemma {:induction false} ReportedUnchanged(rel: Relation, tuple: Tuple, fill: Row, before: Row, row: Row, n: nat)
    requires n <= |rel.columns| && ShowsChange(rel, tuple, before, row)
    requires forall i, j | 0 <= i < j < |rel.columns| :: rel.columns[i].name != rel.columns[j].name
    requires forall c | c in fill :: c in before && fill[c] == before[c]
    ensures DecodeUpTo(rel, tuple, false, fill, n).Some?
    ensures forall i | 0 <= i < n ::
              rel.columns[i].name in DecodeUpTo(rel, tuple, false, fill, n).value.1 <==>
              tuple[i] == UnchangedCell && rel.columns[i].name !in fill
  {
    DecodeTells(rel, tuple, fill, before, row, n);
    if n > 0 {
      ReportedUnchanged(rel, tuple, fill, before, row, n - 1);
      DecodeTells(rel, tuple, fill, before, row, n - 1);
      assert ShowsCellChange(tuple[n - 1], rel.columns[n - 1].name, before, row);
      assert rel.columns[n - 1].name !in Names(rel, n - 1);
    }
  }

  lemma {:induction false} OnlyKeyCells(rel: Relation, tuple: Tuple, n: nat, i: nat)
    requires n <= |rel.columns| == |tuple| && i < |rel.columns| && !rel.columns[i].isKey
    requires forall i, j | 0 <= i < j < |rel.columns| :: rel.columns[i].name != rel.columns[j].name
    requires DecodeUpTo(rel, tuple, true, map[], n).Some?
    ensures rel.columns[i].name !in DecodeUpTo(rel, tuple, true, map[], n).value.0
  {
    if n > 0 {
      OnlyKeyCells(rel, tuple, n - 1, i);
    }
  }

  /** Of the 'u' columns, the old image leaves open exactly the hidden ones. */
  lemma {:induction false} HiddenIsOpen(
      cat: Catalog, rel: Relation, keyColumns: seq<string>, before: Row, oldType: char, oldTuple: Option<Tuple>,
      tuple: Tuple,
      fill: Row, i: nat)
    requires Describes(cat, rel, keyColumns) && FullRow(cat, rel, before)
    requires oldTuple.Some? ==> ShowsOld(rel, oldType, oldTuple.value, before)
    requires oldTuple.Some? ==>
               var decoded := DecodeTuple(rel, oldTuple, oldType == 'K', map[]);
               decoded.Some? && fill == decoded.value.0
    requires oldTuple.None? ==> fill == map[]
    requires i < |rel.columns| == |tuple| && tuple[i] == UnchangedCell
    ensures rel.columns[i].name !in fill <==> Hides(rel, oldType, oldTuple, tuple, i)
  {
    if oldTuple.Some? {
      if oldType == 'K' && !rel.columns[i].isKey {
        OnlyKeyCells(rel, oldTuple.value, |rel.columns|, i);
      } else {
        OldImageTells(cat, rel, keyColumns, oldType, oldTuple.value, before, i);
      }
    }
  }

  /** The decoded new image lacks a key column just when one is hidden, and leaves a column open just when any is. */
  lemma {:induction false} WhatStaysOpen(
      cat: Catalog, rel: Relation, keyColumns: seq<string>, before: Row, row: Row,
      oldType: char, oldTuple: Option<Tuple>, tuple: Tuple, fill: Row)
    requires Describes(cat, rel, keyColumns) && FullRow(cat, rel, before) && FullRow(cat, rel, row)
    requires ShowsChange(rel, tuple, before, row) && KeyWhole(keyColumns, row)
    requires oldTuple.Some? ==> ShowsOld(rel, oldType, oldTuple.value, before)
    requires oldTuple.Some? ==>
               var decoded := DecodeTuple(rel, oldTuple, oldType == 'K', map[]);
               decoded.Some? && fill == decoded.value.0
    requires oldTuple.None? ==> fill == map[]
    requires forall c | c in fill :: c in before && fill[c] == before[c]
    ensures DecodeTuple(rel, Some(tuple), false, fill).Some?
    ensures var (after, open) := DecodeTuple(rel, Some(tuple), false, fill).value;
            && (PrimaryKey(keyColumns, after).Some? <==> !HidesKey(rel, keyColumns, oldType, oldTuple, tuple))
            && (open == [] <==> !HidesAny(rel, oldType, oldTuple, tuple))
  {
    NewTells(cat, rel, keyColumns, tuple, fill, before, row);
    ReportedUnchanged(rel, tuple, fill, before, row, |rel.columns|);
    var (after, open) := DecodeTuple(rel, Some(tuple), false, fill).value;
    forall i: nat | i < |tuple| ensures rel.columns[i].name in open <==> Hides(rel, oldType, oldTuple, tuple, i) {
      if tuple[i] == UnchangedCell {
        HiddenIsOpen(cat, rel, keyColumns, before, oldType, oldTuple, tuple, fill, i);
      }
    }
    OpenColumns(cat, rel, keyColumns, after, open, fill, before, row);
    Inhabited(open);
  }

  /** Every open column is a column of the relation; a key column is decoded unless it is open. */
  lemma {:induction false} OpenColumns(
      cat: Catalog, rel: Relation, keyColumns: seq<string>, after: Row, open: seq<string>, fill: Row, before: Row,
      row: Row)
    requires Describes(cat, rel, keyColumns) && KeyWhole(keyColumns, row)
    requires Tells((after, open), cat[TableOf(rel)].columns, fill, before, row)
    ensures forall c | c in open :: exists i: nat | i < |rel.columns| :: rel.columns[i].name == c
    ensures PrimaryKey(keyColumns, after).Some? <==> forall c | c in keyColumns :: c !in open
  {
    forall c | c in open ensures exists i: nat | i < |rel.columns| :: rel.columns[i].name == c {
      assert c in Names(rel, |rel.columns|);
    }
    forall c | c in keyColumns ensures c in after <==> c !in open {
      assert c in cat[TableOf(rel)].key;
    }
  }

  /** When the parts decode, the update is accepted unless its new key is missing or the fill loop refuses. */
  lemma {:induction false} UpdateParts(
      rel: Relation, keyColumns: seq<string>, oldType: char, oldTuple: Option<Tuple>, newTuple: Option<Tuple>,
      image: OldImage)
    requires DecodeOld(rel, keyColumns, oldType, oldTuple) == Some(image)
    requires DecodeTuple(rel, newTuple, false, image.row).Some?
    requires forall c | c in DecodeTuple(rel, newTuple, false, image.row).value.1 ::
             c !in image.row || image.row[c] == Null
    ensures var (after, open) := DecodeTuple(rel, newTuple, false, image.row).value;
            UpdateChanges(rel, keyColumns, oldType, oldTuple, newTuple).Some? <==>
            && PrimaryKey(keyColumns, after).Some?
            && (image.key.None? || image.key == PrimaryKey(keyColumns, after) || open == [])
  {
    var (after, open) := DecodeTuple(rel, newTuple, false, image.row).value;
    FillOnlyRefuses(after, image.row, open);
  }

  lemma {:induction false} OldImageIs(
      cat: Catalog, rel: Relation, keyColumns: seq<string>, oldType: char, oldTuple: Option<Tuple>, before: Row)
    returns (image: OldImage)
    requires Describes(cat, rel, keyColumns) && FullRow(cat, rel, before)
    requires KeyFlagged(rel, keyColumns) && KeyWhole(keyColumns, before)
    requires oldTuple.Some? ==> ShowsOld(rel, oldType, oldTuple.value, before)
    ensures DecodeOld(rel, keyColumns, oldType, oldTuple) == Some(image)
    ensures forall c | c in image.row :: c in before && image.row[c] == before[c]
    ensures image.key == if oldTuple.Some? then Some(KeyOf(cat, rel, before)) else None
    ensures oldTuple.Some? ==>
              var decoded := DecodeTuple(rel, oldTuple, oldType == 'K', map[]);
              decoded.Some? && image.row == decoded.value.0
    ensures oldTuple.None? ==> image.row == map[]
  {
    if oldTuple.Some? {
      OldKeyIsFound(cat, rel, keyColumns, oldType, oldTuple.value, before);
      OldTells(cat, rel, keyColumns, oldType, oldTuple.value, before);
    }
    image := DecodeOld(rel, keyColumns, oldType, oldTuple).value;
  }

  /**
    An admissible update is accepted if and only if no key column is hidden and, when the
    key changes, no column is hidden at all.
  */
  lemma {:induction false} UpdateAcceptedExactlyWhen(
      cat: Catalog, rel: Relation, keyColumns: seq<string>, before: Row, row: Row,
      oldType: char, oldTuple: Option<Tuple>, tuple: Tuple)
    requires Describes(cat, rel, keyColumns) && FullRow(cat, rel, before) && FullRow(cat, rel, row)
    requires KeyFlagged(rel, keyColumns) && KeyWhole(keyColumns, before) && KeyWhole(keyColumns, row)
    requires ShowsChange(rel, tuple, before, row)
    requires oldTuple.Some? ==> ShowsOld(rel, oldType, oldTuple.value, before)
    requires oldTuple.None? ==> KeyOf(cat, rel, before) == KeyOf(cat, rel, row)
    ensures UpdateChanges(rel, keyColumns, oldType, oldTuple, Some(tuple)).Some? <==>
            && !HidesKey(rel, keyColumns, oldType, oldTuple, tuple)
            && (KeyOf(cat, rel, before) == KeyOf(cat, rel, row) || !HidesAny(rel, oldType, oldTuple, tuple))
  {
    var image := OldImageIs(cat, rel, keyColumns, oldType, oldTuple, before);
    WhatStaysOpen(cat, rel, keyColumns, before, row, oldType, oldTuple, tuple, image.row);
    NewTells(cat, rel, keyColumns, tuple, image.row, before, row);
    UpdateParts(rel, keyColumns, oldType, oldTuple, Some(tuple), image);
    var after := DecodeTuple(rel, Some(tuple), false, image.row).value.0;
    if PrimaryKey(keyColumns, after).Some? {
      KeyIsKey(cat, rel, keyColumns, after, row);
    }
  }

  /** The relation of an insert, update or delete is described, flagged, and its rows have whole keys. */
  predicate RowsKeyed(relations: map<nat, Relation>, keys: map<nat, seq<string>>, id: nat, rows: set<Row>) {
    id in relations ==>
      && KeyFlagged(relations[id], KeyColumns(relations[id], Resolved(keys, id)))
      && forall row | row in rows :: KeyWhole(KeyColumns(relations[id], Resolved(keys, id)), row)
  }

  predicate Keyed(relations: map<nat, Relation>, keys: map<nat, seq<string>>, stmt: Statement, m: Message) {
    match stmt
    case InsertOne(_, row) => m.Insert? ==> RowsKeyed(relations, keys, m.relationId, {row})
    case UpdateOne(_, before, row) => m.Update? ==> RowsKeyed(relations, keys, m.relationId, {before, row})
    case DeleteOne(_, before) => m.Delete? ==> RowsKeyed(relations, keys, m.relationId, {before})
    case TruncateTables(_) => true
  }

  /** The message hides what the decoder would need. */
  predicate Withholds(cat: Catalog, relations: map<nat, Relation>, keys: map<nat, seq<string>>, stmt: Statement,
      m: Message)
    requires Encodes(cat, relations, stmt, m)
    requires stmt.UpdateOne? ==> TableOf(stmt.rel) in cat
  {
    stmt.UpdateOne? &&
    var keyColumns := KeyColumns(stmt.rel, Resolved(keys, m.relationId));
    || HidesKey(stmt.rel, keyColumns, m.oldType, m.oldTuple, m.newTuple.value)
    || (KeyOf(cat, stmt.rel, stmt.before) != KeyOf(cat, stmt.rel, stmt.row)
        && HidesAny(stmt.rel, m.oldType, m.oldTuple, m.newTuple.value))
  }

  /** The decoder accepts an admissible message if and only if it withholds nothing the decoder needs. */
  lemma {:induction false} AcceptedExactlyWhen(
      cat: Catalog, relations: map<nat, Relation>, keys: map<nat, seq<string>>, src: Source, stmt: Statement,
      m: Message)
    requires AllDescribed(cat, relations, keys) && Legal(cat, src, stmt)
    requires IsRowMessage(m) && Encodes(cat, relations, stmt, m) && Keyed(relations, keys, stmt, m)
    ensures Changes(relations, keys, m).Some? <==> !Withholds(cat, relations, keys, stmt, m)
  {
    match stmt
    case InsertOne(rel, row) =>
      InsertAccepted(cat, rel, KeyColumns(rel, Resolved(keys, m.relationId)), row, m.tuple.value);
    case DeleteOne(rel, before) =>
      DeleteAccepted(cat, rel, KeyColumns(rel, Resolved(keys, m.relationId)), before, m.oldType, m.oldTuple.value);
    case UpdateOne(rel, before, row) =>
      UpdateAcceptedExactlyWhen(cat, rel, KeyColumns(rel, Resolved(keys, m.relationId)), before, row,
                                m.oldType, m.oldTuple, m.newTuple.value);
    case TruncateTables(rels) =>
      TruncateDecodes(relations, m.relationIds, rels, |rels|);
  }
}
