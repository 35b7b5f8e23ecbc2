/**
  The replication messages the decoder reads, and what each means as a list of row
  changes (internal/source/decoder.go:120-250 and 419-483).
*/
module Pgoutput {
  import opened Wrappers
  import opened Cdc

  /** One column of a tuple: 'n', 't' with its text, 'u', 'b', or an unknown kind. */
  datatype Cell = NullCell | TextCell(text: string) | UnchangedCell | BinaryCell | OtherCell(kind: char)

  type Tuple = seq<Cell>

  datatype Column = Column(name: string, isKey: bool)

  datatype Relation = Relation(id: nat, namespace: string, name: string, columns: seq<Column>)

  datatype Message =
    | RelationMessage(relation: Relation)
    | Begin(xid: nat)
    | Insert(relationId: nat, tuple: Option<Tuple>)
    | Update(relationId: nat, oldType: char, oldTuple: Option<Tuple>, newTuple: Option<Tuple>)
    | Delete(relationId: nat, oldType: char, oldTuple: Option<Tuple>)
    | Truncate(relationIds: seq<nat>)
    | Commit(commitLsn: Lsn, endLsn: Lsn, time: int)
    | Other

  /** pendingChange: one row mutation, also the line format of the spool. */
  datatype Change = Change(
    schema: string, table: string, operation: Operation,
    key: Row, before: Row, after: Row, unchangedColumns: seq<string>)

  /** One cell of decodeTuple: it adds to the row, reports the column unchanged, or is refused. */
  function DecodeCell(row: Row, unchangedColumns: seq<string>, c: string, cell: Cell, keyOnly: bool, fill: Row)
    : Option<(Row, seq<string>)>
  {
    match cell
    case NullCell => Some((row[c := Null], unchangedColumns))
    case TextCell(text) => Some((row[c := Text(text)], unchangedColumns))
    case UnchangedCell =>
      if keyOnly then None
      else if c in fill && fill[c] != Null then Some((row[c := fill[c]], unchangedColumns))
      else Some((row, unchangedColumns + [c]))
    case _ => None
  }

  /** The first `n` columns of decodeTuple: the row so far and the columns reported unchanged. */
  function DecodeUpTo(rel: Relation, tuple: Tuple, keyOnly: bool, fill: Row, n: nat): Option<(Row, seq<string>)>
    requires n <= |rel.columns| == |tuple|
  {
    if n == 0 then Some((map[], []))
    else
      match DecodeUpTo(rel, tuple, keyOnly, fill, n - 1)
      case None => None
      case Some((row, unchangedColumns)) =>
        if keyOnly && !rel.columns[n - 1].isKey then Some((row, unchangedColumns))
        else DecodeCell(row, unchangedColumns, rel.columns[n - 1].name, tuple[n - 1], keyOnly, fill)
  }

  function DecodeTuple(rel: Relation, tuple: Option<Tuple>, keyOnly: bool, fill: Row): Option<(Row, seq<string>)> {
    if tuple.None? || |tuple.value| != |rel.columns| then None
    else DecodeUpTo(rel, tuple.value, keyOnly, fill, |rel.columns|)
  }

  /** The columns flagged as key in the relation message, in order. */
  function FlaggedUpTo(rel: Relation, n: nat): seq<string>
    requires n <= |rel.columns|
  {
    if n == 0 then []
    else if rel.columns[n - 1].isKey then FlaggedUpTo(rel, n - 1) + [rel.columns[n - 1].name]
    else FlaggedUpTo(rel, n - 1)
  }

  /** The identity columns: those of the catalog, or the flagged ones when it resolved none. */
  function KeyColumns(rel: Relation, resolved: seq<string>): seq<string> {
    if resolved == [] then FlaggedUpTo(rel, |rel.columns|) else resolved
  }

  function PrimaryKey(columns: seq<string>, row: Row): Option<Row> {
    if columns != [] && forall c | c in columns :: c in row && row[c] != Null
    then Some(Restrict(row, set c | c in columns))
    else None
  }

  /** The fill loop of a key change: every unchanged column needs a value in the old row. */
  function FillUpTo(after: Row, oldRow: Row, unchangedColumns: seq<string>, n: nat): Option<Row>
    requires n <= |unchangedColumns|
  {
    if n == 0 then Some(after)
    else
      match FillUpTo(after, oldRow, unchangedColumns, n - 1)
      case None => None
      case Some(row) =>
        var c := unchangedColumns[n - 1];
        if c in oldRow && oldRow[c] != Null then Some(row[c := oldRow[c]]) else None
  }

  function InsertChanges(rel: Relation, keyColumns: seq<string>, tuple: Option<Tuple>): Option<seq<Change>> {
    match DecodeTuple(rel, tuple, false, map[])
    case None => None
    case Some((after, unchangedColumns)) =>
      if unchangedColumns != [] then None
      else
        match PrimaryKey(keyColumns, after)
        case None => None
        case Some(key) => Some([Change(rel.namespace, rel.name, Cdc.Operation.Insert, key, map[], after, [])])
  }

  function DeleteChanges(rel: Relation, keyColumns: seq<string>, oldType: char,
      oldTuple: Option<Tuple>): Option<seq<Change>> {
    match DecodeTuple(rel, oldTuple, oldType == 'K', map[])
    case None => None
    case Some((before, _)) =>
      match PrimaryKey(keyColumns, before)
      case None => None
      case Some(key) => Some([Change(rel.namespace, rel.name, Cdc.Operation.Delete, key, before, map[], [])])
  }

  /** The old image of an update: nothing when it was not sent. */
  datatype OldImage = OldImage(row: Row, key: Option<Row>)

  function DecodeOld(rel: Relation, keyColumns: seq<string>, oldType: char, oldTuple: Option<Tuple>): Option<OldImage> {
    if oldTuple.None? then Some(OldImage(map[], None))
    else
      match DecodeTuple(rel, oldTuple, oldType == 'K', map[])
      case None => None
      case Some((row, _)) =>
        match PrimaryKey(keyColumns, row)
        case None => None
        case Some(key) => Some(OldImage(row, Some(key)))
  }

  function UpdateChanges(rel: Relation, keyColumns: seq<string>, oldType: char, oldTuple: Option<Tuple>,
      newTuple: Option<Tuple>)
    : Option<seq<Change>>
  {
    match DecodeOld(rel, keyColumns, oldType, oldTuple)
    case None => None
    case Some(image) =>
      match DecodeTuple(rel, newTuple, false, image.row)
      case None => None
      case Some((after, unchangedColumns)) =>
        match PrimaryKey(keyColumns, after)
        case None => None
        case Some(newKey) =>
          if image.key.Some? && image.key.value != newKey then
            match FillUpTo(after, image.row, unchangedColumns, |unchangedColumns|)
            case None => None
            case Some(full) =>
              Some([Change(rel.namespace, rel.name, Cdc.Operation.Delete, image.key.value, image.row, map[], []),
                    Change(rel.namespace, rel.name, Cdc.Operation.Insert, newKey, map[], full, [])])
          else
            var key := if image.key.Some? then image.key.value else newKey;
            Some([Change(rel.namespace, rel.name, Cdc.Operation.Update, key, image.row, after, unchangedColumns)])
  }

  function TruncateChange(rel: Relation): Change {
    Change(rel.namespace, rel.name, Cdc.Operation.Truncate, map[], map[], map[], [])
  }

  function TruncateUpTo(relations: map<nat, Relation>, ids: seq<nat>, n: nat): Option<seq<Change>>
    requires n <= |ids|
  {
    if n == 0 then Some([])
    else
      match TruncateUpTo(relations, ids, n - 1)
      case None => None
      case Some(changes) =>
        if ids[n - 1] in relations then Some(changes + [TruncateChange(relations[ids[n - 1]])]) else None
  }

  predicate IsRowMessage(m: Message) {
    m.Insert? || m.Update? || m.Delete? || m.Truncate?
  }

  function Resolved(keys: map<nat, seq<string>>, id: nat): seq<string> {
    if id in keys then keys[id] else []
  }

  /** The changes of one row message, or None when the decoder refuses it. */
  function Changes(relations: map<nat, Relation>, keys: map<nat, seq<string>>, m: Message): Option<seq<Change>>
    requires IsRowMessage(m)
  {
    match m
    case Truncate(ids) => TruncateUpTo(relations, ids, |ids|)
    case Insert(id, tuple) =>
      if id !in relations then None
      else InsertChanges(relations[id], KeyColumns(relations[id], Resolved(keys, id)), tuple)
    case Update(id, oldType, oldTuple, newTuple) =>
      if id !in relations then None
      else UpdateChanges(relations[id], KeyColumns(relations[id], Resolved(keys, id)), oldType, oldTuple, newTuple)
    case Delete(id, oldType, oldTuple) =>
      if id !in relations then None
      else DeleteChanges(relations[id], KeyColumns(relations[id], Resolved(keys, id)), oldType, oldTuple)
  }
}
