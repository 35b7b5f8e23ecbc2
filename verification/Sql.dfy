/**
  The SQL text of the four builders as a statement tree with numbered placeholders,
  and an interpreter for it (internal/destination/applier.go:753-939).
  `$n` is `Param(n)`; parameters are numbered from 1.
*/
module Sql {
  import opened Wrappers
  import opened Cdc
  import opened Destination

  /** A value: a column text, a pg_lsn, a timestamp, or the server's now(). */
  datatype Arg = Cell(value: Value) | LsnArg(lsn: Lsn) | TimeArg(time: int) | Clock

  datatype Scalar = Param(n: nat) | Excluded(column: string) | Now

  /** `column = scalar` in a SET list, or one column of an INSERT with its value. */
  datatype Assignment = Assignment(column: string, scalar: Scalar)

  /** `column = $n` in a WHERE clause. */
  datatype Comparison = Comparison(column: string, n: nat)

  /** `source_lsn IS NULL OR source_lsn <= limit` */
  datatype OnConflict = OnConflict(target: seq<string>, sets: seq<Assignment>, limit: Scalar)

  datatype Statement =
    | InsertInto(table: TableName, values: seq<Assignment>, onConflict: Option<OnConflict>)
    | UpdateSet(table: TableName, sets: seq<Assignment>, where: seq<Comparison>, limit: Scalar)
    | DeleteFrom(table: TableName, where: seq<Comparison>, limit: Scalar)

  /** The columns a list of assignments gives a value to. */
  datatype Image = Image(cols: Row, lsn: Option<Lsn>, time: Option<int>)

  const EMPTY := Image(map[], None, None)

  /** The value of a scalar; None is a parameter that does not exist or a type clash. */
  function Eval(s: Scalar, args: seq<Arg>, excluded: Image): Option<Arg> {
    match s
    case Param(n) => if 1 <= n <= |args| then Some(args[n - 1]) else None
    case Now => Some(Clock)
    case Excluded(c) =>
      if c == SOURCE_LSN then (if excluded.lsn.Some? then Some(LsnArg(excluded.lsn.value)) else None)
      else if c == SOURCE_COMMIT_TIME then (if excluded.time.Some? then Some(TimeArg(excluded.time.value)) else None)
      else if c in excluded.cols then Some(Cell(excluded.cols[c])) else None
  }

  function Assign(image: Image, c: string, v: Arg): Option<Image> {
    if c == SOURCE_LSN then (if v.LsnArg? && image.lsn.None? then Some(image.(lsn := Some(v.lsn))) else None)
    else if c == SOURCE_COMMIT_TIME then
      (if v.TimeArg? && image.time.None? then Some(image.(time := Some(v.time))) else None)
    else if c == REPLICATED_AT then (if v.Clock? then Some(image) else None)
    else if v.Cell? && c !in image.cols then Some(image.(cols := image.cols[c := v.value]))
    else None
  }

  /** Evaluates an assignment list; naming a column twice is an error. */
  function EvalAll(sets: seq<Assignment>, args: seq<Arg>, excluded: Image): Option<Image> {
    if sets == [] then Some(EMPTY)
    else
      var last := sets[|sets| - 1];
      match EvalAll(sets[..|sets| - 1], args, excluded)
      case None => None
      case Some(image) =>
        match Eval(last.scalar, args, excluded)
        case None => None
        case Some(v) => Assign(image, last.column, v)
  }

  /** The conjunction of a WHERE clause as a partial row; a column compared twice is an error. */
  function EvalWhere(where: seq<Comparison>, args: seq<Arg>): Option<Row> {
    if where == [] then Some(map[])
    else
      var last := where[|where| - 1];
      match EvalWhere(where[..|where| - 1], args)
      case None => None
      case Some(row) =>
        if 1 <= last.n <= |args| && args[last.n - 1].Cell? && last.column !in row
        then Some(row[last.column := args[last.n - 1].value])
        else None
  }

  function EvalLsn(s: Scalar, args: seq<Arg>, excluded: Image): Option<Lsn> {
    match Eval(s, args, excluded)
    case Some(LsnArg(l)) => Some(l)
    case _ => None
  }

  /** Every statement of the pipeline writes the commit time; one that does not is refused. */
  function StoredOf(cols: Row, image: Image): Option<Stored> {
    if image.time.None? then None else Some(Stored(cols, image.lsn, image.time.value))
  }

  function ExecInsert(def: TableDef, t: Table, values: seq<Assignment>, args: seq<Arg>): Result<Table, Failure> {
    match EvalAll(values, args, EMPTY)
    case None => Err(POISON)
    case Some(image) =>
      var cand := Candidate(def, image.cols);
      var k := Restrict(cand, def.key);
      if !(image.cols.Keys <= def.columns) || !CastOk(def, image.cols) || !NotNullOk(def, cand) || k in t then
        Err(POISON)
      else match StoredOf(cand, image) case None => Err(POISON) case Some(s) => Ok(t[k := s])
  }

  function ExecUpsert(def: TableDef, t: Table, values: seq<Assignment>, conflict: OnConflict, args: seq<Arg>)
    : Result<Table, Failure>
  {
    match EvalAll(values, args, EMPTY)
    case None => Err(POISON)
    case Some(image) =>
      var cand := Candidate(def, image.cols);
      var k := Restrict(cand, def.key);
      var excluded := image.(cols := cand);
      if !(image.cols.Keys <= def.columns) || !CastOk(def, image.cols) || !NotNullOk(def, cand) then Err(POISON)
      else if (set c | c in conflict.target) != def.key then Err(POISON)
      else if k !in t then
        match StoredOf(cand, image) case None => Err(POISON) case Some(s) => Ok(t[k := s])
      else
        match EvalLsn(conflict.limit, args, excluded)
        case None => Err(POISON)
        case Some(limit) =>
          if !GuardOk(t[k], limit) then Ok(t)
          else
            match EvalAll(conflict.sets, args, excluded)
            case None => Err(POISON)
            case Some(set_) =>
              match StoredOf(t[k].cols + set_.cols, set_)
              case None => Err(POISON)
              case Some(s) => Ok(t[k := s])
  }

  function ExecUpdate(def: TableDef, t: Table, sets: seq<Assignment>, where: seq<Comparison>, limit: Scalar,
      args: seq<Arg>)
    : Result<Table, Failure>
  {
    match EvalAll(sets, args, EMPTY)
    case None => Err(POISON)
    case Some(image) =>
      match EvalWhere(where, args)
      case None => Err(POISON)
      case Some(key) =>
        match EvalLsn(limit, args, EMPTY)
        case None => Err(POISON)
        case Some(l) =>
          if image.time.None? then Err(POISON)
          else UpdateRows(def, t, image.cols, key, l, image.lsn, image.time.value)
  }

  function ExecDelete(def: TableDef, t: Table, where: seq<Comparison>, limit: Scalar, args: seq<Arg>)
    : Result<Table, Failure>
  {
    match EvalWhere(where, args)
    case None => Err(POISON)
    case Some(key) =>
      match EvalLsn(limit, args, EMPTY)
      case None => Err(POISON)
      case Some(l) => DeleteRows(def, t, key, l)
  }

  /** Runs a statement on a database; a table the catalog does not know is an error. */
  function Exec(cat: Catalog, db: Db, stmt: Statement, args: seq<Arg>): Result<Db, Failure> {
    if stmt.table !in cat then Err(POISON)
    else
      var def, t := cat[stmt.table], Rows(db, stmt.table);
      var r := match stmt
               case InsertInto(_, values, None) => ExecInsert(def, t, values, args)
               case InsertInto(_, values, Some(conflict)) => ExecUpsert(def, t, values, conflict, args)
               case UpdateSet(_, sets, where, limit) => ExecUpdate(def, t, sets, where, limit, args)
               case DeleteFrom(_, where, limit) => ExecDelete(def, t, where, limit, args);
      match r case Err(f) => Err(f) case Ok(t') => Ok(WithRows(db, stmt.table, t'))
  }

  // ---- the statements the builders make ---------------------------------------

  predicate Distinct(columns: seq<string>) {
    forall i, j | 0 <= i < j < |columns| :: columns[i] != columns[j]
  }

  predicate AllOf(columns: seq<string>, row: Row) {
    forall i | 0 <= i < |columns| :: columns[i] in row
  }

  /** `columns` names every column of `row` once, in some order. */
  predicate Lists(columns: seq<string>, row: Row) {
    Distinct(columns) && AllOf(columns, row) && forall c | c in row :: c in columns
  }

  /** `args[from..]` starts with the values of `columns`, in the order of `columns`. */
  predicate Bound(columns: seq<string>, row: Row, args: seq<Arg>, from: nat) {
    && from + |columns| <= |args|
    && forall i | 0 <= i < |columns| :: columns[i] in row && args[from + i] == Cell(row[columns[i]])
  }

  /** `c1 = $1, c2 = $2, ...` for the first `n` columns. */
  function ParamSets(columns: seq<string>, n: nat): seq<Assignment>
    requires n <= |columns|
  {
    if n == 0 then [] else ParamSets(columns, n - 1) + [Assignment(columns[n - 1], Param(n))]
  }

  function MetaSets(n: nat): seq<Assignment> {
    [Assignment(SOURCE_LSN, Param(n + 1)), Assignment(SOURCE_COMMIT_TIME, Param(n + 2)), Assignment(REPLICATED_AT, Now)]
  }

  /** `c1 = EXCLUDED.c1, ...` for the first `n` columns. */
  function ExcludedSets(columns: seq<string>, n: nat): seq<Assignment>
    requires n <= |columns|
  {
    if n == 0 then [] else ExcludedSets(columns, n - 1) + [Assignment(columns[n - 1], Excluded(columns[n - 1]))]
  }

  const EXCLUDED_META: seq<Assignment> :=
    [Assignment(SOURCE_LSN, Excluded(SOURCE_LSN)), Assignment(SOURCE_COMMIT_TIME, Excluded(SOURCE_COMMIT_TIME)),
     Assignment(REPLICATED_AT, Now)]

  /** `c1 = $first AND c2 = $first+1 ...` for the first `n` columns. */
  function KeyWhere(columns: seq<string>, first: nat, n: nat): seq<Comparison>
    requires n <= |columns|
  {
    if n == 0 then [] else KeyWhere(columns, first, n - 1) + [Comparison(columns[n - 1], first + n - 1)]
  }

  function InsertStatement(table: TableName, columns: seq<string>): Statement {
    InsertInto(table, ParamSets(columns, |columns|) + MetaSets(|columns|), None)
  }

  function UpsertStatement(table: TableName, columns: seq<string>, keyColumns: seq<string>): Statement {
    InsertInto(table, ParamSets(columns, |columns|) + MetaSets(|columns|),
           Some(OnConflict(keyColumns, ExcludedSets(columns, |columns|) + EXCLUDED_META, Excluded(SOURCE_LSN))))
  }

  function UpdateStatement(table: TableName, columns: seq<string>, keyColumns: seq<string>): Statement {
    UpdateSet(table, ParamSets(columns, |columns|) + MetaSets(|columns|),
      KeyWhere(keyColumns, |columns| + 3, |keyColumns|), Param(|columns| + 1))
  }

  function DeleteStatement(table: TableName, keyColumns: seq<string>): Statement {
    DeleteFrom(table, KeyWhere(keyColumns, 1, |keyColumns|), Param(|keyColumns| + 1))
  }

  // ---- what they mean ------------------------------------------------------------

  function Prefix(columns: seq<string>, row: Row, n: nat): Row
    requires n <= |columns| && AllOf(columns, row)
  {
    if n == 0 then map[] else Prefix(columns, row, n - 1)[columns[n - 1] := row[columns[n - 1]]]
  }

  lemma {:induction false} PrefixContents(columns: seq<string>, row: Row, n: nat)
    requires n <= |columns| && AllOf(columns, row)
    ensures forall c | c in Prefix(columns, row, n) :: c in row && Prefix(columns, row, n)[c] == row[c]
    ensures forall c | c in Prefix(columns, row, n) :: c in columns[..n]
    ensures forall c | c in columns[..n] :: c in Prefix(columns, row, n)
  {
    if n > 0 {
      PrefixContents(columns, row, n - 1);
      assert columns[..n] == columns[..n - 1] + [columns[n - 1]];
    }
  }

  lemma {:induction false} PrefixStep(columns: seq<string>, row: Row, n: nat)
    requires n < |columns| && AllOf(columns, row) && Distinct(columns)
    ensures columns[n] !in Prefix(columns, row, n)
  {
    PrefixContents(columns, row, n);
  }

  lemma {:induction false} PrefixAll(columns: seq<string>, row: Row)
    requires Lists(columns, row)
    ensures Prefix(columns, row, |columns|) == row
  {
    PrefixContents(columns, row, |columns|);
    assert columns[..|columns|] == columns;
  }

  predicate Plain(row: Row) {
    forall c | c in row :: c !in RESERVED
  }

  lemma {:induction false} EvalAllSnoc(sets: seq<Assignment>, last: Assignment, args: seq<Arg>, excluded: Image)
    ensures EvalAll(sets + [last], args, excluded) ==
            match EvalAll(sets, args, excluded)
            case None => None
            case Some(image) =>
              match Eval(last.scalar, args, excluded) case None => None case Some(v) => Assign(image, last.column, v)
  {
    assert (sets + [last])[..|sets|] == sets;
  }

  lemma {:induction false} EvalParamSets(columns: seq<string>, row: Row, args: seq<Arg>, n: nat)
    requires n <= |columns| && AllOf(columns, row) && Distinct(columns) && Plain(row) && Bound(columns, row, args, 0)
    ensures EvalAll(ParamSets(columns, n), args, EMPTY) == Some(Image(Prefix(columns, row, n), None, None))
  {
    if n > 0 {
      EvalParamSets(columns, row, args, n - 1);
      EvalAllSnoc(ParamSets(columns, n - 1), Assignment(columns[n - 1], Param(n)), args, EMPTY);
      PrefixStep(columns, row, n - 1);
      assert columns[n - 1] !in RESERVED;
    }
  }

  lemma {:induction false} EvalExcludedSets(columns: seq<string>, row: Row, args: seq<Arg>, excluded: Image, n: nat)
    requires n <= |columns| && AllOf(columns, row) && Distinct(columns) && Plain(row)
    requires forall c | c in row :: c in excluded.cols && excluded.cols[c] == row[c]
    ensures EvalAll(ExcludedSets(columns, n), args, excluded) == Some(Image(Prefix(columns, row, n), None, None))
  {
    if n > 0 {
      EvalExcludedSets(columns, row, args, excluded, n - 1);
      EvalAllSnoc(ExcludedSets(columns, n - 1), Assignment(columns[n - 1], Excluded(columns[n - 1])), args, excluded);
      PrefixStep(columns, row, n - 1);
      assert columns[n - 1] !in RESERVED;
    }
  }

  lemma {:induction false} EvalWhereSnoc(where: seq<Comparison>, last: Comparison, args: seq<Arg>, row: Row)
    requires EvalWhere(where, args) == Some(row)
    requires 1 <= last.n <= |args| && args[last.n - 1].Cell? && last.column !in row
    ensures EvalWhere(where + [last], args) == Some(row[last.column := args[last.n - 1].value])
  {
    assert (where + [last])[..|where|] == where;
  }

  lemma {:induction false} EvalKeyWhere(columns: seq<string>, row: Row, args: seq<Arg>, from: nat, n: nat)
    requires n <= |columns| && AllOf(columns, row) && Distinct(columns) && Bound(columns, row, args, from)
    ensures EvalWhere(KeyWhere(columns, from + 1, n), args) == Some(Prefix(columns, row, n))
  {
    if n > 0 {
      EvalKeyWhere(columns, row, args, from, n - 1);
      PrefixStep(columns, row, n - 1);
      EvalWhereSnoc(KeyWhere(columns, from + 1, n - 1), Comparison(columns[n - 1], from + n), args,
        Prefix(columns, row, n - 1));
    }
  }

  /** The three metadata assignments on top of an evaluated column list. */
  lemma {:induction false} EvalMeta(sets: seq<Assignment>, meta: seq<Assignment>, args: seq<Arg>, excluded: Image,
      cols: Row, l: Lsn, time: int)
    requires EvalAll(sets, args, excluded) == Some(Image(cols, None, None))
    requires |meta| == 3
    requires meta[0].column == SOURCE_LSN && Eval(meta[0].scalar, args, excluded) == Some(LsnArg(l))
    requires meta[1].column == SOURCE_COMMIT_TIME && Eval(meta[1].scalar, args, excluded) == Some(TimeArg(time))
    requires meta[2].column == REPLICATED_AT && Eval(meta[2].scalar, args, excluded) == Some(Clock)
    ensures EvalAll(sets + meta, args, excluded) == Some(Image(cols, Some(l), Some(time)))
  {
    var a := sets + [meta[0]];
    var b := a + [meta[1]];
    assert sets + meta == b + [meta[2]];
    EvalAllSnoc(sets, meta[0], args, excluded);
    EvalAllSnoc(a, meta[1], args, excluded);
    EvalAllSnoc(b, meta[2], args, excluded);
  }

  /** The parameter list the callers assemble: values, commit LSN, commit time, then whatever follows. */
  predicate WriteArgs(columns: seq<string>, row: Row, args: seq<Arg>, l: Lsn, time: int) {
    && Lists(columns, row) && Plain(row)
    && Bound(columns, row, args, 0)
    && |columns| + 2 <= |args|
    && args[|columns|] == LsnArg(l) && args[|columns| + 1] == TimeArg(time)
  }

  lemma {:induction false} EvalWrite(columns: seq<string>, row: Row, args: seq<Arg>, l: Lsn, time: int)
    requires WriteArgs(columns, row, args, l, time)
    ensures EvalAll(ParamSets(columns, |columns|) + MetaSets(|columns|), args, EMPTY) ==
            Some(Image(row, Some(l), Some(time)))
  {
    EvalParamSets(columns, row, args, |columns|);
    PrefixAll(columns, row);
    EvalMeta(ParamSets(columns, |columns|), MetaSets(|columns|), args, EMPTY, row, l, time);
  }

  function OnTable(db: Db, n: TableName, r: Result<Table, Failure>): Result<Db, Failure> {
    match r case Err(f) => Err(f) case Ok(t) => Ok(WithRows(db, n, t))
  }

  lemma {:induction false} InsertMeans(cat: Catalog, db: Db, n: TableName, columns: seq<string>, after: Row, l: Lsn,
      time: int, args: seq<Arg>)
    requires n in cat && WriteArgs(columns, after, args, l, time)
    ensures Exec(cat, db, InsertStatement(n, columns), args) ==
            OnTable(db, n, InsertRow(cat[n], Rows(db, n), after, l, time))
  {
    EvalWrite(columns, after, args, l, time);
  }

  lemma {:induction false} EvalConflict(def: TableDef, columns: seq<string>, after: Row, args: seq<Arg>, l: Lsn,
      time: int)
    requires Lists(columns, after) && Plain(after) && after.Keys <= def.columns
    ensures EvalAll(ExcludedSets(columns, |columns|) + EXCLUDED_META, args,
            Image(Candidate(def, after), Some(l), Some(time))) ==
            Some(Image(after, Some(l), Some(time)))
  {
    var excluded := Image(Candidate(def, after), Some(l), Some(time));
    EvalExcludedSets(columns, after, args, excluded, |columns|);
    PrefixAll(columns, after);
    EvalMeta(ExcludedSets(columns, |columns|), EXCLUDED_META, args, excluded, after, l, time);
  }

  lemma {:induction false} ExecUpsertMeans(def: TableDef, t: Table, values: seq<Assignment>, conflict: OnConflict,
      args: seq<Arg>,
                        after: Row, key: Row, l: Lsn, time: int)
    requires EvalAll(values, args, EMPTY) == Some(Image(after, Some(l), Some(time)))
    requires (set c | c in conflict.target) == key.Keys && conflict.limit == Excluded(SOURCE_LSN)
    requires after.Keys <= def.columns ==>
               EvalAll(conflict.sets, args, Image(Candidate(def, after), Some(l), Some(time))) ==
               Some(Image(after, Some(l), Some(time)))
    ensures ExecUpsert(def, t, values, conflict, args) == UpsertRow(def, t, after, key.Keys, l, time)
  {
  }

  /** For any number of columns and key columns, the built upsert is the guarded upsert of the row. */
  lemma {:induction false} UpsertMeans(cat: Catalog, db: Db, n: TableName, columns: seq<string>,
      keyColumns: seq<string>,
                    after: Row, key: Row, l: Lsn, time: int, args: seq<Arg>)
    requires n in cat && WriteArgs(columns, after, args, l, time) && Lists(keyColumns, key)
    ensures Exec(cat, db, UpsertStatement(n, columns, keyColumns), args) ==
            OnTable(db, n, UpsertRow(cat[n], Rows(db, n), after, key.Keys, l, time))
  {
    EvalWrite(columns, after, args, l, time);
    ListsKeys(keyColumns, key);
    if after.Keys <= cat[n].columns {
      EvalConflict(cat[n], columns, after, args, l, time);
    }
    var stmt := UpsertStatement(n, columns, keyColumns);
    ExecUpsertMeans(cat[n], Rows(db, n), stmt.values, stmt.onConflict.value, args, after, key, l, time);
  }

  lemma {:induction false} ListsKeys(columns: seq<string>, row: Row)
    requires Lists(columns, row)
    ensures (set c | c in columns) == row.Keys
  {
  }

  lemma {:induction false} EvalKey(columns: seq<string>, row: Row, args: seq<Arg>, from: nat)
    requires Lists(columns, row) && Bound(columns, row, args, from)
    ensures EvalWhere(KeyWhere(columns, from + 1, |columns|), args) == Some(row)
  {
    EvalKeyWhere(columns, row, args, from, |columns|);
    PrefixAll(columns, row);
  }

  lemma {:induction false} ExecUpdateMeans(def: TableDef, t: Table, sets: seq<Assignment>, where: seq<Comparison>,
      limit: Scalar, args: seq<Arg>,
                        after: Row, key: Row, l: Lsn, time: int)
    requires EvalAll(sets, args, EMPTY) == Some(Image(after, Some(l), Some(time)))
    requires EvalWhere(where, args) == Some(key) && EvalLsn(limit, args, EMPTY) == Some(l)
    ensures ExecUpdate(def, t, sets, where, limit, args) == UpdateRows(def, t, after, key, l, Some(l), time)
  {
  }

  lemma {:induction false} UpdateMeans(cat: Catalog, db: Db, n: TableName, columns: seq<string>,
      keyColumns: seq<string>,
                    after: Row, key: Row, l: Lsn, time: int, args: seq<Arg>)
    requires n in cat && WriteArgs(columns, after, args, l, time)
    requires Lists(keyColumns, key) && Bound(keyColumns, key, args, |columns| + 2)
    ensures Exec(cat, db, UpdateStatement(n, columns, keyColumns), args) ==
            OnTable(db, n, UpdateRows(cat[n], Rows(db, n), after, key, l, Some(l), time))
  {
    EvalWrite(columns, after, args, l, time);
    EvalKey(keyColumns, key, args, |columns| + 2);
    ExecUpdateMeans(cat[n], Rows(db, n), ParamSets(columns, |columns|) + MetaSets(|columns|),
      KeyWhere(keyColumns, |columns| + 3, |keyColumns|),
                    Param(|columns| + 1), args, after, key, l, time);
  }

  lemma {:induction false} DeleteMeans(cat: Catalog, db: Db, n: TableName, keyColumns: seq<string>, key: Row, l: Lsn,
      args: seq<Arg>)
    requires n in cat && Lists(keyColumns, key) && Bound(keyColumns, key, args, 0)
    requires |keyColumns| < |args| && args[|keyColumns|] == LsnArg(l)
    ensures Exec(cat, db, DeleteStatement(n, keyColumns), args) ==
            OnTable(db, n, DeleteRows(cat[n], Rows(db, n), key, l))
  {
    EvalKey(keyColumns, key, args, 0);
  }
}
