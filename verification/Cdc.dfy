/**
  The event contract between the source reader and the destination writer
  (internal/cdc/event.go).
*/
module Cdc {
  /** One column value in PostgreSQL text format; a nil pointer is SQL NULL. */
  datatype Value = Null | Text(text: string)

  type Row = map<string, Value>

  /** A WAL position as a number. Its text form is the subject of module EventIds. */
  type Lsn = nat

  datatype Operation = Insert | Update | Delete | Truncate | Unknown(name: string)

  datatype SourceMetadata = SourceMetadata(
    transactionId: nat,
    commitLsn: Lsn,
    endLsn: Lsn,
    commitTime: int,
    sequence: int,
    count: int)

  datatype Event = Event(
    version: int,
    id: string,
    schema: string,
    table: string,
    operation: Operation,
    key: Row,
    before: Row,
    after: Row,
    source: SourceMetadata,
    unchangedColumns: seq<string>)

  const EVENT_VERSION := 1

  /** Event.Validate: true when it returns no error. */
  predicate Valid(e: Event) {
    && e.version == EVENT_VERSION
    && e.id != "" && e.schema != "" && e.table != ""
    && match e.operation
       case Insert => e.key != map[] && e.after != map[]
       case Update => e.key != map[] && e.after != map[]
       case Delete => e.key != map[]
       case Truncate => true
       case Unknown(_) => false
  }

  predicate IsLetter(c: char) {
    'A' <= c <= 'Z' || 'a' <= c <= 'z' || c == '_'
  }

  /** verifyIdent: `^[A-Za-z_][A-Za-z0-9_]*$`. */
  predicate IsIdent(s: string) {
    && s != ""
    && IsLetter(s[0])
    && forall i | 0 <= i < |s| :: IsLetter(s[i]) || '0' <= s[i] <= '9'
  }

  const SOURCE_LSN := "source_lsn"
  const SOURCE_COMMIT_TIME := "source_commit_time"
  const REPLICATED_AT := "replicated_at"

  /** The metadata columns every destination table carries. */
  const RESERVED: set<string> := {SOURCE_LSN, SOURCE_COMMIT_TIME, REPLICATED_AT}

  /** The named columns of a row. */
  function Restrict(row: Row, columns: set<string>): (r: Row)
    ensures r.Keys == row.Keys * columns
    ensures forall c | c in r :: r[c] == row[c]
  {
    row - (row.Keys - columns)
  }
}
