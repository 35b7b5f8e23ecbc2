/**
  The decoder: it buffers the row changes of an open transaction in memory and then in a
  spool file, and hands the events of a committed transaction out one at a time
  (internal/source/decoder.go).
*/
module Decoder {
  import opened Wrappers
  import opened Cdc
  import opened Pgoutput
  import EventIds
  import Identity

  /** CommittedTransaction */
  datatype Committed = Committed(transactionId: nat, commitLsn: Lsn, endLsn: Lsn, commitTime: int, count: nat)

  /** An open transaction; `spool` is the content of the temporary file, one line a change. */
  datatype Pending = Pending(id: nat, mem: seq<Change>, spool: seq<Change>)

  /** A committed transaction being read; `spool` holds the unread lines. */
  datatype Pull = Pull(commit: Committed, changes: seq<Change>, spool: seq<Change>, sequence: nat)

  function Buffered(p: Pending): seq<Change> {
    p.mem + p.spool
  }

  /** What the coming NextEvent calls will hand out. */
  function Remaining(p: Pull): seq<Change> {
    (if p.sequence < |p.changes| then p.changes[p.sequence..] else []) + p.spool
  }

  function EventOf(commit: Committed, change: Change, sequence: nat): Event {
    Event(EVENT_VERSION, EventIds.EventId(commit.commitLsn, sequence), change.schema, change.table, change.operation,
          change.key, change.before, change.after,
          SourceMetadata(commit.transactionId, commit.commitLsn, commit.endLsn, commit.commitTime, sequence,
            commit.count),
          change.unchangedColumns)
  }

  /** The events of a transaction, numbered from 1. */
  function EventsOf(commit: Committed, changes: seq<Change>): (r: seq<Event>)
    ensures |r| == |changes|
    ensures forall i | 0 <= i < |r| :: r[i] == EventOf(commit, changes[i], i + 1)
  {
    seq(|changes|, i requires 0 <= i < |changes| => EventOf(commit, changes[i], i + 1))
  }

  // ---- the tuple and key loops ------------------------------------------------------

  method DecodeTupleLoop(rel: Relation, tuple: Option<Tuple>, keyOnly: bool, fill: Row)
    returns (r: Option<(Row, seq<string>)>)
    ensures r == DecodeTuple(rel, tuple, keyOnly, fill)
  {
    if tuple.None? || |tuple.value| != |rel.columns| {
      return None;
    }
    var row: Row, unchangedColumns: seq<string> := map[], [];
    for i := 0 to |rel.columns|
      invariant DecodeUpTo(rel, tuple.value, keyOnly, fill, i) == Some((row, unchangedColumns))
    {
      var column := rel.columns[i];
      if keyOnly && !column.isKey {
        continue;
      }
      match tuple.value[i] {
        case NullCell => row := row[column.name := Null];
        case TextCell(text) => row := row[column.name := Text(text)];
        case UnchangedCell =>
          if keyOnly {
            RefusedEarly(rel, tuple.value, keyOnly, fill, i + 1, |rel.columns|);
            return None;
          }
          if column.name in fill && fill[column.name] != Null {
            row := row[column.name := fill[column.name]];
          } else {
            unchangedColumns := unchangedColumns + [column.name];
          }
        case _ =>
          RefusedEarly(rel, tuple.value, keyOnly, fill, i + 1, |rel.columns|);
          return None;
      }
    }
    return Some((row, unchangedColumns));
  }

  lemma {:induction false} RefusedEarly(rel: Relation, tuple: Tuple, keyOnly: bool, fill: Row, i: nat, n: nat)
    requires i <= n <= |rel.columns| == |tuple|
    requires DecodeUpTo(rel, tuple, keyOnly, fill, i) == None
    ensures DecodeUpTo(rel, tuple, keyOnly, fill, n) == None
  {
    if i < n {
      RefusedEarly(rel, tuple, keyOnly, fill, i, n - 1);
    }
  }

  method KeyColumnsLoop(rel: Relation, resolved: seq<string>) returns (columns: seq<string>)
    ensures columns == KeyColumns(rel, resolved)
  {
    columns := resolved;
    if columns == [] {
      for i := 0 to |rel.columns|
        invariant columns == FlaggedUpTo(rel, i)
      {
        if rel.columns[i].isKey {
          columns := columns + [rel.columns[i].name];
        }
      }
    }
  }

  method PrimaryKeyLoop(columns: seq<string>, row: Row) returns (r: Option<Row>)
    ensures r == PrimaryKey(columns, row)
  {
    var key: Row := map[];
    for i := 0 to |columns|
      invariant forall c | c in columns[..i] :: c in row && row[c] != Null
      invariant key == Restrict(row, set c | c in columns[..i])
    {
      var c := columns[i];
      assert c in columns;
      if c !in row || row[c] == Null {
        return None;
      }
      assert columns[..i + 1] == columns[..i] + [c];
      key := key[c := row[c]];
    }
    assert columns[..|columns|] == columns;
    if columns == [] {
      return None;
    }
    return Some(key);
  }

  method FillLoop(after: Row, oldRow: Row, unchangedColumns: seq<string>) returns (r: Option<Row>)
    ensures r == FillUpTo(after, oldRow, unchangedColumns, |unchangedColumns|)
  {
    var row := after;
    for i := 0 to |unchangedColumns|
      invariant FillUpTo(after, oldRow, unchangedColumns, i) == Some(row)
    {
      var c := unchangedColumns[i];
      if c !in oldRow || oldRow[c] == Null {
        FillRefusedEarly(after, oldRow, unchangedColumns, i + 1, |unchangedColumns|);
        return None;
      }
      row := row[c := oldRow[c]];
    }
    return Some(row);
  }

  lemma {:induction false} FillRefusedEarly(after: Row, oldRow: Row, unchangedColumns: seq<string>, i: nat, n: nat)
    requires i <= n <= |unchangedColumns| && FillUpTo(after, oldRow, unchangedColumns, i) == None
    ensures FillUpTo(after, oldRow, unchangedColumns, n) == None
  {
    if i < n {
      FillRefusedEarly(after, oldRow, unchangedColumns, i, n - 1);
    }
  }

  /** The update case of Handle: one update, or a delete and an insert when the key changed. */
  method DecodeUpdate(rel: Relation, keyColumns: seq<string>, oldType: char, oldTuple: Option<Tuple>,
      newTuple: Option<Tuple>)
    returns (r: Option<seq<Change>>)
    ensures r == UpdateChanges(rel, keyColumns, oldType, oldTuple, newTuple)
    ensures r.Some? ==> |r.value| == 1 || |r.value| == 2
  {
    var oldRow: Row, oldKey: Option<Row> := map[], None;
    if oldTuple.Some? {
      var image := DecodeTupleLoop(rel, oldTuple, oldType == 'K', map[]);
      if image.None? {
        return None;
      }
      oldRow := image.value.0;
      oldKey := PrimaryKeyLoop(keyColumns, oldRow);
      if oldKey.None? {
        return None;
      }
    }
    var decoded := DecodeTupleLoop(rel, newTuple, false, oldRow);
    if decoded.None? {
      return None;
    }
    var (after, unchangedColumns) := decoded.value;
    var newKey := PrimaryKeyLoop(keyColumns, after);
    if newKey.None? {
      return None;
    }
    if oldKey.Some? && oldKey.value != newKey.value {
      var full := FillLoop(after, oldRow, unchangedColumns);
      if full.None? {
        return None;
      }
      return Some([Change(rel.namespace, rel.name, Operation.Delete, oldKey.value, oldRow, map[], []),
                   Change(rel.namespace, rel.name, Operation.Insert, newKey.value, map[], full.value, [])]);
    }
    var key := if oldKey.Some? then oldKey.value else newKey.value;
    return Some([Change(rel.namespace, rel.name, Operation.Update, key, oldRow, after, unchangedColumns)]);
  }

  // ---- identity columns -------------------------------------------------------------

  /** What the resolver answers: the columns the source catalog lists for the table, or nothing. */
  function Discover(identity: map<string, seq<string>>, rel: Relation): seq<string> {
    var q := Identity.Qualified(rel.namespace, rel.name);
    if q in identity then identity[q] else []
  }

  /** Every described relation has the columns the resolver answered, none without a resolver. */
  predicate Identified(identity: Option<map<string, seq<string>>>, relations: map<nat, Relation>,
      keys: map<nat, seq<string>>)
  {
    forall id | id in relations ::
      Resolved(keys, id) == if identity.None? then [] else Discover(identity.value, relations[id])
  }

  /** The names the relation message flags as key. */
  function Flagged(rel: Relation): set<string> {
    set i | 0 <= i < |rel.columns| && rel.columns[i].isKey :: rel.columns[i].name
  }

  lemma {:induction false} FlaggedAre(rel: Relation, n: nat)
    requires n <= |rel.columns|
    ensures forall c :: c in FlaggedUpTo(rel, n) <==>
                        exists i | 0 <= i < n :: rel.columns[i].isKey && rel.columns[i].name == c
  {
    if n > 0 {
      FlaggedAre(rel, n - 1);
    }
  }

  /** The key of every change of an accepted insert, update or delete has just the given columns, none NULL. */
  predicate KeyedBy(changes: seq<Change>, columns: set<string>) {
    forall i | 0 <= i < |changes| ::
      changes[i].key.Keys == columns && forall c | c in changes[i].key :: changes[i].key[c] != Null
  }

  lemma {:induction false} ChangesAreKeyed(relations: map<nat, Relation>, keys: map<nat, seq<string>>, m: Message)
    requires IsRowMessage(m) && !m.Truncate? && Changes(relations, keys, m).Some?
    ensures m.relationId in relations
    ensures KeyedBy(Changes(relations, keys, m).value,
              set c | c in KeyColumns(relations[m.relationId], Resolved(keys, m.relationId)))
  {
  }

  /**
    The catalog decides the key: whatever columns the relation message flags, all of them
    included, the keys of its changes have the columns the catalog lists, and the flags
    count only where it lists none.
  */
  lemma {:induction false} CatalogDecidesTheKey(identity: Option<map<string, seq<string>>>,
      relations: map<nat, Relation>, keys: map<nat, seq<string>>, m: Message)
    requires Identified(identity, relations, keys)
    requires IsRowMessage(m) && !m.Truncate? && Changes(relations, keys, m).Some?
    ensures m.relationId in relations
    ensures var rel := relations[m.relationId];
            var q := rel.namespace + "." + rel.name;
            KeyedBy(Changes(relations, keys, m).value,
              if identity.Some? && q in identity.value && identity.value[q] != [] then set c | c in identity.value[q]
              else Flagged(rel))
  {
    ChangesAreKeyed(relations, keys, m);
    var rel := relations[m.relationId];
    FlaggedAre(rel, |rel.columns|);
    assert (set c | c in FlaggedUpTo(rel, |rel.columns|)) == Flagged(rel);
    assert rel.namespace + ['.'] + rel.name == rel.namespace + "." + rel.name;
  }

  // ---- the decoder ------------------------------------------------------------------

  class Decoder {
    /** The resolver of the source catalog; None is the decoder without one. */
    const identity: Option<map<string, seq<string>>>
    const spoolCap: int
    var relations: map<nat, Relation>
    var keys: map<nat, seq<string>>
    var transaction: Option<Pending>
    var pull: Option<Pull>

    constructor (identity: Option<map<string, seq<string>>>, spoolCap: int)
      ensures this.identity == identity && this.spoolCap == spoolCap
      ensures relations == map[] && keys == map[] && transaction == None && pull == None && Valid()
    {
      this.identity, this.spoolCap := identity, spoolCap;
      relations, keys, transaction, pull := map[], map[], None, None;
    }

    /** Memory never exceeds the cap, and the spool is used only when memory is full. */
    predicate Bounded()
      reads this`transaction
    {
      transaction.Some? ==>
        && (|transaction.value.mem| <= spoolCap || transaction.value.mem == [])
        && (transaction.value.spool != [] ==> |transaction.value.mem| >= spoolCap)
    }

    /** Every described relation has the identity columns of the catalog. */
    predicate Resolves()
      reads this`relations, this`keys
    {
      Identified(identity, relations, keys) && (identity.None? ==> keys == map[])
    }

    predicate Valid()
      reads this
    {
      Bounded() && Resolves()
    }

    function Open(): seq<Change>
      reads this
    {
      if transaction.Some? then Buffered(transaction.value) else []
    }

    method Append(change: Change) returns (ok: bool)
      requires Bounded()
      modifies this`transaction
      ensures Bounded() && ok == old(transaction.Some?)
      ensures transaction.Some? == old(transaction.Some?)
      ensures ok ==> transaction.value.id == old(transaction.value.id) && Open() == old(Open()) + [change]
      ensures !ok ==> transaction == old(transaction)
    {
      if transaction.None? {
        return false;
      }
      var t := transaction.value;
      if |t.mem| < spoolCap {
        transaction := Some(t.(mem := t.mem + [change]));
        assert t.spool == [];
        assert Open() == old(Open()) + [change];
      } else {
        transaction := Some(t.(spool := t.spool + [change]));
      }
      return true;
    }

    /** Handle for one row message: its changes are appended, or it is refused. */
    method HandleRow(m: Message) returns (ok: bool)
      requires Bounded() && IsRowMessage(m) && !m.Truncate?
      modifies this`transaction
      ensures Bounded() && transaction.Some? == old(transaction.Some?)
      ensures transaction.Some? ==> transaction.value.id == old(transaction.value.id)
      ensures ok <==> old(transaction).Some? && Changes(relations, keys, m).Some?
      ensures ok ==> Open() == old(Open()) + Changes(relations, keys, m).value
    {
      if m.relationId !in relations {
        return false;
      }
      var rel := relations[m.relationId];
      var keyColumns := KeyColumnsLoop(rel, Resolved(keys, m.relationId));
      match m {
        case Insert(_, tuple) =>
          var decoded := DecodeTupleLoop(rel, tuple, false, map[]);
          if decoded.None? || decoded.value.1 != [] {
            return false;
          }
          var key := PrimaryKeyLoop(keyColumns, decoded.value.0);
          if key.None? {
            return false;
          }
          ok := Append(Change(rel.namespace, rel.name, Operation.Insert, key.value, map[], decoded.value.0, []));
        case Delete(_, oldType, oldTuple) =>
          var decoded := DecodeTupleLoop(rel, oldTuple, oldType == 'K', map[]);
          if decoded.None? {
            return false;
          }
          var key := PrimaryKeyLoop(keyColumns, decoded.value.0);
          if key.None? {
            return false;
          }
          ok := Append(Change(rel.namespace, rel.name, Operation.Delete, key.value, decoded.value.0, map[], []));
        case Update(_, oldType, oldTuple, newTuple) =>
          ok := HandleUpdate(rel, keyColumns, oldType, oldTuple, newTuple);
      }
    }

    method HandleUpdate(rel: Relation, keyColumns: seq<string>, oldType: char, oldTuple: Option<Tuple>,
        newTuple: Option<Tuple>)
      returns (ok: bool)
      requires Bounded()
      modifies this`transaction
      ensures Bounded() && transaction.Some? == old(transaction.Some?)
      ensures transaction.Some? ==> transaction.value.id == old(transaction.value.id)
      ensures ok <==> old(transaction).Some? && UpdateChanges(rel, keyColumns, oldType, oldTuple, newTuple).Some?
      ensures ok ==> Open() == old(Open()) + UpdateChanges(rel, keyColumns, oldType, oldTuple, newTuple).value
    {
      var changes := DecodeUpdate(rel, keyColumns, oldType, oldTuple, newTuple);
      if changes.None? {
        return false;
      }
      ok := Append(changes.value[0]);
      if ok && |changes.value| == 2 {
        ok := Append(changes.value[1]);
      }
    }

    /** One event a relation; a relation that was never described stops the loop half way. */
    method HandleTruncate(ids: seq<nat>) returns (ok: bool)
      requires Bounded()
      modifies this`transaction
      ensures Bounded() && transaction.Some? == old(transaction.Some?)
      ensures transaction.Some? ==> transaction.value.id == old(transaction.value.id)
      ensures ok <==> old(transaction).Some? && TruncateUpTo(relations, ids, |ids|).Some?
      ensures ok ==> Open() == old(Open()) + TruncateUpTo(relations, ids, |ids|).value
    {
      if transaction.None? {
        return false;
      }
      for i := 0 to |ids|
        invariant Bounded() && transaction.Some? && transaction.value.id == old(transaction.value.id)
        invariant TruncateUpTo(relations, ids, i).Some?
        invariant Open() == old(Open()) + TruncateUpTo(relations, ids, i).value
      {
        if ids[i] !in relations {
          TruncateRefusedEarly(relations, ids, i + 1, |ids|);
          return false;
        }
        var appended := Append(TruncateChange(relations[ids[i]]));
      }
      return true;
    }

    /** Commit: the buffered changes become the pull, numbered from the start. */
    method HandleCommit(commitLsn: Lsn, endLsn: Lsn, time: int) returns (r: Option<Committed>)
      requires Bounded()
      modifies this`transaction, this`pull
      ensures Bounded() && transaction == None
      ensures old(transaction).None? ==> r == None && pull == old(pull)
      ensures old(transaction).Some? ==>
                && r == Some(Committed(old(transaction.value.id), commitLsn, endLsn, time, |old(Open())|))
                && pull.Some? && pull.value.commit == r.value && pull.value.sequence == 0
                && Remaining(pull.value) == old(Open())
    {
      if transaction.None? {
        return None;
      }
      var t := transaction.value;
      var commit := Committed(t.id, commitLsn, endLsn, time, |t.mem| + |t.spool|);
      transaction := None;
      pull := Some(Pull(commit, t.mem, t.spool, 0));
      return Some(commit);
    }

    /**
      Handle. Nothing of a transaction can be pulled before its commit; a refused message
      is an error, after which the reader stops.
    */
    method Handle(m: Message) returns (r: Result<Option<Committed>, ()>)
      requires Valid()
      modifies this
      ensures Valid()
      ensures !m.Commit? ==> pull == old(pull) && (r.Ok? ==> r.value == None)
      ensures !m.RelationMessage? ==> relations == old(relations) && keys == old(keys)
      ensures m.RelationMessage? ==>
                && r.Ok? && transaction == old(transaction)
                && relations == old(relations)[m.relation.id := m.relation]
                && var q := m.relation.namespace + "." + m.relation.name;
                   keys == if identity.None? then old(keys)
                           else old(keys)[m.relation.id := if q in identity.value then identity.value[q] else []]
      ensures m.Begin? ==>
                && (r.Ok? <==> old(transaction).None?)
                && transaction == if r.Ok? then Some(Pending(m.xid, [], [])) else old(transaction)
      ensures IsRowMessage(m) ==>
                && (r.Ok? <==> old(transaction).Some? && Changes(relations, keys, m).Some?)
                && (r.Ok? ==> transaction.Some? && transaction.value.id == old(transaction.value.id)
                              && Open() == old(Open()) + Changes(relations, keys, m).value)
      ensures IsRowMessage(m) && !m.Truncate? && r.Ok? && identity.Some? && m.relationId in relations ==>
                var q := relations[m.relationId].namespace + "." + relations[m.relationId].name;
                q in identity.value && identity.value[q] != [] ==>
                  KeyedBy(Changes(relations, keys, m).value, set c | c in identity.value[q])
      ensures m.Commit? ==>
                && (r.Ok? <==> old(transaction).Some?)
                && transaction == None
                && (r.Ok? ==>
                   r.value == Some(Committed(old(transaction.value.id), m.commitLsn, m.endLsn, m.time, |old(Open())|))
                              && pull.Some? && pull.value.commit == r.value.value && pull.value.sequence == 0
                              && Remaining(pull.value) == old(Open()))
      ensures m.Other? ==> r == Ok(None) && transaction == old(transaction)
    {
      match m {
        case RelationMessage(relation) =>
          relations := relations[relation.id := relation];
          assert relation.namespace + ['.'] + relation.name == relation.namespace + "." + relation.name;
          if identity.Some? {
            keys := keys[relation.id := Discover(identity.value, relation)];
          }
          r := Ok(None);
        case Begin(xid) =>
          if transaction.Some? {
            return Err(());
          }
          transaction := Some(Pending(xid, [], []));
          r := Ok(None);
        case Truncate(ids) =>
          var ok := HandleTruncate(ids);
          r := if ok then Ok(None) else Err(());
        case Commit(commitLsn, endLsn, time) =>
          var committed := HandleCommit(commitLsn, endLsn, time);
          r := if committed.Some? then Ok(committed) else Err(());
        case Other =>
          r := Ok(None);
        case _ =>
          var ok := HandleRow(m);
          r := if ok then Ok(None) else Err(());
          if ok {
            CatalogDecidesTheKey(identity, relations, keys, m);
          }
      }
    }

    /** NextEvent: the next change as an event; None when drained, which ends the pull. */
    method NextEvent() returns (r: Result<Option<Event>, ()>)
      requires Valid()
      modifies this`pull
      ensures Valid()
      ensures old(pull).None? ==> r == Err(()) && pull == None
      ensures old(pull).Some? && Remaining(old(pull.value)) == [] ==> r == Ok(None) && pull == None
      ensures old(pull).Some? && Remaining(old(pull.value)) != [] ==>
                && r.Ok? && r.value.Some?
                && var e, c, n := r.value.value, old(pull.value.commit), old(pull.value.sequence) + 1;
                   var change := Remaining(old(pull.value))[0];
                && e == EventOf(c, change, n)
                && e.version == 1 && e.id == EventIds.EventId(c.commitLsn, n)
                && e.schema == change.schema && e.table == change.table && e.operation == change.operation
                && e.key == change.key && e.before == change.before && e.after == change.after
                && e.unchangedColumns == change.unchangedColumns
                && e.source.transactionId == c.transactionId && e.source.commitTime == c.commitTime
                && e.source.commitLsn == c.commitLsn && e.source.endLsn == c.endLsn
                && e.source.sequence == n && e.source.count == c.count
                && pull.Some? && pull.value.commit == old(pull.value.commit)
                && pull.value.sequence == old(pull.value.sequence) + 1
                && Remaining(pull.value) == Remaining(old(pull.value))[1..]
    {
      if pull.None? {
        return Err(());
      }
      var p := pull.value;
      var change: Change;
      if p.sequence < |p.changes| {
        change := p.changes[p.sequence];
      } else if p.spool != [] {
        change := p.spool[0];
        p := p.(spool := p.spool[1..]);
      } else {
        pull := None;
        return Ok(None);
      }
      p := p.(sequence := p.sequence + 1);
      pull := Some(p);
      return Ok(Some(EventOf(p.commit, change, p.sequence)));
    }

    /** Reset after a reconnect: no transaction and no pull survives it. */
    method Reset()
      requires Valid()
      modifies this
      ensures Valid() && transaction == None && pull == None && relations == map[] && keys == old(keys)
    {
      pull, transaction, relations := None, None, map[];
    }
  }

  lemma {:induction false} TruncateRefusedEarly(relations: map<nat, Relation>, ids: seq<nat>, i: nat, n: nat)
    requires i <= n <= |ids| && TruncateUpTo(relations, ids, i) == None
    ensures TruncateUpTo(relations, ids, n) == None
  {
    if i < n {
      TruncateRefusedEarly(relations, ids, i, n - 1);
    }
  }

  // ---- one whole transaction ----------------------------------------------------------

  /** The changes of a run of row messages, or None at the first refused one. */
  function AllChanges(relations: map<nat, Relation>, keys: map<nat, seq<string>>, ms: seq<Message>,
      n: nat)
    : Option<seq<Change>>
    requires n <= |ms| && forall i | 0 <= i < |ms| :: IsRowMessage(ms[i])
  {
    if n == 0 then Some([])
    else
      match AllChanges(relations, keys, ms, n - 1)
      case None => None
      case Some(changes) =>
        match Changes(relations, keys, ms[n - 1]) case None => None case Some(more) => Some(changes + more)
  }

  lemma {:induction false} AllRefusedEarly(relations: map<nat, Relation>, keys: map<nat, seq<string>>,
      ms: seq<Message>, i: nat, n: nat)
    requires forall i | 0 <= i < |ms| :: IsRowMessage(ms[i])
    requires i <= n <= |ms| && AllChanges(relations, keys, ms, i) == None
    ensures AllChanges(relations, keys, ms, n) == None
  {
    if i < n {
      AllRefusedEarly(relations, keys, ms, i, n - 1);
    }
  }

  /** queueTransactionEvents without the hand-over: exactly `count` calls of NextEvent, none of which fails. */
  method PullAll(d: Decoder, commit: Committed) returns (events: seq<Event>)
    requires d.Valid() && d.pull.Some? && d.pull.value.commit == commit && d.pull.value.sequence == 0
    requires commit.count == |Remaining(d.pull.value)|
    modifies d`pull
    ensures d.Valid()
    ensures events == EventsOf(commit, Remaining(old(d.pull.value)))
    ensures d.pull.Some? && Remaining(d.pull.value) == []
  {
    ghost var changes := Remaining(d.pull.value);
    events := [];
    assert changes[0..] == changes;
    for i := 0 to commit.count
      invariant d.Valid() && d.pull.Some? && d.pull.value.commit == commit && d.pull.value.sequence == i
      invariant Remaining(d.pull.value) == changes[i..]
      invariant events == EventsOf(commit, changes[..i])
    {
      var next := d.NextEvent();
      assert changes[i..][1..] == changes[i + 1..];
      events := events + [next.value.value];
      assert events == EventsOf(commit, changes[..i + 1]);
    }
    assert changes[..commit.count] == changes;
  }

  method FeedRow(d: Decoder, m: Message) returns (ok: bool)
    requires d.Valid() && d.transaction.Some? && IsRowMessage(m)
    modifies d
    ensures d.Valid() && d.relations == old(d.relations) && d.keys == old(d.keys) && d.pull == old(d.pull)
    ensures ok <==> Changes(d.relations, d.keys, m).Some?
    ensures ok ==> d.transaction.Some? && d.transaction.value.id == old(d.transaction.value.id)
    ensures ok ==> d.Open() == old(d.Open()) + Changes(d.relations, d.keys, m).value
  {
    var handled := d.Handle(m);
    ok := handled.Ok?;
  }

  /** Feeds the row messages of an open transaction; nothing can be pulled yet. */
  method FeedRows(d: Decoder, ms: seq<Message>) returns (ok: bool)
    requires d.Valid() && d.transaction.Some? && d.Open() == [] && forall i | 0 <= i < |ms| :: IsRowMessage(ms[i])
    modifies d
    ensures d.Valid() && d.relations == old(d.relations) && d.keys == old(d.keys) && d.pull == old(d.pull)
    ensures ok <==> AllChanges(d.relations, d.keys, ms, |ms|).Some?
    ensures ok ==> d.transaction.Some? && d.transaction.value.id == old(d.transaction.value.id)
    ensures ok ==> AllChanges(d.relations, d.keys, ms, |ms|) == Some(d.Open())
  {
    for i := 0 to |ms|
      invariant d.Valid() && d.relations == old(d.relations) && d.keys == old(d.keys) && d.pull == old(d.pull)
      invariant d.transaction.Some? && d.transaction.value.id == old(d.transaction.value.id)
      invariant AllChanges(d.relations, d.keys, ms, i) == Some(d.Open())
    {
      ok := FeedRow(d, ms[i]);
      if !ok {
        AllRefusedEarly(d.relations, d.keys, ms, i + 1, |ms|);
        return;
      }
    }
    ok := true;
  }

  /**
    The spool is invisible: whatever the cap, a begun, changed and committed transaction
    is handed out as its changes in order, numbered from 1, and one more call ends it.
  */
  method DecodeTransaction(d: Decoder, xid: nat, ms: seq<Message>, commitLsn: Lsn, endLsn: Lsn, time: int)
    returns (r: Result<seq<Event>, ()>)
    requires d.Valid() && d.transaction == None && forall i | 0 <= i < |ms| :: IsRowMessage(ms[i])
    modifies d
    ensures d.Valid() && d.relations == old(d.relations) && d.keys == old(d.keys)
    ensures match AllChanges(d.relations, d.keys, ms, |ms|)
            case None => r == Err(())
            case Some(changes) =>
              && r == Ok(EventsOf(Committed(xid, commitLsn, endLsn, time, |changes|), changes))
              && d.pull == None && d.transaction == None
  {
    var begun := d.Handle(Begin(xid));
    assert d.Open() == [];
    var ok := FeedRows(d, ms);
    if !ok {
      return Err(());
    }
    var committed := d.Handle(Commit(commitLsn, endLsn, time));
    var events := PullAll(d, committed.value.value);
    var last := d.NextEvent();
    r := Ok(events);
  }
}
