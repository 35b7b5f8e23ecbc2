/**
  The destination writer: Kafka records are gathered into source transactions, applied as
  one batch, healed and quarantined when they cannot apply, and only then is the Kafka
  offset committed (cmd/destination-writer/main.go:236-535).
*/
module Writer {
  import opened Wrappers
  import opened Cdc
  import opened Destination
  import opened Applier
  import opened DeadLetters

  // ---- gathering a group -----------------------------------------------------------------

  /** groupState: `last` is the offset of the last buffered record. */
  datatype Group = Group(txid: nat, count: int, buffer: seq<Event>, last: nat)

  datatype Fed = Refused | Opened(group: Group) | Full(group: Group)

  function Buffer(g: Group, record: nat, e: Event): Fed {
    var longer := g.(buffer := g.buffer + [e], last := record);
    if |longer.buffer| == longer.count then Full(longer) else Opened(longer)
  }

  /** One record against the open group: sequence 1 opens, the last sequence completes, anything else is refused. */
  function Feed(group: Option<Group>, record: nat, e: Event): Fed {
    if group.None? then
      if e.source.sequence != 1 then Refused
      else Buffer(Group(e.source.transactionId, e.source.count, [], record), record, e)
    else if e.source.transactionId != group.value.txid || e.source.sequence != |group.value.buffer| + 1 then Refused
    else Buffer(group.value, record, e)
  }

  // ---- the poison path -------------------------------------------------------------------

  /** The database after a healing step, and whether the writer goes on. */
  datatype Healed = Healed(db: Db, ok: bool)

  /** One event of replayHealthyEvents. */
  function HealOne(cat: Catalog, db: Db, e: Event, poisonId: string): Healed {
    if e.id == poisonId then Healed(db, true)
    else
      match ApplyInTx(cat, db, e)
      case Ok(d) => Healed(d, true)
      case Err(f) => if f.permanent then Healed(Recorded(db, e, REASON), true) else Healed(db, false)
  }

  /** The first `i` events of replayHealthyEvents; it stops at the first error that is not permanent. */
  function HealUpTo(cat: Catalog, db: Db, es: seq<Event>, poisonId: string, i: nat): Healed
    requires i <= |es|
  {
    if i == 0 then Healed(db, true)
    else
      var h := HealUpTo(cat, db, es, poisonId, i - 1);
      if !h.ok then h else HealOne(cat, h.db, es[i - 1], poisonId)
  }

  /** A whole poisoned group: its healthy events one by one, then the poison. */
  function Poisoned(cat: Catalog, db: Db, es: seq<Event>, poison: Event): Healed {
    var h := HealUpTo(cat, db, es, poison.id, |es|);
    if h.ok then Healed(Recorded(h.db, poison, REASON), true) else h
  }

  lemma {:induction false} StoppedHealing(cat: Catalog, db: Db, es: seq<Event>, poisonId: string, i: nat, n: nat)
    requires i <= n <= |es| && !HealUpTo(cat, db, es, poisonId, i).ok
    ensures HealUpTo(cat, db, es, poisonId, n) == HealUpTo(cat, db, es, poisonId, i)
  {
    if i < n {
      StoppedHealing(cat, db, es, poisonId, i, n - 1);
    }
  }

  /** The reported event is quarantined whatever its failure was: here its table is only missing, not for good. */
  lemma {:induction false} NotOnlyPermanentFailuresAreQuarantined(cat: Catalog, db: Db, e: Event)
    requires Shaped(e) && ColumnsFree(e) && !e.operation.Truncate? && Name(e) !in cat && e.id !in db.markers
    ensures ApplyInTx(cat, db, e) == Err(TRANSIENT) && !TRANSIENT.permanent
    ensures Poisoned(cat, db, [e], e).ok && e.id in Poisoned(cat, db, [e], e).db.letters
  {
    assert HealUpTo(cat, db, [e], e.id, 0) == Healed(db, true);
    assert HealUpTo(cat, db, [e], e.id, 1) == Healed(db, true);
  }

  // ---- the writer as it runs ---------------------------------------------------------------

  class GroupState {
    const txid: nat
    const count: int
    const tx: Transaction
    var nextSeq: int
    var buffer: seq<Event>
    var lastRecord: nat

    constructor (txid: nat, count: int, tx: Transaction, record: nat)
      ensures this.txid == txid && this.count == count && this.tx == tx
      ensures nextSeq == 1 && buffer == [] && lastRecord == record
    {
      this.txid, this.count, this.tx := txid, count, tx;
      nextSeq, buffer, lastRecord := 1, [], record;
    }
  }

  class Consumer {
    const conn: Connection
    var group: GroupState?
    var offset: nat

    constructor (conn: Connection, offset: nat)
      ensures this.conn == conn && this.offset == offset && group == null
    {
      this.conn, this.offset, group := conn, offset, null;
    }

    /** The open group holds its own transaction, begun on the committed database and still empty. */
    ghost predicate Valid()
      reads this, conn, group, if group != null then {group.tx} else {}
    {
      group != null ==>
        && group.nextSeq == |group.buffer| + 1
        && group.tx.cat == conn.cat && group.tx.view == conn.committed && !group.tx.aborted
    }

    function View(): Option<Group>
      reads this, group
    {
      if group == null then None else Some(Group(group.txid, group.count, group.buffer, group.lastRecord))
    }

    /** replayHealthyEvents */
    method ReplayHealthyEvents(es: seq<Event>, poisonId: string) returns (ok: bool)
      modifies conn
      ensures HealUpTo(conn.cat, old(conn.committed), es, poisonId, |es|) == Healed(conn.committed, ok)
    {
      ghost var db := conn.committed;
      for i := 0 to |es|
        invariant HealUpTo(conn.cat, db, es, poisonId, i) == Healed(conn.committed, true)
      {
        if es[i].id == poisonId {
          continue;
        }
        var applied := conn.Apply(es[i]);
        if applied.Err? {
          if !applied.error.permanent {
            StoppedHealing(conn.cat, db, es, poisonId, i + 1, |es|);
            return false;
          }
          RecordDeadLetter(conn, es[i], REASON);
        }
      }
      return true;
    }

    /**
      commitDestinationTransaction: the whole batch in the group's transaction, or nothing of
      it, followed by healing and quarantine of the event ApplyBatch reported.
    */
    method CommitDestinationTransaction() returns (ok: bool, ghost reported: Option<nat>)
      requires Valid() && group != null
      modifies conn, group.tx
      ensures var es, db := group.buffer, old(conn.committed);
              match ApplyAll(conn.cat, db, es)
              case Ok(d) => ok && reported == None && conn.committed == d
              case Err(_) =>
                && reported.Some? && reported.value < |es|
                && Reports(conn.cat, db, es, BatchError(reported.value, es[reported.value]))
                && Poisoned(conn.cat, db, es, es[reported.value]) == Healed(conn.committed, ok)
    {
      var failed := ApplyBatch(group.tx, group.buffer);
      if failed.None? {
        conn.Commit(group.tx);
        return true, None;
      }
      var poison := failed.value;
      ok := ReplayHealthyEvents(group.buffer, poison.event.id);
      if ok {
        RecordDeadLetter(conn, poison.event, REASON);
      }
      return ok, Some(poison.index);
    }

    /** closeGroup: the destination first, the Kafka offset second; a failure leaves the offset behind. */
    method CloseGroup() returns (ok: bool, ghost reported: Option<nat>)
      requires Valid() && group != null
      modifies this`offset, conn, group.tx
      ensures var es, db := group.buffer, old(conn.committed);
              match ApplyAll(conn.cat, db, es)
              case Ok(d) => ok && conn.committed == d
              case Err(_) =>
                && reported.Some? && reported.value < |es|
                && Reports(conn.cat, db, es, BatchError(reported.value, es[reported.value]))
                && Poisoned(conn.cat, db, es, es[reported.value]) == Healed(conn.committed, ok)
      ensures offset == if ok then group.lastRecord + 1 else old(offset)
    {
      ok, reported := CommitDestinationTransaction();
      if ok {
        offset := group.lastRecord + 1;
      }
    }

    /** handleEvent */
    method HandleEvent(record: nat, e: Event) returns (ok: bool, ghost reported: Option<nat>)
      requires Valid()
      modifies this, conn, if group != null then {group, group.tx} else {}
      ensures match Feed(old(View()), record, e)
              case Refused => !ok && conn.committed == old(conn.committed) && offset == old(offset)
              case Opened(g) =>
                && ok && Valid() && View() == Some(g)
                && conn.committed == old(conn.committed) && offset == old(offset)
              case Full(g) =>
                && (ok ==> Valid() && View() == None)
                && offset == (if ok then record + 1 else old(offset))
                && match ApplyAll(conn.cat, old(conn.committed), g.buffer)
                   case Ok(d) => ok && conn.committed == d
                   case Err(_) =>
                     && reported.Some? && reported.value < |g.buffer|
                     && Reports(conn.cat, old(conn.committed), g.buffer,
                        BatchError(reported.value, g.buffer[reported.value]))
                     && Poisoned(conn.cat, old(conn.committed), g.buffer, g.buffer[reported.value]) ==
                        Healed(conn.committed, ok)
    {
      reported := None;
      if group == null {
        if e.source.sequence != 1 {
          return false, None;
        }
        var tx := conn.Begin();
        group := new GroupState(e.source.transactionId, e.source.count, tx, record);
      } else {
        if e.source.transactionId != group.txid || e.source.sequence != group.nextSeq {
          return false, None;
        }
      }
      group.buffer := group.buffer + [e];
      group.lastRecord := record;
      group.nextSeq := group.nextSeq + 1;
      if group.nextSeq - 1 == group.count {
        ok, reported := CloseGroup();
        if ok {
          group := null;
        }
        return;
      }
      ok := true;
    }
  }
}
