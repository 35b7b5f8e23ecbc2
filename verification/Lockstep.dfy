/**
  Why no event fails while the destination keeps step with the source, and the end of the
  square: decode, then apply.
*/
module Lockstep {
  import opened Wrappers
  import opened Cdc
  import opened Destination
  import opened Convergence
  import opened Pgoutput
  import opened Decoder
  import opened Failures
  import opened Translation
  import Batch
  import EventIds

  // ---- in step with the source -----------------------------------------------------------

  /** While the replay has not met a future row, the destination mirrors the source at every step. */
  lemma {:induction false} InvMirrors(cat: Catalog, log: seq<Event>, hist: seq<Source>, m: nat, d: Db)
    requires m <= |log| && LogOk(cat, log, hist) && Inv(cat, log, hist, AtStart, m, d)
    ensures Mirrors(cat, d, hist[m])
  {
    HistoryKeepsColumns(cat, log, hist, m);
    forall n, k | n in cat ensures Cols(Entry(d, n, k)) == SourceEntry(hist[m], n, k) {
      assert KeyInv(cat, log, hist, m, AtStart(n, k), Entry(d, n, k), n, k);
      AgreeEverywhere(cat[n], Entry(d, n, k), SourceEntry(hist[m], n, k));
    }
  }

  function AtStart(n: TableName, k: Row): nat {
    0
  }

  lemma {:induction false} MirrorFits(cat: Catalog, d: Db, src: Source)
    requires Mirrors(cat, d, src) && SourceFit(cat, src)
    ensures DbFit(cat, d)
  {
    forall n, k | n in cat && k in Rows(d, n) ensures FitRow(cat[n], Rows(d, n)[k].cols) {
      assert Cols(Entry(d, n, k)) == SourceEntry(src, n, k);
    }
  }

  lemma {:induction false} NextSucceeds(cat: Catalog, log: seq<Event>, hist: seq<Source>, m: nat, d: Db)
    requires m < |log| && LogOk(cat, log, hist) && Inv(cat, log, hist, AtStart, m, d)
    requires SourceFit(cat, hist[0]) && AllFit(cat, log)
    ensures ApplyInTx(cat, d, log[m]).Ok?
  {
    InvMirrors(cat, log, hist, m, d);
    HistoryFits(cat, log, hist, m);
    MirrorFits(cat, d, hist[m]);
    assert Acceptable(cat, log[m]);
    FailsExactlyWhen(cat, d, log[m]);
    if log[m].operation.Update? {
      assert Cols(Entry(d, Name(log[m]), log[m].key)) == SourceEntry(hist[m], Name(log[m]), log[m].key);
    }
  }

  /** From equal states the replay cannot fail, and every step keeps the two sides equal. */
  lemma {:induction false} StaysInStep(cat: Catalog, log: seq<Event>, hist: seq<Source>, m: nat, d: Db)
    requires m <= |log| && LogOk(cat, log, hist) && Inv(cat, log, hist, AtStart, 0, d)
    requires SourceFit(cat, hist[0]) && AllFit(cat, log)
    ensures ApplyAll(cat, d, log[..m]).Ok?
    ensures Inv(cat, log, hist, AtStart, m, ApplyAll(cat, d, log[..m]).value)
  {
    if m == 0 {
      assert log[..0] == [];
    } else {
      StaysInStep(cat, log, hist, m - 1, d);
      var mid := ApplyAll(cat, d, log[..m - 1]).value;
      NextSucceeds(cat, log, hist, m - 1, mid);
      InvStep(cat, log, hist, AtStart, m - 1, mid);
      Batch.FoldNext(cat, d, log, m - 1);
    }
  }

  /** Applying a genuine log to a destination in step with the source succeeds, with exactly the log's meaning. */
  lemma {:induction false} LockStep(cat: Catalog, log: seq<Event>, hist: seq<Source>, d: Db)
    requires LogOk(cat, log, hist) && InStep(cat, log, hist, d)
    requires SourceFit(cat, hist[0]) && AllFit(cat, log)
    ensures ApplyAll(cat, d, log).Ok? && Mirrors(cat, ApplyAll(cat, d, log).value, hist[|log|])
  {
    CapturedInv(cat, log, hist, AtStart, 0, d);
    StaysInStep(cat, log, hist, |log|, d);
    assert log[..|log|] == log;
    InvMirrors(cat, log, hist, |log|, ApplyAll(cat, d, log).value);
  }

  // ---- the stamps of rows -------------------------------------------------------------------

  /** One of the first `m` events writes or clears the row. */
  predicate Concerned(log: seq<Event>, m: nat, n: TableName, k: Row)
    requires m <= |log|
  {
    exists i | 0 <= i < m :: Name(log[i]) == n && (log[i].operation.Truncate? || log[i].key == k)
  }

  /** A row that is concerned is gone or carries the stamp; the others are as they were. */
  predicate StampOk(log: seq<Event>, m: nat, n: TableName, k: Row, was: Option<Stored>, now: Option<Stored>, l: Lsn,
      time: int)
    requires m <= |log|
  {
    if Concerned(log, m, n, k) then now.Some? ==> now.value.lsn == Some(l) && now.value.time == time else now == was
  }

  lemma {:induction false} StampStep(def: TableDef, log: seq<Event>, m: nat, n: TableName, k: Row,
      was: Option<Stored>, now: Option<Stored>, l: Lsn, time: int)
    requires m < |log| && StampOk(log, m, n, k, was, now, l, time)
    requires log[m].source.commitLsn == l && log[m].source.commitTime == time
    requires was.Some? ==> GuardOk(was.value, l)
    ensures StampOk(log, m + 1, n, k, was, EntryStep(def, now, log[m], n, k), l, time)
  {
    assert Concerned(log, m + 1, n, k) <==>
           Concerned(log, m, n, k) || (Name(log[m]) == n && (log[m].operation.Truncate? || log[m].key == k));
  }

  /** Every row a transaction writes carries its commit LSN and its commit time; no other row changes. */
  lemma {:induction false} RowsAreStamped(cat: Catalog, log: seq<Event>, hist: seq<Source>, m: nat, d: Db, l: Lsn,
      time: int)
    requires m <= |log| && LogOk(cat, log, hist) && InStep(cat, log, hist, d)
    requires SourceFit(cat, hist[0]) && AllFit(cat, log)
    requires forall i | 0 <= i < |log| :: log[i].source.commitLsn == l && log[i].source.commitTime == time
    requires forall n, k | n in cat && Entry(d, n, k).Some? :: GuardOk(Entry(d, n, k).value, l)
    ensures ApplyAll(cat, d, log[..m]).Ok?
    ensures forall n, k | n in cat ::
              StampOk(log, m, n, k, Entry(d, n, k), Entry(ApplyAll(cat, d, log[..m]).value, n, k), l, time)
  {
    CapturedInv(cat, log, hist, AtStart, 0, d);
    StaysInStep(cat, log, hist, m, d);
    if m == 0 {
      assert log[..0] == [];
    } else {
      var i := m - 1;
      RowsAreStamped(cat, log, hist, i, d, l, time);
      StaysInStep(cat, log, hist, i, d);
      var mid := ApplyAll(cat, d, log[..i]).value;
      NextSucceeds(cat, log, hist, i, mid);
      NextIsStamped(cat, log, hist, i, d, mid, l, time);
      Batch.FoldNext(cat, d, log, i);
    }
  }

  lemma {:induction false} NextIsStamped(cat: Catalog, log: seq<Event>, hist: seq<Source>, i: nat, d: Db, mid: Db,
      l: Lsn, time: int)
    requires i < |log| && LogOk(cat, log, hist) && Inv(cat, log, hist, AtStart, i, mid)
    requires ApplyInTx(cat, mid, log[i]).Ok?
    requires log[i].source.commitLsn == l && log[i].source.commitTime == time
    requires forall n, k | n in cat && Entry(d, n, k).Some? :: GuardOk(Entry(d, n, k).value, l)
    requires forall n, k | n in cat :: StampOk(log, i, n, k, Entry(d, n, k), Entry(mid, n, k), l, time)
    ensures forall n, k | n in cat ::
              StampOk(log, i + 1, n, k, Entry(d, n, k), Entry(ApplyInTx(cat, mid, log[i]).value, n, k), l, time)
  {
    assert Acceptable(cat, log[i]);
    ApplyOnEntries(cat, mid, log[i]);
    forall n, k | n in cat
      ensures StampOk(log, i + 1, n, k, Entry(d, n, k), Entry(ApplyInTx(cat, mid, log[i]).value, n, k), l, time)
    {
      StampStep(cat[n], log, i, n, k, Entry(d, n, k), Entry(mid, n, k), l, time);
    }
  }

  // ---- decode, then apply ------------------------------------------------------------------

  /** No table is truncated twice in the transaction. */
  predicate TruncatesOnce(changes: seq<Change>) {
    forall i, j | 0 <= i < j < |changes| && changes[i].operation.Truncate? && changes[j].operation.Truncate? ::
      changes[i].schema != changes[j].schema || changes[i].table != changes[j].table
  }

  /** The destination equals the source and has seen nothing at or after the commit LSN. */
  ghost predicate Before(cat: Catalog, d: Db, src: Source, commit: Committed) {
    && DbOk(cat, d) && Mirrors(cat, d, src)
    && (forall i: nat :: EventIds.EventId(commit.commitLsn, i) !in d.markers)
    && (forall n | n in d.watermarks :: d.watermarks[n] < commit.commitLsn)
    && (forall n, k | n in cat && Entry(d, n, k).Some? :: GuardOk(Entry(d, n, k).value, commit.commitLsn))
  }

  lemma {:induction false} TransactionLogOk(cat: Catalog, src: Source, commit: Committed, changes: seq<Change>)
    requires CatalogOk(cat) && SourceOk(cat, src) && commit.commitLsn < EventIds.HALF * EventIds.HALF
    requires GenuineRun(cat, src, EventsOf(commit, changes)) && TruncatesOnce(changes)
    ensures LogOk(cat, EventsOf(commit, changes), States(src, EventsOf(commit, changes)))
  {
    var log := EventsOf(commit, changes);
    StatesAreHistory(src, log);
    GenuineStates(cat, src, log);
    IdsOfOneTransaction(commit, changes);
  }

  lemma {:induction false} IdsOfOneTransaction(commit: Committed, changes: seq<Change>)
    requires commit.commitLsn < EventIds.HALF * EventIds.HALF
    ensures DistinctIds(EventsOf(commit, changes))
  {
    var log := EventsOf(commit, changes);
    forall i, j | 0 <= i < j < |log| ensures log[i].id != log[j].id {
      if log[i].id == log[j].id {
        EventIds.EventIdInjective(commit.commitLsn, i + 1, commit.commitLsn, j + 1);
      }
    }
  }

  /** Every row the changes concern is gone or stamped with the commit; every other row is as it was. */
  ghost predicate Stamped(cat: Catalog, d: Db, commit: Committed, changes: seq<Change>, after: Db) {
    forall n, k | n in cat ::
      if exists i | 0 <= i < |changes| ::
           TableName(changes[i].schema, changes[i].table) == n
           && (changes[i].operation.Truncate? || changes[i].key == k)
      then
        Entry(after, n, k).Some? ==>
          Entry(after, n, k).value.lsn == Some(commit.commitLsn) && Entry(after, n, k).value.time == commit.commitTime
      else Entry(after, n, k) == Entry(d, n, k)
  }

  lemma {:induction false} StampsOfChanges(cat: Catalog, d: Db, commit: Committed, changes: seq<Change>, after: Db)
    requires var log := EventsOf(commit, changes);
             forall n, k | n in cat ::
               StampOk(log, |log|, n, k, Entry(d, n, k), Entry(after, n, k), commit.commitLsn, commit.commitTime)
    ensures Stamped(cat, d, commit, changes, after)
  {
    var log := EventsOf(commit, changes);
    forall n, k | n in cat
      ensures Concerned(log, |log|, n, k) <==>
              exists i | 0 <= i < |changes| ::
                TableName(changes[i].schema, changes[i].table) == n
                && (changes[i].operation.Truncate? || changes[i].key == k)
    {
      if i :| 0 <= i < |changes| && TableName(changes[i].schema, changes[i].table) == n
              && (changes[i].operation.Truncate? || changes[i].key == k)
      {
        assert Name(log[i]) == n;
      }
    }
    forall n, k | n in cat
      ensures StampOk(log, |log|, n, k, Entry(d, n, k), Entry(after, n, k), commit.commitLsn, commit.commitTime)
    {
    }
  }

  lemma {:induction false} SquareApplies(cat: Catalog, src: Source, end: Source, commit: Committed,
      changes: seq<Change>, d: Db)
    requires CatalogOk(cat) && SourceOk(cat, src) && SourceFit(cat, src) && TruncatesOnce(changes)
    requires Square(cat, src, EventsOf(commit, changes), end)
    requires commit.commitLsn < EventIds.HALF * EventIds.HALF && Before(cat, d, src, commit)
    ensures ApplyAll(cat, d, EventsOf(commit, changes)).Ok?
    ensures Mirrors(cat, ApplyAll(cat, d, EventsOf(commit, changes)).value, end)
    ensures Stamped(cat, d, commit, changes, ApplyAll(cat, d, EventsOf(commit, changes)).value)
  {
    var log := EventsOf(commit, changes);
    TransactionLogOk(cat, src, commit, changes);
    BeforeIsInStep(cat, d, src, commit, changes);
    LockStep(cat, log, States(src, log), d);
    RowsAreStamped(cat, log, States(src, log), |log|, d, commit.commitLsn, commit.commitTime);
    assert log[..|log|] == log;
    StampsOfChanges(cat, d, commit, changes, ApplyAll(cat, d, log).value);
  }

  /**
    The whole square. A transaction the source ran, decoded from any messages it may have
    sent for it, applies without failure to a destination equal to the source before, and
    leaves it equal to the source after.
  */
  lemma {:induction false} DecodeThenApply(
      cat: Catalog, identity: map<string, seq<string>>, relations: map<nat, Relation>, keys: map<nat, seq<string>>,
      src: Source, stmts: seq<Statement>, ms: seq<Message>, commit: Committed, d: Db)
    requires CatalogOk(cat) && Identified(Some(identity), relations, keys) && Agreed(cat, identity, relations)
    requires Sends(cat, relations, stmts, ms)
    requires SourceOk(cat, src) && SourceFit(cat, src) && ExecuteAll(cat, src, stmts, |ms|).Some?
    requires AllChanges(relations, keys, ms, |ms|).Some? && TruncatesOnce(AllChanges(relations, keys, ms, |ms|).value)
    requires commit.commitLsn < EventIds.HALF * EventIds.HALF && Before(cat, d, src, commit)
    ensures var events := EventsOf(commit, AllChanges(relations, keys, ms, |ms|).value);
            && ApplyAll(cat, d, events).Ok?
            && Mirrors(cat, ApplyAll(cat, d, events).value, ExecuteAll(cat, src, stmts, |ms|).value)
            && Stamped(cat, d, commit, AllChanges(relations, keys, ms, |ms|).value, ApplyAll(cat, d, events).value)
  {
    CatalogDescribes(cat, identity, relations, keys);
    TransactionSquare(cat, relations, keys, src, stmts, ms, |ms|, commit);
    EventsFromStart(commit, AllChanges(relations, keys, ms, |ms|).value);
    SquareApplies(cat, src, ExecuteAll(cat, src, stmts, |ms|).value, commit,
      AllChanges(relations, keys, ms, |ms|).value, d);
  }

  lemma {:induction false} BeforeIsInStep(cat: Catalog, d: Db, src: Source, commit: Committed, changes: seq<Change>)
    requires Before(cat, d, src, commit)
    ensures InStep(cat, EventsOf(commit, changes), States(src, EventsOf(commit, changes)), d)
  {
  }
}
