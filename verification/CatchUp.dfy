/**
  The pipeline on a destination that starts from a snapshot instead of an empty log: it may
  show rows from the future for a while, and catches up with a source prefix for good.
*/
module CatchUp {
  import opened Wrappers
  import opened Cdc
  import opened Destination
  import opened Consistency
  import opened Convergence
  import opened Handover
  import opened Healing
  import opened Quarantine
  import opened Snapshot
  import opened Transactions
  import P = Pipeline

  lemma {:induction false} PrefixExtends(txs: seq<Tx>, m: nat, n: nat)
    requires m <= n <= |txs|
    ensures Prefix(txs, m) <= Prefix(txs, n)
  {
    if m < n {
      PrefixExtends(txs, m, n - 1);
    }
  }

  lemma {:induction false} StatesPrefix(src: Source, log: seq<Event>, more: seq<Event>, i: nat)
    requires i <= |log|
    ensures States(src, log + more)[i] == States(src, log)[i]
  {
    if more == [] {
      assert log + more == log;
    } else {
      var init := more[..|more| - 1];
      assert (log + more)[..|log + more| - 1] == log + init;
      StatesPrefix(src, log, init, i);
    }
  }

  /** All events of the source's transactions, and the states they take the source through. */
  function Log(txs: seq<Tx>): seq<Event> {
    Prefix(txs, |txs|)
  }

  function SourceHistory(txs: seq<Tx>, src: Source): (r: seq<Source>)
    ensures |r| == |Log(txs)| + 1
  {
    States(src, Log(txs))
  }

  /** Between two transactions the history shows the source's own states. */
  lemma {:induction false} HistoryAt(cat: Catalog, txs: seq<Tx>, srcs: seq<Source>, n: nat)
    requires Sourced(cat, txs, srcs) && n <= |txs|
    ensures |Prefix(txs, n)| <= |Log(txs)| && SourceHistory(txs, srcs[0])[|Prefix(txs, n)|] == srcs[n]
  {
    var log, all := Prefix(txs, n), Log(txs);
    PrefixExtends(txs, n, |txs|);
    assert all == log + all[|log|..];
    StatesPrefix(srcs[0], log, all[|log|..], |log|);
    PrefixSquare(cat, txs, srcs, n);
  }

  /** Entries captured within a prefix of the log are captured for that prefix as well. */
  lemma {:induction false} CapturedWithin(cat: Catalog, src: Source, log: seq<Event>, more: seq<Event>,
      at: (TableName, Row) -> nat, d: Db)
    requires Captured(cat, log + more, States(src, log + more), at, 0, d)
    requires forall n, k | n in cat :: at(n, k) <= |log|
    ensures Captured(cat, log, States(src, log), at, 0, d)
  {
    var all := log + more;
    forall j | 0 <= j < |log| ensures log[j].id !in d.markers && NotStale(d, log[j]) {
      assert all[j] == log[j];
    }
    forall n, k | n in cat
      ensures Cols(Entry(d, n, k)) == SourceEntry(States(src, log)[at(n, k)], n, k) &&
              StampedBefore(log, Entry(d, n, k), at(n, k))
    {
      StatesPrefix(src, log, more, at(n, k));
      assert StampedBefore(all, Entry(d, n, k), at(n, k));
      forall j | 0 <= j < |log| ensures all[j] == log[j] {
      }
    }
  }

  /** The snapshot, taken into empty tables between two transactions, after the first `s`. */
  predicate SnapshotAt(cat: Catalog, txs: seq<Tx>, srcs: seq<Source>, s: nat, db: Db, view: SourceView,
      tables: seq<TableName>, l: Lsn, time: int, d: Db)
    requires |srcs| == |txs| + 1 && s <= |txs|
  {
    && |Prefix(txs, s)| <= |Log(txs)|
    && Taken(cat, Log(txs), SourceHistory(txs, srcs[0]), 0, |Prefix(txs, s)|, view, tables, l)
    && Unseen(db, Log(txs), 0) && (forall n | n in cat :: Rows(db, n) == map[])
    && CopyTables(cat, db, view, tables, l, time, 0) == Ok(d)
  }

  lemma {:induction false} SnapshotIsCaptured(cat: Catalog, txs: seq<Tx>, srcs: seq<Source>, s: nat, db: Db,
      view: SourceView, tables: seq<TableName>, l: Lsn, time: int, d: Db)
    requires TxsOk(txs) && Sourced(cat, txs, srcs) && s <= |txs|
    requires SnapshotAt(cat, txs, srcs, s, db, view, tables, l, time, d)
    ensures Captured(cat, Log(txs), SourceHistory(txs, srcs[0]), Always(|Prefix(txs, s)|), 0, d)
  {
    var log, hist, n := Log(txs), SourceHistory(txs, srcs[0]), |Prefix(txs, s)|;
    PrefixLogOk(cat, txs, srcs, |txs|);
    FirstSnapshotCaptures(cat, log, hist, 0, n, db, view, tables, l, time);
    assert forall m, k :: NextAt(Always(n), db, hist[n], l, n)(m, k) == Always(n)(m, k);
  }

  /** A destination captured within the first `s` transactions carries any `n >= s` of them to the source after them. */
  lemma {:induction false} CaughtUp(cat: Catalog, txs: seq<Tx>, srcs: seq<Source>, d: Db, at: (TableName, Row) -> nat,
      s: nat, n: nat)
    requires TxsOk(txs) && Sourced(cat, txs, srcs) && s <= n <= |txs|
    requires Captured(cat, Log(txs), SourceHistory(txs, srcs[0]), at, 0, d)
    requires forall m, k | m in cat :: at(m, k) <= |Prefix(txs, s)|
    ensures Mirrors(cat, Replica(cat, txs, d, n), srcs[n])
  {
    var log, all := Prefix(txs, n), Log(txs);
    PrefixExtends(txs, s, n);
    PrefixExtends(txs, n, |txs|);
    assert all == log + all[|log|..];
    CapturedWithin(cat, srcs[0], log, all[|log|..], at, d);
    PrefixSquare(cat, txs, srcs, n);
    PrefixLogOk(cat, txs, srcs, n);
    assert log[0..] == log;
    HealedReplayConverges(cat, log, States(srcs[0], log), at, 0, d);
  }

  lemma {:induction false} SourcedIsSound(cat: Catalog, txs: seq<Tx>, srcs: seq<Source>)
    requires Sourced(cat, txs, srcs)
    ensures SoundTxs(cat, txs)
  {
    forall j | 0 <= j < |txs| ensures AllSound(cat, TxEvents(txs[j])) {
      var tx := txs[j];
      GenuineStates(cat, srcs[j], TxEvents(tx));
    }
  }

  lemma {:induction false} CapturedIsSound(cat: Catalog, txs: seq<Tx>, srcs: seq<Source>, at: (TableName, Row) -> nat,
      d: Db)
    requires TxsOk(txs) && Sourced(cat, txs, srcs)
    requires Captured(cat, Log(txs), SourceHistory(txs, srcs[0]), at, 0, d)
    ensures Sound(cat, d)
  {
    PrefixLogOk(cat, txs, srcs, |txs|);
    PrefixSquare(cat, txs, srcs, |txs|);
    CapturedCarryInv(cat, Log(txs), SourceHistory(txs, srcs[0]), at, 0, d);
    EntriesFitDb(cat, d);
  }

  /**
    End to end from a snapshot. Whatever is quarantined on the way, once the applied prefix has
    reached the transactions the snapshot shows, the destination's rows are the source's rows
    after that whole-transaction prefix: whenever a group has just been closed, and outside of
    a healing always where none breaks. A healing may break before its poison, and after it
    while the row that the poison lacks is absent.
  */
  lemma {:induction false} SnapshotDestinationCatchesUp(
      cat: Catalog, txs: seq<Tx>, srcs: seq<Source>, s: nat, db: Db, view: SourceView, tables: seq<TableName>,
      l: Lsn, time: int, d: Db, states: seq<P.State>, steps: seq<P.Step>, i: nat)
    requires TxsOk(txs) && Sourced(cat, txs, srcs) && s <= |txs|
    requires SnapshotAt(cat, txs, srcs, s, db, view, tables, l, time, d)
    requires P.Run(cat, txs, d, states, steps) && AllDecided(cat, states, steps) && AllRowsAbsent(states, steps)
    requires i < |states| && s <= states[i].done && !IsHealing(states[i].writer)
    requires Unbroken(states, steps) || IsCommitting(states[i].writer)
    ensures states[i].done < |srcs| && Mirrors(cat, states[i].writer.db, srcs[states[i].done])
  {
    var at := Always(|Prefix(txs, s)|);
    SnapshotIsCaptured(cat, txs, srcs, s, db, view, tables, l, time, d);
    SourcedIsSound(cat, txs, srcs);
    CapturedIsSound(cat, txs, srcs, at, d);
    SoundPrefixIsCarried(cat, txs, d, states, steps, i);
    CaughtUp(cat, txs, srcs, d, at, s, states[i].done);
  }

  /** Such a start meets no poison just when the snapshot shows every row that an update needs first of all. */
  lemma {:induction false} SnapshotIsPoisonFreeExactlyWhen(
      cat: Catalog, txs: seq<Tx>, srcs: seq<Source>, s: nat, db: Db, view: SourceView, tables: seq<TableName>,
      l: Lsn, time: int, d: Db)
    requires TxsOk(txs) && Sourced(cat, txs, srcs) && s <= |txs|
    requires SnapshotAt(cat, txs, srcs, s, db, view, tables, l, time, d)
    ensures PoisonFree(cat, txs, d) <==> RowsAreIn(cat, Log(txs), 0, srcs[s])
  {
    var log := Log(txs);
    PrefixLogOk(cat, txs, srcs, |txs|);
    PrefixSquare(cat, txs, srcs, |txs|);
    HistoryAt(cat, txs, srcs, s);
    assert log[0..] == log;
    SnapshotThenReplay(cat, log, SourceHistory(txs, srcs[0]), 0, |Prefix(txs, s)|, db, view, tables, l, time, d);
  }

  /** Then the same holds in every state of every run, wherever it crashes. */
  lemma {:induction false} SnapshotWithoutPoisonCatchesUp(
      cat: Catalog, txs: seq<Tx>, srcs: seq<Source>, s: nat, db: Db, view: SourceView, tables: seq<TableName>,
      l: Lsn, time: int, d: Db, states: seq<P.State>, steps: seq<P.Step>, i: nat)
    requires TxsOk(txs) && Sourced(cat, txs, srcs) && s <= |txs|
    requires SnapshotAt(cat, txs, srcs, s, db, view, tables, l, time, d) && RowsAreIn(cat, Log(txs), 0, srcs[s])
    requires P.Run(cat, txs, d, states, steps) && AllDecided(cat, states, steps)
    requires i < |states| && s <= states[i].done
    ensures states[i].done < |srcs| && Mirrors(cat, states[i].writer.db, srcs[states[i].done])
    ensures states[i].writer.db.letters == d.letters
  {
    SnapshotIsPoisonFreeExactlyWhen(cat, txs, srcs, s, db, view, tables, l, time, d);
    PrefixConsistency(cat, txs, d, states, steps, i);
    SnapshotIsCaptured(cat, txs, srcs, s, db, view, tables, l, time, d);
    CaughtUp(cat, txs, srcs, d, Always(|Prefix(txs, s)|), s, states[i].done);
    PrefixApplies(cat, txs, d, states[i].done);
  }
}
