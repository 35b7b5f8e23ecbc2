/**
  What the destination holds in every state of every run of the pipeline: the events of a
  whole number of source transactions, each applied or quarantined in its place.
*/
module Consistency {
  import opened Wrappers
  import opened Cdc
  import opened Destination
  import opened Applier
  import opened Convergence
  import opened Failures
  import opened Healing
  import opened Quarantine
  import opened Transactions
  import opened Writer
  import P = Pipeline
  import R = Reader
  import W = WriterRuns
  import Batch
  import Lockstep
  import Replay

  /** The destination after the first `n` transactions, each event applied or quarantined in its place. */
  function Replica(cat: Catalog, txs: seq<Tx>, db: Db, n: nat): Db
    requires n <= |txs|
  {
    Carried(cat, db, Prefix(txs, n))
  }

  predicate IsHealing(w: W.State) {
    w.life.Up? && w.life.phase.Healing?
  }

  /** The writer is healing its group on the database `start`. */
  predicate HealedSoFar(cat: Catalog, start: Db, w: W.State)
    requires IsHealing(w)
  {
    && w.life.group.Some? && w.life.phase.i <= |W.Events(w)| && w.life.phase.poison < |W.Events(w)|
    && var es, i, k := W.Events(w), w.life.phase.i, w.life.phase.poison;
       && Reports(cat, start, es, BatchError(k, es[k]))
       && HealUpTo(cat, start, es, es[k].id, i) == Healed(w.db, true)
  }

  /** Offsets and committed groups stay within the first `done` transactions. */
  predicate Within(records: seq<R.Record>, w: W.State, done: nat) {
    && w.offset <= |records| && (forall p | 0 <= p < w.offset :: records[p].tx < done)
    && (w.life.Up? && w.life.phase == W.Committing ==> w.offset < |records| && records[w.offset].tx < done)
  }

  /** The transaction the committed offset stands at leaves the same database from `d` as from `base`. */
  predicate Completes(cat: Catalog, txs: seq<Tx>, records: seq<R.Record>, offset: nat, base: Db, d: Db) {
    && offset < |records| && records[offset].tx < |txs|
    && var es := TxEvents(txs[records[offset].tx]);
       Carried(cat, d, es) == Carried(cat, base, es)
  }

  /** The database is `base`, or, unless `whole`, part of the next transaction on top of it. */
  predicate OnTrack(cat: Catalog, txs: seq<Tx>, records: seq<R.Record>, offset: nat, whole: bool, base: Db, d: Db) {
    d == base || (!whole && Completes(cat, txs, records, offset, base, d))
  }

  predicate Holds(cat: Catalog, txs: seq<Tx>, whole: bool, base: Db, s: P.State) {
    var records, w := s.reader.log, s.writer;
    if IsHealing(w) then OnTrack(cat, txs, records, w.offset, whole, base, s.start) && HealedSoFar(cat, s.start, w)
    else if w.life.Up? && w.life.phase == W.Committing then w.db == base
    else OnTrack(cat, txs, records, w.offset, whole, base, w.db)
  }

  /** The database is on track from the replica of `done` transactions, or the next group is being healed. */
  predicate Applied(cat: Catalog, txs: seq<Tx>, db: Db, whole: bool, s: P.State) {
    && s.done <= |txs| && Within(s.reader.log, s.writer, s.done)
    && Holds(cat, txs, whole, Replica(cat, txs, db, s.done), s)
  }

  // ---- prefixes -----------------------------------------------------------------------------------------

  lemma {:induction false} PrefixSplit(txs: seq<Tx>, j: nat, n: nat) returns (rest: seq<Event>)
    requires j < n <= |txs|
    ensures Prefix(txs, n) == Prefix(txs, j) + TxEvents(txs[j]) + rest
  {
    if j == n - 1 {
      rest := [];
    } else {
      var init := PrefixSplit(txs, j, n - 1);
      rest := init + TxEvents(txs[n - 1]);
    }
  }

  lemma {:induction false} SkipEmpty(txs: seq<Tx>, m: nat, n: nat)
    requires m <= n <= |txs| && forall i | m <= i < n :: txs[i].changes == []
    ensures Prefix(txs, n) == Prefix(txs, m)
  {
    if m < n {
      SkipEmpty(txs, m, n - 1);
    }
  }

  /** A transaction that was carried before changes nothing, dead letters and misshapen events included. */
  lemma {:induction false} OldTransactionIsSkipped(cat: Catalog, txs: seq<Tx>, db: Db, j: nat, n: nat)
    requires j < n <= |txs|
    ensures Carried(cat, Replica(cat, txs, db, n), TxEvents(txs[j])) == Replica(cat, txs, db, n)
  {
    var rest := PrefixSplit(txs, j, n);
    CarriedAgain(cat, db, Prefix(txs, j), TxEvents(txs[j]), rest);
  }

  /** The next transaction extends the prefix; transactions without events in between do not matter. */
  lemma {:induction false} NewTransactionExtends(cat: Catalog, txs: seq<Tx>, db: Db, j: nat, n: nat)
    requires n <= j < |txs| && forall i | n <= i < j :: txs[i].changes == []
    ensures Carried(cat, Replica(cat, txs, db, n), TxEvents(txs[j])) == Replica(cat, txs, db, j + 1)
  {
    SkipEmpty(txs, n, j);
    CarriedAppend(cat, db, Prefix(txs, j), TxEvents(txs[j]));
  }

  lemma {:induction false} MatchedOccurs(records: seq<R.Record>, tx: nat, p: nat) returns (q: nat)
    requires p <= |records| && R.Matched(records, tx, p) > 0
    ensures q < p && records[q].tx == tx
  {
    if records[p - 1].tx == tx {
      q := p - 1;
    } else {
      q := MatchedOccurs(records, tx, p - 1);
    }
  }

  /** Whatever lies between the applied prefix and a transaction being delivered is empty. */
  lemma {:induction false} NothingIsMissed(txs: seq<Tx>, records: seq<R.Record>, offset: nat, done: nat, i: nat)
    requires done <= i < |txs| && offset < |records| && R.Complete(P.WalOf(txs), records, i, offset)
    requires forall p | 0 <= p < offset :: records[p].tx < done
    ensures txs[i].changes == []
  {
    if txs[i].changes != [] {
      var q := MatchedOccurs(records, i, offset);
    }
  }

  /** Any delivered transaction takes the replica of `done` transactions to that of `done` or more. */
  lemma {:induction false} TransactionCarries(cat: Catalog, txs: seq<Tx>, db: Db, records: seq<R.Record>,
      offset: nat, done: nat)
    requires offset < |records| && records[offset].tx < |txs| && done <= |txs|
    requires forall i | 0 <= i < records[offset].tx :: R.Complete(P.WalOf(txs), records, i, offset)
    requires forall p | 0 <= p < offset :: records[p].tx < done
    ensures var j := records[offset].tx;
            Carried(cat, Replica(cat, txs, db, done), TxEvents(txs[j])) == Replica(cat, txs, db, P.Max(done, j + 1))
  {
    var j := records[offset].tx;
    if j < done {
      OldTransactionIsSkipped(cat, txs, db, j, done);
    } else {
      forall i | done <= i < j ensures txs[i].changes == [] {
        NothingIsMissed(txs, records, offset, done, i);
      }
      NewTransactionExtends(cat, txs, db, j, done);
    }
  }

  lemma {:induction false} DeliveredCarries(cat: Catalog, txs: seq<Tx>, db: Db, records: seq<R.Record>, offset: nat,
      done: nat)
    requires R.LogOk(P.WalOf(txs), records) && offset < |records| && done <= |txs|
    requires forall p | 0 <= p < offset :: records[p].tx < done
    ensures records[offset].tx < |txs|
    ensures var j := records[offset].tx;
            Carried(cat, Replica(cat, txs, db, done), TxEvents(txs[j])) == Replica(cat, txs, db, P.Max(done, j + 1))
  {
    EarlierAreComplete(txs, records, offset);
    TransactionCarries(cat, txs, db, records, offset, done);
  }

  /** The group being closed is a transaction, all of whose events have ids of their own. */
  lemma {:induction false} GroupIsTransaction(txs: seq<Tx>, r: R.State, w: W.State)
    requires TxsOk(txs) && P.Linked(txs, r, w)
    requires w.life.Up? && w.life.group.Some? && w.life.phase != W.Polling
    ensures w.offset < |r.log| && r.log[w.offset].tx < |txs|
    ensures W.Events(w) == TxEvents(txs[r.log[w.offset].tx]) && DistinctIds(W.Events(w))
  {
    P.ClosingIsTransaction(txs, r.log, w);
    var tx := txs[r.log[w.offset].tx];
    Lockstep.IdsOfOneTransaction(tx.commit, tx.changes);
  }

  /** The group being closed takes the replica to the one after its transaction. */
  lemma {:induction false} GroupCarries(cat: Catalog, txs: seq<Tx>, db: Db, s: P.State)
    requires TxsOk(txs) && P.Linked(txs, s.reader, s.writer) && s.done <= |txs|
    requires Within(s.reader.log, s.writer, s.done)
    requires s.writer.life.Up? && s.writer.life.group.Some? && s.writer.life.phase != W.Polling
    ensures s.writer.offset < |s.reader.log| && s.reader.log[s.writer.offset].tx < |txs|
    ensures DistinctIds(W.Events(s.writer))
    ensures Carried(cat, Replica(cat, txs, db, s.done), W.Events(s.writer)) ==
            Replica(cat, txs, db, P.Max(s.done, s.reader.log[s.writer.offset].tx + 1))
  {
    GroupIsTransaction(txs, s.reader, s.writer);
    DeliveredCarries(cat, txs, db, s.reader.log, s.writer.offset, s.done);
  }

  lemma {:induction false} EarlierAreComplete(txs: seq<Tx>, records: seq<R.Record>, offset: nat)
    requires R.InRange(P.WalOf(txs), records) && R.GapFree(P.WalOf(txs), records) && offset < |records|
    ensures forall i | 0 <= i < records[offset].tx :: R.Complete(P.WalOf(txs), records, i, offset)
  {
  }

  // ---- every step keeps the database a replica --------------------------------------------------------------

  /** A group that is closed for good stands at the replica after its transaction. */
  lemma {:induction false} ClosedApplied(cat: Catalog, txs: seq<Tx>, db: Db, whole: bool, s: P.State, t: P.State)
    requires s.done <= |txs| && Within(s.reader.log, s.writer, s.done)
    requires s.writer.offset < |s.reader.log| && s.reader.log[s.writer.offset].tx < |txs|
    requires t.reader == s.reader && t.done == P.Max(s.done, s.reader.log[s.writer.offset].tx + 1)
    requires t.writer.offset == s.writer.offset && t.writer.life.Up? && t.writer.life.phase == W.Committing
    requires t.writer.db == Replica(cat, txs, db, t.done)
    ensures Applied(cat, txs, db, whole, t)
  {
  }

  /** From anything on track, the group being closed leads to the replica after its transaction. */
  lemma {:induction false} TrackCarries(cat: Catalog, txs: seq<Tx>, db: Db, whole: bool, s: P.State, d: Db)
    requires TxsOk(txs) && P.Linked(txs, s.reader, s.writer) && s.done <= |txs| &&
             Within(s.reader.log, s.writer, s.done)
    requires s.writer.life.Up? && s.writer.life.group.Some? && s.writer.life.phase != W.Polling
    requires OnTrack(cat, txs, s.reader.log, s.writer.offset, whole, Replica(cat, txs, db, s.done), d)
    ensures s.writer.offset < |s.reader.log| && s.reader.log[s.writer.offset].tx < |txs|
    ensures DistinctIds(W.Events(s.writer))
    ensures Carried(cat, d, W.Events(s.writer)) ==
            Replica(cat, txs, db, P.Max(s.done, s.reader.log[s.writer.offset].tx + 1))
  {
    GroupIsTransaction(txs, s.reader, s.writer);
    GroupCarries(cat, txs, db, s);
  }

  lemma {:induction false} CommitApplied(cat: Catalog, txs: seq<Tx>, db: Db, whole: bool, s: P.State)
    requires TxsOk(txs) && P.Linked(txs, s.reader, s.writer) && Applied(cat, txs, db, whole, s)
    requires P.Enabled(cat, txs, s, P.WriterStep(W.CommitBatch))
    ensures Applied(cat, txs, db, whole, P.After(cat, txs, s, P.WriterStep(W.CommitBatch)))
  {
    TrackCarries(cat, txs, db, whole, s, s.writer.db);
    CarriedIsFold(cat, s.writer.db, W.Events(s.writer));
    ClosedApplied(cat, txs, db, whole, s, P.After(cat, txs, s, P.WriterStep(W.CommitBatch)));
  }

  lemma {:induction false} QuarantineApplied(cat: Catalog, txs: seq<Tx>, db: Db, whole: bool, s: P.State)
    requires TxsOk(txs) && P.Linked(txs, s.reader, s.writer) && Applied(cat, txs, db, whole, s)
    requires P.Enabled(cat, txs, s, P.WriterStep(W.Quarantine))
    ensures Applied(cat, txs, db, whole, P.After(cat, txs, s, P.WriterStep(W.Quarantine)))
  {
    TrackCarries(cat, txs, db, whole, s, s.start);
    var es, k := W.Events(s.writer), s.writer.life.phase.poison;
    HealedGroupIsCarried(cat, s.start, es, k);
    ClosedApplied(cat, txs, db, whole, s, P.After(cat, txs, s, P.WriterStep(W.Quarantine)));
  }

  lemma {:induction false} FailApplied(cat: Catalog, txs: seq<Tx>, db: Db, whole: bool, s: P.State, w: W.Step)
    requires Applied(cat, txs, db, whole, s) && P.Enabled(cat, txs, s, P.WriterStep(w))
    requires w.FailBatch? && W.Decided(cat, s.writer, w)
    ensures Applied(cat, txs, db, whole, P.After(cat, txs, s, P.WriterStep(w)))
  {
  }

  lemma {:induction false} HealGoesOn(cat: Catalog, start: Db, w: W.State)
    requires IsHealing(w) && HealedSoFar(cat, start, w)
    requires W.Enabled(cat, w, W.HealNext) && W.After(cat, w, W.HealNext).life.Up?
    ensures var t := W.After(cat, w, W.HealNext);
            IsHealing(t) && HealedSoFar(cat, start, t) && t.offset == w.offset
  {
    var es, i, k := W.Events(w), w.life.phase.i, w.life.phase.poison;
    assert HealUpTo(cat, start, es, es[k].id, i + 1) == HealOne(cat, w.db, es[i], es[k].id);
  }

  lemma {:induction false} HealApplied(cat: Catalog, txs: seq<Tx>, db: Db, whole: bool, s: P.State)
    requires Applied(cat, txs, db, whole, s) && P.Enabled(cat, txs, s, P.WriterStep(W.HealNext))
    requires P.After(cat, txs, s, P.WriterStep(W.HealNext)).writer.life.Up?
    ensures Applied(cat, txs, db, whole, P.After(cat, txs, s, P.WriterStep(W.HealNext)))
  {
    HealGoesOn(cat, s.start, s.writer);
  }

  /** The poison still fails on what the healing has left so far, or the healing has not gone past it. */
  predicate Mends(cat: Catalog, w: W.State) {
    && IsHealing(w) && w.life.group.Some? && w.life.phase.poison < |W.Events(w)|
    && (w.life.phase.i <= w.life.phase.poison || ApplyInTx(cat, w.db, W.Events(w)[w.life.phase.poison]).Err?)
  }

  /** What a broken healing leaves is on track, where the next delivery of the group mends it. */
  lemma {:induction false} BrokenIsOnTrack(cat: Catalog, txs: seq<Tx>, db: Db, s: P.State)
    requires TxsOk(txs) && P.Linked(txs, s.reader, s.writer) && Applied(cat, txs, db, false, s) && Mends(cat, s.writer)
    ensures OnTrack(cat, txs, s.reader.log, s.writer.offset, false, Replica(cat, txs, db, s.done), s.writer.db)
  {
    var es, i, k := W.Events(s.writer), s.writer.life.phase.i, s.writer.life.phase.poison;
    GroupIsTransaction(txs, s.reader, s.writer);
    BrokenHealingIsMended(cat, s.start, es, k, i);
  }

  lemma {:induction false} BreakChangesNothing(cat: Catalog, w: W.State, step: W.Step)
    requires IsHealing(w) && W.Enabled(cat, w, step) && (step.Crash? || step.HealNext?) &&
             !W.After(cat, w, step).life.Up?
    ensures W.After(cat, w, step) == w.(life := W.Down)
  {
    if step.HealNext? {
      assert !HealOne(cat, w.db, W.Turn(w), W.Poison(w).id).ok;
    }
  }

  lemma {:induction false} DownApplied(cat: Catalog, txs: seq<Tx>, db: Db, s: P.State, t: P.State)
    requires s.done <= |txs| && Within(s.reader.log, s.writer, s.done)
    requires OnTrack(cat, txs, s.reader.log, s.writer.offset, false, Replica(cat, txs, db, s.done), s.writer.db)
    requires t.reader == s.reader && t.done == s.done && t.writer == s.writer.(life := W.Down)
    ensures Applied(cat, txs, db, false, t)
  {
  }

  lemma {:induction false} BreakApplied(cat: Catalog, txs: seq<Tx>, db: Db, s: P.State, w: W.Step)
    requires TxsOk(txs) && P.Linked(txs, s.reader, s.writer) && Applied(cat, txs, db, false, s) && Mends(cat, s.writer)
    requires P.Enabled(cat, txs, s, P.WriterStep(w)) && (w.Crash? || w.HealNext?)
    requires !P.After(cat, txs, s, P.WriterStep(w)).writer.life.Up?
    ensures Applied(cat, txs, db, false, P.After(cat, txs, s, P.WriterStep(w)))
  {
    BrokenIsOnTrack(cat, txs, db, s);
    BreakChangesNothing(cat, s.writer, w);
    var t := P.After(cat, txs, s, P.WriterStep(w));
    DownApplied(cat, txs, db, s, t);
  }

  lemma {:induction false} ReaderApplied(cat: Catalog, txs: seq<Tx>, db: Db, whole: bool, s: P.State, r: R.Step)
    requires Applied(cat, txs, db, whole, s) && P.Enabled(cat, txs, s, P.ReaderStep(r))
    ensures Applied(cat, txs, db, whole, P.After(cat, txs, s, P.ReaderStep(r)))
  {
    R.LogOnlyGrows(P.WalOf(txs), s.reader, r);
    var t := P.After(cat, txs, s, P.ReaderStep(r));
    WithinLonger(s.reader.log, t.reader.log, s.writer, s.done);
  }

  lemma {:induction false} WithinLonger(records: seq<R.Record>, longer: seq<R.Record>, w: W.State, done: nat)
    requires records <= longer && Within(records, w, done)
    ensures Within(longer, w, done)
    ensures w.offset < |records| ==> longer[w.offset] == records[w.offset]
  {
    forall p | 0 <= p < |records| ensures longer[p] == records[p] {
    }
  }

  /** The offset moves over one transaction, which has been applied. */
  lemma {:induction false} OffsetKeeps(txs: seq<Tx>, records: seq<R.Record>, w: W.State, done: nat)
    requires R.InRange(P.WalOf(txs), records) && R.Adjacent(records) && P.Carries(txs, records, w.log)
    requires W.Structured(w) && W.Holds(w, W.Committing)
    requires records[w.offset].tx < done
    requires forall p | 0 <= p < w.offset :: records[p].tx < done
    ensures forall p | 0 <= p < w.life.position :: records[p].tx < done
  {
    forall p | w.offset <= p < w.life.position ensures records[p].tx < done {
      P.RunOfRecords(txs, records, w.log, w.offset, w.life.position, p - w.offset);
    }
  }

  lemma {:induction false} OffsetApplied(cat: Catalog, txs: seq<Tx>, db: Db, whole: bool, s: P.State)
    requires P.Linked(txs, s.reader, s.writer) && Applied(cat, txs, db, whole, s)
    requires P.Enabled(cat, txs, s, P.WriterStep(W.CommitOffset))
    ensures Applied(cat, txs, db, whole, P.After(cat, txs, s, P.WriterStep(W.CommitOffset)))
  {
    OffsetKeeps(txs, s.reader.log, s.writer, s.done);
  }

  lemma {:induction false} OtherApplied(cat: Catalog, txs: seq<Tx>, db: Db, whole: bool, s: P.State, w: W.Step)
    requires Applied(cat, txs, db, whole, s) && P.Enabled(cat, txs, s, P.WriterStep(w)) && !IsHealing(s.writer)
    requires w.Poll? || w.Restart? || w.Crash?
    ensures Applied(cat, txs, db, whole, P.After(cat, txs, s, P.WriterStep(w)))
  {
  }

  /** Where a healing breaks, it mends; and nothing breaks if the database is to stay whole. */
  predicate Tame(cat: Catalog, whole: bool, w: W.State, after: W.State) {
    IsHealing(w) && !after.life.Up? ==> !whole && Mends(cat, w)
  }

  lemma {:induction false} WriterApplied(cat: Catalog, txs: seq<Tx>, db: Db, whole: bool, s: P.State, w: W.Step)
    requires TxsOk(txs) && P.Linked(txs, s.reader, s.writer) && Applied(cat, txs, db, whole, s)
    requires P.Enabled(cat, txs, s, P.WriterStep(w)) && W.Decided(cat, s.writer, w)
    requires Tame(cat, whole, s.writer, P.After(cat, txs, s, P.WriterStep(w)).writer)
    ensures Applied(cat, txs, db, whole, P.After(cat, txs, s, P.WriterStep(w)))
  {
    if IsHealing(s.writer) && !P.After(cat, txs, s, P.WriterStep(w)).writer.life.Up? {
      BreakApplied(cat, txs, db, s, w);
    } else {
      match w
      case CommitBatch => CommitApplied(cat, txs, db, whole, s);
      case Quarantine => QuarantineApplied(cat, txs, db, whole, s);
      case CommitOffset => OffsetApplied(cat, txs, db, whole, s);
      case FailBatch(_) => FailApplied(cat, txs, db, whole, s, w);
      case HealNext => HealApplied(cat, txs, db, whole, s);
      case _ => OtherApplied(cat, txs, db, whole, s, w);
    }
  }

  lemma {:induction false} StepApplied(cat: Catalog, txs: seq<Tx>, db: Db, whole: bool, s: P.State, step: P.Step)
    requires TxsOk(txs) && P.Linked(txs, s.reader, s.writer) && Applied(cat, txs, db, whole, s)
    requires P.Enabled(cat, txs, s, step) && (step.WriterStep? ==> W.Decided(cat, s.writer, step.w))
    requires Tame(cat, whole, s.writer, P.After(cat, txs, s, step).writer)
    ensures Applied(cat, txs, db, whole, P.After(cat, txs, s, step))
  {
    match step
    case ReaderStep(r) => ReaderApplied(cat, txs, db, whole, s, r);
    case WriterStep(w) => WriterApplied(cat, txs, db, whole, s, w);
  }

  // ---- whole runs --------------------------------------------------------------------------------------------

  /** No statement fails for reasons of its own; a crash may still come anywhere. */
  predicate AllDecided(cat: Catalog, states: seq<P.State>, steps: seq<P.Step>)
    requires |states| == |steps| + 1
  {
    forall i {:trigger steps[i]} | 0 <= i < |steps| ::
      steps[i].WriterStep? ==> W.Decided(cat, states[i].writer, steps[i].w)
  }

  ghost predicate AllTame(cat: Catalog, whole: bool, states: seq<P.State>, steps: seq<P.Step>)
    requires |states| == |steps| + 1
  {
    forall i {:trigger steps[i]} | 0 <= i < |steps| :: Tame(cat, whole, states[i].writer, states[i + 1].writer)
  }

  /** Every healing that starts goes on to its end. */
  predicate Unbroken(states: seq<P.State>, steps: seq<P.Step>)
    requires |states| == |steps| + 1
  {
    forall i {:trigger steps[i]} | 0 <= i < |steps| && IsHealing(states[i].writer) :: states[i + 1].writer.life.Up?
  }

  /** A healing may break, but only where the next delivery of its group mends it. */
  predicate AllMended(cat: Catalog, states: seq<P.State>, steps: seq<P.Step>)
    requires |states| == |steps| + 1
  {
    forall i {:trigger steps[i]} | 0 <= i < |steps| && IsHealing(states[i].writer) && !states[i + 1].writer.life.Up? ::
      Mends(cat, states[i].writer)
  }

  lemma {:induction false} StartApplied(cat: Catalog, txs: seq<Tx>, db: Db, whole: bool, s: P.State)
    requires P.Init(txs, db, s)
    ensures Applied(cat, txs, db, whole, s)
  {
    assert Prefix(txs, 0) == [];
  }

  lemma {:induction false} RunStep(cat: Catalog, txs: seq<Tx>, db: Db, whole: bool, states: seq<P.State>,
      steps: seq<P.Step>, k: nat)
    requires TxsOk(txs) && P.Run(cat, txs, db, states, steps) && AllDecided(cat, states, steps) && k < |steps|
    requires Applied(cat, txs, db, whole, states[k]) && Tame(cat, whole, states[k].writer, states[k + 1].writer)
    ensures Applied(cat, txs, db, whole, states[k + 1])
  {
    P.RunLinked(cat, txs, db, states, steps, k);
    var s, step := states[k], steps[k];
    assert states[k + 1] == P.After(cat, txs, s, step);
    StepApplied(cat, txs, db, whole, s, step);
  }

  lemma {:induction false} RunApplied(cat: Catalog, txs: seq<Tx>, db: Db, whole: bool, states: seq<P.State>,
      steps: seq<P.Step>, i: nat)
    requires TxsOk(txs) && P.Run(cat, txs, db, states, steps) && AllDecided(cat, states, steps)
    requires AllTame(cat, whole, states, steps) && i < |states|
    ensures Applied(cat, txs, db, whole, states[i])
  {
    if i == 0 {
      StartApplied(cat, txs, db, whole, states[0]);
    } else {
      var k := i - 1;
      RunApplied(cat, txs, db, whole, states, steps, k);
      var step := steps[k];
      RunStep(cat, txs, db, whole, states, steps, k);
    }
  }

  lemma {:induction false} RecordInPrefix(txs: seq<Tx>, r: R.Record, n: nat)
    requires r.tx < n <= |txs| && 1 <= r.sequence <= |txs[r.tx].changes|
    ensures P.EventAt(txs, r).id in Ids(Prefix(txs, n))
  {
    var rest := PrefixSplit(txs, r.tx, n);
    assert Prefix(txs, n)[|Prefix(txs, r.tx)| + r.sequence - 1] == P.EventAt(txs, r);
  }

  /**
    The database is that of the first `n` transactions, each event applied or quarantined in
    its place: it marks exactly those events, and its dead letters are the old ones and those
    of the events that fail in their place.
  */
  predicate IsPrefix(cat: Catalog, txs: seq<Tx>, db: Db, n: nat, d: Db)
    requires n <= |txs|
  {
    var es := Prefix(txs, n);
    && d == Carried(cat, db, es)
    && d.markers.Keys == db.markers.Keys + Ids(es)
    && forall p | 0 <= p < |es| ::
         es[p].id in d.letters <==> es[p].id in db.letters || InPlace(cat, db, es, p).Err?
  }

  lemma {:induction false} ReplicaIsPrefix(cat: Catalog, txs: seq<Tx>, db: Db, n: nat)
    requires TxsOk(txs) && n <= |txs|
    ensures IsPrefix(cat, txs, db, n, Replica(cat, txs, db, n))
  {
    var es := Prefix(txs, n);
    CarriedMarks(cat, db, es);
    IdsDiffer(txs, n);
    forall p | 0 <= p < |es|
      ensures es[p].id in Carried(cat, db, es).letters <==> es[p].id in db.letters || InPlace(cat, db, es, p).Err?
    {
      CarriedLetters(cat, db, es, |es|, p);
      assert es[..|es|] == es;
    }
  }

  predicate IsCommitting(w: W.State) {
    w.life.Up? && w.life.phase == W.Committing
  }

  lemma {:induction false} PrefixOfRun(cat: Catalog, txs: seq<Tx>, db: Db, whole: bool, states: seq<P.State>,
      steps: seq<P.Step>, i: nat)
    requires TxsOk(txs) && P.Run(cat, txs, db, states, steps) && AllDecided(cat, states, steps)
    requires AllTame(cat, whole, states, steps) && i < |states| && !IsHealing(states[i].writer)
    ensures states[i].done <= |txs|
    ensures var s, base := states[i], Replica(cat, txs, db, states[i].done);
            && (s.writer.db == base || Completes(cat, txs, s.reader.log, s.writer.offset, base, s.writer.db))
            && (whole || IsCommitting(s.writer) ==> s.writer.db == base)
    ensures var s := states[i];
            && s.writer.offset <= |s.writer.log| == |s.reader.log|
            && forall p | 0 <= p < s.writer.offset :: s.reader.log[p].tx < s.done
  {
    RunApplied(cat, txs, db, whole, states, steps, i);
    P.RunLinked(cat, txs, db, states, steps, i);
  }

  lemma {:induction false} TamedRun(cat: Catalog, states: seq<P.State>, steps: seq<P.Step>)
    requires |states| == |steps| + 1 && AllMended(cat, states, steps)
    ensures AllTame(cat, Unbroken(states, steps), states, steps)
  {
    var whole := Unbroken(states, steps);
    forall i {:trigger states[i]} | 0 <= i < |steps|
      ensures Tame(cat, whole, states[i].writer, states[i + 1].writer)
    {
      var step := steps[i];
    }
  }

  /**
    Prefix consistency with poison, over every interleaving of reader, publisher and writer,
    with crashes, reconnects and failed produces anywhere, but inside a healing only where it
    mends. Outside of a healing the database is that of the events of a whole number of source
    transactions, each applied or quarantined in its place, or what a broken healing left of
    the next one on top of it, which its next delivery completes. When a group has just been
    closed, and always where no healing breaks, it is the first.
  */
  lemma {:induction false} PrefixIsCarried(cat: Catalog, txs: seq<Tx>, db: Db, states: seq<P.State>,
      steps: seq<P.Step>, i: nat)
    requires TxsOk(txs) && P.Run(cat, txs, db, states, steps) && AllDecided(cat, states, steps)
    requires AllMended(cat, states, steps) && i < |states| && !IsHealing(states[i].writer)
    ensures states[i].done <= |txs|
    ensures var s, base := states[i], Carried(cat, db, Prefix(txs, states[i].done));
            s.writer.db == base || Completes(cat, txs, s.reader.log, s.writer.offset, base, s.writer.db)
    ensures Unbroken(states, steps) || IsCommitting(states[i].writer) ==>
              IsPrefix(cat, txs, db, states[i].done, states[i].writer.db)
    ensures var s := states[i];
            && s.writer.offset <= |s.writer.log| == |s.reader.log|
            && forall p | 0 <= p < s.writer.offset :: s.reader.log[p].tx < s.done
  {
    var whole := Unbroken(states, steps);
    TamedRun(cat, states, steps);
    PrefixOfRun(cat, txs, db, whole, states, steps, i);
    ReplicaIsPrefix(cat, txs, db, states[i].done);
  }

  // ---- events that are in order ---------------------------------------------------------------------------------

  /** Every event is of an acceptable shape and fits its table. */
  predicate SoundTxs(cat: Catalog, txs: seq<Tx>) {
    CatalogOk(cat) && forall j | 0 <= j < |txs| :: AllSound(cat, TxEvents(txs[j]))
  }

  /** The healing has not gone past the poison, or has not brought back the row that the poison lacks. */
  predicate RowAbsent(w: W.State) {
    && IsHealing(w) && w.life.group.Some? && w.life.phase.poison < |W.Events(w)|
    && var poison := W.Events(w)[w.life.phase.poison];
       w.life.phase.i <= w.life.phase.poison || poison.key !in Rows(w.db, Name(poison))
  }

  /** A healing breaks only before its poison or while the row the poison lacks is absent. */
  predicate AllRowsAbsent(states: seq<P.State>, steps: seq<P.Step>)
    requires |states| == |steps| + 1
  {
    forall i {:trigger steps[i]} | 0 <= i < |steps| && IsHealing(states[i].writer) && !states[i + 1].writer.life.Up? ::
      RowAbsent(states[i].writer)
  }

  /** The reported event is still new, and an update that leaves a NOT NULL column unsaid. */
  predicate PoisonIsNew(cat: Catalog, w: W.State) {
    IsHealing(w) && w.life.group.Some? && w.life.phase.poison < |W.Events(w)| ==>
      var poison := W.Events(w)[w.life.phase.poison];
      poison.id !in w.db.markers && Name(poison) in cat && NeedsRow(cat[Name(poison)], poison)
  }

  predicate SoundWriter(cat: Catalog, w: W.State) {
    Sound(cat, w.db) && PoisonIsNew(cat, w)
  }

  lemma {:induction false} GroupIsSound(cat: Catalog, txs: seq<Tx>, r: R.State, w: W.State)
    requires TxsOk(txs) && SoundTxs(cat, txs) && P.Linked(txs, r, w) && w.life.Up? && w.life.group.Some?
    ensures AllSound(cat, W.Events(w))
  {
    forall m | 0 <= m < |W.Events(w)| ensures SoundEvent(cat, W.Events(w)[m]) {
      var record := r.log[w.offset + m];
      assert W.Events(w)[m] == w.log[w.offset + m] == P.EventAt(txs, record);
      assert AllSound(cat, TxEvents(txs[record.tx]));
    }
  }

  lemma {:induction false} SoundCommit(cat: Catalog, w: W.State)
    requires CatalogOk(cat) && SoundWriter(cat, w) && W.Enabled(cat, w, W.CommitBatch) && AllSound(cat, W.Events(w))
    ensures SoundWriter(cat, W.After(cat, w, W.CommitBatch))
  {
    CarriedIsFold(cat, w.db, W.Events(w));
    SoundCarried(cat, w.db, W.Events(w));
  }

  lemma {:induction false} SoundFail(cat: Catalog, w: W.State, step: W.Step)
    requires CatalogOk(cat) && SoundWriter(cat, w) && W.Enabled(cat, w, step) && step.FailBatch?
    requires W.Decided(cat, w, step) && AllSound(cat, W.Events(w))
    ensures SoundWriter(cat, W.After(cat, w, step))
  {
    assert SoundEvent(cat, W.Events(w)[step.index]);
    PoisonNeedsRow(cat, w.db, W.Events(w), step.index);
  }

  lemma {:induction false} SoundHeal(cat: Catalog, w: W.State)
    requires CatalogOk(cat) && SoundWriter(cat, w) && W.Enabled(cat, w, W.HealNext) && AllSound(cat, W.Events(w))
    ensures SoundWriter(cat, W.After(cat, w, W.HealNext))
  {
    SoundHealOne(cat, w.db, W.Turn(w), W.Poison(w).id);
    CarryMarks(cat, w.db, W.Turn(w));
  }

  lemma {:induction false} SoundQuarantine(cat: Catalog, w: W.State)
    requires SoundWriter(cat, w) && W.Enabled(cat, w, W.Quarantine)
    ensures SoundWriter(cat, W.After(cat, w, W.Quarantine))
  {
    SameRowsSound(cat, w.db, W.After(cat, w, W.Quarantine).db);
  }

  lemma {:induction false} SoundOther(cat: Catalog, w: W.State, step: W.Step)
    requires SoundWriter(cat, w) && W.Enabled(cat, w, step)
    requires step.Poll? || step.CommitOffset? || step.Crash? || step.Restart?
    ensures SoundWriter(cat, W.After(cat, w, step))
  {
  }

  lemma {:induction false} SoundWriterStep(cat: Catalog, w: W.State, step: W.Step)
    requires CatalogOk(cat) && SoundWriter(cat, w)
    requires W.Enabled(cat, w, step) && W.Decided(cat, w, step) && !step.Produce?
    requires w.life.Up? && w.life.group.Some? ==> AllSound(cat, W.Events(w))
    ensures SoundWriter(cat, W.After(cat, w, step))
  {
    match step
    case CommitBatch => SoundCommit(cat, w);
    case FailBatch(_) => SoundFail(cat, w, step);
    case HealNext => SoundHeal(cat, w);
    case Quarantine => SoundQuarantine(cat, w);
    case _ => SoundOther(cat, w, step);
  }

  lemma {:induction false} SoundStep(cat: Catalog, txs: seq<Tx>, s: P.State, step: P.Step)
    requires TxsOk(txs) && SoundTxs(cat, txs) && P.Linked(txs, s.reader, s.writer) && SoundWriter(cat, s.writer)
    requires P.Enabled(cat, txs, s, step) && (step.WriterStep? ==> W.Decided(cat, s.writer, step.w))
    ensures SoundWriter(cat, P.After(cat, txs, s, step).writer)
  {
    if s.writer.life.Up? && s.writer.life.group.Some? {
      GroupIsSound(cat, txs, s.reader, s.writer);
    }
    match step
    case ReaderStep(_) =>
    case WriterStep(w) => SoundWriterStep(cat, s.writer, w);
  }

  lemma {:induction false} SoundRun(cat: Catalog, txs: seq<Tx>, db: Db, states: seq<P.State>, steps: seq<P.Step>,
      i: nat)
    requires TxsOk(txs) && SoundTxs(cat, txs) && Sound(cat, db)
    requires P.Run(cat, txs, db, states, steps) && AllDecided(cat, states, steps) && i < |states|
    ensures SoundWriter(cat, states[i].writer)
  {
    if i > 0 {
      var k := i - 1;
      SoundRun(cat, txs, db, states, steps, k);
      P.RunLinked(cat, txs, db, states, steps, k);
      var s, step := states[k], steps[k];
      SoundStep(cat, txs, s, step);
    }
  }

  lemma {:induction false} PoisonFailsWhenAbsent(cat: Catalog, txs: seq<Tx>, r: R.State, w: W.State)
    requires TxsOk(txs) && SoundTxs(cat, txs) && P.Linked(txs, r, w) && SoundWriter(cat, w) && IsHealing(w)
    ensures Mends(cat, w) <==> RowAbsent(w)
  {
    GroupIsSound(cat, txs, r, w);
    var poison := W.Events(w)[w.life.phase.poison];
    assert SoundEvent(cat, poison);
    SoundFails(cat, w.db, poison);
  }

  /**
    On events that are in order a healing of a run is mended just when it had not gone past
    the poison, or the row that the poison lacks is still absent.
  */
  lemma {:induction false} MendsExactlyWhen(cat: Catalog, txs: seq<Tx>, db: Db, states: seq<P.State>,
      steps: seq<P.Step>, i: nat)
    requires TxsOk(txs) && SoundTxs(cat, txs) && Sound(cat, db)
    requires P.Run(cat, txs, db, states, steps) && AllDecided(cat, states, steps)
    requires i < |states| && IsHealing(states[i].writer)
    ensures Mends(cat, states[i].writer) <==> RowAbsent(states[i].writer)
  {
    SoundRun(cat, txs, db, states, steps, i);
    P.RunLinked(cat, txs, db, states, steps, i);
    PoisonFailsWhenAbsent(cat, txs, states[i].reader, states[i].writer);
  }

  lemma {:induction false} AllMend(cat: Catalog, txs: seq<Tx>, db: Db, states: seq<P.State>, steps: seq<P.Step>)
    requires TxsOk(txs) && SoundTxs(cat, txs) && Sound(cat, db)
    requires P.Run(cat, txs, db, states, steps) && AllDecided(cat, states, steps) && AllRowsAbsent(states, steps)
    ensures AllMended(cat, states, steps)
  {
    forall i {:trigger states[i]} | 0 <= i < |steps| && IsHealing(states[i].writer) && !states[i + 1].writer.life.Up?
      ensures Mends(cat, states[i].writer)
    {
      var step := steps[i];
      MendsExactlyWhen(cat, txs, db, states, steps, i);
    }
  }

  /** Prefix consistency with poison, for events that are in order. */
  lemma {:induction false} SoundPrefixIsCarried(cat: Catalog, txs: seq<Tx>, db: Db, states: seq<P.State>,
      steps: seq<P.Step>, i: nat)
    requires TxsOk(txs) && SoundTxs(cat, txs) && Sound(cat, db)
    requires P.Run(cat, txs, db, states, steps) && AllDecided(cat, states, steps) && AllRowsAbsent(states, steps)
    requires i < |states| && !IsHealing(states[i].writer)
    ensures states[i].done <= |txs|
    ensures var s, base := states[i], Carried(cat, db, Prefix(txs, states[i].done));
            s.writer.db == base || Completes(cat, txs, s.reader.log, s.writer.offset, base, s.writer.db)
    ensures Unbroken(states, steps) || IsCommitting(states[i].writer) ==>
              IsPrefix(cat, txs, db, states[i].done, states[i].writer.db)
  {
    AllMend(cat, txs, db, states, steps);
    PrefixIsCarried(cat, txs, db, states, steps, i);
  }

  // ---- without poison ------------------------------------------------------------------------------------------

  /** No event of the source, applied in its place, is poison. */
  predicate PoisonFree(cat: Catalog, txs: seq<Tx>, db: Db) {
    ApplyAll(cat, db, Prefix(txs, |txs|)).Ok?
  }

  lemma {:induction false} PrefixApplies(cat: Catalog, txs: seq<Tx>, db: Db, n: nat)
    requires n <= |txs| && PoisonFree(cat, txs, db)
    ensures ApplyAll(cat, db, Prefix(txs, n)) == Ok(Replica(cat, txs, db, n))
  {
    if n < |txs| {
      var rest := PrefixSplit(txs, n, |txs|);
      ApplyAllAppend(cat, db, Prefix(txs, n), TxEvents(txs[n]) + rest);
      assert Prefix(txs, n) + TxEvents(txs[n]) + rest == Prefix(txs, n) + (TxEvents(txs[n]) + rest);
    }
    CarriedIsFold(cat, db, Prefix(txs, n));
  }

  lemma {:induction false} OldApplies(cat: Catalog, txs: seq<Tx>, db: Db, j: nat, n: nat)
    requires PoisonFree(cat, txs, db) && j < n <= |txs|
    ensures ApplyAll(cat, Replica(cat, txs, db, n), TxEvents(txs[j])).Ok?
  {
    PrefixApplies(cat, txs, db, n);
    var rest := PrefixSplit(txs, j, n);
    Replay.CrashReplayIsNoOp(cat, db, Prefix(txs, j), TxEvents(txs[j]), rest);
  }

  lemma {:induction false} NewApplies(cat: Catalog, txs: seq<Tx>, db: Db, j: nat, n: nat)
    requires PoisonFree(cat, txs, db) && n <= j < |txs|
    requires forall i | n <= i < j :: txs[i].changes == []
    ensures ApplyAll(cat, Replica(cat, txs, db, n), TxEvents(txs[j])).Ok?
  {
    SkipEmpty(txs, n, j);
    PrefixApplies(cat, txs, db, n);
    PrefixApplies(cat, txs, db, j + 1);
    ApplyAllAppend(cat, db, Prefix(txs, j), TxEvents(txs[j]));
  }

  /** Without poison, the batch of the group being closed succeeds. */
  lemma {:induction false} GroupSucceeds(cat: Catalog, txs: seq<Tx>, db: Db, s: P.State)
    requires TxsOk(txs) && PoisonFree(cat, txs, db) && P.Linked(txs, s.reader, s.writer) &&
             Applied(cat, txs, db, true, s)
    requires W.Holds(s.writer, W.Closing)
    ensures ApplyAll(cat, s.writer.db, W.Events(s.writer)).Ok?
  {
    var records, offset := s.reader.log, s.writer.offset;
    GroupIsTransaction(txs, s.reader, s.writer);
    EarlierAreComplete(txs, records, offset);
    var j := records[offset].tx;
    if j < s.done {
      OldApplies(cat, txs, db, j, s.done);
    } else {
      forall i | s.done <= i < j ensures txs[i].changes == [] {
        NothingIsMissed(txs, records, offset, s.done, i);
      }
      NewApplies(cat, txs, db, j, s.done);
    }
  }

  lemma {:induction false} NothingFails(cat: Catalog, txs: seq<Tx>, db: Db, s: P.State, w: W.Step)
    requires TxsOk(txs) && PoisonFree(cat, txs, db) && P.Linked(txs, s.reader, s.writer) &&
             Applied(cat, txs, db, true, s)
    requires w.FailBatch?
    ensures !W.Decided(cat, s.writer, w)
  {
    if W.Holds(s.writer, W.Closing) {
      GroupSucceeds(cat, txs, db, s);
      var es := W.Events(s.writer);
      if w.index < |es| && ApplyAll(cat, s.writer.db, es[..w.index + 1]).Err? {
        Batch.PrefixFails(cat, s.writer.db, es, w.index + 1);
      }
    }
  }

  lemma {:induction false} OnlyFailuresHeal(cat: Catalog, w: W.State, step: W.Step)
    requires W.Enabled(cat, w, step) && !IsHealing(w) && !step.FailBatch?
    ensures !IsHealing(W.After(cat, w, step))
  {
  }

  lemma {:induction false} NoHealingStarts(cat: Catalog, txs: seq<Tx>, db: Db, s: P.State, step: P.Step)
    requires TxsOk(txs) && PoisonFree(cat, txs, db) && P.Linked(txs, s.reader, s.writer) &&
             Applied(cat, txs, db, true, s)
    requires P.Enabled(cat, txs, s, step) && (step.WriterStep? ==> W.Decided(cat, s.writer, step.w))
    requires !IsHealing(s.writer)
    ensures !IsHealing(P.After(cat, txs, s, step).writer)
  {
    match step
    case ReaderStep(r) =>
    case WriterStep(w) =>
      if w.FailBatch? {
        NothingFails(cat, txs, db, s, w);
      } else {
        OnlyFailuresHeal(cat, s.writer, w);
      }
  }

  lemma {:induction false} RunWithoutPoison(cat: Catalog, txs: seq<Tx>, db: Db, states: seq<P.State>,
      steps: seq<P.Step>, i: nat)
    requires TxsOk(txs) && PoisonFree(cat, txs, db) && P.Run(cat, txs, db, states, steps)
    requires AllDecided(cat, states, steps)
    requires i < |states|
    ensures Applied(cat, txs, db, true, states[i]) && !IsHealing(states[i].writer)
  {
    if i == 0 {
      StartApplied(cat, txs, db, true, states[0]);
    } else {
      var k := i - 1;
      RunWithoutPoison(cat, txs, db, states, steps, k);
      var s, step := states[k], steps[k];
      P.RunLinked(cat, txs, db, states, steps, k);
      NoHealingStarts(cat, txs, db, s, step);
      RunStep(cat, txs, db, true, states, steps, k);
    }
  }

  /**
    Prefix consistency. Over every interleaving of reader, publisher and writer steps, with
    crashes, reconnects and failed produces anywhere and no poison, the destination is the
    fold of a whole-transaction prefix of the source, its markers are the prefix's ids, the
    committed Kafka offset covers only records of that prefix, and no letter is ever written.
  */
  lemma {:induction false} PrefixConsistency(cat: Catalog, txs: seq<Tx>, db: Db, states: seq<P.State>,
      steps: seq<P.Step>, i: nat)
    requires TxsOk(txs) && PoisonFree(cat, txs, db) && P.Run(cat, txs, db, states, steps)
    requires AllDecided(cat, states, steps)
    requires i < |states|
    ensures var s := states[i];
            && s.done <= |txs|
            && ApplyAll(cat, db, Prefix(txs, s.done)) == Ok(s.writer.db)
            && s.writer.db.markers.Keys == db.markers.Keys + Ids(Prefix(txs, s.done))
            && s.writer.db.letters == db.letters
    ensures var s := states[i];
            && s.writer.offset <= |s.writer.log| == |s.reader.log|
            && forall p | 0 <= p < s.writer.offset ::
               s.reader.log[p].tx < s.done && s.writer.log[p].id in s.writer.db.markers
  {
    RunWithoutPoison(cat, txs, db, states, steps, i);
    P.RunLinked(cat, txs, db, states, steps, i);
    var s := states[i];
    PrefixApplies(cat, txs, db, s.done);
    Replay.FoldMarks(cat, db, Prefix(txs, s.done));
    forall p | 0 <= p < s.writer.offset ensures s.writer.log[p].id in s.writer.db.markers {
      RecordInPrefix(txs, s.reader.log[p], s.done);
    }
  }

  lemma {:induction false} DoneNeverShrinks(cat: Catalog, txs: seq<Tx>, db: Db, states: seq<P.State>,
      steps: seq<P.Step>, i: nat, j: nat)
    requires P.Run(cat, txs, db, states, steps) && i <= j < |states|
    ensures states[i].done <= states[j].done
  {
    if i < j {
      DoneNeverShrinks(cat, txs, db, states, steps, i, j - 1);
      assert states[j] == P.After(cat, txs, states[j - 1], steps[j - 1]);
    }
  }

  lemma {:induction false} SourcedIsPoisonFree(cat: Catalog, txs: seq<Tx>, srcs: seq<Source>, db: Db)
    requires TxsOk(txs) && Sourced(cat, txs, srcs) && Untouched(cat, txs, srcs[0], db)
    ensures PoisonFree(cat, txs, db)
  {
    PrefixMirrors(cat, txs, srcs, db, |txs|);
  }

  /**
    End to end. When the events mean what the source did and the destination starts equal to
    the source, then in every state of every run the destination's rows are the source's rows
    after a whole number of transactions, a number that never goes down.
  */
  lemma {:induction false} DestinationIsASourcePrefix(cat: Catalog, txs: seq<Tx>, srcs: seq<Source>, db: Db,
      states: seq<P.State>, steps: seq<P.Step>, i: nat, j: nat)
    requires TxsOk(txs) && Sourced(cat, txs, srcs) && Untouched(cat, txs, srcs[0], db)
    requires P.Run(cat, txs, db, states, steps) && AllDecided(cat, states, steps) && i <= j < |states|
    ensures states[i].done <= states[j].done < |srcs|
    ensures Mirrors(cat, states[j].writer.db, srcs[states[j].done])
  {
    SourcedIsPoisonFree(cat, txs, srcs, db);
    PrefixConsistency(cat, txs, db, states, steps, j);
    PrefixMirrors(cat, txs, srcs, db, states[j].done);
    DoneNeverShrinks(cat, txs, db, states, steps, i, j);
  }
}
