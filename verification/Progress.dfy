/**
  What the pipeline can always do: when nothing fails, every transaction goes through Kafka
  once and arrives.
*/
module Progress {
  import opened Wrappers
  import opened Cdc
  import opened Destination
  import opened Transactions
  import opened Pipeline
  import Convergence
  import R = Reader
  import W = WriterRuns

  /** A step at which something goes wrong, or that mends it. */
  predicate IsFailure(step: Step) {
    match step
    case ReaderStep(r) => R.IsFailure(r)
    case WriterStep(w) => !(w.Restart? || w.Poll? || w.CommitBatch? || w.CommitOffset?)
  }

  predicate NothingFails(steps: seq<Step>) {
    forall i | 0 <= i < |steps| :: !IsFailure(steps[i])
  }

  // ---- runs of one side as runs of both ------------------------------------------------------

  lemma {:induction false} RunFurther(cat: Catalog, txs: seq<Tx>, db: Db, states: seq<State>, steps: seq<Step>,
      step: Step)
    returns (longer: seq<State>, more: seq<Step>)
    requires Run(cat, txs, db, states, steps) && NothingFails(steps)
    requires Enabled(cat, txs, states[|steps|], step) && !IsFailure(step)
    ensures Run(cat, txs, db, longer, more) && NothingFails(more)
    ensures longer[0] == states[0] && |more| == |steps| + 1
    ensures longer[|more|] == After(cat, txs, states[|steps|], step)
  {
    longer, more := states + [After(cat, txs, states[|steps|], step)], steps + [step];
    forall i {:trigger more[i]} | 0 <= i < |more|
      ensures Enabled(cat, txs, longer[i], more[i]) && longer[i + 1] == After(cat, txs, longer[i], more[i])
    {
      assert i < |steps| ==> more[i] == steps[i];
    }
  }

  /** The reader goes on alone; the writer only sees the log grow. */
  lemma {:induction false} ReaderGoesOn(cat: Catalog, txs: seq<Tx>, db: Db, states: seq<State>, steps: seq<Step>,
      readers: seq<R.State>, rsteps: seq<R.Step>)
    returns (longer: seq<State>, more: seq<Step>)
    requires Run(cat, txs, db, states, steps) && NothingFails(steps) && R.Path(WalOf(txs), readers, rsteps)
    requires states[|steps|].reader == readers[0]
    ensures Run(cat, txs, db, longer, more) && NothingFails(more) && longer[0] == states[0]
    ensures longer[|more|].reader == readers[|rsteps|]
    ensures var w := states[|steps|].writer; longer[|more|].writer == w.(log := longer[|more|].writer.log)
  {
    longer, more := states, steps;
    for k := 0 to |rsteps|
      invariant Run(cat, txs, db, longer, more) && NothingFails(more) && longer[0] == states[0]
      invariant longer[|more|].reader == readers[k]
      invariant var w := states[|steps|].writer; longer[|more|].writer == w.(log := longer[|more|].writer.log)
    {
      assert R.Enabled(WalOf(txs), readers[k], rsteps[k]);
      longer, more := RunFurther(cat, txs, db, longer, more, ReaderStep(rsteps[k]));
    }
  }

  /** The writer goes on alone. */
  lemma {:induction false} WriterGoesOn(cat: Catalog, txs: seq<Tx>, db: Db, states: seq<State>, steps: seq<Step>,
      writers: seq<W.State>, wsteps: seq<W.Step>)
    returns (longer: seq<State>, more: seq<Step>)
    requires Run(cat, txs, db, states, steps) && NothingFails(steps) && W.Path(cat, writers, wsteps)
    requires states[|steps|].writer == writers[0]
    requires forall k | 0 <= k < |wsteps| :: !IsFailure(WriterStep(wsteps[k]))
    ensures Run(cat, txs, db, longer, more) && NothingFails(more) && longer[0] == states[0]
    ensures longer[|more|].writer == writers[|wsteps|] && longer[|more|].reader == states[|steps|].reader
  {
    longer, more := states, steps;
    for k := 0 to |wsteps|
      invariant Run(cat, txs, db, longer, more) && NothingFails(more) && longer[0] == states[0]
      invariant longer[|more|].writer == writers[k] && longer[|more|].reader == states[|steps|].reader
    {
      assert W.Enabled(cat, writers[k], wsteps[k]);
      longer, more := RunFurther(cat, txs, db, longer, more, WriterStep(wsteps[k]));
    }
  }

  // ---- a log without repetition ---------------------------------------------------------------

  /** How many records the first `n` transactions have. */
  function Length(txs: seq<Tx>, n: nat): nat
    requires n <= |txs|
  {
    if n == 0 then 0 else Length(txs, n - 1) + |txs[n - 1].changes|
  }

  lemma {:induction false} RecordsAre(wal: R.Wal, tx: nat, sequence: nat)
    requires tx < |wal| && 1 <= sequence <= wal[tx].count + 1
    ensures |R.RecordsOf(wal, tx, sequence)| == wal[tx].count + 1 - sequence
    ensures forall i | 0 <= i < |R.RecordsOf(wal, tx, sequence)| ::
              R.RecordsOf(wal, tx, sequence)[i] == R.Record(tx, sequence + i)
    decreases wal[tx].count + 1 - sequence
  {
    if sequence <= wal[tx].count {
      RecordsAre(wal, tx, sequence + 1);
    }
  }

  /** The records of a transaction start where those of the earlier ones end. */
  lemma {:induction false} SuffixAt(txs: seq<Tx>, n: nat)
    requires n <= |txs|
    ensures Length(txs, n) <= |R.RecordsFrom(WalOf(txs), 0)|
    ensures R.RecordsFrom(WalOf(txs), 0)[Length(txs, n)..] == R.RecordsFrom(WalOf(txs), n)
  {
    if n > 0 {
      var k, wal, records := n - 1, WalOf(txs), R.RecordsFrom(WalOf(txs), 0);
      SuffixAt(txs, k);
      RecordsAre(wal, k, 1);
      var first, rest := R.RecordsOf(wal, k, 1), R.RecordsFrom(wal, n);
      assert records[Length(txs, k)..] == first + rest;
      assert (first + rest)[|first|..] == rest;
      assert records[Length(txs, n)..] == records[Length(txs, k)..][|first|..];
    }
  }

  lemma {:induction false} WholeThere(txs: seq<Tx>, n: nat)
    requires n < |txs| && txs[n].changes != []
    ensures var records, o := R.RecordsFrom(WalOf(txs), 0), Length(txs, n);
            && o + |txs[n].changes| <= |records| && records[o].tx == n
            && forall p | o <= p < o + |txs[n].changes| :: records[p] == R.Record(n, p - o + 1)
  {
    var wal, records, o := WalOf(txs), R.RecordsFrom(WalOf(txs), 0), Length(txs, n);
    SuffixAt(txs, n);
    RecordsAre(wal, n, 1);
    var tail := R.RecordsOf(wal, n, 1) + R.RecordsFrom(wal, n + 1);
    assert records[o..] == tail;
    forall p | o <= p < o + |txs[n].changes| ensures records[p] == R.Record(n, p - o + 1) {
      assert records[o..][p - o] == tail[p - o];
    }
  }

  /** On that log a writer at the start of a transaction finds it delivered. */
  lemma {:induction false} DeliveredThere(txs: seq<Tx>, log: seq<Event>, n: nat)
    requires TxsOk(txs) && n < |txs| && txs[n].changes != []
    requires var records := R.RecordsFrom(WalOf(txs), 0);
             R.InRange(WalOf(txs), records) && R.Adjacent(records) && Carries(txs, records, log)
    ensures W.Delivery(log, Length(txs, n), Length(txs, n + 1))
    ensures log[Length(txs, n)..Length(txs, n + 1)] == TxEvents(txs[n])
  {
    var records, o := R.RecordsFrom(WalOf(txs), 0), Length(txs, n);
    WholeThere(txs, n);
    assert WholeAt(txs, records, o);
    DeliveredExactlyWhen(txs, records, log, o);
    assert W.Delivery(log, o, Length(txs, n + 1));
    DeliveryIsTransaction(txs, records, log, o, Length(txs, n + 1));
  }

  // ---- arrival -----------------------------------------------------------------------------------

  /** The state of a pipeline whose log is the whole WAL and whose writer has applied `n` transactions. */
  ghost predicate Arrived(cat: Catalog, txs: seq<Tx>, db: Db, s: State, n: nat)
    requires n <= |txs|
  {
    && s.reader.log == R.RecordsFrom(WalOf(txs), 0) && R.CaughtUp(WalOf(txs), s.reader)
    && s.writer.offset == Length(txs, n) && s.writer.life == W.Up(s.writer.offset, None, W.Polling)
    && ApplyAll(cat, db, Prefix(txs, n)) == Ok(s.writer.db)
  }

  lemma {:induction false} NothingToApply(cat: Catalog, txs: seq<Tx>, db: Db, n: nat)
    requires n < |txs| && txs[n].changes == []
    ensures Prefix(txs, n + 1) == Prefix(txs, n)
  {
  }

  lemma {:induction false} NextIsReady(cat: Catalog, txs: seq<Tx>, db: Db, s: State, n: nat)
    requires TxsOk(txs) && n < |txs| && txs[n].changes != [] && Linked(txs, s.reader, s.writer)
    requires Arrived(cat, txs, db, s, n) && ApplyAll(cat, db, Prefix(txs, n + 1)).Ok?
    ensures W.Delivery(s.writer.log, s.writer.offset, Length(txs, n + 1))
    ensures ApplyAll(cat, s.writer.db, s.writer.log[s.writer.offset..Length(txs, n + 1)]) ==
            ApplyAll(cat, db, Prefix(txs, n + 1))
  {
    ApplyAllAppend(cat, db, Prefix(txs, n), TxEvents(txs[n]));
    DeliveredThere(txs, s.writer.log, n);
  }

  lemma {:induction false} NextArrives(cat: Catalog, txs: seq<Tx>, db: Db, states: seq<State>, steps: seq<Step>,
      n: nat)
    returns (longer: seq<State>, more: seq<Step>)
    requires TxsOk(txs) && Run(cat, txs, db, states, steps) && NothingFails(steps)
    requires n < |txs| && Arrived(cat, txs, db, states[|steps|], n)
    requires ApplyAll(cat, db, Prefix(txs, n + 1)).Ok?
    ensures Run(cat, txs, db, longer, more) && NothingFails(more) && longer[0] == states[0]
    ensures Arrived(cat, txs, db, longer[|more|], n + 1)
  {
    if txs[n].changes == [] {
      longer, more := states, steps;
      NothingToApply(cat, txs, db, n);
    } else {
      RunLinked(cat, txs, db, states, steps, |steps|);
      NextIsReady(cat, txs, db, states[|steps|], n);
      var writers, wsteps := W.DeliveryIsApplied(cat, states[|steps|].writer, Length(txs, n + 1));
      longer, more := WriterGoesOn(cat, txs, db, states, steps, writers, wsteps);
    }
  }

  /**
    Everything arrives. From any start there is a run without failures that publishes every transaction once,
    in order, lets the slot persist the end of the WAL, moves the writer's offset to the end
    of the log, and leaves the destination with the source's rows.
  */
  lemma {:induction false} EverythingArrives(cat: Catalog, txs: seq<Tx>, srcs: seq<Convergence.Source>, db: Db,
      s: State)
    returns (states: seq<State>, steps: seq<Step>)
    requires TxsOk(txs) && Sourced(cat, txs, srcs) && Untouched(cat, txs, srcs[0], db) && Init(txs, db, s)
    ensures Run(cat, txs, db, states, steps) && NothingFails(steps) && states[0] == s
    ensures Arrived(cat, txs, db, states[|steps|], |txs|)
    ensures states[|steps|].writer.offset == |states[|steps|].reader.log|
    ensures Convergence.Mirrors(cat, states[|steps|].writer.db, srcs[|txs|])
  {
    forall n: nat | n <= |txs| ensures ApplyAll(cat, db, Prefix(txs, n)).Ok? {
      PrefixMirrors(cat, txs, srcs, db, n);
    }
    states, steps := AllArrive(cat, txs, db, s);
    PrefixMirrors(cat, txs, srcs, db, |txs|);
    SuffixAt(txs, |txs|);
  }

  lemma {:induction false} AllArrive(cat: Catalog, txs: seq<Tx>, db: Db, s: State)
    returns (states: seq<State>, steps: seq<Step>)
    requires TxsOk(txs) && Init(txs, db, s)
    requires forall n: nat | n <= |txs| :: ApplyAll(cat, db, Prefix(txs, n)).Ok?
    ensures Run(cat, txs, db, states, steps) && NothingFails(steps) && states[0] == s
    ensures Arrived(cat, txs, db, states[|steps|], |txs|)
  {
    states, steps := Published(cat, txs, db, s);
    for n := 0 to |txs|
      invariant Run(cat, txs, db, states, steps) && NothingFails(steps) && states[0] == s
      invariant Arrived(cat, txs, db, states[|steps|], n)
    {
      states, steps := NextArrives(cat, txs, db, states, steps, n);
    }
  }

  /** The reader publishes all, and the writer starts. */
  lemma {:induction false} Published(cat: Catalog, txs: seq<Tx>, db: Db, s: State)
    returns (states: seq<State>, steps: seq<Step>)
    requires TxsOk(txs) && Init(txs, db, s)
    ensures Run(cat, txs, db, states, steps) && NothingFails(steps) && states[0] == s
    ensures Arrived(cat, txs, db, states[|steps|], 0)
  {
    states, steps := [s], [];
    var readers, rsteps := R.RestartsAndDelivers(WalOf(txs), s.reader);
    states, steps := ReaderGoesOn(cat, txs, db, states, steps, readers, rsteps);
    states, steps := RunFurther(cat, txs, db, states, steps, WriterStep(W.Restart));
  }
}
