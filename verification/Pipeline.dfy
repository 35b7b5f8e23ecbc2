/**
  The whole pipeline: the reader's runs and the writer's runs over the Kafka log they
  share, and what the destination then holds.
*/
module Pipeline {
  import opened Wrappers
  import opened Cdc
  import opened Destination
  import opened Decoder
  import opened Transactions
  import R = Reader
  import W = WriterRuns
  import EventIds

  // ---- the shared log -------------------------------------------------------------------------

  function WalOf(txs: seq<Tx>): (wal: R.Wal)
    ensures |wal| == |txs|
    ensures forall j | 0 <= j < |txs| ::
            wal[j] == R.SourceTx(txs[j].commit.commitLsn, txs[j].commit.endLsn, |txs[j].changes|)
  {
    seq(|txs|, j requires 0 <= j < |txs| => R.SourceTx(txs[j].commit.commitLsn, txs[j].commit.endLsn, |txs[j].changes|))
  }

  /** The event a Kafka record carries. */
  function EventAt(txs: seq<Tx>, r: R.Record): Event
    requires r.tx < |txs| && 1 <= r.sequence <= |txs[r.tx].changes|
  {
    TxEvents(txs[r.tx])[r.sequence - 1]
  }

  predicate HasId(txs: seq<Tx>, j: nat, k: nat, id: string) {
    j < |txs| && k < |txs[j].changes| && TxEvents(txs[j])[k].id == id
  }

  /** The event with an id, if a transaction has one. */
  ghost function Named(txs: seq<Tx>, id: string): (e: Event)
    ensures (exists j: nat, k: nat :: HasId(txs, j, k, id)) ==>
              exists j: nat, k: nat :: HasId(txs, j, k, id) && e == TxEvents(txs[j])[k]
  {
    if exists j: nat, k: nat :: HasId(txs, j, k, id) then
      var j: nat, k: nat :| HasId(txs, j, k, id);
      TxEvents(txs[j])[k]
    else
      Event(0, id, "", "", Unknown(""), map[], map[], map[], SourceMetadata(0, 0, 0, 0, 0, 0), [])
  }

  lemma {:induction false} IdOfEvent(tx: Tx, k: nat)
    requires k < |tx.changes|
    ensures TxEvents(tx)[k].id == EventIds.EventId(tx.commit.commitLsn, k + 1)
  {
  }

  lemma {:induction false} IdIsUnique(txs: seq<Tx>, i: nat, m: nat, j: nat, k: nat, id: string)
    requires TxsOk(txs) && HasId(txs, i, m, id) && HasId(txs, j, k, id)
    ensures i == j && m == k
  {
    assert i < j ==> txs[i].commit.endLsn <= txs[j].commit.commitLsn;
    assert j < i ==> txs[j].commit.endLsn <= txs[i].commit.commitLsn;
    IdOfEvent(txs[i], m);
    IdOfEvent(txs[j], k);
    EventIds.EventIdInjective(txs[i].commit.commitLsn, m + 1, txs[j].commit.commitLsn, k + 1);
  }

  lemma {:induction false} NamedByItsId(txs: seq<Tx>, j: nat, k: nat)
    requires TxsOk(txs) && j < |txs| && k < |txs[j].changes|
    ensures Named(txs, TxEvents(txs[j])[k].id) == TxEvents(txs[j])[k]
  {
    var id := TxEvents(txs[j])[k].id;
    assert HasId(txs, j, k, id);
    var i: nat, m: nat :| HasId(txs, i, m, id) && Named(txs, id) == TxEvents(txs[i])[m];
    IdIsUnique(txs, i, m, j, k, id);
  }

  ghost function Names(txs: seq<Tx>): string -> Event {
    (id: string) => Named(txs, id)
  }

  /**
    `done` counts the transactions whose batch was committed, or healed to its end, up to the
    highest; `start` is the database that the last healing began on.
  */
  datatype State = State(reader: R.State, writer: W.State, done: nat, start: Db)

  datatype Step = ReaderStep(r: R.Step) | WriterStep(w: W.Step)

  predicate Enabled(cat: Catalog, txs: seq<Tx>, s: State, step: Step) {
    match step
    case ReaderStep(r) => R.Enabled(WalOf(txs), s.reader, r)
    case WriterStep(w) => !w.Produce? && W.Enabled(cat, s.writer, w)
  }

  /** The record a reader step appends, if it appends one. */
  function Appended(s: R.State, r: R.Step): Option<R.Record> {
    if (r.ProduceOk? || r.ProduceLost?) && s.life.Up? && s.life.publisher.Producing?
    then Some(R.Record(s.life.publisher.tx, s.life.publisher.sequence)) else None
  }

  function Received(txs: seq<Tx>, log: seq<Event>, r: Option<R.Record>): seq<Event> {
    if r.Some? && r.value.tx < |txs| && 1 <= r.value.sequence <= |txs[r.value.tx].changes|
    then log + [EventAt(txs, r.value)] else log
  }

  function After(cat: Catalog, txs: seq<Tx>, s: State, step: Step): State
    requires Enabled(cat, txs, s, step)
  {
    match step
    case ReaderStep(r) =>
      s.(reader := R.After(WalOf(txs), s.reader, r),
         writer := s.writer.(log := Received(txs, s.writer.log, Appended(s.reader, r))))
    case WriterStep(w) =>
      s.(writer := W.After(cat, s.writer, w),
         start := if w.FailBatch? then s.writer.db else s.start,
         done := if (w.CommitBatch? || w.Quarantine?) && s.writer.offset < |s.reader.log|
                 then Max(s.done, s.reader.log[s.writer.offset].tx + 1) else s.done)
  }

  function Max(a: nat, b: nat): nat {
    if a < b then b else a
  }

  ghost predicate Init(txs: seq<Tx>, db: Db, s: State) {
    R.Init(WalOf(txs), s.reader) && W.Init(s.writer) && s.writer.db == db && s.done == 0
  }

  ghost predicate Run(cat: Catalog, txs: seq<Tx>, db: Db, states: seq<State>, steps: seq<Step>) {
    && |states| == |steps| + 1 && Init(txs, db, states[0])
    && forall i {:trigger steps[i]} | 0 <= i < |steps| ::
         Enabled(cat, txs, states[i], steps[i]) && states[i + 1] == After(cat, txs, states[i], steps[i])
  }

  // ---- the two sides share one log -------------------------------------------------------------

  predicate Carries(txs: seq<Tx>, records: seq<R.Record>, log: seq<Event>)
    requires R.InRange(WalOf(txs), records)
  {
    |log| == |records| && forall p | 0 <= p < |log| :: log[p] == EventAt(txs, records[p])
  }

  /** The two sides share one log. */
  predicate Linked(txs: seq<Tx>, r: R.State, w: W.State) {
    R.Inv(WalOf(txs), r) && W.Structured(w) && Carries(txs, r.log, w.log)
  }

  // ---- groups are transactions ------------------------------------------------------------------------

  lemma {:induction false} RunOfRecords(txs: seq<Tx>, records: seq<R.Record>, log: seq<Event>, from: nat, to: nat,
      i: nat)
    requires R.InRange(WalOf(txs), records) && R.Adjacent(records) && Carries(txs, records, log)
    requires W.Consecutive(log, from, to) && i < to - from
    ensures records[from + i] == R.Record(records[from].tx, i + 1)
  {
    assert log[from + i] == EventAt(txs, records[from + i]);
    if i > 0 {
      RunOfRecords(txs, records, log, from, to, i - 1);
      assert R.Follows(records, from + i);
    }
  }

  /** A complete delivery in the reader's log is one source transaction, whole. */
  lemma {:induction false} DeliveryIsTransaction(txs: seq<Tx>, records: seq<R.Record>, log: seq<Event>, from: nat,
      to: nat)
    requires TxsOk(txs) && R.InRange(WalOf(txs), records) && R.Adjacent(records) && Carries(txs, records, log)
    requires W.Delivery(log, from, to)
    ensures log[from..to] == TxEvents(txs[records[from].tx])
  {
    var tx := records[from].tx;
    assert log[from] == EventAt(txs, records[from]);
    forall i | 0 <= i < to - from ensures log[from + i] == TxEvents(txs[tx])[i] {
      RunOfRecords(txs, records, log, from, to, i);
    }
  }

  /** The group being closed is the transaction of its first record. */
  lemma {:induction false} ClosingIsTransaction(txs: seq<Tx>, records: seq<R.Record>, w: W.State)
    requires TxsOk(txs) && R.InRange(WalOf(txs), records) && R.Adjacent(records) && Carries(txs, records, w.log)
    requires W.Structured(w) && w.life.Up? && w.life.group.Some? && w.life.phase != W.Polling
    ensures w.offset < |records| && records[w.offset].tx < |txs|
    ensures W.Events(w) == TxEvents(txs[records[w.offset].tx])
  {
    DeliveryIsTransaction(txs, records, w.log, w.offset, w.life.position);
  }

  // ---- every step keeps the two sides linked ---------------------------------------------------------------

  lemma {:induction false} ReceivedCarries(txs: seq<Tx>, records: seq<R.Record>, log: seq<Event>, r: R.Record)
    requires R.InRange(WalOf(txs), records) && R.InRange(WalOf(txs), records + [r]) && Carries(txs, records, log)
    ensures r.tx < |txs| && 1 <= r.sequence <= |txs[r.tx].changes|
    ensures Received(txs, log, Some(r)) == log + [EventAt(txs, r)]
    ensures Carries(txs, records + [r], log + [EventAt(txs, r)])
  {
    assert (records + [r])[|records|] == r;
  }

  lemma {:induction false} ReaderLinks(txs: seq<Tx>, s: R.State, w: W.State, r: R.Step)
    requires TxsOk(txs) && Linked(txs, s, w) && R.Enabled(WalOf(txs), s, r)
    ensures Linked(txs, R.After(WalOf(txs), s, r), w.(log := Received(txs, w.log, Appended(s, r))))
  {
    R.StepKeeps(WalOf(txs), s, r);
    var appended := Appended(s, r);
    if appended.Some? {
      assert R.After(WalOf(txs), s, r).log == s.log + [appended.value];
      ReceivedCarries(txs, s.log, w.log, appended.value);
      W.ProduceStructured(w, EventAt(txs, appended.value));
    }
  }

  lemma {:induction false} WriterLinks(cat: Catalog, txs: seq<Tx>, r: R.State, w: W.State, step: W.Step)
    requires Linked(txs, r, w) && W.Enabled(cat, w, step) && !step.Produce?
    ensures Linked(txs, r, W.After(cat, w, step))
  {
    W.StepStructured(cat, w, step);
  }

  lemma {:induction false} RunLinked(cat: Catalog, txs: seq<Tx>, db: Db, states: seq<State>, steps: seq<Step>, i: nat)
    requires TxsOk(txs) && Run(cat, txs, db, states, steps) && i < |states|
    ensures Linked(txs, states[i].reader, states[i].writer)
  {
    if i > 0 {
      RunLinked(cat, txs, db, states, steps, i - 1);
      var s := states[i - 1];
      match steps[i - 1]
      case ReaderStep(r) => ReaderLinks(txs, s.reader, s.writer, r);
      case WriterStep(w) => WriterLinks(cat, txs, s.reader, s.writer, w);
    }
  }

  /** A group that is open at a poll still misses events of its transaction, so a shutdown never commits one. */
  lemma {:induction false} OpenGroupIsIncomplete(cat: Catalog, txs: seq<Tx>, db: Db, states: seq<State>,
      steps: seq<Step>, i: nat)
    requires TxsOk(txs) && Run(cat, txs, db, states, steps) && i < |states|
    requires W.Holds(states[i].writer, W.Polling)
    ensures var w := states[i].writer;
            && W.Boundary(w.log, w.offset)
            && |W.Events(w)| < w.life.group.value.count
            && w.offset <= w.life.position <= |w.log| && w.log[w.offset..w.life.position] == W.Events(w)
  {
    RunLinked(cat, txs, db, states, steps, i);
    var records, w := states[i].reader.log, states[i].writer;
    var from, to := w.offset, w.life.position;
    RunOfRecords(txs, records, w.log, from, to, to - from - 1);
    assert records[to - 1].sequence == to - from;
    assert w.log[from] == EventAt(txs, records[from]);
  }

  // ---- torn deliveries ------------------------------------------------------------------------------------

  /** The records from `o` on stop being the transaction they begin, before its `k`th event is there. */
  predicate TornAt(txs: seq<Tx>, records: seq<R.Record>, o: nat, k: nat)
    requires R.InRange(WalOf(txs), records)
  {
    && o + k < |records| && k < |txs[records[o].tx].changes|
    && records[o + k] != R.Record(records[o].tx, k + 1)
  }

  /** Whole: the transaction that begins at `o` is there, each event once and in order. */
  predicate WholeAt(txs: seq<Tx>, records: seq<R.Record>, o: nat)
    requires R.InRange(WalOf(txs), records) && o < |records|
  {
    && o + |txs[records[o].tx].changes| <= |records|
    && forall p | o <= p < o + |txs[records[o].tx].changes| :: records[p] == R.Record(records[o].tx, p - o + 1)
  }

  /** A writer at `o` finds a complete delivery if and only if the log holds the whole transaction there. */
  lemma {:induction false} DeliveredExactlyWhen(txs: seq<Tx>, records: seq<R.Record>, log: seq<Event>, o: nat)
    requires TxsOk(txs) && R.InRange(WalOf(txs), records) && R.Adjacent(records) && Carries(txs, records, log)
    requires o < |records|
    ensures WholeAt(txs, records, o) <==>
            exists n: nat | o < n <= |log| :: W.Delivery(log, o, n)
    ensures forall n: nat | o < n <= |log| && W.Delivery(log, o, n) :: n == o + |txs[records[o].tx].changes|
  {
    var count := |txs[records[o].tx].changes|;
    assert log[o] == EventAt(txs, records[o]);
    if WholeAt(txs, records, o) {
      forall i | o <= i < o + count
        ensures log[i].source.transactionId == log[o].source.transactionId && log[i].source.sequence == i - o + 1
      {
        assert records[i] == R.Record(records[o].tx, i - o + 1);
        assert log[i] == EventAt(txs, records[i]);
      }
      assert W.Delivery(log, o, o + count);
    }
    forall n: nat | o < n <= |log| && W.Delivery(log, o, n) ensures n == o + count && WholeAt(txs, records, o) {
      forall p | o <= p < o + count ensures records[p] == R.Record(records[o].tx, p - o + 1) {
        RunOfRecords(txs, records, log, o, n, p - o);
      }
    }
  }

  lemma {:induction false} TornIsBlocked(txs: seq<Tx>, records: seq<R.Record>, log: seq<Event>, o: nat, k: nat)
    requires TxsOk(txs) && R.InRange(WalOf(txs), records) && R.Adjacent(records) && Carries(txs, records, log)
    requires o < |records| && TornAt(txs, records, o, k)
    ensures W.Blocked(log, o, o + k + 1)
  {
    if W.Consecutive(log, o, o + k + 1) {
      RunOfRecords(txs, records, log, o, o + k + 1, k);
    }
    forall n: nat | o < n < o + k + 1 ensures !W.Delivery(log, o, n) {
      DeliveredExactlyWhen(txs, records, log, o);
    }
  }

  lemma {:induction false} BlockedStays(cat: Catalog, txs: seq<Tx>, s: State, step: Step, p: nat)
    requires Linked(txs, s.reader, s.writer) && Enabled(cat, txs, s, step)
    requires W.Blocked(s.writer.log, s.writer.offset, p)
    ensures After(cat, txs, s, step).writer.offset == s.writer.offset
    ensures W.Blocked(After(cat, txs, s, step).writer.log, s.writer.offset, p)
  {
    match step
    case WriterStep(w) => W.BlockedStep(cat, s.writer, w, p);
    case ReaderStep(r) =>
      var log := Received(txs, s.writer.log, Appended(s.reader, r));
      if log != s.writer.log {
        W.BlockedLasts(s.writer.log, log[|s.writer.log|..], s.writer.offset, p);
        assert log == s.writer.log + log[|s.writer.log|..];
      }
  }

  lemma {:induction false} BlockedRun(cat: Catalog, txs: seq<Tx>, db: Db, states: seq<State>, steps: seq<Step>,
      i: nat, j: nat, p: nat)
    requires TxsOk(txs) && Run(cat, txs, db, states, steps) && i <= j < |states|
    requires W.Blocked(states[i].writer.log, states[i].writer.offset, p)
    ensures states[j].writer.offset == states[i].writer.offset
    ensures W.Blocked(states[j].writer.log, states[j].writer.offset, p)
  {
    if i < j {
      BlockedRun(cat, txs, db, states, steps, i, j - 1, p);
      RunLinked(cat, txs, db, states, steps, j - 1);
      BlockedStays(cat, txs, states[j - 1], steps[j - 1], p);
    }
  }

  /**
    A transaction that a crash of the reader left torn in the log stops the writer for good:
    no restart and nothing published later gets its offset past it.
  */
  lemma {:induction false} TornDeliveryBlocks(cat: Catalog, txs: seq<Tx>, db: Db, states: seq<State>,
      steps: seq<Step>, i: nat, j: nat, k: nat)
    requires TxsOk(txs) && Run(cat, txs, db, states, steps) && i <= j < |states|
    requires R.InRange(WalOf(txs), states[i].reader.log) && states[i].writer.offset < |states[i].reader.log|
    requires TornAt(txs, states[i].reader.log, states[i].writer.offset, k)
    ensures states[j].writer.offset == states[i].writer.offset
  {
    RunLinked(cat, txs, db, states, steps, i);
    TornIsBlocked(txs, states[i].reader.log, states[i].writer.log, states[i].writer.offset, k);
    BlockedRun(cat, txs, db, states, steps, i, j, states[i].writer.offset + k + 1);
  }

  // ---- accounting, end to end ---------------------------------------------------------------------------------

  lemma {:induction false} RecordIsNamed(txs: seq<Tx>, r: R.Record)
    requires TxsOk(txs) && r.tx < |txs| && 1 <= r.sequence <= |txs[r.tx].changes|
    ensures Names(txs)(EventAt(txs, r).id) == EventAt(txs, r)
  {
    NamedByItsId(txs, r.tx, r.sequence - 1);
  }

  lemma {:induction false} AppendAccounted(cat: Catalog, named: string -> Event, before: set<string>, w: W.State,
      e: Event)
    requires W.Inv(named, before, w) && e == named(e.id)
    ensures W.Inv(named, before, w.(log := w.log + [e]))
  {
    W.StepAccounted(cat, named, before, w, W.Produce(e));
  }

  lemma {:induction false} StepIsAccounted(cat: Catalog, txs: seq<Tx>, before: set<string>, s: State, step: Step)
    requires TxsOk(txs) && Linked(txs, s.reader, s.writer) && W.Inv(Names(txs), before, s.writer)
    requires Enabled(cat, txs, s, step)
    ensures W.Inv(Names(txs), before, After(cat, txs, s, step).writer)
  {
    match step
    case WriterStep(w) => W.StepAccounted(cat, Names(txs), before, s.writer, w);
    case ReaderStep(r) =>
      var record := Appended(s.reader, r);
      if record.Some? && Received(txs, s.writer.log, record) != s.writer.log {
        var e := EventAt(txs, record.value);
        RecordIsNamed(txs, record.value);
        AppendAccounted(cat, Names(txs), before, s.writer, e);
      }
  }

  /** Every run keeps the accounting of the writer, whatever fails, crashes or is delivered again. */
  lemma {:induction false} RunIsAccounted(cat: Catalog, txs: seq<Tx>, db: Db, states: seq<State>, steps: seq<Step>,
      i: nat)
    requires TxsOk(txs) && Run(cat, txs, db, states, steps) && i < |states|
    ensures W.Inv(Names(txs), db.markers.Keys, states[i].writer)
  {
    if i > 0 {
      RunIsAccounted(cat, txs, db, states, steps, i - 1);
      RunLinked(cat, txs, db, states, steps, i - 1);
      StepIsAccounted(cat, txs, db.markers.Keys, states[i - 1], steps[i - 1]);
    }
  }

  /** The event is marked, and unless it was known before, it was applied once or has a dead letter, never both. */
  predicate AccountedFor(db: Db, w: W.State, id: string) {
    && id in w.db.markers
    && (id !in db.markers ==> w.mutated[id] <= 1 && (w.mutated[id] == 1 <==> id !in w.db.letters))
  }

  /**
    End to end with poison. Over every interleaving of reader, publisher and writer, and
    whatever makes a batch or a healing step fail: once the committed offset has passed all
    events of a source transaction, each of them is accounted for.
  */
  lemma {:induction false} TransactionIsAccountedFor(
      cat: Catalog, txs: seq<Tx>, db: Db, states: seq<State>, steps: seq<Step>, i: nat, j: nat, k: nat)
    requires TxsOk(txs) && Run(cat, txs, db, states, steps) && i < |states|
    requires j < |txs| && k < |txs[j].changes|
    requires states[i].writer.offset <= |states[i].reader.log|
    requires R.Complete(WalOf(txs), states[i].reader.log, j, states[i].writer.offset)
    ensures AccountedFor(db, states[i].writer, TxEvents(txs[j])[k].id)
  {
    RunIsAccounted(cat, txs, db, states, steps, i);
    RunLinked(cat, txs, db, states, steps, i);
    var records, w := states[i].reader.log, states[i].writer;
    var at := R.MatchedInOrder(records, j, w.offset);
    var p := at[k];
    assert w.log[p] == EventAt(txs, records[p]);
    assert w.log[..w.offset][p] == w.log[p];
  }

  /** A transaction that has a record below the committed offset has all of its earlier ones below it. */
  lemma {:induction false} EarlierAreAccountedFor(
      cat: Catalog, txs: seq<Tx>, db: Db, states: seq<State>, steps: seq<Step>, i: nat, p: nat, j: nat, k: nat)
    requires TxsOk(txs) && Run(cat, txs, db, states, steps) && i < |states|
    requires p < |states[i].reader.log| && p <= states[i].writer.offset && j < states[i].reader.log[p].tx
    requires j < |txs| && k < |txs[j].changes|
    ensures AccountedFor(db, states[i].writer, TxEvents(txs[j])[k].id)
  {
    RunLinked(cat, txs, db, states, steps, i);
    var records := states[i].reader.log;
    assert R.Complete(WalOf(txs), records, j, p);
    R.MatchedGrows(records, j, p, states[i].writer.offset);
    TransactionIsAccountedFor(cat, txs, db, states, steps, i, j, k);
  }
}
