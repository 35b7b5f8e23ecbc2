/**
  The source reader and its publisher as a transition system: WAL to Kafka with
  acknowledgements, reconnects, failed produces and crashes at every point
  (cmd/source-reader/main.go:531-909).
*/
module Reader {
  import opened Wrappers
  import opened Cdc

  /** One source transaction: where it commits, where it ends, how many events it has. */
  datatype SourceTx = SourceTx(commit: Lsn, end: Lsn, count: nat)

  /** Every transaction the slot can deliver, in commit order. */
  type Wal = seq<SourceTx>

  predicate WalOk(wal: Wal) {
    && (forall i | 0 <= i < |wal| :: wal[i].commit < wal[i].end)
    && (forall i, j | 0 <= i < j < |wal| :: wal[i].end <= wal[j].commit)
  }

  /** A Kafka record: event `sequence` of transaction `tx`. */
  datatype Record = Record(tx: nat, sequence: nat)

  datatype Ack = Acked(tx: nat) | Failed(tx: nat)

  /** The publisher goroutine. */
  datatype Publisher = Idle | Producing(tx: nat, sequence: nat) | Replying(ack: Ack) | Exited

  /**
    Where the reader is: at the top of its loop, blocked in ReceiveMessage, or in sendWork
    with event `sequence` of `tx`, or with its descriptor when `sequence` is past the count.
  */
  datatype Pc = Top | Waiting | Handing(tx: nat, sequence: nat)

  /** One life of the process; `results` is the channel of capacity one. */
  datatype Life = Down | Up(durable: Lsn, next: nat, pc: Pc, publisher: Publisher, results: Option<Ack>)

  /** `sent` is every LSN ever sent in a standby status, `confirmed` what the slot persisted. */
  datatype State = State(log: seq<Record>, confirmed: Lsn, sent: set<Lsn>, life: Life)

  /** The first transaction PostgreSQL sends from `l`: its commit is not before `l`. */
  function Resume(wal: Wal, l: Lsn, n: nat): (r: nat)
    requires n <= |wal|
    ensures r <= n
  {
    if n == 0 then 0 else if wal[n - 1].commit < l then n else Resume(wal, l, n - 1)
  }

  function From(wal: Wal, l: Lsn): (r: nat)
    ensures r <= |wal|
  {
    Resume(wal, l, |wal|)
  }

  // ---- steps ---------------------------------------------------------------------------

  datatype Step =
    | Drain | Await | Wake | ReceiveError | Receive
    | HandEvent | HandDescriptor | TakeResult
    | ProduceOk | ProduceLost | ProduceFail | PushResult
    | Standby | Persist(lsn: Lsn) | Crash | Restart

  predicate Enabled(wal: Wal, s: State, step: Step) {
    match step
    case Drain => s.life.Up? && s.life.pc == Top && s.life.results.Some?
    case Await => s.life.Up? && s.life.pc == Top && s.life.results.None?
    case Wake => s.life.Up? && s.life.pc == Waiting
    case ReceiveError => s.life.Up? && s.life.pc == Waiting
    case Receive => s.life.Up? && s.life.pc == Waiting && s.life.next < |wal|
    case HandEvent =>
      && s.life.Up? && s.life.pc.Handing? && s.life.publisher == Idle
      && s.life.pc.tx < |wal| && s.life.pc.sequence <= wal[s.life.pc.tx].count
    case HandDescriptor =>
      && s.life.Up? && s.life.pc.Handing? && s.life.publisher == Idle
      && s.life.pc.tx < |wal| && s.life.pc.sequence > wal[s.life.pc.tx].count
    case TakeResult => s.life.Up? && s.life.pc.Handing? && s.life.pc.tx < |wal| && s.life.results.Some?
    case ProduceOk => s.life.Up? && s.life.publisher.Producing?
    case ProduceLost => s.life.Up? && s.life.publisher.Producing?
    case ProduceFail => s.life.Up? && s.life.publisher.Producing?
    case PushResult => s.life.Up? && s.life.publisher.Replying? && s.life.results.None?
    case Standby => s.life.Up?
    case Persist(lsn) => lsn in s.sent && s.confirmed <= lsn
    case Crash => s.life.Up?
    case Restart => s.life.Down?
  }

  /** applyPublicationResult returns nil: a real acknowledgement that is not behind `durable`. */
  predicate Accepted(wal: Wal, durable: Lsn, ack: Ack) {
    ack.Acked? && ack.tx < |wal| && wal[ack.tx].end >= durable
  }

  /** A result taken at the top of the loop; any error ends `stream`, reconnected or not. */
  function AfterDrain(wal: Wal, life: Life): Life
    requires life.Up? && life.results.Some?
  {
    var ack := life.results.value;
    if Accepted(wal, life.durable, ack) then life.(durable := wal[ack.tx].end, results := None) else Down
  }

  /**
    A result taken inside sendWork. After an error it reconnects from `durable` and returns
    nil without handing its message over: NextEvent then fails on the reset decoder, unless
    the message was the last event (the descriptor comes next) or the descriptor itself.
  */
  function AfterTakeResult(wal: Wal, life: Life): Life
    requires life.Up? && life.pc.Handing? && life.pc.tx < |wal| && life.results.Some?
  {
    var ack := life.results.value;
    var count := wal[life.pc.tx].count;
    if Accepted(wal, life.durable, ack) then life.(durable := wal[ack.tx].end, results := None)
    else if life.pc.sequence < count then Down
    else
      life.(next := From(wal, life.durable), results := None,
            pc := if life.pc.sequence == count then Handing(life.pc.tx, count + 1) else Top)
  }

  function After(wal: Wal, s: State, step: Step): State
    requires Enabled(wal, s, step)
  {
    match step
    case Drain => s.(life := AfterDrain(wal, s.life))
    case Await => s.(life := s.life.(pc := Waiting))
    case Wake => s.(life := s.life.(pc := Top))
    case ReceiveError => s.(life := s.life.(pc := Top, next := From(wal, s.life.durable)))
    case Receive => s.(life := s.life.(pc := Handing(s.life.next, 1), next := s.life.next + 1))
    case HandEvent =>
      var tx, n := s.life.pc.tx, s.life.pc.sequence;
      s.(life := s.life.(pc := Handing(tx, n + 1), publisher := Producing(tx, n)))
    case HandDescriptor => s.(life := s.life.(pc := Top, publisher := Replying(Acked(s.life.pc.tx))))
    case TakeResult => s.(life := AfterTakeResult(wal, s.life))
    case ProduceOk =>
      var p := s.life.publisher;
      s.(log := s.log + [Record(p.tx, p.sequence)], life := s.life.(publisher := Idle))
    case ProduceLost => s.(log := s.log + [Record(s.life.publisher.tx, s.life.publisher.sequence)])
    case ProduceFail => s.(life := s.life.(publisher := Replying(Failed(s.life.publisher.tx))))
    case PushResult =>
      var ack := s.life.publisher.ack;
      s.(life := s.life.(results := Some(ack), publisher := if ack.Acked? then Idle else Exited))
    case Standby => s.(sent := s.sent + {s.life.durable})
    case Persist(lsn) => s.(confirmed := lsn)
    case Crash => s.(life := Down)
    case Restart => s.(life := Up(s.confirmed, From(wal, s.confirmed), Top, Idle, None))
  }

  /** Kafka only appends. */
  lemma {:induction false} LogOnlyGrows(wal: Wal, s: State, step: Step)
    requires Enabled(wal, s, step)
    ensures s.log <= After(wal, s, step).log
  {
  }

  /** A new slot: nothing published, and no transaction commits before its position. */
  predicate Init(wal: Wal, s: State) {
    s.log == [] && s.sent == {} && s.life == Down && From(wal, s.confirmed) == 0
  }

  predicate Run(wal: Wal, states: seq<State>, steps: seq<Step>) {
    && |states| == |steps| + 1 && Init(wal, states[0])
    && forall i {:trigger steps[i]} | 0 <= i < |steps| ::
         Enabled(wal, states[i], steps[i]) && states[i + 1] == After(wal, states[i], steps[i])
  }

  // ---- what the log says ------------------------------------------------------------------

  /** How many events of `tx` the first `p` records hold, in order from the first event on. */
  function Matched(log: seq<Record>, tx: nat, p: nat): nat
    requires p <= |log|
  {
    if p == 0 then 0
    else
      var m := Matched(log, tx, p - 1);
      if log[p - 1] == Record(tx, m + 1) then m + 1 else m
  }

  /** All events of `tx` are among the first `p` records, in order. */
  predicate Complete(wal: Wal, log: seq<Record>, tx: nat, p: nat)
    requires tx < |wal| && p <= |log|
  {
    Matched(log, tx, p) >= wal[tx].count
  }

  predicate InRange(wal: Wal, log: seq<Record>) {
    forall p | 0 <= p < |log| :: log[p].tx < |wal| && 1 <= log[p].sequence <= wal[log[p].tx].count
  }

  /** A record that is not the first of its transaction follows its predecessor or itself. */
  predicate Follows(log: seq<Record>, p: nat)
    requires p < |log|
  {
    log[p].sequence >= 2 ==>
      && p >= 1 && log[p - 1].tx == log[p].tx
      && (log[p - 1].sequence == log[p].sequence || log[p - 1].sequence == log[p].sequence - 1)
  }

  predicate Adjacent(log: seq<Record>) {
    forall p {:trigger Follows(log, p)} | 0 <= p < |log| :: Follows(log, p)
  }

  /** Whenever a transaction has a record, every earlier transaction is complete before it. */
  predicate GapFree(wal: Wal, log: seq<Record>)
    requires InRange(wal, log)
  {
    forall p, i | 0 <= p < |log| && 0 <= i < log[p].tx :: Complete(wal, log, i, p)
  }

  predicate LogOk(wal: Wal, log: seq<Record>) {
    InRange(wal, log) && Adjacent(log) && GapFree(wal, log)
  }

  lemma {:induction false} MatchedPrefix(log: seq<Record>, more: seq<Record>, tx: nat, p: nat)
    requires p <= |log|
    ensures Matched(log + more, tx, p) == Matched(log, tx, p)
  {
    if p > 0 {
      MatchedPrefix(log, more, tx, p - 1);
    }
  }

  lemma {:induction false} MatchedGrows(log: seq<Record>, tx: nat, p: nat, q: nat)
    requires p <= q <= |log|
    ensures Matched(log, tx, p) <= Matched(log, tx, q)
  {
    if p < q {
      MatchedGrows(log, tx, p, q - 1);
    }
  }

  /** The first `n` transactions are complete in the log. */
  predicate CompleteUpTo(wal: Wal, log: seq<Record>, n: nat) {
    n <= |wal| && forall i | 0 <= i < n :: Complete(wal, log, i, |log|)
  }

  lemma {:induction false} CompleteAppend(wal: Wal, log: seq<Record>, r: Record, n: nat)
    requires CompleteUpTo(wal, log, n)
    ensures CompleteUpTo(wal, log + [r], n)
  {
    var longer := log + [r];
    forall i | 0 <= i < n ensures Complete(wal, longer, i, |longer|) {
      assert Complete(wal, log, i, |log|);
      MatchedPrefix(log, [r], i, |log|);
      MatchedGrows(longer, i, |log|, |longer|);
    }
  }

  /** A record may follow when it is in range, adjacent, and all earlier transactions are complete. */
  lemma {:induction false} LogAppend(wal: Wal, log: seq<Record>, r: Record)
    requires LogOk(wal, log) && r.tx < |wal| && 1 <= r.sequence <= wal[r.tx].count
    requires CompleteUpTo(wal, log, r.tx)
    requires r.sequence >= 2 ==> log != [] && (log[|log| - 1] == r || log[|log| - 1] == Record(r.tx, r.sequence - 1))
    ensures LogOk(wal, log + [r])
  {
    var longer := log + [r];
    forall p | 0 <= p < |longer| ensures Follows(longer, p) {
      if p < |log| {
        assert Follows(log, p);
      }
    }
    forall p, i | 0 <= p < |longer| && 0 <= i < longer[p].tx ensures Complete(wal, longer, i, p) {
      MatchedPrefix(log, [r], i, p);
      if p < |log| {
        assert Complete(wal, log, i, p);
      } else {
        assert Complete(wal, log, i, |log|);
      }
    }
  }

  // ---- the invariant -----------------------------------------------------------------------

  /** The transactions known complete once `ack` is applied. */
  function Bump(n: nat, ack: Option<Ack>): nat {
    if ack.Some? && ack.value.Acked? then ack.value.tx + 1 else n
  }

  function Reply(p: Publisher): Option<Ack> {
    if p.Replying? then Some(p.ack) else None
  }

  /** The transactions known complete now, after the queued result, and after the publisher's reply. */
  function Applied(wal: Wal, life: Life): nat
    requires life.Up?
  {
    From(wal, life.durable)
  }

  function Queued(wal: Wal, life: Life): nat
    requires life.Up?
  {
    Bump(Applied(wal, life), life.results)
  }

  function Answered(wal: Wal, life: Life): nat
    requires life.Up?
  {
    Bump(Queued(wal, life), Reply(life.publisher))
  }

  /**
    `l` is covered by Kafka: every transaction that commits before it is complete, and it is
    where the last of them ends.
  */
  predicate Covered(wal: Wal, log: seq<Record>, l: Lsn) {
    var n := From(wal, l);
    CompleteUpTo(wal, log, n) && (n > 0 ==> l == wal[n - 1].end)
  }

  /** Outstanding acknowledgements never go back and never skip a transaction. */
  predicate Chain(wal: Wal, life: Life)
    requires life.Up?
  {
    && Applied(wal, life) <= Queued(wal, life) <= Applied(wal, life) + 1
    && Queued(wal, life) <= Answered(wal, life) <= Queued(wal, life) + 1
  }

  predicate EndsWith(log: seq<Record>, tx: nat, sequence: nat) {
    log != [] && log[|log| - 1] == Record(tx, sequence)
  }

  /** The publisher and the message the reader is handing over, while the publisher lives. */
  predicate HandingOk(wal: Wal, log: seq<Record>, life: Life)
    requires life.Up? && life.pc.Handing?
  {
    var tx, n := life.pc.tx, life.pc.sequence;
    && tx < |wal| && 1 <= n <= wal[tx].count + 1
    && (life.publisher != Exited ==> life.next == tx + 1 && tx <= Answered(wal, life) <= tx + 1)
    && match life.publisher
       case Idle => Matched(log, tx, |log|) >= n - 1 && (n >= 2 ==> EndsWith(log, tx, n - 1))
       case Producing(t, k) =>
         && t == tx && k == n - 1 && 1 <= k && Matched(log, tx, |log|) >= k - 1
         && (k >= 2 ==> EndsWith(log, tx, k - 1) || EndsWith(log, tx, k))
       case Replying(ack) => if ack.Acked? then n == 1 && life.results.None? else n >= 2
       case Exited => true
  }

  predicate QuietOk(wal: Wal, life: Life)
    requires life.Up? && !life.pc.Handing?
  {
    && !life.publisher.Producing?
    && (life.publisher.Replying? ==> life.publisher.ack.Acked?)
    && (life.results.Some? ==> life.results.value.Acked?)
    && (life.publisher != Exited ==> life.next <= Answered(wal, life) <= life.next + 1)
    && (life.pc == Waiting ==> life.results.None? || !life.publisher.Replying?)
  }

  predicate LifeOk(wal: Wal, log: seq<Record>, life: Life)
    requires life.Up?
  {
    && Covered(wal, log, life.durable)
    && life.next <= |wal|
    && Chain(wal, life) && CompleteUpTo(wal, log, Answered(wal, life))
    && (life.results.Some? && life.results.value.Failed? ==> life.publisher == Exited)
    && if life.pc.Handing? then HandingOk(wal, log, life) else QuietOk(wal, life)
  }

  predicate Inv(wal: Wal, s: State) {
    && LogOk(wal, s.log)
    && Covered(wal, s.log, s.confirmed)
    && (forall l | l in s.sent :: Covered(wal, s.log, l))
    && (s.life.Up? ==> LifeOk(wal, s.log, s.life))
  }

  // ---- every step keeps it ------------------------------------------------------------------

  lemma {:induction false} ResumeAtEnd(wal: Wal, i: nat, n: nat)
    requires WalOk(wal) && i < n <= |wal|
    ensures Resume(wal, wal[i].end, n) == i + 1
  {
    if n - 1 == i {
    } else {
      assert wal[i].end <= wal[n - 1].commit;
      ResumeAtEnd(wal, i, n - 1);
    }
  }

  /** An outstanding acknowledgement is never behind `durable`. */
  lemma {:induction false} QueuedIsAccepted(wal: Wal, log: seq<Record>, life: Life)
    requires WalOk(wal) && life.Up? && LifeOk(wal, log, life)
    requires life.results.Some? && life.results.value.Acked?
    ensures Accepted(wal, life.durable, life.results.value)
    ensures From(wal, wal[life.results.value.tx].end) == life.results.value.tx + 1
  {
    var tx, n := life.results.value.tx, Applied(wal, life);
    ResumeAtEnd(wal, tx, |wal|);
    if n > 0 && tx != n - 1 {
      assert wal[n - 1].end <= wal[tx].commit;
    }
    if n == 0 {
      ResumeStops(wal, life.durable, |wal|);
      assert life.durable <= wal[tx].commit;
    }
  }

  lemma {:induction false} ResumeStops(wal: Wal, l: Lsn, n: nat)
    requires n <= |wal|
    ensures forall i | Resume(wal, l, n) <= i < n :: l <= wal[i].commit
  {
    if n > 0 && !(wal[n - 1].commit < l) {
      ResumeStops(wal, l, n - 1);
    }
  }

  lemma {:induction false} ApplyKeeps(wal: Wal, log: seq<Record>, life: Life)
    requires WalOk(wal) && life.Up? && LifeOk(wal, log, life)
    requires life.results.Some? && life.results.value.Acked?
    ensures var after := life.(durable := wal[life.results.value.tx].end, results := None);
            LifeOk(wal, log, after) && Answered(wal, after) == Answered(wal, life)
  {
    QueuedIsAccepted(wal, log, life);
    var tx := life.results.value.tx;
    var after := life.(durable := wal[tx].end, results := None);
    assert Applied(wal, after) == Queued(wal, life);
    assert CompleteUpTo(wal, log, tx + 1) by {
      assert tx + 1 <= Answered(wal, life);
    }
  }

  /** Appending a record the publisher is producing keeps everything else. */
  lemma {:induction false} ProduceKeeps(wal: Wal, s: State, r: Record)
    requires WalOk(wal) && Inv(wal, s) && s.life.Up? && s.life.publisher == Producing(r.tx, r.sequence)
    ensures LogOk(wal, s.log + [r])
    ensures Covered(wal, s.log + [r], s.confirmed)
    ensures forall l | l in s.sent :: Covered(wal, s.log + [r], l)
    ensures Covered(wal, s.log + [r], s.life.durable) && CompleteUpTo(wal, s.log + [r], Answered(wal, s.life))
    ensures Matched(s.log + [r], r.tx, |s.log| + 1) >= r.sequence && EndsWith(s.log + [r], r.tx, r.sequence)
  {
    assert HandingOk(wal, s.log, s.life);
    assert CompleteUpTo(wal, s.log, r.tx);
    LogAppend(wal, s.log, r);
    forall l | l in s.sent + {s.confirmed, s.life.durable} ensures Covered(wal, s.log + [r], l) {
      CompleteAppend(wal, s.log, r, From(wal, l));
    }
    CompleteAppend(wal, s.log, r, Answered(wal, s.life));
    MatchedPrefix(s.log, [r], r.tx, |s.log|);
  }

  lemma {:induction false} ReaderStep(wal: Wal, s: State, step: Step)
    requires WalOk(wal) && Inv(wal, s) && Enabled(wal, s, step)
    requires step.Drain? || step.Await? || step.Wake? || step.ReceiveError? || step.Receive? || step.TakeResult?
    ensures Inv(wal, After(wal, s, step))
  {
    if step.Drain? {
      ApplyKeeps(wal, s.log, s.life);
      QueuedIsAccepted(wal, s.log, s.life);
    } else if step.TakeResult? && s.life.results.value.Acked? {
      ApplyKeeps(wal, s.log, s.life);
      QueuedIsAccepted(wal, s.log, s.life);
    }
  }

  lemma {:induction false} DescriptorStep(wal: Wal, s: State, step: Step)
    requires WalOk(wal) && Inv(wal, s) && Enabled(wal, s, step) && step.HandDescriptor?
    ensures Inv(wal, After(wal, s, step))
  {
    var tx := s.life.pc.tx;
    assert Complete(wal, s.log, tx, |s.log|);
    assert CompleteUpTo(wal, s.log, tx + 1);
  }

  lemma {:induction false} HandStep(wal: Wal, s: State, step: Step)
    requires WalOk(wal) && Inv(wal, s) && Enabled(wal, s, step)
    requires step.HandEvent? || step.ProduceFail? || step.PushResult?
    ensures Inv(wal, After(wal, s, step))
  {
  }

  lemma {:induction false} ProduceStep(wal: Wal, s: State, step: Step)
    requires WalOk(wal) && Inv(wal, s) && Enabled(wal, s, step) && (step.ProduceOk? || step.ProduceLost?)
    ensures Inv(wal, After(wal, s, step))
  {
    var r := Record(s.life.publisher.tx, s.life.publisher.sequence);
    ProduceKeeps(wal, s, r);
  }

  lemma {:induction false} OtherStep(wal: Wal, s: State, step: Step)
    requires WalOk(wal) && Inv(wal, s) && Enabled(wal, s, step)
    requires step.Standby? || step.Persist? || step.Crash? || step.Restart?
    ensures Inv(wal, After(wal, s, step))
  {
  }

  lemma {:induction false} StepKeeps(wal: Wal, s: State, step: Step)
    requires WalOk(wal) && Inv(wal, s) && Enabled(wal, s, step)
    ensures Inv(wal, After(wal, s, step))
  {
    if step.ProduceOk? || step.ProduceLost? {
      ProduceStep(wal, s, step);
    } else if step.Standby? || step.Persist? || step.Crash? || step.Restart? {
      OtherStep(wal, s, step);
    } else if step.HandDescriptor? {
      DescriptorStep(wal, s, step);
    } else if step.HandEvent? || step.ProduceFail? || step.PushResult? {
      HandStep(wal, s, step);
    } else {
      ReaderStep(wal, s, step);
    }
  }

  lemma {:induction false} RunKeeps(wal: Wal, states: seq<State>, steps: seq<Step>, i: nat)
    requires WalOk(wal) && Run(wal, states, steps) && i < |states|
    ensures Inv(wal, states[i])
  {
    if i > 0 {
      RunKeeps(wal, states, steps, i - 1);
      StepKeeps(wal, states[i - 1], steps[i - 1]);
    }
  }

  // ---- what the reader promises ---------------------------------------------------------------

  lemma {:induction false} MatchedBounded(wal: Wal, log: seq<Record>, tx: nat, p: nat)
    requires InRange(wal, log) && p <= |log| && tx < |wal|
    ensures Matched(log, tx, p) <= wal[tx].count
  {
    if p > 0 {
      MatchedBounded(wal, log, tx, p - 1);
    }
  }

  /** The matched events sit at rising positions of the log. */
  lemma {:induction false} MatchedInOrder(log: seq<Record>, tx: nat, p: nat) returns (at: seq<nat>)
    requires p <= |log|
    ensures |at| == Matched(log, tx, p)
    ensures forall k | 0 <= k < |at| :: at[k] < p && log[at[k]] == Record(tx, k + 1)
    ensures forall j, k | 0 <= j < k < |at| :: at[j] < at[k]
  {
    if p == 0 {
      at := [];
    } else {
      at := MatchedInOrder(log, tx, p - 1);
      if log[p - 1] == Record(tx, |at| + 1) {
        at := at + [p - 1];
      }
    }
  }

  lemma {:induction false} EndIsPast(wal: Wal, l: Lsn, tx: nat, n: nat)
    requires WalOk(wal) && tx < n <= |wal| && wal[tx].end <= l
    ensures tx < Resume(wal, l, n)
  {
    if !(wal[n - 1].commit < l) {
      assert tx != n - 1;
      EndIsPast(wal, l, tx, n - 1);
    }
  }

  /**
    Durability. In any state of any run, an LSN that is durable, was ever sent in a standby
    status, or was persisted by the slot, covers only transactions whose events are all in
    Kafka, each once at least and in order.
  */
  lemma {:induction false} DurableIsInKafka(wal: Wal, states: seq<State>, steps: seq<Step>, i: nat, l: Lsn,
      tx: nat)
    returns (at: seq<nat>)
    requires WalOk(wal) && Run(wal, states, steps) && i < |states|
    requires l in states[i].sent || l == states[i].confirmed || (states[i].life.Up? && l == states[i].life.durable)
    requires tx < |wal| && wal[tx].end <= l
    ensures |at| == wal[tx].count
    ensures forall k | 0 <= k < |at| :: at[k] < |states[i].log| && states[i].log[at[k]] == Record(tx, k + 1)
    ensures forall j, k | 0 <= j < k < |at| :: at[j] < at[k]
  {
    RunKeeps(wal, states, steps, i);
    var log := states[i].log;
    assert Covered(wal, log, l);
    EndIsPast(wal, l, tx, |wal|);
    assert Complete(wal, log, tx, |log|);
    MatchedBounded(wal, log, tx, |log|);
    at := MatchedInOrder(log, tx, |log|);
  }

  /** The "out of source order" branch, and every other failure at the top of the loop, is unreachable. */
  lemma {:induction false} AcknowledgementsComeInOrder(wal: Wal, states: seq<State>, steps: seq<Step>, i: nat)
    requires WalOk(wal) && Run(wal, states, steps) && i < |states|
    requires states[i].life.Up? && states[i].life.results.Some?
    requires states[i].life.results.value.Acked? || !states[i].life.pc.Handing?
    ensures Accepted(wal, states[i].life.durable, states[i].life.results.value)
  {
    RunKeeps(wal, states, steps, i);
    QueuedIsAccepted(wal, states[i].log, states[i].life);
  }

  /** While the process lives `durable` never falls, so whatever it reports since `i` lies between the two. */
  lemma {:induction false} DurableNeverFalls(wal: Wal, states: seq<State>, steps: seq<Step>, i: nat, j: nat)
    requires WalOk(wal) && Run(wal, states, steps) && i <= j < |states|
    requires forall k | i <= k <= j :: states[k].life.Up?
    ensures states[i].life.durable <= states[j].life.durable
    ensures forall l | l in states[j].sent && l !in states[i].sent ::
            states[i].life.durable <= l <= states[j].life.durable
  {
    if i < j {
      DurableNeverFalls(wal, states, steps, i, j - 1);
      var s := states[j - 1];
      assert states[j] == After(wal, s, steps[j - 1]);
      if s.life.results.Some? && (steps[j - 1].Drain? || steps[j - 1].TakeResult?) {
        RunKeeps(wal, states, steps, j - 1);
      }
    }
  }

  /** The Kafka log of any run is in range, delivered in runs, and gap-free. */
  lemma {:induction false} KafkaLogIsGapFree(wal: Wal, states: seq<State>, steps: seq<Step>, i: nat, p: nat, tx: nat)
    requires WalOk(wal) && Run(wal, states, steps) && i < |states|
    requires p < |states[i].log| && tx < states[i].log[p].tx
    ensures LogOk(wal, states[i].log) && Complete(wal, states[i].log, tx, p)
  {
    RunKeeps(wal, states, steps, i);
  }

  // ---- standby statuses and restarts ----------------------------------------------------------

  /** A settled reader has nothing outstanding: its loop is at the top and the publisher has answered. */
  predicate Settled(life: Life) {
    life.Up? && life.pc == Top && life.results.None? && life.publisher == Idle
  }

  /**
    A settled reader acknowledges everything it has handed over: the status it sends reaches
    the end of the last such transaction, the slot can persist it unless it has more
    already, and a restart from there hands none of it over again.
  */
  lemma {:induction false} StatusAcknowledgesAll(wal: Wal, s: State) returns (l: Lsn)
    requires WalOk(wal) && Inv(wal, s) && Settled(s.life)
    ensures l in After(wal, s, Standby).sent
    ensures s.life.next > 0 ==> wal[s.life.next - 1].end <= l
    ensures s.confirmed <= l ==>
              var persisted := After(wal, After(wal, After(wal, s, Standby), Persist(l)), Crash);
              && persisted.confirmed == l
              && s.life.next <= After(wal, persisted, Restart).life.next <= s.life.next + 1
  {
    l := s.life.durable;
    var n := From(wal, l);
    assert n == Answered(wal, s.life);
    if 0 < s.life.next < n {
      assert wal[s.life.next - 1].end <= wal[n - 1].commit;
    }
  }

  // ---- without failures ------------------------------------------------------------------------

  /** The publisher lives, and no failure is on its way to the reader. */
  predicate Healthy(life: Life) {
    && life.Up? && life.publisher != Exited
    && (life.publisher.Replying? ==> life.publisher.ack.Acked?)
    && (life.results.Some? ==> life.results.value.Acked?)
  }

  /** Nothing but a failed produce or a crash ends a healthy life: not a reconnect, not a late acknowledgement. */
  lemma {:induction false} HealthLasts(wal: Wal, s: State, step: Step)
    requires WalOk(wal) && Inv(wal, s) && Healthy(s.life) && Enabled(wal, s, step)
    requires !step.ProduceFail? && !step.Crash?
    ensures Healthy(After(wal, s, step).life)
  {
    if s.life.results.Some? {
      QueuedIsAccepted(wal, s.log, s.life);
    }
  }

  /** A failed produce, a lost answer, a broken connection or a crash. */
  predicate IsFailure(step: Step) {
    step.ProduceFail? || step.ProduceLost? || step.ReceiveError? || step.Crash?
  }

  /** The records of a transaction from event `sequence` on. */
  function RecordsOf(wal: Wal, tx: nat, sequence: nat): seq<Record>
    requires tx < |wal|
    decreases wal[tx].count + 1 - sequence
  {
    if sequence > wal[tx].count then [] else [Record(tx, sequence)] + RecordsOf(wal, tx, sequence + 1)
  }

  /** The records of all transactions from the `n`th on. */
  function RecordsFrom(wal: Wal, n: nat): seq<Record>
    requires n <= |wal|
    decreases |wal| - n
  {
    if n == |wal| then [] else RecordsOf(wal, n, 1) + RecordsFrom(wal, n + 1)
  }

  /** What is still to be published: the record being produced, the rest of the message, the rest of the WAL. */
  function Unpublished(wal: Wal, life: Life): seq<Record>
    requires life.Up? && life.next <= |wal|
  {
    (if life.publisher.Producing? then [Record(life.publisher.tx, life.publisher.sequence)] else [])
    + (if life.pc.Handing? && life.pc.tx < |wal| then RecordsOf(wal, life.pc.tx, life.pc.sequence) else [])
    + RecordsFrom(wal, life.next)
  }

  /** Published and unpublished records, in order. */
  function AllRecords(wal: Wal, s: State): seq<Record>
    requires s.life.Up? && s.life.next <= |wal|
  {
    s.log + Unpublished(wal, s.life)
  }

  lemma {:induction false} ProduceMoves(wal: Wal, s: State)
    requires s.life.Up? && s.life.next <= |wal| && s.life.publisher.Producing?
    ensures AllRecords(wal, After(wal, s, ProduceOk)) == AllRecords(wal, s)
  {
    var r := Record(s.life.publisher.tx, s.life.publisher.sequence);
    var rest := Unpublished(wal, s.life.(publisher := Idle));
    assert Unpublished(wal, s.life) == [r] + rest;
    assert s.log + ([r] + rest) == (s.log + [r]) + rest;
  }

  lemma {:induction false} HandMoves(wal: Wal, s: State)
    requires s.life.Up? && s.life.next <= |wal| && Enabled(wal, s, HandEvent)
    ensures AllRecords(wal, After(wal, s, HandEvent)) == AllRecords(wal, s)
  {
    var tx, n := s.life.pc.tx, s.life.pc.sequence;
    assert RecordsOf(wal, tx, n) == [Record(tx, n)] + RecordsOf(wal, tx, n + 1);
    assert Unpublished(wal, After(wal, s, HandEvent).life) == Unpublished(wal, s.life);
  }

  lemma {:induction false} ReceiveMoves(wal: Wal, s: State, step: Step)
    requires s.life.Up? && s.life.next <= |wal| && Enabled(wal, s, step) && (step.Receive? || step.HandDescriptor?)
    requires s.life.publisher == Idle || step.Receive?
    ensures AllRecords(wal, After(wal, s, step)) == AllRecords(wal, s)
  {
    if step.HandDescriptor? {
      assert RecordsOf(wal, s.life.pc.tx, s.life.pc.sequence) == [];
    }
    assert Unpublished(wal, After(wal, s, step).life) == Unpublished(wal, s.life);
  }

  /**
    Each event once and in order: while nothing fails, what is published and what is still to
    be published make up the same records.
  */
  lemma {:induction false} NothingSkippedOrRepeated(wal: Wal, s: State, step: Step)
    requires WalOk(wal) && Inv(wal, s) && Healthy(s.life) && Enabled(wal, s, step)
    requires !IsFailure(step)
    ensures var t := After(wal, s, step);
            t.life.Up? && t.life.next <= |wal| && AllRecords(wal, t) == AllRecords(wal, s)
  {
    if step.ProduceOk? {
      ProduceMoves(wal, s);
    } else if step.HandEvent? {
      HandMoves(wal, s);
    } else if step.Receive? || step.HandDescriptor? {
      ReceiveMoves(wal, s, step);
    } else if step.Drain? || step.TakeResult? {
      QueuedIsAccepted(wal, s.log, s.life);
    }
  }

  /** Steps that can be taken one after another, none of them a failure. */
  predicate Path(wal: Wal, states: seq<State>, steps: seq<Step>) {
    && |states| == |steps| + 1
    && forall i {:trigger steps[i]} | 0 <= i < |steps| ::
         && Enabled(wal, states[i], steps[i]) && states[i + 1] == After(wal, states[i], steps[i])
         && !IsFailure(steps[i])
  }

  lemma {:induction false} PathJoin(wal: Wal, s: State, step: Step, states: seq<State>, steps: seq<Step>)
    requires Path(wal, states, steps) && Enabled(wal, s, step) && states[0] == After(wal, s, step)
    requires !IsFailure(step)
    ensures Path(wal, [s] + states, [step] + steps)
  {
    var longer, more := [s] + states, [step] + steps;
    forall i {:trigger more[i]} | 0 <= i < |more|
      ensures && Enabled(wal, longer[i], more[i]) && longer[i + 1] == After(wal, longer[i], more[i])
              && !IsFailure(more[i])
    {
      assert i > 0 ==> more[i] == steps[i - 1];
    }
  }

  lemma {:induction false} PathFrom(wal: Wal, s: State, step: Step, states: seq<State>, steps: seq<Step>)
    returns (longer: seq<State>, more: seq<Step>)
    requires Path(wal, states, steps) && Enabled(wal, s, step) && states[0] == After(wal, s, step)
    requires !IsFailure(step)
    ensures Path(wal, longer, more) && longer[0] == s && longer[|more|] == states[|steps|]
  {
    PathJoin(wal, s, step, states, steps);
    longer, more := [s] + states, [step] + steps;
  }

  /** All is handed over and acknowledged. */
  predicate Delivered(wal: Wal, life: Life) {
    Settled(life) && life.next == |wal|
  }

  /** What reader and publisher do next when nothing fails, until all is delivered. */
  function NextStep(wal: Wal, life: Life): Step
    requires life.Up?
  {
    if life.publisher.Producing? then ProduceOk
    else if life.publisher.Replying? && life.results.None? then PushResult
    else if life.results.Some? then (if life.pc == Top then Drain else if life.pc == Waiting then Wake else TakeResult)
    else if life.pc == Top then Await
    else if life.pc == Waiting then (if life.next < |wal| then Receive else Wake)
    else if life.pc.tx < |wal| && life.pc.sequence <= wal[life.pc.tx].count then HandEvent
    else HandDescriptor
  }

  lemma {:induction false} NextStepIsEnabled(wal: Wal, s: State)
    requires WalOk(wal) && Inv(wal, s) && Healthy(s.life) && !Delivered(wal, s.life)
    ensures Enabled(wal, s, NextStep(wal, s.life))
  {
  }

  /** What the current message still has to hand over, its descriptor included. */
  function MessageLeft(wal: Wal, life: Life): nat
    requires life.Up?
  {
    if life.pc.Handing? && life.pc.tx < |wal| && life.pc.sequence <= wal[life.pc.tx].count + 1
    then wal[life.pc.tx].count + 2 - life.pc.sequence else 0
  }

  /** Answers on their way, those of the publisher first. */
  function RepliesLeft(life: Life): nat
    requires life.Up?
  {
    (if life.publisher == Idle then 0 else 2) + if life.results.Some? then 1 else 0
  }

  function LoopLeft(wal: Wal, life: Life): nat
    requires life.Up?
  {
    if life.pc == Waiting && (life.results.Some? || life.next == |wal|) then 1
    else if life.pc == Top && life.results.None? && life.next < |wal| then 1
    else 0
  }

  lemma {:induction false} NextStepIsGood(wal: Wal, s: State)
    requires WalOk(wal) && Inv(wal, s) && Healthy(s.life) && !Delivered(wal, s.life)
    ensures Enabled(wal, s, NextStep(wal, s.life)) && !IsFailure(NextStep(wal, s.life))
    ensures var t := After(wal, s, NextStep(wal, s.life));
            Inv(wal, t) && Healthy(t.life) && t.life.next <= |wal| && AllRecords(wal, t) == AllRecords(wal, s)
  {
    NextStepIsEnabled(wal, s);
    StepKeeps(wal, s, NextStep(wal, s.life));
    HealthLasts(wal, s, NextStep(wal, s.life));
    NothingSkippedOrRepeated(wal, s, NextStep(wal, s.life));
  }

  lemma {:induction false} NextStepIsProgress(wal: Wal, s: State)
    requires WalOk(wal) && Inv(wal, s) && Healthy(s.life) && !Delivered(wal, s.life)
    requires Enabled(wal, s, NextStep(wal, s.life))
    ensures var a, b := s.life, After(wal, s, NextStep(wal, s.life)).life;
            && b.Up? && a.next <= b.next <= |wal|
            && (b.next == a.next ==>
                 && MessageLeft(wal, b) <= MessageLeft(wal, a)
                 && (MessageLeft(wal, b) == MessageLeft(wal, a) ==>
                      && RepliesLeft(b) <= RepliesLeft(a)
                      && (RepliesLeft(b) == RepliesLeft(a) ==> LoopLeft(wal, b) < LoopLeft(wal, a))))
  {
    if s.life.results.Some? {
      QueuedIsAccepted(wal, s.log, s.life);
    }
  }

  /** All is in Kafka, and the slot has persisted the end of the WAL. */
  predicate CaughtUp(wal: Wal, s: State) {
    CompleteUpTo(wal, s.log, |wal|) && (wal != [] ==> s.confirmed == wal[|wal| - 1].end)
  }

  /** A status of a reader that has delivered everything reaches the end of the WAL. */
  lemma {:induction false} DeliveredPersists(wal: Wal, s: State) returns (states: seq<State>, steps: seq<Step>)
    requires WalOk(wal) && Inv(wal, s) && Delivered(wal, s.life)
    ensures Path(wal, states, steps) && states[0] == s && CaughtUp(wal, states[|steps|])
    ensures states[|steps|].log == s.log
  {
    if wal == [] {
      return [s], [];
    }
    var l, n := s.life.durable, From(wal, s.confirmed);
    if n == 0 {
      ResumeStops(wal, s.confirmed, |wal|);
      assert s.confirmed <= wal[|wal| - 1].commit;
    } else if n < |wal| {
      assert wal[n - 1].end <= wal[|wal| - 1].commit;
    }
    var sent := After(wal, s, Standby);
    PathJoin(wal, sent, Persist(l), [After(wal, sent, Persist(l))], []);
    PathJoin(wal, s, Standby, [sent, After(wal, sent, Persist(l))], [Persist(l)]);
    states, steps := [s, sent, After(wal, sent, Persist(l))], [Standby, Persist(l)];
    assert states == [s] + [sent, After(wal, sent, Persist(l))] && steps == [Standby] + [Persist(l)];
  }

  /** If only nothing fails, a healthy reader publishes and acknowledges the whole WAL. */
  lemma {:induction false} DeliversAll(wal: Wal, s: State) returns (states: seq<State>, steps: seq<Step>)
    requires WalOk(wal) && Inv(wal, s) && Healthy(s.life)
    ensures Path(wal, states, steps) && states[0] == s && CaughtUp(wal, states[|steps|])
    ensures states[|steps|].log == AllRecords(wal, s)
    decreases |wal| - s.life.next, MessageLeft(wal, s.life), RepliesLeft(s.life), LoopLeft(wal, s.life)
  {
    if Delivered(wal, s.life) {
      states, steps := DeliveredPersists(wal, s);
      assert Unpublished(wal, s.life) == [];
    } else {
      var step := NextStep(wal, s.life);
      NextStepIsGood(wal, s);
      NextStepIsProgress(wal, s);
      var t := After(wal, s, step);
      states, steps := DeliversAll(wal, t);
      states, steps := PathFrom(wal, s, step, states, steps);
    }
  }

  lemma {:induction false} RestartsAndDelivers(wal: Wal, s: State) returns (states: seq<State>, steps: seq<Step>)
    requires WalOk(wal) && Inv(wal, s) && s.life.Down?
    ensures Path(wal, states, steps) && states[0] == s && CaughtUp(wal, states[|steps|])
    ensures states[|steps|].log == s.log + RecordsFrom(wal, From(wal, s.confirmed))
  {
    StepKeeps(wal, s, Restart);
    states, steps := DeliversAll(wal, After(wal, s, Restart));
    states, steps := PathFrom(wal, s, Restart, states, steps);
  }

  /** The state a supervisor leaves: a process that cannot publish any more is stopped. */
  function Supervised(wal: Wal, s: State): State {
    if s.life.Up? && !Healthy(s.life) then After(wal, s, Crash) else s
  }

  /**
    Nothing is lost for good: from any state of any run, a reader whose publisher is gone
    being stopped, a path without failures publishes every transaction and lets the slot
    persist the end.
  */
  lemma {:induction false} CatchesUp(wal: Wal, run: seq<State>, taken: seq<Step>, i: nat)
    returns (states: seq<State>, steps: seq<Step>)
    requires WalOk(wal) && Run(wal, run, taken) && i < |run|
    ensures Path(wal, states, steps) && states[0] == Supervised(wal, run[i]) && CaughtUp(wal, states[|steps|])
  {
    RunKeeps(wal, run, taken, i);
    var s := Supervised(wal, run[i]);
    if s.life.Up? {
      states, steps := DeliversAll(wal, s);
    } else {
      assert run[i].life.Up? ==> Inv(wal, s) by {
        if run[i].life.Up? {
          StepKeeps(wal, run[i], Crash);
        }
      }
      states, steps := RestartsAndDelivers(wal, s);
    }
  }

  // ---- after a failed produce -------------------------------------------------------------------

  /** The publisher is gone, and the reader knows or is about to. */
  predicate Abandoned(life: Life) {
    life.Up? && life.publisher == Exited && (life.results.Some? ==> life.results.value.Failed?)
  }

  /** A produce that fails, however late its answer is read, leaves the publisher gone. */
  lemma {:induction false} FailedProduceAbandons(wal: Wal, s: State)
    requires Enabled(wal, s, ProduceFail) && s.life.results.None?
    ensures Enabled(wal, After(wal, s, ProduceFail), PushResult)
    ensures Abandoned(After(wal, After(wal, s, ProduceFail), PushResult).life)
  {
  }

  lemma {:induction false} AbandonedStep(wal: Wal, s: State, step: Step)
    requires Abandoned(s.life) && Enabled(wal, s, step)
    ensures After(wal, s, step).log == s.log
    ensures After(wal, s, step).life.Up? ==>
              Abandoned(After(wal, s, step).life) && After(wal, s, step).life.durable == s.life.durable
  {
  }

  /**
    A failed publish ends publishing for the rest of the process's life: until it stops,
    nothing more reaches Kafka and nothing more becomes durable.
  */
  lemma {:induction false} FailedPublishIsFinal(wal: Wal, states: seq<State>, steps: seq<Step>, i: nat, j: nat)
    requires Run(wal, states, steps) && i <= j < |states|
    requires Abandoned(states[i].life) && forall k | i <= k <= j :: states[k].life.Up?
    ensures states[j].log == states[i].log && states[j].life.durable == states[i].life.durable
    ensures Abandoned(states[j].life)
  {
    if i < j {
      FailedPublishIsFinal(wal, states, steps, i, j - 1);
      AbandonedStep(wal, states[j - 1], steps[j - 1]);
    }
  }

  /**
    A failure that is only seen while the reader hands over the last event or the descriptor
    does not stop it: it goes on to hand over to a publisher that is gone, and then only a
    crash gets it any further.
  */
  lemma {:induction false} HandingToNobody(wal: Wal, s: State, step: Step)
    requires Abandoned(s.life) && s.life.pc.Handing? && s.life.results.None? && Enabled(wal, s, step)
    ensures step.Crash? || ((step.Standby? || step.Persist?) && After(wal, s, step).life == s.life)
  {
  }

  /** What a failed publish does, by where its result is seen. */
  lemma {:induction false} FailureIsSeen(wal: Wal, s: State)
    requires Abandoned(s.life) && s.life.results.Some?
    ensures s.life.pc == Top ==> After(wal, s, Drain).life == Down
    ensures s.life.pc.Handing? && s.life.pc.tx < |wal| ==>
              var life, count := After(wal, s, TakeResult).life, wal[s.life.pc.tx].count;
              && (life.Down? <==> s.life.pc.sequence < count)
              && (s.life.pc.sequence == count ==> life.pc == Handing(s.life.pc.tx, count + 1) && life.results.None?)
  {
  }

  // ---- a crash in the middle of a transaction ---------------------------------------------------

  lemma {:induction false} RunFurther(wal: Wal, states: seq<State>, steps: seq<Step>, step: Step)
    returns (longer: seq<State>, more: seq<Step>)
    requires Run(wal, states, steps) && Enabled(wal, states[|steps|], step)
    ensures Run(wal, longer, more) && longer[0] == states[0] && |more| == |steps| + 1
    ensures longer[|more|] == After(wal, states[|steps|], step)
  {
    longer, more := states + [After(wal, states[|steps|], step)], steps + [step];
    forall i {:trigger more[i]} | 0 <= i < |more|
      ensures Enabled(wal, longer[i], more[i]) && longer[i + 1] == After(wal, longer[i], more[i])
    {
      assert i < |steps| ==> more[i] == steps[i];
    }
  }

  /** A new process publishes the first event it is sent. */
  lemma {:induction false} PublishesFirst(wal: Wal, states: seq<State>, steps: seq<Step>)
    returns (longer: seq<State>, more: seq<Step>)
    requires Run(wal, states, steps) && states[|steps|].life == Down
    requires var n := From(wal, states[|steps|].confirmed); n < |wal| && wal[n].count >= 1
    ensures Run(wal, longer, more) && longer[0] == states[0]
    ensures var s, end := states[|steps|], longer[|more|];
            && end.log == s.log + [Record(From(wal, s.confirmed), 1)]
            && end.confirmed == s.confirmed && end.life.Up?
  {
    longer, more := RunFurther(wal, states, steps, Restart);
    longer, more := RunFurther(wal, longer, more, Await);
    longer, more := RunFurther(wal, longer, more, Receive);
    longer, more := RunFurther(wal, longer, more, HandEvent);
    longer, more := RunFurther(wal, longer, more, ProduceOk);
  }

  /**
    A crash after the first event of a transaction makes the next process publish it again,
    and the log is then not a sequence of whole deliveries.
  */
  lemma {:induction false} CrashTearsDelivery(wal: Wal, s: State) returns (states: seq<State>, steps: seq<Step>)
    requires WalOk(wal) && Init(wal, s) && wal != [] && wal[0].count >= 2
    ensures Run(wal, states, steps) && states[0] == s
    ensures states[|steps|].log == [Record(0, 1), Record(0, 1)]
  {
    states, steps := [s], [];
    states, steps := PublishesFirst(wal, states, steps);
    states, steps := RunFurther(wal, states, steps, Crash);
    states, steps := PublishesFirst(wal, states, steps);
  }
}
