/**
  Every run of the destination writer over a growing Kafka log, with a crash possible
  between any two commits: groups are never spliced, and every event is accounted for.
*/
module WriterRuns {
  import opened Wrappers
  import opened Cdc
  import opened Destination
  import opened Applier
  import opened DeadLetters
  import opened Writer
  import Batch
  import Integrity
  import Replay

  /** What the writer does with the group it holds: the batch, healing, or the Kafka offset. */
  datatype Phase = Polling | Closing | Healing(i: nat, poison: nat) | Committing

  datatype Life = Down | Up(position: nat, group: Option<Group>, phase: Phase)

  /** `mutated` counts, per event id, how often its change was committed. */
  datatype State = State(log: seq<Event>, db: Db, offset: nat, life: Life, mutated: multiset<string>)

  datatype Step =
    | Produce(event: Event) | Poll | CommitBatch | FailBatch(index: nat) | HealNext | HealFails | Quarantine
    | CommitOffset | Crash | Restart

  predicate Holds(s: State, phase: Phase) {
    s.life.Up? && s.life.group.Some? && s.life.phase == phase
  }

  function Events(s: State): seq<Event>
    requires s.life.Up? && s.life.group.Some?
  {
    s.life.group.value.buffer
  }

  predicate Heals(s: State) {
    && s.life.Up? && s.life.group.Some? && s.life.phase.Healing?
    && s.life.phase.i < |Events(s)| && s.life.phase.poison < |Events(s)|
  }

  /** The event whose turn it is in the healing, and the reported one. */
  function Turn(s: State): Event
    requires Heals(s)
  {
    Events(s)[s.life.phase.i]
  }

  function Poison(s: State): Event
    requires Heals(s)
  {
    Events(s)[s.life.phase.poison]
  }

  /**
    A statement may fail for reasons of its own, a lock or a timeout, so a batch may fail at
    any event that is new or misshapen, and so may a healing step. A marked event is skipped.
  */
  predicate Enabled(cat: Catalog, s: State, step: Step) {
    match step
    case Produce(_) => true
    case Poll => s.life.Up? && s.life.phase == Polling && s.life.position < |s.log|
    case CommitBatch => Holds(s, Closing) && ApplyAll(cat, s.db, Events(s)).Ok?
    case FailBatch(index) =>
      Holds(s, Closing) && index < |Events(s)| && (Shaped(Events(s)[index]) ==> Batch.Fresh(s.db, Events(s), index))
    case HealNext => Heals(s)
    case HealFails =>
      && Heals(s) && Turn(s).id != Poison(s).id
      && (Shaped(Turn(s)) ==> Turn(s).id !in s.db.markers)
    case Quarantine =>
      && s.life.Up? && s.life.group.Some? && s.life.phase.Healing?
      && s.life.phase.i == |Events(s)| && s.life.phase.poison < |Events(s)|
    case CommitOffset => Holds(s, Committing)
    case Crash => s.life.Up?
    case Restart => s.life.Down?
  }

  /** The step fails, if it fails, only where the database itself refuses the event. */
  predicate Decided(cat: Catalog, s: State, step: Step) {
    match step
    case FailBatch(index) =>
      Holds(s, Closing) && index < |Events(s)| && Reports(cat, s.db, Events(s), BatchError(index, Events(s)[index]))
    case HealFails => false
    case _ => true
  }

  /** The ids whose change a successful fold commits. */
  function Mutations(cat: Catalog, db: Db, es: seq<Event>): multiset<string>
    requires ApplyAll(cat, db, es).Ok?
  {
    if es == [] then multiset{}
    else
      var init, last := es[..|es| - 1], es[|es| - 1];
      Mutations(cat, db, init)
      + (if last.id in ApplyAll(cat, db, init).value.markers then multiset{} else multiset{last.id})
  }

  /** The id whose change a healing step commits. */
  function HealMutation(cat: Catalog, db: Db, e: Event, poisonId: string): multiset<string> {
    if e.id != poisonId && ApplyInTx(cat, db, e).Ok? && e.id !in db.markers then multiset{e.id} else multiset{}
  }

  function AfterPoll(s: State): Life
    requires s.life.Up? && s.life.position < |s.log|
  {
    match Feed(s.life.group, s.life.position, s.log[s.life.position])
    case Refused => Down
    case Opened(g) => Up(s.life.position + 1, Some(g), Polling)
    case Full(g) => Up(s.life.position + 1, Some(g), Closing)
  }

  function After(cat: Catalog, s: State, step: Step): State
    requires Enabled(cat, s, step)
  {
    match step
    case Produce(e) => s.(log := s.log + [e])
    case Poll => s.(life := AfterPoll(s))
    case CommitBatch =>
      s.(db := ApplyAll(cat, s.db, Events(s)).value, mutated := s.mutated + Mutations(cat, s.db, Events(s)),
         life := s.life.(phase := Committing))
    case FailBatch(index) => s.(life := s.life.(phase := Healing(0, index)))
    case HealNext =>
      var h := HealOne(cat, s.db, Turn(s), Poison(s).id);
      s.(db := h.db, mutated := s.mutated + HealMutation(cat, s.db, Turn(s), Poison(s).id),
         life := if h.ok then s.life.(phase := Healing(s.life.phase.i + 1, s.life.phase.poison)) else Down)
    case HealFails =>
      s.(db := Recorded(s.db, Turn(s), REASON),
         life := s.life.(phase := Healing(s.life.phase.i + 1, s.life.phase.poison)))
    case Quarantine =>
      s.(db := Recorded(s.db, Events(s)[s.life.phase.poison], REASON), life := s.life.(phase := Committing))
    case CommitOffset => s.(offset := s.life.group.value.last + 1, life := Up(s.life.position, None, Polling))
    case Crash => s.(life := Down)
    case Restart => s.(life := Up(s.offset, None, Polling))
  }

  predicate Init(s: State) {
    s.log == [] && s.offset == 0 && s.life == Down && s.mutated == multiset{} && Quarantined(s.db)
  }

  ghost predicate Run(cat: Catalog, states: seq<State>, steps: seq<Step>) {
    && |states| == |steps| + 1 && Init(states[0])
    && forall i {:trigger steps[i]} | 0 <= i < |steps| ::
         Enabled(cat, states[i], steps[i]) && states[i + 1] == After(cat, states[i], steps[i])
  }

  // ---- groups -----------------------------------------------------------------------------------

  /** The records of one transaction id, numbered 1, 2, ... from `from` on. */
  predicate Consecutive(log: seq<Event>, from: nat, to: nat) {
    && from < to <= |log|
    && forall i | from <= i < to ::
         log[i].source.transactionId == log[from].source.transactionId && log[i].source.sequence == i - from + 1
  }

  /** A complete delivery: as many consecutive records as the transaction has events. */
  predicate Delivery(log: seq<Event>, from: nat, to: nat) {
    Consecutive(log, from, to) && log[from].source.count == to - from
  }

  /** The log up to `n` is a sequence of complete deliveries. */
  predicate Boundary(log: seq<Event>, n: nat) {
    n == 0 || exists m: nat | m < n :: Delivery(log, m, n) && Boundary(log, m)
  }

  /** The group is the stretch of the log from the committed offset to the position. */
  predicate GroupOk(log: seq<Event>, g: Group, from: nat, to: nat) {
    && Consecutive(log, from, to) && g.buffer == log[from..to]
    && g.txid == log[from].source.transactionId && g.count == log[from].source.count && g.last + 1 == to
  }

  predicate LifeOk(log: seq<Event>, offset: nat, life: Life)
    requires life.Up?
  {
    && offset <= life.position <= |log|
    && if life.group.None? then life.position == offset && life.phase == Polling
       else
         && GroupOk(log, life.group.value, offset, life.position)
         && (life.phase == Polling <==> life.position - offset != life.group.value.count)
         && (life.phase.Healing? ==>
               life.phase.i <= |life.group.value.buffer| && life.phase.poison < |life.group.value.buffer|)
  }

  predicate Structured(s: State) {
    s.offset <= |s.log| && Boundary(s.log, s.offset) && (s.life.Up? ==> LifeOk(s.log, s.offset, s.life))
  }

  lemma {:induction false} BoundaryAppend(log: seq<Event>, more: seq<Event>, n: nat)
    requires Boundary(log, n)
    ensures Boundary(log + more, n)
    decreases n
  {
    if n > 0 {
      var m: nat :| m < n && Delivery(log, m, n) && Boundary(log, m);
      BoundaryAppend(log, more, m);
      assert Delivery(log + more, m, n);
    }
  }

  lemma {:induction false} FeedKeeps(log: seq<Event>, group: Option<Group>, from: nat, to: nat)
    requires from <= to < |log|
    requires if group.None? then to == from else GroupOk(log, group.value, from, to)
    ensures match Feed(group, to, log[to])
            case Refused => true
            case Opened(g) => GroupOk(log, g, from, to + 1) && to + 1 - from != g.count
            case Full(g) => GroupOk(log, g, from, to + 1) && to + 1 - from == g.count
  {
    assert log[from..to] + [log[to]] == log[from..to + 1];
  }

  lemma {:induction false} ProduceStructured(s: State, e: Event)
    requires Structured(s)
    ensures Structured(s.(log := s.log + [e]))
  {
    BoundaryAppend(s.log, [e], s.offset);
    if s.life.Up? && s.life.group.Some? {
      assert (s.log + [e])[s.offset..s.life.position] == s.log[s.offset..s.life.position];
    }
  }

  lemma {:induction false} StepStructured(cat: Catalog, s: State, step: Step)
    requires Structured(s) && Enabled(cat, s, step)
    ensures Structured(After(cat, s, step))
  {
    match step
    case Produce(e) => ProduceStructured(s, e);
    case Poll => FeedKeeps(s.log, s.life.group, s.offset, s.life.position);
    case CommitOffset => assert Delivery(s.log, s.offset, s.life.position);
    case _ =>
  }

  lemma {:induction false} RunStructured(cat: Catalog, states: seq<State>, steps: seq<Step>,
      i: nat)
    requires Run(cat, states, steps) && i < |states|
    ensures Structured(states[i])
  {
    if i > 0 {
      RunStructured(cat, states, steps, i - 1);
      StepStructured(cat, states[i - 1], steps[i - 1]);
    }
  }

  /**
    No splicing, over any Kafka log whatever: a group that is being closed is exactly the
    records since the committed offset, all of one transaction id, numbered 1 to its count;
    a group open at a poll has not that many; and the committed offset is always the end of
    a complete delivery.
  */
  lemma {:induction false} GroupsAreWhole(cat: Catalog, states: seq<State>, steps: seq<Step>,
      i: nat)
    requires Run(cat, states, steps) && i < |states|
    ensures Boundary(states[i].log, states[i].offset)
    ensures states[i].life.Up? && states[i].life.group.Some? ==>
              var s := states[i];
              && Consecutive(s.log, s.offset, s.life.position)
              && s.life.group.value.buffer == s.log[s.offset..s.life.position]
              && (s.life.phase != Polling <==> Delivery(s.log, s.offset, s.life.position))
  {
    RunStructured(cat, states, steps, i);
  }

  // ---- getting past the offset --------------------------------------------------------------------

  /** A writer that has read `from..to` into its group. */
  function Holding(log: seq<Event>, from: nat, to: nat): (g: Group)
    requires from < to <= |log|
    ensures GroupOk(log, g, from, to) <==> Consecutive(log, from, to)
  {
    Group(log[from].source.transactionId, log[from].source.count, log[from..to], to - 1)
  }

  /**
    A poll refuses its record if and only if the records since the committed offset, this
    one included, are not one transaction numbered from 1; otherwise the group holds them
    all, and it closes with the last one of the transaction's count.
  */
  lemma {:induction false} RefusedExactlyWhen(cat: Catalog, s: State)
    requires Structured(s) && Enabled(cat, s, Poll)
    ensures var life, p := After(cat, s, Poll).life, s.life.position;
            && (life.Down? <==> !Consecutive(s.log, s.offset, p + 1))
            && (life.Up? ==>
                  && life.position == p + 1 && life.group == Some(Holding(s.log, s.offset, p + 1))
                  && life.phase == if Delivery(s.log, s.offset, p + 1) then Closing else Polling)
  {
    var p := s.life.position;
    FeedKeeps(s.log, s.life.group, s.offset, p);
    assert s.log[s.offset..p] + [s.log[p]] == s.log[s.offset..p + 1];
    if Consecutive(s.log, s.offset, p + 1) {
      assert s.log[p].source.sequence == p - s.offset + 1;
      assert s.log[p].source.transactionId == s.log[s.offset].source.transactionId;
    }
  }

  /** Steps that can be taken one after another from `states[0]`. */
  ghost predicate Path(cat: Catalog, states: seq<State>, steps: seq<Step>) {
    && |states| == |steps| + 1
    && forall i {:trigger steps[i]} | 0 <= i < |steps| ::
         Enabled(cat, states[i], steps[i]) && states[i + 1] == After(cat, states[i], steps[i])
  }

  lemma {:induction false} PathAppend(cat: Catalog, states: seq<State>, steps: seq<Step>, step: Step)
    requires Path(cat, states, steps) && Enabled(cat, states[|steps|], step)
    ensures Path(cat, states + [After(cat, states[|steps|], step)], steps + [step])
  {
    var longer, more := states + [After(cat, states[|steps|], step)], steps + [step];
    forall i {:trigger more[i]} | 0 <= i < |more|
      ensures Enabled(cat, longer[i], more[i]) && longer[i + 1] == After(cat, longer[i], more[i])
    {
      assert i < |steps| ==> more[i] == steps[i];
    }
  }

  /** The writer has read the first `k` records of a delivery that ends at `n`. */
  function Reading(s: State, n: nat, k: nat): State
    requires s.offset + k <= n <= |s.log|
  {
    if k == 0 then s
    else s.(life := Up(s.offset + k, Some(Holding(s.log, s.offset, s.offset + k)),
                       if s.offset + k == n then Closing else Polling))
  }

  /** What precedes the end of a delivery is consecutive, and not a delivery itself. */
  lemma {:induction false} DeliveryEndsOnce(log: seq<Event>, from: nat, m: nat, n: nat)
    requires Delivery(log, from, n) && from < m <= n
    ensures Consecutive(log, from, m) && (Delivery(log, from, m) <==> m == n)
  {
  }

  lemma {:induction false} ReadsNext(cat: Catalog, r: State, n: nat)
    requires Structured(r) && Enabled(cat, r, Poll)
    requires Delivery(r.log, r.offset, n) && r.life.position < n
    ensures var p := r.life.position + 1;
            After(cat, r, Poll) == r.(life := Up(p, Some(Holding(r.log, r.offset, p)),
                                                 if p == n then Closing else Polling))
  {
    RefusedExactlyWhen(cat, r);
    DeliveryEndsOnce(r.log, r.offset, r.life.position + 1, n);
  }

  lemma {:induction false} ReadsOn(cat: Catalog, s: State, n: nat, k: nat)
    requires s.life == Up(s.offset, None, Polling) && Delivery(s.log, s.offset, n) && s.offset + k < n
    requires Structured(Reading(s, n, k))
    ensures Enabled(cat, Reading(s, n, k), Poll) && After(cat, Reading(s, n, k), Poll) == Reading(s, n, k + 1)
    ensures Structured(Reading(s, n, k + 1))
  {
    ReadsNext(cat, Reading(s, n, k), n);
    StepStructured(cat, Reading(s, n, k), Poll);
  }

  lemma {:induction false} Further(cat: Catalog, states: seq<State>, steps: seq<Step>, step: Step)
    returns (longer: seq<State>, more: seq<Step>)
    requires Path(cat, states, steps) && Enabled(cat, states[|steps|], step)
    ensures Path(cat, longer, more) && longer[0] == states[0] && more == steps + [step]
    ensures longer[|more|] == After(cat, states[|steps|], step)
  {
    PathAppend(cat, states, steps, step);
    longer, more := states + [After(cat, states[|steps|], step)], steps + [step];
  }

  /**
    No refusal: a writer at the start of a complete delivery reads all of it, refusing
    nothing, and the last record closes a group that is exactly the delivery.
  */
  lemma {:induction false} DeliveryCloses(cat: Catalog, s: State, n: nat) returns (states: seq<State>, steps: seq<Step>)
    requires Structured(s) && s.life == Up(s.offset, None, Polling)
    requires Delivery(s.log, s.offset, n)
    ensures Path(cat, states, steps) && states[0] == s
    ensures |steps| == n - s.offset && forall i | 0 <= i < |steps| :: steps[i] == Poll
    ensures states[|steps|] == s.(life := Up(n, Some(Holding(s.log, s.offset, n)), Closing))
  {
    states, steps := [s], [];
    for k := 0 to n - s.offset
      invariant Path(cat, states, steps) && states[0] == s
      invariant |steps| == k && forall i | 0 <= i < |steps| :: steps[i] == Poll
      invariant states[|steps|] == Reading(s, n, k) && Structured(Reading(s, n, k))
    {
      ReadsOn(cat, s, n, k);
      states, steps := Further(cat, states, steps, Poll);
    }
  }

  /** When the batch applies, the writer then commits it and moves its offset past the delivery. */
  lemma {:induction false} DeliveryIsApplied(cat: Catalog, s: State, n: nat)
    returns (states: seq<State>, steps: seq<Step>)
    requires Structured(s) && s.life == Up(s.offset, None, Polling)
    requires Delivery(s.log, s.offset, n) && ApplyAll(cat, s.db, s.log[s.offset..n]).Ok?
    ensures Path(cat, states, steps) && states[0] == s
    ensures forall i | 0 <= i < |steps| :: steps[i].Poll? || steps[i].CommitBatch? || steps[i].CommitOffset?
    ensures var end := states[|steps|];
            && end.log == s.log && end.offset == n && end.life == Up(n, None, Polling)
            && Ok(end.db) == ApplyAll(cat, s.db, s.log[s.offset..n])
  {
    states, steps := DeliveryCloses(cat, s, n);
    assert Events(states[|steps|]) == s.log[s.offset..n];
    states, steps := Further(cat, states, steps, CommitBatch);
    states, steps := Further(cat, states, steps, CommitOffset);
  }

  /** The state after the first `i` healing steps of a closed group whose event `k` was reported. */
  predicate HealedTo(cat: Catalog, s: State, end: State, n: nat, k: nat, i: nat)
    requires s.offset < n <= |s.log| && k < n - s.offset && i <= n - s.offset
  {
    var es := s.log[s.offset..n];
    && HealUpTo(cat, s.db, es, es[k].id, i) == Healed(end.db, true)
    && end.log == s.log && end.offset == s.offset
    && end.life == Up(n, Some(Holding(s.log, s.offset, n)), Healing(i, k))
  }

  lemma {:induction false} HealedSoFar(cat: Catalog, db: Db, es: seq<Event>, poisonId: string, i: nat, n: nat)
    requires i <= n <= |es| && HealUpTo(cat, db, es, poisonId, n).ok
    ensures HealUpTo(cat, db, es, poisonId, i).ok
  {
    if !HealUpTo(cat, db, es, poisonId, i).ok {
      StoppedHealing(cat, db, es, poisonId, i, n);
    }
  }

  lemma {:induction false} HealsOn(cat: Catalog, s: State, mid: State, n: nat, k: nat, i: nat)
    requires s.offset < n <= |s.log| && k < n - s.offset && i < n - s.offset && HealedTo(cat, s, mid, n, k, i)
    requires HealUpTo(cat, s.db, s.log[s.offset..n], s.log[s.offset..n][k].id, i + 1).ok
    ensures Enabled(cat, mid, HealNext) && HealedTo(cat, s, After(cat, mid, HealNext), n, k, i + 1)
  {
    assert Turn(mid) == s.log[s.offset..n][i] && Poison(mid) == s.log[s.offset..n][k];
  }

  /** A healing step goes on to the next event: applied, dead-lettered, or the poison that waits for the end. */
  lemma {:induction false} HealingGoesOn(cat: Catalog, s: State, step: Step)
    requires Enabled(cat, s, step)
    requires step.HealFails? || (step.HealNext? && HealOne(cat, s.db, Turn(s), Poison(s).id).ok)
    ensures var t := After(cat, s, step);
            && t.life == s.life.(phase := Healing(s.life.phase.i + 1, s.life.phase.poison)) && t.offset == s.offset
            && (Turn(s).id in t.db.markers || Turn(s).id == Poison(s).id)
            && (step.HealFails? ==> Turn(s).id in t.db.letters)
  {
    if step.HealNext? && ApplyInTx(cat, s.db, Turn(s)).Ok? {
      ApplyMarks(cat, s.db, Turn(s));
    }
  }

  lemma {:induction false} HealsAll(cat: Catalog, s: State, n: nat, k: nat, states: seq<State>, steps: seq<Step>)
    returns (longer: seq<State>, more: seq<Step>)
    requires s.offset < n <= |s.log| && k < n - s.offset
    requires Path(cat, states, steps) && HealedTo(cat, s, states[|steps|], n, k, 0)
    requires HealUpTo(cat, s.db, s.log[s.offset..n], s.log[s.offset..n][k].id, n - s.offset).ok
    ensures Path(cat, longer, more) && longer[0] == states[0]
    ensures HealedTo(cat, s, longer[|more|], n, k, n - s.offset)
  {
    longer, more := states, steps;
    for i := 0 to n - s.offset
      invariant Path(cat, longer, more) && longer[0] == states[0]
      invariant HealedTo(cat, s, longer[|more|], n, k, i)
    {
      HealedSoFar(cat, s.db, s.log[s.offset..n], s.log[s.offset..n][k].id, i + 1, n - s.offset);
      HealsOn(cat, s, longer[|more|], n, k, i);
      longer, more := Further(cat, longer, more, HealNext);
    }
  }

  lemma {:induction false} StartsHealing(cat: Catalog, s: State, n: nat, k: nat)
    returns (states: seq<State>, steps: seq<Step>)
    requires Structured(s) && s.life == Up(s.offset, None, Polling)
    requires Delivery(s.log, s.offset, n) && k < n - s.offset
    requires var es := s.log[s.offset..n]; Shaped(es[k]) ==> Batch.Fresh(s.db, es, k)
    ensures Path(cat, states, steps) && states[0] == s && HealedTo(cat, s, states[|steps|], n, k, 0)
  {
    states, steps := DeliveryCloses(cat, s, n);
    states, steps := Further(cat, states, steps, FailBatch(k));
  }

  lemma {:induction false} EndsHealing(cat: Catalog, s: State, n: nat, k: nat, states: seq<State>, steps: seq<Step>)
    returns (longer: seq<State>, more: seq<Step>)
    requires s.offset < n <= |s.log| && k < n - s.offset
    requires Path(cat, states, steps) && HealedTo(cat, s, states[|steps|], n, k, n - s.offset)
    ensures Path(cat, longer, more) && longer[0] == states[0]
    ensures var end := longer[|more|];
            && end.log == s.log && end.offset == n && end.life == Up(n, None, Polling)
            && end.db == Poisoned(cat, s.db, s.log[s.offset..n], s.log[s.offset..n][k]).db
  {
    longer, more := Further(cat, states, steps, Quarantine);
    longer, more := Further(cat, longer, more, CommitOffset);
  }

  /**
    When the batch fails and its healing goes through, the writer heals every event, quarantines
    the reported one and moves its offset past the delivery.
  */
  lemma {:induction false} DeliveryIsHealed(cat: Catalog, s: State, n: nat, k: nat)
    returns (states: seq<State>, steps: seq<Step>)
    requires Structured(s) && s.life == Up(s.offset, None, Polling)
    requires Delivery(s.log, s.offset, n) && k < n - s.offset
    requires Reports(cat, s.db, s.log[s.offset..n], BatchError(k, s.log[s.offset..n][k]))
    requires Poisoned(cat, s.db, s.log[s.offset..n], s.log[s.offset..n][k]).ok
    ensures Path(cat, states, steps) && states[0] == s
    ensures var end := states[|steps|];
            && end.log == s.log && end.offset == n && end.life == Up(n, None, Polling)
            && end.db == Poisoned(cat, s.db, s.log[s.offset..n], s.log[s.offset..n][k]).db
  {
    states, steps := StartsHealing(cat, s, n, k);
    states, steps := HealsAll(cat, s, n, k, states, steps);
    states, steps := EndsHealing(cat, s, n, k, states, steps);
  }

  /** The records since the offset stop being one transaction at `p`, and no delivery ends before. */
  predicate Blocked(log: seq<Event>, offset: nat, p: nat) {
    && offset < p <= |log| && !Consecutive(log, offset, p)
    && forall n | offset < n < p :: !Delivery(log, offset, n)
  }

  lemma {:induction false} NoDelivery(log: seq<Event>, offset: nat, p: nat, n: nat)
    requires Blocked(log, offset, p)
    ensures !Delivery(log, offset, n)
  {
    if Delivery(log, offset, n) && n >= p {
      assert Consecutive(log, offset, p);
    }
  }

  lemma {:induction false} BlockedLasts(log: seq<Event>, more: seq<Event>, offset: nat, p: nat)
    requires Blocked(log, offset, p)
    ensures Blocked(log + more, offset, p)
  {
    var longer := log + more;
    forall m | offset < m <= p ensures Consecutive(longer, offset, m) <==> Consecutive(log, offset, m) {
      assert longer[offset] == log[offset];
      assert forall i | offset <= i < m :: longer[i] == log[i];
    }
    forall m | offset < m < p ensures !Delivery(longer, offset, m) {
      assert !Delivery(log, offset, m);
    }
  }

  /**
    A blocked writer never gets past its offset again: not after a crash or restart, and
    whatever is appended to the log.
  */
  lemma {:induction false} BlockedForEver(cat: Catalog, states: seq<State>, steps: seq<Step>, i: nat, j: nat, p: nat)
    requires Run(cat, states, steps) && i <= j < |states|
    requires Blocked(states[i].log, states[i].offset, p)
    ensures states[j].offset == states[i].offset && Blocked(states[j].log, states[j].offset, p)
  {
    if i < j {
      BlockedForEver(cat, states, steps, i, j - 1, p);
      RunStructured(cat, states, steps, j - 1);
      BlockedStep(cat, states[j - 1], steps[j - 1], p);
    }
  }

  lemma {:induction false} BlockedStep(cat: Catalog, s: State, step: Step, p: nat)
    requires Structured(s) && Enabled(cat, s, step) && Blocked(s.log, s.offset, p)
    ensures After(cat, s, step).offset == s.offset && Blocked(After(cat, s, step).log, s.offset, p)
  {
    if step.Produce? {
      BlockedLasts(s.log, [step.event], s.offset, p);
    } else if step.CommitOffset? {
      NoDelivery(s.log, s.offset, p, s.life.position);
    }
  }

  /** The destination never stores a row PostgreSQL would refuse, whatever the log contains. */
  lemma {:induction false} RunStaysIntact(cat: Catalog, states: seq<State>, steps: seq<Step>, i: nat)
    requires Run(cat, states, steps) && i < |states| && Integrity.Intact(cat, states[0].db)
    ensures Integrity.Intact(cat, states[i].db)
  {
    if i > 0 {
      RunStaysIntact(cat, states, steps, i - 1);
      StepStaysIntact(cat, states[i - 1], steps[i - 1]);
    }
  }

  lemma {:induction false} StepStaysIntact(cat: Catalog, s: State, step: Step)
    requires Integrity.Intact(cat, s.db) && Enabled(cat, s, step)
    ensures Integrity.Intact(cat, After(cat, s, step).db)
  {
    match step
    case CommitBatch => Integrity.FoldKeepsIntact(cat, s.db, Events(s));
    case HealNext =>
      if ApplyInTx(cat, s.db, Turn(s)).Ok? {
        Integrity.ApplyKeepsIntact(cat, s.db, Turn(s));
      }
    case _ =>
  }

  // ---- accounting ----------------------------------------------------------------------------------

  lemma {:induction false} MutationsCount(cat: Catalog, db: Db, es: seq<Event>, id: string)
    requires ApplyAll(cat, db, es).Ok?
    ensures Mutations(cat, db, es)[id] == if id in Ids(es) && id !in db.markers then 1 else 0
  {
    if es != [] {
      var init, last := es[..|es| - 1], es[|es| - 1];
      MutationsCount(cat, db, init, id);
      Replay.FoldMarks(cat, db, init);
      Replay.IdsOfAll(es);
    }
  }

  /** Markers are what was known before, what was mutated, and what was quarantined; the last two never overlap. */
  predicate Accounted(named: string -> Event, before: set<string>, db: Db, mutated: multiset<string>) {
    && Quarantined(db)
    && (forall id | id in db.markers :: id in before || id in mutated || id in db.letters)
    && before <= db.markers.Keys
    && (forall id | id in mutated ::
         mutated[id] == 1 && id in db.markers && id !in before && id !in db.letters && Shaped(named(id)))
  }

  predicate AllMarked(db: Db, es: seq<Event>) {
    forall i | 0 <= i < |es| :: es[i].id in db.markers
  }

  predicate PhaseOk(db: Db, mutated: multiset<string>, es: seq<Event>, phase: Phase) {
    match phase
    case Healing(i, k) =>
      && i <= |es| && k < |es| && es[k].id !in mutated
      && forall j | 0 <= j < i :: es[j].id in db.markers || es[j].id == es[k].id
    case Committing => AllMarked(db, es)
    case _ => true
  }

  /** A record is known by its id: a redelivered event is the same event. */
  predicate NamedBy(named: string -> Event, log: seq<Event>) {
    forall p | 0 <= p < |log| :: log[p] == named(log[p].id)
  }

  predicate Content(named: string -> Event, before: set<string>, s: State)
    requires Structured(s)
  {
    && NamedBy(named, s.log)
    && Accounted(named, before, s.db, s.mutated)
    && AllMarked(s.db, s.log[..s.offset])
    && (s.life.Up? && s.life.group.Some? ==> PhaseOk(s.db, s.mutated, Events(s), s.life.phase))
  }

  predicate Inv(named: string -> Event, before: set<string>, s: State) {
    Structured(s) && Content(named, before, s)
  }

  lemma {:induction false} NewMutation(named: string -> Event, before: set<string>, db: Db, d: Db,
      mutated: multiset<string>, id: string)
    requires Accounted(named, before, db, mutated) && id !in db.markers && Shaped(named(id))
    requires d.markers.Keys == db.markers.Keys + {id} && d.letters == db.letters
    ensures Accounted(named, before, d, mutated + multiset{id})
  {
    assert forall j :: j in d.markers <==> j in db.markers || j == id;
    assert id !in mutated;
  }

  lemma {:induction false} AppliedAccounts(cat: Catalog, named: string -> Event, before: set<string>, db: Db,
      mutated: multiset<string>, e: Event)
    requires Accounted(named, before, db, mutated) && e == named(e.id) && ApplyInTx(cat, db, e).Ok?
    ensures var d := ApplyInTx(cat, db, e).value;
            && Accounted(named, before, d, mutated + if e.id in db.markers then multiset{} else multiset{e.id})
            && d.markers.Keys == db.markers.Keys + {e.id}
  {
    ApplyMarks(cat, db, e);
    if e.id !in db.markers {
      NewMutation(named, before, db, ApplyInTx(cat, db, e).value, mutated, e.id);
    }
  }

  lemma {:induction false} RecordedAccounts(named: string -> Event, before: set<string>, db: Db,
      mutated: multiset<string>, e: Event)
    requires Accounted(named, before, db, mutated) && e.id !in mutated
    ensures Accounted(named, before, Recorded(db, e, REASON), mutated)
    ensures Recorded(db, e, REASON).markers.Keys == db.markers.Keys + {e.id}
  {
    var d := Recorded(db, e, REASON);
    assert d.markers.Keys == db.markers.Keys + {e.id} && d.letters.Keys == db.letters.Keys + {e.id};
    assert Quarantined(d) by {
      CallKeepsQuarantine(map[], db, Record(e, REASON));
    }
    forall id | id in d.markers ensures id in before || id in mutated || id in d.letters {
      assert id in db.markers || id == e.id;
    }
  }

  lemma {:induction false} HealAccounts(cat: Catalog, named: string -> Event, before: set<string>, db: Db,
      mutated: multiset<string>, e: Event, poisonId: string)
    requires Accounted(named, before, db, mutated) && e == named(e.id) && poisonId !in mutated
    ensures var h, m := HealOne(cat, db, e, poisonId), mutated + HealMutation(cat, db, e, poisonId);
            && Accounted(named, before, h.db, m) && poisonId !in m
            && db.markers.Keys <= h.db.markers.Keys
            && (h.ok ==> e.id in h.db.markers || e.id == poisonId)
  {
    if e.id != poisonId {
      if ApplyInTx(cat, db, e).Ok? {
        AppliedAccounts(cat, named, before, db, mutated, e);
      } else {
        RecordedAccounts(named, before, db, mutated, e);
      }
    }
  }

  lemma {:induction false} BatchAccounts(cat: Catalog, named: string -> Event, before: set<string>, db: Db,
      mutated: multiset<string>, es: seq<Event>)
    requires Accounted(named, before, db, mutated) && ApplyAll(cat, db, es).Ok?
    requires forall i | 0 <= i < |es| :: es[i] == named(es[i].id)
    ensures var d := ApplyAll(cat, db, es).value;
            && Accounted(named, before, d, mutated + Mutations(cat, db, es))
            && AllMarked(d, es) && db.markers.Keys <= d.markers.Keys
  {
    var d, m := ApplyAll(cat, db, es).value, mutated + Mutations(cat, db, es);
    Replay.FoldMarks(cat, db, es);
    Replay.FoldShapes(cat, db, es);
    forall id ensures m[id] == mutated[id] + if id in Ids(es) && id !in db.markers then 1 else 0 {
      MutationsCount(cat, db, es, id);
    }
    forall i | 0 <= i < |es| ensures es[i].id in d.markers {
      assert es[i].id in Ids(es);
    }
  }

  /** An event a failed batch reports, whatever made it fail, was never committed as a mutation. */
  lemma {:induction false} PoisonWasNotMutated(named: string -> Event, before: set<string>, db: Db,
      mutated: multiset<string>, es: seq<Event>, k: nat)
    requires Accounted(named, before, db, mutated) && k < |es| && es[k] == named(es[k].id)
    requires Shaped(es[k]) ==> Batch.Fresh(db, es, k)
    ensures es[k].id !in mutated
  {
    Batch.MarksGrow(db.markers, es[..k]);
  }

  lemma {:induction false} GroupIsNamed(named: string -> Event, log: seq<Event>, from: nat, to: nat)
    requires from <= to <= |log| && NamedBy(named, log)
    ensures forall i | 0 <= i < to - from :: log[from..to][i] == named(log[from..to][i].id)
  {
  }

  lemma {:induction false} CommitBatchStep(cat: Catalog, named: string -> Event, before: set<string>, s: State,
      step: Step)
    requires Inv(named, before, s) && Enabled(cat, s, step) && step.CommitBatch?
    ensures Inv(named, before, After(cat, s, step))
  {
    StepStructured(cat, s, step);
    GroupIsNamed(named, s.log, s.offset, s.life.position);
    BatchAccounts(cat, named, before, s.db, s.mutated, Events(s));
    MarkedStays(s.db, After(cat, s, step).db, s.log[..s.offset]);
  }

  lemma {:induction false} FailBatchStep(cat: Catalog, named: string -> Event, before: set<string>, s: State,
      step: Step)
    requires Inv(named, before, s) && Enabled(cat, s, step) && step.FailBatch?
    ensures Inv(named, before, After(cat, s, step))
  {
    StepStructured(cat, s, step);
    GroupIsNamed(named, s.log, s.offset, s.life.position);
    PoisonWasNotMutated(named, before, s.db, s.mutated, Events(s), step.index);
  }

  lemma {:induction false} HealPhase(db: Db, d: Db, mutated: multiset<string>, es: seq<Event>, i: nat, k: nat)
    requires i < |es| && k < |es| && PhaseOk(db, mutated, es, Healing(i, k)) && db.markers.Keys <= d.markers.Keys
    requires es[i].id in d.markers || es[i].id == es[k].id
    ensures forall m: multiset<string> | es[k].id !in m :: PhaseOk(d, m, es, Healing(i + 1, k))
  {
  }

  lemma {:induction false} HealStep(cat: Catalog, named: string -> Event, before: set<string>, s: State, step: Step)
    requires Inv(named, before, s) && Enabled(cat, s, step) && step.HealNext?
    ensures Inv(named, before, After(cat, s, step))
  {
    StepStructured(cat, s, step);
    HealContent(cat, named, before, s, step);
  }

  lemma {:induction false} HealContent(cat: Catalog, named: string -> Event, before: set<string>, s: State, step: Step)
    requires Inv(named, before, s) && Enabled(cat, s, step) && step.HealNext?
    requires Structured(After(cat, s, step))
    ensures Content(named, before, After(cat, s, step))
  {
    var es, i, k, d := Events(s), s.life.phase.i, s.life.phase.poison, After(cat, s, step).db;
    assert es[i] == named(es[i].id) by {
      GroupIsNamed(named, s.log, s.offset, s.life.position);
    }
    HealAccounts(cat, named, before, s.db, s.mutated, es[i], es[k].id);
    MarkedStays(s.db, d, s.log[..s.offset]);
    if After(cat, s, step).life.Up? {
      HealPhase(s.db, d, s.mutated, es, i, k);
    }
  }

  lemma {:induction false} HealFailsStep(cat: Catalog, named: string -> Event, before: set<string>, s: State,
      step: Step)
    requires Inv(named, before, s) && Enabled(cat, s, step) && step.HealFails?
    ensures Inv(named, before, After(cat, s, step))
  {
    StepStructured(cat, s, step);
    HealFailsContent(cat, named, before, s, step);
  }

  lemma {:induction false} HealFailsContent(cat: Catalog, named: string -> Event, before: set<string>, s: State,
      step: Step)
    requires Inv(named, before, s) && Enabled(cat, s, step) && step.HealFails?
    requires Structured(After(cat, s, step))
    ensures Content(named, before, After(cat, s, step))
  {
    var es, i, k, d := Events(s), s.life.phase.i, s.life.phase.poison, After(cat, s, step).db;
    assert es[i] == named(es[i].id) by {
      GroupIsNamed(named, s.log, s.offset, s.life.position);
    }
    RecordedAccounts(named, before, s.db, s.mutated, es[i]);
    MarkedStays(s.db, d, s.log[..s.offset]);
    HealPhase(s.db, d, s.mutated, es, i, k);
  }

  lemma {:induction false} QuarantineStep(cat: Catalog, named: string -> Event, before: set<string>, s: State,
      step: Step)
    requires Inv(named, before, s) && Enabled(cat, s, step) && step.Quarantine?
    ensures Inv(named, before, After(cat, s, step))
  {
    StepStructured(cat, s, step);
    GroupIsNamed(named, s.log, s.offset, s.life.position);
    RecordedAccounts(named, before, s.db, s.mutated, Events(s)[s.life.phase.poison]);
    MarkedStays(s.db, After(cat, s, step).db, s.log[..s.offset]);
  }

  lemma {:induction false} ProduceStep(cat: Catalog, named: string -> Event, before: set<string>, s: State, step: Step)
    requires Inv(named, before, s) && Enabled(cat, s, step) && step.Produce? && step.event == named(step.event.id)
    ensures Inv(named, before, After(cat, s, step))
  {
    StepStructured(cat, s, step);
    assert (s.log + [step.event])[..s.offset] == s.log[..s.offset];
  }

  lemma {:induction false} PollStep(cat: Catalog, named: string -> Event, before: set<string>, s: State, step: Step)
    requires Inv(named, before, s) && Enabled(cat, s, step) && step.Poll?
    ensures Inv(named, before, After(cat, s, step))
  {
    StepStructured(cat, s, step);
  }

  lemma {:induction false} CommitOffsetStep(cat: Catalog, named: string -> Event, before: set<string>, s: State,
      step: Step)
    requires Inv(named, before, s) && Enabled(cat, s, step) && step.CommitOffset?
    ensures Inv(named, before, After(cat, s, step))
  {
    StepStructured(cat, s, step);
    OffsetMarks(s.db, s.log, s.offset, s.life.position);
  }

  lemma {:induction false} RestartStep(cat: Catalog, named: string -> Event, before: set<string>, s: State, step: Step)
    requires Inv(named, before, s) && Enabled(cat, s, step) && (step.Crash? || step.Restart?)
    ensures Inv(named, before, After(cat, s, step))
  {
    StepStructured(cat, s, step);
  }

  lemma {:induction false} MarkedStays(db: Db, d: Db, es: seq<Event>)
    requires AllMarked(db, es) && db.markers.Keys <= d.markers.Keys
    ensures AllMarked(d, es)
  {
  }

  lemma {:induction false} StepAccounted(cat: Catalog, named: string -> Event, before: set<string>, s: State,
      step: Step)
    requires Inv(named, before, s) && Enabled(cat, s, step)
    requires step.Produce? ==> step.event == named(step.event.id)
    ensures Inv(named, before, After(cat, s, step))
  {
    match step
    case CommitBatch => CommitBatchStep(cat, named, before, s, step);
    case FailBatch(_) => FailBatchStep(cat, named, before, s, step);
    case HealNext => HealStep(cat, named, before, s, step);
    case HealFails => HealFailsStep(cat, named, before, s, step);
    case Quarantine => QuarantineStep(cat, named, before, s, step);
    case Produce(_) => ProduceStep(cat, named, before, s, step);
    case Poll => PollStep(cat, named, before, s, step);
    case CommitOffset => CommitOffsetStep(cat, named, before, s, step);
    case _ => RestartStep(cat, named, before, s, step);
  }

  lemma {:induction false} OffsetMarks(db: Db, log: seq<Event>, from: nat, to: nat)
    requires from <= to <= |log| && AllMarked(db, log[..from]) && AllMarked(db, log[from..to])
    ensures AllMarked(db, log[..to])
  {
    assert log[..to] == log[..from] + log[from..to];
  }

  lemma {:induction false} LogGrows(cat: Catalog, s: State, step: Step)
    requires Enabled(cat, s, step)
    ensures s.log <= After(cat, s, step).log
    ensures step.Produce? ==> After(cat, s, step).log == s.log + [step.event]
  {
  }

  lemma {:induction false} NamedBefore(named: string -> Event, log: seq<Event>, longer: seq<Event>)
    requires log <= longer && NamedBy(named, longer)
    ensures NamedBy(named, log)
  {
    forall p | 0 <= p < |log| ensures log[p] == named(log[p].id) {
      assert log[p] == longer[p];
    }
  }

  lemma {:induction false} RunAccounted(cat: Catalog, named: string -> Event, states: seq<State>, steps: seq<Step>,
      i: nat)
    requires Run(cat, states, steps) && i < |states| && NamedBy(named, states[i].log)
    ensures Inv(named, states[0].db.markers.Keys, states[i])
  {
    if i > 0 {
      var s, step := states[i - 1], steps[i - 1];
      LogGrows(cat, s, step);
      NamedBefore(named, s.log, states[i].log);
      RunAccounted(cat, named, states, steps, i - 1);
      if step.Produce? {
        assert states[i].log[|s.log|] == step.event;
      }
      StepAccounted(cat, named, states[0].db.markers.Keys, s, step);
    }
  }

  /**
    Poison accounting. Every event below the committed offset has its marker; and unless it
    was known before the run, its change was committed exactly once or it has a dead letter,
    never both; whatever made a batch or a healing step fail.
  */
  lemma {:induction false} EveryEventIsAccountedFor(cat: Catalog, named: string -> Event, states: seq<State>,
      steps: seq<Step>, i: nat, p: nat)
    requires Run(cat, states, steps) && i < |states| && NamedBy(named, states[i].log) && p < states[i].offset
    ensures states[i].offset <= |states[i].log|
    ensures var s, id := states[i], states[i].log[p].id;
            && id in s.db.markers
            && (id !in states[0].db.markers ==> (s.mutated[id] == 1 <==> id !in s.db.letters) && s.mutated[id] <= 1)
  {
    RunAccounted(cat, named, states, steps, i);
    assert states[i].log[..states[i].offset][p] == states[i].log[p];
  }

  /** A change is never committed twice, not even for events above the committed offset. */
  lemma {:induction false} NothingIsAppliedTwice(cat: Catalog, named: string -> Event, states: seq<State>,
      steps: seq<Step>, i: nat, id: string)
    requires Run(cat, states, steps) && i < |states| && NamedBy(named, states[i].log)
    ensures states[i].mutated[id] <= 1
    ensures id in states[i].mutated ==>
            id in states[i].db.markers && id !in states[i].db.letters && id !in states[0].db.markers
  {
    RunAccounted(cat, named, states, steps, i);
  }

  /**
    Redelivery. In every state of every run, poisoned groups included, feeding any stretch of
    the log below the committed offset again leaves the whole database as it is, just when
    all its events are well shaped.
  */
  lemma {:induction false} RedeliveryIsNoOp(cat: Catalog, named: string -> Event, states: seq<State>,
      steps: seq<Step>, i: nat, a: nat, b: nat)
    requires Run(cat, states, steps) && i < |states| && NamedBy(named, states[i].log)
    requires a <= b <= states[i].offset
    ensures states[i].offset <= |states[i].log|
    ensures ApplyAll(cat, states[i].db, states[i].log[a..b]) == Ok(states[i].db) <==>
            Replay.AllShaped(states[i].log[a..b])
  {
    RunAccounted(cat, named, states, steps, i);
    var s := states[i];
    var es := s.log[a..b];
    if Replay.AllShaped(es) {
      forall id | id in Ids(es) ensures id in s.db.markers {
        var j :| 0 <= j < |es| && es[j].id == id;
        assert s.log[..s.offset][a + j] == es[j];
      }
      Replay.MarkedIsNoOp(cat, s.db, es);
    }
    if ApplyAll(cat, s.db, es).Ok? {
      Replay.FoldShapes(cat, s.db, es);
    }
  }
}
