/**
  What the poison path leaves: the group as if it had been healed in its order, and which
  failures it quarantines (cmd/destination-writer/main.go:350-481).
*/
module Quarantine {
  import opened Wrappers
  import opened Cdc
  import opened Destination
  import opened Applier
  import opened Convergence
  import opened DeadLetters
  import opened Failures
  import opened Healing
  import opened Writer
  import Batch
  import Replay

  // ---- a record commutes with the other events -----------------------------------------------

  function RecordedIn(r: Result<Db, Failure>, p: Event): Result<Db, Failure> {
    match r case Err(f) => Err(f) case Ok(d) => Ok(Recorded(d, p, REASON))
  }

  function Tagged(markers: map<string, Lsn>, e: Event): map<string, Lsn> {
    if e.id in markers then markers else markers[e.id := e.source.commitLsn]
  }

  function Filed(letters: map<string, DeadLetter>, e: Event): map<string, DeadLetter> {
    letters[e.id := if e.id in letters then letters[e.id].(reason := REASON) else LetterOf(e, REASON)]
  }

  lemma {:induction false} RecordedParts(db: Db, e: Event)
    ensures Marked(db, e) == db.(markers := Tagged(db.markers, e))
    ensures Recorded(db, e, REASON) == db.(markers := Tagged(db.markers, e), letters := Filed(db.letters, e))
  {
  }

  lemma {:induction false} PutsCommute<K, V>(m: map<K, V>, j: K, v: V, k: K, w: V)
    requires j != k
    ensures m[j := v][k := w] == m[k := w][j := v]
  {
  }

  lemma {:induction false} TagsCommute(markers: map<string, Lsn>, e: Event, p: Event)
    requires e.id != p.id
    ensures Tagged(Tagged(markers, p), e) == Tagged(Tagged(markers, e), p)
  {
    PutsCommute(markers, p.id, p.source.commitLsn, e.id, e.source.commitLsn);
  }

  lemma {:induction false} FilesCommute(letters: map<string, DeadLetter>, e: Event, p: Event)
    requires e.id != p.id
    ensures Filed(Filed(letters, p), e) == Filed(Filed(letters, e), p)
  {
    PutsCommute(letters, p.id, Filed(letters, p)[p.id], e.id, Filed(letters, e)[e.id]);
  }

  /** A change reads and writes neither markers nor dead letters. */
  lemma {:induction false} EffectIgnoresBooks(
      cat: Catalog, db: Db, e: Event, markers: map<string, Lsn>, letters: map<string, DeadLetter>)
    ensures Effect(cat, db.(markers := markers, letters := letters), e) ==
            match Effect(cat, db, e) case Err(f) => Err(f) case Ok(d) => Ok(d.(markers := markers, letters := letters))
  {
    assert Rows(db.(markers := markers, letters := letters), Name(e)) == Rows(db, Name(e));
  }

  lemma {:induction false} EffectKeepsBooks(cat: Catalog, db: Db, e: Event)
    requires Effect(cat, db, e).Ok?
    ensures Effect(cat, db, e).value.markers == db.markers && Effect(cat, db, e).value.letters == db.letters
  {
  }

  lemma {:induction false} EffectIgnoresRecord(cat: Catalog, db: Db, e: Event, p: Event)
    ensures Effect(cat, Recorded(db, p, REASON), e) == RecordedIn(Effect(cat, db, e), p)
  {
    RecordedParts(db, p);
    EffectIgnoresBooks(cat, db, e, Tagged(db.markers, p), Filed(db.letters, p));
    if Effect(cat, db, e).Ok? {
      EffectKeepsBooks(cat, db, e);
      RecordedParts(Effect(cat, db, e).value, p);
    }
  }

  lemma {:induction false} MarkThenRecord(db: Db, e: Event, p: Event)
    requires e.id != p.id
    ensures Marked(Recorded(db, p, REASON), e) == Recorded(Marked(db, e), p, REASON)
  {
    RecordedParts(db, p);
    RecordedParts(db, e);
    RecordedParts(Recorded(db, p, REASON), e);
    RecordedParts(Marked(db, e), p);
    TagsCommute(db.markers, e, p);
  }

  lemma {:induction false} RecordThenRecord(db: Db, e: Event, p: Event)
    requires e.id != p.id
    ensures Recorded(Recorded(db, p, REASON), e, REASON) == Recorded(Recorded(db, e, REASON), p, REASON)
  {
    RecordedParts(db, p);
    RecordedParts(db, e);
    RecordedParts(Recorded(db, p, REASON), e);
    RecordedParts(Recorded(db, e, REASON), p);
    TagsCommute(db.markers, e, p);
    FilesCommute(db.letters, e, p);
  }

  lemma {:induction false} ApplyAfterRecord(cat: Catalog, db: Db, e: Event, p: Event)
    requires e.id != p.id
    ensures ApplyInTx(cat, Recorded(db, p, REASON), e) == RecordedIn(ApplyInTx(cat, db, e), p)
  {
    MarkThenRecord(db, e, p);
    EffectIgnoresRecord(cat, Marked(db, e), e, p);
  }

  lemma {:induction false} CarryAfterRecord(cat: Catalog, db: Db, e: Event, p: Event)
    requires e.id != p.id
    ensures Carry(cat, Recorded(db, p, REASON), e) == Recorded(Carry(cat, db, e), p, REASON)
  {
    ApplyAfterRecord(cat, db, e, p);
    RecordThenRecord(db, e, p);
  }

  // ---- a whole poisoned group -----------------------------------------------------------------

  lemma {:induction false} CarriedUpTo(cat: Catalog, db: Db, es: seq<Event>, i: nat)
    requires i < |es|
    ensures Carried(cat, db, es[..i + 1]) == Carry(cat, Carried(cat, db, es[..i]), es[i])
  {
    assert es[..i + 1] == es[..i] + [es[i]];
    CarriedNext(cat, db, es[..i], es[i]);
  }

  lemma {:induction false} UnfitFails(cat: Catalog, db: Db, e: Event)
    requires Unfit(cat, e) && (Shaped(e) ==> e.id !in db.markers)
    ensures ApplyInTx(cat, db, e).Err?
  {
  }

  lemma {:induction false} HealOneCarries(cat: Catalog, db: Db, e: Event, p: Event)
    requires e.id != p.id && HealOne(cat, db, e, p.id).ok
    ensures HealOne(cat, db, e, p.id).db == Carry(cat, db, e)
    ensures Recorded(HealOne(cat, db, e, p.id).db, p, REASON) == Carry(cat, Recorded(db, p, REASON), e)
  {
    CarryAfterRecord(cat, db, e, p);
  }

  /** Up to the poison, healing carries each event. */
  lemma {:induction false} HealedBefore(cat: Catalog, db: Db, es: seq<Event>, k: nat, i: nat)
    requires i <= k < |es| && DistinctIds(es) && HealUpTo(cat, db, es, es[k].id, i).ok
    ensures HealUpTo(cat, db, es, es[k].id, i).db == Carried(cat, db, es[..i])
  {
    if i > 0 {
      var j := i - 1;
      HealedBefore(cat, db, es, k, j);
      var h := HealUpTo(cat, db, es, es[k].id, j);
      assert es[j].id != es[k].id && h.ok;
      HealOneCarries(cat, h.db, es[j], es[k]);
      CarriedUpTo(cat, db, es, j);
    }
  }

  lemma {:induction false} HealingWentOn(cat: Catalog, db: Db, es: seq<Event>, poisonId: string, j: nat, i: nat)
    requires j < i <= |es| && HealUpTo(cat, db, es, poisonId, i).ok
    ensures HealUpTo(cat, db, es, poisonId, j).ok
    ensures HealUpTo(cat, db, es, poisonId, j + 1) ==
            HealOne(cat, HealUpTo(cat, db, es, poisonId, j).db, es[j], poisonId)
    ensures HealUpTo(cat, db, es, poisonId, j + 1).ok
  {
    if !HealUpTo(cat, db, es, poisonId, j + 1).ok {
      StoppedHealing(cat, db, es, poisonId, j + 1, i);
    }
  }

  lemma {:induction false} HealedAt(cat: Catalog, db: Db, es: seq<Event>, k: nat)
    requires k < |es| && DistinctIds(es) && HealUpTo(cat, db, es, es[k].id, k + 1).ok
    requires ApplyInTx(cat, Carried(cat, db, es[..k]), es[k]).Err?
    ensures HealUpTo(cat, db, es, es[k].id, k + 1) == HealUpTo(cat, db, es, es[k].id, k)
    ensures Recorded(HealUpTo(cat, db, es, es[k].id, k).db, es[k], REASON) == Carried(cat, db, es[..k + 1])
  {
    HealedBefore(cat, db, es, k, k);
    CarriedUpTo(cat, db, es, k);
  }

  lemma {:induction false} HealedNext(cat: Catalog, db: Db, es: seq<Event>, k: nat, j: nat, i: nat)
    requires k < j < i <= |es| && DistinctIds(es) && HealUpTo(cat, db, es, es[k].id, i).ok
    requires HealedTo(cat, db, es, k, j)
    ensures HealedTo(cat, db, es, k, j + 1)
  {
    HealingWentOn(cat, db, es, es[k].id, j, i);
    assert es[j].id != es[k].id;
    HealOneCarries(cat, HealUpTo(cat, db, es, es[k].id, j).db, es[j], es[k]);
    CarriedUpTo(cat, db, es, j);
  }

  /** But for the record of the poison, healing has carried the first `i` events. */
  predicate HealedTo(cat: Catalog, db: Db, es: seq<Event>, k: nat, i: nat)
    requires k < |es| && i <= |es|
  {
    Recorded(HealUpTo(cat, db, es, es[k].id, i).db, es[k], REASON) == Carried(cat, db, es[..i])
  }

  lemma {:induction false} HealedOn(cat: Catalog, db: Db, es: seq<Event>, k: nat, m: nat, i: nat)
    requires k < m <= i <= |es| && DistinctIds(es) && HealUpTo(cat, db, es, es[k].id, i).ok
    requires HealedTo(cat, db, es, k, m)
    ensures HealedTo(cat, db, es, k, i)
    decreases i - m
  {
    if m < i {
      HealedNext(cat, db, es, k, m, i);
      HealedOn(cat, db, es, k, m + 1, i);
    }
  }

  lemma {:induction false} CarryMarks(cat: Catalog, db: Db, e: Event)
    ensures Carry(cat, db, e).markers == Marked(db, e).markers
  {
    if ApplyInTx(cat, db, e).Ok? {
      ApplyMarks(cat, db, e);
    }
  }

  /** Carrying marks every event, applied or not. */
  lemma {:induction false} CarriedMarks(cat: Catalog, db: Db, es: seq<Event>)
    ensures Carried(cat, db, es).markers.Keys == db.markers.Keys + Ids(es)
  {
    if es != [] {
      var init, last := es[..|es| - 1], es[|es| - 1];
      CarriedMarks(cat, db, init);
      CarryMarks(cat, Carried(cat, db, init), last);
      Replay.IdsOfAll(es);
    }
  }

  /** The event ApplyBatch reports fails in its place. */
  lemma {:induction false} ReportedFails(cat: Catalog, db: Db, es: seq<Event>, k: nat)
    requires k < |es| && DistinctIds(es) && Reports(cat, db, es, BatchError(k, es[k]))
    ensures ApplyInTx(cat, Carried(cat, db, es[..k]), es[k]).Err?
  {
    if ApplyAll(cat, db, es[..k]).Ok? {
      CarriedIsFold(cat, db, es[..k]);
      Batch.FoldNext(cat, db, es, k);
    } else {
      if Shaped(es[k]) {
        NewIsUncarried(cat, db, es, k);
      }
      UnfitFails(cat, Carried(cat, db, es[..k]), es[k]);
    }
  }

  lemma {:induction false} NewIsUncarried(cat: Catalog, db: Db, es: seq<Event>, k: nat)
    requires k < |es| && DistinctIds(es) && Batch.Fresh(db, es, k)
    ensures es[k].id !in Carried(cat, db, es[..k]).markers
  {
    Batch.MarksGrow(db.markers, es[..k]);
    forall i | 0 <= i < k ensures es[..k][i].id != es[k].id {
      assert es[i].id != es[k].id;
    }
    CarriedMarks(cat, db, es[..k]);
  }

  /**
    A poisoned group, healed to its end, leaves exactly the database of its events carried in
    their order: leaving the poison to the last and quarantining others on the way makes no
    difference.
  */
  lemma {:induction false} HealedGroupIsCarried(cat: Catalog, db: Db, es: seq<Event>, k: nat)
    requires k < |es| && DistinctIds(es) && Reports(cat, db, es, BatchError(k, es[k]))
    requires Poisoned(cat, db, es, es[k]).ok
    ensures Poisoned(cat, db, es, es[k]).db == Carried(cat, db, es)
  {
    ReportedFails(cat, db, es, k);
    HealingWentOn(cat, db, es, es[k].id, k, |es|);
    HealedAt(cat, db, es, k);
    HealedOn(cat, db, es, k, k + 1, |es|);
    assert es[..|es|] == es;
  }

  // ---- which failures are quarantined -----------------------------------------------------------

  /** Validate rejects the event, or it changes a row of a table that is not there. */
  predicate TransientFailure(cat: Catalog, e: Event) {
    !Valid(e) || (Shaped(e) && !e.operation.Truncate? && ColumnsFree(e) && Name(e) !in cat)
  }

  /** Whether a failure is permanent depends on the event alone. */
  lemma {:induction false} FailureIsPermanentExactlyWhen(cat: Catalog, db: Db, e: Event)
    requires ApplyInTx(cat, db, e).Err?
    ensures ApplyInTx(cat, db, e).error.permanent <==> !TransientFailure(cat, e)
  {
  }

  /** What becomes of event `i` in its place. */
  function InPlace(cat: Catalog, db: Db, es: seq<Event>, i: nat): Result<Db, Failure>
    requires i < |es|
  {
    ApplyInTx(cat, Carried(cat, db, es[..i]), es[i])
  }

  lemma {:induction false} CarryLetters(cat: Catalog, db: Db, e: Event)
    ensures Carry(cat, db, e).letters.Keys == db.letters.Keys + if ApplyInTx(cat, db, e).Err? then {e.id} else {}
  {
    if ApplyInTx(cat, db, e).Ok? {
      ApplyMarks(cat, db, e);
    }
  }

  /** Carrying a group adds a dead letter for each of its events that fails in its place, and no other. */
  lemma {:induction false} CarriedLetters(cat: Catalog, db: Db, es: seq<Event>, n: nat, i: nat)
    requires n <= |es| && i < |es| && DistinctIds(es)
    ensures es[i].id in Carried(cat, db, es[..n]).letters <==>
            es[i].id in db.letters || (i < n && InPlace(cat, db, es, i).Err?)
  {
    if n == 0 {
      assert es[..n] == [];
    } else {
      var j := n - 1;
      CarriedLetters(cat, db, es, j, i);
      CarriedUpTo(cat, db, es, j);
      CarryLetters(cat, Carried(cat, db, es[..j]), es[j]);
      assert i != j ==> es[i].id != es[j].id;
    }
  }

  lemma {:induction false} HealedFailureIsPermanent(cat: Catalog, db: Db, es: seq<Event>, k: nat, i: nat)
    requires k < |es| && i < |es| && i != k && DistinctIds(es) && HealUpTo(cat, db, es, es[k].id, |es|).ok
    requires ApplyInTx(cat, HealUpTo(cat, db, es, es[k].id, i).db, es[i]).Err?
    ensures !TransientFailure(cat, es[i])
  {
    HealingWentOn(cat, db, es, es[k].id, i, |es|);
    assert es[i].id != es[k].id;
    FailureIsPermanentExactlyWhen(cat, HealUpTo(cat, db, es, es[k].id, i).db, es[i]);
  }

  /** An event of the group but the poison fails in its place just when it fails in the healing. */
  lemma {:induction false} FailsInHealing(cat: Catalog, db: Db, es: seq<Event>, k: nat, i: nat)
    requires k < |es| && i < |es| && i != k && DistinctIds(es) && HealUpTo(cat, db, es, es[k].id, |es|).ok
    requires InPlace(cat, db, es, k).Err? && InPlace(cat, db, es, i).Err?
    ensures ApplyInTx(cat, HealUpTo(cat, db, es, es[k].id, i).db, es[i]).Err?
  {
    HealingWentOn(cat, db, es, es[k].id, i, |es|);
    if i < k {
      HealedBefore(cat, db, es, k, i);
    } else {
      HealingWentOn(cat, db, es, es[k].id, k, |es|);
      HealedAt(cat, db, es, k);
      HealedOn(cat, db, es, k, k + 1, i);
      assert es[i].id != es[k].id;
      ApplyAfterRecord(cat, HealUpTo(cat, db, es, es[k].id, i).db, es[i], es[k]);
    }
  }

  /**
    A poisoned group adds dead letters for exactly the events that fail in their place, the
    reported one among them; and all those failures are permanent, but for the reported one
    when Validate rejects it or its table is not there.
  */
  lemma {:induction false} QuarantinedExactlyWhen(cat: Catalog, db: Db, es: seq<Event>, k: nat, i: nat)
    requires k < |es| && i < |es| && DistinctIds(es) && Reports(cat, db, es, BatchError(k, es[k]))
    requires Poisoned(cat, db, es, es[k]).ok
    ensures es[i].id in Poisoned(cat, db, es, es[k]).db.letters <==>
            es[i].id in db.letters || InPlace(cat, db, es, i).Err?
    ensures i == k ==> InPlace(cat, db, es, i).Err?
    ensures InPlace(cat, db, es, i).Err? ==>
              (InPlace(cat, db, es, i).error.permanent <==> i != k || !TransientFailure(cat, es[k]))
  {
    ReportedFails(cat, db, es, k);
    HealedGroupIsCarried(cat, db, es, k);
    CarriedLetters(cat, db, es, |es|, i);
    assert es[..|es|] == es;
    if InPlace(cat, db, es, i).Err? {
      FailureIsPermanentExactlyWhen(cat, Carried(cat, db, es[..i]), es[i]);
      if i != k {
        FailsInHealing(cat, db, es, k, i);
        HealedFailureIsPermanent(cat, db, es, k, i);
      }
    }
  }

  // ---- carried again ----------------------------------------------------------------------------

  lemma {:induction false} CarriedAppend(cat: Catalog, db: Db, a: seq<Event>, b: seq<Event>)
    ensures Carried(cat, db, a + b) == Carried(cat, Carried(cat, db, a), b)
  {
    if b == [] {
      assert a + b == a;
    } else {
      var init, last := b[..|b| - 1], b[|b| - 1];
      assert a + b == (a + init) + [last];
      CarriedAppend(cat, db, a, init);
      CarriedNext(cat, db, a + init, last);
    }
  }

  /** The event is marked, and has its dead letter if its shape is bad. */
  predicate Settled(d: Db, e: Event) {
    && e.id in d.markers
    && (!Shaped(e) ==> e.id in d.letters && d.letters[e.id].reason == REASON)
  }

  lemma {:induction false} CarrySettles(cat: Catalog, d: Db, e: Event)
    ensures Settled(Carry(cat, d, e), e)
  {
    CarryMarks(cat, d, e);
  }

  lemma {:induction false} CarryKeepsSettled(cat: Catalog, d: Db, e: Event, f: Event)
    requires Settled(d, e)
    ensures Settled(Carry(cat, d, f), e)
  {
    CarryMarks(cat, d, f);
    if ApplyInTx(cat, d, f).Ok? {
      ApplyMarks(cat, d, f);
    }
  }

  lemma {:induction false} CarriedSettles(cat: Catalog, db: Db, es: seq<Event>, i: nat)
    requires i < |es|
    ensures Settled(Carried(cat, db, es), es[i])
  {
    var init, last := es[..|es| - 1], es[|es| - 1];
    var d := Carried(cat, db, init);
    if i == |es| - 1 {
      CarrySettles(cat, d, last);
    } else {
      CarriedSettles(cat, db, init, i);
      CarryKeepsSettled(cat, d, es[i], last);
    }
  }

  lemma {:induction false} SettledStays(cat: Catalog, d: Db, e: Event)
    requires Settled(d, e)
    ensures Carry(cat, d, e) == d
  {
    if !Shaped(e) {
      RecordedParts(d, e);
      assert Filed(d.letters, e) == d.letters;
    }
  }

  lemma {:induction false} AllSettledStays(cat: Catalog, d: Db, es: seq<Event>)
    requires forall i | 0 <= i < |es| :: Settled(d, es[i])
    ensures Carried(cat, d, es) == d
  {
    if es != [] {
      AllSettledStays(cat, d, es[..|es| - 1]);
      SettledStays(cat, d, es[|es| - 1]);
    }
  }

  /** Carrying any stretch of what was carried again changes nothing. */
  lemma {:induction false} CarriedAgain(cat: Catalog, db: Db, a: seq<Event>, es: seq<Event>, b: seq<Event>)
    ensures var d := Carried(cat, db, a + es + b); Carried(cat, d, es) == d
  {
    var d := Carried(cat, db, a + es + b);
    forall i | 0 <= i < |es| ensures Settled(d, es[i]) {
      CarriedSettles(cat, db, a + es + b, |a| + i);
      assert (a + es + b)[|a| + i] == es[i];
    }
    AllSettledStays(cat, d, es);
  }

  // ---- a healing that stops half way ------------------------------------------------------------

  /** Carrying a group again from where it was left goes on where it was left. */
  lemma {:induction false} CarriedOver(cat: Catalog, db: Db, es: seq<Event>, i: nat)
    requires i <= |es|
    ensures Carried(cat, Carried(cat, db, es[..i]), es) == Carried(cat, db, es)
  {
    var init, rest := es[..i], es[i..];
    var d := Carried(cat, db, init);
    assert es == init + rest && [] + init + [] == init;
    CarriedAgain(cat, db, [], init, []);
    CarriedAppend(cat, d, init, rest);
    CarriedAppend(cat, db, init, rest);
  }

  lemma {:induction false} SettledBeside(d: Db, e: Event, p: Event)
    requires e.id != p.id && Settled(Recorded(d, p, REASON), e)
    ensures Settled(d, e)
  {
  }

  /** What was healed before the poison stays as it is. */
  lemma {:induction false} HealedStays(cat: Catalog, db: Db, es: seq<Event>, k: nat, i: nat, h: Db)
    requires k < i <= |es| && DistinctIds(es) && Recorded(h, es[k], REASON) == Carried(cat, db, es[..i])
    ensures Carried(cat, h, es[..k]) == h
  {
    forall j | 0 <= j < k ensures Settled(h, es[..k][j]) {
      CarriedSettles(cat, db, es[..i], j);
      assert es[j].id != es[k].id;
      SettledBeside(h, es[j], es[k]);
    }
    AllSettledStays(cat, h, es[..k]);
  }

  /** Both ways of handling the poison, from `h` on. */
  lemma {:induction false} CarriedThrough(cat: Catalog, h: Db, es: seq<Event>, k: nat)
    requires k < |es| && Carried(cat, h, es[..k]) == h
    ensures Carried(cat, h, es) == Carried(cat, Carry(cat, h, es[k]), es[k + 1..])
  {
    CarriedUpTo(cat, h, es, k);
    assert es == es[..k + 1] + es[k + 1..];
    CarriedAppend(cat, h, es[..k + 1], es[k + 1..]);
  }

  /** From a database that has settled the group up to the poison and the poison too, only the rest counts. */
  lemma {:induction false} CarriedRest(cat: Catalog, db: Db, es: seq<Event>, k: nat, i: nat)
    requires k < i <= |es|
    ensures var r := Carried(cat, db, es[..i]); Carried(cat, r, es[k + 1..]) == Carried(cat, r, es)
  {
    var r := Carried(cat, db, es[..i]);
    var done := es[..k + 1];
    forall j | 0 <= j < |done| ensures Settled(r, done[j]) {
      CarriedSettles(cat, db, es[..i], j);
    }
    AllSettledStays(cat, r, done);
    assert es == done + es[k + 1..];
    CarriedAppend(cat, r, done, es[k + 1..]);
  }

  lemma {:induction false} HealingFilesNot(cat: Catalog, db: Db, es: seq<Event>, id: string, i: nat)
    requires i <= |es| && id !in db.letters
    ensures id !in HealUpTo(cat, db, es, id, i).db.letters
  {
    if i > 0 {
      var h := HealUpTo(cat, db, es, id, i - 1);
      HealingFilesNot(cat, db, es, id, i - 1);
      if h.ok && es[i - 1].id != id && ApplyInTx(cat, h.db, es[i - 1]).Ok? {
        ApplyMarks(cat, h.db, es[i - 1]);
      }
    }
  }

  /** The poison, if it goes through after all, is missing among the dead letters. */
  lemma {:induction false} NotMended(cat: Catalog, db: Db, es: seq<Event>, k: nat, h: Db)
    requires k < |es| && DistinctIds(es) && InPlace(cat, db, es, k).Err?
    requires Carried(cat, h, es[..k]) == h && ApplyInTx(cat, h, es[k]).Ok? && es[k].id !in h.letters
    ensures Carried(cat, h, es) != Carried(cat, db, es)
  {
    CarriedLetters(cat, h, es, |es|, k);
    CarriedLetters(cat, db, es, |es|, k);
    assert es[..|es|] == es;
  }

  /** Where the next delivery of the group mends it. */
  lemma {:induction false} BrokenHealingIsMended(cat: Catalog, db: Db, es: seq<Event>, k: nat, i: nat)
    requires k < |es| && i <= |es| && DistinctIds(es) && Reports(cat, db, es, BatchError(k, es[k]))
    requires HealUpTo(cat, db, es, es[k].id, i).ok
    requires i <= k || ApplyInTx(cat, HealUpTo(cat, db, es, es[k].id, i).db, es[k]).Err?
    ensures Carried(cat, HealUpTo(cat, db, es, es[k].id, i).db, es) == Carried(cat, db, es)
  {
    var h := HealUpTo(cat, db, es, es[k].id, i).db;
    ReportedFails(cat, db, es, k);
    if i <= k {
      HealedBefore(cat, db, es, k, i);
      CarriedOver(cat, db, es, i);
    } else {
      HealedToHere(cat, db, es, k, i);
      HealedStays(cat, db, es, k, i, h);
      CarriedThrough(cat, h, es, k);
      CarriedRest(cat, db, es, k, i);
      CarriedOver(cat, db, es, i);
    }
  }

  lemma {:induction false} HealedToHere(cat: Catalog, db: Db, es: seq<Event>, k: nat, i: nat)
    requires k < i <= |es| && DistinctIds(es) && InPlace(cat, db, es, k).Err? && HealUpTo(cat, db, es, es[k].id, i).ok
    ensures HealedTo(cat, db, es, k, i)
  {
    HealingWentOn(cat, db, es, es[k].id, k, i);
    HealedAt(cat, db, es, k);
    HealedOn(cat, db, es, k, k + 1, i);
  }

  /** It is mended just when it had not gone past the poison, or the poison fails again on what it left. */
  lemma {:induction false} MendedWhenItFailsAgain(cat: Catalog, db: Db, es: seq<Event>, k: nat, i: nat)
    requires k < |es| && i <= |es| && DistinctIds(es) && Quarantined(db)
    requires Reports(cat, db, es, BatchError(k, es[k])) && HealUpTo(cat, db, es, es[k].id, i).ok
    ensures var h := HealUpTo(cat, db, es, es[k].id, i).db;
            Carried(cat, h, es) == Carried(cat, db, es) <==> i <= k || ApplyInTx(cat, h, es[k]).Err?
  {
    var h := HealUpTo(cat, db, es, es[k].id, i).db;
    if i <= k || ApplyInTx(cat, h, es[k]).Err? {
      BrokenHealingIsMended(cat, db, es, k, i);
    } else {
      ReportedFails(cat, db, es, k);
      HealedToHere(cat, db, es, k, i);
      HealedStays(cat, db, es, k, i, h);
      Batch.MarksGrow(db.markers, es[..k]);
      HealingFilesNot(cat, db, es, es[k].id, i);
      NotMended(cat, db, es, k, h);
    }
  }

  // ---- on databases and events that are in order ------------------------------------------------

  /** The rows of the catalog's tables have their columns, their keys and their types. */
  predicate Sound(cat: Catalog, d: Db) {
    DbOk(cat, d) && DbFit(cat, d)
  }

  predicate SoundEvent(cat: Catalog, e: Event) {
    Acceptable(cat, e) && Fit(cat, e)
  }

  predicate AllSound(cat: Catalog, es: seq<Event>) {
    forall i | 0 <= i < |es| :: SoundEvent(cat, es[i])
  }

  lemma {:induction false} SameRowsSound(cat: Catalog, d: Db, after: Db)
    requires Sound(cat, d) && after.tables == d.tables
    ensures Sound(cat, after)
  {
    assert forall n :: Rows(after, n) == Rows(d, n);
  }

  lemma {:induction false} SoundApply(cat: Catalog, d: Db, e: Event)
    requires CatalogOk(cat) && Sound(cat, d) && SoundEvent(cat, e) && ApplyInTx(cat, d, e).Ok?
    ensures Sound(cat, ApplyInTx(cat, d, e).value)
  {
    if e.id !in d.markers {
      if NotStale(d, e) {
        FittingEntries(cat, d);
        AppliedFits(cat, d, e);
        ApplyOnEntries(cat, d, e);
        EntriesFitDb(cat, ApplyInTx(cat, d, e).value);
      } else {
        Replay.StaleTruncateOnlyMarks(cat, d, e);
        SameRowsSound(cat, d, Marked(d, e));
      }
    }
  }

  lemma {:induction false} SoundCarry(cat: Catalog, d: Db, e: Event)
    requires CatalogOk(cat) && Sound(cat, d) && SoundEvent(cat, e)
    ensures Sound(cat, Carry(cat, d, e))
  {
    if ApplyInTx(cat, d, e).Ok? {
      SoundApply(cat, d, e);
    } else {
      SameRowsSound(cat, d, Recorded(d, e, REASON));
    }
  }

  lemma {:induction false} SoundCarried(cat: Catalog, d: Db, es: seq<Event>)
    requires CatalogOk(cat) && Sound(cat, d) && AllSound(cat, es)
    ensures Sound(cat, Carried(cat, d, es))
  {
    if es != [] {
      var init, last := es[..|es| - 1], es[|es| - 1];
      SoundCarried(cat, d, init);
      SoundCarry(cat, Carried(cat, d, init), last);
    }
  }

  /** A sound event fails for good, so the healing goes on. */
  lemma {:induction false} SoundHealOne(cat: Catalog, d: Db, e: Event, poisonId: string)
    requires CatalogOk(cat) && Sound(cat, d) && SoundEvent(cat, e)
    ensures HealOne(cat, d, e, poisonId).ok && Sound(cat, HealOne(cat, d, e, poisonId).db)
    ensures HealOne(cat, d, e, poisonId).db == if e.id == poisonId then d else Carry(cat, d, e)
  {
    SoundCarry(cat, d, e);
    if ApplyInTx(cat, d, e).Err? {
      FailureIsPermanentExactlyWhen(cat, d, e);
    }
  }

  lemma {:induction false} SoundHealing(cat: Catalog, db: Db, es: seq<Event>, poisonId: string, i: nat)
    requires CatalogOk(cat) && Sound(cat, db) && AllSound(cat, es) && i <= |es|
    ensures HealUpTo(cat, db, es, poisonId, i).ok && Sound(cat, HealUpTo(cat, db, es, poisonId, i).db)
    ensures poisonId !in db.markers ==> poisonId !in HealUpTo(cat, db, es, poisonId, i).db.markers
  {
    if i > 0 {
      var j := i - 1;
      SoundHealing(cat, db, es, poisonId, j);
      var h := HealUpTo(cat, db, es, poisonId, j).db;
      SoundHealOne(cat, h, es[j], poisonId);
      CarryMarks(cat, h, es[j]);
    }
  }

  /** A sound event that is new fails just when it lacks the row it needs. */
  lemma {:induction false} SoundFails(cat: Catalog, d: Db, e: Event)
    requires CatalogOk(cat) && Sound(cat, d) && SoundEvent(cat, e) && e.id !in d.markers
    ensures ApplyInTx(cat, d, e).Err? <==> NeedsRow(cat[Name(e)], e) && e.key !in Rows(d, Name(e))
  {
    FailsExactlyWhen(cat, d, e);
  }

  lemma {:induction false} SoundIsNotUnfit(cat: Catalog, e: Event)
    requires SoundEvent(cat, e)
    ensures !Unfit(cat, e)
  {
    if !e.operation.Truncate? {
      AcceptablePassesChecks(cat[Name(e)], e);
    }
  }

  /** The reported event is new, and an update that leaves a NOT NULL column unsaid. */
  lemma {:induction false} PoisonNeedsRow(cat: Catalog, db: Db, es: seq<Event>, k: nat)
    requires CatalogOk(cat) && Sound(cat, db) && AllSound(cat, es)
    requires k < |es| && Reports(cat, db, es, BatchError(k, es[k]))
    ensures es[k].id !in db.markers && NeedsRow(cat[Name(es[k])], es[k])
    ensures es[k].key !in Rows(Carried(cat, db, es[..k]), Name(es[k]))
  {
    SoundIsNotUnfit(cat, es[k]);
    Batch.MarksGrow(db.markers, es[..k]);
    Batch.FoldNext(cat, db, es, k);
    CarriedIsFold(cat, db, es[..k]);
    var d := Carried(cat, db, es[..k]);
    SoundCarried(cat, db, es[..k]);
    SoundFails(cat, d, es[k]);
  }

  /**
    A healing that stops after `i` events, by a crash or an error that is not permanent, is
    mended by the next delivery of the group just when it had not gone past the poison, or
    had not brought back the row whose absence made the poison fail: otherwise the poison is
    applied out of its order.
  */
  lemma {:induction false} BrokenHealingIsMendedExactlyWhen(cat: Catalog, db: Db, es: seq<Event>, k: nat, i: nat)
    requires CatalogOk(cat) && Sound(cat, db) && AllSound(cat, es)
    requires k < |es| && i <= |es| && DistinctIds(es) && Quarantined(db)
    requires Reports(cat, db, es, BatchError(k, es[k]))
    ensures var h := HealUpTo(cat, db, es, es[k].id, i).db;
            Carried(cat, h, es) == Carried(cat, db, es) <==> i <= k || es[k].key !in Rows(h, Name(es[k]))
  {
    SoundHealing(cat, db, es, es[k].id, i);
    PoisonNeedsRow(cat, db, es, k);
    MendedWhenItFailsAgain(cat, db, es, k, i);
    SoundFails(cat, HealUpTo(cat, db, es, es[k].id, i).db, es[k]);
  }

  // ---- the same, told by the events -------------------------------------------------------------

  /** The events after the poison, up to `i`, bring its row back: the last of them that concerns it writes it. */
  predicate BringsBack(def: TableDef, es: seq<Event>, k: nat, i: nat)
    requires k < i <= |es|
    decreases i
  {
    k + 1 < i
    && var e, before := es[i - 1], BringsBack(def, es, k, i - 1);
       if !Concerns(e, Name(es[k]), es[k].key) then before
       else match e.operation
            case Insert => true
            case Update => before || !NeedsRow(def, e)
            case _ => false
  }

  /** None of the events is known yet, and all committed at one LSN, truncating no table twice. */
  predicate NewTransaction(db: Db, es: seq<Event>) {
    && DistinctIds(es) && TruncatesApart(es) && Unseen(db, es, 0)
    && forall i, j | 0 <= i < |es| && 0 <= j < |es| :: es[i].source.commitLsn == es[j].source.commitLsn
  }

  lemma {:induction false} CarryUnseen(cat: Catalog, d: Db, es: seq<Event>, m: nat)
    requires m < |es| && DistinctIds(es) && TruncatesApart(es) && DbOk(cat, d) && Unseen(d, es, m)
    ensures Unseen(Carry(cat, d, es[m]), es, m + 1)
  {
    if ApplyInTx(cat, d, es[m]).Ok? {
      UnseenStep(cat, d, es, m);
    } else {
      RecordedUnseen(cat, es, m, d);
    }
  }

  lemma {:induction false} HealingUnseen(cat: Catalog, db: Db, es: seq<Event>, poisonId: string, i: nat)
    requires CatalogOk(cat) && Sound(cat, db) && AllSound(cat, es) && NewTransaction(db, es) && i <= |es|
    ensures Unseen(HealUpTo(cat, db, es, poisonId, i).db, es, i)
  {
    if i > 0 {
      var j := i - 1;
      HealingUnseen(cat, db, es, poisonId, j);
      SoundHealing(cat, db, es, poisonId, j);
      var h := HealUpTo(cat, db, es, poisonId, j).db;
      SoundHealOne(cat, h, es[j], poisonId);
      CarryUnseen(cat, h, es, j);
    }
  }

  /** The row as the events after the poison have it: absent, or there with the LSN of the transaction. */
  predicate RowAsTold(d: Option<Stored>, back: bool, l: Lsn) {
    (d.Some? <==> back) && (d.Some? ==> GuardOk(d.value, l))
  }

  lemma {:induction false} RowStep(def: TableDef, d: Option<Stored>, e: Event, n: TableName, k: Row, back: bool)
    requires RowAsTold(d, back, e.source.commitLsn)
    requires Name(e) == n ==> e.operation.Truncate? || RowAcceptable(def, e)
    requires !(Concerns(e, n, k) && NeedsRow(def, e) && d.None?)
    ensures RowAsTold(EntryStep(def, d, e, n, k),
                      if !Concerns(e, n, k) then back
                      else match e.operation
                           case Insert => true
                           case Update => back || !NeedsRow(def, e)
                           case _ => false,
                      e.source.commitLsn)
  {
  }

  lemma {:induction false} RowCarried(cat: Catalog, h: Db, es: seq<Event>, k: nat, m: nat)
    requires CatalogOk(cat) && Sound(cat, h) && AllSound(cat, es) && k < m < |es| && Unseen(h, es, m)
    requires es[m].source.commitLsn == es[k].source.commitLsn
    requires RowAsTold(Entry(h, Name(es[k]), es[k].key), BringsBack(cat[Name(es[k])], es, k, m), es[k].source.commitLsn)
    ensures RowAsTold(Entry(Carry(cat, h, es[m]), Name(es[k]), es[k].key),
                      BringsBack(cat[Name(es[k])], es, k, m + 1), es[k].source.commitLsn)
  {
    var e, n, key := es[m], Name(es[k]), es[k].key;
    assert SoundEvent(cat, es[k]);
    SoundFails(cat, h, e);
    if ApplyInTx(cat, h, e).Ok? {
      ApplyOnEntries(cat, h, e);
      RowStep(cat[n], Entry(h, n, key), e, n, key, BringsBack(cat[n], es, k, m));
    } else {
      assert Entry(Recorded(h, e, REASON), n, key) == Entry(h, n, key);
    }
  }

  /** What the healing has made of the poison's row is what the events tell. */
  ghost predicate RowTold(cat: Catalog, db: Db, es: seq<Event>, k: nat, i: nat)
    requires k < i <= |es| && Name(es[k]) in cat
  {
    RowAsTold(Entry(HealUpTo(cat, db, es, es[k].id, i).db, Name(es[k]), es[k].key),
              BringsBack(cat[Name(es[k])], es, k, i), es[k].source.commitLsn)
  }

  lemma {:induction false} RowToldFirst(cat: Catalog, db: Db, es: seq<Event>, k: nat)
    requires CatalogOk(cat) && Sound(cat, db) && AllSound(cat, es) && DistinctIds(es)
    requires k < |es| && Name(es[k]) in cat && Reports(cat, db, es, BatchError(k, es[k]))
    ensures RowTold(cat, db, es, k, k + 1)
  {
    SoundHealing(cat, db, es, es[k].id, k);
    PoisonNeedsRow(cat, db, es, k);
    HealedBefore(cat, db, es, k, k);
    var h := HealUpTo(cat, db, es, es[k].id, k);
    assert HealUpTo(cat, db, es, es[k].id, k + 1) == h;
  }

  lemma {:induction false} RowToldNext(cat: Catalog, db: Db, es: seq<Event>, k: nat, j: nat)
    requires CatalogOk(cat) && Sound(cat, db) && AllSound(cat, es) && NewTransaction(db, es)
    requires k < j < |es| && Name(es[k]) in cat && RowTold(cat, db, es, k, j)
    ensures RowTold(cat, db, es, k, j + 1)
  {
    SoundHealing(cat, db, es, es[k].id, j);
    HealingUnseen(cat, db, es, es[k].id, j);
    var h := HealUpTo(cat, db, es, es[k].id, j);
    SoundHealOne(cat, h.db, es[j], es[k].id);
    assert es[k].id != es[j].id;
    RowCarried(cat, h.db, es, k, j);
  }

  lemma {:induction false} RowToldUpTo(cat: Catalog, db: Db, es: seq<Event>, k: nat, i: nat)
    requires CatalogOk(cat) && Sound(cat, db) && AllSound(cat, es) && NewTransaction(db, es)
    requires k < i <= |es| && Name(es[k]) in cat && RowTold(cat, db, es, k, k + 1)
    ensures RowTold(cat, db, es, k, i)
    decreases i
  {
    if k + 1 < i {
      var j := i - 1;
      RowToldUpTo(cat, db, es, k, j);
      RowToldNext(cat, db, es, k, j);
    }
  }

  /**
    For a transaction delivered for the first time the events alone decide: a healing that
    stops after `i` of them is mended just when they do not bring the poison's row back.
  */
  lemma {:induction false} NewTransactionIsMendedExactlyWhen(cat: Catalog, db: Db, es: seq<Event>, k: nat, i: nat)
    requires CatalogOk(cat) && Sound(cat, db) && AllSound(cat, es) && NewTransaction(db, es) && Quarantined(db)
    requires k < |es| && i <= |es| && Reports(cat, db, es, BatchError(k, es[k]))
    ensures Carried(cat, HealUpTo(cat, db, es, es[k].id, i).db, es) == Carried(cat, db, es) <==>
            i <= k || !BringsBack(cat[Name(es[k])], es, k, i)
  {
    assert SoundEvent(cat, es[k]);
    BrokenHealingIsMendedExactlyWhen(cat, db, es, k, i);
    if k < i {
      RowToldFirst(cat, db, es, k);
      RowToldUpTo(cat, db, es, k, i);
    }
  }
}
