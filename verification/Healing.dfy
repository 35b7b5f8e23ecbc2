/**
  A replay that quarantines what fails and goes on: it converges whatever happens, and
  it is the plain replay exactly when no update needs a row that is not there.
*/
module Healing {
  import opened Wrappers
  import opened Cdc
  import opened Destination
  import opened Convergence
  import opened DeadLetters
  import opened Failures

  /** One event as the writer heals it: applied, or a dead letter. */
  function Carry(cat: Catalog, db: Db, e: Event): Db {
    match ApplyInTx(cat, db, e) case Ok(d) => d case Err(_) => Recorded(db, e, REASON)
  }

  function Carried(cat: Catalog, db: Db, es: seq<Event>): Db {
    if es == [] then db else Carry(cat, Carried(cat, db, es[..|es| - 1]), es[|es| - 1])
  }

  lemma {:induction false} CarriedNext(cat: Catalog, db: Db, es: seq<Event>, e: Event)
    ensures Carried(cat, db, es + [e]) == Carry(cat, Carried(cat, db, es), e)
  {
    assert (es + [e])[..|es|] == es;
  }

  /** Where every event applies, nothing is quarantined. */
  lemma {:induction false} CarriedIsFold(cat: Catalog, db: Db, es: seq<Event>)
    requires ApplyAll(cat, db, es).Ok?
    ensures Carried(cat, db, es) == ApplyAll(cat, db, es).value
  {
    if es != [] {
      CarriedIsFold(cat, db, es[..|es| - 1]);
    }
  }

  // ---- what a healing step keeps --------------------------------------------------------------

  /** Entry by entry, the rows fit their table. */
  ghost predicate EntriesFit(cat: Catalog, d: Db) {
    forall n, k | n in cat && Entry(d, n, k).Some? :: FitRow(cat[n], Entry(d, n, k).value.cols)
  }

  lemma {:induction false} EntriesFitDb(cat: Catalog, d: Db)
    requires EntriesFit(cat, d)
    ensures DbFit(cat, d)
  {
    forall n, k | n in cat && k in Rows(d, n) ensures FitRow(cat[n], Rows(d, n)[k].cols) {
      assert Entry(d, n, k).Some?;
    }
  }

  /** A key the destination lacks is absent at the source too, or was when it was captured. */
  ghost predicate AbsentOk(cat: Catalog, hist: seq<Source>, at: (TableName, Row) -> nat, m: nat, d: Db)
    requires m < |hist|
  {
    forall n, k | n in cat && at(n, k) < |hist| && Entry(d, n, k).None? ::
      SourceEntry(hist[m], n, k).None? || SourceEntry(hist[at(n, k)], n, k).None?
  }

  ghost predicate CarryInv(cat: Catalog, log: seq<Event>, hist: seq<Source>, at: (TableName, Row) -> nat, m: nat, d: Db)
    requires m <= |log| && |hist| == |log| + 1
  {
    Inv(cat, log, hist, at, m, d) && EntriesFit(cat, d) && AbsentOk(cat, hist, at, m, d)
  }

  lemma {:induction false} CapturedCarryInv(
      cat: Catalog, log: seq<Event>, hist: seq<Source>, at: (TableName, Row) -> nat, p: nat, d: Db)
    requires p <= |log| && LogOk(cat, log, hist) && Captured(cat, log, hist, at, p, d)
    requires SourceFit(cat, hist[0]) && AllFit(cat, log)
    ensures CarryInv(cat, log, hist, at, p, d)
  {
    CapturedInv(cat, log, hist, at, p, d);
    forall n, k | n in cat && Entry(d, n, k).Some? ensures FitRow(cat[n], Entry(d, n, k).value.cols) {
      HistoryFits(cat, log, hist, at(n, k));
      assert Cols(Entry(d, n, k)) == SourceEntry(hist[at(n, k)], n, k);
    }
    forall n, k | n in cat && Entry(d, n, k).None? ensures SourceEntry(hist[at(n, k)], n, k).None? {
      assert Cols(Entry(d, n, k)) == SourceEntry(hist[at(n, k)], n, k);
    }
  }

  lemma {:induction false} EntryFits(def: TableDef, d: Option<Stored>, e: Event, n: TableName, k: Row)
    requires d.Some? ==> FitRow(def, d.value.cols)
    requires Name(e) == n ==> e.operation.Truncate? || (RowAcceptable(def, e) && FitRow(def, e.after))
    requires !(Name(e) == n && e.key == k && d.None? && NeedsRow(def, e))
    ensures var r := EntryStep(def, d, e, n, k); r.Some? ==> FitRow(def, r.value.cols)
  {
    if Name(e) == n && e.key == k && d.None? && (e.operation.Insert? || e.operation.Update?) {
      forall c | c in def.columns && c in def.notNull ensures c in e.after {
        assert c in e.after.Keys + Columns(e);
      }
    }
  }

  /** An event that applies keeps every row fit. */
  lemma {:induction false} AppliedFits(cat: Catalog, d: Db, e: Event)
    requires CatalogOk(cat) && DbOk(cat, d) && EntriesFit(cat, d)
    requires Acceptable(cat, e) && Fit(cat, e) && e.id !in d.markers && NotStale(d, e) && ApplyInTx(cat, d, e).Ok?
    ensures EntriesFit(cat, ApplyInTx(cat, d, e).value)
  {
    var after := ApplyInTx(cat, d, e).value;
    EntriesFitDb(cat, d);
    FailsExactlyWhen(cat, d, e);
    ApplyOnEntries(cat, d, e);
    forall n, k | n in cat && Entry(after, n, k).Some? ensures FitRow(cat[n], Entry(after, n, k).value.cols) {
      assert Entry(d, n, k).None? ==> k !in Rows(d, n);
      EntryFits(cat[n], Entry(d, n, k), e, n, k);
    }
  }

  lemma {:induction false} AbsentStep(def: TableDef, d: Option<Stored>, src: Option<Row>, e: Event, n: TableName,
      k: Row)
    requires Name(e) == n ==> e.operation.Truncate? || RowAcceptable(def, e)
    requires EntryStep(def, d, e, n, k).None?
    ensures SourceStep(src, e, n, k).None? || (d.None? && SourceStep(src, e, n, k) == src)
  {
  }

  lemma {:induction false} AppliedAbsent(
      cat: Catalog, log: seq<Event>, hist: seq<Source>, at: (TableName, Row) -> nat, m: nat, d: Db)
    requires m < |log| && LogOk(cat, log, hist) && CarryInv(cat, log, hist, at, m, d)
    requires ApplyInTx(cat, d, log[m]).Ok?
    ensures AbsentOk(cat, hist, at, m + 1, ApplyInTx(cat, d, log[m]).value)
  {
    var after := ApplyInTx(cat, d, log[m]).value;
    assert Acceptable(cat, log[m]);
    ApplyOnEntries(cat, d, log[m]);
    forall n, k | n in cat && at(n, k) < |hist| && Entry(after, n, k).None?
      ensures SourceEntry(hist[m + 1], n, k).None? || SourceEntry(hist[at(n, k)], n, k).None?
    {
      MeaningOnEntries(hist[m], log[m], n, k);
      AbsentStep(cat[n], Entry(d, n, k), SourceEntry(hist[m], n, k), log[m], n, k);
    }
  }

  lemma {:induction false} AppliedCarryInv(
      cat: Catalog, log: seq<Event>, hist: seq<Source>, at: (TableName, Row) -> nat, m: nat, d: Db)
    requires m < |log| && LogOk(cat, log, hist) && AllFit(cat, log) && CarryInv(cat, log, hist, at, m, d)
    requires ApplyInTx(cat, d, log[m]).Ok?
    ensures CarryInv(cat, log, hist, at, m + 1, ApplyInTx(cat, d, log[m]).value)
  {
    assert Acceptable(cat, log[m]);
    InvStep(cat, log, hist, at, m, d);
    AppliedFits(cat, d, log[m]);
    AppliedAbsent(cat, log, hist, at, m, d);
  }

  // ---- an event that fails ---------------------------------------------------------------------

  /** Past the moment it was captured at, a key the destination lacks is absent at the source. */
  lemma {:induction false} AbsentPastCapture(
      cat: Catalog, log: seq<Event>, hist: seq<Source>, m: nat, s: nat, n: TableName, k: Row)
    requires m <= |log| && s <= |log| && |hist| == |log| + 1 && n in cat && CatalogOk(cat)
    requires KeyInv(cat, log, hist, m, s, None, n, k) && SourceEntry(hist[m], n, k).Some?
    ensures m < s
  {
    var c :| c in cat[n].key;
    assert !SameAt(None, SourceEntry(hist[m], n, k), c);
  }

  /**
    The row was gone when the key was captured, so a later event of the log still removes
    it: leaving the event out keeps the invariant of its key.
  */
  lemma {:induction false} SkippedKey(
      cat: Catalog, log: seq<Event>, hist: seq<Source>, m: nat, s: nat, n: TableName, k: Row)
    requires m < s <= |log| && n in cat && LogOk(cat, log, hist) && SourceEntry(hist[s], n, k).None?
    ensures KeyInv(cat, log, hist, m + 1, s, None, n, k)
  {
    CapturedKeyInv(cat, log, hist, m + 1, s, None, n, k);
  }

  lemma {:induction false} OtherKey(
      cat: Catalog, log: seq<Event>, hist: seq<Source>, m: nat, s: nat, d: Option<Stored>, n: TableName, k: Row)
    requires m < |log| && s <= |log| && n in cat && LogOk(cat, log, hist)
    requires KeyInv(cat, log, hist, m, s, d, n, k)
    requires !log[m].operation.Truncate? && !(Name(log[m]) == n && log[m].key == k)
    ensures KeyInv(cat, log, hist, m + 1, s, d, n, k)
  {
    KeyInvStep(cat, log, hist, m, s, d, n, k);
  }

  /** What is known of an event that fails: the row it updates is at the source, and was gone when captured. */
  lemma {:induction false} FailedUpdate(
      cat: Catalog, log: seq<Event>, hist: seq<Source>, at: (TableName, Row) -> nat, m: nat, d: Db)
    requires m < |log| && LogOk(cat, log, hist) && AllFit(cat, log) && CarryInv(cat, log, hist, at, m, d)
    requires ApplyInTx(cat, d, log[m]).Err?
    ensures var e := log[m];
            && Name(e) in cat && e.operation.Update? && Entry(d, Name(e), e.key).None?
            && at(Name(e), e.key) <= |log|
            && SourceEntry(hist[m], Name(e), e.key).Some? && SourceEntry(hist[at(Name(e), e.key)], Name(e), e.key).None?
  {
    var e := log[m];
    assert Acceptable(cat, e);
    EntriesFitDb(cat, d);
    FailsExactlyWhen(cat, d, e);
    assert SourceEntry(hist[m], Name(e), e.key).Some?;
    assert at(Name(e), e.key) <= |log|;
  }

  lemma {:induction false} FailedKeys(
      cat: Catalog, log: seq<Event>, hist: seq<Source>, at: (TableName, Row) -> nat, m: nat, d: Db, n: TableName,
      k: Row)
    requires m < |log| && LogOk(cat, log, hist) && AllFit(cat, log) && CarryInv(cat, log, hist, at, m, d)
    requires ApplyInTx(cat, d, log[m]).Err? && n in cat
    ensures at(n, k) <= |log| && KeyInv(cat, log, hist, m + 1, at(n, k), Entry(d, n, k), n, k)
    ensures Entry(d, n, k).None? ==> SourceEntry(hist[m + 1], n, k).None? || SourceEntry(hist[at(n, k)], n, k).None?
  {
    FailedUpdate(cat, log, hist, at, m, d);
    assert at(n, k) <= |log| && KeyInv(cat, log, hist, m, at(n, k), Entry(d, n, k), n, k);
    MeaningOnEntries(hist[m], log[m], n, k);
    if Name(log[m]) == n && log[m].key == k {
      AbsentPastCapture(cat, log, hist, m, at(n, k), n, k);
      SkippedKey(cat, log, hist, m, at(n, k), n, k);
    } else {
      OtherKey(cat, log, hist, m, at(n, k), Entry(d, n, k), n, k);
    }
  }

  /** A dead letter changes no row, and none of the events to come. */
  lemma {:induction false} RecordedUnseen(cat: Catalog, log: seq<Event>, m: nat, d: Db)
    requires m < |log| && DistinctIds(log) && DbOk(cat, d) && Unseen(d, log, m)
    ensures var after := Recorded(d, log[m], REASON);
            DbOk(cat, after) && Unseen(after, log, m + 1) && forall n, k :: Entry(after, n, k) == Entry(d, n, k)
  {
    var after := Recorded(d, log[m], REASON);
    forall j | m + 1 <= j < |log| ensures log[j].id !in after.markers && NotStale(after, log[j]) {
      assert log[m].id != log[j].id;
      assert NotStale(d, log[j]);
    }
  }

  lemma {:induction false} SameEntriesFit(cat: Catalog, d: Db, e: Db)
    requires EntriesFit(cat, d) && forall n, k :: Entry(e, n, k) == Entry(d, n, k)
    ensures EntriesFit(cat, e)
  {
  }

  lemma {:induction false} FailedCarryInv(
      cat: Catalog, log: seq<Event>, hist: seq<Source>, at: (TableName, Row) -> nat, m: nat, d: Db)
    requires m < |log| && LogOk(cat, log, hist) && AllFit(cat, log) && CarryInv(cat, log, hist, at, m, d)
    requires ApplyInTx(cat, d, log[m]).Err?
    ensures CarryInv(cat, log, hist, at, m + 1, Recorded(d, log[m], REASON))
  {
    var after := Recorded(d, log[m], REASON);
    RecordedUnseen(cat, log, m, d);
    SameEntriesFit(cat, d, after);
    forall n, k | n in cat
      ensures at(n, k) <= |log| && KeyInv(cat, log, hist, m + 1, at(n, k), Entry(after, n, k), n, k)
      ensures at(n, k) < |hist|
      ensures Entry(after, n, k).None? ==>
              SourceEntry(hist[m + 1], n, k).None? || SourceEntry(hist[at(n, k)], n, k).None?
    {
      FailedKeys(cat, log, hist, at, m, d, n, k);
    }
  }

  // ---- whole replays -----------------------------------------------------------------------------

  lemma {:induction false} CarryStep(
      cat: Catalog, log: seq<Event>, hist: seq<Source>, at: (TableName, Row) -> nat, m: nat, d: Db)
    requires m < |log| && LogOk(cat, log, hist) && AllFit(cat, log) && CarryInv(cat, log, hist, at, m, d)
    ensures CarryInv(cat, log, hist, at, m + 1, Carry(cat, d, log[m]))
  {
    if ApplyInTx(cat, d, log[m]).Ok? {
      AppliedCarryInv(cat, log, hist, at, m, d);
    } else {
      FailedCarryInv(cat, log, hist, at, m, d);
    }
  }

  lemma {:induction false} CarriedSlice(cat: Catalog, d: Db, log: seq<Event>, p: nat, m: nat)
    requires p <= m < |log|
    ensures Carried(cat, d, log[p..m + 1]) == Carry(cat, Carried(cat, d, log[p..m]), log[m])
  {
    assert log[p..m + 1] == log[p..m] + [log[m]];
    CarriedNext(cat, d, log[p..m], log[m]);
  }

  lemma {:induction false} CarriedFrom(
      cat: Catalog, log: seq<Event>, hist: seq<Source>, at: (TableName, Row) -> nat, p: nat, d: Db, m: nat)
    requires p <= m <= |log| && LogOk(cat, log, hist) && AllFit(cat, log) && CarryInv(cat, log, hist, at, p, d)
    ensures CarryInv(cat, log, hist, at, m, Carried(cat, d, log[p..m]))
    decreases m
  {
    if m == p {
      assert log[p..m] == [];
    } else {
      var k := m - 1;
      CarriedFrom(cat, log, hist, at, p, d, k);
      var c := Carried(cat, d, log[p..k]);
      CarryStep(cat, log, hist, at, k, c);
      CarriedSlice(cat, d, log, p, k);
    }
  }

  lemma {:induction false} CarriedInv(
      cat: Catalog, log: seq<Event>, hist: seq<Source>, at: (TableName, Row) -> nat, p: nat, d: Db, m: nat)
    requires p <= m <= |log| && LogOk(cat, log, hist) && Captured(cat, log, hist, at, p, d)
    requires SourceFit(cat, hist[0]) && AllFit(cat, log)
    ensures CarryInv(cat, log, hist, at, m, Carried(cat, d, log[p..m]))
  {
    CapturedCarryInv(cat, log, hist, at, p, d);
    CarriedFrom(cat, log, hist, at, p, d, m);
  }

  /**
    The hand-over always converges: replayed the way the writer heals, whatever is
    quarantined on the way, the captured rows end as exactly the source's rows.
  */
  lemma {:induction false} HealedReplayConverges(
      cat: Catalog, log: seq<Event>, hist: seq<Source>, at: (TableName, Row) -> nat, p: nat, d: Db)
    requires p <= |log| && LogOk(cat, log, hist) && Captured(cat, log, hist, at, p, d)
    requires SourceFit(cat, hist[0]) && AllFit(cat, log)
    ensures Mirrors(cat, Carried(cat, d, log[p..]), hist[|log|])
  {
    CarriedInv(cat, log, hist, at, p, d, |log|);
    assert log[p..|log|] == log[p..];
    EndOfReplay(cat, log, hist, at, Carried(cat, d, log[p..]));
  }

  // ---- when nothing fails -------------------------------------------------------------------------

  /** The event decides the row of the key, or clears its table. */
  predicate Concerns(e: Event, n: TableName, k: Row) {
    Name(e) == n && (e.operation.Truncate? || e.key == k)
  }

  predicate Unconcerned(log: seq<Event>, lo: nat, hi: nat, n: TableName, k: Row) {
    forall i | lo <= i < hi && i < |log| :: !Concerns(log[i], n, k)
  }

  /** Event `j` is an update that leaves a NOT NULL column unsaid, and the first from `p` on to concern its row. */
  predicate FirstNeeds(cat: Catalog, log: seq<Event>, p: nat, j: nat)
    requires j < |log|
  {
    && Name(log[j]) in cat && NeedsRow(cat[Name(log[j])], log[j])
    && Unconcerned(log, p, j, Name(log[j]), log[j].key)
  }

  /** Such an event, and the destination does not hold the row. */
  predicate Starved(cat: Catalog, log: seq<Event>, p: nat, j: nat, d: Db)
    requires j < |log|
  {
    FirstNeeds(cat, log, p, j) && Entry(d, Name(log[j]), log[j].key).None?
  }

  /** The replay of `log[p..]` on `d` stands at `m` with `c`. */
  ghost predicate Replaying(cat: Catalog, log: seq<Event>, hist: seq<Source>, p: nat, m: nat, d: Db, c: Db)
    requires m < |hist|
  {
    && DbOk(cat, c) && Unseen(c, log, m) && EntriesFit(cat, c)
    && forall n, k | n in cat ::
         if Unconcerned(log, p, m, n, k) then Entry(c, n, k) == Entry(d, n, k)
         else Entry(c, n, k).None? ==> SourceEntry(hist[m], n, k).None?
  }

  lemma {:induction false} UnconcernedNext(log: seq<Event>, p: nat, m: nat, n: TableName, k: Row)
    requires p <= m < |log|
    ensures Unconcerned(log, p, m + 1, n, k) <==> Unconcerned(log, p, m, n, k) && !Concerns(log[m], n, k)
  {
  }

  lemma {:induction false} FailsWhenStarved(
      cat: Catalog, log: seq<Event>, hist: seq<Source>, p: nat, m: nat, d: Db, c: Db)
    requires p <= m < |log| && LogOk(cat, log, hist) && AllFit(cat, log) && Replaying(cat, log, hist, p, m, d, c)
    ensures ApplyInTx(cat, c, log[m]).Err? <==> Starved(cat, log, p, m, d)
  {
    var e := log[m];
    assert Acceptable(cat, e);
    EntriesFitDb(cat, c);
    FailsExactlyWhen(cat, c, e);
    assert e.operation.Update? ==> SourceEntry(hist[m], Name(e), e.key).Some?;
  }

  lemma {:induction false} ConcernedStep(
      def: TableDef, c: Option<Stored>, src: Option<Row>, e: Event, n: TableName, k: Row)
    requires Name(e) == n ==> e.operation.Truncate? || RowAcceptable(def, e)
    ensures !Concerns(e, n, k) ==> EntryStep(def, c, e, n, k) == c && SourceStep(src, e, n, k) == src
    ensures Concerns(e, n, k) && EntryStep(def, c, e, n, k).None? ==> SourceStep(src, e, n, k).None?
  {
  }

  lemma {:induction false} ReplayingStep(
      cat: Catalog, log: seq<Event>, hist: seq<Source>, p: nat, m: nat, d: Db, c: Db)
    requires p <= m < |log| && LogOk(cat, log, hist) && AllFit(cat, log) && Replaying(cat, log, hist, p, m, d, c)
    requires ApplyInTx(cat, c, log[m]).Ok?
    ensures Replaying(cat, log, hist, p, m + 1, d, ApplyInTx(cat, c, log[m]).value)
  {
    var after := ApplyInTx(cat, c, log[m]).value;
    assert Acceptable(cat, log[m]);
    UnseenStep(cat, c, log, m);
    AppliedFits(cat, c, log[m]);
    ApplyOnEntries(cat, c, log[m]);
    forall n, k | n in cat
      ensures if Unconcerned(log, p, m + 1, n, k) then Entry(after, n, k) == Entry(d, n, k)
              else Entry(after, n, k).None? ==> SourceEntry(hist[m + 1], n, k).None?
    {
      UnconcernedNext(log, p, m, n, k);
      MeaningOnEntries(hist[m], log[m], n, k);
      ConcernedStep(cat[n], Entry(c, n, k), SourceEntry(hist[m], n, k), log[m], n, k);
    }
  }

  lemma {:induction false} FoldSlice(cat: Catalog, d: Db, log: seq<Event>, p: nat, m: nat)
    requires p <= m < |log|
    ensures ApplyAll(cat, d, log[p..m + 1]) ==
            match ApplyAll(cat, d, log[p..m]) case Err(f) => Err(f) case Ok(c) => ApplyInTx(cat, c, log[m])
  {
    assert log[p..m + 1] == log[p..m] + [log[m]];
    assert (log[p..m] + [log[m]])[..m - p] == log[p..m];
  }

  ghost predicate Fed(cat: Catalog, log: seq<Event>, p: nat, m: nat, d: Db) {
    forall j | p <= j < m && j < |log| :: !Starved(cat, log, p, j, d)
  }

  lemma {:induction false} FedNext(cat: Catalog, log: seq<Event>, p: nat, m: nat, d: Db)
    requires p <= m < |log|
    ensures Fed(cat, log, p, m + 1, d) <==> Fed(cat, log, p, m, d) && !Starved(cat, log, p, m, d)
  {
  }

  /** `r`, the replay up to `m`, has failed just when an event before `m` was starved. */
  ghost predicate ReplayedTo(
      cat: Catalog, log: seq<Event>, hist: seq<Source>, p: nat, m: nat, d: Db, r: Result<Db, Failure>)
    requires m < |hist|
  {
    (r.Ok? <==> Fed(cat, log, p, m, d)) && (r.Ok? ==> Replaying(cat, log, hist, p, m, d, r.value))
  }

  function NextOf(cat: Catalog, r: Result<Db, Failure>, e: Event): Result<Db, Failure> {
    match r case Err(f) => Err(f) case Ok(c) => ApplyInTx(cat, c, e)
  }

  lemma {:induction false} ReplayedToNext(
      cat: Catalog, log: seq<Event>, hist: seq<Source>, p: nat, m: nat, d: Db, r: Result<Db, Failure>)
    requires p <= m < |log| && LogOk(cat, log, hist) && AllFit(cat, log) && ReplayedTo(cat, log, hist, p, m, d, r)
    ensures ReplayedTo(cat, log, hist, p, m + 1, d, NextOf(cat, r, log[m]))
  {
    FedNext(cat, log, p, m, d);
    if r.Ok? {
      FailsWhenStarved(cat, log, hist, p, m, d, r.value);
      if ApplyInTx(cat, r.value, log[m]).Ok? {
        ReplayingStep(cat, log, hist, p, m, d, r.value);
      }
    }
  }

  lemma {:induction false} ReplayStarts(cat: Catalog, log: seq<Event>, hist: seq<Source>, p: nat, d: Db)
    requires p <= |log| && LogOk(cat, log, hist) && DbOk(cat, d) && Unseen(d, log, p) && EntriesFit(cat, d)
    ensures ReplayedTo(cat, log, hist, p, p, d, Ok(d))
  {
  }

  lemma {:induction false} ReplayedAll(cat: Catalog, log: seq<Event>, hist: seq<Source>, p: nat, m: nat, d: Db)
    requires p <= m <= |log| && LogOk(cat, log, hist) && AllFit(cat, log) && ReplayedTo(cat, log, hist, p, p, d, Ok(d))
    ensures ReplayedTo(cat, log, hist, p, m, d, ApplyAll(cat, d, log[p..m]))
    decreases m
  {
    if m == p {
      assert log[p..m] == [];
    } else {
      var k := m - 1;
      ReplayedAll(cat, log, hist, p, k, d);
      var r := ApplyAll(cat, d, log[p..k]);
      ReplayedToNext(cat, log, hist, p, k, d, r);
      FoldSlice(cat, d, log, p, k);
    }
  }

  lemma {:induction false} FittingEntries(cat: Catalog, d: Db)
    requires DbFit(cat, d)
    ensures EntriesFit(cat, d)
  {
  }

  /** Whether the replay finds, for every update that needs its row first of all events, that row. */
  ghost predicate RowsAreThere(cat: Catalog, log: seq<Event>, p: nat, d: Db) {
    forall j | p <= j < |log| && FirstNeeds(cat, log, p, j) :: Entry(d, Name(log[j]), log[j].key).Some?
  }

  lemma {:induction false} FedToTheEnd(cat: Catalog, log: seq<Event>, p: nat, d: Db)
    ensures Fed(cat, log, p, |log|, d) <==> RowsAreThere(cat, log, p, d)
  {
    if Fed(cat, log, p, |log|, d) {
      forall j | p <= j < |log| && FirstNeeds(cat, log, p, j) ensures Entry(d, Name(log[j]), log[j].key).Some? {
        assert !Starved(cat, log, p, j, d);
      }
    }
    if RowsAreThere(cat, log, p, d) {
      forall j | p <= j < |log| ensures !Starved(cat, log, p, j, d) {
        assert FirstNeeds(cat, log, p, j) ==> Entry(d, Name(log[j]), log[j].key).Some?;
      }
    }
  }

  lemma {:induction false} WholeSlice(log: seq<Event>, p: nat)
    requires p <= |log|
    ensures log[p..|log|] == log[p..]
  {
  }

  /**
    A replay of a genuine log fails just when the destination does not hold the row of some
    update that leaves a NOT NULL column unsaid and is the first in the replay to concern it.
  */
  lemma {:induction false} ReplaySucceedsExactlyWhen(
      cat: Catalog, log: seq<Event>, hist: seq<Source>, p: nat, d: Db)
    requires p <= |log| && LogOk(cat, log, hist) && AllFit(cat, log)
    requires DbOk(cat, d) && Unseen(d, log, p) && DbFit(cat, d)
    ensures ApplyAll(cat, d, log[p..]).Ok? <==> RowsAreThere(cat, log, p, d)
  {
    FittingEntries(cat, d);
    ReplayStarts(cat, log, hist, p, d);
    ReplayedAll(cat, log, hist, p, |log|, d);
    FedToTheEnd(cat, log, p, d);
    WholeSlice(log, p);
  }

  /**
    The fuzzy hand-over. However far ahead of `p` the captured rows are, the replay from `p`
    ends with exactly the source's rows; and it meets poison on the way only where a row it
    needs is not there.
  */
  lemma {:induction false} FuzzyHandover(
      cat: Catalog, log: seq<Event>, hist: seq<Source>, at: (TableName, Row) -> nat, p: nat, d: Db)
    requires p <= |log| && LogOk(cat, log, hist) && Captured(cat, log, hist, at, p, d)
    requires SourceFit(cat, hist[0]) && AllFit(cat, log)
    ensures Mirrors(cat, Carried(cat, d, log[p..]), hist[|log|])
    ensures ApplyAll(cat, d, log[p..]).Ok? <==> RowsAreThere(cat, log, p, d)
    ensures ApplyAll(cat, d, log[p..]).Ok? ==> ApplyAll(cat, d, log[p..]).value == Carried(cat, d, log[p..])
  {
    HealedReplayConverges(cat, log, hist, at, p, d);
    CapturedCarryInv(cat, log, hist, at, p, d);
    EntriesFitDb(cat, d);
    ReplaySucceedsExactlyWhen(cat, log, hist, p, d);
    if ApplyAll(cat, d, log[p..]).Ok? {
      CarriedIsFold(cat, d, log[p..]);
    }
  }
}
