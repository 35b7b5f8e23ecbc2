/**
  Quarantine: recording a poison event, replaying it and dropping it
  (internal/destination/deadletter.go and applier.go:568-614).
*/
module DeadLetters {
  import opened Wrappers
  import opened Cdc
  import opened Destination
  import opened Applier
  import opened Convergence
  import opened Failures

  function LetterOf(e: Event, reason: string): DeadLetter {
    DeadLetter(e.id, e.schema, e.table, e.operation, e.source.commitLsn, e.source.commitTime,
               e.key, e.before, e.after, e.unchangedColumns, reason)
  }

  /** DeadLetter.Event: the source-only metadata is gone. */
  function EventOfLetter(letter: DeadLetter): Event {
    Event(EVENT_VERSION, letter.eventId, letter.schema, letter.table, letter.operation,
          letter.key, letter.before, letter.after,
          SourceMetadata(0, letter.sourceLsn, 0, letter.sourceCommitTime, 0, 0), letter.unchangedColumns)
  }

  /** RecordDeadLetter: the marker and the record; a second record only changes the reason. */
  function Recorded(db: Db, e: Event, reason: string): Db {
    var letter := if e.id in db.letters then db.letters[e.id].(reason := reason) else LetterOf(e, reason);
    Marked(db, e).(letters := db.letters[e.id := letter])
  }

  function Rewound(db: Db, id: string): Db {
    db.(markers := db.markers - {id})
  }

  function WithoutLetter(db: Db, id: string): Db {
    db.(letters := db.letters - {id})
  }

  /** DropDeadLetter */
  function Dropped(db: Db, id: string): Db {
    Rewound(WithoutLetter(db, id), id)
  }

  /** The text of the error, whatever it is. */
  const REASON := "cannot be applied"

  const REPLAY_FAILED := "replay failed"

  /** A completed ReplayDeadLetter of an existing record. */
  function Replayed(cat: Catalog, db: Db, id: string): Db
    requires id in db.letters
  {
    var e := EventOfLetter(db.letters[id]);
    match ApplyInTx(cat, Rewound(db, id), e)
    case Err(_) => Recorded(Rewound(db, id), e, REPLAY_FAILED)
    case Ok(d) => WithoutLetter(d, id)
  }

  // ---- the calls -------------------------------------------------------------------------

  method RecordDeadLetter(c: Connection, e: Event, reason: string)
    modifies c
    ensures c.committed == Recorded(old(c.committed), e, reason)
  {
    var tx := c.Begin();
    var isNew := tx.MarkApplied(e);
    if e.id in tx.view.letters {
      tx.view := tx.view.(letters := tx.view.letters[e.id := tx.view.letters[e.id].(reason := reason)]);
    } else {
      tx.view := tx.view.(letters := tx.view.letters[e.id := LetterOf(e, reason)]);
    }
    c.Commit(tx);
  }

  /** ReplayDeadLetter: rewind, apply, and record again or close, each in its own transaction. */
  method ReplayDeadLetter(c: Connection, id: string) returns (r: Result<bool, Failure>)
    modifies c
    ensures id !in old(c.committed).letters ==> r.Err? && c.committed == old(c.committed)
    ensures id in old(c.committed).letters ==>
              && c.committed == Replayed(c.cat, old(c.committed), id)
              && match ApplyInTx(c.cat, Rewound(old(c.committed), id), EventOfLetter(old(c.committed).letters[id]))
                 case Ok(_) => r == Ok(true)
                 case Err(f) => r == Err(f)
  {
    if id !in c.committed.letters {
      return Err(TRANSIENT);
    }
    var event := EventOfLetter(c.committed.letters[id]);
    c.committed := Rewound(c.committed, id);
    var applied := c.Apply(event);
    if applied.Err? {
      RecordDeadLetter(c, event, REPLAY_FAILED);
      return Err(applied.error);
    }
    c.committed := WithoutLetter(c.committed, id);
    return Ok(true);
  }

  method DropDeadLetter(c: Connection, id: string)
    modifies c
    ensures c.committed == Dropped(old(c.committed), id)
  {
    var tx := c.Begin();
    tx.view := WithoutLetter(tx.view, id);
    tx.view := Rewound(tx.view, id);
    c.Commit(tx);
  }

  // ---- what they say ----------------------------------------------------------------------

  /** A record rebuilds its event: only what the source alone knows of it is lost. */
  lemma {:induction false} LetterKeepsEvent(e: Event, reason: string)
    ensures var f := EventOfLetter(LetterOf(e, reason));
            && f.id == e.id && f.schema == e.schema && f.table == e.table && f.operation == e.operation
            && f.key == e.key && f.before == e.before && f.after == e.after
            && f.unchangedColumns == e.unchangedColumns
            && f.source.commitLsn == e.source.commitLsn && f.source.commitTime == e.source.commitTime
            && LetterOf(f, reason) == LetterOf(e, reason) && LetterOf(e, reason).reason == reason
  {
  }

  /**
    Recording touches one record and one marker: a marker that exists stays as it is, and a
    record that exists keeps what it says of the event.
  */
  lemma {:induction false} RecordingTouchesOne(db: Db, e: Event, reason: string)
    ensures var d := Recorded(db, e, reason);
            && d.tables == db.tables && d.watermarks == db.watermarks
            && d.markers.Keys == db.markers.Keys + {e.id} && d.letters.Keys == db.letters.Keys + {e.id}
            && (forall id | id in db.markers :: d.markers[id] == db.markers[id])
            && (e.id !in db.markers ==> d.markers[e.id] == e.source.commitLsn)
            && (forall id | id in db.letters && id != e.id :: d.letters[id] == db.letters[id])
            && (e.id in db.letters ==> EventOfLetter(d.letters[e.id]) == EventOfLetter(db.letters[e.id]))
            && d.letters[e.id].reason == reason
  {
    assert (db.letters[e.id := LetterOf(e, reason)]).Keys == db.letters.Keys + {e.id};
    assert (db.markers[e.id := 0]).Keys == db.markers.Keys + {e.id};
  }

  /** Dropping a record removes it and its marker; every other record, every other marker and the rows stay. */
  lemma {:induction false} DropTouchesOne(db: Db, id: string)
    ensures var d := Dropped(db, id);
            && d.tables == db.tables && d.watermarks == db.watermarks
            && d.markers == db.markers - {id} && d.letters == db.letters - {id}
            && (forall j | j != id && j in db.letters :: j in d.letters && d.letters[j] == db.letters[j])
            && (forall j | j != id && j in db.markers :: j in d.markers && d.markers[j] == db.markers[j])
  {
  }

  // ---- what they keep ----------------------------------------------------------------------

  /** The record says everything the apply path reads. */
  lemma {:induction false} LetterIsFaithful(cat: Catalog, db: Db, e: Event, reason: string)
    requires e.version == EVENT_VERSION
    ensures ApplyInTx(cat, db, EventOfLetter(LetterOf(e, reason))) == ApplyInTx(cat, db, e)
  {
    var f := EventOfLetter(LetterOf(e, reason));
    assert Name(f) == Name(e) && Shaped(f) == Shaped(e) && Marked(db, f) == Marked(db, e);
    assert ColumnsFree(f) == ColumnsFree(e) && KeyChecks(f) == KeyChecks(e);
    assert Effect(cat, Marked(db, e), f) == Effect(cat, Marked(db, e), e);
  }

  /** Every record has its marker and is filed under its own event id. */
  predicate Quarantined(db: Db) {
    forall id | id in db.letters :: id in db.markers && db.letters[id].eventId == id
  }

  /** A failed replay leaves the user's rows alone and the event in quarantine. */
  lemma {:induction false} FailedReplayKeepsQuarantine(cat: Catalog, db: Db, id: string)
    requires Quarantined(db) && id in db.letters
    requires ApplyInTx(cat, Rewound(db, id), EventOfLetter(db.letters[id])).Err?
    ensures var d := Replayed(cat, db, id);
            && d.tables == db.tables && d.watermarks == db.watermarks
            && d.markers.Keys == db.markers.Keys
            && d.letters == db.letters[id := db.letters[id].(reason := REPLAY_FAILED)]
  {
    var d := Replayed(cat, db, id);
    assert id in d.markers;
    assert forall j :: j in d.markers <==> j in db.markers;
  }

  /** A successful replay is the event itself, applied for the first time; only its marker stays. */
  lemma {:induction false} SuccessfulReplayCloses(cat: Catalog, db: Db, id: string)
    requires Quarantined(db) && id in db.letters
    requires ApplyInTx(cat, Rewound(db, id), EventOfLetter(db.letters[id])).Ok?
    ensures var d, e := Replayed(cat, db, id), EventOfLetter(db.letters[id]);
            && Effect(cat, Marked(Rewound(db, id), e), e) == Ok(d.(letters := db.letters))
            && id in d.markers && d.letters == db.letters - {id}
  {
    var e := EventOfLetter(db.letters[id]);
    ApplyMarks(cat, Rewound(db, id), e);
    assert e.id == id;
  }

  // ---- sequences of completed calls -----------------------------------------------------

  datatype Call = Apply(event: Event) | Record(event: Event, reason: string) | Replay(id: string) | Drop(id: string)

  function AfterCall(cat: Catalog, db: Db, call: Call): Db {
    match call
    case Apply(e) => (match ApplyInTx(cat, db, e) case Err(_) => db case Ok(d) => d)
    case Record(e, reason) => Recorded(db, e, reason)
    case Replay(id) => if id in db.letters then Replayed(cat, db, id) else db
    case Drop(id) => Dropped(db, id)
  }

  function AfterCalls(cat: Catalog, db: Db, calls: seq<Call>): Db {
    if calls == [] then db else AfterCall(cat, AfterCalls(cat, db, calls[..|calls| - 1]), calls[|calls| - 1])
  }

  lemma {:induction false} CallKeepsQuarantine(cat: Catalog, db: Db, call: Call)
    requires Quarantined(db)
    ensures Quarantined(AfterCall(cat, db, call))
  {
    match call
    case Apply(e) =>
      if ApplyInTx(cat, db, e).Ok? { ApplyMarks(cat, db, e); }
    case Record(e, reason) =>
    case Replay(id) =>
      if id in db.letters {
        if ApplyInTx(cat, Rewound(db, id), EventOfLetter(db.letters[id])).Ok? {
          SuccessfulReplayCloses(cat, db, id);
          ApplyMarks(cat, Rewound(db, id), EventOfLetter(db.letters[id]));
        } else {
          FailedReplayKeepsQuarantine(cat, db, id);
        }
      }
    case Drop(id) =>
  }

  /** Whatever calls have completed, no record is without its marker. */
  lemma {:induction false} CallsKeepQuarantine(cat: Catalog, db: Db, calls: seq<Call>)
    requires Quarantined(db)
    ensures Quarantined(AfterCalls(cat, db, calls))
  {
    if calls != [] {
      CallsKeepQuarantine(cat, db, calls[..|calls| - 1]);
      CallKeepsQuarantine(cat, AfterCalls(cat, db, calls[..|calls| - 1]), calls[|calls| - 1]);
    }
  }

  // ---- where quarantine does not hold ---------------------------------------------------------

  /** A replay stopped after the rewind leaves a record without a marker. */
  lemma {:induction false} InterruptedReplay(db: Db, id: string)
    requires Quarantined(db) && id in db.letters
    ensures !Quarantined(Rewound(db, id))
  {
    assert id in Rewound(db, id).letters && id !in Rewound(db, id).markers;
  }

  /**
    A redelivery after such a stop takes effect beside the record that is still there,
    unless it is an update that lacks the row it needs; then nothing changes.
  */
  lemma {:induction false} RedeliveredBesideRecord(cat: Catalog, db: Db, id: string)
    requires CatalogOk(cat) && DbOk(cat, db) && DbFit(cat, db) && Quarantined(db) && id in db.letters
    requires Acceptable(cat, EventOfLetter(db.letters[id])) && Fit(cat, EventOfLetter(db.letters[id]))
    ensures var e, r := EventOfLetter(db.letters[id]), ApplyInTx(cat, Rewound(db, id), EventOfLetter(db.letters[id]));
            && (r.Err? <==> !e.operation.Truncate? && LacksValue(cat[Name(e)], Rows(db, Name(e)), e))
            && (r.Ok? ==>
               id in r.value.letters && id in r.value.markers && Effect(cat, Marked(Rewound(db, id), e), e) == r)
  {
    var e, d := EventOfLetter(db.letters[id]), Rewound(db, id);
    RewoundFits(cat, db, id);
    FailsExactlyWhen(cat, d, e);
    if ApplyInTx(cat, d, e).Ok? {
      ApplyMarks(cat, d, e);
    }
  }

  lemma {:induction false} RewoundFits(cat: Catalog, db: Db, id: string)
    requires DbOk(cat, db) && DbFit(cat, db)
    ensures DbOk(cat, Rewound(db, id)) && DbFit(cat, Rewound(db, id))
    ensures forall n :: Rows(Rewound(db, id), n) == Rows(db, n)
  {
  }

  /**
    DropDeadLetter removes the marker too, so a redelivered event is not skipped any more:
    it is applied as if it had never been seen.
  */
  lemma {:induction false} DropForgets(cat: Catalog, db: Db, e: Event)
    requires Quarantined(db) && e.id in db.letters && Shaped(e)
    ensures ApplyInTx(cat, db, e) == Ok(db)
    ensures ApplyInTx(cat, Dropped(db, e.id), e) == Effect(cat, Marked(Dropped(db, e.id), e), e)
  {
    assert e.id !in Dropped(db, e.id).markers;
  }

  /**
    Replaying a record brings a row that is gone back to life just when the event writes a
    row and tells every NOT NULL column of it: an upsert reads no watermark, and nothing
    remembers that its row was truncated or deleted later.
  */
  lemma {:induction false} OldLetterResurrectsExactlyWhen(cat: Catalog, db: Db, id: string)
    requires CatalogOk(cat) && DbOk(cat, db) && DbFit(cat, db) && Quarantined(db) && id in db.letters
    requires var e := EventOfLetter(db.letters[id]);
             Acceptable(cat, e) && Fit(cat, e) && !e.operation.Truncate? && e.key !in Rows(db, Name(e))
    ensures var e := EventOfLetter(db.letters[id]);
            e.key in Rows(Replayed(cat, db, id), Name(e)) <==> !e.operation.Delete? && !NeedsRow(cat[Name(e)], e)
  {
    var e, d := EventOfLetter(db.letters[id]), Rewound(db, id);
    RewoundFits(cat, db, id);
    FailsExactlyWhen(cat, d, e);
    if ApplyInTx(cat, d, e).Ok? {
      ApplyOnEntries(cat, d, e);
      assert Entry(Replayed(cat, db, id), Name(e), e.key) == Entry(ApplyInTx(cat, d, e).value, Name(e), e.key);
      assert Entry(d, Name(e), e.key).None?;
    }
  }
}
