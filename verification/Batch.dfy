/**
  Why the two-phase batch agrees with the sequential fold: markers can be written
  ahead of the mutations, and queued statements can be run late, as long as their
  order is kept (internal/destination/applier.go:383-537).
*/
module Batch {
  import opened Wrappers
  import opened Cdc
  import opened Destination
  import Sql

  /** A mutation waiting in the batch: the event's index, the statement and its parameters. */
  datatype Queued = Queued(index: nat, stmt: Sql.Statement, args: seq<Sql.Arg>)

  /** Sends the queue; on the first failing statement the result is its event's index. */
  function RunQueue(cat: Catalog, db: Db, queue: seq<Queued>): Result<Db, nat> {
    if queue == [] then Ok(db)
    else
      match RunQueue(cat, db, queue[..|queue| - 1])
      case Err(i) => Err(i)
      case Ok(d) =>
        var last := queue[|queue| - 1];
        match Sql.Exec(cat, d, last.stmt, last.args)
        case Err(_) => Err(last.index)
        case Ok(d') => Ok(d')
  }

  lemma {:induction false} RunQueueSnoc(cat: Catalog, db: Db, queue: seq<Queued>, last: Queued)
    ensures RunQueue(cat, db, queue + [last]) ==
            match RunQueue(cat, db, queue)
            case Err(i) => Err(i)
            case Ok(d) =>
              match Sql.Exec(cat, d, last.stmt, last.args) case Err(_) => Err(last.index) case Ok(d') => Ok(d')
  {
    assert (queue + [last])[..|queue|] == queue;
  }

  lemma {:induction false} RunQueueAppend(cat: Catalog, db: Db, a: seq<Queued>, b: seq<Queued>)
    ensures RunQueue(cat, db, a + b) ==
            match RunQueue(cat, db, a) case Err(i) => Err(i) case Ok(d) => RunQueue(cat, d, b)
  {
    if b == [] {
      assert a + b == a;
    } else {
      var init, last := b[..|b| - 1], b[|b| - 1];
      assert a + b == (a + init) + [last];
      RunQueueAppend(cat, db, a, init);
      RunQueueSnoc(cat, db, a + init, last);
    }
  }

  lemma {:induction false} RunQueueHead(cat: Catalog, db: Db, queue: seq<Queued>)
    requires queue != []
    ensures RunQueue(cat, db, queue) ==
            match Sql.Exec(cat, db, queue[0].stmt, queue[0].args)
            case Err(_) => Err(queue[0].index)
            case Ok(d) => RunQueue(cat, d, queue[1..])
  {
    assert queue == [queue[0]] + queue[1..];
    RunQueueAppend(cat, db, [queue[0]], queue[1..]);
    assert [queue[0]] == [] + [queue[0]];
    RunQueueSnoc(cat, db, [], queue[0]);
  }

  /** The marker table after phase 1. */
  function MarkAll(markers: map<string, Lsn>, es: seq<Event>): map<string, Lsn> {
    if es == [] then markers
    else
      var m := MarkAll(markers, es[..|es| - 1]);
      var e := es[|es| - 1];
      if e.id in m then m else m[e.id := e.source.commitLsn]
  }

  lemma {:induction false} MarksGrow(markers: map<string, Lsn>, es: seq<Event>)
    ensures markers.Keys <= MarkAll(markers, es).Keys
  {
    if es != [] {
      MarksGrow(markers, es[..|es| - 1]);
    }
  }

  lemma {:induction false} MarkNext(markers: map<string, Lsn>, es: seq<Event>, i: nat)
    requires i < |es|
    ensures MarkAll(markers, es[..i + 1]) ==
            var m := MarkAll(markers, es[..i]);
            if es[i].id in m then m else m[es[i].id := es[i].source.commitLsn]
  {
    assert es[..i + 1][..i] == es[..i];
  }

  lemma {:induction false} FoldNext(cat: Catalog, db: Db, es: seq<Event>, i: nat)
    requires i < |es|
    ensures ApplyAll(cat, db, es[..i + 1]) ==
            match ApplyAll(cat, db, es[..i]) case Err(f) => Err(f) case Ok(d) => ApplyInTx(cat, d, es[i])
  {
    assert es[..i + 1][..i] == es[..i];
  }

  function Remark(r: Result<Db, Failure>, markers: map<string, Lsn>): Result<Db, Failure> {
    match r case Err(f) => Err(f) case Ok(d) => Ok(d.(markers := markers))
  }

  /** A mutation neither reads nor writes the markers. */
  lemma {:induction false} EffectIgnoresMarkers(cat: Catalog, db: Db, e: Event, markers: map<string, Lsn>)
    ensures Effect(cat, db.(markers := markers), e) == Remark(Effect(cat, db, e), markers)
  {
    assert Rows(db.(markers := markers), Name(e)) == Rows(db, Name(e));
  }

  lemma {:induction false} FoldMarkers(cat: Catalog, db: Db, es: seq<Event>)
    requires ApplyAll(cat, db, es).Ok?
    ensures ApplyAll(cat, db, es).value.markers == MarkAll(db.markers, es)
  {
    if es != [] {
      var init := es[..|es| - 1];
      FoldMarkers(cat, db, init);
      ApplyMarks(cat, ApplyAll(cat, db, init).value, es[|es| - 1]);
    }
  }

  /** Phase 1 found the marker of event `i` new. */
  predicate Fresh(db: Db, es: seq<Event>, i: nat)
    requires i < |es|
  {
    es[i].id !in MarkAll(db.markers, es[..i])
  }

  /**
    `q` is what the transaction will hold once the queue is sent. It agrees with the
    fold of the first `i` events up to the markers, or both fail, the fold no later.
  */
  predicate Agrees(cat: Catalog, db: Db, es: seq<Event>, i: nat, q: Result<Db, nat>)
    requires i <= |es|
  {
    match q
    case Ok(d) =>
      && ApplyAll(cat, db, es[..i]).Ok?
      && d == ApplyAll(cat, db, es[..i]).value.(markers := MarkAll(db.markers, es))
    case Err(j) =>
      && j < i && Fresh(db, es, j)
      && ApplyAll(cat, db, es[..j]).Ok? && ApplyAll(cat, db, es[..j + 1]).Err? && ApplyAll(cat, db, es[..i]).Err?
  }

  /** The effect of event `i` on the pending state. */
  function Then(cat: Catalog, q: Result<Db, nat>, e: Event, i: nat): Result<Db, nat> {
    match q
    case Err(j) => Err(j)
    case Ok(d) => match Effect(cat, d, e) case Err(_) => Err(i) case Ok(d') => Ok(d')
  }

  lemma {:induction false} AgreesStart(cat: Catalog, db: Db, es: seq<Event>)
    ensures Agrees(cat, db, es, 0, Ok(db.(markers := MarkAll(db.markers, es))))
  {
    assert es[..0] == [];
  }

  lemma {:induction false} AgreesSkip(cat: Catalog, db: Db, es: seq<Event>, i: nat, q: Result<Db, nat>)
    requires i < |es| && Agrees(cat, db, es, i, q) && Shaped(es[i]) && !Fresh(db, es, i)
    ensures Agrees(cat, db, es, i + 1, q)
  {
    FoldNext(cat, db, es, i);
    if q.Ok? {
      FoldMarkers(cat, db, es[..i]);
    }
  }

  lemma {:induction false} AgreesStep(cat: Catalog, db: Db, es: seq<Event>, i: nat, q: Result<Db, nat>)
    requires i < |es| && Agrees(cat, db, es, i, q) && Shaped(es[i]) && Fresh(db, es, i)
    ensures Agrees(cat, db, es, i + 1, Then(cat, q, es[i], i))
  {
    FoldNext(cat, db, es, i);
    if q.Ok? {
      FoldMarkers(cat, db, es[..i]);
      NextEffect(cat, ApplyAll(cat, db, es[..i]).value, es[i], q.value);
    }
  }

  /** The effect of a new event is the same whichever markers were written ahead. */
  lemma {:induction false} NextEffect(cat: Catalog, d: Db, e: Event, ahead: Db)
    requires Shaped(e) && e.id !in d.markers && ahead == d.(markers := ahead.markers)
    ensures Effect(cat, ahead, e) == Remark(ApplyInTx(cat, d, e), ahead.markers)
  {
    EffectIgnoresMarkers(cat, Marked(d, e), e, ahead.markers);
    assert Marked(d, e).(markers := ahead.markers) == ahead;
  }

  /** A check that fails before the statement is queued fails in the fold at the same event, or earlier. */
  lemma {:induction false} AgreesFail(cat: Catalog, db: Db, es: seq<Event>, i: nat, q: Result<Db, nat>)
    requires i < |es| && Agrees(cat, db, es, i, q) && Shaped(es[i]) && Fresh(db, es, i)
    requires q.Ok? ==> Effect(cat, q.value, es[i]).Err?
    ensures ApplyAll(cat, db, es[..i + 1]).Err?
  {
    AgreesStep(cat, db, es, i, q);
    FoldNext(cat, db, es, i);
  }

  lemma {:induction false} PrefixFails(cat: Catalog, db: Db, es: seq<Event>, i: nat)
    requires i <= |es| && ApplyAll(cat, db, es[..i]).Err?
    ensures ApplyAll(cat, db, es).Err?
  {
    assert es == es[..i] + es[i..];
    ApplyAllAppend(cat, db, es[..i], es[i..]);
  }

  /** An event with a bad shape fails wherever the fold meets it. */
  lemma {:induction false} ShapeFails(cat: Catalog, db: Db, es: seq<Event>, i: nat)
    requires i < |es| && !Shaped(es[i])
    ensures ApplyAll(cat, db, es[..i + 1]).Err?
  {
    FoldNext(cat, db, es, i);
  }

  lemma {:induction false} AgreesEnd(cat: Catalog, db: Db, es: seq<Event>, d: Db)
    requires Agrees(cat, db, es, |es|, Ok(d))
    ensures ApplyAll(cat, db, es) == Ok(d)
  {
    assert es[..|es|] == es;
    FoldMarkers(cat, db, es);
  }
}
