/**
  The source's committed transactions as one event log: what their order, their ids and
  their statements make true of every whole-transaction prefix.
*/
module Transactions {
  import opened Wrappers
  import opened Cdc
  import opened Destination
  import opened Convergence
  import opened Pgoutput
  import opened Decoder
  import opened Failures
  import opened Translation
  import Lockstep
  import EventIds

  datatype Tx = Tx(commit: Committed, changes: seq<Change>)

  /** Commit order, LSNs of 64 bits, and a count that is the number of changes. */
  predicate TxsOk(txs: seq<Tx>) {
    && (forall j | 0 <= j < |txs| ::
         && txs[j].commit.commitLsn < txs[j].commit.endLsn
         && txs[j].commit.commitLsn < EventIds.HALF * EventIds.HALF
         && txs[j].commit.count == |txs[j].changes|)
    && forall i, j | 0 <= i < j < |txs| :: txs[i].commit.endLsn <= txs[j].commit.commitLsn
  }

  function TxEvents(tx: Tx): seq<Event> {
    EventsOf(tx.commit, tx.changes)
  }

  /** The events of the first `n` transactions. */
  function Prefix(txs: seq<Tx>, n: nat): seq<Event>
    requires n <= |txs|
  {
    if n == 0 then [] else Prefix(txs, n - 1) + TxEvents(txs[n - 1])
  }

  /** Events that carry their own id and commit below `l`. */
  predicate Below(es: seq<Event>, l: Lsn) {
    forall p | 0 <= p < |es| ::
      && es[p].source.sequence >= 0 && es[p].source.commitLsn < l
      && es[p].id == EventIds.EventId(es[p].source.commitLsn, es[p].source.sequence)
  }

  lemma {:induction false} PrefixBelow(txs: seq<Tx>, n: nat, j: nat)
    requires TxsOk(txs) && n <= j < |txs|
    ensures Below(Prefix(txs, n), txs[j].commit.commitLsn)
  {
    if n > 0 {
      PrefixBelow(txs, n - 1, j);
      assert txs[n - 1].commit.endLsn <= txs[j].commit.commitLsn;
    }
  }

  lemma {:induction false} IdsDiffer(txs: seq<Tx>, n: nat)
    requires TxsOk(txs) && n <= |txs|
    ensures DistinctIds(Prefix(txs, n))
  {
    if n > 0 {
      IdsDiffer(txs, n - 1);
      PrefixBelow(txs, n - 1, n - 1);
      Lockstep.IdsOfOneTransaction(txs[n - 1].commit, txs[n - 1].changes);
      DistinctAppend(Prefix(txs, n - 1), TxEvents(txs[n - 1]), txs[n - 1].commit.commitLsn);
    }
  }

  lemma {:induction false} DistinctAppend(a: seq<Event>, b: seq<Event>, l: Lsn)
    requires DistinctIds(a) && DistinctIds(b) && Below(a, l) && l < EventIds.HALF * EventIds.HALF
    requires forall q | 0 <= q < |b| ::
               b[q].source.sequence >= 0 && b[q].source.commitLsn == l &&
                 b[q].id == EventIds.EventId(l, b[q].source.sequence)
    ensures DistinctIds(a + b)
  {
    forall p, q | 0 <= p < |a| && 0 <= q < |b| ensures a[p].id != b[q].id {
      if a[p].id == b[q].id {
        EventIds.EventIdInjective(a[p].source.commitLsn, a[p].source.sequence, l, b[q].source.sequence);
      }
    }
  }

  lemma {:induction false} PrefixOrdered(txs: seq<Tx>, n: nat)
    requires TxsOk(txs) && n <= |txs|
    ensures Ordered(Prefix(txs, n))
  {
    if n > 0 {
      PrefixOrdered(txs, n - 1);
      PrefixBelow(txs, n - 1, n - 1);
    }
  }

  lemma {:induction false} PrefixTruncatesApart(txs: seq<Tx>, n: nat)
    requires TxsOk(txs) && n <= |txs|
    requires forall j | 0 <= j < |txs| :: Lockstep.TruncatesOnce(txs[j].changes)
    ensures TruncatesApart(Prefix(txs, n))
  {
    if n > 0 {
      PrefixTruncatesApart(txs, n - 1);
      PrefixBelow(txs, n - 1, n - 1);
      ApartAppend(Prefix(txs, n - 1), txs[n - 1]);
    }
  }

  lemma {:induction false} ApartAppend(a: seq<Event>, tx: Tx)
    requires TruncatesApart(a) && Below(a, tx.commit.commitLsn) && Lockstep.TruncatesOnce(tx.changes)
    ensures TruncatesApart(a + TxEvents(tx))
  {
    var b := TxEvents(tx);
    forall i, j | 0 <= i < j < |a + b| && (a + b)[i].operation.Truncate? && (a + b)[j].operation.Truncate?
      ensures Name((a + b)[i]) == Name((a + b)[j]) ==> (a + b)[i].source.commitLsn < (a + b)[j].source.commitLsn
    {
      if |a| <= i {
        assert tx.changes[i - |a|].operation.Truncate? && tx.changes[j - |a|].operation.Truncate?;
      }
    }
  }

  // ---- the source behind the transactions --------------------------------------------------

  /** `srcs[j]` is the source after `j` transactions, and each one's events mean just that step. */
  ghost predicate Sourced(cat: Catalog, txs: seq<Tx>, srcs: seq<Source>) {
    && |srcs| == |txs| + 1
    && CatalogOk(cat) && SourceOk(cat, srcs[0]) && SourceFit(cat, srcs[0])
    && (forall j | 0 <= j < |txs| :: Lockstep.TruncatesOnce(txs[j].changes))
    && forall j {:trigger txs[j]} | 0 <= j < |txs| :: Square(cat, srcs[j], TxEvents(txs[j]), srcs[j + 1])
  }

  lemma {:induction false} PrefixSquare(cat: Catalog, txs: seq<Tx>, srcs: seq<Source>, n: nat)
    requires Sourced(cat, txs, srcs) && n <= |txs|
    ensures Square(cat, srcs[0], Prefix(txs, n), srcs[n])
  {
    if n > 0 {
      PrefixSquare(cat, txs, srcs, n - 1);
      SquareAppend(cat, srcs[0], Prefix(txs, n - 1), srcs[n - 1], TxEvents(txs[n - 1]), srcs[n]);
    }
  }

  /** The destination equals the source before the first transaction and has seen none of them. */
  ghost predicate Untouched(cat: Catalog, txs: seq<Tx>, src: Source, d: Db) {
    && DbOk(cat, d) && Mirrors(cat, d, src)
    && (forall j, i: nat | 0 <= j < |txs| :: EventIds.EventId(txs[j].commit.commitLsn, i) !in d.markers)
    && (forall n, j | n in d.watermarks && 0 <= j < |txs| :: d.watermarks[n] < txs[j].commit.commitLsn)
    && forall n, k, j | n in cat && Entry(d, n, k).Some? && 0 <= j < |txs| ::
       GuardOk(Entry(d, n, k).value, txs[j].commit.commitLsn)
  }

  lemma {:induction false} PrefixLogOk(cat: Catalog, txs: seq<Tx>, srcs: seq<Source>, n: nat)
    requires TxsOk(txs) && Sourced(cat, txs, srcs) && n <= |txs|
    ensures LogOk(cat, Prefix(txs, n), States(srcs[0], Prefix(txs, n)))
  {
    var log := Prefix(txs, n);
    PrefixSquare(cat, txs, srcs, n);
    StatesAreHistory(srcs[0], log);
    GenuineStates(cat, srcs[0], log);
    PrefixOrdered(txs, n);
    IdsDiffer(txs, n);
    PrefixTruncatesApart(txs, n);
  }

  lemma {:induction false} PrefixIsStamped(txs: seq<Tx>, n: nat, p: nat) returns (j: nat)
    requires n <= |txs| && p < |Prefix(txs, n)|
    ensures j < n && Prefix(txs, n)[p].source.commitLsn == txs[j].commit.commitLsn
    ensures exists i: nat :: Prefix(txs, n)[p].id == EventIds.EventId(txs[j].commit.commitLsn, i)
  {
    if p < |Prefix(txs, n - 1)| {
      j := PrefixIsStamped(txs, n - 1, p);
    } else {
      j := n - 1;
      var i := p - |Prefix(txs, n - 1)|;
      assert Prefix(txs, n)[p] == EventOf(txs[j].commit, txs[j].changes[i], i + 1);
    }
  }

  lemma {:induction false} PrefixInStep(cat: Catalog, txs: seq<Tx>, srcs: seq<Source>, d: Db, n: nat)
    requires n <= |txs| && |srcs| > 0 && Untouched(cat, txs, srcs[0], d)
    ensures InStep(cat, Prefix(txs, n), States(srcs[0], Prefix(txs, n)), d)
  {
    var log := Prefix(txs, n);
    forall p | 0 <= p < |log| ensures log[p].id !in d.markers && NotStale(d, log[p]) {
      var j := PrefixIsStamped(txs, n, p);
    }
    forall m, k | m in cat ensures StampedPast(log, Entry(d, m, k), 0) {
      forall p | 0 <= p < |log| && Entry(d, m, k).Some? ensures GuardOk(Entry(d, m, k).value, log[p].source.commitLsn) {
        var j := PrefixIsStamped(txs, n, p);
      }
    }
  }

  /** Every whole-transaction prefix applies without failure and leaves exactly the source's rows. */
  lemma {:induction false} PrefixMirrors(cat: Catalog, txs: seq<Tx>, srcs: seq<Source>, d: Db, n: nat)
    requires TxsOk(txs) && Sourced(cat, txs, srcs) && n <= |txs| && Untouched(cat, txs, srcs[0], d)
    ensures ApplyAll(cat, d, Prefix(txs, n)).Ok?
    ensures Mirrors(cat, ApplyAll(cat, d, Prefix(txs, n)).value, srcs[n])
  {
    var log := Prefix(txs, n);
    PrefixSquare(cat, txs, srcs, n);
    PrefixLogOk(cat, txs, srcs, n);
    PrefixInStep(cat, txs, srcs, d, n);
    Lockstep.LockStep(cat, log, States(srcs[0], log), d);
  }

  /** The statements take `src` to `next`, and the messages sent for them decode to the changes of `tx`. */
  predicate DecodedFrom(
      cat: Catalog, relations: map<nat, Relation>, keys: map<nat, seq<string>>,
      stmts: seq<Statement>, ms: seq<Message>, tx: Tx, src: Source, next: Source)
  {
    && Sends(cat, relations, stmts, ms)
    && AllChanges(relations, keys, ms, |ms|) == Some(tx.changes)
    && ExecuteAll(cat, src, stmts, |ms|) == Some(next)
  }

  /**
    Transactions decoded from admissible messages for what the source ran are exactly such a
    log: `srcs` are the source's states between them.
  */
  lemma {:induction false} DecodedIsSourced(
      cat: Catalog, identity: map<string, seq<string>>, relations: map<nat, Relation>, keys: map<nat, seq<string>>,
      stmts: seq<seq<Statement>>, ms: seq<seq<Message>>, txs: seq<Tx>, srcs: seq<Source>)
    requires CatalogOk(cat) && Identified(Some(identity), relations, keys) && Agreed(cat, identity, relations)
    requires |stmts| == |ms| == |txs| && |srcs| == |txs| + 1
    requires SourceOk(cat, srcs[0]) && SourceFit(cat, srcs[0])
    requires forall j | 0 <= j < |txs| :: Lockstep.TruncatesOnce(txs[j].changes)
    requires forall j {:trigger txs[j]} | 0 <= j < |txs| ::
               DecodedFrom(cat, relations, keys, stmts[j], ms[j], txs[j], srcs[j], srcs[j + 1])
    ensures Sourced(cat, txs, srcs)
  {
    CatalogDescribes(cat, identity, relations, keys);
    forall j {:trigger txs[j]} | 0 <= j < |txs| ensures Square(cat, srcs[j], TxEvents(txs[j]), srcs[j + 1]) {
      assert DecodedFrom(cat, relations, keys, stmts[j], ms[j], txs[j], srcs[j], srcs[j + 1]);
      TransactionSquare(cat, relations, keys, srcs[j], stmts[j], ms[j], |ms[j]|, txs[j].commit);
      EventsFromStart(txs[j].commit, txs[j].changes);
    }
  }
}
