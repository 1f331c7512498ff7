/**
 Whole runs of registrations and fetches on a symbol tree: every path is a FIFO queue
 that delivers an entry with count c > 0 exactly c times, one with a negative count for
 ever, and one with count 0 for ever after a first fetch that fails. Heap records are
 released exactly when their node is unlinked.
 */
module SymbolRuns {
  import opened Basics
  import opened SymbolQueues

  /** _will_return / _expect_check register an entry; _mock / _check_expected fetch one. */
  datatype Op = Register(path: Path, entry: Entry) | Fetch(path: Path)

  ghost predicate ValidOps(ops: seq<Op>, d: nat) {
    d > 0 && forall i :: 0 <= i < |ops| ==> |ops[i].path| == d
  }

  /** The tree after a run from the empty tree. */
  ghost function Final(ops: seq<Op>, d: nat): (t: Tree)
    requires ValidOps(ops, d)
    ensures WellFormed(t, d) && IsTree(t, d)
  {
    if ops == [] then EmptyTree(d)
    else
      var t := Final(Init(ops), d);
      var op := Last(ops);
      match op
      case Register(p, e) =>
        AddWellFormed(t, p, e);
        Add(t, p, e)
      case Fetch(p) =>
        GetWellFormed(t, p);
        Get(t, p).1
  }

  /** Everything registered under `p`, in order. */
  ghost function Registered(ops: seq<Op>, p: Path): seq<Entry> {
    if ops == [] then []
    else Registered(Init(ops), p) +
         if Last(ops).Register? && Last(ops).path == p then [Last(ops).entry] else []
  }

  /** The record a fetch found at the front of its queue, and whether it was handed out: a count of 0 is an error. */
  datatype Answer = Answer(addr: nat, ok: bool)

  /** The answers to the fetches of `p` that found its queue non-empty, in order. */
  ghost function Answers(ops: seq<Op>, d: nat, p: Path): seq<Answer>
    requires ValidOps(ops, d) && |p| == d
  {
    if ops == [] then []
    else Answers(Init(ops), d, p) +
         if Last(ops) != Fetch(p) then []
         else match Get(Final(Init(ops), d), p).0
              case Delivered(a, rc) => [Answer(a, rc != 0)]
              case _ => []
  }

  // ---- Reference semantics of a queue of counted entries ----

  /** The n-th answer of a queue (from 0). */
  ghost function Nth(es: seq<Entry>, n: nat): Option<Answer> {
    if es == [] then None
    else if es[0].refcount <= 0 || n < es[0].refcount then Some(Answer(es[0].addr, es[0].refcount != 0 || n > 0))
    else Nth(es[1..], n - es[0].refcount)
  }

  /** What is left of a queue after n answers. */
  ghost function Remaining(es: seq<Entry>, n: nat): seq<Entry> {
    if es == [] || n == 0 then es
    else if es[0].refcount <= 0 then [Entry(es[0].addr, CountDown(es[0].refcount, n))] + es[1..]
    else if n < es[0].refcount then [Entry(es[0].addr, es[0].refcount - n)] + es[1..]
    else Remaining(es[1..], n - es[0].refcount)
  }

  /** A count that is not positive goes down to WILL_RETURN_ONCE and stays. */
  ghost function CountDown(c: int, n: nat): int {
    if c <= WILL_RETURN_ONCE then c else if c - n <= WILL_RETURN_ONCE then WILL_RETURN_ONCE else c - n
  }

  ghost function Total(es: seq<Entry>): int {
    if es == [] then 0 else es[0].refcount + Total(es[1..])
  }

  /** It is entry j's turn: the entries before it are used up after Total(es[..j]) answers. */
  ghost predicate Reaches(es: seq<Entry>, j: nat, n: int) {
    j < |es| && (forall i :: 0 <= i < j ==> es[i].refcount > 0) && Total(es[..j]) <= n
  }

  /**
   After finitely counted entries worth Total(es[..j]) answers it is entry j's turn, for exactly its
   count, or for ever when its count is not positive; only the first answer of a count 0 is a failure.
   */
  lemma {:induction false} TurnOfEntry(es: seq<Entry>, j: nat, n: nat)
    requires Reaches(es, j, n)
    ensures es[j].refcount <= 0 || n < Total(es[..j]) + es[j].refcount ==>
              Nth(es, n) == Some(Answer(es[j].addr, es[j].refcount != 0 || n > Total(es[..j])))
    ensures es[j].refcount > 0 && n >= Total(es[..j]) + es[j].refcount ==>
              Nth(es, n) == Nth(es[j + 1..], n - Total(es[..j]) - es[j].refcount)
  {
    if j > 0 {
      assert es[..j][1..] == es[1..][..j - 1];
      assert es[j + 1..] == es[1..][j..];
      TotalNonNegative(es[1..][..j - 1]);
      TurnOfEntry(es[1..], j - 1, n - es[0].refcount);
    }
  }

  lemma TotalNonNegative(es: seq<Entry>)
    requires forall i :: 0 <= i < |es| ==> es[i].refcount > 0
    ensures Total(es) >= 0
  {
  }

  /** The entry whose turn comes with answer n was registered with count 0. */
  ghost predicate ZeroTurn(es: seq<Entry>, j: nat, n: nat) {
    Reaches(es, j, n) && Total(es[..j]) == n && es[j].refcount == 0
  }

  /** Answer n of a queue is a failure exactly when a count-0 entry has its first turn. */
  lemma {:induction false} FailureIff(es: seq<Entry>, n: nat)
    ensures Nth(es, n).Some? && !Nth(es, n).value.ok <==> exists j: nat :: ZeroTurn(es, j, n)
  {
    if j: nat :| ZeroTurn(es, j, n) { TurnOfEntry(es, j, n); }
    if Nth(es, n).Some? && !Nth(es, n).value.ok { FailureAt(es, n); }
  }

  lemma {:induction false} FailureAt(es: seq<Entry>, n: nat)
    requires Nth(es, n).Some? && !Nth(es, n).value.ok
    ensures exists j: nat :: ZeroTurn(es, j, n)
  {
    if es[0].refcount <= 0 {
      assert ZeroTurn(es, 0, n);
    } else {
      FailureAt(es[1..], n - es[0].refcount);
      var j: nat :| ZeroTurn(es[1..], j, n - es[0].refcount);
      assert es[..j + 1][1..] == es[1..][..j];
      assert ZeroTurn(es, j + 1, n);
    }
  }

  /** One fetch of the remaining queue is the next answer. */
  lemma {:induction false} RemainingStep(es: seq<Entry>, n: nat)
    ensures Nth(es, n).None? <==> Remaining(es, n) == []
    ensures Nth(es, n).Some? ==> var e := Remaining(es, n)[0];
              && Nth(es, n).value == Answer(e.addr, e.refcount != 0)
              && Consume(Remaining(es, n)) == Remaining(es, n + 1)
  {
    if es != [] && es[0].refcount > 0 && n >= es[0].refcount {
      RemainingStep(es[1..], n - es[0].refcount);
    } else if es != [] && es[0].refcount == n + 1 {
      assert Remaining(es, n + 1) == Remaining(es[1..], 0) == es[1..];
    }
  }

  /** Registering later does not change what was already answered. */
  lemma {:induction false} AppendEntry(es: seq<Entry>, e: Entry, n: nat)
    ensures Nth(es, n).Some? ==> Nth(es + [e], n) == Nth(es, n)
    ensures n == 0 || Nth(es, n - 1).Some? ==> Remaining(es + [e], n) == Remaining(es, n) + [e]
  {
    if es != [] {
      assert (es + [e])[1..] == es[1..] + [e];
      if es[0].refcount > 0 && n >= es[0].refcount {
        AppendEntry(es[1..], e, n - es[0].refcount);
      }
    }
  }

  /** `out` is what the queue `es` answered first and `q` is what it still owes. */
  ghost predicate Fifo(es: seq<Entry>, out: seq<Answer>, q: seq<Entry>) {
    && (forall i :: 0 <= i < |out| ==> Nth(es, i) == Some(out[i]))
    && q == Remaining(es, |out|)
  }

  lemma {:induction false} FifoRegister(es: seq<Entry>, out: seq<Answer>, q: seq<Entry>, e: Entry)
    requires Fifo(es, out, q)
    ensures Fifo(es + [e], out, q + [e])
  {
    AppendEntry(es, e, |out|);
    forall i | 0 <= i < |out| ensures Nth(es + [e], i) == Nth(es, i) { AppendEntry(es, e, i); }
  }

  lemma {:induction false} FifoFetch(es: seq<Entry>, out: seq<Answer>, q: seq<Entry>)
    requires Fifo(es, out, q) && q != []
    ensures Fifo(es, out + [Answer(q[0].addr, q[0].refcount != 0)], Consume(q))
  {
    RemainingStep(es, |out|);
  }

  lemma {:induction false} RegisterStep(ops: seq<Op>, d: nat, p: Path)
    requires ops != [] && ValidOps(ops, d) && |p| == d && Last(ops).Register?
    ensures var q := Lookup(Final(Init(ops), d), p); var es := Registered(Init(ops), p);
      && Answers(ops, d, p) == Answers(Init(ops), d, p)
      && if Last(ops).path == p then
           Registered(ops, p) == es + [Last(ops).entry] && Lookup(Final(ops, d), p) == q + [Last(ops).entry]
         else
           Registered(ops, p) == es && Lookup(Final(ops, d), p) == q
  {
    AddLookup(Final(Init(ops), d), Last(ops).path, Last(ops).entry, p);
  }

  /** What one fetch adds to the answers of a path. */
  lemma {:induction false} FetchAnswers(ops: seq<Op>, d: nat, p: Path)
    requires ops != [] && ValidOps(ops, d) && |p| == d && Last(ops).Fetch?
    ensures var q := Lookup(Final(Init(ops), d), p);
      Answers(ops, d, p) == Answers(Init(ops), d, p) +
        if Last(ops).path == p && q != [] then [Answer(q[0].addr, q[0].refcount != 0)] else []
  {
    GetOutcome(Final(Init(ops), d), p);
  }

  /** What one fetch does to the queue of a path. */
  lemma {:induction false} FetchStep(ops: seq<Op>, d: nat, p: Path)
    requires ops != [] && ValidOps(ops, d) && |p| == d && Last(ops).Fetch?
    ensures var q := Lookup(Final(Init(ops), d), p);
      && Registered(ops, p) == Registered(Init(ops), p)
      && Lookup(Final(ops, d), p) == if Last(ops).path == p && q != [] then Consume(q) else q
  {
    GetLookup(Final(Init(ops), d), Last(ops).path, p);
  }

  /**
   The FIFO law, for every interleaving of registrations (with any counts) and fetches on all paths:
   the i-th answer for `p` is the i-th answer of the queue registered under `p`, and what is
   stored is exactly what that queue still owes.
   */
  lemma {:induction false} FifoRun(ops: seq<Op>, d: nat, p: Path)
    requires ValidOps(ops, d) && |p| == d
    ensures var es := Registered(ops, p); var out := Answers(ops, d, p);
      && (forall i :: 0 <= i < |out| ==> Nth(es, i) == Some(out[i]))
      && Lookup(Final(ops, d), p) == Remaining(es, |out|)
  {
    if ops == [] {
      EmptyLookup(d, p);
    } else {
      FifoRun(Init(ops), d, p);
      var es, out, q := Registered(Init(ops), p), Answers(Init(ops), d, p), Lookup(Final(Init(ops), d), p);
      assert Fifo(es, out, q);
      if Last(ops).Register? {
        FifoRegister(es, out, q, Last(ops).entry);
        RegisterStep(ops, d, p);
      } else {
        if q != [] { FifoFetch(es, out, q); }
        FetchAnswers(ops, d, p);
        FetchStep(ops, d, p);
        assert out + [] == out;
      }
      assert Fifo(Registered(ops, p), Answers(ops, d, p), Lookup(Final(ops, d), p));
    }
  }

  /** What the next fetch reports after any run. */
  lemma {:induction false} NextFetch(ops: seq<Op>, d: nat, p: Path)
    requires ValidOps(ops, d) && |p| == d
    ensures var o := Get(Final(ops, d), p).0;
      match Nth(Registered(ops, p), |Answers(ops, d, p)|)
      case None => o == Missing
      case Some(r) => o.Delivered? && o.addr == r.addr && (o.rc != 0 <==> r.ok)
  {
    FifoRun(ops, d, p);
    RemainingStep(Registered(ops, p), |Answers(ops, d, p)|);
    GetLookup(Final(ops, d), p, p);
  }

  /**
   After any run a fetch fails on a non-empty queue exactly when the entry whose turn it is was
   registered with count 0 and has not been fetched yet.
   */
  lemma {:induction false} FetchFailsIff(ops: seq<Op>, d: nat, p: Path)
    requires ValidOps(ops, d) && |p| == d
    ensures var o := Get(Final(ops, d), p).0;
      o.Delivered? && o.rc == 0 <==> exists j: nat :: ZeroTurn(Registered(ops, p), j, |Answers(ops, d, p)|)
  {
    NextFetch(ops, d, p);
    FailureIff(Registered(ops, p), |Answers(ops, d, p)|);
  }

  /** The tree after `n` fetches of one path. */
  ghost function Fetched(t: Tree, p: Path, n: nat): (r: Tree)
    requires WellFormed(t, |p|) && IsTree(t, |p|)
    ensures WellFormed(r, |p|) && IsTree(r, |p|)
  {
    if n == 0 then t
    else
      var s := Fetched(t, p, n - 1);
      GetWellFormed(s, p);
      Get(s, p).1
  }

  lemma {:induction false} FetchedStep(s: Tree, p: Path, es: seq<Entry>, n: nat)
    requires p != [] && WellFormed(s, |p|) && IsTree(s, |p|)
    requires Nth(es, n).Some? && Lookup(s, p) == Remaining(es, n)
    ensures Lookup(Get(s, p).1, p) == Remaining(es, n + 1)
  {
    GetLookup(s, p, p);
    RemainingStep(es, n);
  }

  /** Fetching a queue whose first count is not positive only counts that entry down. */
  lemma {:induction false} FetchedQueue(t: Tree, p: Path, n: nat)
    requires p != [] && WellFormed(t, |p|) && IsTree(t, |p|)
    requires Lookup(t, p) != [] && Lookup(t, p)[0].refcount <= 0
    ensures Lookup(Fetched(t, p, n), p) == Remaining(Lookup(t, p), n)
  {
    if n > 0 {
      FetchedQueue(t, p, n - 1);
      FetchedStep(Fetched(t, p, n - 1), p, Lookup(t, p), n - 1);
    }
  }

  /**
   An entry whose count is not positive stays at the front of its queue, and fetch n finds it with the count -2,
   unless it was registered below -2 or has not been counted down that far.
   */
  lemma {:induction false} FrontStays(t: Tree, p: Path, n: nat)
    requires p != [] && WellFormed(t, |p|) && IsTree(t, |p|)
    requires Lookup(t, p) != [] && Lookup(t, p)[0].refcount <= 0
    ensures var e := Lookup(t, p)[0];
      Get(Fetched(t, p, n), p).0 ==
        Delivered(e.addr, if e.refcount < -2 then e.refcount else if e.refcount - n < -2 then -2 else e.refcount - n)
  {
    FetchedQueue(t, p, n);
    GetOutcome(Fetched(t, p, n), p);
  }

  /**
   _expect_check does not refuse a count of 0. In every tree, a queue that starts with such an
   entry is reported missing once and delivers that entry ever after.
   */
  lemma {:induction false} ZeroCountMissesOnce(t: Tree, p: Path, n: nat)
    requires p != [] && WellFormed(t, |p|) && IsTree(t, |p|)
    requires Lookup(t, p) != [] && Lookup(t, p)[0].refcount == 0
    ensures var o := Get(Fetched(t, p, n), p).0;
      o.Delivered? && o.addr == Lookup(t, p)[0].addr && if n == 0 then o.rc == 0 else o.rc < 0
  {
    FrontStays(t, p, n);
  }

  // ---- Heap records ----

  /** Record `a` hangs on the i-th node of the queue under `p`. */
  ghost predicate Linked(t: Tree, d: nat, p: Path, i: nat, a: nat)
    requires IsTree(t, d)
  {
    |p| == d && i < |Lookup(t, p)| && Lookup(t, p)[i].addr == a
  }

  /** The allocated records are exactly the linked ones, each linked once. */
  ghost predicate Accounted(t: Tree, d: nat, live: set<nat>)
    requires IsTree(t, d)
  {
    && (forall p, i, a :: Linked(t, d, p, i, a) ==> a in live)
    && (forall a :: a in live ==> exists p, i :: Linked(t, d, p, i, a))
    && (forall p, i, q, j, a :: Linked(t, d, p, i, a) && Linked(t, d, q, j, a) ==> p == q && i == j)
  }

  /** The records still allocated: malloc on registration, free when a fetch returns 1. */
  ghost function Live(ops: seq<Op>, d: nat): set<nat>
    requires ValidOps(ops, d)
  {
    if ops == [] then {}
    else match Last(ops)
      case Register(_, e) => Live(Init(ops), d) + {e.addr}
      case Fetch(p) =>
        var o := Get(Final(Init(ops), d), p).0;
        if o.Delivered? && o.rc == 1 then Live(Init(ops), d) - {o.addr} else Live(Init(ops), d)
  }

  /** malloc never returns the address of a record that is still allocated. */
  ghost predicate FreshAddresses(ops: seq<Op>, d: nat)
    requires ValidOps(ops, d)
  {
    ops == [] || (FreshAddresses(Init(ops), d) && (Last(ops).Register? ==> Last(ops).entry.addr !in Live(Init(ops), d)))
  }

  lemma {:induction false} RegisterAccounted(t: Tree, p: Path, e: Entry, live: set<nat>)
    requires WellFormed(t, |p|) && IsTree(t, |p|) && Accounted(t, |p|, live) && e.addr !in live
    ensures Accounted(Add(t, p, e), |p|, live + {e.addr})
  {
    var d, r, n := |p|, Add(t, p, e), |Lookup(t, p)|;
    forall q, i, a | |q| == d
      ensures Linked(r, d, q, i, a) <==> Linked(t, d, q, i, a) || (q == p && i == n && a == e.addr)
    {
      AddLookup(t, p, e, q);
    }
    forall a | a in live + {e.addr} ensures exists q, i :: Linked(r, d, q, i, a) {
      if a in live {
        var q, i :| Linked(t, d, q, i, a);
        assert Linked(r, d, q, i, a);
      } else {
        assert Linked(r, d, p, n, a);
      }
    }
  }

  /** Where the nodes of the tree after a fetch were before it. */
  lemma {:induction false} FetchLinked(t: Tree, p: Path, q: Path, i: nat, a: nat)
    requires p != [] && |q| == |p| && WellFormed(t, |p|) && IsTree(t, |p|)
    ensures var (o, r) := Get(t, p); var gone := q == p && o.Delivered? && o.rc == 1;
      Linked(r, |p|, q, i, a) <==> Linked(t, |p|, q, if gone then i + 1 else i, a)
  {
    GetLookup(t, p, q);
  }

  lemma {:induction false} FetchKeepsRecords(t: Tree, p: Path, live: set<nat>)
    requires p != [] && WellFormed(t, |p|) && IsTree(t, |p|) && Accounted(t, |p|, live)
    requires var o := Get(t, p).0; !(o.Delivered? && o.rc == 1)
    ensures Accounted(Get(t, p).1, |p|, live)
  {
    var d, r := |p|, Get(t, p).1;
    forall q, i, a | |q| == d ensures Linked(r, d, q, i, a) <==> Linked(t, d, q, i, a) {
      FetchLinked(t, p, q, i, a);
    }
    forall a | a in live ensures exists q, i :: Linked(r, d, q, i, a) {
      var q, i :| Linked(t, d, q, i, a);
      assert Linked(r, d, q, i, a);
    }
  }

  lemma {:induction false} DeliveredIsFront(t: Tree, p: Path)
    requires p != [] && WellFormed(t, |p|) && IsTree(t, |p|)
    ensures Get(t, p).0.Delivered? ==> Linked(t, |p|, p, 0, Get(t, p).0.addr)
  {
    GetLookup(t, p, p);
  }

  /** The shift FetchLinked describes keeps records on one node each and takes only `o.addr` away. */
  lemma {:induction false} FetchFreesOne(t: Tree, p: Path, live: set<nat>, q: Path, i: nat, a: nat)
    requires p != [] && WellFormed(t, |p|) && IsTree(t, |p|) && Accounted(t, |p|, live)
    requires var o := Get(t, p).0; o.Delivered? && o.rc == 1
    requires |q| == |p| && Linked(t, |p|, q, i, a)
    ensures a != Get(t, p).0.addr <==> !(q == p && i == 0)
    ensures !(q == p && i == 0) ==> Linked(Get(t, p).1, |p|, q, if q == p then i - 1 else i, a)
  {
    DeliveredIsFront(t, p);
    if !(q == p && i == 0) { FetchLinked(t, p, q, if q == p then i - 1 else i, a); }
  }

  lemma {:induction false} FetchOnce(t: Tree, p: Path, live: set<nat>, q: Path, i: nat, q': Path, j: nat, a: nat)
    requires p != [] && WellFormed(t, |p|) && IsTree(t, |p|) && Accounted(t, |p|, live)
    requires Linked(Get(t, p).1, |p|, q, i, a) && Linked(Get(t, p).1, |p|, q', j, a)
    ensures q == q' && i == j
  {
    FetchLinked(t, p, q, i, a);
    FetchLinked(t, p, q', j, a);
  }

  lemma {:induction false} FetchFreesRecord(t: Tree, p: Path, live: set<nat>)
    requires p != [] && WellFormed(t, |p|) && IsTree(t, |p|) && Accounted(t, |p|, live)
    requires var o := Get(t, p).0; o.Delivered? && o.rc == 1
    ensures Accounted(Get(t, p).1, |p|, live - {Get(t, p).0.addr})
  {
    var d, r, b := |p|, Get(t, p).1, Get(t, p).0.addr;
    forall q, i: nat, a | Linked(r, d, q, i, a) ensures a in live - {b} {
      FetchLinked(t, p, q, i, a);
      FetchFreesOne(t, p, live, q, if q == p then i + 1 else i, a);
    }
    forall a | a in live - {b} ensures exists q, i :: Linked(r, d, q, i, a) {
      var q, i :| Linked(t, d, q, i, a);
      FetchFreesOne(t, p, live, q, i, a);
    }
    forall q, i: nat, q', j: nat, a | Linked(r, d, q, i, a) && Linked(r, d, q', j, a) ensures q == q' && i == j {
      FetchOnce(t, p, live, q, i, q', j, a);
    }
  }

  /** A fetch that returns 1 unlinks the record it delivers; any other fetch keeps every record linked. */
  lemma {:induction false} FetchAccounted(t: Tree, p: Path, live: set<nat>)
    requires p != [] && WellFormed(t, |p|) && IsTree(t, |p|) && Accounted(t, |p|, live)
    ensures var (o, r) := Get(t, p);
      && (o.Delivered? ==> o.addr in live)
      && Accounted(r, |p|, if o.Delivered? && o.rc == 1 then live - {o.addr} else live)
  {
    var o := Get(t, p).0;
    DeliveredIsFront(t, p);
    if o.Delivered? && o.rc == 1 {
      FetchFreesRecord(t, p, live);
    } else {
      FetchKeepsRecords(t, p, live);
    }
  }

  /**
   Over every run no record is released twice, used after release or leaked: what is allocated
   is what is linked, each record on exactly one node.
   */
  lemma {:induction false} RecordsAccounted(ops: seq<Op>, d: nat)
    requires ValidOps(ops, d) && FreshAddresses(ops, d)
    ensures Accounted(Final(ops, d), d, Live(ops, d))
  {
    if ops == [] {
      forall p: Path | |p| == d ensures Lookup(Final(ops, d), p) == [] { EmptyLookup(d, p); }
    } else {
      RecordsAccounted(Init(ops), d);
      match Last(ops)
      case Register(p, e) => RegisterAccounted(Final(Init(ops), d), p, e, Live(Init(ops), d));
      case Fetch(p) => FetchAccounted(Final(Init(ops), d), p, Live(Init(ops), d));
    }
  }
}
