/**
 Whole runs on the mock runtime of FSBL/cmocka.c: whatever a test registers and fetches, the map in the heap
 goes through the run of the same operations on tree values, so the laws of `SymbolRuns` hold of it.
 */
module MockRuns {
  import opened Basics
  import opened SymbolQueues
  import opened SymbolRuns
  import opened Leftovers
  import opened MockRuntime

  /**
   What the queues promise the next fetch of `p` after the run `ops`: the record at that address, or the error path.
   */
  ghost function Promised<R>(ops: seq<Op>, d: nat, p: Path, value: nat -> R): Option<R>
    requires ValidOps(ops, d) && |p| == d
  {
    match Nth(Registered(ops, p), |Answers(ops, d, p)|)
    case None => None
    case Some(r) => if r.ok then Some(value(r.addr)) else None
  }

  /** `m` has been through the run `ops`; `value` says what is registered at an address. */
  ghost predicate Ran<R(!new)>(m: SymbolMap<R>, ops: seq<Op>, value: nat -> R)
    reads m, m.shape.fp
  {
    && m.Valid() && ValidOps(ops, m.levels)
    && m.tree == Final(ops, m.levels) && m.records.Keys == Live(ops, m.levels)
    && forall a :: a in m.records ==> m.records[a] == value(a)
  }

  /** One registration of a run. */
  method RunRegister<R(!new)>(m: SymbolMap<R>, ghost ops: seq<Op>, p: Path, e: Entry, value: nat -> R)
    requires ops != [] && Last(ops) == Register(p, e) && ValidOps(ops, m.levels) && FreshAddresses(ops, m.levels)
    requires Ran(m, Init(ops), value)
    modifies m, m.shape.fp
    ensures Ran(m, ops, value) && fresh(m.shape.fp - old(m.shape.fp))
  {
    m.Register(p, e.addr, value(e.addr), e.refcount);
  }

  /** The last fetch of a run, in terms of the queue it found. */
  lemma {:induction false} FetchOfRun<R>(ops: seq<Op>, d: nat, p: Path, value: nat -> R)
    requires ops != [] && Last(ops) == Op.Fetch(p) && ValidOps(ops, d) && |p| == d
    ensures var es := Lookup(Final(Init(ops), d), p);
      && Final(ops, d) == Get(Final(Init(ops), d), p).1
      && Live(ops, d) == (if es != [] && es[0].refcount == 1 then Live(Init(ops), d) - {es[0].addr}
                          else Live(Init(ops), d))
      && Promised(Init(ops), d, p, value) == if es == [] || es[0].refcount == 0 then None else Some(value(es[0].addr))
  {
    NextFetch(Init(ops), d, p);
    GetOutcome(Final(Init(ops), d), p);
  }

  /** One fetch of a run: what is returned is what the queues promise. */
  method RunFetch<R(!new)>(m: SymbolMap<R>, ghost ops: seq<Op>, p: Path, ghost value: nat -> R) returns (got: Option<R>)
    requires ops != [] && Last(ops) == Op.Fetch(p) && ValidOps(ops, m.levels) && Ran(m, Init(ops), value)
    modifies m, m.shape.fp
    ensures Ran(m, ops, value) && m.shape.fp == old(m.shape.fp)
    ensures got == Promised(Init(ops), m.levels, p, value)
  {
    FetchOfRun(ops, m.levels, p, value);
    got := m.Fetch(p);
  }

  method RunLast<R(!new)>(m: SymbolMap<R>, ops: seq<Op>, value: nat -> R) returns (got: Option<R>)
    requires ops != [] && ValidOps(ops, m.levels) && FreshAddresses(ops, m.levels) && Ran(m, Init(ops), value)
    modifies m, m.shape.fp
    ensures Ran(m, ops, value) && fresh(m.shape.fp - old(m.shape.fp))
    ensures Last(ops).Fetch? ==> got == Promised(Init(ops), m.levels, Last(ops).path, value)
  {
    got := None;
    match Last(ops)
    case Register(p, e) => RunRegister(m, ops, p, e, value);
    case Fetch(p) => got := RunFetch(m, ops, p, value);
  }

  /** Every fetch of the run got what the queues promised. */
  ghost predicate Answered<R>(ops: seq<Op>, d: nat, got: seq<Option<R>>, value: nat -> R)
    requires ValidOps(ops, d)
  {
    && |got| == |ops|
    && forall i :: 0 <= i < |ops| && ops[i].Fetch? ==> got[i] == Promised(ops[..i], d, ops[i].path, value)
  }

  lemma AnsweredSnoc<R>(ops: seq<Op>, d: nat, got: seq<Option<R>>, last: Option<R>, value: nat -> R)
    requires ops != [] && ValidOps(ops, d) && Answered(Init(ops), d, got, value)
    requires Last(ops).Fetch? ==> last == Promised(Init(ops), d, Last(ops).path, value)
    ensures Answered(ops, d, got + [last], value)
  {
    assert forall i :: 0 <= i < |ops| - 1 ==> Init(ops)[..i] == ops[..i];
  }

  /**
   Any run of registrations and fetches on a new map is a run of `SymbolRuns`: the map holds its tree and
   its records, and every fetch returned what the FIFO queues promise.
   */
  method Run<R(!new)>(m: SymbolMap<R>, ops: seq<Op>, value: nat -> R) returns (got: seq<Option<R>>)
    requires m.Valid() && m.tree == EmptyTree(m.levels) && m.records == map[]
    requires ValidOps(ops, m.levels) && FreshAddresses(ops, m.levels)
    modifies m, m.shape.fp
    ensures Ran(m, ops, value) && fresh(m.shape.fp - old(m.shape.fp))
    ensures Answered(ops, m.levels, got, value)
  {
    if ops == [] {
      got := [];
    } else {
      got := Run(m, Init(ops), value);
      var last := RunLast(m, ops, value);
      AnsweredSnoc(ops, m.levels, got, last, value);
      got := got + [last];
    }
  }

  // ---- What a run still owes at the end of the test ----

  /**
   After `n` answers a queue may be left as it is exactly when every count was positive and is used up, or all
   counts but the last were and the last one may stay: below -1, or -1 and answered once, or 0 and answered twice.
   */
  lemma {:induction false} MayRemainIff(es: seq<Entry>, n: nat)
    ensures var k := |es| - 1;
      MayRemain(Remaining(es, n)) <==>
      || ((forall i :: 0 <= i < |es| ==> es[i].refcount > 0) && Total(es) <= n)
      || (&& k >= 0 && (forall i :: 0 <= i < k ==> es[i].refcount > 0) && Total(es[..k]) <= n
          && (|| es[k].refcount < -1
              || (es[k].refcount == -1 && n > Total(es[..k]))
              || (es[k].refcount == 0 && n > Total(es[..k]) + 1)))
  {
    if es != [] {
      var k := |es| - 1;
      if es[0].refcount <= 0 {
        if k > 0 { assert Remaining(es, n)[1..] == es[1..]; }
      } else {
        assert k > 0 ==> es[..k][1..] == es[1..][..k - 1];
        if n < es[0].refcount {
          assert Remaining(es, n)[0].refcount > 0;
          TotalIfPositive(es[1..]);
          if k > 0 { TotalIfPositive(es[1..][..k - 1]); }
        } else {
          MayRemainIff(es[1..], n - es[0].refcount);
          assert forall i :: 0 <= i < k ==> es[1..][i] == es[i + 1];
        }
      }
    }
  }

  lemma {:induction false} TotalIfPositive(es: seq<Entry>)
    ensures (forall i :: 0 <= i < |es| ==> es[i].refcount > 0) ==> Total(es) >= 0
  {
    if forall i :: 0 <= i < |es| ==> es[i].refcount > 0 { TotalNonNegative(es); }
  }

  /** `MayRemainIff`'s condition as a predicate. */
  ghost predicate Spent(es: seq<Entry>, n: nat) {
    var k := |es| - 1;
    || ((forall i :: 0 <= i < |es| ==> es[i].refcount > 0) && Total(es) <= n)
    || (&& k >= 0 && (forall i :: 0 <= i < k ==> es[i].refcount > 0) && Total(es[..k]) <= n
        && (|| es[k].refcount < -1
            || (es[k].refcount == -1 && n > Total(es[..k]))
            || (es[k].refcount == 0 && n > Total(es[..k]) + 1)))
  }

  /** The queue of `p` is spent by the answers it gave in the run `ops`. */
  ghost predicate SpentBy(ops: seq<Op>, d: nat, p: Path)
    requires ValidOps(ops, d) && |p| == d
  {
    Spent(Registered(ops, p), |Answers(ops, d, p)|)
  }

  lemma {:induction false} SpentAfter(ops: seq<Op>, d: nat, t: Tree, p: Path)
    requires ValidOps(ops, d) && t == Final(ops, d) && |p| == d
    ensures MayRemain(Lookup(t, p)) <==> SpentBy(ops, d, p)
  {
    FifoRun(ops, d, p);
    MayRemainIff(Registered(ops, p), |Answers(ops, d, p)|);
  }

  /** After any run nothing is owed exactly when the queue of every path is spent by the answers it gave. */
  lemma {:induction false} NothingOwedAfter(ops: seq<Op>, d: nat, t: Tree)
    requires ValidOps(ops, d) && t == Final(ops, d)
    ensures NothingOwed(t, d) <==> forall p: Path :: |p| == d ==> SpentBy(ops, d, p)
  {
    forall p: Path | |p| == d ensures MayRemain(Lookup(t, p)) <==> SpentBy(ops, d, p) {
      SpentAfter(ops, d, t, p);
    }
  }

  /** A run on a new map followed by its end-of-test check: nothing is reported exactly when every queue is spent. */
  method RunAndCheck<R(!new)>(m: SymbolMap<R>, ops: seq<Op>, value: nat -> R)
    returns (got: seq<Option<R>>, count: nat)
    requires m.Valid() && m.tree == EmptyTree(m.levels) && m.records == map[]
    requires ValidOps(ops, m.levels) && FreshAddresses(ops, m.levels)
    modifies m, m.shape.fp
    ensures m.Valid() && Answered(ops, m.levels, got, value)
    ensures count == 0 <==> forall p: Path :: |p| == m.levels ==> SpentBy(ops, m.levels, p)
  {
    got := Run(m, ops, value);
    NothingOwedAfter(ops, m.levels, m.tree);
    count := m.LeftoversAfterSweep();
  }
}
