/**
 The end-of-test clean-up of FSBL/cmocka.c on symbol trees: the sweep that removes
 entries which may stay unused, and the check that reports what is left after it.
 */
module Leftovers {
  import opened SymbolQueues

  /** Only the first entry of a queue is swept, and only with a count below -1. */
  function DropAlways(es: seq<Entry>): seq<Entry> {
    if es != [] && es[0].refcount < -1 then es[1..] else es
  }

  /** remove_always_return_values on the list with `d` levels below each symbol. */
  function SweepSyms(syms: seq<Sym>, d: nat): (r: seq<Sym>)
    requires forall i :: 0 <= i < |syms| ==> IsTree(syms[i].sub, d)
    ensures forall i :: 0 <= i < |r| ==> IsTree(r[i].sub, d)
    decreases d, |syms|
  {
    if syms == [] then []
    else
      var sub := Sweep(syms[0].sub, d);
      (if IsEmpty(sub) then [] else [Sym(syms[0].name, sub)]) + SweepSyms(syms[1..], d)
  }

  function Sweep(t: Tree, d: nat): (r: Tree)
    requires IsTree(t, d)
    ensures IsTree(r, d)
    decreases d, 0
  {
    if d == 0 then Queue(DropAlways(t.entries)) else Level(SweepSyms(t.syms, d - 1))
  }

  /** check_for_leftover_values: the number of symbols whose child list is not empty. */
  function CountLeftovers(syms: seq<Sym>): nat {
    if syms == [] then 0 else (if IsEmpty(syms[0].sub) then 0 else 1) + CountLeftovers(syms[1..])
  }

  lemma CountLeftoversAppend(syms: seq<Sym>, s: Sym)
    ensures CountLeftovers(syms + [s]) == CountLeftovers(syms) + if IsEmpty(s.sub) then 0 else 1
  {
    if syms != [] {
      assert (syms + [s])[1..] == syms[1..] + [s];
    }
  }

  // ---- What the sweep does to each path ----

  lemma {:induction false} SweepNames(syms: seq<Sym>, d: nat, i: nat)
    requires forall j :: 0 <= j < |syms| ==> IsTree(syms[j].sub, d)
    requires i < |SweepSyms(syms, d)|
    ensures exists j :: 0 <= j < |syms| && syms[j].name == SweepSyms(syms, d)[i].name
  {
    var sub := Sweep(syms[0].sub, d);
    var k := if IsEmpty(sub) then 0 else 1;
    if i < k {
      assert syms[0].name == SweepSyms(syms, d)[i].name;
    } else {
      SweepNames(syms[1..], d, i - k);
      var j :| 0 <= j < |syms[1..]| && syms[1..][j].name == SweepSyms(syms[1..], d)[i - k].name;
      assert syms[j + 1].name == SweepSyms(syms, d)[i].name;
    }
  }

  lemma {:induction false} SweepWellFormed(t: Tree, d: nat)
    requires WellFormed(t, d) && IsTree(t, d)
    ensures WellFormed(Sweep(t, d), d)
    decreases d, 0, 1
  {
    if d > 0 { SweepSymsWellFormed(t.syms, d - 1); }
  }

  lemma {:induction false} SweepSymsWellFormed(syms: seq<Sym>, d: nat)
    requires WellFormed(Level(syms), d + 1) && IsTree(Level(syms), d + 1)
    ensures WellFormed(Level(SweepSyms(syms, d)), d + 1)
    decreases d, |syms|, 0
  {
    if syms != [] {
      var rest := SweepSyms(syms[1..], d);
      assert UniqueNames(syms[1..]);
      SweepSymsWellFormed(syms[1..], d);
      SweepWellFormed(syms[0].sub, d);
      forall i | 0 <= i < |rest| ensures rest[i].name != syms[0].name {
        SweepNames(syms[1..], d, i);
      }
    }
  }

  /** The sub-tree under `name`, the empty tree when there is none. */
  function SubOf(syms: seq<Sym>, name: string, d: nat): (r: Tree)
    requires forall i :: 0 <= i < |syms| ==> IsTree(syms[i].sub, d)
    ensures IsTree(r, d)
  {
    if syms == [] then EmptyTree(d)
    else if syms[0].name == name then syms[0].sub
    else SubOf(syms[1..], name, d)
  }

  lemma {:induction false} SubOfAbsent(syms: seq<Sym>, name: string, d: nat)
    requires forall i :: 0 <= i < |syms| ==> IsTree(syms[i].sub, d)
    requires forall i :: 0 <= i < |syms| ==> syms[i].name != name
    ensures SubOf(syms, name, d) == EmptyTree(d)
  {
    if syms != [] { SubOfAbsent(syms[1..], name, d); }
  }

  lemma {:induction false} SubOfFind(syms: seq<Sym>, name: string, d: nat)
    requires forall i :: 0 <= i < |syms| ==> IsTree(syms[i].sub, d)
    ensures var k := Find(syms, name); SubOf(syms, name, d) == if k < |syms| then syms[k].sub else EmptyTree(d)
  {
    if syms != [] { SubOfFind(syms[1..], name, d); }
  }

  lemma {:induction false} LookupSub(t: Tree, q: Path)
    requires q != [] && IsTree(t, |q|)
    ensures Lookup(t, q) == Lookup(SubOf(t.syms, q[0], |q| - 1), q[1..])
  {
    SubOfFind(t.syms, q[0], |q| - 1);
    EmptyLookup(|q| - 1, q[1..]);
  }

  lemma EmptyIs(t: Tree, d: nat)
    requires IsTree(t, d) && IsEmpty(t)
    ensures t == EmptyTree(d)
  {
  }

  /** Sweeping the list sweeps the sub-tree under every name. */
  lemma {:induction false} SweepSubOf(syms: seq<Sym>, d: nat, name: string)
    requires UniqueNames(syms)
    requires forall i :: 0 <= i < |syms| ==> IsTree(syms[i].sub, d)
    ensures SubOf(SweepSyms(syms, d), name, d) == Sweep(SubOf(syms, name, d), d)
  {
    if syms != [] {
      var x, sub, rest := syms[0], Sweep(syms[0].sub, d), SweepSyms(syms[1..], d);
      SweepSubOf(syms[1..], d, name);
      if IsEmpty(sub) {
        EmptyIs(sub, d);
        assert SweepSyms(syms, d) == rest;
        if x.name == name { SubOfAbsent(syms[1..], name, d); }
      } else {
        assert ([Sym(x.name, sub)] + rest)[1..] == rest;
      }
    }
  }

  lemma {:induction false} SweepDescends(t: Tree, d: nat, q: Path)
    requires d > 0 && WellFormed(t, d) && IsTree(t, d) && |q| == d
    ensures Lookup(Sweep(t, d), q) == Lookup(Sweep(SubOf(t.syms, q[0], d - 1), d - 1), q[1..])
  {
    LookupSub(Sweep(t, d), q);
    SweepSubOf(t.syms, d - 1, q[0]);
  }

  lemma {:induction false} SubOfWellFormed(t: Tree, d: nat, name: string)
    requires d > 0 && WellFormed(t, d) && IsTree(t, d)
    ensures WellFormed(SubOf(t.syms, name, d - 1), d - 1)
  {
    SubOfFind(t.syms, name, d - 1);
  }

  /** On every path the sweep drops the first entry exactly when its count is below -1. */
  lemma {:induction false} SweepLookup(t: Tree, d: nat, q: Path)
    requires WellFormed(t, d) && IsTree(t, d) && |q| == d
    ensures var es := Lookup(t, q);
      Lookup(Sweep(t, d), q) == if es != [] && es[0].refcount < -1 then es[1..] else es
    decreases d
  {
    if d > 0 {
      LookupSub(t, q);
      SweepDescends(t, d, q);
      SubOfWellFormed(t, d, q[0]);
      SweepLookup(SubOf(t.syms, q[0], d - 1), d - 1, q[1..]);
    }
  }

  /** A non-empty well-formed tree has a non-empty queue. */
  lemma {:induction false} SomeQueue(t: Tree, d: nat) returns (q: Path)
    requires WellFormed(t, d) && IsTree(t, d) && !IsEmpty(t)
    ensures |q| == d && Lookup(t, q) != []
    decreases d
  {
    if d == 0 {
      q := [];
    } else {
      var rest := SomeQueue(t.syms[0].sub, d - 1);
      q := [t.syms[0].name] + rest;
      assert q[1..] == rest;
      FindIs(t.syms, q[0], 0);
    }
  }

  lemma {:induction false} CountZero(syms: seq<Sym>, d: nat)
    requires WellFormed(Level(syms), d + 1)
    ensures CountLeftovers(syms) == 0 <==> syms == []
  {
  }

  /** What the documentation allows to remain: nothing, or one entry that may always be returned. */
  ghost predicate MayRemain(es: seq<Entry>) {
    es == [] || (|es| == 1 && es[0].refcount < -1)
  }

  /** The end-of-test check reports nothing exactly when every path may keep what it holds. */
  lemma {:induction false} NoLeftovers(t: Tree, d: nat)
    requires d > 0 && WellFormed(t, d) && IsTree(t, d)
    ensures CountLeftovers(Sweep(t, d).syms) == 0 <==> forall q: Path :: |q| == d ==> MayRemain(Lookup(t, q))
  {
    var r := Sweep(t, d);
    SweepWellFormed(t, d);
    CountZero(r.syms, d - 1);
    forall q: Path | |q| == d ensures MayRemain(Lookup(t, q)) <==> Lookup(r, q) == [] {
      SweepLookup(t, d, q);
    }
    if r.syms != [] {
      var q := SomeQueue(r, d);
      assert !MayRemain(Lookup(t, q));
    } else {
      forall q: Path | |q| == d ensures Lookup(r, q) == [] { EmptySubLookup(r, q); }
    }
  }
}
