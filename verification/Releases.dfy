/**
 Which heap records the end of a test releases: the sweep frees the first record of every queue whose
 count is below -1, the teardown frees all that are left. Each visits the tree in list order; no record
 is met twice, and after both none is left.
 */
module Releases {
  import opened Basics
  import opened SymbolQueues
  import opened SymbolRuns
  import opened Leftovers

  /**
   The i-th entry of a queue is released: by the teardown any entry, by the sweep the first one with a count below -1.
   */
  ghost predicate Picks(es: seq<Entry>, i: nat, all: bool) {
    i < |es| && (all || (i == 0 && es[0].refcount < -1))
  }

  ghost function Addresses(es: seq<Entry>): seq<nat> {
    if es == [] then [] else [es[0].addr] + Addresses(es[1..])
  }

  ghost function Picked(es: seq<Entry>, all: bool): seq<nat> {
    if all then Addresses(es) else if Picks(es, 0, false) then [es[0].addr] else []
  }

  /** The addresses released below a tree, in the order of the walk. */
  ghost function Collect(t: Tree, d: nat, all: bool): seq<nat>
    requires IsTree(t, d)
    decreases d, 0
  {
    if d == 0 then Picked(t.entries, all) else CollectSyms(t.syms, d - 1, all)
  }

  ghost function CollectSyms(syms: seq<Sym>, d: nat, all: bool): seq<nat>
    requires forall i :: 0 <= i < |syms| ==> IsTree(syms[i].sub, d)
    decreases d, |syms|
  {
    if syms == [] then [] else Collect(syms[0].sub, d, all) + CollectSyms(syms[1..], d, all)
  }

  /** The record released on the i-th node under `q` is `a`. */
  ghost predicate Freed(t: Tree, d: nat, q: Path, i: nat, a: nat, all: bool)
    requires IsTree(t, d)
  {
    Linked(t, d, q, i, a) && Picks(Lookup(t, q), i, all)
  }

  lemma {:induction false} AddressAt(es: seq<Entry>, i: nat)
    requires i < |es|
    ensures |Addresses(es)| == |es| && Addresses(es)[i] == es[i].addr
  {
    if i > 0 { AddressAt(es[1..], i - 1); } else if |es| > 1 { AddressAt(es[1..], 0); }
  }

  lemma {:induction false} PickedAt(es: seq<Entry>, all: bool, j: nat)
    requires j < |Picked(es, all)|
    ensures j < |es| && Picks(es, j, all) && Picked(es, all)[j] == es[j].addr
  {
    if all && es != [] { AddressAt(es, 0); AddressAt(es, j); }
  }

  lemma {:induction false} PickedHas(es: seq<Entry>, all: bool, i: nat)
    requires Picks(es, i, all)
    ensures es[i].addr in Picked(es, all)
  {
    if all { AddressAt(es, i); }
  }

  // ---- A level and the rest of its list ----

  ghost predicate IsLevel(syms: seq<Sym>, d: nat) {
    WellFormed(Level(syms), d + 1) && IsTree(Level(syms), d + 1)
  }

  lemma {:induction false} TailLevel(syms: seq<Sym>, d: nat)
    requires IsLevel(syms, d) && syms != []
    ensures IsLevel(syms[1..], d) && WellFormed(syms[0].sub, d) && IsTree(syms[0].sub, d)
  {
  }

  /** A path starts with the first symbol or leads into the rest of the list. */
  lemma {:induction false} LookupHeadTail(syms: seq<Sym>, d: nat, q: Path)
    requires IsLevel(syms, d) && syms != [] && |q| == d + 1
    ensures IsLevel(syms[1..], d) && IsTree(syms[0].sub, d)
    ensures q[0] == syms[0].name ==>
              Lookup(Level(syms), q) == Lookup(syms[0].sub, q[1..]) && Lookup(Level(syms[1..]), q) == []
    ensures q[0] != syms[0].name ==> Lookup(Level(syms), q) == Lookup(Level(syms[1..]), q)
  {
    TailLevel(syms, d);
    if q[0] == syms[0].name { FindIs(syms[1..], q[0], |syms[1..]|); }
  }

  lemma {:induction false} CollectHas(t: Tree, d: nat, all: bool, q: Path, i: nat, a: nat)
    requires WellFormed(t, d) && IsTree(t, d) && Freed(t, d, q, i, a, all)
    ensures a in Collect(t, d, all)
    decreases d, 0, 1
  {
    if d == 0 { PickedHas(t.entries, all, i); } else { CollectSymsHas(t.syms, d - 1, all, q, i, a); }
  }

  lemma {:induction false} CollectSymsHas(syms: seq<Sym>, d: nat, all: bool, q: Path, i: nat, a: nat)
    requires IsLevel(syms, d) && Freed(Level(syms), d + 1, q, i, a, all)
    ensures a in CollectSyms(syms, d, all)
    decreases d, |syms|, 0
  {
    if syms != [] {
      LookupHeadTail(syms, d, q);
      TailLevel(syms, d);
      if q[0] == syms[0].name {
        CollectHas(syms[0].sub, d, all, q[1..], i, a);
      } else {
        CollectSymsHas(syms[1..], d, all, q, i, a);
      }
    }
  }

  /** Whatever is released hangs on a node that is picked. */
  lemma {:induction false} CollectFrom(t: Tree, d: nat, all: bool, j: nat) returns (q: Path, i: nat)
    requires WellFormed(t, d) && IsTree(t, d) && j < |Collect(t, d, all)|
    ensures Freed(t, d, q, i, Collect(t, d, all)[j], all)
    decreases d, 0, 1
  {
    if d == 0 {
      q, i := [], j;
      PickedAt(t.entries, all, j);
    } else {
      q, i := CollectSymsFrom(t.syms, d - 1, all, j);
    }
  }

  lemma {:induction false} CollectSymsFrom(syms: seq<Sym>, d: nat, all: bool, j: nat) returns (q: Path, i: nat)
    requires IsLevel(syms, d) && j < |CollectSyms(syms, d, all)|
    ensures Freed(Level(syms), d + 1, q, i, CollectSyms(syms, d, all)[j], all)
    ensures syms != [] && (q[0] == syms[0].name <==> j < |Collect(syms[0].sub, d, all)|)
    decreases d, |syms|, 0
  {
    TailLevel(syms, d);
    var n := |Collect(syms[0].sub, d, all)|;
    if j < n {
      var rest;
      rest, i := CollectFrom(syms[0].sub, d, all, j);
      q := [syms[0].name] + rest;
      assert q[1..] == rest;
    } else {
      q, i := CollectSymsFrom(syms[1..], d, all, j - n);
    }
    LookupHeadTail(syms, d, q);
  }

  /** Every record hangs on one node only. */
  ghost predicate OnceEach(t: Tree, d: nat)
    requires IsTree(t, d)
  {
    forall p, i, q, j, a :: Linked(t, d, p, i, a) && Linked(t, d, q, j, a) ==> p == q && i == j
  }

  lemma {:induction false} OnceFirst(syms: seq<Sym>, d: nat)
    requires IsLevel(syms, d) && syms != [] && OnceEach(Level(syms), d + 1)
    ensures IsTree(syms[0].sub, d) && OnceEach(syms[0].sub, d)
  {
    TailLevel(syms, d);
    var n, sub := d + 1, syms[0].sub;
    forall p, i, q, j, a | Linked(sub, d, p, i, a) && Linked(sub, d, q, j, a) ensures p == q && i == j {
      var p', q' := [syms[0].name] + p, [syms[0].name] + q;
      assert p'[1..] == p && q'[1..] == q;
      LookupHeadTail(syms, d, p');
      LookupHeadTail(syms, d, q');
      assert Linked(Level(syms), n, p', i, a) && Linked(Level(syms), n, q', j, a);
    }
  }

  lemma {:induction false} OnceRest(syms: seq<Sym>, d: nat)
    requires IsLevel(syms, d) && syms != [] && OnceEach(Level(syms), d + 1)
    ensures IsLevel(syms[1..], d) && OnceEach(Level(syms[1..]), d + 1)
  {
    TailLevel(syms, d);
    var n, rest := d + 1, Level(syms[1..]);
    forall p, i, q, j, a | Linked(rest, n, p, i, a) && Linked(rest, n, q, j, a) ensures p == q && i == j {
      LookupHeadTail(syms, d, p);
      LookupHeadTail(syms, d, q);
      assert Linked(Level(syms), n, p, i, a) && Linked(Level(syms), n, q, j, a);
    }
  }

  lemma {:induction false} CollectDistinct(t: Tree, d: nat, all: bool)
    requires WellFormed(t, d) && IsTree(t, d) && OnceEach(t, d)
    ensures Distinct(Collect(t, d, all))
    decreases d, 0, 1
  {
    if d == 0 {
      var es := t.entries;
      forall i, j | 0 <= i < j < |Picked(es, all)| ensures Picked(es, all)[i] != Picked(es, all)[j] {
        PickedAt(es, all, i);
        PickedAt(es, all, j);
        assert Linked(t, 0, [], i, es[i].addr) && Linked(t, 0, [], j, es[j].addr);
      }
    } else {
      CollectSymsDistinct(t.syms, d - 1, all);
    }
  }

  lemma {:induction false} CollectSymsDistinct(syms: seq<Sym>, d: nat, all: bool)
    requires IsLevel(syms, d) && OnceEach(Level(syms), d + 1)
    ensures Distinct(CollectSyms(syms, d, all))
    decreases d, |syms|, 0
  {
    if syms != [] {
      OnceFirst(syms, d);
      OnceRest(syms, d);
      TailLevel(syms, d);
      CollectDistinct(syms[0].sub, d, all);
      CollectSymsDistinct(syms[1..], d, all);
      var c, n := CollectSyms(syms, d, all), |Collect(syms[0].sub, d, all)|;
      forall i, j | 0 <= i < j < |c| ensures c[i] != c[j] {
        if i < n <= j {
          var p, x := CollectSymsFrom(syms, d, all, i);
          var q, y := CollectSymsFrom(syms, d, all, j);
        }
      }
    }
  }

  // ---- The sweep and the teardown ----

  ghost function Members(s: seq<nat>): set<nat> { set a | a in s }

  /** Where the nodes of the swept tree were before. */
  lemma {:induction false} SweepLinked(t: Tree, d: nat, q: Path, i: nat, a: nat)
    requires WellFormed(t, d) && IsTree(t, d) && |q| == d
    ensures Linked(Sweep(t, d), d, q, i, a) <==> Linked(t, d, q, if Picks(Lookup(t, q), 0, false) then i + 1 else i, a)
  {
    SweepLookup(t, d, q);
  }

  /** A node survives the sweep exactly when its record is not released. */
  lemma {:induction false} SweptOrKept(t: Tree, d: nat, live: set<nat>, q: Path, i: nat, a: nat)
    requires WellFormed(t, d) && IsTree(t, d) && Accounted(t, d, live) && Linked(t, d, q, i, a)
    ensures a in Collect(t, d, false) <==> Picks(Lookup(t, q), i, false)
  {
    if Picks(Lookup(t, q), i, false) { CollectHas(t, d, false, q, i, a); }
    if a in Collect(t, d, false) {
      var j :| 0 <= j < |Collect(t, d, false)| && Collect(t, d, false)[j] == a;
      var p, k := CollectFrom(t, d, false, j);
    }
  }

  /** The sweep releases allocated records, none twice, and what is linked afterwards is what is still allocated. */
  lemma {:induction false} SweepAccounted(t: Tree, d: nat, live: set<nat>)
    requires WellFormed(t, d) && IsTree(t, d) && Accounted(t, d, live)
    ensures Distinct(Collect(t, d, false)) && Members(Collect(t, d, false)) <= live
    ensures Accounted(Sweep(t, d), d, live - Members(Collect(t, d, false)))
  {
    var r, freed := Sweep(t, d), Collect(t, d, false);
    CollectDistinct(t, d, false);
    forall j | 0 <= j < |freed| ensures freed[j] in live { var q, i := CollectFrom(t, d, false, j); }
    forall q, i: nat, a | Linked(r, d, q, i, a) ensures a in live - Members(freed) {
      SweepLinked(t, d, q, i, a);
      SweptOrKept(t, d, live, q, if Picks(Lookup(t, q), 0, false) then i + 1 else i, a);
    }
    forall a | a in live - Members(freed) ensures exists q, i :: Linked(r, d, q, i, a) {
      var q, i :| Linked(t, d, q, i, a);
      SweptOrKept(t, d, live, q, i, a);
      var i' := if Picks(Lookup(t, q), 0, false) then i - 1 else i;
      SweepLinked(t, d, q, i', a);
      assert Linked(r, d, q, i', a);
    }
    forall p, i: nat, q, j: nat, a | Linked(r, d, p, i, a) && Linked(r, d, q, j, a) ensures p == q && i == j {
      SweepLinked(t, d, p, i, a);
      SweepLinked(t, d, q, j, a);
    }
  }

  /** The teardown releases exactly the allocated records, none twice. */
  lemma {:induction false} TeardownAccounted(t: Tree, d: nat, live: set<nat>)
    requires WellFormed(t, d) && IsTree(t, d) && Accounted(t, d, live)
    ensures Distinct(Collect(t, d, true)) && Members(Collect(t, d, true)) == live
  {
    var freed := Collect(t, d, true);
    CollectDistinct(t, d, true);
    forall j | 0 <= j < |freed| ensures freed[j] in live { var q, i := CollectFrom(t, d, true, j); }
    forall a | a in live ensures a in freed {
      var q, i :| Linked(t, d, q, i, a);
      CollectHas(t, d, true, q, i, a);
    }
  }
}
