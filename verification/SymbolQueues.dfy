/**
 The symbol trees of FSBL/cmocka.c as values: nested lists of named symbols whose
 leaves are queues of reference-counted entries, the operations the runtime performs
 on them, and the promise they keep: a map from name path to FIFO queue.
 */
module SymbolQueues {

  /** WILL_RETURN_ONCE of cmocka.h: counts at or below it are never decremented. */
  const WILL_RETURN_ONCE := -2

  /** A queued value: the address of its heap record and the node's reference count. */
  datatype Entry = Entry(addr: nat, refcount: int)

  datatype Sym = Sym(name: string, sub: Tree)

  datatype Tree =
    | Queue(entries: seq<Entry>)
    | Level(syms: seq<Sym>)

  type Path = seq<string>

  predicate IsEmpty(t: Tree) {
    match t
    case Queue(entries) => entries == []
    case Level(syms) => syms == []
  }

  /** `t` has `d` levels of symbols above its queues. */
  ghost predicate IsTree(t: Tree, d: nat)
    decreases d
  {
    if d == 0 then t.Queue?
    else t.Level? && forall i :: 0 <= i < |t.syms| ==> IsTree(t.syms[i].sub, d - 1)
  }

  ghost predicate UniqueNames(syms: seq<Sym>) {
    forall i, j :: 0 <= i < j < |syms| ==> syms[i].name != syms[j].name
  }

  /** Unique names per level and no symbol whose child list is empty. */
  ghost predicate WellFormed(t: Tree, d: nat)
    decreases d
  {
    if d == 0 then t.Queue?
    else
      && t.Level?
      && UniqueNames(t.syms)
      && forall i :: 0 <= i < |t.syms| ==> !IsEmpty(t.syms[i].sub) && WellFormed(t.syms[i].sub, d - 1)
  }

  function EmptyTree(d: nat): (t: Tree)
    ensures WellFormed(t, d) && IsTree(t, d) && IsEmpty(t)
  {
    if d == 0 then Queue([]) else Level([])
  }

  /** Index of the first symbol called `name`, or |syms|. */
  function Find(syms: seq<Sym>, name: string): (k: nat)
    ensures k <= |syms|
    ensures k < |syms| ==> syms[k].name == name
    ensures forall i :: 0 <= i < k ==> syms[i].name != name
  {
    if syms == [] then 0
    else if syms[0].name == name then 0
    else 1 + Find(syms[1..], name)
  }

  lemma {:induction false} FindIs(syms: seq<Sym>, name: string, k: nat)
    requires k <= |syms|
    requires forall i :: 0 <= i < k ==> syms[i].name != name
    requires k < |syms| ==> syms[k].name == name
    ensures Find(syms, name) == k
  {
  }

  /** add_symbol_value */
  function Add(t: Tree, path: Path, e: Entry): (r: Tree)
    requires IsTree(t, |path|)
    ensures IsTree(r, |path|)
    ensures !IsEmpty(r)
    decreases |path|
  {
    if path == [] then Queue(t.entries + [e])
    else
      var k := Find(t.syms, path[0]);
      var syms := if k < |t.syms| then t.syms else t.syms + [Sym(path[0], EmptyTree(|path| - 1))];
      Level(syms[k := Sym(syms[k].name, Add(syms[k].sub, path[1..], e))])
  }

  /** What get_symbol_value reports: nothing found, its own assertion failed, or a value and the old count. */
  datatype Outcome = Missing | AssertFailed | Delivered(addr: nat, rc: int)

  /** The queue after its first entry has been taken once. */
  function Consume(entries: seq<Entry>): (r: seq<Entry>)
    requires entries != []
  {
    var e := entries[0];
    if e.refcount - 1 == 0 then entries[1..]
    else if e.refcount > WILL_RETURN_ONCE then entries[0 := Entry(e.addr, e.refcount - 1)]
    else entries
  }

  /**
   In numbers: a count of 1 takes the entry out, one of -2 or below stays, any other goes down by one; in
   particular a value to be returned always (-1) is at -2 once it was used.
   */
  lemma ConsumeMeans(entries: seq<Entry>)
    requires entries != []
    ensures var c := entries[0].refcount; var r := Consume(entries);
      && (c == 1 ==> r == entries[1..])
      && (c != 1 ==> |r| == |entries| && r[0].addr == entries[0].addr && r[1..] == entries[1..])
      && (c != 1 && c > -2 ==> r[0].refcount == c - 1)
      && (c <= -2 ==> r[0].refcount == c)
  {
  }

  /** get_symbol_value; a failed assertion leaves the test with the tree as it was. */
  function Get(t: Tree, path: Path): (r: (Outcome, Tree))
    requires IsTree(t, |path|)
    ensures IsTree(r.1, |path|)
    decreases |path|
  {
    if path == [] then
      if t.entries == [] then (AssertFailed, t)
      else (Delivered(t.entries[0].addr, t.entries[0].refcount), Queue(Consume(t.entries)))
    else
      var k := Find(t.syms, path[0]);
      if k == |t.syms| then (Missing, t)
      else
        var (o, sub) := Get(t.syms[k].sub, path[1..]);
        (o, Level(if !o.AssertFailed? && IsEmpty(sub) then t.syms[..k] + t.syms[k + 1..]
                  else t.syms[k := Sym(t.syms[k].name, sub)]))
  }

  // ---- The tree as a map from path to queue ----

  /** The queue registered under a path; empty when a name on the way is absent. */
  function Lookup(t: Tree, path: Path): (q: seq<Entry>)
    requires IsTree(t, |path|)
    decreases |path|
  {
    if path == [] then t.entries
    else
      var k := Find(t.syms, path[0]);
      if k == |t.syms| then [] else Lookup(t.syms[k].sub, path[1..])
  }

  lemma {:induction false} AddWellFormed(t: Tree, path: Path, e: Entry)
    requires WellFormed(t, |path|) && IsTree(t, |path|)
    ensures WellFormed(Add(t, path, e), |path|)
    decreases |path|
  {
    if path != [] {
      var k := Find(t.syms, path[0]);
      AddWellFormed(if k < |t.syms| then t.syms[k].sub else EmptyTree(|path| - 1), path[1..], e);
    }
  }

  /** Add touches only the symbol the path starts with. */
  lemma {:induction false} AddKeepsOthers(t: Tree, path: Path, e: Entry, q: Path)
    requires path != [] && |q| == |path| && q[0] != path[0]
    requires WellFormed(t, |path|) && IsTree(t, |path|)
    ensures Lookup(Add(t, path, e), q) == Lookup(t, q)
  {
    var r := Add(t, path, e);
    var k := Find(t.syms, path[0]);
    assert r.syms[k].name == path[0];
    assert forall i :: 0 <= i < |t.syms| && i != k ==> r.syms[i] == t.syms[i];
    var j := Find(t.syms, q[0]);
    if j < |t.syms| {
      FindIs(r.syms, q[0], j);
    } else {
      FindIs(r.syms, q[0], |r.syms|);
    }
  }

  /** Registering under one path appends to its queue and changes no other path. */
  lemma {:induction false} AddLookup(t: Tree, path: Path, e: Entry, q: Path)
    requires WellFormed(t, |path|) && IsTree(t, |path|) && |q| == |path|
    ensures Lookup(Add(t, path, e), q) == Lookup(t, q) + (if q == path then [e] else [])
    decreases |path|
  {
    if path != [] {
      if q[0] == path[0] {
        var r := Add(t, path, e);
        var k := Find(t.syms, path[0]);
        FindIs(r.syms, q[0], k);
        AddLookup(if k < |t.syms| then t.syms[k].sub else EmptyTree(|path| - 1), path[1..], e, q[1..]);
        if k == |t.syms| { EmptyLookup(|q| - 1, q[1..]); }
        SamePath(path, q);
      } else {
        AddKeepsOthers(t, path, e, q);
      }
    }
  }

  lemma {:induction false} SamePath(p: Path, q: Path)
    requires p != [] && q != []
    ensures p == q <==> p[0] == q[0] && p[1..] == q[1..]
  {
  }

  lemma {:induction false} EmptyLookup(d: nat, q: Path)
    requires |q| == d
    ensures Lookup(EmptyTree(d), q) == []
  {
  }

  lemma {:induction false} EmptySubLookup(t: Tree, q: Path)
    requires IsTree(t, |q|) && IsEmpty(t)
    ensures Lookup(t, q) == []
  {
  }

  lemma {:induction false} GetWellFormed(t: Tree, path: Path)
    requires WellFormed(t, |path|) && IsTree(t, |path|)
    ensures WellFormed(Get(t, path).1, |path|)
    decreases |path|
  {
    if path != [] {
      var k := Find(t.syms, path[0]);
      if k < |t.syms| { GetWellFormed(t.syms[k].sub, path[1..]); }
    }
  }

  /**
   What a fetch reports: the value at the front with its old count. The assertion inside
   get_symbol_value never fires, and nothing is reported missing but an absent path.
   */
  lemma {:induction false} GetOutcome(t: Tree, path: Path)
    requires WellFormed(t, |path|) && IsTree(t, |path|)
    requires path == [] ==> !IsEmpty(t)
    ensures var (o, r) := Get(t, path); var es := Lookup(t, path);
      && (o == if es == [] then Missing else Delivered(es[0].addr, es[0].refcount))
      && (es == [] ==> r == t)
    decreases |path|
  {
    if path != [] {
      var k := Find(t.syms, path[0]);
      if k < |t.syms| {
        GetOutcome(t.syms[k].sub, path[1..]);
        if Lookup(t, path) == [] { assert Get(t, path).1.syms == t.syms; }
      }
    }
  }

  /** The queue under the fetched symbol, seen from the level above. */
  lemma {:induction false} GetSameSymbol(t: Tree, path: Path, q: Path)
    requires path != [] && |q| == |path| && q[0] == path[0]
    requires WellFormed(t, |path|) && IsTree(t, |path|)
    ensures var k := Find(t.syms, path[0]);
      k < |t.syms| ==> Lookup(Get(t, path).1, q) == Lookup(Get(t.syms[k].sub, path[1..]).1, q[1..])
  {
  }

  /** A fetch consumes the queue of its own path once and changes no other path. */
  lemma {:induction false} GetLookup(t: Tree, path: Path, q: Path)
    requires WellFormed(t, |path|) && IsTree(t, |path|) && |q| == |path|
    requires path == [] ==> !IsEmpty(t)
    ensures var (o, r) := Get(t, path); var es := Lookup(t, path);
      && (o == if es == [] then Missing else Delivered(es[0].addr, es[0].refcount))
      && (es == [] ==> r == t)
      && Lookup(r, q) == (if q == path && es != [] then Consume(es) else Lookup(t, q))
    decreases |path|
  {
    GetOutcome(t, path);
    if path != [] {
      var k := Find(t.syms, path[0]);
      SamePath(path, q);
      if q[0] != path[0] {
        GetKeepsOthers(t, path, q);
      } else if k < |t.syms| {
        GetLookup(t.syms[k].sub, path[1..], q[1..]);
        GetSameSymbol(t, path, q);
      }
    }
  }

  lemma {:induction false} FindWithout(syms: seq<Sym>, k: nat, name: string)
    requires k < |syms| && syms[k].name != name
    ensures var r := syms[..k] + syms[k + 1..]; var j := Find(syms, name); var j' := if k < j then j - 1 else j;
      && Find(r, name) == j'
      && (j < |syms| ==> j' < |r| && r[j'] == syms[j])
  {
    var r := syms[..k] + syms[k + 1..];
    var j := Find(syms, name);
    FindIs(r, name, if k < j then j - 1 else j);
  }

  /** Get touches only the symbol the path starts with. */
  lemma {:induction false} GetKeepsOthers(t: Tree, path: Path, q: Path)
    requires path != [] && |q| == |path| && q[0] != path[0]
    requires WellFormed(t, |path|) && IsTree(t, |path|)
    ensures Lookup(Get(t, path).1, q) == Lookup(t, q)
  {
    var k := Find(t.syms, path[0]);
    if k < |t.syms| {
      var (o, sub) := Get(t.syms[k].sub, path[1..]);
      if !o.AssertFailed? && IsEmpty(sub) {
        FindWithout(t.syms, k, q[0]);
      } else {
        FindIs(t.syms[k := Sym(t.syms[k].name, sub)], q[0], Find(t.syms, q[0]));
      }
    }
  }
}
