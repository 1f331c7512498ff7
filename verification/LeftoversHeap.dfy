/**
 The end-of-test traversals of FSBL/cmocka.c over the symbol rings: nodes are unlinked
 while the rings are being walked, and the walk still visits every symbol once.
 */
module LeftoversHeap {
  import opened Basics
  import opened Rings
  import opened SymbolQueues
  import opened SymbolHeap
  import opened Leftovers
  import opened Releases

  /** Drop the first value of a queue if it may stay unused; `freed` are the records released. */
  method SweepQueue(child: ListNode, ghost s: Shape, ghost entries: seq<Entry>)
    returns (freed: seq<nat>, ghost s': Shape)
    requires s.head == child && Rep(s, Queue(entries)) && entries != []
    modifies s.fp
    ensures freed == Picked(entries, false)
    ensures s'.head == child && s'.fp == s.fp && Rep(s', Queue(DropAlways(entries)))
  {
    var node := child.next;
    assert node == s.nodes[0];
    if node.refcount < -1 {
      var addr;
      addr, s' := UnlinkFirst(node, s, entries);
      freed := [addr];
    } else {
      freed, s' := [], s;
    }
  }

  method SweepBelow(child: ListNode, d: nat, ghost s: Shape, ghost t: Tree) returns (freed: seq<nat>, ghost s': Shape)
    requires s.head == child && Rep(s, t) && IsTree(t, d)
    modifies s.fp
    ensures freed == Collect(t, d, false)
    ensures s'.head == child && s'.fp == s.fp && Rep(s', Sweep(t, d))
    decreases d, 0
  {
    EmptyKid(s, t);
    var empty := ListEmpty(child, s.nodes);
    if empty {
      freed, s' := [], s;
    } else if d == 0 {
      freed, s' := SweepQueue(child, s, t.entries);
    } else {
      freed, s' := RemoveAlwaysReturnValues(child, d, s, t);
    }
  }

  /** Sweep below the k-th symbol. */
  method SweepUnder(target: ListNode, d: nat, ghost s: Shape, ghost syms: seq<Sym>, ghost k: nat)
    returns (freed: seq<nat>, ghost s': Shape)
    requires Rep(s, Level(syms)) && k < |s.nodes| && s.nodes[k] == target && IsTree(syms[k].sub, d)
    modifies s.fp
    ensures freed == Collect(syms[k].sub, d, false)
    ensures s'.head == s.head && s'.nodes == s.nodes && s'.fp == s.fp
    ensures Rep(s', Level(syms[k := Sym(syms[k].name, Sweep(syms[k].sub, d))]))
    decreases d, 1
  {
    OpenKid(s, Level(syms), k);
    ghost var kid;
    freed, kid := SweepBelow(target.value.sym.head, d, s.kids[k], syms[k].sub);
    s' := SwapKid(s, syms, k, kid, Sweep(syms[k].sub, d));
  }

  /** Sweep one symbol and drop it when nothing is left below it. */
  method SweepSymbol(target: ListNode, d: nat, ghost s: Shape, ghost syms: seq<Sym>, ghost k: nat)
    returns (freed: seq<nat>, ghost s': Shape, ghost kept: nat)
    requires Rep(s, Level(syms)) && k < |s.nodes| && s.nodes[k] == target && IsTree(syms[k].sub, d)
    modifies s.fp
    ensures freed == Collect(syms[k].sub, d, false)
    ensures s'.head == s.head && s'.fp == s.fp
    ensures kept == if IsEmpty(Sweep(syms[k].sub, d)) then 0 else 1
    ensures s'.nodes == if kept == 0 then Without(s.nodes, k) else s.nodes
    ensures Rep(s', Level(if kept == 0 then syms[..k] + syms[k + 1..]
                          else syms[k := Sym(syms[k].name, Sweep(syms[k].sub, d))]))
    decreases d, 2
  {
    freed, s' := SweepUnder(target, d, s, syms, k);
    ghost var sub := Sweep(syms[k].sub, d);
    ghost var syms' := syms[k := Sym(syms[k].name, sub)];
    OpenKid(s', Level(syms'), k);
    EmptyKid(s'.kids[k], sub);
    kept := 1;
    var empty := ListEmpty(target.value.sym.head, s'.kids[k].nodes);
    if empty {
      kept := 0;
      s' := RemoveSymbol(target, s', syms', k);
      assert syms'[..k] + syms'[k + 1..] == syms[..k] + syms[k + 1..];
    }
  }

  /**
   The list after its first symbols were swept: what was kept, then the symbols still to visit; `done` was released.
   */
  ghost predicate Progress(all: seq<Sym>, now: seq<Sym>, k: nat, d: nat, done: seq<nat>)
    requires forall i :: 0 <= i < |all| ==> IsTree(all[i].sub, d)
  {
    && k <= |now|
    && (forall i :: k <= i < |now| ==> IsTree(now[i].sub, d))
    && now[..k] + SweepSyms(now[k..], d) == SweepSyms(all, d)
    && done + CollectSyms(now[k..], d, false) == CollectSyms(all, d, false)
  }

  lemma {:induction false} ProgressStep(all: seq<Sym>, now: seq<Sym>, k: nat, d: nat, done: seq<nat>)
    requires forall i :: 0 <= i < |all| ==> IsTree(all[i].sub, d)
    requires Progress(all, now, k, d, done) && k < |now|
    ensures var sub := Sweep(now[k].sub, d); var done' := done + Collect(now[k].sub, d, false);
      if IsEmpty(sub) then Progress(all, now[..k] + now[k + 1..], k, d, done')
      else Progress(all, now[k := Sym(now[k].name, sub)], k + 1, d, done')
  {
    var sub := Sweep(now[k].sub, d);
    var more, rest := Collect(now[k].sub, d, false), CollectSyms(now[k + 1..], d, false);
    assert now[k..][1..] == now[k + 1..];
    assert done + (more + rest) == (done + more) + rest;
    if IsEmpty(sub) {
      var after := now[..k] + now[k + 1..];
      assert after[..k] == now[..k] && after[k..] == now[k + 1..];
      assert SweepSyms(now[k..], d) == SweepSyms(now[k + 1..], d);
    } else {
      var x := Sym(now[k].name, sub);
      var after := now[k := x];
      assert after[..k + 1] == now[..k] + [x] && after[k + 1..] == now[k + 1..];
      assert SweepSyms(now[k..], d) == [x] + SweepSyms(now[k + 1..], d);
      assert now[..k] + ([x] + SweepSyms(now[k + 1..], d)) == (now[..k] + [x]) + SweepSyms(now[k + 1..], d);
    }
  }

  lemma {:induction false} ProgressStart(all: seq<Sym>, d: nat)
    requires forall i :: 0 <= i < |all| ==> IsTree(all[i].sub, d)
    ensures Progress(all, all, 0, d, [])
  {
    assert all[0..] == all;
  }

  lemma {:induction false} ProgressEnd(all: seq<Sym>, now: seq<Sym>, k: nat, d: nat, done: seq<nat>)
    requires forall i :: 0 <= i < |all| ==> IsTree(all[i].sub, d)
    requires Progress(all, now, k, d, done) && k == |now|
    ensures now == SweepSyms(all, d) && done == CollectSyms(all, d, false)
  {
  }

  /** One turn of the walk: the next node is read before the current one may be unlinked. */
  method VisitSymbol(current: ListNode, d: nat, done: seq<nat>, ghost s: Shape, ghost all: seq<Sym>,
                     ghost now: seq<Sym>, ghost k: nat)
    returns (next: ListNode, done': seq<nat>, ghost s': Shape, ghost now': seq<Sym>, ghost k': nat)
    requires forall i :: 0 <= i < |all| ==> IsTree(all[i].sub, d)
    requires Rep(s, Level(now)) && Progress(all, now, k, d, done) && k < |s.nodes| && s.nodes[k] == current
    modifies s.fp
    ensures s'.head == s.head && s'.fp == s.fp && Rep(s', Level(now'))
    ensures Progress(all, now', k', d, done') && |now'| - k' < |now| - k
    ensures next == if k' < |s'.nodes| then s'.nodes[k'] else s'.head
    decreases d, 3
  {
    next := current.next;
    ProgressStep(all, now, k, d, done);
    var freed;
    ghost var kept;
    freed, s', kept := SweepSymbol(current, d, s, now, k);
    done' := done + freed;
    now' := if kept == 0 then now[..k] + now[k + 1..] else now[k := Sym(now[k].name, Sweep(now[k].sub, d))];
    k' := k + kept;
  }

  lemma RepHeadNext(s: Shape, t: Tree)
    requires Rep(s, t)
    ensures s.head.next == if |s.nodes| > 0 then s.nodes[0] else s.head
    ensures forall i :: 0 <= i < |s.nodes| ==> s.nodes[i] != s.head
    ensures t.Level? ==> |s.nodes| == |t.syms|
  {
  }

  /** remove_always_return_values; `freed` are the addresses of the records released */
  method RemoveAlwaysReturnValues(head: ListNode, levels: nat, ghost s: Shape, ghost t: Tree)
    returns (freed: seq<nat>, ghost s': Shape)
    requires levels > 0 && s.head == head && Rep(s, t) && IsTree(t, levels)
    modifies s.fp
    ensures freed == Collect(t, levels, false)
    ensures s'.head == head && s'.fp == s.fp && Rep(s', Sweep(t, levels))
    decreases levels - 1, 4
  {
    RepHeadNext(s, t);
    var current := head.next;
    ghost var k: nat, now := 0, t.syms;
    freed, s' := [], s;
    ProgressStart(t.syms, levels - 1);
    while current != head
      invariant s'.head == head && s'.fp == s.fp && Rep(s', Level(now))
      invariant Progress(t.syms, now, k, levels - 1, freed)
      invariant current == if k < |s'.nodes| then s'.nodes[k] else head
      decreases |now| - k
    {
      current, freed, s', now, k := VisitSymbol(current, levels - 1, freed, s', t.syms, now, k);
    }
    RepHeadNext(s', Level(now));
    ProgressEnd(t.syms, now, k, levels - 1, freed);
  }

  /** check_for_leftover_values (its messages are not modelled) */
  method CheckForLeftoverValues(head: ListNode, ghost s: Shape, ghost syms: seq<Sym>) returns (count: nat)
    requires s.head == head && Rep(s, Level(syms))
    ensures count == CountLeftovers(syms)
  {
    count := 0;
    var current := head.next;
    ghost var k := 0;
    while current != head
      invariant k <= |syms|
      invariant current == if k < |s.nodes| then s.nodes[k] else head
      invariant count == CountLeftovers(syms[..k])
      decreases |syms| - k
    {
      OpenKid(s, Level(syms), k);
      EmptyKid(s.kids[k], syms[k].sub);
      var empty := ListEmpty(current.value.sym.head, s.kids[k].nodes);
      if !empty { count := count + 1; }
      CountLeftoversAppend(syms[..k], syms[k]);
      assert syms[..k + 1] == syms[..k] + [syms[k]];
      assert s.nodes[k].next == if k + 1 < |s.nodes| then s.nodes[k + 1] else head;
      current := current.next;
      k := k + 1;
    }
    assert syms[..k] == syms;
  }
}
