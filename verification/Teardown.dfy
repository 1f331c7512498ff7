/**
 teardown_testing of FSBL/cmocka.c: list_free with free_symbol_map_value takes the symbol rings
 apart from the front, level by level, and releases every record they still hold.
 */
module Teardown {
  import opened Basics
  import opened Rings
  import opened SymbolQueues
  import opened SymbolHeap
  import opened Releases

  lemma {:induction false} QueueValues(nodes: seq<ListNode>, entries: seq<Entry>)
    requires RepQueue(nodes, entries)
    ensures |Values(nodes)| == |entries| == |Addresses(entries)|
    ensures forall i :: 0 <= i < |entries| ==> Values(nodes)[i] == Payload(Addresses(entries)[i])
  {
    if nodes != [] { QueueValues(nodes[1..], entries[1..]); }
  }

  /** list_free with free_value */
  method FreeQueue(head: ListNode, ghost s: Shape, ghost entries: seq<Entry>) returns (freed: seq<nat>)
    requires s.head == head && Rep(s, Queue(entries))
    modifies s.fp
    ensures freed == Addresses(entries) && IsRing(head, [])
  {
    QueueValues(s.nodes, entries);
    var values := ListFree(head, s.nodes);
    freed := seq(|values|, i requires 0 <= i < |values| && values[i].Payload? => values[i].addr);
  }

  ghost function Rest(s: Shape): Shape
    requires s.nodes != [] && s.kids != []
  {
    Shape(s.head, s.nodes[1..], s.kids[1..], s.fp - s.kids[0].fp)
  }

  lemma {:induction false} RestSeparate(s: Shape)
    requires Separate(s) && s.nodes != [] && s.kids != []
    ensures Separate(Rest(s))
  {
    var s' := Rest(s);
    assert Below(s, s.kids[0].fp);
    assert forall n :: n in s'.nodes ==> n in s.nodes;
    assert forall i :: 0 <= i < |s'.kids| ==> s'.kids[i] == s.kids[i + 1] && Below(s, s.kids[i + 1].fp);
  }

  lemma {:induction false} RestSyms(nodes: seq<ListNode>, kids: seq<Shape>, syms: seq<Sym>)
    requires RepSyms(nodes, kids, syms) && nodes != []
    ensures RepSyms(nodes[1..], kids[1..], syms[1..])
  {
  }

  /** A level without its first symbol, apart from the list below that symbol. */
  lemma {:induction false} DetachKid(s: Shape, syms: seq<Sym>) returns (s': Shape, kid: Shape)
    requires RepBody(s, syms) && s.nodes != [] && IsRing(s.head, Without(s.nodes, 0))
    ensures s'.head == s.head && s'.fp <= s.fp && Rep(s', Level(syms[1..]))
    ensures kid == s.kids[0] && kid.fp <= s.fp && kid.fp !! s'.fp && Rep(kid, syms[0].sub)
  {
    assert Without(s.nodes, 0) == s.nodes[1..];
    kid := s.kids[0];
    assert Below(s, kid.fp);
    RestSeparate(s);
    s' := Rest(s);
    RestSyms(s.nodes, s.kids, syms);
    assert RepKids(Rest(s), syms[1..]);
  }

  /** list_remove of the first symbol: what is left, and the list below the symbol. */
  method RemoveFirstSymbol(head: ListNode, ghost s: Shape, ghost syms: seq<Sym>)
    returns (child: ListNode, ghost s': Shape, ghost kid: Shape)
    requires s.head == head && Rep(s, Level(syms)) && syms != []
    modifies s.fp
    ensures s'.head == head && Rep(s', Level(syms[1..])) && s'.fp <= s.fp
    ensures kid.head == child && Rep(kid, syms[0].sub) && kid.fp <= s.fp && kid.fp !! s'.fp
  {
    assert RepBody(s, syms);
    var value := ListRemove(head.next, head, s.nodes, 0);
    child := value.sym.head;
    s', kid := DetachKid(s, syms);
  }

  /** `done` was released and the symbols `now` are left of the level. */
  ghost predicate Left(all: seq<Sym>, now: seq<Sym>, d: nat, done: seq<nat>)
    requires forall i :: 0 <= i < |all| ==> IsTree(all[i].sub, d)
  {
    && (forall i :: 0 <= i < |now| ==> IsTree(now[i].sub, d))
    && done + CollectSyms(now, d, true) == CollectSyms(all, d, true)
  }

  lemma {:induction false} LeftStep(all: seq<Sym>, now: seq<Sym>, d: nat, done: seq<nat>)
    requires forall i :: 0 <= i < |all| ==> IsTree(all[i].sub, d)
    requires Left(all, now, d, done) && now != []
    ensures Left(all, now[1..], d, done + Collect(now[0].sub, d, true))
  {
    var more, rest := Collect(now[0].sub, d, true), CollectSyms(now[1..], d, true);
    assert done + (more + rest) == (done + more) + rest;
  }

  method LevelEmpty(head: ListNode, ghost s: Shape, ghost syms: seq<Sym>) returns (empty: bool)
    requires s.head == head && Rep(s, Level(syms))
    ensures empty <==> syms == []
    ensures empty ==> IsRing(head, [])
  {
    empty := ListEmpty(head, s.nodes);
  }

  /** list_free with free_value on a queue, with free_symbol_map_value on a level; `freed` are the records released */
  method FreeSymbols(head: ListNode, d: nat, ghost s: Shape, ghost t: Tree) returns (freed: seq<nat>)
    requires s.head == head && Rep(s, t) && IsTree(t, d)
    modifies s.fp
    ensures freed == Collect(t, d, true) && IsRing(head, [])
    decreases d, 1
  {
    if d == 0 {
      freed := FreeQueue(head, s, t.entries);
    } else {
      freed := FreeLevel(head, d - 1, s, t.syms);
    }
  }

  method FreeLevel(head: ListNode, d: nat, ghost s: Shape, ghost syms: seq<Sym>) returns (freed: seq<nat>)
    requires s.head == head && Rep(s, Level(syms))
    requires forall i :: 0 <= i < |syms| ==> IsTree(syms[i].sub, d)
    modifies s.fp
    ensures freed == CollectSyms(syms, d, true) && IsRing(head, [])
    decreases d, 3
  {
    freed := [];
    ghost var left, now := s, syms;
    while true
      invariant left.head == head && Rep(left, Level(now)) && left.fp <= s.fp && Left(syms, now, d, freed)
      decreases |now|
    {
      var empty := LevelEmpty(head, left, now);
      if empty { break; }
      LeftStep(syms, now, d, freed);
      var more;
      more, left := FreeFirstSymbol(head, d, left, now);
      freed, now := freed + more, now[1..];
    }
  }

  /** list_remove and free_symbol_map_value of the first symbol. */
  method FreeFirstSymbol(head: ListNode, d: nat, ghost s: Shape, ghost syms: seq<Sym>)
    returns (freed: seq<nat>, ghost s': Shape)
    requires s.head == head && Rep(s, Level(syms)) && syms != [] && IsTree(syms[0].sub, d)
    modifies s.fp
    ensures freed == Collect(syms[0].sub, d, true)
    ensures s'.head == head && Rep(s', Level(syms[1..])) && s'.fp <= s.fp
    decreases d, 2
  {
    var child;
    ghost var kid;
    child, s', kid := RemoveFirstSymbol(head, s, syms);
    freed := FreeSymbols(child, d, kid, syms[0].sub);
  }
}
