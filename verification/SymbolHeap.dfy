/**
 The symbol trees of FSBL/cmocka.c in the heap: rings whose nodes point to symbols
 whose own heads start further rings. A ghost `Shape` names the nodes; `Rep(s, t)` says
 that the heap under it represents the tree value `t`, and each procedure is proved to
 perform the corresponding operation of SymbolQueues on that value.
 */
module SymbolHeap {
  import opened Basics
  import opened Rings
  import opened SymbolQueues

  /** The nodes of one list, the shapes of the lists below its symbols, and all nodes together. */
  datatype Shape = Shape(head: ListNode, nodes: seq<ListNode>, kids: seq<Shape>, fp: set<ListNode>)

  /** `fp` covers everything, and the lists below the symbols share no node with each other or with this list. */
  ghost predicate Separate(s: Shape) {
    && s.head in s.fp
    && (forall n :: n in s.nodes ==> n in s.fp)
    && (forall i :: 0 <= i < |s.kids| ==> Below(s, s.kids[i].fp))
    && (forall i, j :: 0 <= i < j < |s.kids| ==> s.kids[i].fp !! s.kids[j].fp)
  }

  ghost predicate Below(s: Shape, fp: set<ListNode>) {
    fp <= s.fp && s.head !in fp && forall n :: n in s.nodes ==> n !in fp
  }

  ghost function Own(s: Shape): set<ListNode> {
    {s.head} + set n | n in s.nodes
  }

  ghost predicate RepQueue(nodes: seq<ListNode>, entries: seq<Entry>)
    reads nodes`value, nodes`refcount
  {
    && |nodes| == |entries|
    && forall i {:trigger nodes[i]} {:trigger entries[i]} :: 0 <= i < |nodes| ==>
         nodes[i].value == Payload(entries[i].addr) && nodes[i].refcount == entries[i].refcount
  }

  ghost predicate RepSyms(nodes: seq<ListNode>, kids: seq<Shape>, syms: seq<Sym>)
    reads nodes`value
  {
    && |nodes| == |kids| == |syms|
    && forall i {:trigger nodes[i]} {:trigger syms[i]} :: 0 <= i < |nodes| ==>
         && nodes[i].value.Symbol?
         && nodes[i].value.sym.name == syms[i].name
         && nodes[i].value.sym.head == kids[i].head
  }

  /** The heap under `s` represents `t`. */
  ghost predicate Rep(s: Shape, t: Tree)
    reads s.fp
    decreases t, 1
  {
    && Separate(s)
    && IsRing(s.head, s.nodes)
    && match t
       case Queue(entries) => s.kids == [] && RepQueue(s.nodes, entries)
       case Level(syms) => RepSyms(s.nodes, s.kids, syms) && RepKids(s, syms)
  }

  /** The lists below the symbols represent the sub-trees; this reads nothing of the level's own ring. */
  ghost predicate RepKids(s: Shape, syms: seq<Sym>)
    requires Separate(s) && |s.kids| == |syms|
    reads s.fp - Own(s)
    decreases syms, 0
  {
    forall i :: 0 <= i < |s.kids| ==> Rep(s.kids[i], syms[i].sub)
  }

  /** A level but for the links of its own ring. */
  ghost predicate RepBody(s: Shape, syms: seq<Sym>)
    reads s.nodes`value, s.fp - Own(s)
  {
    Separate(s) && RepSyms(s.nodes, s.kids, syms) && RepKids(s, syms)
  }

  /** The level without the list below symbol k; this reads nothing of that list. */
  ghost predicate RepExcept(s: Shape, syms: seq<Sym>, k: nat)
    requires k < |s.kids|
    reads s.fp - s.kids[k].fp
  {
    && Separate(s)
    && IsRing(s.head, s.nodes)
    && RepSyms(s.nodes, s.kids, syms)
    && forall i :: 0 <= i < |s.kids| && i != k ==> Rep(s.kids[i], syms[i].sub)
  }

  lemma {:induction false} OpenKid(s: Shape, t: Tree, k: nat)
    requires t.Level? && Rep(s, t) && k < |s.kids|
    ensures RepExcept(s, t.syms, k)
    ensures Rep(s.kids[k], t.syms[k].sub) && Below(s, s.kids[k].fp)
  {
  }

  /** The level put together again around a new list below symbol k. */
  lemma {:induction false} CloseKid(s: Shape, syms: seq<Sym>, k: nat, kid: Shape, sub: Tree) returns (s': Shape)
    requires k < |s.kids| && RepExcept(s, syms, k)
    requires kid.head == s.kids[k].head && Rep(kid, sub) && (kid.fp - s.kids[k].fp) !! s.fp
    ensures s' == Shape(s.head, s.nodes, s.kids[k := kid], s.fp + kid.fp)
    ensures Rep(s', Level(syms[k := Sym(syms[k].name, sub)]))
  {
    s' := Shape(s.head, s.nodes, s.kids[k := kid], s.fp + kid.fp);
    assert Separate(s') by {
      assert forall n :: n in kid.fp && n in s.fp ==> n in s.kids[k].fp;
      assert Below(s', kid.fp);
      assert forall i :: 0 <= i < |s.kids| && i != k ==> Below(s', s.kids[i].fp);
      assert forall i :: 0 <= i < |s.kids| && i != k ==> s.kids[i].fp !! kid.fp;
    }
  }

  /** The same when the new list uses the nodes of the old one. */
  lemma {:induction false} SwapKid(s: Shape, syms: seq<Sym>, k: nat, kid: Shape, sub: Tree) returns (s': Shape)
    requires k < |s.kids| && RepExcept(s, syms, k)
    requires kid.head == s.kids[k].head && Rep(kid, sub) && kid.fp == s.kids[k].fp
    ensures s'.head == s.head && s'.nodes == s.nodes && s'.fp == s.fp
    ensures Rep(s', Level(syms[k := Sym(syms[k].name, sub)]))
  {
    s' := CloseKid(s, syms, k, kid, sub);
    assert s'.fp == s.fp;
  }

  /** A level with a new last symbol whose child list is empty. */
  lemma {:induction false} AppendKid(s: Shape, syms: seq<Sym>, name: string, node: ListNode, kid: Shape, d: nat)
    returns (s': Shape)
    requires RepBody(s, syms) && IsRing(s.head, s.nodes + [node])
    requires node.value.Symbol? && node.value.sym.name == name && node.value.sym.head == kid.head
    requires Rep(kid, EmptyTree(d)) && kid.fp !! s.fp && node !in s.fp && node !in kid.fp
    ensures s' == Shape(s.head, s.nodes + [node], s.kids + [kid], s.fp + {node} + kid.fp)
    ensures Rep(s', Level(syms + [Sym(name, EmptyTree(d))]))
  {
    s' := Shape(s.head, s.nodes + [node], s.kids + [kid], s.fp + {node} + kid.fp);
    assert Separate(s') by {
      assert Below(s', kid.fp);
      assert forall i :: 0 <= i < |s.kids| ==> Below(s', s.kids[i].fp);
    }
  }

  /** A new symbol with an empty child list. */
  method NewSymbol(name: string, ghost d: nat) returns (sym: SymbolMapValue, ghost kid: Shape)
    ensures fresh(kid.fp) && kid.head == sym.head && sym.name == name && Rep(kid, EmptyTree(d))
  {
    var h := new ListNode();
    sym := new SymbolMapValue(name, h);
    kid := Shape(h, [], [], {h});
  }

  /** The symbol `sym` becomes the last one; `kid` is its empty child list. */
  method LinkSymbol(head: ListNode, sym: SymbolMapValue, ghost d: nat, ghost s: Shape, ghost syms: seq<Sym>,
                    ghost kid: Shape)
    returns (target: ListNode, ghost s': Shape)
    requires s.head == head && Rep(s, Level(syms))
    requires kid.head == sym.head && Rep(kid, EmptyTree(d)) && kid.fp !! s.fp
    modifies s.fp
    ensures s'.head == head && Rep(s', Level(syms + [Sym(sym.name, EmptyTree(d))]))
    ensures fresh(target) && s'.nodes == s.nodes + [target] && s'.fp == s.fp + {target} + kid.fp
  {
    assert RepBody(s, syms);
    target := ListAddValue(head, s.nodes, Symbol(sym), 1);
    s' := AppendKid(s, syms, sym.name, target, kid, d);
  }

  /** A new last symbol with an empty child list. */
  method AddSymbol(head: ListNode, name: string, ghost d: nat, ghost s: Shape, ghost syms: seq<Sym>)
    returns (target: ListNode, ghost s': Shape)
    requires s.head == head && Rep(s, Level(syms))
    modifies s.fp
    ensures s'.head == head && Rep(s', Level(syms + [Sym(name, EmptyTree(d))]))
    ensures s'.nodes == s.nodes + [target]
    ensures fresh(s'.fp - s.fp)
  {
    var sym;
    ghost var kid;
    sym, kid := NewSymbol(name, d);
    target, s' := LinkSymbol(head, sym, d, s, syms, kid);
  }

  /** Find the symbol called `name`, or append a new one with an empty child list. */
  method FindOrAddSymbol(head: ListNode, name: string, ghost d: nat, ghost s: Shape, ghost syms: seq<Sym>)
    returns (target: ListNode, ghost k: nat, ghost s': Shape, ghost syms': seq<Sym>)
    requires s.head == head && Rep(s, Level(syms))
    modifies s.fp
    ensures s'.head == head && Rep(s', Level(syms'))
    ensures syms' == if Find(syms, name) < |syms| then syms else syms + [Sym(name, EmptyTree(d))]
    ensures k == Find(syms, name) && k < |s'.nodes| && s'.nodes[k] == target
    ensures fresh(s'.fp - s.fp)
  {
    var found;
    found, target, k := ListFind(head, s.nodes, name);
    if found {
      s', syms' := s, syms;
    } else {
      k := |s.nodes|;
      target, s' := AddSymbol(head, name, d, s, syms);
      syms' := syms + [Sym(name, EmptyTree(d))];
    }
    FindIs(syms, name, k);
  }

  /** Append the value to the child list, or descend one more level. */
  method AddBelow(child: ListNode, names: seq<string>, addr: nat, refcount: int, ghost s: Shape, ghost t: Tree)
    returns (ghost s': Shape)
    requires s.head == child && Rep(s, t) && IsTree(t, |names|)
    modifies s.fp
    ensures s'.head == child && Rep(s', Add(t, names, Entry(addr, refcount)))
    ensures fresh(s'.fp - s.fp)
    decreases |names|, 1
  {
    if |names| == 0 {
      var node := ListAddValue(child, s.nodes, Payload(addr), refcount);
      s' := Shape(child, s.nodes + [node], [], s.fp + {node});
    } else {
      s' := AddSymbolValue(child, names, addr, refcount, s, t);
    }
  }

  lemma {:induction false} AddAtFound(t: Tree, names: seq<string>, e: Entry, syms: seq<Sym>)
    requires names != [] && IsTree(t, |names|)
    requires syms == if Find(t.syms, names[0]) < |t.syms| then t.syms
                     else t.syms + [Sym(names[0], EmptyTree(|names| - 1))]
    ensures var k := Find(t.syms, names[0]);
      && IsTree(syms[k].sub, |names[1..]|)
      && Add(t, names, e) == Level(syms[k := Sym(syms[k].name, Add(syms[k].sub, names[1..], e))])
  {
  }

  /** Add below the k-th symbol of a level. */
  method AddUnder(target: ListNode, names: seq<string>, addr: nat, refcount: int,
                  ghost s: Shape, ghost syms: seq<Sym>, ghost k: nat)
    returns (ghost s': Shape)
    requires Rep(s, Level(syms)) && k < |s.nodes| && s.nodes[k] == target && IsTree(syms[k].sub, |names|)
    modifies s.fp
    ensures s'.head == s.head
    ensures Rep(s', Level(syms[k := Sym(syms[k].name, Add(syms[k].sub, names, Entry(addr, refcount)))]))
    ensures fresh(s'.fp - s.fp)
    decreases |names|, 2
  {
    OpenKid(s, Level(syms), k);
    ghost var kid := AddBelow(target.value.sym.head, names, addr, refcount, s.kids[k], syms[k].sub);
    s' := CloseKid(s, syms, k, kid, Add(syms[k].sub, names, Entry(addr, refcount)));
  }

  /** add_symbol_value */
  method AddSymbolValue(head: ListNode, names: seq<string>, addr: nat, refcount: int, ghost s: Shape, ghost t: Tree)
    returns (ghost s': Shape)
    requires names != [] && s.head == head && Rep(s, t) && IsTree(t, |names|)
    modifies s.fp
    ensures s'.head == head && Rep(s', Add(t, names, Entry(addr, refcount)))
    ensures fresh(s'.fp - s.fp)
    decreases |names|, 0
  {
    var target;
    ghost var k, s1, syms;
    target, k, s1, syms := FindOrAddSymbol(head, names[0], |names| - 1, s, t.syms);
    AddAtFound(t, names, Entry(addr, refcount), syms);
    s' := AddUnder(target, names[1..], addr, refcount, s1, syms, k);
  }

  /** Unlink the first node of a queue. */
  method UnlinkFirst(node: ListNode, ghost s: Shape, ghost entries: seq<Entry>) returns (addr: nat, ghost s': Shape)
    requires Rep(s, Queue(entries)) && entries != [] && s.nodes[0] == node
    modifies s.fp
    ensures addr == entries[0].addr
    ensures s'.head == s.head && s'.fp == s.fp && Rep(s', Queue(entries[1..]))
  {
    assert node.value == Payload(entries[0].addr);
    var value := ListRemove(node, s.head, s.nodes, 0);
    addr := value.addr;
    s' := s.(nodes := Without(s.nodes, 0));
    assert forall n :: n in s'.nodes ==> n in s.nodes;
  }

  /** Take the first value of a queue once: unlink it on its last use, otherwise count down. */
  method TakeFirst(child: ListNode, ghost s: Shape, ghost entries: seq<Entry>) returns (o: Outcome, ghost s': Shape)
    requires s.head == child && Rep(s, Queue(entries))
    modifies s.fp
    ensures s'.head == child && s'.fp == s.fp
    ensures o == if entries == [] then AssertFailed else Delivered(entries[0].addr, entries[0].refcount)
    ensures Rep(s', Queue(if entries == [] then [] else Consume(entries)))
  {
    s' := s;
    var found, node := ListFirst(child, s.nodes);
    if !found {
      return AssertFailed, s;
    }
    assert node.value == Payload(entries[0].addr);
    o := Delivered(node.value.addr, node.refcount);
    if node.refcount - 1 == 0 {
      var addr;
      addr, s' := UnlinkFirst(node, s, entries);
    } else if node.refcount > WILL_RETURN_ONCE {
      node.refcount := node.refcount - 1;
    }
  }

  /** A level without its k-th symbol. */
  lemma {:induction false} DropKid(s: Shape, syms: seq<Sym>, k: nat) returns (s': Shape)
    requires RepBody(s, syms) && k < |s.nodes| && Distinct(s.nodes)
    requires IsRing(s.head, Without(s.nodes, k))
    ensures s'.head == s.head && s'.fp == s.fp && s'.nodes == Without(s.nodes, k)
    ensures Rep(s', Level(syms[..k] + syms[k + 1..]))
  {
    s' := Shape(s.head, Without(s.nodes, k), Without(s.kids, k), s.fp);
    WithoutMembers(s.nodes, k);
    assert Separate(s') by {
      assert forall i :: 0 <= i < |s'.kids| ==> Below(s, s'.kids[i].fp);
    }
    assert syms[..k] + syms[k + 1..] == Without(syms, k);
  }

  /** Unlink a symbol's node; its child list is empty, so nothing else is released. */
  method RemoveSymbol(target: ListNode, ghost s: Shape, ghost syms: seq<Sym>, ghost k: nat) returns (ghost s': Shape)
    requires Rep(s, Level(syms)) && k < |s.nodes| && s.nodes[k] == target
    modifies s.fp
    ensures s'.head == s.head && s'.fp == s.fp && s'.nodes == Without(s.nodes, k)
    ensures Rep(s', Level(syms[..k] + syms[k + 1..]))
  {
    assert RepBody(s, syms);
    var _ := ListRemove(target, s.head, s.nodes, k);
    s' := DropKid(s, syms, k);
  }

  /** Take from the queue, or descend one more level. */
  method GetBelow(child: ListNode, names: seq<string>, ghost s: Shape, ghost t: Tree)
    returns (o: Outcome, ghost s': Shape)
    requires s.head == child && Rep(s, t) && IsTree(t, |names|)
    modifies s.fp
    ensures s'.head == child && s'.fp == s.fp
    ensures o == Get(t, names).0 && Rep(s', Get(t, names).1)
    decreases |names|, 1
  {
    if |names| == 0 {
      o, s' := TakeFirst(child, s, t.entries);
    } else {
      o, s' := GetSymbolValue(child, names, s, t);
    }
  }

  /** The child list of a symbol is empty exactly when its sub-tree is. */
  lemma {:induction false} EmptyKid(s: Shape, t: Tree)
    requires Rep(s, t)
    ensures s.nodes == [] <==> IsEmpty(t)
  {
  }

  /** Take below the k-th symbol of a level, then drop the symbol if nothing is left below it. */
  method GetUnder(target: ListNode, names: seq<string>, ghost s: Shape, ghost syms: seq<Sym>, ghost k: nat)
    returns (o: Outcome, ghost s': Shape)
    requires Rep(s, Level(syms)) && k < |s.nodes| && s.nodes[k] == target && IsTree(syms[k].sub, |names|)
    modifies s.fp
    ensures s'.head == s.head && s'.fp == s.fp
    ensures var (o', sub) := Get(syms[k].sub, names);
      && o == o'
      && Rep(s', Level(if !o.AssertFailed? && IsEmpty(sub) then syms[..k] + syms[k + 1..]
                       else syms[k := Sym(syms[k].name, sub)]))
    decreases |names|, 3
  {
    ghost var sub;
    o, s', sub := TakeUnder(target, names, s, syms, k);
    if o.AssertFailed? { return; }
    ghost var syms' := syms[k := Sym(syms[k].name, sub)];
    OpenKid(s', Level(syms'), k);
    EmptyKid(s'.kids[k], sub);
    var empty := ListEmpty(target.value.sym.head, s'.kids[k].nodes);
    if empty {
      s' := RemoveSymbol(target, s', syms', k);
      assert syms'[..k] + syms'[k + 1..] == syms[..k] + syms[k + 1..];
    }
  }

  method TakeUnder(target: ListNode, names: seq<string>, ghost s: Shape, ghost syms: seq<Sym>, ghost k: nat)
    returns (o: Outcome, ghost s': Shape, ghost sub: Tree)
    requires Rep(s, Level(syms)) && k < |s.nodes| && s.nodes[k] == target && IsTree(syms[k].sub, |names|)
    modifies s.fp
    ensures s'.head == s.head && s'.nodes == s.nodes && s'.fp == s.fp
    ensures (o, sub) == Get(syms[k].sub, names)
    ensures Rep(s', Level(syms[k := Sym(syms[k].name, sub)]))
    decreases |names|, 2
  {
    OpenKid(s, Level(syms), k);
    ghost var kid;
    o, kid := GetBelow(target.value.sym.head, names, s.kids[k], syms[k].sub);
    sub := Get(syms[k].sub, names).1;
    s' := SwapKid(s, syms, k, kid, sub);
  }

  /** get_symbol_value */
  method GetSymbolValue(head: ListNode, names: seq<string>, ghost s: Shape, ghost t: Tree)
    returns (o: Outcome, ghost s': Shape)
    requires names != [] && s.head == head && Rep(s, t) && IsTree(t, |names|)
    modifies s.fp
    ensures s'.head == head && s'.fp == s.fp
    ensures o == Get(t, names).0 && Rep(s', Get(t, names).1)
    decreases |names|, 0
  {
    var found, target;
    ghost var k;
    found, target, k := ListFind(head, s.nodes, names[0]);
    if found {
      FindIs(t.syms, names[0], k);
      GetAtFound(t, names, k);
      o, s' := GetUnder(target, names[1..], s, t.syms, k);
    } else {
      FindIs(t.syms, names[0], |s.nodes|);
      o, s' := Missing, s;
    }
  }

  lemma {:induction false} GetAtFound(t: Tree, names: seq<string>, k: nat)
    requires names != [] && IsTree(t, |names|) && k == Find(t.syms, names[0]) < |t.syms|
    ensures IsTree(t.syms[k].sub, |names[1..]|)
    ensures var (o, sub) := Get(t.syms[k].sub, names[1..]);
      Get(t, names) == (o, Level(if !o.AssertFailed? && IsEmpty(sub) then t.syms[..k] + t.syms[k + 1..]
                                 else t.syms[k := Sym(t.syms[k].name, sub)]))
  {
  }
}
