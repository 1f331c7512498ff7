/**
 The circular doubly linked lists of FSBL/cmocka.c.

 A list is a head node plus the nodes reachable from it; `IsRing(head, nodes)` ties
 the links of the heap to the ghost sequence `nodes`, so every list operation is
 specified as an operation on that sequence.
 */
module Rings {
  import opened Basics

  /** What the `const void *value` of a node may point to. */
  datatype Value =
    | Null
    | Symbol(sym: SymbolMapValue)
    | Payload(addr: nat)
    | Call(function_: string)

  class ListNode {
    var value: Value
    var refcount: int
    var next: ListNode
    var prev: ListNode

    /** A freshly allocated node, initialised as list_initialize leaves it. */
    constructor ()
      ensures value == Null && refcount == 1 && next == this && prev == this
    {
      value := Null;
      refcount := 1;
      next := this;
      prev := this;
    }
  }

  /** A symbol and the head of its list of values or of sub-symbols. */
  class SymbolMapValue {
    const name: string
    const head: ListNode

    constructor (name: string, head: ListNode)
      ensures this.name == name && this.head == head
    {
      this.name := name;
      this.head := head;
    }
  }

  /** The links of `head` and `nodes` form the ring head, nodes[0], ..., nodes[n-1], head. */
  ghost predicate IsRing(head: ListNode, nodes: seq<ListNode>)
    reads head, nodes
  {
    && head !in nodes
    && Distinct(nodes)
    && head.next == (if nodes == [] then head else nodes[0])
    && head.prev == (if nodes == [] then head else nodes[|nodes| - 1])
    && (forall i {:trigger nodes[i].next} :: 0 <= i < |nodes| ==>
          nodes[i].next == if i + 1 < |nodes| then nodes[i + 1] else head)
    && (forall i {:trigger nodes[i].prev} :: 0 <= i < |nodes| ==>
          nodes[i].prev == if 0 < i then nodes[i - 1] else head)
  }

  /** The sequence without its k-th element. */
  ghost function Without<T>(s: seq<T>, k: nat): (r: seq<T>)
    requires k < |s|
    ensures |r| == |s| - 1
    ensures forall i :: 0 <= i < k ==> r[i] == s[i]
    ensures forall i :: k <= i < |r| ==> r[i] == s[i + 1]
  {
    s[..k] + s[k + 1..]
  }

  lemma WithoutMembers<T>(s: seq<T>, k: nat)
    requires k < |s| && Distinct(s)
    ensures Distinct(Without(s, k))
    ensures forall x :: x in Without(s, k) <==> x in s && x != s[k]
  {
  }

  /** next and prev are mutually inverse on every node of a ring, the head included. */
  lemma LinksAreInverse(head: ListNode, nodes: seq<ListNode>, n: ListNode)
    requires IsRing(head, nodes)
    requires n == head || n in nodes
    ensures n.next == head || n.next in nodes
    ensures n.prev == head || n.prev in nodes
    ensures n.next.prev == n && n.prev.next == n
  {
  }

  /** The links determine the sequence: a head heads exactly one ring. */
  lemma {:induction false} RingIsUnique(head: ListNode, a: seq<ListNode>, b: seq<ListNode>, k: nat)
    requires IsRing(head, a) && IsRing(head, b)
    requires k <= |a|
    ensures k <= |b| && a[..k] == b[..k]
    ensures k == |a| ==> a == b
  {
    if k == 0 {
    } else {
      RingIsUnique(head, a, b, k - 1);
      if k == 1 {
        assert head.next == a[0];
      } else {
        assert a[k - 2] == a[..k - 1][k - 2] == b[..k - 1][k - 2] == b[k - 2];
        assert a[k - 2].next == a[k - 1];
        assert b[k - 2].next == if k - 1 < |b| then b[k - 1] else head;
      }
      assert k <= |b| && a[k - 1] == b[k - 1];
      assert a[..k] == a[..k - 1] + [a[k - 1]] && b[..k] == b[..k - 1] + [b[k - 1]];
      if k == |a| {
        assert a[k - 1].next == head;
        assert a == a[..k] && |b| == k && b == b[..k];
      }
    }
  }

  /** list_initialize: the node becomes the head of an empty list. */
  method ListInitialize(node: ListNode)
    modifies node
    ensures IsRing(node, [])
    ensures node.value == Null && node.refcount == 1
  {
    node.value := Null;
    node.next := node;
    node.prev := node;
    node.refcount := 1;
  }

  /** list_add: the new node becomes the last one. */
  method ListAdd(head: ListNode, ghost nodes: seq<ListNode>, newNode: ListNode)
    requires IsRing(head, nodes)
    requires newNode != head && newNode !in nodes
    modifies newNode`next, newNode`prev, head`next, head`prev, nodes`next
    ensures IsRing(head, nodes + [newNode])
  {
    newNode.next := head;
    newNode.prev := head.prev;
    head.prev.next := newNode;
    head.prev := newNode;
  }

  /** list_add_value: a new node holding `value` and `refcount` is appended. */
  method ListAddValue(head: ListNode, ghost nodes: seq<ListNode>, value: Value, refcount: int)
    returns (newNode: ListNode)
    requires IsRing(head, nodes)
    modifies head`next, head`prev, nodes`next
    ensures fresh(newNode) && newNode.value == value && newNode.refcount == refcount
    ensures IsRing(head, nodes + [newNode])
  {
    newNode := new ListNode();
    newNode.value := value;
    newNode.refcount := refcount;
    ListAdd(head, nodes, newNode);
  }

  /**
   list_remove (and list_remove_free): exactly that node leaves, the order of the rest is kept; `value` is what the
   cleanup function gets.
   */
  method ListRemove(node: ListNode, ghost head: ListNode, ghost nodes: seq<ListNode>, ghost k: nat)
    returns (value: Value)
    requires IsRing(head, nodes)
    requires k < |nodes| && nodes[k] == node
    modifies head`next, head`prev, nodes`next, nodes`prev
    ensures IsRing(head, Without(nodes, k))
    ensures node.next == old(node.next) && node.prev == old(node.prev) && value == node.value
  {
    assert node.prev == if 0 < k then nodes[k - 1] else head;
    assert node.next == if k + 1 < |nodes| then nodes[k + 1] else head;
    node.prev.next := node.next;
    node.next.prev := node.prev;
    WithoutMembers(nodes, k);
    value := node.value;
  }

  /** list_empty */
  method ListEmpty(head: ListNode, ghost nodes: seq<ListNode>) returns (empty: bool)
    requires IsRing(head, nodes)
    ensures empty <==> nodes == []
  {
    empty := head.next == head;
  }

  /** list_first: 0 exactly on the empty list, otherwise the first node. */
  method ListFirst(head: ListNode, ghost nodes: seq<ListNode>) returns (found: bool, first: ListNode)
    requires IsRing(head, nodes)
    ensures found <==> nodes != []
    ensures found ==> first == nodes[0]
  {
    first := head.next;
    var empty := ListEmpty(head, nodes);
    found := !empty;
  }

  /** The equality function the source passes to list_find, symbol_names_match. */
  predicate SymbolNamesMatch(value: Value, name: string) {
    value.Symbol? && value.sym.name == name
  }

  /** list_find: the first matching node, or 0 when none matches. */
  method ListFind(head: ListNode, ghost nodes: seq<ListNode>, name: string)
    returns (found: bool, output: ListNode, ghost k: nat)
    requires IsRing(head, nodes)
    ensures found ==> k < |nodes| && nodes[k] == output && SymbolNamesMatch(output.value, name)
    ensures found ==> forall i :: 0 <= i < k ==> !SymbolNamesMatch(nodes[i].value, name)
    ensures !found ==> forall i :: 0 <= i < |nodes| ==> !SymbolNamesMatch(nodes[i].value, name)
  {
    output, k, found := head.next, 0, false;
    while output != head
      invariant k <= |nodes|
      invariant output == if k < |nodes| then nodes[k] else head
      invariant forall i :: 0 <= i < k ==> !SymbolNamesMatch(nodes[i].value, name)
      decreases |nodes| - k
    {
      if SymbolNamesMatch(output.value, name) {
        return true, output, k;
      }
      assert nodes[k].next == if k + 1 < |nodes| then nodes[k + 1] else head;
      output := output.next;
      k := k + 1;
    }
  }

  /** The values of the nodes, in order. */
  ghost function Values(nodes: seq<ListNode>): seq<Value>
    reads nodes`value
  {
    if nodes == [] then [] else [nodes[0].value] + Values(nodes[1..])
  }

  /** `fp` holds the head and the nodes of a list. */
  ghost predicate Covers(fp: set<ListNode>, head: ListNode, nodes: seq<ListNode>) {
    head in fp && forall i :: 0 <= i < |nodes| ==> nodes[i] in fp
  }

  /** In the middle of list_free: `done` went to the cleanup function, the values of `left` still have to. */
  ghost predicate Freeing(head: ListNode, left: seq<ListNode>, done: seq<Value>, all: seq<Value>, fp: set<ListNode>)
    reads fp
  {
    Covers(fp, head, left) && IsRing(head, left) && done + Values(left) == all
  }

  /** list_remove of the first node. */
  method RemoveFirst(head: ListNode, ghost nodes: seq<ListNode>) returns (value: Value)
    requires IsRing(head, nodes) && nodes != []
    modifies head`next, head`prev, nodes`next, nodes`prev
    ensures IsRing(head, nodes[1..]) && old(Values(nodes)) == [value] + Values(nodes[1..])
  {
    value := ListRemove(head.next, head, nodes, 0);
    assert Without(nodes, 0) == nodes[1..];
  }

  /** One turn of list_free. */
  method FreeFirst(head: ListNode, done: seq<Value>, ghost left: seq<ListNode>, ghost all: seq<Value>,
                   ghost fp: set<ListNode>)
    returns (done': seq<Value>)
    requires Freeing(head, left, done, all, fp) && left != []
    modifies fp`next, fp`prev
    ensures Freeing(head, left[1..], done', all, fp)
  {
    ghost var before := Values(left);
    var value := RemoveFirst(head, left);
    done' := done + [value];
    assert done + ([value] + Values(left[1..])) == done' + Values(left[1..]);
  }

  method IsFreed(head: ListNode, ghost left: seq<ListNode>, ghost done: seq<Value>, ghost all: seq<Value>,
                 ghost fp: set<ListNode>)
    returns (empty: bool)
    requires Freeing(head, left, done, all, fp)
    ensures empty <==> left == []
    ensures empty ==> IsRing(head, []) && done == all
  {
    empty := ListEmpty(head, left);
  }

  /** list_free: terminates with the head alone; `cleaned` are the values handed to the cleanup function, in order. */
  method ListFree(head: ListNode, ghost nodes: seq<ListNode>) returns (cleaned: seq<Value>)
    requires IsRing(head, nodes)
    modifies head`next, head`prev, nodes`next, nodes`prev
    ensures IsRing(head, []) && cleaned == old(Values(nodes))
  {
    cleaned := [];
    ghost var left, all := nodes, Values(nodes);
    ghost var fp := {head} + set n | n in nodes;
    while true
      invariant Freeing(head, left, cleaned, all, fp)
      decreases |left|
    {
      var empty := IsFreed(head, left, cleaned, all, fp);
      if empty { break; }
      cleaned := FreeFirst(head, cleaned, left, all, fp);
      left := left[1..];
    }
  }
}
