/**
 The mock runtime of FSBL/cmocka.c on top of the symbol rings: the map of mocked
 return values (one name per path) and the map of expected parameters (two names per
 path), with the heap records their leaves point to, and the end-of-test check.
 */
module MockRuntime {
  import opened Basics
  import opened Rings
  import opened SymbolQueues
  import opened SymbolHeap
  import opened SymbolRuns
  import opened Leftovers
  import opened LeftoversHeap
  import opened Releases
  import opened Teardown
  import opened CallOrdering

  /**
   One of the two global maps. `records` holds the allocated SymbolValue or
   CheckParameterEvent structures by address; reading or releasing an address that is
   not allocated is a verification error.
   */
  class SymbolMap<R> {
    const levels: nat
    const head: ListNode
    var records: map<nat, R>
    ghost var shape: Shape
    ghost var tree: Tree

    /** The ring under `head` represents `tree`. */
    ghost predicate Rooted()
      reads this, shape.fp
    {
      shape.head == head && Rep(shape, tree)
    }

    ghost predicate Valid()
      reads this, shape.fp
    {
      Rooted() && Sound(tree, levels, records.Keys)
    }

    /** initialize_testing for one map */
    constructor (levels: nat)
      requires levels > 0
      ensures Valid() && this.levels == levels && tree == EmptyTree(levels) && records == map[]
      ensures fresh(shape.fp)
    {
      var h := new ListNode();
      this.levels := levels;
      head := h;
      records := map[];
      shape := Shape(h, [], [], {h});
      tree := EmptyTree(levels);
      new;
      EmptySound(levels);
    }

    method AddToRing(names: seq<string>, addr: nat, count: int)
      requires Rooted() && |names| == levels > 0 && IsTree(tree, levels)
      modifies this`shape, this`tree, shape.fp
      ensures Rooted() && fresh(shape.fp - old(shape.fp))
      ensures tree == Add(old(tree), names, Entry(addr, count))
    {
      shape := AddSymbolValue(head, names, addr, count, shape, tree);
      tree := Add(tree, names, Entry(addr, count));
    }

    /** _will_return / _expect_check: queue a new record, at the address malloc returned. */
    method Register(names: seq<string>, addr: nat, record: R, count: int)
      requires Valid() && |names| == levels && addr !in records
      modifies this, shape.fp
      ensures Valid() && fresh(shape.fp - old(shape.fp))
      ensures tree == Add(old(tree), names, Entry(addr, count))
      ensures records == old(records)[addr := record]
    {
      ghost var keys := records.Keys;
      records := records[addr := record];
      assert records.Keys == keys + {addr};
      Queue(names, addr, count, keys);
    }

    /** Queue the entry of a record that was just allocated. */
    method Queue(names: seq<string>, addr: nat, count: int, ghost keys: set<nat>)
      requires Rooted() && Sound(tree, levels, keys) && |names| == levels
      requires addr !in keys && records.Keys == keys + {addr}
      modifies this`shape, this`tree, shape.fp
      ensures Valid() && fresh(shape.fp - old(shape.fp))
      ensures tree == Add(old(tree), names, Entry(addr, count))
    {
      ghost var before := tree;
      AddToRing(names, addr, count);
      RegisterSound(before, names, Entry(addr, count), keys);
    }

    method TakeFromRing(names: seq<string>) returns (o: Outcome)
      requires Rooted() && |names| == levels > 0 && IsTree(tree, levels)
      modifies this`shape, this`tree, shape.fp
      ensures Rooted() && shape.fp == old(shape.fp)
      ensures o == Get(old(tree), names).0 && tree == Get(old(tree), names).1
    {
      ghost var before := tree;
      o, shape := GetSymbolValue(head, names, shape, tree);
      tree := Get(before, names).1;
    }

    /**
     _mock / _check_expected: the record at the front of the queue, released when its last
     use was taken. None stands for the error path that ends the test.
     */
    method Fetch(names: seq<string>) returns (record: Option<R>)
      requires Valid() && |names| == levels
      modifies this, shape.fp
      ensures Valid() && shape.fp == old(shape.fp)
      ensures tree == Get(old(tree), names).1
      ensures var es := old(Lookup(tree, names));
        if es == [] || es[0].refcount == 0 then
          record == None && records == old(records)
        else
          && es[0].addr in old(records)
          && record == Some(old(records)[es[0].addr])
          && records == if es[0].refcount == 1 then old(records) - {es[0].addr} else old(records)
    {
      FetchSound(tree, names, records.Keys);
      var o := TakeFromRing(names);
      record := None;
      if o.Delivered? && o.rc != 0 {
        record := Some(records[o.addr]);
        if o.rc == 1 {
          records := records - {o.addr};
        }
      }
    }

    /** Release records; each must be allocated when its turn comes. */
    method Release(freed: seq<nat>)
      requires Distinct(freed) && Members(freed) <= records.Keys
      modifies this`records
      ensures records == old(records) - Members(freed)
    {
      var i := 0;
      while i < |freed|
        invariant 0 <= i <= |freed| && records == old(records) - Members(freed[..i])
      {
        assert freed[i] in Members(freed) && freed[i] !in freed[..i];
        assert freed[i] in records;
        records := records - {freed[i]};
        assert freed[..i + 1] == freed[..i] + [freed[i]];
        i := i + 1;
      }
      assert freed[..i] == freed;
    }

    method SweepRing() returns (freed: seq<nat>)
      requires Rooted() && levels > 0 && IsTree(tree, levels)
      modifies this`shape, this`tree, shape.fp
      ensures Rooted() && shape.fp == old(shape.fp) && tree == Sweep(old(tree), levels)
      ensures freed == Collect(old(tree), levels, false)
    {
      ghost var before := tree;
      freed, shape := RemoveAlwaysReturnValues(head, levels, shape, tree);
      tree := Sweep(before, levels);
    }

    /** The part of fail_if_leftover_values for this map: the records swept are released, the others stay linked. */
    method LeftoversAfterSweep() returns (count: nat)
      requires Valid()
      modifies this, shape.fp
      ensures Valid() && shape.fp == old(shape.fp)
      ensures tree == Sweep(old(tree), levels) && count == CountLeftovers(tree.syms)
      ensures count == 0 <==> NothingOwed(old(tree), levels)
      ensures records == old(records) - Members(Collect(old(tree), levels, false))
    {
      SweepSound(tree, levels, records.Keys);
      NothingOwedIff(tree, levels, records.Keys);
      var freed := SweepRing();
      Release(freed);
      assert records.Keys == old(records.Keys) - Members(freed);
      count := CheckForLeftoverValues(head, shape, tree.syms);
    }

    /**
     The part of teardown_testing for this map: the list is empty again, and every linked record is released.
     A record outside `keys`, which a refused _will_return left behind, stays allocated.
     */
    method FreeAll(ghost keys: set<nat>)
      requires Rooted() && Sound(tree, levels, keys) && keys <= records.Keys
      modifies this, shape.fp
      ensures Rooted() && shape.fp <= old(shape.fp) && tree == EmptyTree(levels) && Sound(tree, levels, {})
      ensures records == old(records) - keys
    {
      TeardownAccounted(tree, levels, keys);
      EmptySound(levels);
      var freed := FreeSymbols(head, levels, shape, tree);
      Release(freed);
      shape := Shape(head, [], [], {head});
      tree := EmptyTree(levels);
    }
  }

  /** The tree invariant, and every allocated record linked exactly once. */
  ghost predicate Sound(t: Tree, d: nat, keys: set<nat>) {
    d > 0 && WellFormed(t, d) && IsTree(t, d) && Accounted(t, d, keys)
  }

  lemma EmptySound(d: nat)
    requires d > 0
    ensures Sound(EmptyTree(d), d, {})
  {
  }

  lemma RegisterSound(t: Tree, p: Path, e: Entry, keys: set<nat>)
    requires Sound(t, |p|, keys) && e.addr !in keys
    ensures Sound(Add(t, p, e), |p|, keys + {e.addr})
  {
    AddWellFormed(t, p, e);
    RegisterAccounted(t, p, e, keys);
  }

  lemma FetchSound(t: Tree, p: Path, keys: set<nat>)
    requires Sound(t, |p|, keys)
    ensures var (o, r) := Get(t, p); var es := Lookup(t, p);
      && (o == if es == [] then Missing else Delivered(es[0].addr, es[0].refcount))
      && (o.Delivered? ==> o.addr in keys)
      && Sound(r, |p|, if o.Delivered? && o.rc == 1 then keys - {o.addr} else keys)
  {
    GetOutcome(t, p);
    GetWellFormed(t, p);
    FetchAccounted(t, p, keys);
  }

  lemma SweepSound(t: Tree, d: nat, keys: set<nat>)
    requires Sound(t, d, keys)
    ensures var freed := Collect(t, d, false);
      Distinct(freed) && Members(freed) <= keys && Sound(Sweep(t, d), d, keys - Members(freed))
  {
    SweepWellFormed(t, d);
    SweepAccounted(t, d, keys);
  }

  /**
   _will_return. The record is allocated before the assertion that the count is not 0, so a count of
   0 ends the test with a record that is linked nowhere.
   */
  method WillReturn(results: SymbolMap<int>, function_: string, addr: nat, value: int, count: int) returns (ok: bool)
    requires results.Valid() && results.levels == 1 && addr !in results.records
    modifies results, results.shape.fp
    ensures ok <==> count != 0
    ensures results.records == old(results.records)[addr := value]
    ensures ok ==> results.Valid() && results.tree == Add(old(results.tree), [function_], Entry(addr, count))
    ensures !ok ==>
      && results.Rooted() && results.tree == old(results.tree) && Sound(results.tree, 1, old(results.records.Keys))
      && forall p, i :: !Linked(results.tree, 1, p, i, addr)
  {
    ghost var keys := results.records.Keys;
    results.records := results.records[addr := value];
    ok := count != 0;
    if ok {
      assert results.records.Keys == keys + {addr};
      results.Queue([function_], addr, count, keys);
    }
  }

  /** _check_expected: passes exactly when an expectation is queued and its check accepts the value. */
  method CheckExpected(parameters: SymbolMap<int -> bool>, function_: string, parameter: string, value: int)
    returns (passed: bool)
    requires parameters.Valid() && parameters.levels == 2
    modifies parameters, parameters.shape.fp
    ensures parameters.Valid() && parameters.tree == Get(old(parameters.tree), [function_, parameter]).1
    ensures var es := old(Lookup(parameters.tree, [function_, parameter]));
      && (passed <==> es != [] && es[0].refcount != 0 && es[0].addr in old(parameters.records)
                      && old(parameters.records)[es[0].addr](value))
      && parameters.records == if es != [] && es[0].refcount == 1 then old(parameters.records) - {es[0].addr}
                               else old(parameters.records)
  {
    var record := parameters.Fetch([function_, parameter]);
    passed := record.Some? && record.value(value);
  }

  /** Every path may keep what it holds. */
  ghost predicate NothingOwed(t: Tree, d: nat)
    requires IsTree(t, d)
  {
    forall q: Path :: |q| == d ==> MayRemain(Lookup(t, q))
  }

  lemma NothingOwedIff(t: Tree, d: nat, keys: set<nat>)
    requires Sound(t, d, keys)
    ensures CountLeftovers(Sweep(t, d).syms) == 0 <==> NothingOwed(t, d)
  {
    NoLeftovers(t, d);
  }

  /** The list of expected calls, whose nodes are in `fp`. */
  ghost predicate OrderingIn(ordering: ListNode, nodes: seq<ListNode>, calls: seq<CallEntry>, fp: set<ListNode>)
    reads fp
  {
    ordering in fp && (forall n :: n in nodes ==> n in fp) && RepOrdering(ordering, nodes, calls)
  }

  method CallCount(ordering: ListNode, ghost nodes: seq<ListNode>, ghost calls: seq<CallEntry>, ghost fp: set<ListNode>)
    returns (count: nat)
    requires OrderingIn(ordering, nodes, calls, fp)
    modifies fp`next, fp`prev
    ensures count == 0 <==> forall i :: 0 <= i < |calls| ==> calls[i].refcount < -1
  {
    NoCallsLeft(calls);
    ghost var nodes' := RemoveAlwaysFromList(ordering, nodes, calls);
    count := CheckForLeftoverCalls(ordering, nodes');
  }

  method MapCounts<A, B>(results: SymbolMap<A>, parameters: SymbolMap<B>) returns (count1: nat, count2: nat)
    requires results.Valid() && parameters.Valid()
    requires results as object != parameters as object
    requires results.shape.fp !! parameters.shape.fp
    modifies results, parameters, results.shape.fp, parameters.shape.fp
    ensures results.Valid() && parameters.Valid()
    ensures results.shape.fp == old(results.shape.fp) && parameters.shape.fp == old(parameters.shape.fp)
    ensures count1 == 0 <==> NothingOwed(old(results.tree), results.levels)
    ensures count2 == 0 <==> NothingOwed(old(parameters.tree), parameters.levels)
  {
    count1 := results.LeftoversAfterSweep();
    count2 := parameters.LeftoversAfterSweep();
  }

  /** Sweep and check of the two maps; neither touches the other or the list of expected calls. */
  method MapsOwe<A, B>(results: SymbolMap<A>, parameters: SymbolMap<B>, ghost ordering: ListNode,
                       ghost nodes: seq<ListNode>, ghost calls: seq<CallEntry>, ghost fp: set<ListNode>)
    returns (owed: bool)
    requires results.Valid() && parameters.Valid() && results as object != parameters as object
    requires OrderingIn(ordering, nodes, calls, fp)
    requires results.shape.fp !! parameters.shape.fp && fp !! results.shape.fp && fp !! parameters.shape.fp
    modifies results, parameters, results.shape.fp, parameters.shape.fp
    ensures results.Valid() && parameters.Valid() && OrderingIn(ordering, nodes, calls, fp)
    ensures results.shape.fp == old(results.shape.fp) && parameters.shape.fp == old(parameters.shape.fp)
    ensures !owed <==>
      NothingOwed(old(results.tree), results.levels) && NothingOwed(old(parameters.tree), parameters.levels)
  {
    var count1, count2 := MapCounts(results, parameters);
    owed := count1 != 0 || count2 != 0;
  }

  /** Sweep and check of the list of expected calls; the two maps are not touched. */
  method CallCountBeside<A, B>(results: SymbolMap<A>, parameters: SymbolMap<B>, ordering: ListNode,
                               ghost nodes: seq<ListNode>, ghost calls: seq<CallEntry>, ghost fp: set<ListNode>)
    returns (count: nat)
    requires results.Valid() && parameters.Valid() && OrderingIn(ordering, nodes, calls, fp)
    requires fp !! results.shape.fp && fp !! parameters.shape.fp
    modifies fp`next, fp`prev
    ensures results.Valid() && parameters.Valid()
    ensures count == 0 <==> forall i :: 0 <= i < |calls| ==> calls[i].refcount < -1
  {
    count := CallCount(ordering, nodes, calls, fp);
  }

  /**
   fail_if_leftover_values: the test fails exactly when some path of either map may not keep
   what it holds, or some expected call that may not be skipped was not made.
   */
  method FailIfLeftoverValues<A, B>(results: SymbolMap<A>, parameters: SymbolMap<B>, ordering: ListNode,
                                    ghost nodes: seq<ListNode>, ghost calls: seq<CallEntry>, ghost fp: set<ListNode>)
    returns (failed: bool)
    requires results.Valid() && parameters.Valid() && results as object != parameters as object
    requires OrderingIn(ordering, nodes, calls, fp)
    requires results.shape.fp !! parameters.shape.fp && fp !! results.shape.fp && fp !! parameters.shape.fp
    modifies results, parameters, results.shape.fp, parameters.shape.fp, fp
    ensures results.Valid() && parameters.Valid()
    ensures results.shape.fp == old(results.shape.fp) && parameters.shape.fp == old(parameters.shape.fp)
    ensures !failed <==>
      && NothingOwed(old(results.tree), results.levels)
      && NothingOwed(old(parameters.tree), parameters.levels)
      && forall i :: 0 <= i < |calls| ==> calls[i].refcount < -1
  {
    var owed := MapsOwe(results, parameters, ordering, nodes, calls, fp);
    var count := CallCountBeside(results, parameters, ordering, nodes, calls, fp);
    failed := owed || count != 0;
  }

  /** list_free of the call-ordering list: the expected names are released in order. */
  method FreeCalls(ordering: ListNode, ghost nodes: seq<ListNode>, ghost calls: seq<CallEntry>, ghost fp: set<ListNode>)
    returns (freed: seq<Value>)
    requires OrderingIn(ordering, nodes, calls, fp)
    modifies fp`next, fp`prev
    ensures OrderingIn(ordering, [], [], fp)
    ensures |freed| == |calls| && forall i :: 0 <= i < |calls| ==> freed[i] == Call(calls[i].name)
  {
    CallValues(nodes, calls);
    freed := ListFree(ordering, nodes);
  }

  lemma {:induction false} CallValues(nodes: seq<ListNode>, calls: seq<CallEntry>)
    requires RepCalls(nodes, calls)
    ensures |Values(nodes)| == |calls| && forall i :: 0 <= i < |calls| ==> Values(nodes)[i] == Call(calls[i].name)
  {
    if nodes != [] { CallValues(nodes[1..], calls[1..]); }
  }

  method FreeMaps<A, B>(results: SymbolMap<A>, parameters: SymbolMap<B>, ghost keys1: set<nat>, ghost keys2: set<nat>)
    requires results.Rooted() && Sound(results.tree, results.levels, keys1) && keys1 <= results.records.Keys
    requires parameters.Rooted() && Sound(parameters.tree, parameters.levels, keys2) && keys2 <= parameters.records.Keys
    requires results as object != parameters as object && results.shape.fp !! parameters.shape.fp
    modifies results, parameters, results.shape.fp, parameters.shape.fp
    ensures results.Rooted() && results.tree == EmptyTree(results.levels) && results.shape.fp <= old(results.shape.fp)
    ensures parameters.Rooted() && parameters.tree == EmptyTree(parameters.levels)
    ensures parameters.shape.fp <= old(parameters.shape.fp)
    ensures results.records == old(results.records) - keys1 && parameters.records == old(parameters.records) - keys2
  {
    results.FreeAll(keys1);
    parameters.FreeAll(keys2);
  }

  /**
   teardown_testing: all three lists are empty again and every linked record is released. Exactly the records
   outside `keys1` and `keys2` stay allocated; in a valid map there are none.
   */
  method TeardownTesting<A, B>(results: SymbolMap<A>, parameters: SymbolMap<B>, ghost keys1: set<nat>,
                               ghost keys2: set<nat>,
                               ordering: ListNode, ghost nodes: seq<ListNode>, ghost calls: seq<CallEntry>,
                               ghost fp: set<ListNode>)
    requires results.Rooted() && Sound(results.tree, results.levels, keys1) && keys1 <= results.records.Keys
    requires parameters.Rooted() && Sound(parameters.tree, parameters.levels, keys2) && keys2 <= parameters.records.Keys
    requires results as object != parameters as object && OrderingIn(ordering, nodes, calls, fp)
    requires results.shape.fp !! parameters.shape.fp && fp !! results.shape.fp && fp !! parameters.shape.fp
    modifies results, parameters, results.shape.fp, parameters.shape.fp, fp
    ensures results.Rooted() && results.tree == EmptyTree(results.levels)
    ensures parameters.Rooted() && parameters.tree == EmptyTree(parameters.levels)
    ensures results.records == old(results.records) - keys1 && parameters.records == old(parameters.records) - keys2
    ensures OrderingIn(ordering, [], [], fp)
  {
    FreeMaps(results, parameters, keys1, keys2);
    var _ := FreeCalls(ordering, nodes, calls, fp);
  }
}
