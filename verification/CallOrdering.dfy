/**
 The call-ordering list of FSBL/cmocka.c: the expectations queued by
 _expect_function_call, the automaton _function_called that consumes them, and the
 end-of-test sweep of the list.
 */
module CallOrdering {
  import opened Basics
  import opened Rings

  datatype CallEntry = CallEntry(name: string, refcount: int)

  /** exit_test leaves the test (Rejected); NullDereference is a read through the head's NULL value. */
  datatype Verdict = Accepted | Rejected | NullDereference

  predicate Skippable(c: CallEntry) {
    c.refcount < -1
  }

  /** _expect_function_call refuses a count of 0, so no entry ever has one. */
  ghost predicate NonZero(calls: seq<CallEntry>) {
    forall i :: 0 <= i < |calls| ==> calls[i].refcount != 0
  }

  /** Index of the first entry that is called `f` or may not be skipped, or |calls|. */
  function Stop(calls: seq<CallEntry>, f: string): (k: nat)
    ensures k <= |calls|
    ensures forall i :: 0 <= i < k ==> Skippable(calls[i]) && calls[i].name != f
    ensures k < |calls| ==> calls[k].name == f || !Skippable(calls[k])
  {
    if calls == [] || calls[0].name == f || !Skippable(calls[0]) then 0
    else 1 + Stop(calls[1..], f)
  }

  lemma StopIs(calls: seq<CallEntry>, f: string, k: nat)
    requires k <= |calls|
    requires forall i :: 0 <= i < k ==> Skippable(calls[i]) && calls[i].name != f
    requires k < |calls| ==> calls[k].name == f || !Skippable(calls[k])
    ensures Stop(calls, f) == k
  {
  }

  /** The list after entry k was used once. */
  function Use(calls: seq<CallEntry>, k: nat): (r: seq<CallEntry>)
    requires k < |calls| && NonZero(calls)
    ensures NonZero(r)
  {
    var c := calls[k];
    if c.refcount > -2 then
      if c.refcount - 1 == 0 then calls[..k] + calls[k + 1..]
      else calls[k := CallEntry(c.name, c.refcount - 1)]
    else calls
  }

  /** _function_called */
  function Called(calls: seq<CallEntry>, f: string): (r: (Verdict, seq<CallEntry>))
    requires NonZero(calls)
    ensures NonZero(r.1)
  {
    var k := Stop(calls, f);
    if k == |calls| then (if |calls| == 1 then NullDereference else Rejected, calls)
    else if calls[k].name == f then (Accepted, Use(calls, k))
    else (Rejected, calls)
  }

  // ---- The heap procedure ----

  ghost predicate RepCalls(nodes: seq<ListNode>, calls: seq<CallEntry>)
    reads nodes`value, nodes`refcount
  {
    && |nodes| == |calls|
    && forall i {:trigger nodes[i]} {:trigger calls[i]} :: 0 <= i < |nodes| ==>
         nodes[i].value == Call(calls[i].name) && nodes[i].refcount == calls[i].refcount
  }

  /** The list as list_initialize and list_add_value leave it: the head holds NULL and count 1. */
  ghost predicate RepOrdering(head: ListNode, nodes: seq<ListNode>, calls: seq<CallEntry>)
    reads head, nodes
  {
    IsRing(head, nodes) && RepCalls(nodes, calls) && head.value == Null && head.refcount == 1
  }

  /** _expect_function_call, after its assertion that the count is not 0 */
  method ExpectFunctionCall(head: ListNode, name: string, count: int, ghost nodes: seq<ListNode>,
                            ghost calls: seq<CallEntry>)
    returns (ghost nodes': seq<ListNode>)
    requires RepOrdering(head, nodes, calls) && NonZero(calls) && count != 0
    modifies head, nodes
    ensures RepOrdering(head, nodes', calls + [CallEntry(name, count)])
    ensures NonZero(calls + [CallEntry(name, count)])
    ensures forall n :: n in nodes' ==> n in nodes || fresh(n)
  {
    var node := ListAddValue(head, nodes, Call(name), count);
    nodes' := nodes + [node];
  }

  /** list_remove_free on the k-th expectation */
  method UnlinkCall(node: ListNode, ghost head: ListNode, ghost nodes: seq<ListNode>, ghost calls: seq<CallEntry>,
                    ghost k: nat)
    requires RepOrdering(head, nodes, calls) && k < |nodes| && nodes[k] == node
    modifies head`next, head`prev, nodes`next, nodes`prev
    ensures RepOrdering(head, Without(nodes, k), Without(calls, k))
    ensures forall n :: n in Without(nodes, k) ==> n in nodes
    ensures node.next == old(node.next)
  {
    WithoutMembers(nodes, k);
    var _ := ListRemove(node, head, nodes, k);
  }

  /** The list with the count of entry k one lower. */
  ghost function CountedDown(calls: seq<CallEntry>, k: nat): seq<CallEntry>
    requires k < |calls|
  {
    calls[k := CallEntry(calls[k].name, calls[k].refcount - 1)]
  }

  method CountDown(node: ListNode, ghost head: ListNode, ghost nodes: seq<ListNode>, ghost calls: seq<CallEntry>,
                   ghost k: nat)
    requires RepOrdering(head, nodes, calls) && k < |nodes| && nodes[k] == node
    modifies node`refcount
    ensures RepOrdering(head, nodes, CountedDown(calls, k)) && node.refcount == CountedDown(calls, k)[k].refcount
  {
    node.refcount := node.refcount - 1;
  }

  method UseNode(node: ListNode, ghost head: ListNode, ghost nodes: seq<ListNode>, ghost calls: seq<CallEntry>,
                 ghost k: nat)
    returns (ghost nodes': seq<ListNode>)
    requires RepOrdering(head, nodes, calls) && NonZero(calls) && k < |nodes| && nodes[k] == node
    modifies head, nodes
    ensures RepOrdering(head, nodes', Use(calls, k))
    ensures forall n :: n in nodes' ==> n in nodes
  {
    nodes' := nodes;
    if node.refcount > -2 {
      CountDown(node, head, nodes, calls, k);
      if node.refcount == 0 {
        UnlinkCall(node, head, nodes, CountedDown(calls, k), k);
        nodes' := Without(nodes, k);
        assert Without(CountedDown(calls, k), k) == calls[..k] + calls[k + 1..];
      }
    }
  }

  /** _function_called on the ring */
  method FunctionCalled(head: ListNode, f: string, ghost nodes: seq<ListNode>, ghost calls: seq<CallEntry>)
    returns (v: Verdict, ghost nodes': seq<ListNode>)
    requires RepOrdering(head, nodes, calls) && NonZero(calls)
    modifies head, nodes
    ensures v == Called(calls, f).0
    ensures RepOrdering(head, nodes', Called(calls, f).1)
    ensures forall n :: n in nodes' ==> n in nodes
  {
    nodes' := nodes;
    var found, valueNode := ListFirst(head, nodes);
    if !found {
      return Rejected, nodes;
    }
    var firstNode := valueNode;
    ghost var k := 0;
    var matches := valueNode.value.function_ == f;
    if valueNode.refcount < -1 && !matches {
      var next := valueNode.next;
      assert next == if 1 < |nodes| then nodes[1] else head;
      if next.value.Null? {
        StopIs(calls, f, 1);
        return NullDereference, nodes;
      }
      var missing;
      valueNode, matches, missing, k := SearchOn(head, next, firstNode, f, nodes, calls);
      if missing || valueNode == firstNode.prev {
        return Rejected, nodes;
      }
    }
    StopIs(calls, f, k);
    if matches {
      nodes' := UseNode(valueNode, head, nodes, calls, k);
      v := Accepted;
    } else {
      v := Rejected;
    }
  }

  /** The search past skippable entries, from the second one on. */
  method SearchOn(head: ListNode, second: ListNode, firstNode: ListNode, f: string, ghost nodes: seq<ListNode>,
                  ghost calls: seq<CallEntry>)
    returns (valueNode: ListNode, matches: bool, missing: bool, ghost k: nat)
    requires RepOrdering(head, nodes, calls) && |nodes| > 1 && second == nodes[1] && firstNode == nodes[0]
    requires Skippable(calls[0]) && calls[0].name != f
    ensures k == Stop(calls, f)
    ensures missing <==> Stop(calls, f) == |calls|
    ensures valueNode == if missing then head else nodes[Stop(calls, f)]
    ensures !missing ==> matches == (calls[Stop(calls, f)].name == f)
  {
    valueNode, missing, k := second, false, 1;
    matches := valueNode.value.function_ == f;
    assert firstNode.prev == head;
    while valueNode.refcount < -1 && !matches && valueNode != firstNode.prev
      invariant k <= |nodes|
      invariant valueNode == if k < |nodes| then nodes[k] else head
      invariant missing <==> k == |nodes|
      invariant k < |calls| ==> matches == (calls[k].name == f)
      invariant forall i :: 0 <= i < k ==> Skippable(calls[i]) && calls[i].name != f
      decreases |nodes| - k
    {
      assert nodes[k].next == if k + 1 < |nodes| then nodes[k + 1] else head;
      valueNode := valueNode.next;
      k := k + 1;
      if valueNode.value.Null? {
        missing := true;
      } else {
        matches := valueNode.value.function_ == f;
      }
    }
    StopIs(calls, f, k);
  }

  // ---- What the automaton accepts ----

  /** Entry k is called `f` and only skippable entries precede it. */
  ghost predicate Reachable(calls: seq<CallEntry>, f: string, k: nat) {
    k < |calls| && calls[k].name == f && forall j :: 0 <= j < k ==> calls[j].refcount < -1
  }

  /**
   A call is accepted exactly when it names an entry that only skippable entries precede, and then
   the first such entry is used; a call that is not accepted changes nothing.
   */
  lemma AcceptedIff(calls: seq<CallEntry>, f: string)
    requires NonZero(calls)
    ensures Called(calls, f).0 == Accepted <==> exists k: nat :: Reachable(calls, f, k)
    ensures forall k: nat :: Reachable(calls, f, k) && (forall j: nat :: j < k ==> !Reachable(calls, f, j)) ==>
              Called(calls, f).1 == Use(calls, k)
    ensures Called(calls, f).0 != Accepted ==> Called(calls, f).1 == calls
  {
    var s := Stop(calls, f);
    forall k: nat | Reachable(calls, f, k) ensures s <= k && Reachable(calls, f, s) {
      assert s <= k;
      assert s < |calls| && (calls[s].name == f || s < k);
    }
    if Called(calls, f).0 == Accepted { assert Reachable(calls, f, s); }
  }

  /** The list is walked into the head's NULL value exactly when one skippable entry with another name is left. */
  lemma NullIff(calls: seq<CallEntry>, f: string)
    requires NonZero(calls)
    ensures Called(calls, f).0 == NullDereference <==> |calls| == 1 && calls[0].refcount < -1 && calls[0].name != f
  {
  }

  /** Use touches no entry but the one it is given, and that one only until it is skippable. */
  lemma UseKeepsOthers(calls: seq<CallEntry>, k: nat)
    requires NonZero(calls) && k < |calls|
    ensures var r := Use(calls, k); var c := calls[k];
      && (c.refcount == 1 ==> r == Without(calls, k))
      && (c.refcount != 1 ==>
            |r| == |calls| && r[k].name == c.name && forall i :: 0 <= i < |r| && i != k ==> r[i] == calls[i])
      && (c.refcount > 1 ==> r[k].refcount == c.refcount - 1)
      && (c.refcount == -1 ==> r[k].refcount == -2)
      && (c.refcount < -1 ==> r == calls)
  {
  }

  /** The list after a trace of calls that were all accepted, if they were. */
  ghost function Replay(calls: seq<CallEntry>, trace: seq<string>): (r: (bool, seq<CallEntry>))
    requires NonZero(calls)
    ensures NonZero(r.1)
    decreases |trace|
  {
    if trace == [] then (true, calls)
    else
      var (v, next) := Called(calls, trace[0]);
      if v != Accepted then (false, calls) else Replay(next, trace[1..])
  }

  // ---- The accepted traces, in terms of the list as it was queued ----

  /** The list with its first entry used once, when that one may not be skipped. */
  ghost function UseHead(calls: seq<CallEntry>): (r: seq<CallEntry>)
    requires calls != [] && NonZero(calls) && !Skippable(calls[0])
    ensures NonZero(r)
  {
    if calls[0].refcount == 1 then calls[1..]
    else [CallEntry(calls[0].name, calls[0].refcount - 1)] + calls[1..]
  }

  /** A measure for the definitions below: using the first entry counts it down, removes it or makes it skippable. */
  ghost function HeadLeft(calls: seq<CallEntry>): nat {
    if calls == [] || Skippable(calls[0]) then 0 else if calls[0].refcount < 0 then 1 else 1 + calls[0].refcount
  }

  /** The calls that have to be made, in order: c times f for a count c > 0, once for -1, none below. */
  ghost function Due(calls: seq<CallEntry>): seq<string>
    requires NonZero(calls)
    decreases |calls|, HeadLeft(calls)
  {
    if calls == [] then []
    else if Skippable(calls[0]) then Due(calls[1..])
    else [calls[0].name] + Due(UseHead(calls))
  }

  /** The names that may be called any number of times once n of the due calls were made. */
  ghost function Free(calls: seq<CallEntry>, n: nat): set<string>
    requires NonZero(calls)
    decreases |calls|, HeadLeft(calls)
  {
    if calls == [] then {}
    else if Skippable(calls[0]) then {calls[0].name} + Free(calls[1..], n)
    else if n == 0 then {}
    else Free(UseHead(calls), n - 1)
  }

  ghost function Times(f: string, n: nat): seq<string> {
    if n == 0 then [] else [f] + Times(f, n - 1)
  }

  /** The first entry is due as often as its count says, then the rest of the list is. */
  lemma {:induction false} DueHead(calls: seq<CallEntry>)
    requires calls != [] && NonZero(calls)
    ensures var c := calls[0].refcount;
      Due(calls) == Times(calls[0].name, if c > 0 then c else if c == -1 then 1 else 0) + Due(calls[1..])
    decreases HeadLeft(calls)
  {
    var f, c, rest := calls[0].name, calls[0].refcount, Due(calls[1..]);
    if c > 1 {
      var used := UseHead(calls);
      assert used[1..] == calls[1..];
      DueHead(used);
      assert [f] + (Times(f, c - 1) + rest) == ([f] + Times(f, c - 1)) + rest;
    } else if c == -1 {
      var used := UseHead(calls);
      assert used[1..] == calls[1..] && Due(used) == rest;
      assert Times(f, 1) == [f] + Times(f, 0) == [f];
    }
  }

  /** How often an entry with count c is due. */
  ghost function Own(c: int): nat { if c > 0 then c else if c == -1 then 1 else 0 }

  /** The number of calls due for the first m entries. */
  ghost function Owed(calls: seq<CallEntry>, m: nat): nat
    requires m <= |calls|
  {
    if m == 0 then 0 else Own(calls[0].refcount) + Owed(calls[1..], m - 1)
  }

  lemma {:induction false} TimesLength(f: string, n: nat)
    ensures |Times(f, n)| == n
  {
    if n > 0 { TimesLength(f, n - 1); }
  }

  lemma {:induction false} DueLength(calls: seq<CallEntry>)
    requires NonZero(calls)
    ensures |Due(calls)| == Owed(calls, |calls|)
  {
    if calls != [] {
      DueHead(calls);
      TimesLength(calls[0].name, Own(calls[0].refcount));
      DueLength(calls[1..]);
    }
  }

  /** Entry i is called `f`, has a negative count, and all calls due up to and including it were made. */
  ghost predicate FreeBy(calls: seq<CallEntry>, n: nat, f: string, i: nat) {
    i < |calls| && calls[i].name == f && calls[i].refcount < 0 && Owed(calls, i + 1) <= n
  }

  /**
   Exactly which names are free after n due calls: those of the entries with a count below -1 that the due calls
   have reached, and of the entries with the count -1 whose one due call was made.
   */
  lemma {:induction false} FreeIff(calls: seq<CallEntry>, n: nat, f: string)
    requires NonZero(calls)
    ensures f in Free(calls, n) <==> exists i: nat :: FreeBy(calls, n, f, i)
  {
    if i: nat :| FreeBy(calls, n, f, i) { FreeFrom(calls, n, f, i); }
    if f in Free(calls, n) {
      var i := FreeWitness(calls, n, f);
      assert FreeBy(calls, n, f, i);
    }
  }

  lemma {:induction false} FreeByTail(calls: seq<CallEntry>, n: nat, f: string, i: nat)
    requires 0 < i < |calls|
    ensures FreeBy(calls, n, f, i) <==>
      Own(calls[0].refcount) <= n && FreeBy(calls[1..], n - Own(calls[0].refcount), f, i - 1)
  {
  }

  lemma {:induction false} FreeFrom(calls: seq<CallEntry>, n: nat, f: string, i: nat)
    requires NonZero(calls) && FreeBy(calls, n, f, i)
    ensures f in Free(calls, n)
  {
    if i > 0 {
      FreeByTail(calls, n, f, i);
      FreeFrom(calls[1..], n - Own(calls[0].refcount), f, i - 1);
    }
    FreePast(calls, n);
  }

  lemma {:induction false} FreeWitness(calls: seq<CallEntry>, n: nat, f: string) returns (i: nat)
    requires NonZero(calls) && f in Free(calls, n)
    ensures FreeBy(calls, n, f, i)
    decreases |calls|
  {
    FreePast(calls, n);
    if calls[0].refcount < 0 && calls[0].name == f {
      i := 0;
    } else {
      i := FreeWitness(calls[1..], n - Own(calls[0].refcount), f);
      i := i + 1;
      FreeByTail(calls, n, f, i);
    }
  }

  /** The first entry is free for itself once its own due calls were made, and then the rest of the list is next. */
  lemma {:induction false} FreePast(calls: seq<CallEntry>, n: nat)
    requires calls != [] && NonZero(calls)
    ensures var c := calls[0].refcount;
      Free(calls, n) ==
        if n < Own(c) then {} else (if c < 0 then {calls[0].name} else {}) + Free(calls[1..], n - Own(c))
    decreases HeadLeft(calls)
  {
    var c := calls[0].refcount;
    if c >= -1 && n > 0 {
      var used := UseHead(calls);
      if c != 1 {
        assert used[1..] == calls[1..];
        FreePast(used, n - 1);
      }
    }
  }

  /** Every call of the trace is free at its time or the next one due; n due calls were made before. */
  ghost predicate Follows(calls: seq<CallEntry>, trace: seq<string>, n: nat)
    requires NonZero(calls)
    decreases |trace|
  {
    if trace == [] then true
    else if trace[0] in Free(calls, n) then Follows(calls, trace[1..], n)
    else n < |Due(calls)| && trace[0] == Due(calls)[n] && Follows(calls, trace[1..], n + 1)
  }

  /** The number of due calls made after such a trace. */
  ghost function Made(calls: seq<CallEntry>, trace: seq<string>, n: nat): nat
    requires NonZero(calls)
    decreases |trace|
  {
    if trace == [] then n else Made(calls, trace[1..], if trace[0] in Free(calls, n) then n else n + 1)
  }

  /** What was free once stays free: a reached skippable entry stays callable after every accepted call. */
  lemma {:induction false} FreeGrows(calls: seq<CallEntry>, n: nat)
    requires NonZero(calls)
    ensures Free(calls, n) <= Free(calls, n + 1)
    decreases |calls|, HeadLeft(calls)
  {
    if calls != [] && Skippable(calls[0]) {
      FreeGrows(calls[1..], n);
    } else if calls != [] && n > 0 {
      FreeGrows(UseHead(calls), n - 1);
    }
  }

  /** A call past a skippable entry with another name is the call on the rest of the list. */
  lemma {:induction false} CalledPast(calls: seq<CallEntry>, f: string)
    requires calls != [] && NonZero(calls) && Skippable(calls[0]) && calls[0].name != f
    ensures Called(calls, f).0 == Accepted <==> Called(calls[1..], f).0 == Accepted
    ensures Called(calls, f).0 == Accepted ==> Called(calls, f).1 == [calls[0]] + Called(calls[1..], f).1
  {
    var k := Stop(calls[1..], f);
    StopIs(calls, f, k + 1);
    if k < |calls[1..]| && calls[k + 1].name == f {
      assert Use(calls, k + 1) == [calls[0]] + Use(calls[1..], k);
    }
  }

  /** A call of the first entry uses it. */
  lemma {:induction false} CalledFirst(calls: seq<CallEntry>, f: string)
    requires calls != [] && NonZero(calls) && (calls[0].name == f || !Skippable(calls[0]))
    ensures Called(calls, f).0 == Accepted <==> calls[0].name == f
    ensures calls[0].name == f ==> Called(calls, f).1 == if Skippable(calls[0]) then calls else UseHead(calls)
  {
    StopIs(calls, f, 0);
    if calls[0].name == f && calls[0].refcount == 1 {
      assert calls[..0] + calls[1..] == calls[1..];
    }
  }

  /** A free name is accepted and changes nothing. */
  lemma {:induction false} CallFree(calls: seq<CallEntry>, f: string)
    requires NonZero(calls) && f in Free(calls, 0)
    ensures Called(calls, f) == (Accepted, calls)
  {
    if calls[0].name == f {
      CalledFirst(calls, f);
    } else {
      CalledPast(calls, f);
      CallFree(calls[1..], f);
    }
  }

  /** `r` is what is left of `calls` after n due calls. */
  ghost predicate Rest(calls: seq<CallEntry>, r: seq<CallEntry>, n: nat)
    requires NonZero(calls) && NonZero(r)
  {
    n <= |Due(calls)| && Due(r) == Due(calls)[n..] && forall m: nat :: Free(r, m) == Free(calls, n + m)
  }

  /** Any other name is accepted exactly when it is the next one due, and then that call is made. */
  lemma {:induction false} CallDue(calls: seq<CallEntry>, f: string)
    requires NonZero(calls) && f !in Free(calls, 0)
    ensures Called(calls, f).0 == Accepted <==> Due(calls) != [] && Due(calls)[0] == f
    ensures Called(calls, f).0 == Accepted ==> Rest(calls, Called(calls, f).1, 1)
  {
    if calls != [] {
      if Skippable(calls[0]) {
        CalledPast(calls, f);
        CallDue(calls[1..], f);
        var r := Called(calls, f).1;
        if Called(calls, f).0 == Accepted {
          assert r[1..] == Called(calls[1..], f).1;
        }
      } else {
        CalledFirst(calls, f);
      }
    }
  }

  lemma {:induction false} RestTrans(calls: seq<CallEntry>, r: seq<CallEntry>, r': seq<CallEntry>, n: nat)
    requires NonZero(calls) && NonZero(r) && NonZero(r') && Rest(calls, r, n) && Rest(r, r', 1)
    ensures Rest(calls, r', n + 1)
  {
    forall m: nat ensures Free(r', m) == Free(calls, n + 1 + m) {
      assert Free(r', m) == Free(r, 1 + m);
      assert Free(r, m + 1) == Free(calls, n + (m + 1));
    }
  }

  /**
   The accepted traces, for any counts: exactly those in which every call is free at its time or the next one due.
   Stated for the list `r` that is left of `calls` after n due calls; at the start that is `calls` itself.
   */
  lemma {:induction false} TracesFollow(calls: seq<CallEntry>, r: seq<CallEntry>, trace: seq<string>, n: nat)
    requires NonZero(calls) && NonZero(r) && Rest(calls, r, n)
    ensures Replay(r, trace).0 <==> Follows(calls, trace, n)
    ensures Replay(r, trace).0 ==> Rest(calls, Replay(r, trace).1, Made(calls, trace, n))
    decreases |trace|
  {
    if trace != [] {
      var f := trace[0];
      assert Free(r, 0) == Free(calls, n + 0);
      if f in Free(calls, n) {
        CallFree(r, f);
        TracesFollow(calls, r, trace[1..], n);
      } else {
        CallDue(r, f);
        var next := Called(r, f).1;
        if Called(r, f).0 == Accepted {
          RestTrans(calls, r, next, n);
          TracesFollow(calls, next, trace[1..], n + 1);
        }
      }
    }
  }

  lemma {:induction false} NothingDueIff(calls: seq<CallEntry>)
    requires NonZero(calls)
    ensures Due(calls) == [] <==> forall i :: 0 <= i < |calls| ==> Skippable(calls[i])
  {
    if calls != [] && Skippable(calls[0]) { NothingDueIff(calls[1..]); }
  }

  // ---- Positive counts ----

  ghost predicate Positive(calls: seq<CallEntry>) {
    forall i :: 0 <= i < |calls| ==> calls[i].refcount > 0
  }

  lemma {:induction false} NothingFree(calls: seq<CallEntry>, n: nat)
    requires Positive(calls)
    ensures Free(calls, n) == {}
    decreases n
  {
    if calls != [] && n > 0 { NothingFree(UseHead(calls), n - 1); }
  }

  lemma {:induction false} FollowsPositive(calls: seq<CallEntry>, trace: seq<string>, n: nat)
    requires Positive(calls) && n <= |Due(calls)|
    ensures Follows(calls, trace, n) <==> trace <= Due(calls)[n..]
    ensures Made(calls, trace, n) == n + |trace|
    decreases |trace|
  {
    if trace != [] {
      NothingFree(calls, n);
      if n < |Due(calls)| {
        FollowsPositive(calls, trace[1..], n + 1);
        PrefixCons(trace, Due(calls)[n..]);
      } else {
        MadeCounts(calls, trace, n);
      }
    }
  }

  lemma {:induction false} MadeCounts(calls: seq<CallEntry>, trace: seq<string>, n: nat)
    requires Positive(calls)
    ensures Made(calls, trace, n) == n + |trace|
    decreases |trace|
  {
    if trace != [] {
      NothingFree(calls, n);
      MadeCounts(calls, trace[1..], n + 1);
    }
  }

  lemma PrefixCons(t: seq<string>, w: seq<string>)
    requires t != [] && w != []
    ensures t <= w <==> t[0] == w[0] && t[1..] <= w[1..]
  {
    if t[0] == w[0] && t[1..] <= w[1..] {
      assert t == [t[0]] + t[1..] && w == [w[0]] + w[1..];
    }
  }

  /**
   With positive counts the accepted traces are exactly the prefixes of f1^c1 f2^c2 ..., and the rest of it is still
   due.
   */
  lemma {:induction false} TracesArePrefixes(calls: seq<CallEntry>, trace: seq<string>)
    requires Positive(calls)
    ensures Replay(calls, trace).0 <==> trace <= Due(calls)
    ensures Replay(calls, trace).0 ==> Due(Replay(calls, trace).1) == Due(calls)[|trace|..]
  {
    TracesFollow(calls, calls, trace, 0);
    FollowsPositive(calls, trace, 0);
  }

  // ---- The end of the test ----

  /** remove_always_return_values_from_list */
  function SweepCalls(calls: seq<CallEntry>): (r: seq<CallEntry>) {
    if calls == [] then []
    else (if Skippable(calls[0]) then [] else [calls[0]]) + SweepCalls(calls[1..])
  }

  /** What is left after the sweep, and therefore reported, are the entries that may not be skipped. */
  lemma {:induction false} NoCallsLeft(calls: seq<CallEntry>)
    ensures forall c :: c in SweepCalls(calls) <==> c in calls && c.refcount >= -1
    ensures SweepCalls(calls) == [] <==> forall i :: 0 <= i < |calls| ==> calls[i].refcount < -1
  {
    if calls != [] {
      NoCallsLeft(calls[1..]);
      assert calls == [calls[0]] + calls[1..];
      if i :| 0 <= i < |calls| && calls[i].refcount >= -1 { assert calls[i] in SweepCalls(calls); }
      if SweepCalls(calls) != [] { assert SweepCalls(calls)[0] in SweepCalls(calls); }
    }
  }

  /** A test ends without a report exactly when its trace follows the list and makes all of its due calls. */
  lemma {:induction false} CompleteRuns(calls: seq<CallEntry>, trace: seq<string>)
    requires NonZero(calls)
    ensures Replay(calls, trace).0 && SweepCalls(Replay(calls, trace).1) == [] <==>
            Follows(calls, trace, 0) && Made(calls, trace, 0) == |Due(calls)|
  {
    TracesFollow(calls, calls, trace, 0);
    var rest := Replay(calls, trace).1;
    NoCallsLeft(rest);
    NothingDueIff(rest);
  }

  /** Under positive counts a test ends without a report exactly when every expected call was made. */
  lemma {:induction false} CompleteTraces(calls: seq<CallEntry>, trace: seq<string>)
    requires Positive(calls)
    ensures Replay(calls, trace).0 && SweepCalls(Replay(calls, trace).1) == [] <==> trace == Due(calls)
  {
    CompleteRuns(calls, trace);
    FollowsPositive(calls, trace, 0);
  }

  /** The list in mid-sweep: the entries kept so far, then those still to visit. */
  ghost predicate SweptTo(calls: seq<CallEntry>, now: seq<CallEntry>, k: nat) {
    k <= |now| && now[..k] + SweepCalls(now[k..]) == SweepCalls(calls)
  }

  lemma {:induction false} SweptStep(calls: seq<CallEntry>, now: seq<CallEntry>, k: nat)
    requires SweptTo(calls, now, k) && k < |now|
    ensures if Skippable(now[k]) then SweptTo(calls, Without(now, k), k) else SweptTo(calls, now, k + 1)
  {
  }

  /** One turn of the sweep: drop the current expectation or move past it. */
  method SweepCall(current: ListNode, ghost head: ListNode, ghost nodes: seq<ListNode>, ghost calls: seq<CallEntry>,
                   ghost now: seq<CallEntry>, ghost k: nat)
    returns (ghost nodes': seq<ListNode>, ghost now': seq<CallEntry>, ghost k': nat)
    requires RepOrdering(head, nodes, now) && SweptTo(calls, now, k) && k < |nodes| && nodes[k] == current
    modifies head`next, head`prev, nodes`next, nodes`prev
    ensures RepOrdering(head, nodes', now') && SweptTo(calls, now', k') && |now'| - k' < |now| - k
    ensures forall i :: 0 <= i < |nodes'| ==> nodes'[i] in nodes
    ensures old(current.next) == if k' < |nodes'| then nodes'[k'] else head
  {
    SweptStep(calls, now, k);
    nodes', now', k' := nodes, now, k + 1;
    if current.refcount < -1 {
      UnlinkCall(current, head, nodes, now, k);
      nodes', now', k' := Without(nodes, k), Without(now, k), k;
    }
  }

  lemma {:induction false} SweptEnds(calls: seq<CallEntry>, now: seq<CallEntry>, k: nat)
    ensures SweptTo(calls, calls, 0)
    ensures SweptTo(calls, now, k) && k == |now| ==> now == SweepCalls(calls)
  {
  }

  /** remove_always_return_values_from_list on the ring */
  method RemoveAlwaysFromList(head: ListNode, ghost nodes: seq<ListNode>, ghost calls: seq<CallEntry>)
    returns (ghost nodes': seq<ListNode>)
    requires RepOrdering(head, nodes, calls)
    modifies head`next, head`prev, nodes`next, nodes`prev
    ensures RepOrdering(head, nodes', SweepCalls(calls))
    ensures forall i :: 0 <= i < |nodes'| ==> nodes'[i] in nodes
  {
    nodes' := nodes;
    ghost var now, k: nat := calls, 0;
    SweptEnds(calls, now, k);
    var current := head.next;
    var next := current.next;
    while current != head
      invariant RepOrdering(head, nodes', now) && SweptTo(calls, now, k)
      invariant forall i :: 0 <= i < |nodes'| ==> nodes'[i] in nodes
      invariant current == if k < |nodes'| then nodes'[k] else head
      invariant next == current.next
      decreases |now| - k
    {
      nodes', now, k := SweepCall(current, head, nodes', calls, now, k);
      current := next;
      next := current.next;
    }
    SweptEnds(calls, now, k);
  }

  /** check_for_leftover_values_list (its messages are not modelled) */
  method CheckForLeftoverCalls(head: ListNode, ghost nodes: seq<ListNode>) returns (count: nat)
    requires IsRing(head, nodes)
    ensures count == |nodes|
  {
    count := 0;
    var empty := ListEmpty(head, nodes);
    if !empty {
      var node := head.next;
      while node != head
        invariant count <= |nodes|
        invariant node == if count < |nodes| then nodes[count] else head
        decreases |nodes| - count
      {
        assert nodes[count].next == if count + 1 < |nodes| then nodes[count + 1] else head;
        node := node.next;
        count := count + 1;
      }
    }
  }
}
