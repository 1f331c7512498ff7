/**
 Whole tests on the guarded allocator of FSBL/cmocka.c: a check point is taken, the test allocates, frees,
 reallocates and writes to memory in any order, and the leak check ends it, as in cmocka_run_one_test_or_fixture.
 */
module AllocatorRuns {
  import opened Basics
  import opened Rings
  import opened BlockLayout
  import opened BlockRuns
  import opened BlockLists
  import opened GuardedMemory
  import opened TestAllocator

  /** What a test does: a request to the allocator with the block libc malloc returns, or a store anywhere in memory. */
  datatype Request =
    | AskMalloc(size: nat, block: nat)
    | AskFree(ptr: nat)
    | AskRealloc(ptr: nat, size: nat, block: nat)
    | Store(at: nat, value: byte)

  /** What the allocator may rely on: pointers handed in are NULL or live, and libc malloc returns unused memory. */
  predicate Admissible(a: Allocator, q: Request)
    requires a.memory.abi.Sane()
    reads a.memory`infos
  {
    match q
    case AskMalloc(size, block) => a.CanRequest(size, block)
    case AskFree(ptr) => ptr == 0 || ptr in a.memory.infos
    case AskRealloc(ptr, size, block) => (ptr == 0 || ptr in a.memory.infos) && a.CanRequest(size, block)
    case Store(at, _) => at < a.memory.bytes.Length
  }

  // ---- What a request does to records and bytes ----

  datatype State = State(infos: map<nat, Info>, bytes: seq<byte>)

  ghost function StateOf(a: Allocator): State
    reads a.memory`infos, a.memory.bytes
  {
    State(a.memory.infos, a.memory.bytes[..])
  }

  /** libc malloc was asked for no more than size_t holds, and returned NULL or memory that no block uses. */
  ghost predicate MayAsk(abi: Abi, s: State, size: nat, block: nat) {
    var total := size + 32 + abi.info + Pow2(abi.shift);
    && size < Pow2(abi.bits)
    && (total < Pow2(abi.bits) && block != 0 ==>
          && block + total <= |s.bytes|
          && forall p :: p in s.infos ==> Apart(s.infos[p], Info(block, total, size)))
  }

  /** `Admissible` on states. */
  ghost predicate Allowed(abi: Abi, s: State, q: Request) {
    match q
    case AskMalloc(size, block) => MayAsk(abi, s, size, block)
    case AskFree(ptr) => ptr == 0 || ptr in s.infos
    case AskRealloc(ptr, size, block) => (ptr == 0 || ptr in s.infos) && MayAsk(abi, s, size, block)
    case Store(at, _) => at < |s.bytes|
  }

  lemma AdmissibleIs(a: Allocator, q: Request)
    requires a.Valid()
    ensures Admissible(a, q) <==> Allowed(a.memory.abi, StateOf(a), q)
  {
    if q.AskMalloc? || q.AskRealloc? {
      if q.size < Pow2(a.memory.abi.bits) { OverflowCheckIsExact(a.memory.abi, q.size); }
    }
  }

  /** A block is allocated and filled, or the request fails and changes nothing. */
  ghost predicate MallocNext(abi: Abi, s: State, size: nat, block: nat, r: Result, s': State)
    requires abi.shift <= abi.bits
  {
    if FitsIn(abi, size, block) then
      var p, info := PayloadAt(abi, block), Info(block, AllocateSize(abi, size), size);
      r == Pointer(p) && s'.infos == s.infos[p := info] && Filled(s.bytes, s'.bytes, p, info)
    else
      r == Failed && s' == s
  }

  /** A live block with intact guards is wiped and forgotten, one with a damaged guard fails the test. */
  ghost predicate FreeNext(s: State, ptr: nat, r: Result, s': State) {
    if ptr == 0 then
      r == NullPointer && s' == s
    else if ptr in s.infos && IntactIn(s.bytes, ptr, s.infos[ptr].size) then
      r == NullPointer && s'.infos == s.infos - {ptr} && Wiped(s.bytes, s'.bytes, s.infos[ptr])
    else
      r == Failed && s' == s
  }

  /** The new block holds the payload as far as both reach; damaged guards fail the test with the new block recorded. */
  ghost predicate MoveNext(abi: Abi, s: State, ptr: nat, size: nat, block: nat, r: Result, s': State)
    requires abi.shift <= abi.bits
  {
    if !FitsIn(abi, size, block) then
      r == Failed && s' == s
    else
      var p, info := PayloadAt(abi, block), Info(block, AllocateSize(abi, size), size);
      if ptr in s.infos && IntactIn(s.bytes, ptr, s.infos[ptr].size) then
        && r == Pointer(p) && s'.infos == s.infos[p := info] - {ptr}
        && MovedTo(s.bytes, s'.bytes, ptr, s.infos[ptr], p, info)
      else
        r == Failed && s'.infos == s.infos[p := info] && SameOutside(s.bytes, s'.bytes, info)
  }

  /** What every request does, and what it is answered. */
  ghost predicate Next(abi: Abi, s: State, q: Request, r: Result, s': State)
    requires abi.shift <= abi.bits
  {
    match q
    case AskMalloc(size, block) => MallocNext(abi, s, size, block, r, s')
    case AskFree(ptr) => FreeNext(s, ptr, r, s')
    case AskRealloc(ptr, size, block) =>
      if ptr == 0 then MallocNext(abi, s, size, block, r, s')
      else if size == 0 then FreeNext(s, ptr, r, s')
      else MoveNext(abi, s, ptr, size, block, r, s')
    case Store(at, value) => at < |s.bytes| && r == NullPointer && s' == State(s.infos, s.bytes[at := value])
  }

  /**
   Exactly when a request fails the test: the block does not fit or libc malloc returned NULL, or a block that
   is to be freed has a byte other than 0xEF in its guards.
   */
  lemma FailsIff(abi: Abi, s: State, q: Request, r: Result, s': State)
    requires abi.Sane() && Allowed(abi, s, q) && Next(abi, s, q, r, s')
    ensures r.Failed? <==>
      || ((q.AskMalloc? || (q.AskRealloc? && (q.ptr == 0 || q.size > 0))) &&
          (q.size + 32 + abi.info + Pow2(abi.shift) >= Pow2(abi.bits) || q.block == 0))
      || ((q.AskFree? || q.AskRealloc?) && q.ptr != 0 && q.ptr in s.infos &&
          !IntactIn(s.bytes, q.ptr, s.infos[q.ptr].size))
  {
  }

  /** Request i was allowed in state i and led to state i + 1. */
  ghost predicate StepOf(abi: Abi, requests: seq<Request>, results: seq<Result>, trace: seq<State>, i: nat) {
    && abi.shift <= abi.bits && i < |requests| && i < |results| && i + 1 < |trace|
    && Allowed(abi, trace[i], requests[i]) && Next(abi, trace[i], requests[i], results[i], trace[i + 1])
  }

  /** `trace` holds the states of a run: each request was allowed and did what it does. */
  ghost predicate Traced(abi: Abi, requests: seq<Request>, results: seq<Result>, trace: seq<State>) {
    |trace| == |results| + 1 && forall i: nat :: i < |results| ==> StepOf(abi, requests, results, trace, i)
  }

  lemma TracedNext(abi: Abi, requests: seq<Request>, results: seq<Result>, trace: seq<State>, r: Result, s: State)
    requires abi.shift <= abi.bits && |results| < |requests| && Traced(abi, requests, results, trace)
    requires var q := requests[|results|]; Allowed(abi, Last(trace), q) && Next(abi, Last(trace), q, r, s)
    ensures Traced(abi, requests, results + [r], trace + [s])
  {
    forall i: nat | i < |results| ensures StepOf(abi, requests, results + [r], trace + [s], i) {
      assert StepOf(abi, requests, results, trace, i);
    }
  }

  /** What a request that was answered with `r` did to the list of blocks. */
  ghost function OpsOf(abi: Abi, q: Request, r: Result): seq<Op>
    requires abi.shift <= abi.bits
  {
    match q
    case AskMalloc(_, _) => if r.Pointer? then [Alloc(r.p)] else []
    case AskFree(ptr) => if ptr != 0 && !r.Failed? then [Release(ptr)] else []
    case AskRealloc(ptr, size, block) =>
      (if Allocates(abi, ptr, size, block, r) then [Alloc(PayloadAt(abi, block))] else []) +
      (if ptr != 0 && !r.Failed? then [Release(ptr)] else [])
    case Store(_, _) => []
  }

  /** _test_realloc allocates when it succeeds, and also when it then finds the old guards damaged. */
  ghost predicate Allocates(abi: Abi, ptr: nat, size: nat, block: nat, r: Result) {
    r.Pointer? || (r.Failed? && ptr != 0 && size != 0 && FitsIn(abi, size, block))
  }

  ghost function Effects(abi: Abi, requests: seq<Request>, results: seq<Result>): seq<Op>
    requires abi.shift <= abi.bits && |results| <= |requests|
    decreases |results|
  {
    if results == [] then []
    else
      var n := |results| - 1;
      Effects(abi, requests, results[..n]) + OpsOf(abi, requests[n], results[n])
  }

  lemma EffectsNext(abi: Abi, requests: seq<Request>, results: seq<Result>, r: Result)
    requires abi.shift <= abi.bits && |results| < |requests|
    ensures Effects(abi, requests, results + [r]) ==
            Effects(abi, requests, results) + OpsOf(abi, requests[|results|], r)
  {
    assert (results + [r])[..|results|] == results;
  }

  // ---- Requests that keep the check point ----

  ghost predicate Releases(q: Request, p: nat) {
    (q.AskFree? || q.AskRealloc?) && q.ptr == p
  }

  lemma {:induction false} NeverReleased(abi: Abi, requests: seq<Request>, results: seq<Result>, p: nat)
    requires abi.shift <= abi.bits && |results| <= |requests|
    requires forall i :: 0 <= i < |requests| ==> !Releases(requests[i], p)
    ensures Release(p) !in Effects(abi, requests, results)
    decreases |results|
  {
    if results != [] { NeverReleased(abi, requests, results[..|results| - 1], p); }
  }

  lemma {:induction false} StaysListed(start: seq<nat>, ops: seq<Op>, p: nat)
    requires Distinct(start) && p in start && Release(p) !in ops
    ensures p in OldBlocks(start, ops)
  {
    if ops != [] {
      assert ops == Init(ops) + [Last(ops)];
      StaysListed(start, Init(ops), p);
      OldBlocksDistinct(start, Init(ops));
      RemoveMembers(OldBlocks(start, Init(ops)), Last(ops).p);
    }
  }

  // ---- One request ----

  method DoFree(a: Allocator, ptr: nat, ghost c: ListNode, ghost before: seq<Op>) returns (r: Result)
    requires a.Valid() && (ptr == 0 || ptr in a.memory.infos) && IsCheckPoint(a.list.head, a.list.view, c, before)
    modifies a.memory`infos, a.memory.bytes, a.list, a.list.fp
    ensures a.Valid() && a.list.fp == old(a.list.fp) && IsCheckPoint(a.list.head, a.list.view, c, before)
    ensures Since(a.list.view, before) == old(Since(a.list.view, before)) + OpsOf(a.memory.abi, AskFree(ptr), r)
    ensures FreeNext(old(StateOf(a)), ptr, r, StateOf(a))
  {
    ghost var v := a.list.view;
    var ok;
    ghost var k;
    ok, k := a.Free(ptr);
    if ok && ptr != 0 { ShrunkCheckPoint(a.list.head, v, a.list.view, ptr, k, c, before); }
    r := if ok then NullPointer else Failed;
  }

  method DoMalloc(a: Allocator, size: nat, block: nat, ghost c: ListNode, ghost before: seq<Op>) returns (r: Result)
    requires a.Valid() && a.CanRequest(size, block) && IsCheckPoint(a.list.head, a.list.view, c, before)
    modifies a.memory`infos, a.memory.bytes, a.list, a.list.fp
    ensures a.Valid() && fresh(a.list.fp - old(a.list.fp)) && IsCheckPoint(a.list.head, a.list.view, c, before)
    ensures Since(a.list.view, before) ==
            old(Since(a.list.view, before)) + OpsOf(a.memory.abi, AskMalloc(size, block), r)
    ensures MallocNext(a.memory.abi, old(StateOf(a)), size, block, r, StateOf(a))
  {
    ghost var v := a.list.view;
    r := a.Malloc(size, block);
    if r.Pointer? { GrownCheckPoint(a.list.head, v, a.list.view, r.p, c, before); }
  }

  /** What _test_realloc does to the list: a node is added, a node is taken out, both, or neither. */
  ghost predicate ReallocViews(abi: Abi, v: View, v': View, q: Request, r: Result, k: nat)
    requires abi.shift <= abi.bits && q.AskRealloc?
  {
    var p := PayloadAt(abi, q.block);
    var released := q.ptr != 0 && !r.Failed?;
    if Allocates(abi, q.ptr, q.size, q.block, r) then
      p !in v.blocks && if released then v.Replaced(v', p, q.ptr, k) else v.Grown(v', p)
    else
      if released then v.Shrunk(v', q.ptr, k) else v' == v
  }

  lemma ReplacedCheckPoint(head: ListNode, v: View, v': View, p: nat, q: nat, k: nat, c: ListNode, before: seq<Op>)
    requires v.Valid() && |v.nodes| == |v.blocks| && Distinct(v.blocks) && IsCheckPoint(head, v, c, before)
    requires p !in v.blocks && v.Replaced(v', p, q, k)
    ensures IsCheckPoint(head, v', c, before)
    ensures Since(v', before) == Since(v, before) + [Alloc(p), Release(q)]
  {
    var v1 := v.Add(Last(v'.nodes), p);
    GrownCheckPoint(head, v, v1, p, c, before);
    AddValid(v, Last(v'.nodes), p);
    ShrunkCheckPoint(head, v1, v', q, k, c, before);
  }

  /** Any outcome of _test_realloc keeps the check point. */
  lemma ReallocCheckPoint(abi: Abi, head: ListNode, v: View, v': View, q: Request, r: Result, k: nat, c: ListNode,
                          before: seq<Op>)
    requires abi.shift <= abi.bits && q.AskRealloc? && v.Valid() && |v.nodes| == |v.blocks| && Distinct(v.blocks)
    requires IsCheckPoint(head, v, c, before)
    requires ReallocViews(abi, v, v', q, r, k)
    ensures IsCheckPoint(head, v', c, before)
    ensures Since(v', before) == Since(v, before) + OpsOf(abi, q, r)
  {
    var p := PayloadAt(abi, q.block);
    if Allocates(abi, q.ptr, q.size, q.block, r) {
      if q.ptr != 0 && !r.Failed? {
        ReplacedCheckPoint(head, v, v', p, q.ptr, k, c, before);
      } else {
        GrownCheckPoint(head, v, v', p, c, before);
      }
    } else if q.ptr != 0 && !r.Failed? {
      ShrunkCheckPoint(head, v, v', q.ptr, k, c, before);
    }
  }

  method ReallocOf(a: Allocator, q: Request) returns (r: Result, ghost k: nat)
    requires a.Valid() && q.AskRealloc? && Admissible(a, q)
    modifies a.memory`infos, a.memory.bytes, a.list, a.list.fp
    ensures fresh(a.list.fp - old(a.list.fp))
    ensures a.Valid()
    ensures ReallocViews(a.memory.abi, old(a.list.view), a.list.view, q, r, k)
    ensures Next(a.memory.abi, old(StateOf(a)), q, r, StateOf(a))
  {
    ghost var p;
    r, p, k := a.Realloc(q.ptr, q.size, q.block);
  }

  method DoRealloc(a: Allocator, q: Request, ghost c: ListNode, ghost before: seq<Op>) returns (r: Result)
    requires a.Valid() && q.AskRealloc? && Admissible(a, q) && IsCheckPoint(a.list.head, a.list.view, c, before)
    modifies a.memory`infos, a.memory.bytes, a.list, a.list.fp
    ensures a.Valid() && fresh(a.list.fp - old(a.list.fp)) && IsCheckPoint(a.list.head, a.list.view, c, before)
    ensures Since(a.list.view, before) == old(Since(a.list.view, before)) + OpsOf(a.memory.abi, q, r)
    ensures Next(a.memory.abi, old(StateOf(a)), q, r, StateOf(a))
  {
    ghost var v := a.list.view;
    ghost var k;
    r, k := ReallocOf(a, q);
    ReallocCheckPoint(a.memory.abi, a.list.head, v, a.list.view, q, r, k, c, before);
  }

  /** `ops` happened since the check point `c` was taken at the end of `before`. */
  ghost predicate Tracks(a: Allocator, c: ListNode, before: seq<Op>, ops: seq<Op>)
    reads a.memory`infos, a.list, a.list.fp
  {
    a.Valid() && IsCheckPoint(a.list.head, a.list.view, c, before) && Since(a.list.view, before) == ops
  }

  method Perform(a: Allocator, q: Request, ghost c: ListNode, ghost before: seq<Op>, ghost ops: seq<Op>)
    returns (r: Result)
    requires Tracks(a, c, before, ops) && Admissible(a, q)
    modifies a.memory`infos, a.memory.bytes, a.list, a.list.fp
    ensures fresh(a.list.fp - old(a.list.fp)) && Tracks(a, c, before, ops + OpsOf(a.memory.abi, q, r))
    ensures Next(a.memory.abi, old(StateOf(a)), q, r, StateOf(a))
  {
    match q
    case AskMalloc(size, block) => r := DoMalloc(a, size, block, c, before);
    case AskFree(ptr) => r := DoFree(a, ptr, c, before);
    case AskRealloc(_, _, _) => r := DoRealloc(a, q, c, before);
    case Store(at, value) =>
      ghost var m := a.memory.bytes[..];
      a.memory.bytes[at] := value;
      assert a.memory.bytes[..] == m[at := value];
      r := NullPointer;
  }

  // ---- A whole test ----

  /**
   How a test ends: with the leak check, by a request that failed, or by one the allocator's callers must not make.
   */
  datatype Ending = Passed | Leaked | TestFailed | Undefined

  ghost predicate Served(requests: seq<Request>, results: seq<Result>) {
    |results| == |requests| && forall i :: 0 <= i < |results| ==> !results[i].Failed?
  }

  /** Only the last result may be a failure, and `failed` says whether it is. */
  ghost predicate StoppedBy(results: seq<Result>, failed: bool) {
    && (failed <==> results != [] && Last(results).Failed?)
    && forall i :: 0 <= i < |results| - 1 ==> !results[i].Failed?
  }

  ghost predicate NoneFailed(results: seq<Result>) {
    forall i :: 0 <= i < |results| ==> !results[i].Failed?
  }

  lemma StoppedNext(results: seq<Result>, r: Result)
    requires NoneFailed(results)
    ensures if r.Failed? then StoppedBy(results + [r], true) else NoneFailed(results + [r])
  {
  }

  /** A test in progress: what it did to the list is tracked, what it did to records and bytes is traced. */
  ghost predicate Running(a: Allocator, c: ListNode, before: seq<Op>, requests: seq<Request>, results: seq<Result>,
                          trace: seq<State>)
    reads a.memory`infos, a.memory.bytes, a.list, a.list.fp
  {
    && a.Valid() && |results| <= |requests|
    && Tracks(a, c, before, Effects(a.memory.abi, requests, results))
    && Traced(a.memory.abi, requests, results, trace) && Last(trace) == StateOf(a)
  }

  method PerformNext(a: Allocator, requests: seq<Request>, n: nat, ghost results: seq<Result>, ghost trace: seq<State>,
                     ghost c: ListNode, ghost before: seq<Op>)
    returns (r: Result)
    requires Running(a, c, before, requests, results, trace)
    requires n == |results| < |requests| && Allowed(a.memory.abi, Last(trace), requests[n])
    modifies a.memory`infos, a.memory.bytes, a.list, a.list.fp
    ensures fresh(a.list.fp - old(a.list.fp))
    ensures Running(a, c, before, requests, results + [r], trace + [StateOf(a)])
  {
    AdmissibleIs(a, requests[n]);
    r := Perform(a, requests[n], c, before, Effects(a.memory.abi, requests, results));
    EffectsNext(a.memory.abi, requests, results, r);
    TracedNext(a.memory.abi, requests, results, trace, r, StateOf(a));
  }

  /** Whether the next request may be made. */
  method MayGo(a: Allocator, requests: seq<Request>, n: nat) returns (ok: bool)
    requires a.Valid()
    ensures ok <==> n < |requests| && Allowed(a.memory.abi, StateOf(a), requests[n])
  {
    ok := n < |requests|;
    if ok {
      AdmissibleIs(a, requests[n]);
      ok := Admissible(a, requests[n]);
    }
  }

  /** The requests in order, up to the first that fails or is not admissible; `trace` are the states in between. */
  method PerformAll(a: Allocator, requests: seq<Request>, ghost c: ListNode, ghost before: seq<Op>)
    returns (results: seq<Result>, failed: bool, ghost trace: seq<State>)
    requires Tracks(a, c, before, [])
    modifies a.memory`infos, a.memory.bytes, a.list, a.list.fp
    ensures fresh(a.list.fp - old(a.list.fp))
    ensures StoppedBy(results, failed)
    ensures Running(a, c, before, requests, results, trace) && trace[0] == old(StateOf(a))
    ensures |results| < |requests| && !failed ==> !Allowed(a.memory.abi, Last(trace), requests[|results|])
  {
    results, failed, trace := [], false, [StateOf(a)];
    var ok := MayGo(a, requests, 0);
    while ok
      invariant fresh(a.list.fp - old(a.list.fp))
      invariant NoneFailed(results)
      invariant Running(a, c, before, requests, results, trace) && trace[0] == old(StateOf(a))
      invariant ok <==> |results| < |requests| && Allowed(a.memory.abi, Last(trace), requests[|results|])
      decreases |requests| - |results|
    {
      var r := PerformNext(a, requests, |results|, results, trace, c, before);
      StoppedNext(results, r);
      results, trace := results + [r], trace + [StateOf(a)];
      if r.Failed? {
        return results, true, trace;
      }
      ok := MayGo(a, requests, |results|);
    }
  }

  /** A test that never frees the block its check point stands on keeps it listed. */
  lemma KeepsCheckPoint(abi: Abi, v: View, before: seq<Op>, requests: seq<Request>, results: seq<Result>)
    requires abi.shift <= abi.bits && |results| <= |requests| && before <= v.history && v.Valid()
    requires Since(v, before) == Effects(abi, requests, results)
    requires var start := ListAfter([], before);
      start != [] ==> forall i :: 0 <= i < |requests| ==> !Releases(requests[i], Last(start))
    ensures StillListed(v, before)
  {
    var start := ListAfter([], before);
    assert v.history == before + Since(v, before);
    RunAppend([], before, Since(v, before));
    ListDistinct([], before);
    if start != [] {
      NeverReleased(abi, requests, results, Last(start));
      StaysListed(start, Since(v, before), Last(start));
    }
  }

  method TakeCheckPoint(a: Allocator) returns (c: ListNode)
    requires a.Valid()
    ensures Tracks(a, c, a.list.view.history, [])
  {
    c := a.list.CheckPoint();
  }

  /** The leak check after requests that were all served. */
  method EndTest(a: Allocator, c: ListNode, ghost before: seq<Op>, ghost requests: seq<Request>,
                 ghost results: seq<Result>)
    returns (leaked: bool)
    requires a.Valid() && |results| <= |requests|
    requires var start := ListAfter([], before);
      start != [] ==> forall i :: 0 <= i < |requests| ==> !Releases(requests[i], Last(start))
    requires Tracks(a, c, before, Effects(a.memory.abi, requests, results))
    modifies a.memory`infos, a.memory.bytes, a.list, a.list.fp
    ensures a.Valid() && a.list.fp == old(a.list.fp)
    ensures leaked <==> exists i :: StillLive(Effects(a.memory.abi, requests, results), i)
    ensures !leaked ==> a.list.view.history == before + Effects(a.memory.abi, requests, results)
  {
    KeepsCheckPoint(a.memory.abi, a.list.view, before, requests, results);
    assert a.list.view.history == before + Since(a.list.view, before);
    leaked := a.FailIfLeaked(c, before);
  }

  /**
   A test that never frees the block its check point stands on. It goes through the states of `trace`, request by
   request, until one fails the test or must not be made. If all are served, the test passes exactly when every
   block it allocated was released by it.
   */
  method RunTest(a: Allocator, requests: seq<Request>)
    returns (results: seq<Result>, ending: Ending, ghost trace: seq<State>)
    requires a.Valid()
    requires var blocks := a.list.view.blocks;
      blocks != [] ==> forall i :: 0 <= i < |requests| ==> !Releases(requests[i], Last(blocks))
    modifies a.memory`infos, a.memory.bytes, a.list, a.list.fp
    ensures a.Valid() && fresh(a.list.fp - old(a.list.fp))
    ensures Traced(a.memory.abi, requests, results, trace) && trace[0] == old(StateOf(a))
    ensures forall i :: 0 <= i < |results| - 1 ==> !results[i].Failed?
    ensures ending == TestFailed <==> results != [] && Last(results).Failed?
    ensures ending == Undefined <==> ending != TestFailed && |results| < |requests|
    ensures ending == Undefined ==> !Allowed(a.memory.abi, Last(trace), requests[|results|])
    ensures ending == Passed <==>
      Served(requests, results) && forall i :: !StillLive(Effects(a.memory.abi, requests, results), i)
    ensures ending == Passed ==>
      a.list.view.history == old(a.list.view.history) + Effects(a.memory.abi, requests, results)
  {
    ghost var before := a.list.view.history;
    var c := TakeCheckPoint(a);
    var failed;
    results, failed, trace := PerformAll(a, requests, c, before);
    if failed {
      return results, TestFailed, trace;
    }
    if |results| < |requests| {
      return results, Undefined, trace;
    }
    var leaked := EndTest(a, c, before, requests, results);
    ending := if leaked then Leaked else Passed;
  }
}
