/**
 Whole runs of the guarded allocator's block list, and what a leak check at the end of
 a test therefore reports. A realloc is an allocation followed by a release; addresses
 may be reused once they are released.
 */
module BlockRuns {
  import opened Basics

  /** The list without the block `p`. */
  function Remove(s: seq<nat>, p: nat): seq<nat> {
    if s == [] then [] else if s[0] == p then s[1..] else [s[0]] + Remove(s[1..], p)
  }

  lemma RemoveMembers(s: seq<nat>, p: nat)
    requires Distinct(s)
    ensures Distinct(Remove(s, p))
    ensures forall q :: q in Remove(s, p) <==> q in s && q != p
  {
    if s != [] {
      assert s[0] !in s[1..];
      assert s == [s[0]] + s[1..];
      if s[0] != p { RemoveMembers(s[1..], p); }
    }
  }

  lemma {:induction false} RemoveAt(s: seq<nat>, k: nat)
    requires Distinct(s) && k < |s|
    ensures Remove(s, s[k]) == s[..k] + s[k + 1..]
  {
    if k > 0 {
      var t := s[1..];
      RemoveAt(t, k - 1);
      assert t[k - 1] == s[k];
      assert [s[0]] + (t[..k - 1] + t[k..]) == s[..k] + s[k + 1..];
    }
  }

  datatype Op = Alloc(p: nat) | Release(p: nat)

  /** The block list after a run: list_add appends, list_remove takes one node out. */
  function ListAfter(start: seq<nat>, ops: seq<Op>): seq<nat> {
    if ops == [] then start
    else match Last(ops)
      case Alloc(p) => ListAfter(start, Init(ops)) + [p]
      case Release(p) => Remove(ListAfter(start, Init(ops)), p)
  }

  /** malloc returns no address that is in use, and only live blocks are freed. */
  ghost predicate ValidRun(start: seq<nat>, ops: seq<Op>) {
    ops != [] ==>
      && ValidRun(start, Init(ops))
      && match Last(ops)
         case Alloc(p) => p !in ListAfter(start, Init(ops))
         case Release(p) => p in ListAfter(start, Init(ops))
  }

  /** What a run leaves of the blocks that were live before it. */
  ghost function OldBlocks(start: seq<nat>, ops: seq<Op>): seq<nat> {
    if ops == [] then start
    else match Last(ops)
      case Alloc(_) => OldBlocks(start, Init(ops))
      case Release(p) => Remove(OldBlocks(start, Init(ops)), p)
  }

  /** Allocation number i of the run was not released during it. */
  ghost predicate StillLive(ops: seq<Op>, i: int) {
    0 <= i < |ops| && ops[i].Alloc? && forall j :: i < j < |ops| ==> ops[j] != Release(ops[i].p)
  }

  lemma {:induction false} RemoveAbsent(s: seq<nat>, p: nat)
    requires p !in s
    ensures Remove(s, p) == s
  {
    if s != [] {
      RemoveAbsent(s[1..], p);
      assert s == [s[0]] + s[1..];
    }
  }

  lemma {:induction false} RemoveLeft(a: seq<nat>, b: seq<nat>, p: nat)
    requires p in a
    ensures Remove(a + b, p) == Remove(a, p) + b
  {
    assert (a + b)[1..] == a[1..] + b;
    if a[0] != p {
      RemoveLeft(a[1..], b, p);
      assert [a[0]] + (Remove(a[1..], p) + b) == ([a[0]] + Remove(a[1..], p)) + b;
    }
  }

  lemma {:induction false} RemoveRight(a: seq<nat>, b: seq<nat>, p: nat)
    requires p !in a
    ensures Remove(a + b, p) == a + Remove(b, p)
  {
    if a == [] {
      assert a + b == b;
    } else {
      assert (a + b)[1..] == a[1..] + b;
      RemoveRight(a[1..], b, p);
      assert a == [a[0]] + a[1..];
      assert [a[0]] + (a[1..] + Remove(b, p)) == a + Remove(b, p);
    }
  }

  lemma {:induction false} ListDistinct(start: seq<nat>, ops: seq<Op>)
    requires Distinct(start) && ValidRun(start, ops)
    ensures Distinct(ListAfter(start, ops))
  {
    if ops != [] {
      ListDistinct(start, Init(ops));
      if Last(ops).Release? { RemoveMembers(ListAfter(start, Init(ops)), Last(ops).p); }
    }
  }

  /**
   Over every run the list is the old blocks that survived, followed by the blocks the run
   itself allocated and kept, each part in allocation order.
   */
  lemma {:induction false} ListSplits(start: seq<nat>, ops: seq<Op>)
    requires Distinct(start) && ValidRun(start, ops)
    ensures ListAfter(start, ops) == OldBlocks(start, ops) + ListAfter([], ops)
  {
    if ops == [] {
      assert start + [] == start;
    } else {
      var pre, p := Init(ops), Last(ops).p;
      ListSplits(start, pre);
      ListDistinct(start, pre);
      var a, b := OldBlocks(start, pre), ListAfter([], pre);
      if Last(ops).Release? {
        if p in a {
          RemoveLeft(a, b, p);
          NotInBoth(a, b, p);
          RemoveAbsent(b, p);
        } else {
          RemoveRight(a, b, p);
          RemoveAbsent(a, p);
        }
      } else {
        assert (a + b) + [p] == a + (b + [p]);
      }
    }
  }

  lemma NotInBoth(a: seq<nat>, b: seq<nat>, p: nat)
    requires Distinct(a + b) && p in a
    ensures p !in b
  {
    var i :| 0 <= i < |a| && a[i] == p;
    assert (a + b)[i] == p;
    assert forall j :: 0 <= j < |b| ==> (a + b)[|a| + j] == b[j];
  }

  /** A block allocated in the run is listed at its end exactly when it was not released. */
  lemma {:induction false} KeptIff(start: seq<nat>, ops: seq<Op>, p: nat)
    requires Distinct(start) && ValidRun(start, ops)
    ensures p in ListAfter([], ops) <==> exists i :: StillLive(ops, i) && ops[i].p == p
  {
    if ops != [] {
      var pre, op := Init(ops), Last(ops);
      KeptIff(start, pre, p);
      ListSplits(start, pre);
      ListDistinct(start, pre);
      DistinctTail(OldBlocks(start, pre), ListAfter([], pre));
      if op.Release? {
        RemoveMembers(ListAfter([], pre), op.p);
      }
      if i :| StillLive(pre, i) && pre[i].p == p && op != Release(p) {
        assert StillLive(ops, i) && ops[i].p == p;
      }
      if op == Alloc(p) {
        assert StillLive(ops, |ops| - 1);
      }
      if i :| StillLive(ops, i) && ops[i].p == p && i < |ops| - 1 {
        assert forall j :: i < j < |pre| ==> pre[j] == ops[j];
        assert StillLive(pre, i) && pre[i].p == p;
        assert ops[|ops| - 1] != Release(p);
      }
    }
  }

  lemma DistinctTail(a: seq<nat>, b: seq<nat>)
    requires Distinct(a + b)
    ensures Distinct(b)
  {
    assert forall j :: 0 <= j < |b| ==> (a + b)[|a| + j] == b[j];
  }

  lemma {:induction false} OldBlocksDistinct(start: seq<nat>, ops: seq<Op>)
    requires Distinct(start)
    ensures Distinct(OldBlocks(start, ops))
  {
    if ops != [] {
      OldBlocksDistinct(start, Init(ops));
      RemoveMembers(OldBlocks(start, Init(ops)), Last(ops).p);
    }
  }

  /** While it is still listed, the last old block stays the last of the old blocks. */
  lemma {:induction false} OldBlocksEnd(start: seq<nat>, ops: seq<Op>)
    requires Distinct(start) && start != [] && start[|start| - 1] in OldBlocks(start, ops)
    ensures var old' := OldBlocks(start, ops);
      Distinct(old') && old' != [] && old'[|old'| - 1] == start[|start| - 1]
  {
    if ops != [] && Last(ops).Release? {
      var pre, p, z := OldBlocks(start, Init(ops)), Last(ops).p, start[|start| - 1];
      assert z in pre by { if z !in pre { RemoveOnlyShrinks(pre, p, z); } }
      OldBlocksEnd(start, Init(ops));
      RemoveMembers(pre, p);
      RemoveKeepsEnd(pre, p);
    } else if ops != [] {
      OldBlocksEnd(start, Init(ops));
    }
  }

  lemma RemoveOnlyShrinks(s: seq<nat>, p: nat, z: nat)
    ensures z in Remove(s, p) ==> z in s
  {
    if s != [] && s[0] != p { RemoveOnlyShrinks(s[1..], p, z); }
  }

  lemma {:induction false} RemoveKeepsEnd(s: seq<nat>, p: nat)
    requires s != [] && s[|s| - 1] != p
    ensures var r := Remove(s, p); r != [] && r[|r| - 1] == s[|s| - 1]
  {
    if s[0] != p && |s| > 1 { RemoveKeepsEnd(s[1..], p); }
  }

  /** A run continued is a run from where the first part ended. */
  lemma {:induction false} RunAppend(start: seq<nat>, a: seq<Op>, b: seq<Op>)
    requires ValidRun(start, a + b)
    ensures ValidRun(start, a) && ValidRun(ListAfter(start, a), b)
    ensures ListAfter(start, a + b) == ListAfter(ListAfter(start, a), b)
    decreases |b|
  {
    if b == [] {
      assert a + b == a;
    } else {
      assert Init(a + b) == a + Init(b) && Last(a + b) == Last(b);
      RunAppend(start, a, Init(b));
    }
  }

  lemma {:induction false} RunSnoc(start: seq<nat>, ops: seq<Op>, op: Op)
    ensures ListAfter(start, ops + [op]) ==
            match op case Alloc(p) => ListAfter(start, ops) + [p] case Release(p) => Remove(ListAfter(start, ops), p)
    ensures ValidRun(start, ops + [op]) <==>
            ValidRun(start, ops) && (op.Alloc? <==> op.p !in ListAfter(start, ops))
  {
    assert Init(ops + [op]) == ops && Last(ops + [op]) == op;
  }

  /**
   The leak law: for every run after a check point, taken at the end of the list and still listed, the
   blocks behind it are exactly those allocated in the run and not released. So nothing is listed behind
   it exactly when every block allocated since was released.
   */
  lemma {:induction false} LeakCheck(start: seq<nat>, ops: seq<Op>)
    requires Distinct(start) && ValidRun(start, ops)
    requires start != [] ==> Last(start) in OldBlocks(start, ops)
    ensures var list := ListAfter(start, ops); var k := |OldBlocks(start, ops)|;
      && k <= |list| && list[..k] == OldBlocks(start, ops) && list[k..] == ListAfter([], ops)
      && (if start == [] then k == 0 else k > 0 && list[k - 1] == Last(start))
      && (|list| == k <==> forall i :: !StillLive(ops, i))
  {
    ListSplits(start, ops);
    var b := ListAfter([], ops);
    if start == [] {
      NoOldBlocks(ops);
    } else {
      OldBlocksEnd(start, ops);
    }
    if b != [] {
      KeptIff(start, ops, b[0]);
    }
    forall i | StillLive(ops, i) ensures b != [] {
      KeptIff(start, ops, ops[i].p);
    }
  }

  lemma NoOldBlocks(ops: seq<Op>)
    ensures OldBlocks([], ops) == []
  {
  }
}
