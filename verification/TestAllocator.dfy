/**
 The guarded test allocator of FSBL/cmocka.c: _test_malloc, _test_free, _test_realloc on the
 memory and the ring of allocated blocks together, and the check-point based leak check with its
 clean-up loop. The address a libc malloc returns is a parameter.
 */
module TestAllocator {
  import opened Basics
  import opened Rings
  import opened BlockLayout
  import opened BlockRuns
  import opened BlockLists
  import opened GuardedMemory

  /** Failed: an assertion or a guard check ended the test. */
  datatype Result = NullPointer | Pointer(p: nat) | Failed

  /** No overflow, and libc malloc returned a block. */
  predicate FitsIn(abi: Abi, size: nat, block: nat) { size + abi.Overhead() < Pow2(abi.bits) && block != 0 }

  /** The recorded blocks are the listed ones. */
  ghost predicate Listed(infos: map<nat, Info>, blocks: seq<nat>) {
    forall p :: p in infos <==> p in blocks
  }

  lemma ListedAppend(infos: map<nat, Info>, blocks: seq<nat>, p: nat, info: Info)
    requires Listed(infos, blocks)
    ensures Listed(infos[p := info], blocks + [p])
  {
  }

  lemma ListedWithout(infos: map<nat, Info>, blocks: seq<nat>, k: nat)
    requires Listed(infos, blocks) && k < |blocks| && Distinct(blocks)
    ensures Listed(infos - {blocks[k]}, Without(blocks, k))
  {
    WithoutMembers(blocks, k);
  }

  lemma IntactSplit(m: seq<byte>, infos: map<nat, Info>, blocks: seq<nat>, k: nat)
    requires Listed(infos, blocks) && k < |blocks|
    ensures AllIntact(m, infos, blocks[k..]) <==>
            IntactIn(m, blocks[k], infos[blocks[k]].size) && AllIntact(m, infos, blocks[k + 1..])
  {
    assert blocks[k..] == [blocks[k]] + blocks[k + 1..];
    AllIntactCons(m, infos, blocks[k], blocks[k + 1..]);
  }

  /** Releasing block k leaves the guards of the blocks behind it as they were. */
  lemma IntactAfter(abi: Abi, m: seq<byte>, m': seq<byte>, infos: map<nat, Info>, blocks: seq<nat>, k: nat)
    requires Sound(abi, infos, |m|) && Listed(infos, blocks) && Distinct(blocks) && k < |blocks|
    requires SameOutside(m, m', infos[blocks[k]])
    ensures AllIntact(m', infos - {blocks[k]}, Without(blocks, k)[k..]) <==> AllIntact(m, infos, blocks[k + 1..])
  {
    var ps := blocks[k + 1..];
    assert Without(blocks, k)[k..] == ps;
    assert forall i :: 0 <= i < |ps| ==> ps[i] == blocks[k + 1 + i];
    OthersIntact(abi, m, m', infos, blocks[k], ps);
  }

  lemma TailOfIntact(m: seq<byte>, infos: map<nat, Info>, blocks: seq<nat>, k: nat)
    requires k <= |blocks|
    ensures AllIntact(m, infos, blocks[0..]) ==> AllIntact(m, infos, blocks[k..])
  {
    assert forall i :: 0 <= i < |blocks| - k ==> blocks[k..][i] == blocks[0..][k + i];
  }

  /** What _test_realloc of the live block `p` does to the bytes; `info` describes the new block. */
  ghost predicate MovedTo(m: seq<byte>, m': seq<byte>, p: nat, was: Info, q: nat, info: Info) {
    && Carried(m, m', p, q, if info.size < was.size then info.size else was.size)
    && IntactIn(m', q, info.size) && SameOutsideBoth(m, m', was, info)
  }

  /** Byte by byte: the payload of `n'` bytes at `q` starts like that of `n` bytes at `p`, as far as both reach. */
  ghost predicate SamePayload(m: seq<byte>, m': seq<byte>, p: nat, n: nat, q: nat, n': nat) {
    forall j :: q <= j < q + n && j < q + n' ==> j < |m'| && p + (j - q) < |m| && m'[j] == m[p + (j - q)]
  }

  /** A block that was moved kept every payload byte it still has room for. */
  lemma PayloadMoved(m: seq<byte>, m': seq<byte>, p: nat, was: Info, q: nat, info: Info, i: nat)
    requires MovedTo(m, m', p, was, q, info)
    ensures i < was.size && i < info.size ==> p + i < |m| && q + i < |m'| && m'[q + i] == m[p + i]
    ensures SamePayload(m, m', p, was.size, q, info.size)
  {
    var n := if info.size < was.size then info.size else was.size;
    forall j | q <= j < q + n ensures m'[j] == m[p + (j - q)] {
      assert m'[q..q + n][j - q] == m[p..p + n][j - q];
    }
    if i < n { assert m'[q + i] == m[p + (q + i - q)]; }
  }

  /** The two halves of _test_realloc together. */
  lemma ReallocMoves(abi: Abi, v: View, v1: View, v2: View, m: seq<byte>, m1: seq<byte>, m2: seq<byte>,
                     p: nat, from: Info, q: nat, to: Info, k: nat)
    requires v.Grown(v1, q) && v1.Shrunk(v2, p, k) && |v.nodes| == |v.blocks| && p != q
    requires LaidOut(abi, p, from, |m|) && Apart(to, from)
    requires SameOutside(m, m1, to) && MovedTo(m1, m2, p, from, q, to)
    ensures v.Replaced(v2, q, p, k) && MovedTo(m, m2, p, from, q, to)
  {
    ReplacedViews(v, v1, v2, q, p, k);
    MovedAfterPlacing(abi, m, m1, m2, p, q, from, to,
                      if to.size < from.size then to.size else from.size);
  }

  class Allocator {
    const memory: Memory
    const list: BlockList

    ghost predicate Valid()
      reads memory`infos, list, list.fp
    {
      && memory.Valid() && list.Valid() && list.offset == GUARD + memory.abi.info
      && Listed(memory.infos, list.view.blocks)
    }

    /** A fresh process: no block is listed. */
    constructor (abi: Abi, size: nat)
      requires abi.Sane() && size <= Pow2(abi.bits)
      ensures Valid() && list.view == View([], [], []) && memory.infos == map[]
      ensures memory.bytes.Length == size && memory.abi == abi
      ensures fresh(memory) && fresh(memory.bytes) && fresh(list) && fresh(list.fp)
    {
      memory := new Memory(abi, size);
      list := new BlockList(GUARD + abi.info);
    }

    /** The request is one _test_malloc can serve. */
    predicate Fits(size: nat, block: nat) { FitsIn(memory.abi, size, block) }

    /** What the callers of _test_malloc and of libc malloc guarantee. */
    predicate CanRequest(size: nat, block: nat)
      requires memory.abi.Sane()
      reads memory`infos
    {
      && size < Pow2(memory.abi.bits)
      && (AllocateSize(memory.abi, size) > size && block != 0 ==>
            memory.Available(block, AllocateSize(memory.abi, size)))
    }

    /** _test_malloc */
    method Malloc(size: nat, block: nat) returns (r: Result)
      requires Valid() && CanRequest(size, block)
      modifies memory`infos, memory.bytes, list, list.fp
      ensures fresh(list.fp - old(list.fp))
      ensures Valid()
      ensures r == if Fits(size, block) then Pointer(PayloadAt(memory.abi, block)) else Failed
      ensures r.Failed? ==>
        memory.infos == old(memory.infos) && list.view == old(list.view) && memory.bytes[..] == old(memory.bytes[..])
      ensures r.Pointer? ==>
        && r.p !in old(memory.infos)
        && memory.infos == old(memory.infos)[r.p := Info(block, AllocateSize(memory.abi, size), size)]
        && old(list.view).Grown(list.view, r.p)
        && Filled(old(memory.bytes[..]), memory.bytes[..], r.p, memory.infos[r.p])
    {
      var placed := memory.Place(size, block);
      if placed.None? {
        return Failed;
      }
      ListedAppend(old(memory.infos), list.view.blocks, placed.value, memory.infos[placed.value]);
      list.Link(placed.value);
      r := Pointer(placed.value);
    }

    /**
     _test_free of a live block, which is number k of the list. `Unlink` overwrites the node the free pattern also
     covers.
     */
    method FreeAt(p: nat, ghost k: nat) returns (ok: bool)
      requires Valid() && k < |list.view.blocks| && list.view.blocks[k] == p
      modifies memory`infos, memory.bytes, list, list.fp
      ensures list.fp == old(list.fp)
      ensures Valid()
      ensures ok <==> old(memory.Intact(p))
      ensures !ok ==>
        memory.infos == old(memory.infos) && list.view == old(list.view) && memory.bytes[..] == old(memory.bytes[..])
      ensures ok ==>
        && memory.infos == old(memory.infos) - {p}
        && old(list.view).Shrunk(list.view, p, k)
        && p in old(memory.infos) && Wiped(old(memory.bytes[..]), memory.bytes[..], old(memory.infos)[p])
    {
      ListedWithout(memory.infos, list.view.blocks, k);
      ok := memory.Discard(p);
      if ok {
        ghost var m := memory.bytes[..];
        list.Unlink(p, k);
        assert memory.bytes[..] == m;
      }
    }

    /**
     _test_free: NULL is ignored, a block with a damaged guard is refused, any other is unlisted
     (it was number k) and overwritten.
     */
    method Free(ptr: nat) returns (ok: bool, ghost k: nat)
      requires Valid() && (ptr == 0 || ptr in memory.infos)
      modifies memory`infos, memory.bytes, list, list.fp
      ensures list.fp == old(list.fp)
      ensures Valid()
      ensures ok <==> ptr == 0 || old(memory.Intact(ptr))
      ensures !ok || ptr == 0 ==>
        memory.infos == old(memory.infos) && list.view == old(list.view) && memory.bytes[..] == old(memory.bytes[..])
      ensures ok && ptr != 0 ==>
        && memory.infos == old(memory.infos) - {ptr}
        && old(list.view).Shrunk(list.view, ptr, k)
        && list.view.blocks == Remove(old(list.view.blocks), ptr)
        && Wiped(old(memory.bytes[..]), memory.bytes[..], old(memory.infos[ptr]))
    {
      k := 0;
      if ptr == 0 {
        return true, 0;
      }
      k :| k < |list.view.blocks| && list.view.blocks[k] == ptr;
      RemoveAt(list.view.blocks, k);
      ok := FreeAt(ptr, k);
    }

    /** The first half of _test_realloc: a new block, which leaves the live block at `p` as it is. */
    method MallocBeside(p: nat, size: nat, block: nat) returns (r: Result)
      requires Valid() && p in memory.infos && CanRequest(size, block)
      modifies memory`infos, memory.bytes, list, list.fp
      ensures fresh(list.fp - old(list.fp))
      ensures Valid()
      ensures r == if Fits(size, block) then Pointer(PayloadAt(memory.abi, block)) else Failed
      ensures r.Failed? ==>
        memory.infos == old(memory.infos) && list.view == old(list.view) && memory.bytes[..] == old(memory.bytes[..])
      ensures r.Pointer? ==>
        && r.p !in old(memory.infos) && r.p != p
        && r.p in memory.infos && memory.infos[r.p] == Info(block, AllocateSize(memory.abi, size), size)
        && memory.infos == old(memory.infos)[r.p := memory.infos[r.p]]
        && old(list.view).Grown(list.view, r.p)
        && memory.Intact(r.p) && (memory.Intact(p) <==> old(memory.Intact(p)))
        && SameOutside(old(memory.bytes[..]), memory.bytes[..], memory.infos[r.p])
    {
      ghost var m, info := memory.bytes[..], memory.infos[p];
      r := Malloc(size, block);
      if r.Pointer? {
        assert r.p != p;
        ApartUnaffected(memory.abi, m, memory.bytes[..], memory.infos[r.p], p, info, 0);
      }
    }

    /** The second half of _test_realloc: copy into the new block, then free the old one. */
    method MoveAndFree(dst: nat, src: nat) returns (ok: bool, ghost k: nat)
      requires Valid() && dst in memory.infos && src in memory.infos && dst != src && memory.Intact(dst)
      modifies memory`infos, memory.bytes, list, list.fp
      ensures list.fp == old(list.fp)
      ensures Valid() && (ok <==> old(memory.Intact(src)))
      ensures !ok ==>
        && memory.infos == old(memory.infos) && list.view == old(list.view)
        && SameOutside(old(memory.bytes[..]), memory.bytes[..], memory.infos[dst])
      ensures ok ==>
        && memory.infos == old(memory.infos) - {src} && old(list.view).Shrunk(list.view, src, k)
        && MovedTo(old(memory.bytes[..]), memory.bytes[..], src, old(memory.infos)[src], dst, memory.infos[dst])
    {
      ghost var m, from, to := memory.bytes[..], memory.infos[src], memory.infos[dst];
      var old_, new_ := memory.infos[src].size, memory.infos[dst].size;
      var n := if new_ < old_ then new_ else old_;
      memory.CopyPayload(dst, src, n);
      ghost var m1 := memory.bytes[..];
      ok, k := Free(src);
      if ok { MovedBytes(memory.abi, m, m1, memory.bytes[..], src, dst, from, to, n); }
    }

    /** The same seen from before the first half, when records, list and bytes were `infos`, `v` and `m`. */
    method FinishRealloc(q: nat, p: nat, ghost infos: map<nat, Info>, ghost v: View, ghost m: seq<byte>)
      returns (r: Result, ghost k: nat)
      requires Valid() && q in memory.infos && p in memory.infos && p in infos && q != p && memory.Intact(q)
      requires memory.infos == infos[q := memory.infos[q]]
      requires v.Grown(list.view, q) && SameOutside(m, memory.bytes[..], memory.infos[q])
      modifies memory`infos, memory.bytes, list, list.fp
      ensures list.fp == old(list.fp)
      ensures Valid() && r == if old(memory.Intact(p)) then Pointer(q) else Failed
      ensures q in memory.infos && memory.infos[q] == old(memory.infos)[q]
      ensures r.Pointer? ==>
        && memory.infos == infos[q := memory.infos[q]] - {p}
        && v.Replaced(list.view, q, p, k)
        && MovedTo(m, memory.bytes[..], p, infos[p], q, memory.infos[q])
      ensures r.Failed? ==>
        && memory.infos == infos[q := memory.infos[q]]
        && v.Grown(list.view, q)
        && SameOutside(m, memory.bytes[..], memory.infos[q])
    {
      ghost var v1, m1, from, to := list.view, memory.bytes[..], memory.infos[p], memory.infos[q];
      var ok;
      ok, k := MoveAndFree(q, p);
      if ok {
        ReallocMoves(memory.abi, v, v1, list.view, m, m1, memory.bytes[..], p, from, q, to, k);
      }
      r := if ok then Pointer(q) else Failed;
    }

    /**
     _test_realloc of a live block, number k of the list, to a non-zero size; `q` is the new block. When the
     old guards are damaged the test fails with both blocks listed.
     */
    method ReallocBlock(p: nat, size: nat, block: nat) returns (r: Result, ghost q: nat, ghost k: nat)
      requires Valid() && p in memory.infos && size > 0 && CanRequest(size, block)
      modifies memory`infos, memory.bytes, list, list.fp
      ensures fresh(list.fp - old(list.fp))
      ensures Valid() && q == PayloadAt(memory.abi, block)
      ensures r == if Fits(size, block) && old(memory.Intact(p)) then Pointer(q) else Failed
      ensures !Fits(size, block) ==>
        memory.infos == old(memory.infos) && list.view == old(list.view) && memory.bytes[..] == old(memory.bytes[..])
      ensures Fits(size, block) ==>
        && p in old(memory.infos) && q !in old(memory.infos) && q in memory.infos
        && memory.infos[q] == Info(block, AllocateSize(memory.abi, size), size)
      ensures r.Pointer? ==>
        && memory.infos == old(memory.infos)[q := memory.infos[q]] - {p}
        && old(list.view).Replaced(list.view, q, p, k)
        && MovedTo(old(memory.bytes[..]), memory.bytes[..], p, old(memory.infos)[p], q, memory.infos[q])
      ensures r.Pointer? ==> SamePayload(old(memory.bytes[..]), memory.bytes[..], p, old(memory.infos)[p].size, q, size)
      ensures r.Failed? && Fits(size, block) ==>
        && memory.infos == old(memory.infos)[q := memory.infos[q]]
        && old(list.view).Grown(list.view, q)
        && SameOutside(old(memory.bytes[..]), memory.bytes[..], memory.infos[q])
    {
      k, q := 0, PayloadAt(memory.abi, block);
      ghost var infos, v, m := memory.infos, list.view, memory.bytes[..];
      r := MallocBeside(p, size, block);
      if r.Pointer? {
        r, k := FinishRealloc(r.p, p, infos, v, m);
        if r.Pointer? { PayloadMoved(m, memory.bytes[..], p, infos[p], q, memory.infos[q], 0); }
      }
    }

    /** _test_realloc; 0 stands for a NULL pointer */
    method Realloc(ptr: nat, size: nat, block: nat) returns (r: Result, ghost q: nat, ghost k: nat)
      requires Valid() && (ptr == 0 || ptr in memory.infos) && CanRequest(size, block)
      modifies memory`infos, memory.bytes, list, list.fp
      ensures fresh(list.fp - old(list.fp))
      ensures Valid() && q == PayloadAt(memory.abi, block)
      ensures ptr != 0 && size == 0 ==> r == if old(memory.Intact(ptr)) then NullPointer else Failed
      ensures ptr == 0 || size != 0 ==>
        r == if Fits(size, block) && (ptr == 0 || old(memory.Intact(ptr))) then Pointer(q) else Failed
      ensures r.NullPointer? ==>
        && old(list.view).Shrunk(list.view, ptr, k) && memory.infos == old(memory.infos) - {ptr}
        && ptr in old(memory.infos) && Wiped(old(memory.bytes[..]), memory.bytes[..], old(memory.infos)[ptr])
      ensures r.Pointer? ==>
        q in memory.infos && memory.infos[q] == Info(block, AllocateSize(memory.abi, size), size)
      ensures r.Pointer? && ptr == 0 ==>
        && old(list.view).Grown(list.view, q) && memory.infos == old(memory.infos)[q := memory.infos[q]]
        && Filled(old(memory.bytes[..]), memory.bytes[..], q, memory.infos[q])
      ensures r.Pointer? && ptr != 0 ==>
        && old(list.view).Replaced(list.view, q, ptr, k) && ptr in old(memory.infos)
        && memory.infos == old(memory.infos)[q := memory.infos[q]] - {ptr}
        && MovedTo(old(memory.bytes[..]), memory.bytes[..], ptr, old(memory.infos)[ptr], q, memory.infos[q])
      ensures r.Pointer? && ptr != 0 ==>
        SamePayload(old(memory.bytes[..]), memory.bytes[..], ptr, old(memory.infos)[ptr].size, q, size)
      ensures r.Failed? ==>
        if ptr != 0 && size != 0 && Fits(size, block) then
          && old(list.view).Grown(list.view, q) && q !in old(memory.infos) && q in memory.infos
          && memory.infos == old(memory.infos)[q := Info(block, AllocateSize(memory.abi, size), size)]
          && SameOutside(old(memory.bytes[..]), memory.bytes[..], memory.infos[q])
        else
          list.view == old(list.view) && memory.infos == old(memory.infos) && memory.bytes[..] == old(memory.bytes[..])
    {
      k, q := 0, PayloadAt(memory.abi, block);
      if ptr == 0 {
        r := Malloc(size, block);
      } else if size == 0 {
        var ok;
        ok, k := Free(ptr);
        r := if ok then NullPointer else Failed;
      } else {
        r, q, k := ReallocBlock(ptr, size, block);
      }
    }

    // ---- The leak check ----

    /** The guards of every listed block from position k on hold. */
    ghost predicate IntactFrom(k: nat)
      requires k <= |list.view.blocks|
      reads memory`infos, memory.bytes, list
    {
      AllIntact(memory.bytes[..], memory.infos, list.view.blocks[k..])
    }

    /** Between two turns of the clean-up loop: the first k blocks are `front`, the rest is intact as it was. */
    ghost predicate Cleaning(node: ListNode, k: nat, front: seq<nat>, intact: bool)
      reads memory`infos, memory.bytes, list, list.fp
    {
      Valid() && list.IsNode(node, k) && list.view.blocks[..k] == front && (IntactFrom(k) <==> intact)
    }

    lemma CleaningDone(k: nat, front: seq<nat>, intact: bool)
      requires Cleaning(list.head, k, front, intact)
      ensures intact && list.view.blocks == front
    {
      assert k == |list.view.blocks| && list.view.blocks[k..] == [];
    }

    /**
     One turn of the clean-up loop: the link to the next node is read before the block that holds it is overwritten.
     */
    method FreeNext(node: ListNode, ghost k: nat, ghost front: seq<nat>, ghost intact: bool)
      returns (ok: bool, next: ListNode)
      requires Cleaning(node, k, front, intact) && node != list.head
      modifies memory`infos, memory.bytes, list, list.fp
      ensures list.fp == old(list.fp)
      ensures Valid() && (!ok ==> !intact)
      ensures ok ==> |list.view.nodes| < |old(list.view.nodes)|
      ensures ok ==> Cleaning(next, k, front, intact)
    {
      var p;
      p, next := list.Read(node, k);
      ghost var m, infos, blocks := memory.bytes[..], memory.infos, list.view.blocks;
      IntactSplit(m, infos, blocks, k);
      ok := FreeAt(p, k);
      if ok {
        IntactAfter(memory.abi, m, memory.bytes[..], infos, blocks, k);
        assert list.view.blocks[..k] == blocks[..k];
      }
    }

    /**
     free_allocated_blocks: restores exactly the list of the check point, unless a guard of a
     block listed after it was damaged; then it stops there.
     */
    method FreeAllocatedBlocks(c: ListNode, ghost k: nat) returns (ok: bool)
      requires Valid() && list.Marks(c, k)
      modifies memory`infos, memory.bytes, list, list.fp
      ensures list.fp == old(list.fp)
      ensures Valid()
      ensures ok <==> old(IntactFrom(k))
      ensures ok ==> list.view.blocks == old(list.view.blocks[..k])
    {
      ghost var front, intact := list.view.blocks[..k], IntactFrom(k);
      var node := list.After(c, k);
      while node != list.head
        invariant Cleaning(node, k, front, intact) && list.fp == old(list.fp)
        decreases |list.view.nodes|
      {
        var freed;
        freed, node := FreeNext(node, k, front, intact);
        if !freed {
          return false;
        }
      }
      CleaningDone(k, front, intact);
      ok := true;
    }

    /** fail_if_blocks_allocated: fails exactly when blocks are listed after the check point */
    method FailIfBlocksAllocated(c: ListNode, ghost k: nat) returns (failed: bool)
      requires Valid() && list.Marks(c, k)
      modifies memory`infos, memory.bytes, list, list.fp
      ensures list.fp == old(list.fp)
      ensures Valid()
      ensures failed <==> old(|list.view.blocks|) > k
      ensures !failed ==> list.view == old(list.view) && memory.bytes[..] == old(memory.bytes[..])
      ensures failed && old(IntactFrom(k)) ==> list.view.blocks == old(list.view.blocks[..k])
    {
      var shown := list.Display(c, k);
      failed := |shown| > 0;
      if failed {
        var _ := FreeAllocatedBlocks(c, k);
      }
    }

    /**
     The leak check at the end of a test, for a check point whose block is still listed: it fails exactly when some
     block allocated since was not released, and then restores what is left of the list at the check point.
     */
    method FailIfLeaked(c: ListNode, ghost before: seq<Op>) returns (failed: bool)
      requires Valid() && IsCheckPoint(list.head, list.view, c, before) && StillListed(list.view, before)
      modifies memory`infos, memory.bytes, list, list.fp
      ensures list.fp == old(list.fp)
      ensures Valid()
      ensures failed <==> exists i :: StillLive(old(Since(list.view, before)), i)
      ensures !failed ==> list.view == old(list.view)
      ensures old(IntactFrom(0)) ==> list.view.blocks == OldBlocks(ListAfter([], before), old(Since(list.view, before)))
    {
      ghost var k := LeakPoint(list.head, list.view, c, before);
      TailOfIntact(memory.bytes[..], memory.infos, list.view.blocks, k);
      failed := FailIfBlocksAllocated(c, k);
    }
  }
}
