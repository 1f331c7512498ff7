/**
 The memory under the guarded test allocator of FSBL/cmocka.c: where _test_malloc puts record,
 guards and payload, what _test_free checks and overwrites, what _test_realloc copies.

 `bytes` is the byte-addressed memory; nothing is assumed about its contents between
 calls, so the code under test may have written anywhere except over the bookkeeping
 records, which are kept in `infos` and, for the list nodes inside them, in `BlockLists`.
 */
module GuardedMemory {
  import opened Basics
  import opened BlockLayout

  /** struct MallocBlockInfoData, without source location and list node. */
  datatype Info = Info(block: nat, allocatedSize: nat, size: nat)

  ghost predicate Within(i: int, info: Info) {
    info.block <= i < info.block + info.allocatedSize
  }

  /** Record, front guard, payload and rear guard follow each other inside the allocation; the payload is aligned. */
  ghost predicate LaidOut(abi: Abi, p: nat, info: Info, limit: nat) {
    && p % abi.Align() == 0
    && info.block < p - GUARD - abi.info
    && p + info.size + GUARD <= info.block + info.allocatedSize <= limit
  }

  predicate Apart(a: Info, b: Info) {
    a.block + a.allocatedSize <= b.block || b.block + b.allocatedSize <= a.block
  }

  // ---- Facts about memory contents ----

  /** The memory differs at most inside the allocation. */
  ghost predicate SameOutside(m: seq<byte>, m': seq<byte>, info: Info) {
    |m'| == |m| && forall i :: 0 <= i < |m| && !Within(i, info) ==> m'[i] == m[i]
  }

  /** The memory differs at most inside the two allocations. */
  ghost predicate SameOutsideBoth(m: seq<byte>, m': seq<byte>, a: Info, b: Info) {
    |m'| == |m| && forall i :: 0 <= i < |m| && !Within(i, a) && !Within(i, b) ==> m'[i] == m[i]
  }

  ghost predicate GuardIn(m: seq<byte>, at: nat) {
    at + GUARD <= |m| && forall j :: at <= j < at + GUARD ==> m[j] == GUARD_PATTERN
  }

  /** The guard bytes around a payload still hold the pattern. */
  ghost predicate IntactIn(m: seq<byte>, p: nat, size: nat) {
    GUARD <= p && GuardIn(m, p - GUARD) && GuardIn(m, p + size)
  }

  /** `n` bytes were carried from `src` to `dst`. */
  ghost predicate Carried(m: seq<byte>, m': seq<byte>, src: nat, dst: nat, n: nat) {
    src + n <= |m| && dst + n <= |m'| && m'[dst..dst + n] == m[src..src + n]
  }

  /** A change inside one allocation leaves guards and payload of another as they were. */
  lemma ApartUnaffected(abi: Abi, m: seq<byte>, m': seq<byte>, info: Info, p: nat, other: Info, n: nat)
    requires SameOutside(m, m', info) && Apart(info, other) && LaidOut(abi, p, other, |m|) && n <= other.size
    ensures IntactIn(m', p, other.size) <==> IntactIn(m, p, other.size)
    ensures m'[p..p + n] == m[p..p + n]
  {
  }

  /** A change inside one payload stays inside its allocation and off its guards. */
  lemma PayloadOnly(abi: Abi, m: seq<byte>, m': seq<byte>, p: nat, info: Info, n: nat)
    requires |m'| == |m| && LaidOut(abi, p, info, |m|) && n <= info.size
    requires forall i :: 0 <= i < |m| && !(p <= i < p + n) ==> m'[i] == m[i]
    ensures SameOutside(m, m', info)
    ensures IntactIn(m', p, info.size) <==> IntactIn(m, p, info.size)
  {
  }

  // ---- The invariant ----

  /** The recorded blocks are laid out in disjoint allocations. */
  ghost predicate Sound(abi: Abi, infos: map<nat, Info>, limit: nat) {
    && (forall p :: p in infos ==> LaidOut(abi, p, infos[p], limit))
    && (forall p, q :: p in infos && q in infos && p != q ==> Apart(infos[p], infos[q]))
  }

  lemma SoundAdd(abi: Abi, infos: map<nat, Info>, limit: nat, p: nat, info: Info)
    requires Sound(abi, infos, limit) && LaidOut(abi, p, info, limit)
    requires forall q :: q in infos ==> Apart(infos[q], info)
    ensures p !in infos && Sound(abi, infos[p := info], limit)
  {
  }

  /** The guards of all these blocks hold. */
  ghost predicate AllIntact(m: seq<byte>, infos: map<nat, Info>, ps: seq<nat>) {
    forall i :: 0 <= i < |ps| ==> ps[i] in infos && IntactIn(m, ps[i], infos[ps[i]].size)
  }

  lemma AllIntactCons(m: seq<byte>, infos: map<nat, Info>, p: nat, ps: seq<nat>)
    requires p in infos
    ensures AllIntact(m, infos, [p] + ps) <==> IntactIn(m, p, infos[p].size) && AllIntact(m, infos, ps)
  {
    assert ([p] + ps)[0] == p && forall i :: 0 <= i < |ps| ==> ([p] + ps)[i + 1] == ps[i];
  }

  /** Releasing one block leaves the guards of the others as they were. */
  lemma OthersIntact(abi: Abi, m: seq<byte>, m': seq<byte>, infos: map<nat, Info>, p: nat, ps: seq<nat>)
    requires Sound(abi, infos, |m|) && p in infos && p !in ps && SameOutside(m, m', infos[p])
    requires forall i :: 0 <= i < |ps| ==> ps[i] in infos
    ensures AllIntact(m', infos - {p}, ps) <==> AllIntact(m, infos, ps)
  {
    forall i | 0 <= i < |ps|
      ensures IntactIn(m', ps[i], infos[ps[i]].size) <==> IntactIn(m, ps[i], infos[ps[i]].size)
    {
      ApartUnaffected(abi, m, m', infos[p], ps[i], infos[ps[i]], 0);
    }
  }

  /** Copying into one block and then wiping the other, on the bytes. */
  lemma MovedBytes(abi: Abi, m: seq<byte>, m1: seq<byte>, m2: seq<byte>, src: nat, dst: nat, from: Info, to: Info,
                   n: nat)
    requires LaidOut(abi, dst, to, |m|) && Apart(from, to) && n <= to.size
    requires Carried(m, m1, src, dst, n) && SameOutside(m, m1, to) && SameOutside(m1, m2, from)
    ensures Carried(m, m2, src, dst, n) && SameOutsideBoth(m, m2, from, to)
    ensures IntactIn(m2, dst, to.size) <==> IntactIn(m1, dst, to.size)
  {
    ApartUnaffected(abi, m1, m2, from, dst, to, n);
  }

  /** Laying out a new block before that changes nothing about it. */
  lemma MovedAfterPlacing(abi: Abi, m: seq<byte>, m1: seq<byte>, m2: seq<byte>, src: nat, dst: nat, from: Info,
                          to: Info, n: nat)
    requires LaidOut(abi, src, from, |m|) && Apart(to, from) && n <= from.size
    requires SameOutside(m, m1, to) && Carried(m1, m2, src, dst, n) && SameOutsideBoth(m1, m2, from, to)
    ensures Carried(m, m2, src, dst, n) && SameOutsideBoth(m, m2, from, to)
  {
    ApartUnaffected(abi, m, m1, to, src, from, n);
  }

  /** What lies apart from both allocations keeps its guards and payload. */
  lemma ApartFromBoth(abi: Abi, m: seq<byte>, m': seq<byte>, a: Info, b: Info, p: nat, other: Info, n: nat)
    requires SameOutsideBoth(m, m', a, b) && Apart(a, other) && Apart(b, other)
    requires LaidOut(abi, p, other, |m|) && n <= other.size
    ensures IntactIn(m', p, other.size) <==> IntactIn(m, p, other.size)
    ensures m'[p..p + n] == m[p..p + n]
  {
  }

  /** The memory after a block was laid out: guards and payload are filled, and nothing outside changes. */
  ghost predicate Filled(m: seq<byte>, m': seq<byte>, p: nat, info: Info) {
    && IntactIn(m', p, info.size) && SameOutside(m, m', info)
    && forall i :: p <= i < p + info.size ==> m'[i] == ALLOC_PATTERN
  }

  /** The memory after a block was freed: the whole allocation is overwritten, and nothing outside changes. */
  ghost predicate Wiped(m: seq<byte>, m': seq<byte>, info: Info) {
    SameOutside(m, m', info) && forall i :: 0 <= i < |m'| && Within(i, info) ==> m'[i] == FREE_PATTERN
  }

  /** In numbers: a block is intact while the 16 bytes before and the 16 bytes behind its payload are all 0xEF. */
  lemma IntactMeans(m: seq<byte>, p: nat, size: nat)
    ensures IntactIn(m, p, size) <==>
      && 16 <= p && p + size + 16 <= |m|
      && (forall i :: p - 16 <= i < p ==> m[i] == 0xEF)
      && (forall i :: p + size <= i < p + size + 16 ==> m[i] == 0xEF)
  {
  }

  /** A new block has 0xBA in every payload byte and 0xEF in the 32 guard bytes; outside it nothing changes. */
  lemma FilledMeans(m: seq<byte>, m': seq<byte>, p: nat, info: Info)
    ensures Filled(m, m', p, info) <==>
      && |m'| == |m| && 16 <= p && p + info.size + 16 <= |m|
      && (forall i :: p - 16 <= i < p || p + info.size <= i < p + info.size + 16 ==> m'[i] == 0xEF)
      && (forall i :: p <= i < p + info.size ==> m'[i] == 0xBA)
      && (forall i :: 0 <= i < |m| && !(info.block <= i < info.block + info.allocatedSize) ==> m'[i] == m[i])
  {
    IntactMeans(m', p, info.size);
  }

  /** A freed block has 0xCD in every byte of its allocation, record and guards included; nothing else changes. */
  lemma WipedMeans(m: seq<byte>, m': seq<byte>, info: Info)
    ensures Wiped(m, m', info) <==>
      |m'| == |m| && forall i :: 0 <= i < |m| ==>
        m'[i] == if info.block <= i < info.block + info.allocatedSize then 0xCD else m[i]
  {
  }

  class Memory {
    const abi: Abi
    const bytes: array<byte>
    var infos: map<nat, Info>

    ghost predicate Valid()
      reads `infos
    {
      abi.Sane() && bytes.Length <= Pow2(abi.bits) && Sound(abi, infos, bytes.Length)
    }

    constructor (abi: Abi, size: nat)
      requires abi.Sane() && size <= Pow2(abi.bits)
      ensures Valid() && infos == map[] && bytes.Length == size && this.abi == abi && fresh(bytes)
    {
      this.abi := abi;
      bytes := new byte[size];
      infos := map[];
    }

    ghost predicate Intact(p: nat)
      reads `infos, bytes
    {
      p in infos && IntactIn(bytes[..], p, infos[p].size)
    }

    /** What libc malloc guarantees of a non-NULL block of `total` bytes. */
    predicate Available(block: nat, total: nat)
      reads `infos
    {
      && block + total <= bytes.Length
      && forall p :: p in infos ==> Apart(infos[p], Info(block, total, 0))
    }

    method MemSet(at: nat, v: byte, n: nat)
      requires at + n <= bytes.Length
      modifies bytes
      ensures forall i :: 0 <= i < bytes.Length ==> bytes[i] == if at <= i < at + n then v else old(bytes[i])
    {
      forall i | at <= i < at + n { bytes[i] := v; }
    }

    /** Fill guards and payload of a new block. */
    method FillBlock(p: nat, size: nat, ghost info: Info)
      requires LaidOut(abi, p, info, bytes.Length) && info.size == size
      modifies bytes
      ensures Filled(old(bytes[..]), bytes[..], p, info)
    {
      MemSet(p - GUARD, GUARD_PATTERN, GUARD);
      MemSet(p + size, GUARD_PATTERN, GUARD);
      MemSet(p, ALLOC_PATTERN, size);
    }

    /** _test_malloc on the memory; `block` is what libc malloc returned, 0 for NULL */
    method Place(size: nat, block: nat) returns (r: Option<nat>)
      requires Valid() && size < Pow2(abi.bits)
      requires AllocateSize(abi, size) > size && block != 0 ==> Available(block, AllocateSize(abi, size))
      modifies `infos, bytes
      ensures Valid()
      ensures r == if size + abi.Overhead() < Pow2(abi.bits) && block != 0 then Some(PayloadAt(abi, block)) else None
      ensures r.None? ==> infos == old(infos) && bytes[..] == old(bytes[..])
      ensures r.Some? ==>
        && r.value !in old(infos) && infos == old(infos)[r.value := Info(block, AllocateSize(abi, size), size)]
        && Filled(old(bytes[..]), bytes[..], r.value, infos[r.value])
    {
      var total := AllocateSize(abi, size);
      OverflowCheckIsExact(abi, size);
      if total <= size || block == 0 {
        return None;
      }
      LayoutFits(abi, block, size);
      var p := PayloadAt(abi, block);
      var info := Info(block, total, size);
      SoundAdd(abi, infos, bytes.Length, p, info);
      FillBlock(p, size, info);
      infos := infos[p := info];
      r := Some(p);
    }

    /** One guard is compared byte by byte, in signed char arithmetic. */
    method CheckGuard(at: nat) returns (ok: bool)
      requires at + GUARD <= bytes.Length
      ensures ok <==> GuardIn(bytes[..], at)
    {
      var j := at;
      while j < at + GUARD
        invariant at <= j <= at + GUARD
        invariant forall i :: at <= i < j ==> bytes[i] == GUARD_PATTERN
      {
        var diff := (bytes[j] - GUARD_PATTERN) % 256;
        if diff != 0 {
          assert bytes[..][j] != GUARD_PATTERN;
          return false;
        }
        j := j + 1;
      }
      ok := true;
    }

    /** _test_free on the memory: refused exactly when a guard byte changed */
    method Discard(p: nat) returns (ok: bool)
      requires Valid() && p in infos
      modifies `infos, bytes
      ensures Valid()
      ensures ok <==> old(Intact(p))
      ensures !ok ==> infos == old(infos) && bytes[..] == old(bytes[..])
      ensures ok ==> infos == old(infos) - {p} && Wiped(old(bytes[..]), bytes[..], old(infos[p]))
    {
      var info := infos[p];
      ok := CheckGuard(p - GUARD);
      if ok { ok := CheckGuard(p + info.size); }
      if !ok {
        return;
      }
      MemSet(info.block, FREE_PATTERN, info.allocatedSize);
      infos := infos - {p};
    }

    /** The memcpy of _test_realloc: `n` payload bytes from one live block to another; no guard is touched */
    method CopyPayload(dst: nat, src: nat, n: nat)
      requires Valid() && dst in infos && src in infos && dst != src && n <= infos[dst].size && n <= infos[src].size
      modifies bytes
      ensures Carried(old(bytes[..]), bytes[..], src, dst, n)
      ensures SameOutside(old(bytes[..]), bytes[..], infos[dst])
      ensures (Intact(dst) <==> old(Intact(dst))) && (Intact(src) <==> old(Intact(src)))
    {
      ghost var m := bytes[..];
      CopyMem(bytes, dst, bytes[src..src + n]);
      assert bytes[..][dst..dst + n] == m[src..src + n];
      PayloadOnly(abi, m, bytes[..], dst, infos[dst], n);
      ApartUnaffected(abi, m, bytes[..], infos[dst], src, infos[src], 0);
    }
  }
}
