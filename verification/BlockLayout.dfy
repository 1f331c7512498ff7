/**
 The address arithmetic of the guarded test allocator in FSBL/cmocka.c, on size_t
 addresses: how big a block is requested, where the payload starts, and where the
 bookkeeping record and the two guards lie.
 */
module BlockLayout {

  /** MALLOC_GUARD_SIZE and the fill patterns. */
  const GUARD := 16
  const GUARD_PATTERN := 0xEF
  const ALLOC_PATTERN := 0xBA
  const FREE_PATTERN := 0xCD

  function Pow2(n: nat): (r: nat)
    ensures r > 0
  {
    if n == 0 then 1 else 2 * Pow2(n - 1)
  }

  /** Bitwise and of the low `w` bits. */
  function And(x: nat, y: nat, w: nat): nat {
    if w == 0 then 0 else (x % 2) * (y % 2) + 2 * And(x / 2, y / 2, w - 1)
  }

  /** Bitwise complement of a `w`-bit number. */
  function Not(x: nat, w: nat): nat
    requires x < Pow2(w)
  {
    Pow2(w) - 1 - x
  }

  lemma {:induction false} AndOnes(x: nat, w: nat)
    requires x < Pow2(w)
    ensures And(x, Pow2(w) - 1, w) == x
  {
    if w > 0 {
      assert (Pow2(w) - 1) / 2 == Pow2(w - 1) - 1 && (Pow2(w) - 1) % 2 == 1;
      AndOnes(x / 2, w - 1);
    }
  }

  lemma {:induction false} Pow2Monotone(a: nat, b: nat)
    requires a <= b
    ensures Pow2(a) <= Pow2(b)
  {
    if a < b { Pow2Monotone(a, b - 1); }
  }

  lemma ModTwice(x: nat, m: nat)
    requires m > 0
    ensures x % (2 * m) == 2 * ((x / 2) % m) + x % 2
  {
    var q, r := (x / 2) / m, (x / 2) % m;
    assert x / 2 == m * q + r;
    assert x == 2 * (x / 2) + x % 2 == (2 * m) * q + (2 * r + x % 2) by {
      assert 2 * (m * q) == (2 * m) * q;
    }
    DivModUnique(x, 2 * m, q, 2 * r + x % 2);
  }

  lemma DivModUnique(x: nat, m: nat, q: nat, r: nat)
    requires m > 0 && r < m && x == m * q + r
    ensures x % m == r
  {
    var d := x / m - q;
    assert x == m * (x / m) + x % m;
    assert m * (x / m) - m * q == m * d;
    assert d >= 1 ==> m * d >= m * 1;
    assert d <= -1 ==> m * d <= m * -1;
  }

  lemma {:induction false} AndEven(x: nat, z: nat, w: nat)
    requires w > 0
    ensures And(x, 2 * z, w) == 2 * And(x / 2, z, w - 1)
  {
  }

  lemma {:induction false} MaskHalves(k: nat, w: nat)
    requires 0 < k <= w
    ensures Pow2(k) - 1 < Pow2(w) && Pow2(k - 1) - 1 < Pow2(w - 1)
    ensures Not(Pow2(k) - 1, w) == 2 * Not(Pow2(k - 1) - 1, w - 1)
  {
    Pow2Monotone(k - 1, w - 1);
  }

  lemma {:induction false} RoundHalf(x: nat, m: nat)
    requires m > 0
    ensures 2 * (x / 2 - (x / 2) % m) == x - x % (2 * m)
  {
    ModTwice(x, m);
  }

  /** The low k bits cleared. */
  ghost function Cleared(x: nat, k: nat): nat {
    if k == 0 then x else 2 * Cleared(x / 2, k - 1)
  }

  lemma {:induction false} MaskClears(x: nat, k: nat, w: nat)
    requires k <= w && x < Pow2(w)
    ensures Pow2(k) - 1 < Pow2(w) && And(x, Not(Pow2(k) - 1, w), w) == Cleared(x, k)
  {
    Pow2Monotone(k, w);
    if k == 0 {
      AndOnes(x, w);
    } else {
      MaskHalves(k, w);
      AndEven(x, Not(Pow2(k - 1) - 1, w - 1), w);
      MaskClears(x / 2, k - 1, w - 1);
    }
  }

  lemma {:induction false} ClearedIs(x: nat, k: nat)
    ensures Cleared(x, k) == x - x % Pow2(k)
  {
    if k > 0 {
      ClearedIs(x / 2, k - 1);
      RoundHalf(x, Pow2(k - 1));
    }
  }

  /** Masking with ~(2^k - 1) rounds down to a multiple of 2^k. */
  lemma MaskRoundsDown(x: nat, k: nat, w: nat)
    requires k <= w && x < Pow2(w)
    ensures Pow2(k) - 1 < Pow2(w)
    ensures And(x, Not(Pow2(k) - 1, w), w) == x - x % Pow2(k)
  {
    MaskClears(x, k, w);
    ClearedIs(x, k);
  }

  /** sizeof(struct MallocBlockInfoData), MALLOC_ALIGNMENT as a power of two, and the width of size_t. */
  datatype Abi = Abi(info: nat, shift: nat, bits: nat) {
    function Align(): (r: nat) ensures r > 0 { Pow2(shift) }

    /** The overhead of a block does not itself overflow size_t. */
    ghost predicate Sane() {
      shift <= bits && Overhead() < Pow2(bits)
    }

    function Overhead(): nat { 2 * GUARD + info + Align() }
  }

  /** allocate_size, computed in size_t. */
  function AllocateSize(abi: Abi, size: nat): nat {
    (size + abi.Overhead()) % Pow2(abi.bits)
  }

  /** The payload address for a block at `block`. */
  function PayloadAt(abi: Abi, block: nat): nat
    requires abi.shift <= abi.bits
  {
    Pow2Monotone(abi.shift, abi.bits);
    And(block + GUARD + abi.info + abi.Align(), Not(abi.Align() - 1, abi.bits), abi.bits)
  }

  /**
   assert_true(allocate_size > size) catches exactly the requests whose total does not fit size_t: payload, two
   guards of 16 bytes, record and the alignment.
   */
  lemma OverflowCheckIsExact(abi: Abi, size: nat)
    requires abi.Sane() && size < Pow2(abi.bits)
    ensures abi.Overhead() == 32 + abi.info + Pow2(abi.shift)
    ensures AllocateSize(abi, size) > size <==> size + 32 + abi.info + Pow2(abi.shift) < Pow2(abi.bits)
    ensures AllocateSize(abi, size) > size ==> AllocateSize(abi, size) == size + 32 + abi.info + Pow2(abi.shift)
  {
    WrapCheck(size, abi.Overhead(), Pow2(abi.bits));
  }

  lemma WrapCheck(size: nat, more: nat, m: nat)
    requires size < m && 0 < more < m
    ensures (size + more) % m > size <==> size + more < m
    ensures size + more < m ==> (size + more) % m == size + more
  {
  }

  /**
   For every block address, request and power-of-two alignment: the payload is at the last aligned address that the
   alignment padding allows, and record, front guard, payload and rear guard follow each other inside the allocation.
   */
  lemma LayoutFits(abi: Abi, block: nat, size: nat)
    requires abi.Sane() && size < Pow2(abi.bits) && AllocateSize(abi, size) > size
    requires block + AllocateSize(abi, size) <= Pow2(abi.bits)
    ensures var p := PayloadAt(abi, block);
      && p % Pow2(abi.shift) == 0
      && block + abi.info + 16 < p <= block + abi.info + 16 + Pow2(abi.shift)
      && p + size + 16 <= block + AllocateSize(abi, size)
  {
    OverflowCheckIsExact(abi, size);
    var x, a := block + GUARD + abi.info + abi.Align(), abi.Align();
    assert x < Pow2(abi.bits);
    MaskRoundsDown(x, abi.shift, abi.bits);
    RoundedIsMultiple(x, a);
  }

  lemma RoundedIsMultiple(x: nat, a: nat)
    requires a > 0
    ensures (x - x % a) % a == 0
  {
    DivModUnique(x - x % a, a, x / a, 0);
  }
}
