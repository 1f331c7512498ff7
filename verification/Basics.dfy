/** Definitions shared by the models: options, sequences, bytes, little-endian words. */
module Basics {

  datatype Option<T> = None | Some(value: T)

  type byte = b: int | 0 <= b < 256
  type Bytes = seq<byte>

  ghost predicate Distinct<T>(s: seq<T>) {
    forall i, j :: 0 <= i < j < |s| ==> s[i] != s[j]
  }

  /** A sequence without its last element, and that element. */
  function Init<T>(s: seq<T>): seq<T> requires s != [] { s[..|s| - 1] }
  function Last<T>(s: seq<T>): T requires s != [] { s[|s| - 1] }

  lemma SliceSnoc<T>(s: seq<T>, k: nat, i: nat)
    requires k <= i < |s|
    ensures s[k..i + 1] == s[k..i] + [s[i]]
  {
  }

  /** A size_t cast to a 32-bit int: the low 32 bits in two's complement. */
  function AsInt(n: nat): (r: int)
    ensures -0x8000_0000 <= r < 0x8000_0000 && (r - n) % 0x1_0000_0000 == 0
  {
    var low := n % 0x1_0000_0000;
    if low < 0x8000_0000 then low else low - 0x1_0000_0000
  }

  lemma AsIntSmall(n: nat)
    requires n < 0x8000_0000
    ensures AsInt(n) == n
  {
  }

  function Zeros(n: nat): (r: Bytes)
    ensures |r| == n
  {
    seq(n, i => 0)
  }

  /** The four bytes of a little-endian 32-bit word. */
  function Word(n: nat): (r: Bytes)
    requires n < 0x1_0000_0000
    ensures |r| == 4
  {
    var hi := n / 0x1_0000;
    [n % 0x1_0000 % 0x100, n % 0x1_0000 / 0x100, hi % 0x100, hi / 0x100]
  }

  function WordAt(b: Bytes, o: nat): nat
    requires o + 4 <= |b|
  {
    var b0: int, b1: int, b2: int, b3: int := b[o], b[o + 1], b[o + 2], b[o + 3];
    (b0 + 0x100 * b1) + 0x1_0000 * (b2 + 0x100 * b3)
  }

  /** In numbers: the least significant byte comes first. */
  lemma LittleEndian(n: nat, b: Bytes, o: nat)
    requires n < 0x1_0000_0000 && o + 4 <= |b|
    ensures var w := Word(n);
      n == w[0] as int + 0x100 * w[1] as int + 0x1_0000 * w[2] as int + 0x100_0000 * w[3] as int
    ensures WordAt(b, o) ==
      b[o] as int + 0x100 * b[o + 1] as int + 0x1_0000 * b[o + 2] as int + 0x100_0000 * b[o + 3] as int
  {
  }

  /** Reading a word and writing it again gives the same four bytes. */
  lemma WordOfWordAt(b: Bytes, o: nat)
    requires o + 4 <= |b|
    ensures WordAt(b, o) < 0x1_0000_0000 && Word(WordAt(b, o)) == b[o..o + 4]
  {
    var b0: int, b1: int, b2: int, b3: int := b[o], b[o + 1], b[o + 2], b[o + 3];
    assert WordAt(b, o) % 0x1_0000 == b0 + 0x100 * b1 && WordAt(b, o) / 0x1_0000 == b2 + 0x100 * b3;
  }

  /** memcpy, CopyMem: `src` replaces the bytes of `dst` from `at` on */
  method CopyMem(dst: array<byte>, at: nat, src: Bytes)
    requires at + |src| <= dst.Length
    modifies dst
    ensures var b := old(dst[..]); dst[..] == b[..at] + src + b[at + |src|..]
  {
    forall i | 0 <= i < |src| { dst[at + i] := src[i]; }
  }
}
