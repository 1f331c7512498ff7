/**
 make_fw_image of FwSignPy/rawprt.py: a 128 MiB firmware bank built by slice assignments
 on one bytearray, and read back through the layout of boot_fw_inf_t in
 FSBL/SBC_FileCtrl.h.
 */
module BankImage {

  import opened Basics

  const MIB := 0x10_0000
  const FSBL_SECTOR := 4 * MIB
  const OS_SECTOR := 20 * MIB
  const SW_SECTOR := 100 * MIB
  const BANK := 128 * MIB

  function Clamp(x: nat, n: nat): (r: nat)
    ensures r <= x && r <= n && (r == x || r == n)
  {
    if x < n then x else n
  }

  /** Python's a[i:j] = b: with j below i nothing is replaced, b is inserted. */
  function SliceAssign(a: Bytes, i: nat, j: nat, b: Bytes): Bytes {
    var lo := Clamp(i, |a|);
    var hi := if Clamp(j, |a|) < lo then lo else Clamp(j, |a|);
    a[..lo] + b + a[hi..]
  }

  // ---- Reference layout ----

  /** One slot: the length word, the content, and zeros up to the slot size. */
  function Slot(n: nat, content: Bytes, size: nat): (r: Bytes)
    requires n < 0x1_0000_0000 && 4 + |content| <= size
    ensures |r| == size
  {
    Word(n) + content + Zeros(size - 4 - |content|)
  }

  /** Both files fit the smallest slot. */
  predicate Fit(fsbl: Bytes, ssbl: Bytes) {
    |fsbl| <= FSBL_SECTOR - 4 && |ssbl| <= FSBL_SECTOR - 4
  }

  /** The bank: the second slot pairs the SSBL's length with the FSBL's bytes; OS and software reuse the two files. */
  function Bank(fsbl: Bytes, ssbl: Bytes): (r: Bytes)
    requires Fit(fsbl, ssbl)
    ensures |r| == BANK
  {
    Slot(|fsbl|, fsbl, FSBL_SECTOR) + Slot(|ssbl|, fsbl, FSBL_SECTOR) +
    Slot(|fsbl|, fsbl, OS_SECTOR) + Slot(|ssbl|, ssbl, SW_SECTOR)
  }

  // ---- The construction ----

  /** The two slice assignments of one slot; `j` is the upper bound the script gives for the content. */
  function PutSlot(a: Bytes, at: nat, n: nat, j: nat, content: Bytes): Bytes
    requires n < 0x1_0000_0000
  {
    SliceAssign(SliceAssign(a, at, 4, Word(n)), at + 4, j, content)
  }

  /** Behind a finished prefix, both slice assignments of a slot insert. */
  lemma InsertSlot(p: Bytes, k: nat, n: nat, j: nat, content: Bytes, size: nat)
    requires n < 0x1_0000_0000 && 4 + |content| <= size && 4 <= |p| && j <= |p|
    requires k >= size - 4 - |content|
    ensures PutSlot(p + Zeros(k), |p|, n, j, content) == p + Slot(n, content, size) + Zeros(k - (size - 4 - |content|))
  {
  }

  /** The first slot starts at 0, so its assignments replace zeros. */
  lemma FirstSlot(k: nat, content: Bytes, size: nat)
    requires 8 <= size && 4 + |content| <= size <= k && |content| < 0x1_0000_0000
    ensures PutSlot(Zeros(k), 0, |content|, |content|, content) ==
      Slot(|content|, content, size) + Zeros(k - (if |content| < 4 then 4 else |content|) - (size - 4 - |content|))
  {
  }

  /** The bytearray before the final cut. */
  function Assembled(fsbl: Bytes, ssbl: Bytes): Bytes
    requires |fsbl| < 0x1_0000_0000 && |ssbl| < 0x1_0000_0000
  {
    var a := PutSlot(Zeros(BANK), 0, |fsbl|, |fsbl|, fsbl);
    var a := PutSlot(a, FSBL_SECTOR, |ssbl|, |ssbl|, fsbl);
    var a := PutSlot(a, 2 * FSBL_SECTOR, |fsbl|, |fsbl|, fsbl);
    PutSlot(a, 2 * FSBL_SECTOR + OS_SECTOR, |ssbl|, |ssbl|, ssbl)
  }

  /** The zeros left behind the first slot, and behind one more slot. */
  function RestAfterFirst(fsbl: Bytes): int {
    BANK - (if |fsbl| < 4 then 4 else |fsbl|) - (FSBL_SECTOR - 4 - |fsbl|)
  }

  function Rest(k: int, content: Bytes, size: nat): int { k - (size - 4 - |content|) }

  lemma FirstTwoSlots(fsbl: Bytes, ssbl: Bytes)
    requires Fit(fsbl, ssbl)
    ensures var k := Rest(RestAfterFirst(fsbl), fsbl, FSBL_SECTOR);
      && k >= OS_SECTOR + SW_SECTOR
      && PutSlot(PutSlot(Zeros(BANK), 0, |fsbl|, |fsbl|, fsbl), FSBL_SECTOR, |ssbl|, |ssbl|, fsbl) ==
         Slot(|fsbl|, fsbl, FSBL_SECTOR) + Slot(|ssbl|, fsbl, FSBL_SECTOR) + Zeros(k)
  {
    FirstSlot(BANK, fsbl, FSBL_SECTOR);
    InsertSlot(Slot(|fsbl|, fsbl, FSBL_SECTOR), RestAfterFirst(fsbl), |ssbl|, |ssbl|, fsbl, FSBL_SECTOR);
  }

  lemma LastTwoSlots(p: Bytes, k: nat, fsbl: Bytes, ssbl: Bytes)
    requires |p| == 2 * FSBL_SECTOR && k >= OS_SECTOR + SW_SECTOR
    requires Fit(fsbl, ssbl)
    ensures var k' := Rest(Rest(k, fsbl, OS_SECTOR), ssbl, SW_SECTOR);
      && k' >= 0
      && PutSlot(PutSlot(p + Zeros(k), |p|, |fsbl|, |fsbl|, fsbl), |p| + OS_SECTOR, |ssbl|, |ssbl|, ssbl) ==
         p + Slot(|fsbl|, fsbl, OS_SECTOR) + Slot(|ssbl|, ssbl, SW_SECTOR) + Zeros(k')
  {
    InsertSlot(p, k, |fsbl|, |fsbl|, fsbl, OS_SECTOR);
    InsertSlot(p + Slot(|fsbl|, fsbl, OS_SECTOR), Rest(k, fsbl, OS_SECTOR), |ssbl|, |ssbl|, ssbl, SW_SECTOR);
  }

  lemma AssembledIsBank(fsbl: Bytes, ssbl: Bytes)
    requires Fit(fsbl, ssbl)
    ensures Bank(fsbl, ssbl) <= Assembled(fsbl, ssbl)
  {
    var p := Slot(|fsbl|, fsbl, FSBL_SECTOR) + Slot(|ssbl|, fsbl, FSBL_SECTOR);
    var k := Rest(RestAfterFirst(fsbl), fsbl, FSBL_SECTOR);
    FirstTwoSlots(fsbl, ssbl);
    LastTwoSlots(p, k, fsbl, ssbl);
  }

  method Assemble(fsbl: Bytes, ssbl: Bytes) returns (image: Bytes)
    requires |fsbl| < 0x1_0000_0000 && |ssbl| < 0x1_0000_0000
    ensures image == Assembled(fsbl, ssbl)
  {
    var count := 0;
    image := Zeros(BANK);
    image := SliceAssign(image, count, 4, Word(|fsbl|));
    count := count + 4;
    image := SliceAssign(image, count, |fsbl|, fsbl);
    count := count + FSBL_SECTOR - 4;
    image := SliceAssign(image, count, 4, Word(|ssbl|));
    count := count + 4;
    image := SliceAssign(image, count, |ssbl|, fsbl);
    count := count + FSBL_SECTOR - 4;
    image := SliceAssign(image, count, 4, Word(|fsbl|));
    count := count + 4;
    image := SliceAssign(image, count, |fsbl|, fsbl);
    count := count + OS_SECTOR - 4;
    image := SliceAssign(image, count, 4, Word(|ssbl|));
    count := count + 4;
    image := SliceAssign(image, count, |ssbl|, ssbl);
  }

  lemma CutIs(p: Bytes, b: Bytes)
    requires p <= b
    ensures b[..Clamp(|p|, |b|)] == p
  {
  }

  lemma CutIsBank(fsbl: Bytes, ssbl: Bytes)
    requires Fit(fsbl, ssbl)
    ensures var a := Assembled(fsbl, ssbl); a[..Clamp(BANK, |a|)] == Bank(fsbl, ssbl)
  {
    AssembledIsBank(fsbl, ssbl);
    CutIs(Bank(fsbl, ssbl), Assembled(fsbl, ssbl));
  }

  /** make_fw_image; OS and software slot are filled from the FSBL and SSBL files, as in the script */
  method MakeFwImage(fsbl: Bytes, ssbl: Bytes) returns (image: Bytes)
    requires |fsbl| < 0x1_0000_0000 && |ssbl| < 0x1_0000_0000
    ensures |fsbl| <= 0x3F_FFFC && |ssbl| <= 0x3F_FFFC ==> image == Bank(fsbl, ssbl)
  {
    image := Assemble(fsbl, ssbl);
    if Fit(fsbl, ssbl) {
      CutIsBank(fsbl, ssbl);
    }
    image := image[..Clamp(BANK, |image|)];
  }

  /** Byte by byte: which slot an address is in, and what that slot holds there. */
  lemma BankBytes(fsbl: Bytes, ssbl: Bytes, i: nat)
    requires |fsbl| <= 0x3F_FFFC && |ssbl| <= 0x3F_FFFC && i < 0x800_0000
    ensures Fit(fsbl, ssbl) && |Bank(fsbl, ssbl)| == 0x800_0000
    ensures
      var o := if i < 0x40_0000 then 0 else if i < 0x80_0000 then 0x40_0000
               else if i < 0x1C0_0000 then 0x80_0000 else 0x1C0_0000;
      var n := if o == 0 || o == 0x80_0000 then |fsbl| else |ssbl|;
      var content := if o == 0x1C0_0000 then ssbl else fsbl;
      Bank(fsbl, ssbl)[i] ==
        if i < o + 4 then Word(n)[i - o] else if i < o + 4 + |content| then content[i - o - 4] else 0
  {
  }

  // ---- Reading it back ----

  /** What the C side reads from a slot: the length word, then that many bytes. */
  function ReadSlot(image: Bytes, o: nat): Bytes
    requires o + 4 <= |image| && o + 4 + WordAt(image, o) <= |image|
  {
    image[o + 4..o + 4 + WordAt(image, o)]
  }

  lemma ReadSlotAt(a: Bytes, n: nat, content: Bytes, size: nat, c: Bytes)
    requires n < 0x1_0000_0000 && 4 + |content| <= size && 4 + n <= size
    ensures var image := a + Slot(n, content, size) + c;
      && WordAt(image, |a|) == n
      && ReadSlot(image, |a|) == (content + Zeros(size - 4 - |content|))[..n]
  {
  }

  /**
   The bank is exactly 128 MiB. The FSBL, OS and software slots read back the files that were
   written; the SSBL slot reads back the SSBL exactly when it is a prefix of the FSBL padded with zeros.
   */
  lemma BankReadsBack(fsbl: Bytes, ssbl: Bytes)
    requires Fit(fsbl, ssbl)
    ensures var image := Bank(fsbl, ssbl);
      && |image| == 0x800_0000
      && WordAt(image, 0) == |fsbl| && ReadSlot(image, 0) == fsbl
      && WordAt(image, 0x80_0000) == |fsbl| && ReadSlot(image, 0x80_0000) == fsbl
      && WordAt(image, 0x1C0_0000) == |ssbl| && ReadSlot(image, 0x1C0_0000) == ssbl
      && WordAt(image, 0x40_0000) == |ssbl|
      && (ReadSlot(image, 0x40_0000) == ssbl <==> ssbl <= fsbl + Zeros(0x3F_FFFC - |fsbl|))
  {
    var s1, s2 := Slot(|fsbl|, fsbl, FSBL_SECTOR), Slot(|ssbl|, fsbl, FSBL_SECTOR);
    var s3, s4 := Slot(|fsbl|, fsbl, OS_SECTOR), Slot(|ssbl|, ssbl, SW_SECTOR);
    var image := Bank(fsbl, ssbl);
    assert image == [] + s1 + (s2 + s3 + s4);
    ReadSlotAt([], |fsbl|, fsbl, FSBL_SECTOR, s2 + s3 + s4);
    assert image == s1 + s2 + (s3 + s4);
    ReadSlotAt(s1, |ssbl|, fsbl, FSBL_SECTOR, s3 + s4);
    assert image == (s1 + s2) + s3 + s4;
    ReadSlotAt(s1 + s2, |fsbl|, fsbl, OS_SECTOR, s4);
    assert image == (s1 + s2 + s3) + s4 + [];
    ReadSlotAt(s1 + s2 + s3, |ssbl|, ssbl, SW_SECTOR, []);
  }

  /** The SSBL slot does not hold the SSBL as soon as the two files differ in their first byte. */
  lemma SsblSlotDiffers(fsbl: Bytes, ssbl: Bytes)
    requires Fit(fsbl, ssbl) && fsbl != [] && ssbl != [] && fsbl[0] != ssbl[0]
    ensures ReadSlot(Bank(fsbl, ssbl), 0x40_0000) != ssbl
  {
  }
}
