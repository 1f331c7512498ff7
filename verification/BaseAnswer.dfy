/**
 The base-answer record of FSBL/SBC_AntiTampering.c: encrypted, stored into a shared
 configuration block at offset 0x40, read back and validated. AES-GCM is a parameter.
 */
module BaseAnswer {

  import opened Basics

  /** SYS_CONF_RES_OFS, SYS_CONF_ROOT_CA_OFS and the field lengths. */
  const RECORD_OFS := 0x40
  const ROOT_CA_OFS := 0x80
  const IV_LEN := 12
  const TAG_LEN := 16
  const RESERVED := 16
  const MAX_MSG := 256
  const STREAM_LEN := 512

  /** SYS_SETTING_STORAGE_LEN: the smallest block buffer. */
  const STORAGE_LEN := 64 + 64 + 4 * 2048 + 8192

  /** base_ansid_t without the key; `encmsg` is the used part of its 256-byte buffer */
  datatype AnswerId = AnswerId(encmsg: Bytes, iv: Bytes, tag: Bytes) {
    ghost predicate Valid() { |encmsg| <= MAX_MSG && |iv| == IV_LEN && |tag| == TAG_LEN }
  }

  /** The record as it lies in the block. */
  function Record(a: AnswerId): Bytes
    requires a.Valid()
  {
    Word(|a.encmsg|) + a.encmsg + a.iv + a.tag + Zeros(RESERVED)
  }

  /** The block `b` with `done` written over it at the record offset. */
  function Over(b: Bytes, done: Bytes): Bytes
    requires RECORD_OFS + |done| <= |b|
  {
    b[..RECORD_OFS] + done + b[RECORD_OFS + |done|..]
  }

  /** CopyMem at the cursor extends what was written so far. */
  lemma OverNext(b: Bytes, done: Bytes, src: Bytes)
    requires RECORD_OFS + |done| + |src| <= |b|
    ensures var o, cpy := Over(b, done), RECORD_OFS + |done|;
      o[..cpy] + src + o[cpy + |src|..] == Over(b, done + src)
  {
  }

  /**
   Byte by byte: the little-endian length at 0x40, then ciphertext, 12 bytes of IV, 16 of tag and 16 zeros; every
   other byte of the block stays.
   */
  lemma StoredBytes(b: Bytes, a: AnswerId, i: nat)
    requires |a.encmsg| <= 256 && |a.iv| == 12 && |a.tag| == 16 && |b| >= 16512 && i < |b|
    ensures a.Valid() && |Stored(b, a)| == |b|
    ensures var n := |a.encmsg|; var o := 0x44 + n;
      Stored(b, a)[i] ==
        if 0x40 <= i < 0x44 then Word(n)[i - 0x40]
        else if 0x44 <= i < o then a.encmsg[i - 0x44]
        else if o <= i < o + 12 then a.iv[i - o]
        else if o + 12 <= i < o + 28 then a.tag[i - o - 12]
        else if o + 28 <= i < o + 44 then 0
        else b[i]
  {
  }

  /** The first half of the record: length word and ciphertext. */
  method StoreMessage(buf: array<byte>, a: AnswerId) returns (cpy: nat)
    requires a.Valid() && buf.Length >= STORAGE_LEN
    modifies buf
    ensures var head := Word(|a.encmsg|) + a.encmsg;
      cpy == RECORD_OFS + |head| && buf[..] == Over(old(buf[..]), head)
  {
    ghost var b := buf[..];
    cpy := RECORD_OFS;
    CopyMem(buf, cpy, Word(|a.encmsg|));
    cpy := cpy + 4;
    OverNext(b, Word(|a.encmsg|), a.encmsg);
    CopyMem(buf, cpy, a.encmsg);
    cpy := cpy + |a.encmsg|;
  }

  /** _baseanswer_store between block read and block write: a cursor walks over the record */
  method Store(buf: array<byte>, a: AnswerId)
    requires a.Valid() && buf.Length >= STORAGE_LEN
    modifies buf
    ensures buf[..] == Over(old(buf[..]), Record(a))
  {
    ghost var b := buf[..];
    var cpy := StoreMessage(buf, a);
    ghost var head := Word(|a.encmsg|) + a.encmsg;
    OverNext(b, head, a.iv);
    CopyMem(buf, cpy, a.iv);
    cpy := cpy + IV_LEN;
    OverNext(b, head + a.iv, a.tag);
    CopyMem(buf, cpy, a.tag);
    cpy := cpy + TAG_LEN;
    OverNext(b, head + a.iv + a.tag, Zeros(RESERVED));
    CopyMem(buf, cpy, Zeros(RESERVED));
  }

  /** NotFound: the length word is 0. Overrun: it exceeds the 256-byte field it is copied into. */
  datatype Extracted = NotFound | Overrun | Found(a: AnswerId)

  /**
   The record `a` lies in the block: its length word, ciphertext, IV and tag follow each other at the record offset.
   */
  ghost predicate RecordAt(buf: Bytes, a: AnswerId)
    requires |buf| >= STORAGE_LEN
  {
    a.Valid() && a.encmsg != [] && Word(|a.encmsg|) + a.encmsg + a.iv + a.tag <= buf[RECORD_OFS..]
  }

  /** Where the fields of a record lie. */
  lemma RecordFields(buf: Bytes, a: AnswerId)
    requires |buf| >= STORAGE_LEN && RecordAt(buf, a)
    ensures WordAt(buf, RECORD_OFS) == |a.encmsg|
    ensures var o := RECORD_OFS + 4 + |a.encmsg|;
      && buf[RECORD_OFS + 4..o] == a.encmsg && buf[o..o + IV_LEN] == a.iv
      && buf[o + IV_LEN..o + IV_LEN + TAG_LEN] == a.tag
  {
    var r, b := Word(|a.encmsg|) + a.encmsg + a.iv + a.tag, buf[RECORD_OFS..];
    assert forall i :: 0 <= i < |r| ==> r[i] == b[i] == buf[RECORD_OFS + i];
    assert r[..4] == Word(|a.encmsg|);
  }

  lemma RecordFromFields(buf: Bytes, a: AnswerId)
    requires |buf| >= STORAGE_LEN && 0 < |a.encmsg| == WordAt(buf, RECORD_OFS) <= MAX_MSG
    requires var o := RECORD_OFS + 4 + |a.encmsg|;
      && buf[RECORD_OFS + 4..o] == a.encmsg && buf[o..o + IV_LEN] == a.iv
      && buf[o + IV_LEN..o + IV_LEN + TAG_LEN] == a.tag
    ensures RecordAt(buf, a)
  {
    WordOfWordAt(buf, RECORD_OFS);
  }

  /** A block holds at most one record. */
  lemma RecordUnique(buf: Bytes, a: AnswerId, a': AnswerId)
    requires |buf| >= STORAGE_LEN && RecordAt(buf, a) && RecordAt(buf, a')
    ensures a == a'
  {
    RecordFields(buf, a);
    RecordFields(buf, a');
  }

  /** _baseanswer_extract_from_disk after the block read */
  method Extract(buf: Bytes) returns (r: Extracted)
    requires |buf| >= STORAGE_LEN
    ensures r == NotFound <==> Word(0) <= buf[RECORD_OFS..]
    ensures forall a :: r == Found(a) <==> RecordAt(buf, a)
    ensures var n := WordAt(buf, 0x40); var o := 0x44 + n;
      r == if n == 0 then NotFound else if n > 256 then Overrun
           else Found(AnswerId(buf[0x44..o], buf[o..o + 12], buf[o + 12..o + 28]))
  {
    var offset := RECORD_OFS;
    var len := WordAt(buf, offset);
    WordOfWordAt(buf, offset);
    forall a | RecordAt(buf, a) ensures len == |a.encmsg| { RecordFields(buf, a); }
    if len == 0 {
      return NotFound;
    }
    if len > MAX_MSG {
      return Overrun;
    }
    offset := offset + 4;
    var encmsg := buf[offset..offset + len];
    offset := offset + len;
    var iv := buf[offset..offset + IV_LEN];
    offset := offset + IV_LEN;
    r := Found(AnswerId(encmsg, iv, buf[offset..offset + TAG_LEN]));
    RecordFromFields(buf, r.a);
    forall a | RecordAt(buf, a) ensures a == r.a { RecordUnique(buf, a, r.a); }
  }

  function Stored(b: Bytes, a: AnswerId): (r: Bytes)
    requires a.Valid() && |b| >= STORAGE_LEN
    ensures |r| == |b|
  {
    Over(b, Record(a))
  }

  /**
   A stored record is the one the block holds afterwards: extracting returns its ciphertext, IV and tag, in every
   block.
   */
  lemma ExtractStored(b: Bytes, a: AnswerId)
    requires a.Valid() && |b| >= STORAGE_LEN && a.encmsg != []
    ensures forall a' :: RecordAt(Stored(b, a), a') <==> a' == a
  {
    var r, s := Word(|a.encmsg|) + a.encmsg + a.iv + a.tag, Stored(b, a);
    assert Record(a) == r + Zeros(RESERVED) && s[RECORD_OFS..] == Record(a) + b[RECORD_OFS + |Record(a)|..];
    forall a' | RecordAt(s, a') ensures a' == a { RecordUnique(s, a, a'); }
  }

  /** Bytes outside the record's slot survive, whatever the block held. */
  ghost predicate KeepsNeighbours(a: AnswerId)
    requires a.Valid()
  {
    forall b: Bytes, i :: |b| == 16512 && (0 <= i < 0x40 || 0x80 <= i < |b|) ==>
      Stored(b, a)[i] == b[i]
  }

  /** 16 bytes of ciphertext is the exact limit before the record runs into the root-CA record. */
  lemma NeighboursKeptIff(a: AnswerId)
    requires a.Valid()
    ensures KeepsNeighbours(a) <==> |a.encmsg| <= 16
  {
    if |a.encmsg| > 16 {
      var x := Record(a)[ROOT_CA_OFS - RECORD_OFS];
      var b := seq(STORAGE_LEN, i => if x == 0 then 1 else 0);
      assert Stored(b, a)[ROOT_CA_OFS] == x != b[ROOT_CA_OFS];
    }
  }

  // ---- Encryption around it ----

  /**
   SBC_BaseAnswerEncryptStore up to the store. SBC_AESEncrypt drops the status of the GCM call, so
   after a failed encryption the zeroed structure is stored with the full buffer as its length.
   */
  function ToStore(encrypted: Option<(Bytes, Bytes)>, iv: Bytes): AnswerId {
    match encrypted
    case Some((cipher, tag)) => AnswerId(cipher, iv, tag)
    case None => AnswerId(Zeros(MAX_MSG), iv, Zeros(TAG_LEN))
  }

  lemma FailedEncryptionOverwrites(iv: Bytes)
    requires |iv| == IV_LEN
    ensures var a := ToStore(None, iv);
      && a.Valid() && !KeepsNeighbours(a)
      && |a.encmsg| == 256 && a.iv == iv && |a.tag| == 16
      && (forall i :: 0 <= i < 256 ==> a.encmsg[i] == 0) && forall i :: 0 <= i < 16 ==> a.tag[i] == 0
  {
    NeighboursKeptIff(ToStore(None, iv));
  }

  /** ReadsOutside: the comparison runs past the 512 bytes decrypted into. */
  datatype Verdict = Ok | Fail | Missing | Overran | ReadsOutside

  /** The decryption buffer: the plaintext and zeros behind it. */
  function Padded(plain: Bytes): (r: Bytes)
    requires |plain| <= STREAM_LEN
    ensures |r| == STREAM_LEN
  {
    plain + Zeros(STREAM_LEN - |plain|)
  }

  /** CompareMem of as many bytes as the answer has, up to the first difference. */
  function Compared(decbuf: Bytes, answer: Bytes): Verdict {
    if answer <= decbuf then Ok else if decbuf <= answer then ReadsOutside else Fail
  }

  /**
   Byte by byte: the answer is accepted exactly when it has at most 512 bytes and agrees with the plaintext, or with
   0 behind its end; a longer one is read past the buffer exactly when it agrees with all 512 bytes.
   */
  lemma ComparedBytes(plain: Bytes, answer: Bytes)
    requires |plain| <= 512
    ensures Compared(Padded(plain), answer) == Ok <==>
      |answer| <= 512 && forall i :: 0 <= i < |answer| ==> answer[i] == if i < |plain| then plain[i] else 0
    ensures Compared(Padded(plain), answer) == ReadsOutside <==>
      |answer| > 512 && forall i :: 0 <= i < 512 ==> answer[i] == if i < |plain| then plain[i] else 0
    ensures var v := Compared(Padded(plain), answer); v == Ok || v == ReadsOutside || v == Fail
  {
  }

  /** SBC_BaseAnswerValidate: only as many bytes as the answer has are compared */
  method Validate(buf: Bytes, answer: Bytes, decrypt: (Bytes, Bytes, Bytes) -> Option<Bytes>) returns (v: Verdict)
    requires |buf| >= STORAGE_LEN
    requires forall c, i, t :: decrypt(c, i, t).Some? ==> |decrypt(c, i, t).value| <= STREAM_LEN
    ensures v == Missing <==> Word(0) <= buf[RECORD_OFS..]
    ensures v == Overran <==> WordAt(buf, RECORD_OFS) > MAX_MSG
    ensures v != Missing && v != Overran <==> exists a :: RecordAt(buf, a)
    ensures forall a :: RecordAt(buf, a) ==>
      var plain := decrypt(a.encmsg, a.iv, a.tag);
      v == if plain.Some? then Compared(Padded(plain.value), answer) else Fail
    ensures v == ReadsOutside ==> |answer| > STREAM_LEN
  {
    var r := Extract(buf);
    assert r.Found? ==> RecordAt(buf, r.a);
    if r.NotFound? {
      return Missing;
    }
    if r.Overrun? {
      return Overran;
    }
    var plain := decrypt(r.a.encmsg, r.a.iv, r.a.tag);
    if plain.None? {
      return Fail;
    }
    v := Compared(Padded(plain.value), answer);
  }

  /**
   A message that was encrypted and stored validates under the same key: so does every prefix of
   it, even the empty one, and nothing that is not a prefix of the message padded with zeros.
   */
  method StoreThenValidate(buf: array<byte>, message: Bytes, answer: Bytes, iv: Bytes, cipher: Bytes, tag: Bytes,
                           decrypt: (Bytes, Bytes, Bytes) -> Option<Bytes>)
    returns (v: Verdict)
    requires buf.Length >= STORAGE_LEN && |iv| == IV_LEN && |tag| == TAG_LEN
    requires 1 <= |message| == |cipher| <= MAX_MSG
    requires decrypt(cipher, iv, tag) == Some(message)
    requires forall c, i, t :: decrypt(c, i, t).Some? ==> |decrypt(c, i, t).value| <= STREAM_LEN
    modifies buf
    ensures v == Compared(Padded(message), answer)
    ensures v == Ok <==>
      |answer| <= 512 && forall i :: 0 <= i < |answer| ==> answer[i] == if i < |message| then message[i] else 0
    ensures |message| <= 16 ==>
      forall i :: (0 <= i < 0x40 || 0x80 <= i < buf.Length) ==> buf[i] == old(buf[i])
  {
    var a := ToStore(Some((cipher, tag)), iv);
    ghost var b := buf[..];
    Store(buf, a);
    assert buf[..] == Stored(b, a);
    ExtractStored(b, a);
    ComparedBytes(message, answer);
    assert RecordAt(buf[..], a);
    v := Validate(buf[..], answer, decrypt);
    assert forall i :: 0 <= i < buf.Length ==> buf[i] == Stored(b, a)[i];
  }
}
