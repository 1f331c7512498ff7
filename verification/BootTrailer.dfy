/**
 The signed FSBL image: FwSignPy/fw_sign.py writes image, base answer, firmware info,
 certificate, signature and an 8-byte length trailer; SBC_FSBL_Verify in
 FSBL/SBC_AntiTampering.c finds the pieces again from the end of the file. Hash,
 signature check and certificate parsing are parameters.
 */
module BootTrailer {

  import opened Basics

  // ---- Python strings ----

  type CodePoint = c: int | 0 <= c < 0x11_0000

  function Utf8(c: CodePoint): (r: Bytes)
    ensures 1 <= |r| <= 4
    ensures |r| == 1 <==> c < 0x80
  {
    if c < 0x80 then [c]
    else if c < 0x800 then [0xC0 + c / 0x40, 0x80 + c % 0x40]
    else if c < 0x1_0000 then [0xE0 + c / 0x1000, 0x80 + c / 0x40 % 0x40, 0x80 + c % 0x40]
    else [0xF0 + c / 0x4_0000, 0x80 + c / 0x1000 % 0x40, 0x80 + c / 0x40 % 0x40, 0x80 + c % 0x40]
  }

  /** str.encode() */
  function Encode(s: seq<CodePoint>): Bytes {
    if s == [] then [] else Utf8(s[0]) + Encode(s[1..])
  }

  ghost predicate Ascii(s: seq<CodePoint>) {
    forall i :: 0 <= i < |s| ==> s[i] < 0x80
  }

  /** The encoding has one byte per character exactly for ASCII text. */
  lemma {:induction false} EncodedLength(s: seq<CodePoint>)
    ensures |Encode(s)| >= |s|
    ensures |Encode(s)| == |s| <==> Ascii(s)
  {
    if s != [] {
      EncodedLength(s[1..]);
      assert Ascii(s) <==> s[0] < 0x80 && Ascii(s[1..]) by {
        assert forall i :: 1 <= i < |s| ==> s[i] == s[1..][i - 1];
      }
    }
  }

  /** The six bits of continuation byte i. */
  function Bits(b: Bytes, i: nat): int { if i < |b| then b[i] as int - 0x80 else 0 }

  /** The first character of UTF-8 text and the number of its bytes, which the lead byte tells. */
  function First(b: Bytes): (int, nat)
    requires b != []
  {
    var x: int := b[0];
    if x < 0x80 then (x, 1)
    else if x < 0xE0 then (64 * (x - 0xC0) + Bits(b, 1), 2)
    else if x < 0xF0 then (64 * (64 * (x - 0xE0) + Bits(b, 1)) + Bits(b, 2), 3)
    else (64 * (64 * (64 * (x - 0xF0) + Bits(b, 1)) + Bits(b, 2)) + Bits(b, 3), 4)
  }

  /** The text that is encoded as `b`. */
  function Decode(b: Bytes): Option<seq<CodePoint>>
    decreases |b|
  {
    if b == [] then Some([])
    else
      var (c, n) := First(b);
      if n == 0 || n > |b| || c < 0 || c >= 0x11_0000 then None
      else match Decode(b[n..])
        case None => None
        case Some(s) => Some([c] + s)
  }

  lemma FirstOfUtf8(c: CodePoint, rest: Bytes)
    ensures First(Utf8(c) + rest) == (c as int, |Utf8(c)|)
  {
    assert c == 0x40 * (c / 0x40) + c % 0x40;
    assert c / 0x40 == 0x40 * (c / 0x1000) + c / 0x40 % 0x40;
    assert c / 0x1000 == 0x40 * (c / 0x4_0000) + c / 0x1000 % 0x40;
  }

  /** Decoding gives back every text. */
  lemma {:induction false} DecodeEncode(s: seq<CodePoint>)
    ensures Decode(Encode(s)) == Some(s)
  {
    if s != [] {
      var b, n := Encode(s), |Utf8(s[0])|;
      FirstOfUtf8(s[0], Encode(s[1..]));
      assert b[n..] == Encode(s[1..]) && s == [s[0]] + s[1..];
      DecodeEncode(s[1..]);
    }
  }

  /** ASCII text is its own encoding, byte for byte. */
  lemma {:induction false} AsciiIsEncoded(s: seq<CodePoint>)
    requires Ascii(s)
    ensures |Encode(s)| == |s| && forall i :: 0 <= i < |s| ==> Encode(s)[i] == s[i]
  {
    if s != [] {
      AsciiIsEncoded(s[1..]);
      assert Encode(s) == [s[0]] + Encode(s[1..]);
    }
  }

  // ---- The writer ----

  /** array.array('b', ...) and array.array('h', ...) take signed values. */
  const MAX_BYTE := 127
  const MAX_SHORT := 32767

  datatype Written = EncodeError | OverflowError | File(bytes: Bytes)

  /** The trailer takes character counts for the two strings and byte counts for the rest. */
  predicate Fits(answer: seq<CodePoint>, fwInfo: seq<CodePoint>, cert: Bytes, sig: Bytes) {
    |sig| <= MAX_BYTE && |fwInfo| <= MAX_BYTE && |cert| <= MAX_SHORT && |answer| <= MAX_BYTE
  }

  function Trailer(answerLen: nat, fwLen: nat, certLen: nat, sigLen: nat): Bytes
    requires answerLen <= MAX_BYTE && fwLen <= MAX_BYTE && certLen <= MAX_SHORT && sigLen <= MAX_BYTE
  {
    [sigLen, fwLen, certLen % 0x100, certLen / 0x100, answerLen, 1, 35, 36]
  }

  /** make_fsbl_image: one concatenation, then appends to the output file. str.encode() refuses surrogates. */
  method MakeFsblImage(content: Bytes, answer: seq<CodePoint>, fwInfo: seq<CodePoint>, cert: Bytes, sig: Bytes)
    returns (r: Written)
    ensures r.EncodeError? <==>
      (exists c :: c in answer && 0xD800 <= c < 0xE000) || (exists c :: c in fwInfo && 0xD800 <= c < 0xE000)
    ensures r.OverflowError? <==>
      !r.EncodeError? && (|sig| > 127 || |fwInfo| > 127 || |cert| > 32767 || |answer| > 127)
    ensures r.File? ==>
      && Fits(answer, fwInfo, cert, sig) && r.bytes == Image(content, answer, fwInfo, cert, sig)
      && r.bytes == content + Encode(answer) + Encode(fwInfo) + cert + sig +
                    [|sig|, |fwInfo|, |cert| % 0x100, |cert| / 0x100, |answer|, 1, 35, 36]
  {
    if (exists c :: c in answer && 0xD800 <= c < 0xE000) || (exists c :: c in fwInfo && 0xD800 <= c < 0xE000) {
      return EncodeError;
    }
    var file := content + Encode(answer) + Encode(fwInfo) + cert;
    file := file + sig;
    if |sig| > MAX_BYTE || |fwInfo| > MAX_BYTE {
      return OverflowError;
    }
    file := file + [|sig|, |fwInfo|];
    if |cert| > MAX_SHORT {
      return OverflowError;
    }
    file := file + [|cert| % 0x100, |cert| / 0x100];
    if |answer| > MAX_BYTE {
      return OverflowError;
    }
    file := file + [|answer|, 1, 35, 36];
    r := File(file);
  }

  function Image(content: Bytes, answer: seq<CodePoint>, fwInfo: seq<CodePoint>, cert: Bytes, sig: Bytes): Bytes
    requires Fits(answer, fwInfo, cert, sig)
  {
    content + Encode(answer) + Encode(fwInfo) + cert + sig + Trailer(|answer|, |fwInfo|, |cert|, |sig|)
  }

  // ---- The parser ----

  const TRAILER := 8

  datatype Parsed = OutOfBounds | Pieces(image: Bytes, answer: Bytes, fwInfo: Bytes, cert: Bytes, sig: Bytes)

  /** The pieces tile the file, and each has the length its trailer field gives. */
  ghost predicate Tiles(file: Bytes, p: Parsed) {
    && p.Pieces?
    && |file| >= TRAILER
    && var t := file[|file| - TRAILER..];
       && file == p.image + p.answer + p.fwInfo + p.cert + p.sig + t
       && |p.sig| == t[0] && |p.fwInfo| == t[1] && |p.cert| == Short(t[2], t[3]) && |p.answer| == t[4]
  }

  /** A little-endian 16-bit field. */
  function Short(lo: byte, hi: byte): nat {
    var h: int := hi;
    lo + 0x100 * h
  }

  /** The bytes the trailer of a file claims in front of it. */
  function Claimed(file: Bytes): nat
    requires |file| >= TRAILER
  {
    var t := file[|file| - TRAILER..];
    var a: int, b: int, c: int := t[0], t[1], t[4];
    a + b + Short(t[2], t[3]) + c
  }

  /** The cursor walk of SBC_FSBL_Verify; OutOfBounds exactly when the claimed lengths exceed the file. */
  method Parse(file: Bytes) returns (p: Parsed)
    ensures p.OutOfBounds? <==> |file| < TRAILER || Claimed(file) > |file| - TRAILER
    ensures p.Pieces? ==> Tiles(file, p)
    ensures p.Pieces? ==> var n := |file| - 8;
      && n >= 0 && file == p.image + p.answer + p.fwInfo + p.cert + p.sig + file[n..]
      && |p.sig| == file[n] && |p.fwInfo| == file[n + 1]
      && |p.cert| == file[n + 2] as int + 0x100 * file[n + 3] as int && |p.answer| == file[n + 4]
    ensures var n := |file| - 8;
      p.OutOfBounds? <==>
        || n < 0
        || file[n] as int + file[n + 1] as int + file[n + 2] as int + 0x100 * file[n + 3] as int + file[n + 4] as int
           > n
  {
    if |file| < TRAILER {
      return OutOfBounds;
    }
    var info := file[|file| - TRAILER..];
    var sigLen: int, fwLen: int, certLen: int, answerLen: int := info[0], info[1], Short(info[2], info[3]), info[4];
    var total := sigLen + fwLen + certLen + answerLen;
    if |file| - TRAILER < total {
      return OutOfBounds;
    }
    var start := |file| - TRAILER - total;
    var cursor := start;
    var answer := file[cursor..cursor + answerLen];
    cursor := cursor + answerLen;
    var fwInfo := file[cursor..cursor + fwLen];
    cursor := cursor + fwLen;
    var cert := file[cursor..cursor + certLen];
    cursor := cursor + certLen;
    var sig := file[cursor..cursor + sigLen];
    p := Pieces(file[..start], answer, fwInfo, cert, sig);
  }

  /** The tiling is unique, so it is the meaning of the file. */
  lemma TilesUnique(file: Bytes, p: Parsed, q: Parsed)
    requires Tiles(file, p) && Tiles(file, q)
    ensures p == q
  {
    var t := file[|file| - TRAILER..];
    ConcatSame(p.image + p.answer + p.fwInfo + p.cert + p.sig, t, q.image + q.answer + q.fwInfo + q.cert + q.sig, t);
    ConcatSame(p.image + p.answer + p.fwInfo + p.cert, p.sig, q.image + q.answer + q.fwInfo + q.cert, q.sig);
    ConcatSame(p.image + p.answer + p.fwInfo, p.cert, q.image + q.answer + q.fwInfo, q.cert);
    ConcatSame(p.image + p.answer, p.fwInfo, q.image + q.answer, q.fwInfo);
    ConcatSame(p.image, p.answer, q.image, q.answer);
  }

  lemma ConcatSame(a: Bytes, b: Bytes, c: Bytes, d: Bytes)
    requires a + b == c + d && |b| == |d|
    ensures a == c && b == d
  {
    assert a == (a + b)[..|a|] && c == (c + d)[..|c|];
    assert b == (a + b)[|a|..] && d == (c + d)[|c|..];
  }

  // ---- The two sides agree ----

  /**
   For everything the signer accepts, parsing its output gives back all five pieces exactly when
   both strings are ASCII (the trailer counts characters, the file holds bytes).
   */
  lemma RoundTripIff(content: Bytes, answer: seq<CodePoint>, fwInfo: seq<CodePoint>, cert: Bytes, sig: Bytes)
    requires Fits(answer, fwInfo, cert, sig)
    ensures Tiles(Image(content, answer, fwInfo, cert, sig), Pieces(content, Encode(answer), Encode(fwInfo), cert, sig))
            <==> Ascii(answer) && Ascii(fwInfo)
  {
    var file := Image(content, answer, fwInfo, cert, sig);
    assert file[|file| - TRAILER..] == Trailer(|answer|, |fwInfo|, |cert|, |sig|);
    EncodedLength(answer);
    EncodedLength(fwInfo);
  }

  /** ReadsOutside: the trailer claims more than the file holds, and the length subtraction wraps around. */
  datatype Verdict = ReadsOutside | Rejected | NoBuffer | Accepted(answer: Bytes)

  /** What verification makes of the pieces; `poolOk` says whether the buffer for the answer could be allocated. */
  ghost function VerdictOn<Key>(p: Parsed, keyOf: Bytes -> (bool, Key), hash: Bytes -> Bytes,
                                check: (Key, Bytes, Bytes) -> bool, poolOk: bool): Verdict
    requires p.Pieces?
  {
    if !(keyOf(p.cert).0 && check(keyOf(p.cert).1, hash(p.image), p.sig)) then Rejected
    else if !poolOk then NoBuffer
    else Accepted(p.answer)
  }

  /** SBC_FSBL_Verify after the file was read; the three functions stand for the crypto library */
  method FsblVerify<Key>(file: Bytes, keyOf: Bytes -> (bool, Key), hash: Bytes -> Bytes,
                         check: (Key, Bytes, Bytes) -> bool, poolOk: bool)
    returns (v: Verdict)
    ensures forall p :: Tiles(file, p) ==> v == VerdictOn(p, keyOf, hash, check, poolOk)
    ensures (forall p :: !Tiles(file, p)) ==> v == ReadsOutside
  {
    var p := Parse(file);
    forall q | Tiles(file, q) ensures q == p {
      if p.Pieces? {
        TilesUnique(file, p, q);
      } else {
        TilesFits(file, q);
      }
    }
    if p.OutOfBounds? {
      return ReadsOutside;
    }
    var key := keyOf(p.cert);
    if !key.0 || !check(key.1, hash(p.image), p.sig) {
      return Rejected;
    }
    if !poolOk {
      return NoBuffer;
    }
    v := Accepted(p.answer);
  }

  lemma TilesFits(file: Bytes, p: Parsed)
    requires Tiles(file, p)
    ensures Claimed(file) <= |file| - TRAILER
  {
  }

  /**
   No root certificate takes part: a made image is accepted exactly when the certificate it brings along
   itself can be parsed and its key checks the signature, whatever the content and whoever signed it.
   */
  method OwnCertificateDecides<Key>(content: Bytes, answer: seq<CodePoint>, fwInfo: seq<CodePoint>, cert: Bytes,
                                    sig: Bytes,
                                    keyOf: Bytes -> (bool, Key), hash: Bytes -> Bytes,
                                    check: (Key, Bytes, Bytes) -> bool)
    returns (v: Verdict)
    requires Fits(answer, fwInfo, cert, sig) && Ascii(answer) && Ascii(fwInfo)
    ensures v.Accepted? || v.Rejected?
    ensures v.Accepted? <==> keyOf(cert).0 && check(keyOf(cert).1, hash(content), sig)
    ensures v.Accepted? ==> |v.answer| == |answer| && forall i :: 0 <= i < |answer| ==> v.answer[i] == answer[i]
  {
    AsciiIsEncoded(answer);
    var w := MakeFsblImage(content, answer, fwInfo, cert, sig);
    RoundTripIff(content, answer, fwInfo, cert, sig);
    v := FsblVerify(w.bytes, keyOf, hash, check, true);
  }

  /**
   Signer and verifier agree: an ASCII-annotated image signed over its own digest with the key of
   its certificate is accepted, and the base answer handed on is the one that was written.
   */
  method SignThenVerify<Key, Secret>(content: Bytes, answer: seq<CodePoint>, fwInfo: seq<CodePoint>, cert: Bytes,
                                     keyOf: Bytes -> (bool, Key), hash: Bytes -> Bytes,
                                     check: (Key, Bytes, Bytes) -> bool, sign: (Secret, Bytes) -> Bytes, secret: Secret)
    returns (v: Verdict)
    requires |answer| <= 127 && |fwInfo| <= 127 && |cert| <= 32767 && Ascii(answer) && Ascii(fwInfo)
    requires |sign(secret, hash(content))| == 64
    requires keyOf(cert).0 && check(keyOf(cert).1, hash(content), sign(secret, hash(content)))
    ensures v.Accepted? && |v.answer| == |answer| && forall i :: 0 <= i < |answer| ==> v.answer[i] == answer[i]
  {
    v := OwnCertificateDecides(content, answer, fwInfo, cert, sign(secret, hash(content)), keyOf, hash, check);
  }
}
