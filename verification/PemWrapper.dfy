/**
 SBC_ConvertRawKeyPem of FSBL/SBC_EccSignVeriify.c: the buffer size is computed in closed
 form, then header, base64 text with a newline every 64 characters, and footer are
 written into it. Lines of 64 characters are what section 2 of RFC 7468 asks for.
 */
module PemWrapper {

  import opened Basics

  const NL: byte := 10
  const LINE := 64

  /** The closed form for the newlines between lines. */
  function NewlineCount(n: nat): int {
    if n % LINE == 0 then n / LINE - 1 else n / LINE
  }

  function TotalSize(header: Bytes, n: nat, footer: Bytes): int {
    |header| + 1 + n + NewlineCount(n) + 1 + |footer| + 1 + 1
  }

  // ---- Reference ----

  /** The text cut into lines. */
  function Lines(t: Bytes): (r: seq<Bytes>)
    requires t != []
    ensures r != []
  {
    if |t| <= LINE then [t] else [t[..LINE]] + Lines(t[LINE..])
  }

  function Join(lines: seq<Bytes>): Bytes
    requires lines != []
  {
    if |lines| == 1 then lines[0] else lines[0] + [NL] + Join(lines[1..])
  }

  function Wrap(t: Bytes): Bytes
    requires t != []
  {
    Join(Lines(t))
  }

  function Flatten(lines: seq<Bytes>): Bytes {
    if lines == [] then [] else lines[0] + Flatten(lines[1..])
  }

  /** Every line has 64 characters but the last, which has 1 to 64; together they are the text. */
  lemma {:induction false} LinesAre(t: Bytes)
    requires t != []
    ensures var ls := Lines(t);
      && (forall i :: 0 <= i < |ls| - 1 ==> |ls[i]| == 64)
      && 1 <= |ls[|ls| - 1]| <= 64
      && |ls| == NewlineCount(|t|) + 1
      && Flatten(ls) == t
  {
    if |t| <= LINE {
      assert Flatten([t]) == t + Flatten([t][1..]) == t;
    } else {
      var ls := Lines(t[LINE..]);
      LinesAre(t[LINE..]);
      assert ([t[..LINE]] + ls)[1..] == ls;
      assert t == t[..LINE] + t[LINE..];
    }
  }

  lemma {:induction false} JoinLength(lines: seq<Bytes>)
    requires lines != []
    ensures |Join(lines)| == |Flatten(lines)| + |lines| - 1
  {
    if |lines| == 1 {
      assert Flatten(lines) == lines[0] + Flatten(lines[1..]) == lines[0];
    } else {
      JoinLength(lines[1..]);
    }
  }

  /** The closed form is the number of newlines the wrapped text contains. */
  lemma {:induction false} WrapLength(t: Bytes)
    requires t != []
    ensures |Wrap(t)| == |t| + NewlineCount(|t|)
  {
    LinesAre(t);
    JoinLength(Lines(t));
  }

  function DropNewlines(t: Bytes): Bytes {
    if t == [] then [] else (if t[0] == NL then [] else [t[0]]) + DropNewlines(t[1..])
  }

  lemma {:induction false} DropConcat(a: Bytes, b: Bytes)
    ensures DropNewlines(a + b) == DropNewlines(a) + DropNewlines(b)
  {
    if a == [] {
      assert a + b == b;
    } else {
      assert (a + b)[1..] == a[1..] + b;
      DropConcat(a[1..], b);
    }
  }

  lemma {:induction false} DropNone(t: Bytes)
    requires NL !in t
    ensures DropNewlines(t) == t
  {
    if t != [] {
      assert t == [t[0]] + t[1..];
      DropNone(t[1..]);
    }
  }

  /** A text longer than a line wraps to its first line, a newline and the wrapped rest. */
  lemma {:induction false} WrapCons(t: Bytes)
    requires |t| > LINE
    ensures Wrap(t) == t[..LINE] + [NL] + Wrap(t[LINE..])
  {
  }

  /** Deleting the inserted newlines gives the text back. */
  lemma {:induction false} UnwrapWrap(t: Bytes)
    requires t != [] && NL !in t
    ensures DropNewlines(Wrap(t)) == t
  {
    if |t| <= LINE {
      DropNone(t);
    } else {
      var head, rest := t[..LINE], t[LINE..];
      UnwrapWrap(rest);
      DropNone(head);
      WrapCons(t);
      DropConcat(head + [NL], Wrap(rest));
      DropConcat(head, [NL]);
      assert DropNewlines([NL]) == [] by { assert [NL][1..] == []; }
      assert t == head + rest;
    }
  }

  /** Where the wrapped text has which byte: a newline behind every 64 characters that are not the last ones. */
  lemma {:induction false} WrapAt(t: Bytes, i: nat)
    requires i < |t|
    ensures |Wrap(t)| == |t| + (|t| - 1) / 64
    ensures i + i / 64 < |Wrap(t)| && Wrap(t)[i + i / 64] == t[i]
    ensures i % 64 == 63 && i + 1 < |t| ==> i + i / 64 + 1 < |Wrap(t)| && Wrap(t)[i + i / 64 + 1] == 10
  {
    WrapLength(t);
    if |t| > LINE {
      WrapCons(t);
      if i >= LINE {
        WrapAt(t[LINE..], i - LINE);
        assert i / 64 == (i - 64) / 64 + 1 && i % 64 == (i - 64) % 64;
      }
    }
  }

  // ---- The loop ----

  /** What the loop has written after i characters. */
  function Written(t: Bytes, i: nat): Bytes
    requires i <= |t|
  {
    if i == 0 then []
    else Written(t, i - 1) + [t[i - 1]] + if i % LINE == 0 && i < |t| then [NL] else []
  }

  lemma SameColumn(i: nat)
    requires i >= LINE
    ensures (i - LINE) % LINE == i % LINE
  {
  }

  /** From a line boundary on, the loop writes the wrapped rest. */
  lemma {:induction false} WrittenShift(t: Bytes, i: nat)
    requires LINE < |t| && LINE <= i <= |t|
    ensures Written(t, i) == t[..LINE] + [NL] + Written(t[LINE..], i - LINE)
  {
    if i == LINE {
      WrittenStart(t, LINE - 1);
      assert t[..LINE] == t[..LINE - 1] + [t[LINE - 1]];
    } else {
      WrittenShift(t, i - 1);
      SameColumn(i);
      var rest, tail := t[LINE..], if i % LINE == 0 && i < |t| then [NL] else [];
      assert t[i - 1] == rest[i - 1 - LINE];
      assert Written(rest, i - LINE) == Written(rest, i - 1 - LINE) + [t[i - 1]] + tail;
    }
  }

  lemma {:induction false} WrittenStart(t: Bytes, i: nat)
    requires i <= |t| && i < LINE
    ensures Written(t, i) == t[..i]
  {
    if i > 0 {
      WrittenStart(t, i - 1);
      assert t[..i] == t[..i - 1] + [t[i - 1]];
    }
  }

  lemma {:induction false} WrittenIsWrap(t: Bytes)
    requires t != []
    ensures Written(t, |t|) == Wrap(t)
  {
    if |t| < LINE {
      WrittenStart(t, |t|);
      assert t[..|t|] == t;
    } else if |t| == LINE {
      WrittenStart(t, LINE - 1);
      assert t == t[..LINE - 1] + [t[LINE - 1]];
    } else {
      WrittenShift(t, |t|);
      WrittenIsWrap(t[LINE..]);
      WrapCons(t);
    }
  }

  lemma {:induction false} WrittenGrows(t: Bytes, i: nat)
    requires i < |t|
    ensures |Written(t, i)| + (if (i + 1) % LINE == 0 && i + 1 < |t| then 2 else 1) <= |Written(t, |t|)|
    decreases |t| - i
  {
    if i + 1 < |t| { WrittenGrows(t, i + 1); }
  }

  /** The whole PEM buffer, terminator included. */
  function Pem(header: Bytes, t: Bytes, footer: Bytes): Bytes
    requires t != []
  {
    header + [NL] + Wrap(t) + [NL] + footer + [NL] + [0]
  }

  method Put(dst: array<byte>, at: nat, b: byte, ghost prefix: Bytes)
    requires at < dst.Length && dst[..at] == prefix
    modifies dst
    ensures dst[..at + 1] == prefix + [b]
  {
    dst[at] := b;
  }

  lemma NextColumn(i: nat)
    ensures (i % LINE + 1) % LINE == 0 <==> (i + 1) % LINE == 0
    ensures (i + 1) % LINE == if (i % LINE + 1) % LINE == 0 then 0 else i % LINE + 1
  {
  }

  lemma {:induction false} WrittenNext(t: Bytes, i: nat)
    requires i < |t|
    ensures Written(t, i + 1) == Written(t, i) + [t[i]] + if (i % LINE + 1) % LINE == 0 && i + 1 < |t| then [NL] else []
  {
  }

  /** The wrapping loop; `j` counts the characters of the current line */
  method WrapInto(pem: array<byte>, at: nat, t: Bytes) returns (offset: nat)
    requires t != [] && at + |Wrap(t)| <= pem.Length
    modifies pem
    ensures offset == at + |Wrap(t)| && pem[..offset] == old(pem[..at]) + Wrap(t)
  {
    offset := at;
    var i, j := 0, 0;
    ghost var before := pem[..at];
    ghost var done: Bytes := [];
    WrittenIsWrap(t);
    while i < |t|
      invariant 0 <= i <= |t| && done == Written(t, i) && offset == at + |done| <= pem.Length
      invariant i < |t| ==> j == i % LINE
      invariant pem[..offset] == before + done
    {
      WrittenGrows(t, i);
      WrittenNext(t, i);
      NextColumn(i);
      Put(pem, offset, t[i], before + done);
      offset := offset + 1;
      done := done + [t[i]];
      if (j + 1) % LINE == 0 && i + 1 < |t| {
        Put(pem, offset, NL, before + done);
        offset := offset + 1;
        done := done + [NL];
        j := -1;
      }
      i, j := i + 1, j + 1;
    }
  }

  /** SBC_ConvertRawKeyPem from the encoded text on: every write is in bounds and the buffer is filled exactly */
  method ConvertRawKeyPem(header: Bytes, encoded: Bytes, footer: Bytes) returns (pem: array<byte>, pemSize: nat)
    requires encoded != []
    ensures pem.Length == |header| + 1 + |encoded| + (|encoded| - 1) / 64 + 1 + |footer| + 2
    ensures pem[..] == Pem(header, encoded, footer) && pemSize == pem.Length - 1
    ensures pem[..] == header + [10] + Wrap(encoded) + [10] + footer + [10, 0]
  {
    WrapLength(encoded);
    WrapAt(encoded, 0);
    pem := new byte[TotalSize(header, |encoded|, footer)](i => 0);
    CopyMem(pem, 0, header);
    var offset := |header|;
    pem[offset] := NL;
    offset := offset + 1;
    assert pem[..offset] == header + [NL];
    offset := WrapInto(pem, offset, encoded);
    offset := Finish(pem, offset, footer);
    pemSize := offset;
  }

  method Finish(pem: array<byte>, at: nat, footer: Bytes) returns (offset: nat)
    requires at + |footer| + 3 == pem.Length
    modifies pem
    ensures offset == pem.Length - 1 && pem[..] == old(pem[..at]) + [NL] + footer + [NL] + [0]
  {
    pem[at] := NL;
    offset := at + 1;
    CopyMem(pem, offset, footer);
    offset := offset + |footer|;
    pem[offset] := NL;
    offset := offset + 1;
    pem[offset] := 0;
  }

  /**
   The allocated size is what is written, terminator included, exactly for a non-empty text: for the empty one it is
   one short.
   */
  lemma SizeIsExactIff(header: Bytes, t: Bytes, footer: Bytes)
    ensures TotalSize(header, |t|, footer) == |header| + 1 + |Written(t, |t|)| + 1 + |footer| + 1 + 1 <==> t != []
  {
    if t != [] {
      WrittenIsWrap(t);
      WrapLength(t);
    }
  }

  // ---- The terminator that Base64Encode counts ----

  /** The bytes before the first NUL, as a C string reader sees them. */
  function CString(t: Bytes): Bytes {
    if t == [] || t[0] == 0 then [] else [t[0]] + CString(t[1..])
  }

  lemma {:induction false} CStringStops(a: Bytes, b: Bytes)
    requires 0 !in a
    ensures CString(a + [0] + b) == a
  {
    var t := a + [0] + b;
    if a != [] {
      assert t[1..] == a[1..] + [0] + b;
      CStringStops(a[1..], b);
      assert a == [a[0]] + a[1..];
    }
  }

  /** Wrapping adds no byte but newlines. */
  lemma {:induction false} WrapNulFree(t: Bytes)
    requires t != [] && 0 !in t
    ensures 0 !in Wrap(t)
  {
    if |t| > LINE {
      WrapCons(t);
      WrapNulFree(t[LINE..]);
    }
  }

  /** Wrapping a text with one more character wraps the text and appends the character, perhaps on a new line. */
  lemma {:induction false} WrapAppend(t: Bytes, x: byte)
    requires t != []
    ensures Wrap(t + [x]) == Wrap(t) + (if |t| % LINE == 0 then [NL] else []) + [x]
  {
    if |t| < LINE {
    } else if |t| == LINE {
      assert (t + [x])[..LINE] == t && (t + [x])[LINE..] == [x];
      WrapCons(t + [x]);
    } else {
      WrapCons(t + [x]);
      WrapCons(t);
      assert (t + [x])[..LINE] == t[..LINE] && (t + [x])[LINE..] == t[LINE..] + [x];
      WrapAppend(t[LINE..], x);
    }
  }

  /**
   Base64Encode counts its terminating NUL in the size it returns, and the loop copies it. Read as
   a C string the PEM text therefore ends with the wrapped body: the footer lies behind the NUL.
   */
  lemma {:induction false} FooterBehindNul(header: Bytes, text: Bytes, footer: Bytes)
    requires 0 !in header && 0 !in text && text != []
    ensures var seen := header + [10] + Wrap(text) + if |text| % 64 == 0 then [10] else [];
      && CString(Pem(header, text + [0], footer)) == seen && 0 !in seen
      && Pem(header, text + [0], footer) == seen + [0, 10] + footer + [10, 0]
  {
    WrapAppend(text, 0);
    WrapNulFree(text);
    var a := header + [NL] + Wrap(text) + if |text| % LINE == 0 then [NL] else [];
    var b := [NL] + footer + [NL] + [0];
    assert Pem(header, text + [0], footer) == a + [0] + b;
    assert a + [0] + b == a + [0, 10] + footer + [10, 0];
    assert 0 !in a;
    CStringStops(a, b);
  }
}
