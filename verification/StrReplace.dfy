/**
 c_strreplace of FSBL/cmocka.c: repeated in-place replacement of the first occurrence
 of a pattern in a NUL-terminated buffer, with its termination argument.
 */
module StrReplace {

  import opened Basics

  /** The bytes of a C string, without its terminator. */
  type Text = seq<byte>

  ghost predicate NulFree(t: Text) {
    forall i :: 0 <= i < |t| ==> t[i] != 0
  }

  // ---- strstr ----

  predicate OccursAt(t: Text, p: Text, i: nat) {
    i + |p| <= |t| && t[i..i + |p|] == p
  }

  ghost predicate Occurs(t: Text, p: Text) {
    exists i: nat :: OccursAt(t, p, i)
  }

  /** strstr: the first occurrence at or after `from`. */
  function StrStr(t: Text, p: Text, from: nat := 0): (r: Option<nat>)
    requires from <= |t|
    ensures r.Some? ==>
      from <= r.value && OccursAt(t, p, r.value) && forall i :: from <= i < r.value ==> !OccursAt(t, p, i)
    ensures r.None? ==> forall i :: from <= i ==> !OccursAt(t, p, i)
    decreases |t| - from
  {
    if OccursAt(t, p, from) then Some(from)
    else if from == |t| then None
    else StrStr(t, p, from + 1)
  }

  // ---- The loop ----

  function Max(a: nat, b: nat): (r: nat)
    ensures r >= a && r >= b && (r == a || r == b)
  {
    if a < b then b else a
  }

  /** The overflow check passes. */
  predicate HasRoom(t: Text, cap: nat, p: Text, r: Text) {
    |t| + Max(|p|, |r|) + 1 < cap
  }

  /** One turn: the first occurrence of `p` becomes `r`. */
  function ReplaceFirst(t: Text, p: Text, r: Text): Text
    requires StrStr(t, p).Some?
  {
    var of := StrStr(t, p).value;
    t[..of] + r + t[of + |p|..]
  }

  /** The loop would turn for ever: it replaces the pattern by itself and has room to do so. */
  ghost predicate Diverges(t: Text, cap: nat, p: Text, r: Text) {
    p == r && Occurs(t, p) && HasRoom(t, cap, p, r)
  }

  // ---- Termination: length, remaining room, or the text read as a number ----

  function Pow(n: nat): (r: nat) ensures r > 0 { if n == 0 then 1 else 256 * Pow(n - 1) }

  /** The text as a base-256 number, most significant byte first. */
  function Val(t: Text): nat {
    if t == [] then 0 else 256 * Val(t[..|t| - 1]) + t[|t| - 1]
  }

  lemma {:induction false} ValAppend(a: Text, b: Text)
    ensures Val(a + b) == Val(a) * Pow(|b|) + Val(b)
    decreases |b|
  {
    if b == [] {
      assert a + b == a;
    } else {
      var c := b[..|b| - 1];
      assert (a + b)[..|a + b| - 1] == a + c;
      ValAppend(a, c);
      assert Val(a + b) == 256 * (Val(a) * Pow(|c|) + Val(c)) + b[|b| - 1];
      MulShift(Val(a), Pow(|c|));
    }
  }

  lemma {:induction false} MulShift(x: nat, y: nat)
    ensures 256 * (x * y) == x * (256 * y)
  {
  }

  lemma {:induction false} ValBound(t: Text)
    ensures Val(t) < Pow(|t|)
  {
    if t != [] { ValBound(t[..|t| - 1]); }
  }

  lemma {:induction false} ValInjective(a: Text, b: Text)
    requires |a| == |b| && Val(a) == Val(b)
    ensures a == b
  {
    if a != [] {
      var n := |a| - 1;
      assert Val(a) / 256 == Val(a[..n]) && Val(a) % 256 == a[n];
      assert Val(b) / 256 == Val(b[..n]) && Val(b) % 256 == b[n];
      ValInjective(a[..n], b[..n]);
      assert a == a[..n] + [a[n]] && b == b[..n] + [b[n]];
    }
  }

  /** Exchanging equally long middles moves the number the way the middles differ. */
  lemma {:induction false} ValExchange(a: Text, x: Text, y: Text, c: Text)
    requires |x| == |y| && Val(x) < Val(y)
    ensures Val(a + x + c) < Val(a + y + c)
  {
    ValAppend(a + x, c);
    ValAppend(a + y, c);
    ValAppend(a, x);
    ValAppend(a, y);
    MulMonotone(Val(a + x), Val(a + y), Pow(|c|));
  }

  lemma {:induction false} MulMonotone(x: nat, y: nat, z: nat)
    requires x < y && z > 0
    ensures x * z < y * z
  {
  }

  /** What goes down on every turn: length, room left, or distance in byte order. */
  function Measure(t: Text, cap: nat, p: Text, r: Text): nat {
    if |r| < |p| then |t|
    else if |r| > |p| then if |t| < cap then cap - |t| else 0
    else if Val(r) < Val(p) then Val(t)
    else ValBound(t); Pow(|t|) - Val(t)
  }

  /** At equal length the text moves strictly one way in byte order. */
  lemma {:induction false} EqualLengthTurn(a: Text, p: Text, r: Text, c: Text, cap: nat)
    requires |r| == |p| && p != r
    ensures Measure(a + r + c, cap, p, r) < Measure(a + p + c, cap, p, r)
  {
    if Val(r) == Val(p) { ValInjective(r, p); }
    if Val(r) < Val(p) { ValExchange(a, r, p, c); } else { ValExchange(a, p, r, c); }
    ValBound(a + p + c);
    ValBound(a + r + c);
    assert |a + p + c| == |a + r + c|;
  }

  lemma {:induction false} MeasureDecreases(t: Text, cap: nat, p: Text, r: Text)
    requires p != r && StrStr(t, p).Some? && HasRoom(t, cap, p, r)
    ensures Measure(ReplaceFirst(t, p, r), cap, p, r) < Measure(t, cap, p, r)
  {
    var of := StrStr(t, p).value;
    if |r| == |p| {
      assert t == t[..of] + p + t[of + |p|..];
      EqualLengthTurn(t[..of], p, r, t[of + |p|..], cap);
    } else {
      assert |ReplaceFirst(t, p, r)| == |t| - |p| + |r|;
    }
  }

  /** The text at the start of turn n of the do-while loop; None once the loop was left or not entered. */
  ghost function Turns(t: Text, cap: nat, p: Text, r: Text, n: nat): (u: Option<Text>)
    decreases n
  {
    if StrStr(t, p).None? then None
    else if n == 0 then Some(t)
    else if !HasRoom(t, cap, p, r) then None
    else Turns(ReplaceFirst(t, p, r), cap, p, r, n - 1)
  }

  lemma {:induction false} TurnsBounded(t: Text, cap: nat, p: Text, r: Text, n: nat)
    requires p != r
    ensures Turns(t, cap, p, r, n).Some? ==> n <= Measure(t, cap, p, r)
    decreases n
  {
    if n > 0 && Turns(t, cap, p, r, n).Some? {
      MeasureDecreases(t, cap, p, r);
      TurnsBounded(ReplaceFirst(t, p, r), cap, p, r, n - 1);
    }
  }

  lemma {:induction false} ReplaceBySelf(t: Text, p: Text)
    requires StrStr(t, p).Some?
    ensures ReplaceFirst(t, p, p) == t
  {
  }

  lemma {:induction false} TurnsForever(t: Text, cap: nat, p: Text, n: nat)
    requires StrStr(t, p).Some? && HasRoom(t, cap, p, p)
    ensures Turns(t, cap, p, p, n) == Some(t)
  {
    if n > 0 {
      TurnsForever(t, cap, p, n - 1);
      ReplaceBySelf(t, p);
    }
  }

  lemma {:induction false} StopsAtOnce(t: Text, cap: nat, p: Text)
    requires !(Occurs(t, p) && HasRoom(t, cap, p, p))
    ensures Turns(t, cap, p, p, 1).None?
  {
    if StrStr(t, p).Some? { assert OccursAt(t, p, StrStr(t, p).value); }
  }

  /**
   The loop is left after some turn exactly when it does not replace an occurring pattern by itself with room to do
   so.
   */
  lemma {:induction false} TerminatesIff(t: Text, cap: nat, p: Text, r: Text)
    ensures (exists n: nat :: Turns(t, cap, p, r, n).None?) <==> !(p == r && Occurs(t, p) && |t| + |p| + 1 < cap)
  {
    if Diverges(t, cap, p, r) {
      forall n: nat ensures Turns(t, cap, p, r, n).Some? { TurnsForever(t, cap, p, n); }
    } else if p == r {
      StopsAtOnce(t, cap, p);
    } else {
      TurnsBounded(t, cap, p, r, Measure(t, cap, p, r) + 1);
      assert Turns(t, cap, p, r, Measure(t, cap, p, r) + 1).None?;
    }
  }

  /** The do-while loop, entered with an occurrence: its return code and final text. */
  function Loop(t: Text, cap: nat, p: Text, r: Text): (res: (int, Text, bool))
    requires StrStr(t, p).Some? && !(p == r && HasRoom(t, cap, p, r))
    decreases Measure(t, cap, p, r)
  {
    if !HasRoom(t, cap, p, r) then (-1, t, false)
    else
      MeasureDecreases(t, cap, p, r);
      var t' := ReplaceFirst(t, p, r);
      if StrStr(t', p).None? then (0, t', true)
      else
        var (rc, final, _) := Loop(t', cap, p, r);
        (rc, final, true)
  }

  /** c_strreplace: return code, final text, and whether *str_replaced was set. */
  function Replace(t: Text, cap: nat, p: Text, r: Text): (res: (int, Text, bool))
    requires !Diverges(t, cap, p, r)
  {
    if StrStr(t, p).None? then (-1, t, false) else Loop(t, cap, p, r)
  }

  // ---- What it promises ----

  ghost predicate Kept(t: Text, cap: nat, p: Text, r: Text, res: (int, Text, bool)) {
    && (res.0 == 0 || res.0 == -1)
    && (res.0 == 0 <==> !Occurs(res.1, p))
    && (res.0 == -1 ==> !HasRoom(res.1, cap, p, r))
    && (|t| < cap ==> |res.1| < cap)
    && (res.2 <==> HasRoom(t, cap, p, r))
    && (!res.2 ==> res.1 == t)
  }

  lemma {:induction false} LoopKeeps(t: Text, cap: nat, p: Text, r: Text)
    requires StrStr(t, p).Some? && !(p == r && HasRoom(t, cap, p, r))
    ensures Kept(t, cap, p, r, Loop(t, cap, p, r))
    decreases Measure(t, cap, p, r)
  {
    if HasRoom(t, cap, p, r) {
      MeasureDecreases(t, cap, p, r);
      var t' := ReplaceFirst(t, p, r);
      if StrStr(t', p).Some? { LoopKeeps(t', cap, p, r); }
    }
  }

  /**
   On return 0 no occurrence is left; on return -1 either there was none to begin with or
   one is left and the buffer has no room for the next turn. The text stays inside the buffer,
   and it is untouched exactly when nothing was replaced.
   */
  lemma {:induction false} ReplaceKeeps(t: Text, cap: nat, p: Text, r: Text)
    requires !Diverges(t, cap, p, r)
    ensures var (rc, t', replaced) := Replace(t, cap, p, r);
      && (rc == 0 ==> !Occurs(t', p) && replaced)
      && (rc == -1 ==>
            || (!Occurs(t, p) && t' == t && !replaced)
            || (Occurs(t', p) && (cap <= |t'| + |p| + 1 || cap <= |t'| + |r| + 1)))
      && (rc == 0 || rc == -1)
      && (|t| < cap ==> |t'| < cap)
      && (replaced <==> Occurs(t, p) && |t| + |p| + 1 < cap && |t| + |r| + 1 < cap)
      && (!replaced ==> t' == t)
  {
    if StrStr(t, p).Some? { LoopKeeps(t, cap, p, r); }
  }

  // ---- Ordinary global substitution ----

  /** Left-to-right substitution of every non-overlapping occurrence. */
  function Subst(t: Text, p: Text, r: Text): Text
    requires p != []
    decreases |t|
  {
    if t == [] then []
    else if OccursAt(t, p, 0) then r + Subst(t[|p|..], p, r)
    else [t[0]] + Subst(t[1..], p, r)
  }

  lemma {:induction false} OccursInTail(t: Text, p: Text, i: nat)
    requires t != []
    ensures OccursAt(t[1..], p, i) <==> OccursAt(t, p, i + 1)
  {
  }

  /** No occurrence starts among the first k bytes. */
  ghost predicate NoneBefore(t: Text, p: Text, k: nat) {
    forall i :: 0 <= i < k ==> !OccursAt(t, p, i)
  }

  lemma {:induction false} NoneBeforeTail(t: Text, p: Text, k: nat)
    requires t != [] && k > 0 && NoneBefore(t, p, k)
    ensures NoneBefore(t[1..], p, k - 1)
  {
    forall i | 0 <= i < k - 1 ensures !OccursAt(t[1..], p, i) { OccursInTail(t, p, i); }
  }

  lemma {:induction false} ConsTake(t: Text, k: nat, x: Text)
    requires 0 < k <= |t|
    ensures [t[0]] + (t[1..][..k - 1] + x) == t[..k] + x
    ensures t[1..][k - 1..] == t[k..]
  {
  }

  lemma {:induction false} SubstSkips(t: Text, p: Text, r: Text, k: nat)
    requires p != [] && k <= |t| && NoneBefore(t, p, k)
    ensures Subst(t, p, r) == t[..k] + Subst(t[k..], p, r)
    decreases k
  {
    if k == 0 {
      assert t[0..] == t;
    } else {
      NoneBeforeTail(t, p, k);
      SubstSkips(t[1..], p, r, k - 1);
      ConsTake(t, k, Subst(t[k..], p, r));
    }
  }

  /** No byte of the replacement occurs in the pattern. */
  ghost predicate Apart(p: Text, r: Text) {
    forall i, j :: 0 <= i < |p| && 0 <= j < |r| ==> p[i] != r[j]
  }

  /** A turn creates no occurrence before the end of the replacement it wrote. */
  lemma {:induction false} NoNewOccurrence(a: Text, p: Text, r: Text, c: Text, i: nat)
    requires p != [] && r != [] && Apart(p, r) && i < |a| + |r|
    requires i < |a| ==> !OccursAt(a + p + c, p, i)
    ensures !OccursAt(a + r + c, p, i)
  {
    var t' := a + r + c;
    if i + |p| <= |a| {
      assert t'[i..i + |p|] == (a + p + c)[i..i + |p|];
    } else if i + |p| <= |t'| {
      var j := if i < |a| then |a| - i else 0;
      assert t'[i..i + |p|][j] == t'[i + j] == r[i + j - |a|] != p[j];
    }
  }

  lemma {:induction false} SubstBefore(a: Text, p: Text, r: Text, c: Text)
    requires p != [] && forall i :: 0 <= i < |a| ==> !OccursAt(a + p + c, p, i)
    ensures Subst(a + p + c, p, r) == a + r + Subst(c, p, r)
  {
    var t := a + p + c;
    SubstSkips(t, p, r, |a|);
    assert t[..|a|] == a && t[|a|..] == p + c;
    assert OccursAt(p + c, p, 0) && (p + c)[|p|..] == c;
    assert a + (r + Subst(c, p, r)) == a + r + Subst(c, p, r);
  }

  lemma {:induction false} SubstAfter(a: Text, p: Text, r: Text, c: Text)
    requires p != [] && r != [] && Apart(p, r) && forall i :: 0 <= i < |a| ==> !OccursAt(a + p + c, p, i)
    ensures Subst(a + r + c, p, r) == a + r + Subst(c, p, r)
  {
    var t := a + r + c;
    forall i | 0 <= i < |a + r| ensures !OccursAt(t, p, i) { NoNewOccurrence(a, p, r, c, i); }
    SubstSkips(t, p, r, |a + r|);
    assert t[..|a + r|] == a + r && t[|a + r|..] == c;
  }

  lemma {:induction false} TurnKeepsSubst(t: Text, p: Text, r: Text)
    requires p != [] && r != [] && Apart(p, r) && StrStr(t, p).Some?
    ensures Subst(ReplaceFirst(t, p, r), p, r) == Subst(t, p, r)
  {
    var of := StrStr(t, p).value;
    assert t == t[..of] + p + t[of + |p|..];
    SubstBefore(t[..of], p, r, t[of + |p|..]);
    SubstAfter(t[..of], p, r, t[of + |p|..]);
  }

  lemma {:induction false} SubstFixed(t: Text, p: Text, r: Text)
    requires p != [] && !Occurs(t, p)
    ensures Subst(t, p, r) == t
  {
    SubstSkips(t, p, r, |t|);
    assert t[|t|..] == [] && t[..|t|] == t;
  }

  lemma {:induction false} LoopSubst(t: Text, cap: nat, p: Text, r: Text)
    requires p != [] && r != [] && Apart(p, r) && p != r && StrStr(t, p).Some?
    ensures Subst(Loop(t, cap, p, r).1, p, r) == Subst(t, p, r)
    decreases Measure(t, cap, p, r)
  {
    if HasRoom(t, cap, p, r) {
      MeasureDecreases(t, cap, p, r);
      TurnKeepsSubst(t, p, r);
      var t' := ReplaceFirst(t, p, r);
      if StrStr(t', p).Some? { LoopSubst(t', cap, p, r); }
    }
  }

  /** When the replacement shares no byte with the pattern, success means ordinary global substitution. */
  lemma {:induction false} ReplaceIsSubst(t: Text, cap: nat, p: Text, r: Text)
    requires p != [] && r != [] && Apart(p, r)
    ensures p != r && !Diverges(t, cap, p, r)
    ensures Replace(t, cap, p, r).0 == 0 ==> Replace(t, cap, p, r).1 == Subst(t, p, r)
  {
    assert p[0] != r[0];
    ReplaceKeeps(t, cap, p, r);
    if Replace(t, cap, p, r).0 == 0 {
      LoopSubst(t, cap, p, r);
      SubstFixed(Replace(t, cap, p, r).1, p, r);
    }
  }

  // ---- The procedure on its buffer ----

  /** The buffer holds the NUL-terminated text `t`. */
  ghost predicate Holds(buf: seq<byte>, t: Text) {
    |t| < |buf| && buf[..|t|] == t && buf[|t|] == 0 && NulFree(t)
  }

  method StrLen(src: array<byte>, ghost t: Text) returns (n: nat)
    requires Holds(src[..], t)
    ensures n == |t|
  {
    n := 0;
    assert forall i :: 0 <= i < |t| ==> src[i] == src[..][..|t|][i] == t[i];
    while src[n] != 0
      invariant n <= |t|
      decreases |t| - n
    {
      n := n + 1;
    }
  }

  /** memmove inside one buffer: all bytes are read before any is written. */
  method MemMove(a: array<byte>, dst: nat, src: nat, n: nat)
    requires dst + n <= a.Length && src + n <= a.Length
    modifies a
    ensures var b := old(a[..]); a[..] == b[..dst] + b[src..src + n] + b[dst + n..]
  {
    forall i | 0 <= i < n { a[dst + i] := a[src + i]; }
  }

  /** The buffer after the two block moves of one turn: the tail with its NUL shifted, then `r` copied in. */
  function Spliced(b: seq<byte>, of: nat, pl: nat, l: nat, r: Text): seq<byte>
    requires of + pl <= l && l < |b| && l - pl + |r| < |b|
  {
    var n := l - of - pl + 1;
    b[..of] + r + b[of + pl..of + pl + n] + b[of + |r| + n..]
  }

  lemma {:induction false} SplicedHolds(b: seq<byte>, of: nat, l: nat, t: Text, p: Text, r: Text)
    requires Holds(b, t) && OccursAt(t, p, of) && l == |t| && l - |p| + |r| < |b| && NulFree(r)
    ensures Holds(Spliced(b, of, |p|, l, r), t[..of] + r + t[of + |p|..])
    ensures forall i :: l + Max(|p|, |r|) < i < |b| ==> Spliced(b, of, |p|, l, r)[i] == b[i]
  {
  }

  lemma {:induction false} SpliceParts(b: seq<byte>, b1: seq<byte>, of: nat, pl: nat, l: nat, r: Text)
    requires of + pl <= l && l + Max(pl, |r|) + 1 < |b|
    requires var n := l - of - pl + 1;
      b1 == if |r| != pl then b[..of + |r|] + b[of + pl..of + pl + n] + b[of + |r| + n..] else b
    ensures |b1| == |b| && b1[..of] + r + b1[of + |r|..] == Spliced(b, of, pl, l, r)
  {
  }

  /** The memmove and memcpy of one turn. */
  method Splice(src: array<byte>, of: nat, pl: nat, l: nat, r: Text)
    requires of + pl <= l && l + Max(pl, |r|) + 1 < src.Length
    modifies src
    ensures src[..] == Spliced(old(src[..]), of, pl, l, r)
  {
    ghost var b := src[..];
    if |r| != pl {
      MemMove(src, of + |r|, of + pl, l - of - pl + 1);
    }
    SpliceParts(b, src[..], of, pl, l, r);
    CopyMem(src, of, r);
  }

  /** One turn of the loop on the buffer. */
  method Turn(src: array<byte>, of: nat, l: nat, p: Text, r: Text, ghost t: Text)
    requires Holds(src[..], t) && l == |t| && OccursAt(t, p, of) && l + Max(|p|, |r|) + 1 < src.Length && NulFree(r)
    modifies src
    ensures Holds(src[..], t[..of] + r + t[of + |p|..])
    ensures forall i :: l + Max(|p|, |r|) < i < src.Length ==> src[i] == old(src[i])
  {
    ghost var b := src[..];
    Splice(src, of, |p|, l, r);
    SplicedHolds(b, of, l, t, p, r);
    assert forall i :: 0 <= i < src.Length ==> src[i] == src[..][i];
  }

  /** c_strreplace in place; `written` is *str_replaced */
  method StrReplaceInPlace(src: array<byte>, srcLen: nat, p: Text, r: Text, ghost t: Text)
    returns (rc: int, written: bool, ghost t': Text)
    requires srcLen <= src.Length && Holds(src[..], t) && NulFree(r)
    requires !Diverges(t, srcLen, p, r)
    modifies src
    ensures (rc, t', written) == Replace(t, srcLen, p, r)
    ensures Holds(src[..], t')
    ensures forall i :: srcLen <= i < src.Length ==> src[i] == old(src[i])
  {
    t', written := t, false;
    var l := StrLen(src, t');
    var at := StrStr(src[..l], p);
    if at.None? {
      return -1, false, t;
    }
    while true
      invariant Holds(src[..], t') && l == |t'| && at == StrStr(t', p) && at.Some?
      invariant !(p == r && HasRoom(t', srcLen, p, r))
      invariant Replace(t, srcLen, p, r) == (var (c, f, w) := Loop(t', srcLen, p, r); (c, f, w || written))
      invariant forall i :: srcLen <= i < src.Length ==> src[i] == old(src[i])
      decreases Measure(t', srcLen, p, r)
    {
      if srcLen <= l + Max(|p|, |r|) + 1 {
        return -1, written, t';
      }
      MeasureDecreases(t', srcLen, p, r);
      Turn(src, at.value, l, p, r, t');
      t' := ReplaceFirst(t', p, r);
      written := true;
      l := StrLen(src, t');
      at := StrStr(src[..l], p);
      if at.None? {
        return 0, true, t';
      }
    }
  }
}
