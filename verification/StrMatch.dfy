/**
 c_strmatch of FSBL/cmocka.c, the wildcard matcher behind the test filters, against the
 declarative meaning of `*` (any string) and `?` (any one character).
 */
module StrMatch {

  /** The declarative meaning of a pattern. */
  ghost predicate Glob(s: string, p: string)
    decreases |p|
  {
    if p == [] then s == []
    else if p[0] == '*' then exists k :: 0 <= k <= |s| && Glob(s[k..], p[1..])
    else s != [] && (p[0] == '?' || p[0] == s[0]) && Glob(s[1..], p[1..])
  }

  /** What the first character of a pattern takes: `*` any string, `?` any one character, another character itself. */
  lemma GlobStar(s: string, p: string, k: nat)
    requires p != [] && p[0] == '*' && k <= |s| && Glob(s[k..], p[1..])
    ensures Glob(s, p)
  {
  }

  lemma GlobStarTakes(s: string, p: string) returns (k: nat)
    requires p != [] && p[0] == '*' && Glob(s, p)
    ensures k <= |s| && Glob(s[k..], p[1..])
  {
    k :| 0 <= k <= |s| && Glob(s[k..], p[1..]);
  }

  lemma GlobChar(s: string, p: string)
    requires p != [] && p[0] != '*'
    ensures Glob(s, p) <==> s != [] && (p[0] == '?' || s[0] == p[0]) && Glob(s[1..], p[1..])
  {
  }

  lemma {:induction false} GlobJoin(s: string, p: string, q: string, k: nat)
    requires k <= |s| && Glob(s[..k], p) && Glob(s[k..], q)
    ensures Glob(s, p + q)
    decreases |p|
  {
    if p == [] {
      assert p + q == q && s[k..] == s;
    } else if p[0] == '*' {
      var j := GlobStarTakes(s[..k], p);
      JoinAt(s, p, q, k, j);
      GlobStar(s, p + q, j);
    } else {
      GlobChar(s[..k], p);
      JoinAt(s, p, q, k, 1);
      GlobChar(s, p + q);
    }
  }

  lemma {:induction false} JoinAt(s: string, p: string, q: string, k: nat, j: nat)
    requires p != [] && j <= k <= |s| && Glob(s[..k][j..], p[1..]) && Glob(s[k..], q)
    ensures Glob(s[j..], (p + q)[1..])
    decreases |p|, 0
  {
    assert (p + q)[1..] == p[1..] + q;
    assert s[j..][..k - j] == s[..k][j..] && s[j..][k - j..] == s[k..];
    GlobJoin(s[j..], p[1..], q, k - j);
  }

  lemma {:induction false} GlobSplit(s: string, p: string, q: string) returns (k: nat)
    requires Glob(s, p + q)
    ensures k <= |s| && Glob(s[..k], p) && Glob(s[k..], q)
    decreases |p|
  {
    if p == [] {
      k := 0;
      assert p + q == q && s[0..] == s;
    } else if p[0] == '*' {
      var j := GlobStarTakes(s, p + q);
      k := SplitAt(s, p, q, j);
      GlobStar(s[..k], p, j);
    } else {
      GlobChar(s, p + q);
      k := SplitAt(s, p, q, 1);
      GlobChar(s[..k], p);
    }
  }

  lemma {:induction false} SplitAt(s: string, p: string, q: string, j: nat) returns (k: nat)
    requires p != [] && j <= |s| && Glob(s[j..], (p + q)[1..])
    ensures j <= k <= |s| && Glob(s[..k][j..], p[1..]) && Glob(s[k..], q)
    decreases |p|, 0
  {
    assert (p + q)[1..] == p[1..] + q;
    k := GlobSplit(s[j..], p[1..], q);
    k := k + j;
    assert s[j..][..k - j] == s[..k][j..] && s[j..][k - j..] == s[k..];
  }

  /** A pattern takes exactly the strings that split into one for each of its parts. */
  lemma {:induction false} GlobConcat(s: string, p: string, q: string)
    ensures Glob(s, p + q) <==> exists k: nat :: SplitsAt(s, p, q, k)
  {
    if k: nat :| SplitsAt(s, p, q, k) { GlobJoin(s, p, q, k); }
    if Glob(s, p + q) {
      var k := GlobSplit(s, p, q);
      assert SplitsAt(s, p, q, k);
    }
  }

  ghost predicate SplitsAt(s: string, p: string, q: string, k: nat) {
    k <= |s| && Glob(s[..k], p) && Glob(s[k..], q)
  }

  /** The patterns of at most one character. */
  lemma {:induction false} GlobAtom(s: string, c: char)
    ensures Glob(s, []) <==> s == []
    ensures Glob(s, [c]) <==> c == '*' || (|s| == 1 && (c == '?' || s[0] == c))
  {
    assert [c][1..] == [];
    if c == '*' {
      assert s[|s|..] == [];
      GlobStar(s, [c], |s|);
    } else {
      GlobChar(s, [c]);
    }
  }

  /** c_strmatch on two strings: after a `*` only non-empty suffixes are tried. */
  predicate Match(s: string, p: string)
    decreases |p|
  {
    if p == [] then s == []
    else if p[0] == '*' then p[1..] == [] || exists k :: 0 <= k < |s| && Match(s[k..], p[1..])
    else s != [] && (p[0] == '?' || s[0] == p[0]) && Match(s[1..], p[1..])
  }

  /** c_strmatch as written: a loop over both strings, with a recursive call for each suffix after a `*`. */
  method StrMatch(str: string, pattern: string) returns (ok: bool)
    ensures ok == Match(str, pattern)
    decreases |pattern|
  {
    var s, p := str, pattern;
    while true
      invariant |p| <= |pattern|
      invariant Match(str, pattern) == Match(s, p)
      decreases |p|
    {
      if p == [] {
        return s == [];
      }
      if p[0] == '*' {
        var rest := p[1..];
        if rest == [] {
          return true;
        }
        var i := 0;
        while i < |s|
          invariant 0 <= i <= |s|
          invariant forall k :: 0 <= k < i ==> !Match(s[k..], rest)
        {
          var found := StrMatch(s[i..], rest);
          if found {
            return true;
          }
          i := i + 1;
        }
        return false;
      }
      if s == [] {
        return false;
      }
      if p[0] != '?' && s[0] != p[0] {
        return false;
      }
      s, p := s[1..], p[1..];
    }
  }

  /** Whatever c_strmatch accepts is a match. */
  lemma {:induction false} MatchIsSound(s: string, p: string)
    requires Match(s, p)
    ensures Glob(s, p)
    decreases |p|
  {
    if p != [] {
      if p == "*" {
        assert Glob(s[|s|..], p[1..]);
      } else if p[0] == '*' {
        var k :| 0 <= k < |s| && Match(s[k..], p[1..]);
        MatchIsSound(s[k..], p[1..]);
      } else {
        MatchIsSound(s[1..], p[1..]);
      }
    }
  }

  // ---- The patterns it decides completely ----

  ghost predicate AllStars(p: string) {
    forall i :: 0 <= i < |p| ==> p[i] == '*'
  }

  predicate EndsInTwoStars(p: string) {
    |p| >= 2 && p[|p| - 1] == '*' && p[|p| - 2] == '*'
  }

  function StripStars(p: string): string {
    if p != [] && p[|p| - 1] == '*' then StripStars(p[..|p| - 1]) else p
  }

  /** The pattern c_strmatch really decides: a run of two or more final stars demands a character. */
  function Effective(p: string): string {
    if EndsInTwoStars(p) then StripStars(p) + "?*" else p
  }

  lemma {:induction false} GlobEmpty(p: string)
    ensures Glob("", p) <==> AllStars(p)
  {
    if p != [] {
      GlobEmpty(p[1..]);
      assert AllStars(p) <==> p[0] == '*' && AllStars(p[1..]) by {
        assert p[0] == '*' && AllStars(p[1..]) ==> AllStars([p[0]] + p[1..]);
        assert p == [p[0]] + p[1..];
      }
      if p[0] == '*' {
        assert ""[0..] == "";
        assert Glob("", p) <==> Glob(""[0..], p[1..]);
      }
    }
  }

  lemma {:induction false} StripAllStars(p: string)
    requires AllStars(p)
    ensures StripStars(p) == []
  {
    if p != [] { StripAllStars(p[..|p| - 1]); }
  }

  lemma {:induction false} StripOne(c: char)
    ensures StripStars([c]) == if c == '*' then [] else [c]
  {
    assert [c][..0] == [];
  }

  lemma {:induction false} AllStarsSnoc(p: string, c: char)
    ensures AllStars(p + [c]) <==> AllStars(p) && c == '*'
  {
    assert (p + [c])[|p|] == c && forall i :: 0 <= i < |p| ==> (p + [c])[i] == p[i];
  }

  lemma {:induction false} StripSnoc(p: string, c: char)
    ensures StripStars(p + [c]) == if c == '*' then StripStars(p) else p + [c]
  {
    assert (p + [c])[..|p|] == p;
  }

  lemma {:induction false} StripCons(c: char, p: string)
    ensures StripStars([c] + p) == if c == '*' && AllStars(p) then [] else [c] + StripStars(p)
  {
    if p == [] {
      assert [c] + p == [c];
      StripOne(c);
    } else {
      var q, x := p[..|p| - 1], p[|p| - 1];
      assert p == q + [x] && [c] + p == ([c] + q) + [x];
      StripCons(c, q);
      StripSnoc(q, x);
      StripSnoc([c] + q, x);
      AllStarsSnoc(q, x);
    }
  }

  /** Effective leaves the first character alone unless only stars are left. */
  lemma {:induction false} EffectiveCons(p: string)
    requires p != [] && !AllStars(p)
    ensures Effective(p) == [p[0]] + Effective(p[1..])
  {
    assert p == [p[0]] + p[1..];
    StripCons(p[0], p[1..]);
    assert p[0] == '*' ==> !AllStars(p[1..]);
  }

  /** Two or more stars accept exactly the non-empty strings. */
  lemma {:induction false} MatchStars(s: string, p: string)
    requires AllStars(p) && |p| >= 2
    ensures Match(s, p) <==> s != []
  {
    if s != [] {
      assert s[0..] == s;
      if |p| > 2 { MatchStars(s, p[1..]); }
      assert Match(s[0..], p[1..]);
    }
  }

  lemma {:induction false} GlobOneOrMore(s: string)
    ensures Glob(s, "?*") <==> s != []
  {
    if s != [] {
      assert "?*"[1..] == "*";
      var t := s[1..];
      assert t[|t|..] == [] && "*"[1..] == [];
      assert Glob(t[|t|..], "*"[1..]);
      assert Glob(t, "*");
    }
  }

  lemma {:induction false} EffectiveNotAllStars(p: string)
    requires !AllStars(p)
    ensures !AllStars(Effective(p))
  {
    if EndsInTwoStars(p) {
      var q := StripStars(p) + "?*";
      assert q[|q| - 2] == '?';
    }
  }

  /** For every string and every pattern: what c_strmatch decides is the effective pattern. */
  lemma {:induction false} MatchIsEffectiveGlob(s: string, p: string)
    ensures Match(s, p) <==> Glob(s, Effective(p))
    decreases |p|
  {
    if p == [] {
    } else if AllStars(p) {
      AllStarsCase(s, p);
    } else {
      EffectiveCons(p);
      var q := Effective(p[1..]);
      assert ([p[0]] + q)[1..] == q;
      if p[0] == '*' {
        StarCase(s, p);
      } else if s != [] {
        MatchIsEffectiveGlob(s[1..], p[1..]);
      }
    }
  }

  lemma {:induction false} AllStarsCase(s: string, p: string)
    requires AllStars(p) && p != []
    ensures Match(s, p) <==> Glob(s, Effective(p))
  {
    if |p| == 1 {
      assert p == "*" && p[1..] == [] && s[|s|..] == [];
      assert Glob(s[|s|..], p[1..]);
    } else {
      StripAllStars(p);
      assert StripStars(p) + "?*" == "?*";
      MatchStars(s, p);
      GlobOneOrMore(s);
    }
  }

  lemma {:induction false} StarCase(s: string, p: string)
    requires p != [] && p[0] == '*' && !AllStars(p)
    ensures Match(s, p) <==> Glob(s, ['*'] + Effective(p[1..]))
    decreases |p|, 0
  {
    var q := Effective(p[1..]);
    assert (['*'] + q)[1..] == q;
    assert !AllStars(p[1..]) by { assert p == [p[0]] + p[1..]; }
    EffectiveNotAllStars(p[1..]);
    GlobEmpty(q);
    assert s[|s|..] == "";
    forall k | 0 <= k <= |s| ensures Match(s[k..], p[1..]) <==> Glob(s[k..], q) {
      MatchIsEffectiveGlob(s[k..], p[1..]);
    }
    if k :| 0 <= k <= |s| && Glob(s[k..], q) {
      assert k < |s| && Match(s[k..], p[1..]);
    }
    if k :| 0 <= k < |s| && Match(s[k..], p[1..]) {
      assert Glob(s[k..], q);
    }
  }

  // ---- Completeness, exactly ----

  /** The number of characters a pattern demands. */
  function Demand(p: string): nat {
    if p == [] then 0 else (if p[0] == '*' then 0 else 1) + Demand(p[1..])
  }

  /** The shortest match, with 'a' for each `?`. */
  function Shortest(p: string): (s: string)
    ensures |s| == Demand(p)
  {
    if p == [] then []
    else if p[0] == '*' then Shortest(p[1..])
    else [if p[0] == '?' then 'a' else p[0]] + Shortest(p[1..])
  }

  lemma {:induction false} ShortestMatches(p: string)
    ensures Glob(Shortest(p), p)
  {
    if p != [] {
      ShortestMatches(p[1..]);
      if p[0] == '*' {
        assert Shortest(p)[0..] == Shortest(p[1..]);
      } else {
        assert Shortest(p)[1..] == Shortest(p[1..]);
      }
    }
  }

  lemma {:induction false} GlobDemands(s: string, p: string)
    requires Glob(s, p)
    ensures |s| >= Demand(p)
    decreases |p|
  {
    if p != [] {
      if p[0] == '*' {
        var k :| 0 <= k <= |s| && Glob(s[k..], p[1..]);
        GlobDemands(s[k..], p[1..]);
      } else {
        GlobDemands(s[1..], p[1..]);
      }
    }
  }

  lemma {:induction false} DemandAppend(p: string, q: string)
    ensures Demand(p + q) == Demand(p) + Demand(q)
  {
    if p == [] {
      assert p + q == q;
    } else {
      assert (p + q)[1..] == p[1..] + q;
      DemandAppend(p[1..], q);
    }
  }

  lemma {:induction false} DemandStrip(p: string)
    ensures Demand(StripStars(p)) == Demand(p)
  {
    if p != [] && p[|p| - 1] == '*' {
      DemandStrip(p[..|p| - 1]);
      assert p == p[..|p| - 1] + "*";
      DemandAppend(p[..|p| - 1], "*");
    }
  }

  /** A pattern that ends in two stars rejects its own shortest match. */
  lemma {:induction false} TwoStarsMiss(p: string)
    requires EndsInTwoStars(p)
    ensures Glob(Shortest(p), p) && !Match(Shortest(p), p)
  {
    ShortestMatches(p);
    MatchIsEffectiveGlob(Shortest(p), p);
    DemandStrip(p);
    DemandAppend(StripStars(p), "?*");
    assert Demand("?*") == 1 by { assert "?*"[1..] == "*"; }
    if Glob(Shortest(p), Effective(p)) { GlobDemands(Shortest(p), Effective(p)); }
  }

  /** c_strmatch decides a pattern correctly on all strings exactly when it does not end in two stars. */
  lemma {:induction false} CompleteIff(p: string)
    ensures (forall s: string :: Match(s, p) <==> Glob(s, p)) <==> !EndsInTwoStars(p)
  {
    if EndsInTwoStars(p) {
      TwoStarsMiss(p);
    } else {
      forall s: string ensures Match(s, p) <==> Glob(s, p) { MatchIsEffectiveGlob(s, p); }
    }
  }
}
