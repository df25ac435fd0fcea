/** The language of anchored globs, over any alphabet of numbers (bytes or runes), with `*` as the only wildcard,
    and the facts that let a matcher remember nothing but its latest star. */
module Glob {

  const STAR := 0x2A

  /** The reference definition: a star is empty or takes one more symbol; anything else matches itself. */
  predicate Matches(p: seq<int>, s: seq<int>)
    decreases |p| + |s|
  {
    if p == [] then s == []
    else if p[0] == STAR then Matches(p[1..], s) || (s != [] && Matches(p, s[1..]))
    else s != [] && s[0] == p[0] && Matches(p[1..], s[1..])
  }

  predicate AllStars(p: seq<int>) {
    forall i :: 0 <= i < |p| ==> p[i] == STAR
  }

  predicate Literal(p: seq<int>) {
    forall i :: 0 <= i < |p| ==> p[i] != STAR
  }

  lemma {:induction false} EmptySubject(p: seq<int>)
    ensures Matches(p, []) <==> AllStars(p)
  {
    if p != [] {
      EmptySubject(p[1..]);
      assert AllStars(p) <==> p[0] == STAR && AllStars(p[1..]);
    }
  }

  function Concat(pieces: seq<seq<int>>): seq<int> {
    if pieces == [] then [] else pieces[0] + Concat(pieces[1..])
  }

  /** The subject cut into one piece per pattern symbol: anything for an asterisk, else the symbol itself. */
  ghost predicate Covers(p: seq<int>, pieces: seq<seq<int>>, s: seq<int>) {
    && |pieces| == |p| && Concat(pieces) == s
    && forall i :: 0 <= i < |p| ==> p[i] == 0x2A || pieces[i] == [p[i]]
  }

  /** What matching means, said without recursion over the pattern. */
  lemma MatchesMeansPieces(p: seq<int>, s: seq<int>)
    ensures Matches(p, s) <==> exists pieces :: Covers(p, pieces, s)
  {
    if Matches(p, s) {
      var pieces := PiecesOfMatch(p, s);
    }
    forall pieces | Covers(p, pieces, s)
      ensures Matches(p, s)
    {
      CoveredMatches(p, pieces, s);
    }
  }

  lemma {:induction false} PiecesOfMatch(p: seq<int>, s: seq<int>) returns (pieces: seq<seq<int>>)
    requires Matches(p, s)
    ensures Covers(p, pieces, s)
    decreases |p| + |s|
  {
    if p == [] {
      pieces := [];
    } else if p[0] != STAR {
      var rest := PiecesOfMatch(p[1..], s[1..]);
      pieces := [[s[0]]] + rest;
      assert pieces[1..] == rest && s == [s[0]] + s[1..];
    } else if Matches(p[1..], s) {
      var rest := PiecesOfMatch(p[1..], s);
      pieces := [[]] + rest;
      assert pieces[1..] == rest;
    } else {
      var longer := PiecesOfMatch(p, s[1..]);
      pieces := [[s[0]] + longer[0]] + longer[1..];
      assert pieces[1..] == longer[1..] && s == [s[0]] + s[1..];
    }
  }

  lemma {:induction false} CoveredMatches(p: seq<int>, pieces: seq<seq<int>>, s: seq<int>)
    requires Covers(p, pieces, s)
    ensures Matches(p, s)
    decreases |p|, |s|
  {
    if p != [] {
      var rest := Concat(pieces[1..]);
      assert s[|pieces[0]|..] == rest;
      if p[0] != STAR || pieces[0] == [] {
        CoveredMatches(p[1..], pieces[1..], rest);
        assert pieces[0] == [] ==> s == rest;
      } else {
        var shorter := [pieces[0][1..]] + pieces[1..];
        assert shorter[1..] == pieces[1..] && s[1..] == pieces[0][1..] + rest;
        CoveredMatches(p, shorter, s[1..]);
      }
    }
  }

  /** A leading literal must be spelled out by the subject. */
  lemma {:induction false} LiteralPrefix(lit: seq<int>, p: seq<int>, s: seq<int>)
    requires Literal(lit)
    ensures Matches(lit + p, s) <==> lit <= s && Matches(p, s[|lit|..])
  {
    if lit == [] {
      assert lit + p == p && s[0..] == s;
    } else {
      assert (lit + p)[1..] == lit[1..] + p;
      if s != [] && s[0] == lit[0] {
        LiteralPrefix(lit[1..], p, s[1..]);
        assert lit <= s <==> lit[1..] <= s[1..] by {
          assert lit == [lit[0]] + lit[1..] && s == [s[0]] + s[1..];
        }
        if lit <= s {
          assert s[1..][|lit| - 1..] == s[|lit|..];
        }
      }
    }
  }

  /** What a star before a pattern means: some suffix of the subject matches the pattern. */
  lemma {:induction false} StarMeansSomeSuffix(p: seq<int>, s: seq<int>)
    ensures Matches([STAR] + p, s) <==> exists k :: 0 <= k <= |s| && Matches(p, s[k..])
    decreases |s|
  {
    assert ([STAR] + p)[1..] == p && s[0..] == s;
    if s != [] {
      StarMeansSomeSuffix(p, s[1..]);
      forall k | 0 <= k <= |s| && Matches(p, s[k..]) && k > 0
        ensures exists j :: 0 <= j <= |s[1..]| && Matches(p, s[1..][j..])
      {
        assert s[1..][k - 1..] == s[k..];
      }
      forall j | 0 <= j <= |s[1..]| && Matches(p, s[1..][j..])
        ensures exists k :: 0 <= k <= |s| && Matches(p, s[k..])
      {
        assert s[1..][j..] == s[j + 1..];
      }
    }
  }

  /** Adding symbols in front of the subject cannot hurt a pattern that starts with a star. */
  lemma {:induction false} StarAbsorbs(p: seq<int>, extra: seq<int>, s: seq<int>)
    requires p != [] && p[0] == STAR
    requires Matches(p, s)
    ensures Matches(p, extra + s)
  {
    if extra == [] {
      assert extra + s == s;
    } else {
      StarAbsorbs(p, extra[1..], s);
      assert (extra + s)[1..] == extra[1..] + s;
    }
  }

  /**
    * Why one remembered star is enough: once `*lit` has been matched up to a second star, the first star never needs
    * to be grown again.
    */
  lemma LatestStarSuffices(lit: seq<int>, p: seq<int>, s: seq<int>)
    requires Literal(lit) && lit <= s
    requires p != [] && p[0] == STAR
    ensures Matches([STAR] + lit + p, s) <==> Matches(p, s[|lit|..])
  {
    hide Matches, Literal;
    var q := lit + p;
    assert [STAR] + lit + p == [STAR] + q;
    StarMeansSomeSuffix(q, s);
    if Matches(p, s[|lit|..]) {
      LiteralPrefix(lit, p, s);
      assert s[0..] == s;
    }
    if Matches([STAR] + q, s) {
      var k :| 0 <= k <= |s| && Matches(q, s[k..]);
      LiteralPrefix(lit, p, s[k..]);
      var from := k + |lit|;
      assert s[k..][|lit|..] == s[from..];
      StarAbsorbs(p, s[|lit|..from], s[from..]);
      assert s[|lit|..from] + s[from..] == s[|lit|..];
    }
  }

  /** A mismatch right after `*lit` means the star has to take at least one more symbol. */
  lemma GrowStar(lit: seq<int>, p: seq<int>, s: seq<int>)
    requires Literal(lit) && lit < s
    requires p == [] || (p[0] != STAR && p[0] != s[|lit|])
    ensures Matches([STAR] + lit + p, s) <==> Matches([STAR] + lit + p, s[1..])
  {
    hide Matches;
    assert [STAR] + lit + p == [STAR] + (lit + p);
    StarStep(lit + p, s);
    LiteralPrefix(lit, p, s);
    HeadMismatch(p, s[|lit|..]);
  }

  lemma StarStep(p: seq<int>, s: seq<int>)
    requires s != []
    ensures Matches([STAR] + p, s) <==> Matches(p, s) || Matches([STAR] + p, s[1..])
  {
    assert ([STAR] + p)[1..] == p;
  }

  lemma HeadMismatch(p: seq<int>, s: seq<int>)
    requires s != [] && (p == [] || (p[0] != STAR && p[0] != s[0]))
    ensures !Matches(p, s)
  {
  }

  /** When `*lit` has used up the subject, only stars may remain. */
  lemma SubjectExhausted(lit: seq<int>, p: seq<int>)
    requires Literal(lit)
    ensures Matches([STAR] + lit + p, lit) <==> AllStars(p)
  {
    var q := lit + p;
    assert [STAR] + lit + p == [STAR] + q;
    StarMeansSomeSuffix(q, lit);
    forall k | 0 <= k <= |lit| && Matches(q, lit[k..])
      ensures k == 0
    {
      LiteralPrefix(lit, p, lit[k..]);
    }
    LiteralPrefix(lit, p, lit);
    assert lit[0..] == lit && lit[|lit|..] == [];
    EmptySubject(p);
  }
}
