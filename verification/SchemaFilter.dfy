/** `internal/schemafilter`: which schema names a list of exact names and glob patterns allows. */
module SchemaFilter {
  import opened Results
  import opened Utf8
  import Glob

  const MAX_SCHEMA_RUNES := 64

  datatype PatternError = EmptyPattern | NotUtf8 | TooLong | ContainsNul

  /** What `Validate` reports, in the order in which it looks. */
  function PatternProblem(pattern: seq<byte>): Option<PatternError> {
    if pattern == [] then Some(EmptyPattern)
    else if !Valid(pattern) then Some(NotUtf8)
    else if |Runes(pattern)| > MAX_SCHEMA_RUNES then Some(TooLong)
    else if 0 in pattern then Some(ContainsNul)
    else None
  }

  predicate ValidPattern(pattern: seq<byte>) {
    PatternProblem(pattern).None?
  }

  /** `validateIdentifier` and `validateMySQLIdentifier`: the same conditions, for names. */
  predicate ValidIdentifier(identifier: Name) {
    PatternProblem(identifier).None?
  }

  lemma {:induction false} NulOfEncode(rs: seq<rune>)
    ensures 0 in Encode(rs) <==> 0 in rs
  {
    if rs != [] {
      NulOfEncode(rs[1..]);
      assert rs == [rs[0]] + rs[1..];
      NulOfRune(rs[0]);
    }
  }

  lemma NulOfRune(r: rune)
    ensures 0 in EncodeRune(r) <==> r == 0
  {
    var bs := EncodeRune(r);
    if 0 in bs {
      var i :| 0 <= i < |bs| && bs[i] == 0;
      assert i > 0 ==> IsContinuation(bs[i]);
    } else {
      assert bs[0] in bs;
    }
  }

  /** Exactly the encodings of 1 to 64 runes other than NUL are valid, as patterns and as identifiers. */
  lemma ValidMeans(text: seq<byte>)
    ensures ValidPattern(text) <==> exists rs: seq<rune> :: Encode(rs) == text && 1 <= |rs| <= 64 && 0 !in rs
    ensures ValidIdentifier(text) <==> ValidPattern(text)
  {
    hide Runes, Valid, Encode;
    EncodesNothing();
    if ValidPattern(text) {
      EncodeOfRunes(text);
      NulOfEncode(Runes(text));
    }
    forall rs: seq<rune> | Encode(rs) == text && 1 <= |rs| <= 64 && 0 !in rs
      ensures ValidPattern(text)
    {
      RunesOfEncode(rs);
      NulOfEncode(rs);
      RunesOfNothing();
    }
  }

  lemma EncodesNothing()
    ensures Encode([]) == []
  {
  }

  lemma RunesOfNothing()
    ensures Runes([]) == []
  {
  }

  /** The promise of `Match`: an anchored, case-sensitive glob over runes; malformed input never matches. */
  predicate GlobAllows(pattern: seq<byte>, name: seq<byte>) {
    ValidPattern(pattern) && Valid(name) && Glob.Matches(Runes(pattern), Runes(name))
  }

  /** The loop remembers one star only; `LatestStarSuffices` is the reason that loses no match. */
  method Match(pattern: seq<byte>, name: seq<byte>) returns (ok: bool)
    ensures ok <==> GlobAllows(pattern, name)
  {
    hide Glob.Matches, Glob.AllStars, Glob.Literal, StarState, Valid, Runes;
    if PatternProblem(pattern).Some? || !Valid(name) {
      return false;
    }
    var p, n := Runes(pattern), Runes(name);
    var pi, ni := 0, 0;
    var star, starName := -1, -1;
    InitialState(p, n);
    while ni < |n|
      invariant LoopState(p, n, pi, ni, star, starName)
      decreases |n| - starName, |n| - ni + |p| - pi
    {
      if pi < |p| && p[pi] == Glob.STAR {
        NewStar(p, n, pi, ni, star, starName);
        star := pi;
        starName := ni;
        pi := pi + 1;
      } else if pi < |p| && p[pi] == n[ni] {
        LiteralStep(p, n, pi, ni, star, starName);
        pi := pi + 1;
        ni := ni + 1;
      } else if star >= 0 {
        Mismatch(p, n, pi, ni, star, starName);
        starName := starName + 1;
        ni := starName;
        pi := star + 1;
      } else {
        NoStarYet(p, n, pi, ni);
        return false;
      }
    }
    Finish(p, n, pi, ni, star, starName);
    var j := pi;
    while j < |p| && p[j] == Glob.STAR
      invariant pi <= j <= |p|
      invariant forall i :: pi <= i < j ==> p[i] == Glob.STAR
    {
      j := j + 1;
    }
    ok := j == |p|;
    OnlyStarsLeft(p, pi, j);
  }

  /** The latest star sits at `star`, started at `starName`, and what follows it has been spelled out so far. */
  ghost predicate StarState(p: seq<rune>, n: seq<rune>, pi: int, ni: int, star: int, starName: int) {
    && 0 <= star < pi <= |p| && 0 <= starName <= ni <= |n|
    && p[star] == Glob.STAR
    && Glob.Literal(p[star + 1..pi]) && p[star + 1..pi] == n[starName..ni]
  }

  /** What the matching loop knows: without a star, a spelled-out prefix; with one, that only it still matters. */
  ghost predicate LoopState(p: seq<rune>, n: seq<rune>, pi: int, ni: int, star: int, starName: int) {
    && 0 <= pi <= |p| && -1 <= star < pi && 0 <= ni <= |n| && -1 <= starName <= ni
    && if star < 0 then
         star == starName == -1 && Glob.Literal(p[..pi]) && p[..pi] == n[..ni]
       else
         StarState(p, n, pi, ni, star, starName) && (Glob.Matches(p, n) <==> Glob.Matches(p[star..], n[starName..]))
  }

  lemma InitialState(p: seq<rune>, n: seq<rune>)
    ensures LoopState(p, n, 0, 0, -1, -1)
  {
  }

  lemma NewStar(p: seq<rune>, n: seq<rune>, pi: int, ni: int, star: int, starName: int)
    requires LoopState(p, n, pi, ni, star, starName) && pi < |p| && p[pi] == Glob.STAR
    ensures LoopState(p, n, pi + 1, ni, pi, ni) && starName <= ni
  {
    if star < 0 {
      Glob.LiteralPrefix(p[..pi], p[pi..], n);
      assert p == p[..pi] + p[pi..] && |p[..pi]| == ni;
      assert n == n[..ni] + n[ni..];
    } else {
      var lit := p[star + 1..pi];
      Glob.LatestStarSuffices(lit, p[pi..], n[starName..]);
      assert p[star..] == [Glob.STAR] + lit + p[pi..];
      assert n[starName..] == lit + n[ni..];
      assert n[starName..][|lit|..] == n[ni..];
    }
  }

  lemma LiteralStep(p: seq<rune>, n: seq<rune>, pi: int, ni: int, star: int, starName: int)
    requires LoopState(p, n, pi, ni, star, starName) && pi < |p| && ni < |n| && p[pi] != Glob.STAR && p[pi] == n[ni]
    ensures LoopState(p, n, pi + 1, ni + 1, star, starName)
  {
    if star < 0 {
      assert p[..pi + 1] == p[..pi] + [p[pi]] && n[..ni + 1] == n[..ni] + [n[ni]];
    } else {
      assert p[star + 1..pi + 1] == p[star + 1..pi] + [p[pi]];
      assert n[starName..ni + 1] == n[starName..ni] + [n[ni]];
    }
  }

  lemma Mismatch(p: seq<rune>, n: seq<rune>, pi: int, ni: int, star: int, starName: int)
    requires LoopState(p, n, pi, ni, star, starName) && star >= 0 && ni < |n|
    requires pi == |p| || (p[pi] != Glob.STAR && p[pi] != n[ni])
    ensures LoopState(p, n, star + 1, starName + 1, star, starName + 1)
  {
    var lit := p[star + 1..pi];
    Glob.GrowStar(lit, p[pi..], n[starName..]);
    assert p[star..] == [Glob.STAR] + lit + p[pi..];
    assert n[starName..][1..] == n[starName + 1..];
    assert n[starName..] == lit + n[ni..];
  }

  lemma NoStarYet(p: seq<rune>, n: seq<rune>, pi: int, ni: int)
    requires LoopState(p, n, pi, ni, -1, -1) && ni < |n|
    requires pi == |p| || (p[pi] != Glob.STAR && p[pi] != n[ni])
    ensures !Glob.Matches(p, n)
  {
    Glob.LiteralPrefix(p[..pi], p[pi..], n);
    assert p == p[..pi] + p[pi..] && |p[..pi]| == ni;
  }

  lemma Finish(p: seq<rune>, n: seq<rune>, pi: int, ni: int, star: int, starName: int)
    requires LoopState(p, n, pi, ni, star, starName) && ni == |n|
    ensures Glob.Matches(p, n) <==> Glob.AllStars(p[pi..])
  {
    if star < 0 {
      Glob.LiteralPrefix(p[..pi], p[pi..], n);
      assert p == p[..pi] + p[pi..] && |p[..pi]| == ni;
      assert n[ni..] == [];
      Glob.EmptySubject(p[pi..]);
    } else {
      var lit := p[star + 1..pi];
      Glob.SubjectExhausted(lit, p[pi..]);
      assert p[star..] == [Glob.STAR] + lit + p[pi..];
      assert n[starName..] == lit;
    }
  }

  lemma OnlyStarsLeft(p: seq<rune>, pi: nat, j: nat)
    requires pi <= j <= |p| && (forall i :: pi <= i < j ==> p[i] == Glob.STAR)
    requires j < |p| ==> p[j] != Glob.STAR
    ensures j == |p| <==> Glob.AllStars(p[pi..])
  {
    if j < |p| {
      assert p[pi..][j - pi] == p[j];
    }
  }

  predicate Restricted(exact: seq<Name>, patterns: seq<Name>) {
    exact != [] || patterns != []
  }

  /** The promise of `Allows`: empty lists allow everything, otherwise the two lists form one allow-list. */
  predicate Permitted(name: seq<byte>, exact: seq<Name>, patterns: seq<Name>) {
    || !Restricted(exact, patterns)
    || name in exact
    || exists p :: p in patterns && GlobAllows(p, name)
  }

  method Allows(name: seq<byte>, exact: seq<Name>, patterns: seq<Name>) returns (ok: bool)
    ensures ok <==> Permitted(name, exact, patterns)
  {
    if !Restricted(exact, patterns) {
      return true;
    }
    for i := 0 to |exact|
      invariant name !in exact[..i]
    {
      if name == exact[i] {
        return true;
      }
    }
    for i := 0 to |patterns|
      invariant forall j :: 0 <= j < i ==> !GlobAllows(patterns[j], name)
    {
      var matched := Match(patterns[i], name);
      if matched {
        return true;
      }
    }
    return false;
  }

  /** The name and the pattern are texts, the pattern of 1 to 64 characters and without NUL, and the name is cut into
      one piece per pattern character: anything for an asterisk, else the character itself. */
  ghost predicate TextMatches(pattern: seq<byte>, name: seq<byte>) {
    exists rs: seq<rune>, ns: seq<rune>, pieces ::
      && Encode(rs) == pattern && Encode(ns) == name && 1 <= |rs| <= 64 && 0 !in rs && Glob.Covers(rs, pieces, ns)
  }

  /** What an allow-list allows, down to the characters. */
  lemma PermittedMeans(name: seq<byte>, exact: seq<Name>, patterns: seq<Name>)
    ensures Permitted(name, exact, patterns) <==>
            (exact == [] && patterns == []) || name in exact || exists p :: p in patterns && TextMatches(p, name)
  {
    hide GlobAllows, TextMatches;
    forall p
      ensures GlobAllows(p, name) <==> TextMatches(p, name)
    {
      GlobAllowsMeans(p, name);
    }
  }

  lemma GlobAllowsMeans(pattern: seq<byte>, name: seq<byte>)
    ensures GlobAllows(pattern, name) <==> TextMatches(pattern, name)
  {
    hide Runes, Valid, Encode, Glob.Matches, Glob.Covers, PatternProblem;
    ValidMeans(pattern);
    if GlobAllows(pattern, name) {
      var rs: seq<rune> :| Encode(rs) == pattern && 1 <= |rs| <= 64 && 0 !in rs;
      RunesOfEncode(rs);
      EncodeOfRunes(name);
      Glob.MatchesMeansPieces(rs, Runes(name));
      var pieces :| Glob.Covers(rs, pieces, Runes(name));
      assert Encode(Runes(name)) == name;
    }
    if TextMatches(pattern, name) {
      var rs: seq<rune>, ns: seq<rune>, pieces :|
        && Encode(rs) == pattern && Encode(ns) == name && 1 <= |rs| <= 64 && 0 !in rs && Glob.Covers(rs, pieces, ns);
      RunesOfEncode(rs);
      RunesOfEncode(ns);
      Glob.MatchesMeansPieces(rs, ns);
    }
  }

  /** Adding entries only widens access, provided there was a restriction to start from. */
  lemma GrowingTheListsOnlyAllowsMore(
    name: seq<byte>, exact: seq<Name>, patterns: seq<Name>, exact': seq<Name>, patterns': seq<Name>)
    requires Restricted(exact, patterns)
    requires forall e :: e in exact ==> e in exact'
    requires forall p :: p in patterns ==> p in patterns'
    ensures Permitted(name, exact, patterns) ==> Permitted(name, exact', patterns')
  {
    if exact != [] {
      assert exact[0] in exact';
    } else {
      assert patterns[0] in patterns';
    }
  }

  /** Of the names, the empty one is allowed exactly by an empty exact entry or a pattern of stars alone. */
  lemma EmptyNamePermitted(exact: seq<Name>, patterns: seq<Name>)
    requires Restricted(exact, patterns)
    ensures Permitted([], exact, patterns) <==>
            [] in exact || exists p :: p in patterns && ValidPattern(p) && Glob.AllStars(p)
  {
    forall p | p in patterns && ValidPattern(p)
      ensures GlobAllows(p, []) <==> Glob.AllStars(p)
    {
      Glob.EmptySubject(Runes(p));
      AllStarsOfRunes(p);
    }
  }

  lemma {:induction false} AllStarsOfRunes(p: seq<byte>)
    requires Valid(p)
    ensures Glob.AllStars(Runes(p)) <==> Glob.AllStars(p)
  {
    if p != [] {
      var d := DecodeRune(p);
      AllStarsOfRunes(p[d.width..]);
      EncodeOfDecodeRune(p);
      assert Runes(p) == [d.r] + Runes(p[d.width..]);
      if p[0] == Glob.STAR {
        assert d.width == 1 && d.r == Glob.STAR;
        assert p == [p[0]] + p[1..];
        AllStarsCons(p);
        AllStarsCons(Runes(p));
      } else {
        assert Runes(p)[0] == d.r;
      }
    }
  }

  lemma AllStarsCons(p: seq<int>)
    requires p != [] && p[0] == Glob.STAR
    ensures Glob.AllStars(p) <==> Glob.AllStars(p[1..])
  {
    assert p == [p[0]] + p[1..];
  }
}
