/** The SQL side of schema filtering: `ToSQLLike`, MySQL's byte-wise `LIKE BINARY ... ESCAPE '='`, and the proof that
    the two filters accept the same names. */
module SqlLike {
  import opened Utf8
  import opened SchemaFilter
  import Glob

  const PERCENT: byte := 0x25
  const UNDERSCORE: byte := 0x5F
  const ESCAPE: byte := 0x3D

  /** MySQL's binary LIKE: `%` is any bytes, `_` one byte, the escape makes the next byte literal. */
  predicate Like(p: seq<byte>, s: seq<byte>)
    decreases |p| + |s|
  {
    if p == [] then s == []
    else if p[0] == ESCAPE && |p| > 1 then s != [] && s[0] == p[1] && Like(p[2..], s[1..])
    else if p[0] == PERCENT then Like(p[1..], s) || (s != [] && Like(p, s[1..]))
    else if p[0] == UNDERSCORE then s != [] && Like(p[1..], s[1..])
    else s != [] && s[0] == p[0] && Like(p[1..], s[1..])
  }

  /** What one pattern character contributes. */
  function ConvertRune(r: rune): seq<byte> {
    if r == Glob.STAR then [PERCENT]
    else if r == PERCENT || r == UNDERSCORE || r == ESCAPE then [ESCAPE, r]
    else EncodeRune(r)
  }

  function Convert(rs: seq<rune>): seq<byte> {
    if rs == [] then [] else ConvertRune(rs[0]) + Convert(rs[1..])
  }

  /** The wildcards of LIKE: `%` is any text, `_` any one byte, and after `=` every byte is itself. */
  lemma {:induction false} LikeWildcards(s: seq<byte>, b: byte)
    ensures Like([0x25], s)
    ensures Like([0x5F], s) <==> |s| == 1
    ensures Like([0x3D, b], s) <==> s == [b]
    decreases |s|
  {
    var any: seq<byte>, one: seq<byte>, escaped: seq<byte> := [0x25], [0x5F], [0x3D, b];
    assert any[1..] == [] && one[1..] == [] && escaped[2..] == [];
    if s != [] {
      LikeWildcards(s[1..], b);
    }
  }

  /** Byte for byte: `*` becomes `%`, and `%`, `_` and `=` are escaped by `=`; every other character stays. */
  lemma ConvertByBytes(r: rune)
    ensures ConvertRune(0x2A) == [0x25]
    ensures r in {0x25, 0x5F, 0x3D} ==> ConvertRune(r) == [0x3D, r]
    ensures r !in {0x2A, 0x25, 0x5F, 0x3D} ==> ConvertRune(r) == EncodeRune(r)
  {
  }

  lemma {:induction false} ConvertSnoc(rs: seq<rune>, r: rune)
    ensures Convert(rs + [r]) == Convert(rs) + ConvertRune(r)
  {
    if rs == [] {
      assert [r][1..] == [];
    } else {
      assert (rs + [r])[1..] == rs[1..] + [r];
      ConvertSnoc(rs[1..], r);
    }
  }

  /** Ranging over the pattern decodes it as it goes, so malformed bytes come out as encoded error runes. */
  method ToSQLLike(pattern: seq<byte>) returns (converted: seq<byte>)
    ensures converted == Convert(Runes(pattern))
  {
    hide Convert, Runes, DecodeRune, EncodeRune;
    NothingConverted(pattern);
    converted := [];
    var i := 0;
    ghost var seen: seq<rune> := [];
    while i < |pattern|
      invariant 0 <= i <= |pattern|
      invariant seen + Runes(pattern[i..]) == Runes(pattern)
      invariant converted == Convert(seen)
    {
      var d := DecodeRune(pattern[i..]);
      if d.r == Glob.STAR {
        converted := converted + [PERCENT];
      } else if d.r == PERCENT || d.r == UNDERSCORE || d.r == ESCAPE {
        converted := converted + [ESCAPE] + EncodeRune(d.r);
        assert EncodeRune(d.r) == [d.r];
      } else {
        converted := converted + EncodeRune(d.r);
      }
      ConvertSnoc(seen, d.r);
      RunesStep(pattern, i, seen);
      seen := seen + [d.r];
      i := i + d.width;
    }
    assert pattern[i..] == [] && seen + [] == seen;
  }

  lemma NothingConverted(s: seq<byte>)
    ensures Convert([]) == [] && Runes([]) == [] && [] + Runes(s[0..]) == Runes(s)
  {
    assert s[0..] == s;
  }

  lemma RunesStep(s: seq<byte>, i: nat, seen: seq<rune>)
    requires i < |s|
    ensures var d := DecodeRune(s[i..]);
            i + d.width <= |s| && seen + [d.r] + Runes(s[i + d.width..]) == seen + Runes(s[i..])
  {
    var d := DecodeRune(s[i..]);
    assert s[i..][d.width..] == s[i + d.width..];
    assert seen + [d.r] + Runes(s[i + d.width..]) == seen + ([d.r] + Runes(s[i + d.width..]));
  }

  /** The same translation byte by byte: every byte that means something to LIKE is a whole ASCII character. */
  function ConvertBytes(bs: seq<byte>): seq<byte> {
    if bs == [] then [] else
      (if bs[0] == Glob.STAR then [PERCENT]
       else if bs[0] == PERCENT || bs[0] == UNDERSCORE || bs[0] == ESCAPE then [ESCAPE, bs[0]]
       else [bs[0]]) + ConvertBytes(bs[1..])
  }

  lemma {:induction false} ConvertBytesPlain(bs: seq<byte>, rest: seq<byte>)
    requires forall i :: 0 <= i < |bs| ==> bs[i] >= 0x80
    ensures ConvertBytes(bs + rest) == bs + ConvertBytes(rest)
  {
    if bs == [] {
      assert bs + rest == rest;
    } else {
      assert (bs + rest)[1..] == bs[1..] + rest;
      ConvertBytesPlain(bs[1..], rest);
    }
  }

  lemma {:induction false} ConvertIsBytewise(rs: seq<rune>)
    ensures Convert(rs) == ConvertBytes(Encode(rs))
  {
    if rs != [] {
      ConvertIsBytewise(rs[1..]);
      var e := EncodeRune(rs[0]);
      if rs[0] < 0x80 {
        assert (e + Encode(rs[1..]))[1..] == Encode(rs[1..]);
      } else {
        ConvertBytesPlain(e, Encode(rs[1..]));
      }
    }
  }

  /** On bytes, the translated pattern means to LIKE what the glob meant. */
  lemma {:induction false} LikeOfConverted(p: seq<byte>, s: seq<byte>)
    ensures Like(ConvertBytes(p), s) <==> Glob.Matches(p, s)
    decreases |p| + |s|
  {
    if p != [] {
      var q := ConvertBytes(p);
      var rest := ConvertBytes(p[1..]);
      if p[0] == Glob.STAR {
        assert q[1..] == rest;
        LikeOfConverted(p[1..], s);
        if s != [] {
          LikeOfConverted(p, s[1..]);
        }
      } else if s != [] && s[0] == p[0] {
        assert q[|q| - |rest|..] == rest;
        LikeOfConverted(p[1..], s[1..]);
      }
    }
  }

  lemma EncodeStep(n: seq<rune>)
    requires n != []
    ensures Encode(n) == EncodeRune(n[0]) + Encode(n[1..])
  {
    hide EncodeRune;
  }

  lemma DropFirst(e: seq<byte>, rest: seq<byte>)
    requires e != [] && forall i :: 1 <= i < |e| ==> IsContinuation(e[i])
    ensures (e + rest)[1..] == e[1..] + rest && forall b :: b in e[1..] ==> IsContinuation(b)
  {
  }

  /** Past the first byte of a text is the rest of its first character, all continuation bytes. */
  lemma DropFirstByte(n: seq<rune>)
    requires n != []
    ensures var rest := EncodeRune(n[0])[1..];
            && Encode(n) != [] && Encode(n)[1..] == rest + Encode(n[1..])
            && forall b :: b in rest ==> IsContinuation(b)
  {
    hide Encode, EncodeRune, IsContinuation;
    EncodeStep(n);
    DropFirst(EncodeRune(n[0]), Encode(n[1..]));
  }

  lemma NothingToEncode()
    ensures Encode([]) == []
  {
  }

  lemma EncodeOfStar(p: seq<rune>)
    requires p != [] && p[0] == Glob.STAR
    ensures Encode(p) == [Glob.STAR] + Encode(p[1..])
  {
    assert EncodeRune(p[0]) == [Glob.STAR];
  }

  /**
    * Self-synchronization: if a leading star of the pattern has swallowed part of a character (leaving the
    * continuation bytes `c`), it can swallow the rest of that character too.
    */
  lemma {:induction false} StarFinishesCharacter(p: seq<rune>, c: seq<byte>, n: seq<rune>)
    requires p != [] && p[0] == Glob.STAR
    requires forall i :: 0 <= i < |c| ==> IsContinuation(c[i])
    requires Glob.Matches(Encode(p), c + Encode(n))
    ensures Glob.Matches(p, n)
    decreases |p|, |n|, |c|, 0
  {
    hide Encode, EncodeRune, IsContinuation;
    var bp, bs := Encode(p), c + Encode(n);
    EncodeOfStar(p);
    assert bp[1..] == Encode(p[1..]);
    if Glob.Matches(bp[1..], bs) {
      if c == [] {
        assert bs == Encode(n);
        BytesMatchOnlyIfRunesMatch(p[1..], n);
      } else {
        assert bs[0] == c[0];
        FirstByteOfPattern(p[1..], bs);
        StarFinishesCharacter(p[1..], c, n);
      }
    } else if c != [] {
      assert bs[1..] == c[1..] + Encode(n);
      StarFinishesCharacter(p, c[1..], n);
    } else {
      NothingToEncode();
      assert bs == Encode(n) && n != [];
      DropFirstByte(n);
      StarFinishesCharacter(p, EncodeRune(n[0])[1..], n[1..]);
    }
  }

  /** A pattern that matches something starting inside a character must start with a star. */
  lemma FirstByteOfPattern(p: seq<rune>, s: seq<byte>)
    requires s != [] && IsContinuation(s[0]) && Glob.Matches(Encode(p), s)
    ensures p != [] && p[0] == Glob.STAR
  {
    if p != [] {
      assert Encode(p)[0] == EncodeRune(p[0])[0];
    }
  }

  lemma LiteralRune(p: seq<rune>, n: seq<rune>)
    requires p != [] && p[0] != Glob.STAR
    ensures Glob.Matches(Encode(p), Encode(n)) <==>
            n != [] && n[0] == p[0] && Glob.Matches(Encode(p[1..]), Encode(n[1..]))
  {
    hide EncodeRune, Glob.Matches;
    var e, rest, bs := EncodeRune(p[0]), Encode(p[1..]), Encode(n);
    assert Encode(p) == e + rest;
    assert Glob.Literal(e);
    Glob.LiteralPrefix(e, rest, bs);
    if e <= bs {
      assert n != [];
      assert bs == e + bs[|e|..];
      FirstRuneUnique(p[0], bs[|e|..], n[0], Encode(n[1..]));
    }
    if n != [] && n[0] == p[0] {
      assert bs[|e|..] == Encode(n[1..]);
    }
  }

  lemma {:induction false} BytesMatchOnlyIfRunesMatch(p: seq<rune>, n: seq<rune>)
    requires Glob.Matches(Encode(p), Encode(n))
    ensures Glob.Matches(p, n)
    decreases |p|, |n|, 0, 1
  {
    if p == [] {
      assert n != [] ==> Encode(n) != [];
    } else if p[0] == Glob.STAR {
      assert [] + Encode(n) == Encode(n);
      StarFinishesCharacter(p, [], n);
    } else {
      LiteralRune(p, n);
      BytesMatchOnlyIfRunesMatch(p[1..], n[1..]);
    }
  }

  lemma {:induction false} RunesMatchOnlyIfBytesMatch(p: seq<rune>, n: seq<rune>)
    requires Glob.Matches(p, n)
    ensures Glob.Matches(Encode(p), Encode(n))
    decreases |p| + |n|
  {
    if p == [] {
    } else if p[0] == Glob.STAR {
      var bp := Encode(p);
      assert EncodeRune(p[0]) == [Glob.STAR] && bp[0] == Glob.STAR && bp[1..] == Encode(p[1..]);
      if Glob.Matches(p[1..], n) {
        RunesMatchOnlyIfBytesMatch(p[1..], n);
      } else {
        RunesMatchOnlyIfBytesMatch(p, n[1..]);
        Glob.StarAbsorbs(bp, EncodeRune(n[0]), Encode(n[1..]));
      }
    } else {
      LiteralRune(p, n);
      RunesMatchOnlyIfBytesMatch(p[1..], n[1..]);
    }
  }

  /** Matching characters and matching bytes agree on valid UTF-8. */
  lemma GlobOnBytesIsGlobOnRunes(p: seq<byte>, n: seq<byte>)
    requires Valid(p) && Valid(n)
    ensures Glob.Matches(p, n) <==> Glob.Matches(Runes(p), Runes(n))
  {
    EncodeOfRunes(p);
    EncodeOfRunes(n);
    if Glob.Matches(p, n) {
      BytesMatchOnlyIfRunesMatch(Runes(p), Runes(n));
    }
    if Glob.Matches(Runes(p), Runes(n)) {
      RunesMatchOnlyIfBytesMatch(Runes(p), Runes(n));
    }
  }

  /** The SQL filter and the Go filter accept the same valid names for every valid pattern. */
  lemma LikeAgreesWithMatch(p: seq<byte>, n: seq<byte>)
    requires ValidPattern(p) && Valid(n)
    ensures Like(Convert(Runes(p)), n) <==> GlobAllows(p, n)
  {
    EncodeOfRunes(p);
    ConvertIsBytewise(Runes(p));
    LikeOfConverted(p, n);
    GlobOnBytesIsGlobOnRunes(p, n);
  }

  /** The restriction to valid names is needed: SQL lets `*` match a name that Go refuses to match at all. */
  lemma InvalidNameDisagrees()
    ensures ValidPattern([Glob.STAR]) && !Valid([0xFF])
    ensures Like(Convert(Runes([Glob.STAR])), [0xFF]) && !GlobAllows([Glob.STAR], [0xFF])
  {
    var p: seq<byte> := [Glob.STAR];
    assert DecodeRune(p) == Decoded(Glob.STAR, 1, true);
    assert p[1..] == [];
    assert Runes(p) == [Glob.STAR];
    assert Valid(p) && 0 !in p;
    assert Convert([Glob.STAR]) == [PERCENT];
    assert Like([PERCENT], [0xFF]) by {
      assert Like([PERCENT][1..], []);
      assert Like([PERCENT], [0xFF][1..]);
    }
  }
}
