/** UTF-8 as Go's `unicode/utf8` reads it (section 3 of RFC 3629): encoding and decoding of scalar values,
    the width-one error rune on malformed input, and the facts that make the encoding self-synchronizing. */
module Utf8 {

  type byte = b: int | 0 <= b < 0x100

  /** Go strings are byte strings; identifiers, patterns and names in particular. */
  type Name = seq<byte>

  type rune = r: int | 0 <= r <= 0x10FFFF && !(0xD800 <= r <= 0xDFFF)

  /** What Go substitutes for one malformed byte. */
  const RUNE_ERROR: rune := 0xFFFD

  predicate IsContinuation(b: byte) {
    0x80 <= b <= 0xBF
  }

  function EncodeRune(r: rune): (bs: seq<byte>)
    ensures 1 <= |bs| <= 4 && !IsContinuation(bs[0])
    ensures forall i :: 1 <= i < |bs| ==> IsContinuation(bs[i])
    ensures r < 0x80 <==> bs[0] < 0x80
    ensures r < 0x80 ==> bs == [r]
  {
    if r < 0x80 then [r]
    else if r < 0x800 then [0xC0 + r / 0x40, 0x80 + r % 0x40]
    else if r < 0x10000 then [0xE0 + r / 0x1000, 0x80 + r / 0x40 % 0x40, 0x80 + r % 0x40]
    else [0xF0 + r / 0x40000, 0x80 + r / 0x1000 % 0x40, 0x80 + r / 0x40 % 0x40, 0x80 + r % 0x40]
  }

  /** The table of section 3 of RFC 3629: how long an encoding is, and which lead byte it has. */
  lemma EncodingTable(r: rune)
    ensures var bs := EncodeRune(r);
            if r <= 0x7F then |bs| == 1 && bs[0] == r
            else if r <= 0x7FF then |bs| == 2 && 0xC2 <= bs[0] <= 0xDF
            else if r <= 0xFFFF then |bs| == 3 && 0xE0 <= bs[0] <= 0xEF
            else |bs| == 4 && 0xF0 <= bs[0] <= 0xF4
  {
  }

  function Encode(rs: seq<rune>): seq<byte> {
    if rs == [] then [] else EncodeRune(rs[0]) + Encode(rs[1..])
  }

  datatype Decoded = Decoded(r: rune, width: nat, ok: bool)

  /** The six payload bits of a continuation byte. */
  function Payload(b: byte): (bits: int)
    requires IsContinuation(b)
    ensures 0 <= bits < 0x40
  {
    (b as int) - 0x80
  }

  /** The first rune of `s`; malformed, overlong, surrogate and truncated forms give the error rune of width one. */
  function DecodeRune(s: seq<byte>): (d: Decoded)
    requires s != []
    ensures 1 <= d.width <= |s|
  {
    var b0: int := s[0];
    if b0 < 0x80 then
      Decoded(b0, 1, true)
    else if 0xC2 <= b0 <= 0xDF && |s| >= 2 && IsContinuation(s[1]) then
      Decoded((b0 - 0xC0) * 0x40 + Payload(s[1]), 2, true)
    else if && 0xE0 <= b0 <= 0xEF && |s| >= 3 && IsContinuation(s[1]) && IsContinuation(s[2])
            && (b0 == 0xE0 ==> 0xA0 <= s[1]) && (b0 == 0xED ==> s[1] <= 0x9F) then
      Decoded((b0 - 0xE0) * 0x1000 + Payload(s[1]) * 0x40 + Payload(s[2]), 3, true)
    else if && 0xF0 <= b0 <= 0xF4 && |s| >= 4
            && IsContinuation(s[1]) && IsContinuation(s[2]) && IsContinuation(s[3])
            && (b0 == 0xF0 ==> 0x90 <= s[1]) && (b0 == 0xF4 ==> s[1] <= 0x8F) then
      Decoded((b0 - 0xF0) * 0x40000 + Payload(s[1]) * 0x1000 + Payload(s[2]) * 0x40 + Payload(s[3]), 4, true)
    else
      Decoded(RUNE_ERROR, 1, false)
  }

  /** The conversion `[]rune(s)`, which is also what ranging over a Go string visits. */
  function Runes(s: seq<byte>): seq<rune> {
    if s == [] then [] else
      var d := DecodeRune(s);
      [d.r] + Runes(s[d.width..])
  }

  predicate Valid(s: seq<byte>) {
    s == [] || (DecodeRune(s).ok && Valid(s[DecodeRune(s).width..]))
  }

  /** A number below 2^21 from its base-64 digits, and the digits back from the number. */
  lemma Base64Digits(r: nat)
    requires r < 0x200000
    ensures r == r / 0x40000 * 0x40000 + r / 0x1000 % 0x40 * 0x1000 + r / 0x40 % 0x40 * 0x40 + r % 0x40
    ensures r < 0x10000 ==> r == r / 0x1000 * 0x1000 + r / 0x40 % 0x40 * 0x40 + r % 0x40
  {
    var q := r / 0x40;
    assert r / 0x1000 == q / 0x40;
    assert r / 0x40000 == q / 0x40 / 0x40;
  }

  lemma DigitsUnique(u: nat, z: nat, y: nat, x: nat)
    requires u < 8 && z < 0x40 && y < 0x40 && x < 0x40
    ensures var r := u * 0x40000 + z * 0x1000 + y * 0x40 + x;
            r / 0x40000 == u && r / 0x1000 % 0x40 == z && r / 0x40 % 0x40 == y && r % 0x40 == x
  {
    var r := u * 0x40000 + z * 0x1000 + y * 0x40 + x;
    assert r / 0x40 == u * 0x1000 + z * 0x40 + y;
    assert r / 0x1000 == u * 0x40 + z;
  }

  lemma DecodeOfEncodeRune(r: rune, rest: seq<byte>)
    ensures DecodeRune(EncodeRune(r) + rest) == Decoded(r, |EncodeRune(r)|, true)
  {
    Base64Digits(r);
    var e := EncodeRune(r);
    var s := e + rest;
    assert forall i :: 0 <= i < |e| ==> s[i] == e[i];
  }

  lemma EncodeOfTwo(s: seq<byte>)
    requires s != [] && DecodeRune(s).ok && DecodeRune(s).width == 2
    ensures EncodeRune(DecodeRune(s).r) == s[..2]
  {
    DigitsUnique(0, 0, (s[0] as int) - 0xC0, Payload(s[1]));
  }

  lemma EncodeOfThree(s: seq<byte>)
    requires s != [] && DecodeRune(s).ok && DecodeRune(s).width == 3
    ensures EncodeRune(DecodeRune(s).r) == s[..3]
  {
    DigitsUnique(0, (s[0] as int) - 0xE0, Payload(s[1]), Payload(s[2]));
  }

  lemma EncodeOfFour(s: seq<byte>)
    requires s != [] && DecodeRune(s).ok && DecodeRune(s).width == 4
    ensures EncodeRune(DecodeRune(s).r) == s[..4]
  {
    DigitsUnique((s[0] as int) - 0xF0, Payload(s[1]), Payload(s[2]), Payload(s[3]));
  }

  lemma EncodeOfDecodeRune(s: seq<byte>)
    requires s != [] && DecodeRune(s).ok
    ensures EncodeRune(DecodeRune(s).r) == s[..DecodeRune(s).width]
  {
    var d := DecodeRune(s);
    if d.width == 2 {
      EncodeOfTwo(s);
    } else if d.width == 3 {
      EncodeOfThree(s);
    } else if d.width == 4 {
      EncodeOfFour(s);
    }
  }

  /** Decoding undoes encoding, and encodings are valid. */
  lemma {:induction false} RunesOfEncode(rs: seq<rune>)
    ensures Valid(Encode(rs)) && Runes(Encode(rs)) == rs
  {
    if rs != [] {
      var head, tail := EncodeRune(rs[0]), Encode(rs[1..]);
      DecodeOfEncodeRune(rs[0], tail);
      assert (head + tail)[|head|..] == tail;
      RunesOfEncode(rs[1..]);
    }
  }

  /** Encoding undoes decoding exactly on the valid strings. */
  lemma {:induction false} EncodeOfRunes(s: seq<byte>)
    requires Valid(s)
    ensures Encode(Runes(s)) == s
  {
    hide DecodeRune, EncodeRune;
    if s != [] {
      var d := DecodeRune(s);
      EncodeOfDecodeRune(s);
      EncodeOfRunes(s[d.width..]);
      assert s == s[..d.width] + s[d.width..];
      assert Runes(s)[1..] == Runes(s[d.width..]);
    }
  }

  /** Go's validity test is exactly that decoding and encoding again changes nothing. */
  lemma ValidIffRoundTrips(s: seq<byte>)
    ensures Valid(s) <==> Encode(Runes(s)) == s
  {
    RunesOfEncode(Runes(s));
    if Valid(s) {
      EncodeOfRunes(s);
    }
  }

  /** No encoding is a proper prefix of another, so equal byte strings split at the same first rune. */
  lemma FirstRuneUnique(r: rune, rest: seq<byte>, r': rune, rest': seq<byte>)
    requires EncodeRune(r) + rest == EncodeRune(r') + rest'
    ensures r == r' && rest == rest'
  {
    DecodeOfEncodeRune(r, rest);
    DecodeOfEncodeRune(r', rest');
    var whole := EncodeRune(r) + rest;
    assert rest == whole[|EncodeRune(r)|..];
    assert rest' == (EncodeRune(r') + rest')[|EncodeRune(r')|..];
  }
}
