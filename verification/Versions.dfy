/** Stable version tags and their comparison in `scripts/promote-docker-latest.sh`: numbers of any length compared as
    text, which must agree with numeric precedence (section 11 of SemVer 2.0.0). */
module Versions {
  import opened Text

  function Value(s: string): nat
    requires forall i :: 0 <= i < |s| ==> IsDigit(s[i])
  {
    if s == [] then 0
    else
      assert IsDigit(s[|s| - 1]);
      10 * Value(s[..|s| - 1]) + (s[|s| - 1] as int - '0' as int)
  }

  function Sign(x: int): int {
    if x < 0 then -1 else if x > 0 then 1 else 0
  }

  /** Comparison of strings in the C locale. */
  function CompareText(a: string, b: string): int {
    if a == [] || b == [] then Sign(|a| - |b|)
    else if a[0] != b[0] then Sign(a[0] as int - b[0] as int)
    else CompareText(a[1..], b[1..])
  }

  function ComparePart(a: string, b: string): int {
    if |a| != |b| then Sign(|a| - |b|) else CompareText(a, b)
  }

  lemma {:induction false} CompareTextSnoc(a: string, b: string, x: char, y: char)
    requires |a| == |b|
    ensures CompareText(a + [x], b + [y])
            == if CompareText(a, b) != 0 then CompareText(a, b) else Sign(x as int - y as int)
  {
    if a == [] {
      assert a + [x] == [x] && b + [y] == [y];
      assert [x][1..] == [] && [y][1..] == [];
    } else {
      assert (a + [x])[1..] == a[1..] + [x] && (b + [y])[1..] == b[1..] + [y];
      if a[0] == b[0] {
        CompareTextSnoc(a[1..], b[1..], x, y);
      }
    }
  }

  /** Digit strings of one length compare as text the way their values compare, and are equal when they tie. */
  lemma {:induction false} SameLengthIsNumeric(a: string, b: string)
    requires |a| == |b|
    requires forall i :: 0 <= i < |a| ==> IsDigit(a[i]) && IsDigit(b[i])
    ensures CompareText(a, b) == Sign(Value(a) - Value(b))
    ensures CompareText(a, b) == 0 ==> a == b
  {
    if a != [] {
      var n := |a| - 1;
      SameLengthIsNumeric(a[..n], b[..n]);
      CompareTextSnoc(a[..n], b[..n], a[n], b[n]);
      assert a == a[..n] + [a[n]] && b == b[..n] + [b[n]];
    }
  }

  /** A longer number is larger, because it does not start with a zero. */
  lemma {:induction false} LongerIsLarger(a: string, b: string)
    requires (forall i :: 0 <= i < |a| ==> IsDigit(a[i])) && (forall i :: 0 <= i < |b| ==> IsDigit(b[i]))
    requires |a| < |b| && b[0] != '0'
    ensures Value(a) < Value(b)
  {
    if |b| == 1 {
      assert Value(b) == 10 * Value(b[..0]) + (b[0] as int - '0' as int);
    } else {
      var m := |b| - 1;
      if a == [] {
        LongerIsLarger([], b[..m]);
      } else {
        LongerIsLarger(a[..|a| - 1], b[..m]);
      }
    }
  }

  lemma PartIsNumeric(a: string, b: string)
    requires IsNumber(a) && IsNumber(b)
    ensures ComparePart(a, b) == Sign(Value(a) - Value(b))
    ensures ComparePart(a, b) == 0 <==> a == b
  {
    if |a| < |b| {
      LongerIsLarger(a, b);
    } else if |b| < |a| {
      LongerIsLarger(b, a);
    } else {
      SameLengthIsNumeric(a, b);
      EqualTextTies(a);
    }
  }

  lemma {:induction false} EqualTextTies(a: string)
    ensures CompareText(a, a) == 0
  {
    if a != [] {
      EqualTextTies(a[1..]);
    }
  }

  /////////////////////////////////////////////// tags

  function Parts(tag: string): seq<string>
    requires tag != []
  {
    Split(tag[1..], '.')
  }

  /** `^v(0|[1-9][0-9]*)\.(0|[1-9][0-9]*)\.(0|[1-9][0-9]*)$`. */
  predicate IsStable(tag: string) {
    && tag != [] && tag[0] == 'v' && |Parts(tag)| == 3
    && IsNumber(Parts(tag)[0]) && IsNumber(Parts(tag)[1]) && IsNumber(Parts(tag)[2])
  }

  datatype Version = Version(major: nat, minor: nat, patch: nat)

  function VersionOf(tag: string): Version
    requires IsStable(tag)
  {
    Version(Value(Parts(tag)[0]), Value(Parts(tag)[1]), Value(Parts(tag)[2]))
  }

  /** Numeric precedence, major before minor before patch. */
  predicate Below(a: Version, b: Version) {
    || a.major < b.major
    || (a.major == b.major && a.minor < b.minor)
    || (a.major == b.major && a.minor == b.minor && a.patch < b.patch)
  }

  /** A number in decimal. */
  function Decimal(n: nat): string {
    if n < 10 then [('0' as int + n) as char] else Decimal(n / 10) + [('0' as int + n % 10) as char]
  }

  function Print(v: Version): string {
    "v" + (Decimal(v.major) + "." + (Decimal(v.minor) + "." + Decimal(v.patch)))
  }

  lemma {:induction false} DecimalReads(n: nat)
    ensures IsNumber(Decimal(n)) && Value(Decimal(n)) == n && (Decimal(n)[0] == '0' <==> n == 0)
  {
    if n >= 10 {
      DecimalReads(n / 10);
      var front, digit := Decimal(n / 10), ('0' as int + n % 10) as char;
      assert (front + [digit])[..|front|] == front && (front + [digit])[|front|] == digit;
    } else {
      assert Decimal(n)[..0] == [];
    }
  }

  /** The stable tags are exactly the printed versions: three numbers without leading zeros, and nothing else. */
  lemma StableMeansPrinted(tag: string)
    ensures IsStable(tag) <==> exists v :: tag == Print(v)
    ensures forall v :: tag == Print(v) ==> IsStable(tag) && VersionOf(tag) == v
  {
    hide IsNumber, Value, Decimal;
    forall v | tag == Print(v)
      ensures IsStable(tag) && VersionOf(tag) == v
    {
      PrintReads(v);
    }
    if IsStable(tag) {
      var parts := Parts(tag);
      JoinOfSplit(tag[1..], '.');
      JoinOfThree(parts, '.');
      NumberIsDecimal(parts[0]);
      NumberIsDecimal(parts[1]);
      NumberIsDecimal(parts[2]);
      assert tag == "v" + tag[1..];
      assert tag == Print(VersionOf(tag));
    }
  }

  lemma JoinOfThree(parts: seq<string>, separator: char)
    requires |parts| == 3
    ensures Join(parts, separator) == parts[0] + [separator] + (parts[1] + [separator] + parts[2])
  {
    assert Join(parts[1..][1..], separator) == parts[2];
  }

  lemma PrintReads(v: Version)
    ensures IsStable(Print(v)) && VersionOf(Print(v)) == v
  {
    hide IsNumber, Value, Decimal;
    var major, minor, patch := Decimal(v.major), Decimal(v.minor), Decimal(v.patch);
    DecimalReads(v.major);
    DecimalReads(v.minor);
    DecimalReads(v.patch);
    NumberHasNoDot(major);
    NumberHasNoDot(minor);
    NumberHasNoDot(patch);
    SplitConcat(major, minor + "." + patch, '.');
    SplitConcat(minor, patch, '.');
    assert Print(v)[1..] == major + ['.'] + (minor + ['.'] + patch);
    assert Parts(Print(v)) == [major, minor, patch];
  }

  lemma NumberHasNoDot(s: string)
    requires IsNumber(s)
    ensures Split(s, '.') == [s]
  {
    hide Split;
    SplitOfPlain(s, '.');
  }

  lemma NumberIsDecimal(s: string)
    requires IsNumber(s)
    ensures Decimal(Value(s)) == s
  {
    DecimalReads(Value(s));
    PartIsNumeric(s, Decimal(Value(s)));
  }

  /** Precedence is the order of the numbers that the parts form as digits in any base that is large enough. */
  lemma BelowIsNumeric(a: Version, b: Version, radix: nat)
    requires a.minor < radix && a.patch < radix && b.minor < radix && b.patch < radix
    ensures Below(a, b) <==> InBase(a, radix) < InBase(b, radix)
  {
    LeadingDigitDecides(a.major, a.minor, b.major, b.minor, radix);
    LeadingDigitDecides(a.major * radix + a.minor, a.patch, b.major * radix + b.minor, b.patch, radix);
  }

  function InBase(v: Version, radix: nat): int {
    (v.major * radix + v.minor) * radix + v.patch
  }

  lemma LeadingDigitDecides(high: int, low: int, high': int, low': int, radix: nat)
    requires 0 <= low < radix && 0 <= low' < radix
    ensures high * radix + low < high' * radix + low' <==> high < high' || (high == high' && low < low')
    ensures high * radix + low == high' * radix + low' <==> high == high' && low == low'
  {
    if high < high' {
      Spread(high, high', radix);
    } else if high' < high {
      Spread(high', high, radix);
    }
  }

  lemma {:induction false} Spread(x: int, y: int, radix: nat)
    requires x < y
    ensures x * radix + radix <= y * radix
    decreases y - x
  {
    assert y * radix == (y - 1) * radix + radix;
    if x < y - 1 {
      Spread(x, y - 1, radix);
    }
  }

  /** The comparison of two tags: 1, 0 or -1 as the left one is newer, the same tag, or older. */
  ghost predicate Compares(left: string, right: string, r: int)
    requires IsStable(left) && IsStable(right)
  {
    && (r == 1 <==> Below(VersionOf(right), VersionOf(left)))
    && (r == -1 <==> Below(VersionOf(left), VersionOf(right)))
    && (r == 0 <==> left == right)
    && -1 <= r <= 1
  }

  lemma SameParts(left: string, right: string)
    requires IsStable(left) && IsStable(right) && Parts(left) == Parts(right)
    ensures left == right
  {
    JoinOfSplit(left[1..], '.');
    JoinOfSplit(right[1..], '.');
    assert left == ['v'] + left[1..] && right == ['v'] + right[1..];
  }

  method CompareStableVersions(left: string, right: string) returns (r: int)
    requires IsStable(left) && IsStable(right)
    ensures Compares(left, right, r)
  {
    var leftParts, rightParts := Parts(left), Parts(right);
    PartIsNumeric(leftParts[0], rightParts[0]);
    PartIsNumeric(leftParts[1], rightParts[1]);
    PartIsNumeric(leftParts[2], rightParts[2]);
    var index := 0;
    while index < 3
      invariant 0 <= index <= 3 && leftParts[..index] == rightParts[..index]
    {
      var leftPart, rightPart := leftParts[index], rightParts[index];
      assert leftParts[..index + 1] == leftParts[..index] + [leftPart];
      assert rightParts[..index + 1] == rightParts[..index] + [rightPart];
      assert forall k :: 0 <= k < index ==>
                           leftParts[..index][k] == leftParts[k] && rightParts[..index][k] == rightParts[k];
      if |leftPart| > |rightPart| {
        return 1;
      }
      if |leftPart| < |rightPart| {
        return -1;
      }
      if CompareText(leftPart, rightPart) == 1 {
        return 1;
      }
      if CompareText(leftPart, rightPart) == -1 {
        return -1;
      }
      index := index + 1;
    }
    assert leftParts == leftParts[..3] && rightParts == rightParts[..3];
    SameParts(left, right);
    return 0;
  }

  /** Tags are totally ordered by version: distinct tags have distinct versions. */
  lemma TotalOrder(a: string, b: string)
    requires IsStable(a) && IsStable(b) && a != b
    ensures Below(VersionOf(a), VersionOf(b)) || Below(VersionOf(b), VersionOf(a))
  {
    PartIsNumeric(Parts(a)[0], Parts(b)[0]);
    PartIsNumeric(Parts(a)[1], Parts(b)[1]);
    PartIsNumeric(Parts(a)[2], Parts(b)[2]);
    if VersionOf(a) == VersionOf(b) {
      assert Parts(a) == Parts(b);
      SameParts(a, b);
    }
  }

  /////////////////////////////////////////////// the highest tag

  /** The highest stable tag of a list: it is there, and no other stable tag there is above it. */
  ghost predicate IsHighest(rows: seq<string>, highest: string) {
    && highest in rows && IsStable(highest)
    && forall t :: t in rows && IsStable(t) ==> !Below(VersionOf(highest), VersionOf(t))
  }

  method HighestTag(rows: seq<string>) returns (stable: seq<string>, highest: string)
    ensures forall t :: t in stable <==> t in rows && IsStable(t)
    ensures highest == [] <==> stable == []
    ensures stable != [] ==> IsHighest(rows, highest)
  {
    stable := [];
    highest := [];
    for i := 0 to |rows|
      invariant forall t :: t in stable <==> t in rows[..i] && IsStable(t)
      invariant highest == [] <==> stable == []
      invariant stable != [] ==> IsHighest(rows[..i], highest)
    {
      var candidate := rows[i];
      assert rows[..i + 1] == rows[..i] + [candidate];
      if IsStable(candidate) {
        stable := stable + [candidate];
        if highest == [] {
          highest := candidate;
        } else {
          var comparison := CompareStableVersions(candidate, highest);
          if comparison == 1 {
            highest := candidate;
          }
        }
      }
    }
    assert rows[..|rows|] == rows;
  }

  lemma HighestIsUnique(rows: seq<string>, a: string, b: string)
    requires IsHighest(rows, a) && IsHighest(rows, b)
    ensures a == b
  {
    if a != b {
      TotalOrder(a, b);
    }
  }
}
