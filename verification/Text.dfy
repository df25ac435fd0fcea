/** Splitting text at a separator and joining it again; decimal numbers. */
module Text {

  predicate IsDigit(c: char) {
    '0' <= c <= '9'
  }

  /** `0|[1-9][0-9]*`. */
  predicate IsNumber(s: string) {
    && s != [] && (forall i :: 0 <= i < |s| ==> IsDigit(s[i]))
    && (s[0] == '0' ==> |s| == 1)
  }

  /** `strings.Split`, and the shell's `IFS=. read -a` on the texts it is used on. */
  function Split<T(==)>(s: seq<T>, separator: T): (parts: seq<seq<T>>)
    ensures |parts| >= 1
  {
    if s == [] then [[]]
    else
      var rest := Split(s[1..], separator);
      if s[0] == separator then [[]] + rest else [[s[0]] + rest[0]] + rest[1..]
  }

  /** `strings.Cut` at the first separator. */
  function Cut<T(==)>(s: seq<T>, separator: T): (seq<T>, seq<T>) {
    if s == [] then ([], [])
    else if s[0] == separator then ([], s[1..])
    else
      var (before, after) := Cut(s[1..], separator);
      ([s[0]] + before, after)
  }

  function Join<T>(parts: seq<seq<T>>, separator: T): seq<T> {
    if parts == [] then []
    else if |parts| == 1 then parts[0]
    else parts[0] + [separator] + Join(parts[1..], separator)
  }

  lemma {:induction false} JoinSnoc<T>(parts: seq<seq<T>>, last: seq<T>, separator: T)
    requires parts != []
    ensures Join(parts + [last], separator) == Join(parts, separator) + [separator] + last
  {
    if |parts| == 1 {
      assert (parts + [last])[1..] == [last];
    } else {
      JoinSnoc(parts[1..], last, separator);
      assert (parts + [last])[1..] == parts[1..] + [last];
    }
  }

  lemma {:induction false} JoinOfSplit<T>(s: seq<T>, separator: T)
    ensures Join(Split(s, separator), separator) == s
  {
    if s != [] {
      var rest := Split(s[1..], separator);
      JoinOfSplit(s[1..], separator);
      assert s == [s[0]] + s[1..];
      if s[0] == separator {
        assert ([[]] + rest)[1..] == rest;
      } else {
        assert ([[s[0]] + rest[0]] + rest[1..])[1..] == rest[1..];
      }
    }
  }

  lemma SplitStep<T>(first: T, rest: seq<T>, separator: T)
    ensures var parts := Split(rest, separator);
            Split([first] + rest, separator)
            == if first == separator then [[]] + parts else [[first] + parts[0]] + parts[1..]
  {
    assert ([first] + rest)[1..] == rest;
  }

  lemma SplitOfNothing<T>(separator: T)
    ensures Split([], separator) == [[]]
  {
  }

  lemma {:induction false} SplitConcat<T>(a: seq<T>, b: seq<T>, separator: T)
    ensures Split(a + [separator] + b, separator) == Split(a, separator) + Split(b, separator)
  {
    hide Split;
    if a == [] {
      SplitOfNothing(separator);
      SplitStep(separator, b, separator);
      assert a + [separator] + b == [separator] + b;
    } else {
      var rest := a[1..] + [separator] + b;
      SplitConcat(a[1..], b, separator);
      SplitStep(a[0], rest, separator);
      SplitStep(a[0], a[1..], separator);
      assert a + [separator] + b == [a[0]] + rest && a == [a[0]] + a[1..];
    }
  }

  lemma {:induction false} NoSeparatorInside<T>(s: seq<T>, separator: T)
    ensures forall part :: part in Split(s, separator) ==> separator !in part
  {
    if s != [] {
      NoSeparatorInside(s[1..], separator);
      var rest := Split(s[1..], separator);
      forall part | part in Split(s, separator)
        ensures separator !in part
      {
        if s[0] == separator {
          assert part == [] || part in rest;
        } else {
          assert part == [s[0]] + rest[0] || part in rest;
          assert rest[0] in rest;
        }
      }
    }
  }

  lemma {:induction false} SplitOfPlain<T>(s: seq<T>, separator: T)
    requires separator !in s
    ensures Split(s, separator) == [s]
  {
    if s != [] {
      SplitOfPlain(s[1..], separator);
      assert s == [s[0]] + s[1..];
    }
  }

  lemma SplitWithoutSeparator<T>(s: seq<T>, separator: T)
    requires |Split(s, separator)| == 1
    ensures Split(s, separator) == [s]
  {
    JoinOfSplit(s, separator);
  }

  /** Cutting and splitting find the same two parts of a text with one separator. */
  lemma {:induction false} CutIsSplit<T>(s: seq<T>, separator: T)
    requires |Split(s, separator)| == 2
    ensures Cut(s, separator) == (Split(s, separator)[0], Split(s, separator)[1])
  {
    if s != [] {
      if s[0] == separator {
        SplitWithoutSeparator(s[1..], separator);
      } else {
        CutIsSplit(s[1..], separator);
      }
    }
  }
}
