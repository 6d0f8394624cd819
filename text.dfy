/**
 * The string operations of the .NET base library that the readers rely on:
 * Char.IsWhiteSpace, string.IsNullOrWhiteSpace, Trim, ToUpperInvariant (ASCII part),
 * Replace("_", ""), Split('|') and decimal rendering of integers for messages.
 */
module Text {

  /** Char.IsWhiteSpace: the Unicode space, line and paragraph separators, U+0009..U+000D and U+0085. */
  predicate IsWhiteSpace(c: char) {
    c == ' ' || ('\t' <= c <= '\r') || c == '\U{85}' || c == '\U{A0}' || c == '\U{1680}'
    || ('\U{2000}' <= c <= '\U{200A}') || c == '\U{2028}' || c == '\U{2029}'
    || c == '\U{202F}' || c == '\U{205F}' || c == '\U{3000}'
  }

  /** string.IsNullOrWhiteSpace: empty, or white space only. */
  predicate IsBlank(s: string) {
    forall i :: 0 <= i < |s| ==> IsWhiteSpace(s[i])
  }

  /** Leading white space removed. */
  function TrimStart(s: string): (r: string)
    ensures |r| <= |s| && r == s[|s| - |r|..]
  {
    if s != [] && IsWhiteSpace(s[0]) then TrimStart(s[1..]) else s
  }

  /** What TrimStart removes is white space, and what it keeps does not start with white space. */
  lemma {:induction false} TrimStartRemovesWhiteSpace(s: string)
    ensures var r := TrimStart(s);
      (r == [] || !IsWhiteSpace(r[0])) && forall i :: 0 <= i < |s| - |r| ==> IsWhiteSpace(s[i])
  {
    if s != [] && IsWhiteSpace(s[0]) {
      var t := s[1..];
      TrimStartRemovesWhiteSpace(t);
      assert TrimStart(s) == TrimStart(t);
      forall i | 1 <= i < |s| - |TrimStart(s)|
        ensures IsWhiteSpace(s[i])
      {
        assert s[i] == t[i - 1];
      }
    }
  }

  /** Trailing white space removed. */
  function TrimEnd(s: string): (r: string)
    ensures |r| <= |s| && r == s[..|r|]
  {
    if s != [] && IsWhiteSpace(s[|s| - 1]) then TrimEnd(s[..|s| - 1]) else s
  }

  /** What TrimEnd removes is white space, and what it keeps does not end with white space. */
  lemma {:induction false} TrimEndRemovesWhiteSpace(s: string)
    ensures var r := TrimEnd(s);
      (r == [] || !IsWhiteSpace(r[|r| - 1])) && forall i :: |r| <= i < |s| ==> IsWhiteSpace(s[i])
  {
    if s != [] && IsWhiteSpace(s[|s| - 1]) {
      TrimEndRemovesWhiteSpace(s[..|s| - 1]);
    }
  }

  /** string.Trim(). */
  function Trim(s: string): (r: string)
  {
    TrimEnd(TrimStart(s))
  }

  /** Trim leaves nothing to trim: its result neither starts nor ends with white space. */
  lemma TrimEnds(s: string)
    ensures var r := Trim(s); r == [] || (!IsWhiteSpace(r[0]) && !IsWhiteSpace(r[|r| - 1]))
  {
    var t := TrimStart(s);
    var r := TrimEnd(t);
    TrimStartRemovesWhiteSpace(s);
    TrimEndRemovesWhiteSpace(t);
    if r != [] {
      assert r[0] == t[0];
    }
  }

  /** A string that is blank trims to the empty string, and only such a string does. */
  lemma TrimEmptyIffBlank(s: string)
    ensures Trim(s) == [] <==> IsBlank(s)
  {
    TrimStartRemovesWhiteSpace(s);
    TrimEndRemovesWhiteSpace(TrimStart(s));
  }

  /** A string that neither starts nor ends with white space is its own trimmed form. */
  lemma TrimTrimmed(s: string)
    requires s == [] || (!IsWhiteSpace(s[0]) && !IsWhiteSpace(s[|s| - 1]))
    ensures Trim(s) == s
  {
    assert TrimStart(s) == s;
  }

  /** Trimming twice is trimming once. */
  lemma TrimIdempotent(s: string)
    ensures Trim(Trim(s)) == Trim(s)
  {
    TrimEnds(s);
    TrimTrimmed(Trim(s));
  }

  /** The upper-case image of an ASCII letter; every other character is kept. */
  function UpperChar(c: char): char {
    if 'a' <= c <= 'z' then (c as int - 32) as char else c
  }

  /** ToUpperInvariant, restricted to the ASCII letters. */
  function Upper(s: string): (r: string)
    ensures |r| == |s|
  {
    seq(|s|, i requires 0 <= i < |s| => UpperChar(s[i]))
  }

  /** Upper-casing twice is upper-casing once. */
  lemma UpperIdempotent(s: string)
    ensures Upper(Upper(s)) == Upper(s)
  {
  }

  /** String comparison with StringComparison.OrdinalIgnoreCase (ASCII letters only). */
  predicate EqualsIgnoreCase(a: string, b: string) {
    Upper(a) == Upper(b)
  }

  /** string.Replace("_", ""). */
  function RemoveUnderscores(s: string): (r: string)
    ensures '_' !in r
    ensures |r| <= |s|
  {
    if s == [] then []
    else if s[0] == '_' then RemoveUnderscores(s[1..])
    else [s[0]] + RemoveUnderscores(s[1..])
  }

  /** A string without underscores is left as it is. */
  lemma {:induction false} RemoveUnderscoresNone(s: string)
    requires '_' !in s
    ensures RemoveUnderscores(s) == s
  {
    if s != [] {
      assert s[1..] == s[1..] && '_' !in s[1..];
      RemoveUnderscoresNone(s[1..]);
      assert [s[0]] + s[1..] == s;
    }
  }

  /** Removing underscores works piece by piece. */
  lemma {:induction false} RemoveUnderscoresAppend(a: string, b: string)
    ensures RemoveUnderscores(a + b) == RemoveUnderscores(a) + RemoveUnderscores(b)
  {
    if a == [] {
      assert a + b == b;
    } else {
      var ab := a + b;
      assert ab[0] == a[0];
      assert ab[1..] == a[1..] + b;
      RemoveUnderscoresAppend(a[1..], b);
      var x, y := RemoveUnderscores(a[1..]), RemoveUnderscores(b);
      if a[0] != '_' {
        assert ([a[0]] + x) + y == [a[0]] + (x + y);
      }
    }
  }

  /** Upper-casing and removing underscores commute. */
  lemma {:induction false} UpperRemoveUnderscores(s: string)
    ensures Upper(RemoveUnderscores(s)) == RemoveUnderscores(Upper(s))
  {
    if s != [] {
      UpperRemoveUnderscores(s[1..]);
      assert Upper(s)[1..] == Upper(s[1..]);
      assert Upper(s)[0] == UpperChar(s[0]);
      if s[0] != '_' {
        assert Upper([s[0]] + RemoveUnderscores(s[1..])) == [UpperChar(s[0])] + Upper(RemoveUnderscores(s[1..]));
      }
    }
  }

  /** Two names equal ignoring case stay equal ignoring case once their underscores are removed. */
  lemma RemoveUnderscoresIgnoreCase(a: string, b: string)
    requires EqualsIgnoreCase(a, b)
    ensures EqualsIgnoreCase(RemoveUnderscores(a), RemoveUnderscores(b))
  {
    UpperRemoveUnderscores(a);
    UpperRemoveUnderscores(b);
  }

  /** The number of occurrences of d in s. */
  function Count(s: string, d: char): nat {
    if s == [] then 0 else (if s[0] == d then 1 else 0) + Count(s[1..], d)
  }

  /** string.Split(d): the pieces between occurrences of d, one more piece than there are delimiters. */
  function Split(s: string, d: char): (r: seq<string>)
    ensures |r| == Count(s, d) + 1
    ensures forall k :: 0 <= k < |r| ==> d !in r[k]
  {
    if s == [] then [[]]
    else
      var rest := Split(s[1..], d);
      if s[0] == d then [[]] + rest
      else [[s[0]] + rest[0]] + rest[1..]
  }

  /** string.Join(d, xs). */
  function Join(xs: seq<string>, d: char): string
    requires |xs| >= 1
  {
    if |xs| == 1 then xs[0] else xs[0] + [d] + Join(xs[1..], d)
  }

  /** string.Split(d, StringSplitOptions.TrimEntries): every piece trimmed. */
  function SplitTrimmed(s: string, d: char): (r: seq<string>)
    ensures |r| == |Split(s, d)|
  {
    var pieces := Split(s, d);
    seq(|pieces|, k requires 0 <= k < |pieces| => Trim(pieces[k]))
  }

  lemma {:induction false} SplitWithoutDelimiter(s: string, d: char)
    requires d !in s
    ensures Split(s, d) == [s]
  {
    if s != [] {
      SplitWithoutDelimiter(s[1..], d);
      assert [s[0]] + s[1..] == s;
    }
  }

  lemma {:induction false} SplitAtFirstDelimiter(a: string, d: char, b: string)
    requires d !in a
    ensures Split(a + [d] + b, d) == [a] + Split(b, d)
  {
    if a == [] {
      assert a + [d] + b == [d] + b;
      assert ([d] + b)[1..] == b;
    } else {
      SplitAtFirstDelimiter(a[1..], d, b);
      assert (a + [d] + b)[1..] == a[1..] + [d] + b;
      assert [a[0]] + a[1..] == a;
    }
  }

  /** Splitting undoes joining, as long as no piece contains the delimiter. */
  lemma {:induction false} SplitJoin(xs: seq<string>, d: char)
    requires |xs| >= 1
    requires forall k :: 0 <= k < |xs| ==> d !in xs[k]
    ensures Split(Join(xs, d), d) == xs
  {
    if |xs| == 1 {
      SplitWithoutDelimiter(xs[0], d);
    } else {
      SplitJoin(xs[1..], d);
      SplitAtFirstDelimiter(xs[0], d, Join(xs[1..], d));
      assert [xs[0]] + xs[1..] == xs;
    }
  }

  /** Joining undoes splitting. */
  lemma {:induction false} JoinSplit(s: string, d: char)
    ensures Join(Split(s, d), d) == s
  {
    if s != [] {
      JoinSplit(s[1..], d);
      var rest := Split(s[1..], d);
      if s[0] == d {
        assert Split(s, d)[1..] == rest;
        assert s == [d] + s[1..];
      } else {
        var r := Split(s, d);
        if |rest| == 1 {
          assert r == [[s[0]] + rest[0]];
        } else {
          assert r[1..] == rest[1..];
          assert Join(rest, d) == rest[0] + [d] + Join(rest[1..], d);
          assert s == [s[0]] + s[1..];
        }
      }
    }
  }

  /** The decimal digit of a value below ten. */
  function DigitChar(n: nat): char
    requires n < 10
  {
    ('0' as int + n) as char
  }

  /** The decimal rendering of a natural number, without leading zeros. */
  function NatToString(n: nat): (r: string)
    ensures |r| >= 1
    ensures forall k :: 0 <= k < |r| ==> '0' <= r[k] <= '9'
    decreases n
  {
    if n < 10 then [DigitChar(n)] else NatToString(n / 10) + [DigitChar(n % 10)]
  }

  /** The decimal rendering of an integer, with a leading '-' when negative (int.ToString()). */
  function IntToString(n: int): string {
    if n < 0 then "-" + NatToString(-n) else NatToString(n)
  }
}
