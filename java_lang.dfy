/**
 * The pieces of the Java platform that the modelled classes lean on: two's-complement
 * `int`/`long` arithmetic, integer division, ASCII case mapping and the `String` and
 * `Integer` methods they call (`split`, `contains`, `compareTo`, `equalsIgnoreCase`,
 * `toLowerCase`, `Integer.parseInt`, `Integer.toString`).
 */
module JavaLang {
  import opened Wrappers

  const IntMin: int := -0x8000_0000
  const IntMax: int := 0x7fff_ffff
  const LongMin: int := -0x8000_0000_0000_0000
  const LongMax: int := 0x7fff_ffff_ffff_ffff

  /** `x` fits in a Java `int`. */
  predicate IsInt(x: int) {
    IntMin <= x <= IntMax
  }

  /** `x` fits in a Java `long`. */
  predicate IsLong(x: int) {
    LongMin <= x <= LongMax
  }

  /** Values of Java's `int` and `long`. */
  type int32 = x: int | -0x8000_0000 <= x <= 0x7fff_ffff
  type int64 = x: int | -0x8000_0000_0000_0000 <= x <= 0x7fff_ffff_ffff_ffff

  /** Java `int` arithmetic: the exact result wrapped into 32 bits. */
  function Wrap32(x: int): (r: int)
    ensures IsInt(r)
    ensures IsInt(x) ==> r == x
  {
    (x - IntMin) % 0x1_0000_0000 + IntMin
  }

  /** Java `long` arithmetic: the exact result wrapped into 64 bits. */
  function Wrap64(x: int): (r: int)
    ensures IsLong(r)
    ensures IsLong(x) ==> r == x
  {
    (x - LongMin) % 0x1_0000_0000_0000_0000 + LongMin
  }

  /** A `long` sum that overflows by less than 2^64 comes out exactly 2^64 too small. */
  lemma Wrap64Overflow(x: int)
    requires LongMax < x < LongMax + 0x1_0000_0000_0000_0000
    ensures Wrap64(x) == x - 0x1_0000_0000_0000_0000
  {
    ModShift(x - LongMin, 0x1_0000_0000_0000_0000);
  }

  /** An `int` sum that overflows by less than 2^32 comes out exactly 2^32 too small. */
  lemma Wrap32Overflow(x: int)
    requires IntMax < x < IntMax + 0x1_0000_0000
    ensures Wrap32(x) == x - 0x1_0000_0000
  {
    ModShift(x - IntMin, 0x1_0000_0000);
  }

  /** Wrapping an intermediate `int` sum does not change the wrapped total. */
  lemma Wrap32Add(a: int, b: int)
    ensures Wrap32(Wrap32(a) + b) == Wrap32(a + b)
  {
    var x, y := Wrap32(Wrap32(a) + b), Wrap32(a + b);
    var k0 := Wrap32Quotient(a);
    var k1 := Wrap32Quotient(Wrap32(a) + b);
    var k2 := Wrap32Quotient(a + b);
    assert x - y == 0x1_0000_0000 * (k2 - k0 - k1);
  }

  /** Wrapping an intermediate `int` difference does not change the wrapped result. */
  lemma Wrap32Sub(a: int, b: int)
    ensures Wrap32(Wrap32(a) - b) == Wrap32(a - b)
  {
    Wrap32Add(a, -b);
  }

  /** `Wrap32(x)` differs from `x` by a whole multiple of 2^32. */
  lemma Wrap32Quotient(x: int) returns (k: int)
    ensures Wrap32(x) == x - 0x1_0000_0000 * k
  {
    k := (x - IntMin) / 0x1_0000_0000;
  }

  lemma ModShift(a: int, m: int)
    requires 0 < m <= a < 2 * m
    ensures a % m == a - m
  {
  }

  function Abs(x: int): nat {
    if x < 0 then -x else x
  }

  /** Java's `/` on integers: the quotient is truncated toward zero. */
  function Div(a: int, b: int): (q: int)
    requires b != 0
    ensures Abs(a - b * q) < Abs(b)
    ensures a - b * q == 0 || (a - b * q < 0 <==> a < 0)
  {
    var q := Abs(a) / Abs(b);
    if (a < 0) == (b < 0) then q else -q
  }

  // ---------------------------------------------------------------- characters

  /** `Character.toLowerCase` restricted to ASCII letters. */
  function LowerChar(c: char): char {
    if 'A' <= c <= 'Z' then (c as int + 32) as char else c
  }

  /** The whitespace class `\s` of `java.util.regex`: space, tab, newline, vertical tab, form feed, carriage return. */
  predicate IsWhitespace(c: char) {
    c == ' ' || c == '\t' || c == '\n' || c == '\U{B}' || c == '\U{C}' || c == '\r'
  }

  predicate IsColon(c: char) {
    c == ':'
  }

  predicate IsDigit(c: char) {
    '0' <= c <= '9'
  }

  // ---------------------------------------------------------------- strings

  /** `String.toLowerCase` on ASCII letters. */
  function ToLowerCase(s: string): (r: string)
    ensures |r| == |s|
    ensures forall i :: 0 <= i < |s| ==> r[i] == LowerChar(s[i])
  {
    seq(|s|, i requires 0 <= i < |s| => LowerChar(s[i]))
  }

  /** `String.equalsIgnoreCase` on ASCII letters: same length, equal after folding each character. */
  predicate EqualsIgnoreCase(a: string, b: string) {
    ToLowerCase(a) == ToLowerCase(b)
  }

  /** `q` occurs in `s` starting at index `i`. */
  ghost predicate OccursAt(s: string, q: string, i: int) {
    0 <= i && i + |q| <= |s| && s[i..i + |q|] == q
  }

  /** `String.contains`: the query occurs somewhere in the string (the empty query always does). */
  predicate Contains(s: string, q: string) {
    if q <= s then true
    else if s == [] then false
    else Contains(s[1..], q)
  }

  /** `Contains` holds exactly when the query occurs at some index. */
  lemma {:induction false} ContainsOccurs(s: string, q: string)
    ensures Contains(s, q) <==> exists i :: OccursAt(s, q, i)
  {
    if q <= s {
      assert s[0..|q|] == q;
      assert OccursAt(s, q, 0);
    } else if s != [] {
      ContainsOccurs(s[1..], q);
      if Contains(s[1..], q) {
        var i :| OccursAt(s[1..], q, i);
        assert s[i + 1..i + 1 + |q|] == s[1..][i..i + |q|];
        assert OccursAt(s, q, i + 1);
      }
      forall i | OccursAt(s, q, i) ensures Contains(s[1..], q) {
        if i != 0 {
          assert s[1..][i - 1..i - 1 + |q|] == s[i..i + |q|];
          assert OccursAt(s[1..], q, i - 1);
        }
      }
    }
  }

  /**
   * Lexicographic order of `String.compareTo`: at the first differing index the smaller
   * character wins; if one string is a proper prefix of the other, the shorter wins.
   */
  predicate StrLess(a: string, b: string)
    decreases |a|
  {
    if a == [] then b != []
    else if b == [] then false
    else if a[0] != b[0] then a[0] < b[0]
    else StrLess(a[1..], b[1..])
  }

  lemma {:induction false} StrLessIrreflexive(a: string)
    ensures !StrLess(a, a)
    decreases |a|
  {
    if a != [] {
      StrLessIrreflexive(a[1..]);
    }
  }

  lemma {:induction false} StrLessTransitive(a: string, b: string, c: string)
    requires StrLess(a, b) && StrLess(b, c)
    ensures StrLess(a, c)
    decreases |a|
  {
    if a != [] && b != [] && c != [] && a[0] == b[0] && b[0] == c[0] {
      StrLessTransitive(a[1..], b[1..], c[1..]);
    }
  }

  /** Two different strings are always ordered one way or the other. */
  lemma {:induction false} StrLessTotal(a: string, b: string)
    requires a != b
    ensures StrLess(a, b) || StrLess(b, a)
    decreases |a|
  {
    if a != [] && b != [] && a[0] == b[0] {
      assert a == [a[0]] + a[1..] && b == [b[0]] + b[1..];
      StrLessTotal(a[1..], b[1..]);
    }
  }

  /** The strict order is asymmetric. */
  lemma StrLessAsymmetric(a: string, b: string)
    requires StrLess(a, b)
    ensures !StrLess(b, a)
  {
    if StrLess(b, a) {
      StrLessTransitive(a, b, a);
      StrLessIrreflexive(a);
    }
  }

  // ---------------------------------------------------------------- split

  /**
   * The pieces of `s` between the characters that satisfy `delim`, empty pieces included:
   * one more piece than there are delimiters.
   */
  function Fields(s: string, delim: char -> bool): (r: seq<string>)
    ensures |r| >= 1
  {
    if s == [] then [""]
    else
      var rest := Fields(s[1..], delim);
      if delim(s[0]) then [""] + rest
      else
        [[s[0]] + rest[0]] + rest[1..]
  }

  /** Joins pieces with one separator character between neighbours. */
  function Join(fs: seq<string>, sep: char): string {
    if fs == [] then ""
    else if |fs| == 1 then fs[0]
    else fs[0] + [sep] + Join(fs[1..], sep)
  }

  /** Splitting at single delimiter characters and joining again gives the string back. */
  lemma {:induction false} JoinFields(s: string, sep: char)
    ensures Join(Fields(s, c => c == sep), sep) == s
  {
    if s != [] {
      var delim := c => c == sep;
      var rest := Fields(s[1..], delim);
      JoinFields(s[1..], sep);
      if s[0] == sep {
        assert Fields(s, delim) == [""] + rest;
      } else {
        var r := [[s[0]] + rest[0]] + rest[1..];
        assert Fields(s, delim) == r;
        if |rest| == 1 {
          assert Join(r, sep) == [s[0]] + rest[0];
        } else {
          assert r[1..] == rest[1..];
          assert Join(r, sep) == [s[0]] + (rest[0] + [sep] + Join(rest[1..], sep));
        }
      }
    }
  }

  /** `String.split` drops every trailing empty piece. */
  function StripTrailingEmpty(fs: seq<string>): (r: seq<string>)
    ensures r <= fs
    ensures r == [] || r[|r| - 1] != ""
    ensures forall i :: |r| <= i < |fs| ==> fs[i] == ""
  {
    if fs == [] then []
    else if fs[|fs| - 1] == "" then StripTrailingEmpty(fs[..|fs| - 1])
    else fs
  }

  /** Some character of `s` is a delimiter. */
  predicate HasDelim(s: string, delim: char -> bool) {
    s != [] && (delim(s[0]) || HasDelim(s[1..], delim))
  }

  /** `HasDelim` holds exactly when some position of `s` holds a delimiter. */
  lemma {:induction false} HasDelimAt(s: string, delim: char -> bool)
    ensures HasDelim(s, delim) <==> exists i :: 0 <= i < |s| && delim(s[i])
  {
    if s != [] {
      HasDelimAt(s[1..], delim);
      if exists i :: 0 <= i < |s| && delim(s[i]) {
        var i :| 0 <= i < |s| && delim(s[i]);
        if i > 0 {
          assert s[1..][i - 1] == s[i];
        }
      }
      if exists i :: 0 <= i < |s[1..]| && delim(s[1..][i]) {
        var i :| 0 <= i < |s[1..]| && delim(s[1..][i]);
        assert s[i + 1] == s[1..][i];
      }
    }
  }

  /**
   * `s.split(d)` for a regular expression `d` matching one character: with no match the
   * result is `s` itself; otherwise the pieces, trailing empty pieces removed.
   */
  function Split(s: string, delim: char -> bool): (r: seq<string>)
    ensures !HasDelim(s, delim) ==> r == [s]
    ensures HasDelim(s, delim) ==> r == StripTrailingEmpty(Fields(s, delim))
  {
    if HasDelim(s, delim) then StripTrailingEmpty(Fields(s, delim)) else [s]
  }

  /** The non-empty strings of `fs`, in order. */
  function NonEmpty(fs: seq<string>): (r: seq<string>)
    ensures forall i :: 0 <= i < |r| ==> r[i] != ""
    ensures |r| <= |fs|
  {
    if fs == [] then []
    else if fs[0] == "" then NonEmpty(fs[1..])
    else [fs[0]] + NonEmpty(fs[1..])
  }

  /**
   * `s.split(d + "+")`: runs of delimiters separate the pieces, so only the piece before
   * the first run can be empty; trailing empty pieces are removed as in `Split`.
   */
  function SplitRuns(s: string, delim: char -> bool): (r: seq<string>)
    ensures !HasDelim(s, delim) ==> r == [s]
  {
    if HasDelim(s, delim) then
      var fs := Fields(s, delim);
      StripTrailingEmpty([fs[0]] + NonEmpty(fs[1..]))
    else [s]
  }

  /** A string without delimiters is a single piece. */
  lemma {:induction false} FieldsNoDelim(s: string, delim: char -> bool)
    requires !HasDelim(s, delim)
    ensures Fields(s, delim) == [s]
  {
    if s != [] {
      FieldsNoDelim(s[1..], delim);
      assert !delim(s[0]) && [s[0]] + s[1..] == s;
    }
  }

  /** The first delimiter of `a + [c] + b` ends the first piece, `a`. */
  lemma {:induction false} FieldsFirstDelim(a: string, c: char, b: string, delim: char -> bool)
    requires !HasDelim(a, delim) && delim(c)
    ensures Fields(a + [c] + b, delim) == [a] + Fields(b, delim)
  {
    var s := a + [c] + b;
    if a == [] {
      assert s[1..] == b;
    } else {
      assert s[1..] == a[1..] + [c] + b;
      FieldsFirstDelim(a[1..], c, b, delim);
      assert [a[0]] + a[1..] == a;
    }
  }

  /** Splitting `a + [c] + b` at its one delimiter `c` gives `a` and a non-empty `b`. */
  lemma SplitAtOne(a: string, c: char, b: string, delim: char -> bool)
    requires !HasDelim(a, delim) && !HasDelim(b, delim) && delim(c) && b != ""
    ensures Split(a + [c] + b, delim) == [a, b]
    ensures SplitRuns(a + [c] + b, delim) == [a, b]
  {
    var s := a + [c] + b;
    HasDelimAt(s, delim);
    assert s[|a|] == c;
    FieldsFirstDelim(a, c, b, delim);
    FieldsNoDelim(b, delim);
    assert Fields(s, delim)[1..] == [b];
  }

  /** The two delimiters of `a + [c] + b + [d] + e` cut it into `a`, `b` and `e`. */
  lemma FieldsAtTwo(a: string, c: char, b: string, d: char, e: string, delim: char -> bool)
    requires !HasDelim(a, delim) && !HasDelim(b, delim) && !HasDelim(e, delim)
    requires delim(c) && delim(d)
    ensures Fields(a + [c] + b + [d] + e, delim) == [a, b, e]
  {
    assert a + [c] + b + [d] + e == a + [c] + (b + [d] + e);
    FieldsFirstDelim(a, c, b + [d] + e, delim);
    FieldsFirstDelim(b, d, e, delim);
    FieldsNoDelim(e, delim);
  }

  /** Splitting `a + [c] + b + [d] + e` at its two delimiters gives three pieces, the last non-empty. */
  lemma SplitAtTwo(a: string, c: char, b: string, d: char, e: string, delim: char -> bool)
    requires !HasDelim(a, delim) && !HasDelim(b, delim) && !HasDelim(e, delim)
    requires delim(c) && delim(d) && e != ""
    ensures Split(a + [c] + b + [d] + e, delim) == [a, b, e]
  {
    var s := a + [c] + b + [d] + e;
    assert HasDelim(s, delim) by {
      HasDelimAt(s, delim);
      assert s[|a|] == c;
    }
    FieldsAtTwo(a, c, b, d, e, delim);
    assert StripTrailingEmpty([a, b, e]) == [a, b, e];
  }

  // ---------------------------------------------------------------- integers as text

  function DigitValue(c: char): int
    requires IsDigit(c)
  {
    c as int - '0' as int
  }

  /** Every character of `s` is a decimal digit. */
  predicate AllDigits(s: string) {
    s == [] || (IsDigit(s[|s| - 1]) && AllDigits(s[..|s| - 1]))
  }

  /** `AllDigits` holds exactly when every position of `s` holds a digit. */
  lemma {:induction false} AllDigitsAt(s: string)
    ensures AllDigits(s) <==> forall i :: 0 <= i < |s| ==> IsDigit(s[i])
  {
    if s != [] {
      var front := s[..|s| - 1];
      AllDigitsAt(front);
      assert forall i :: 0 <= i < |front| ==> front[i] == s[i];
    }
  }

  /** The value of a string of decimal digits. */
  function DigitsValue(s: string): (n: nat)
    requires AllDigits(s)
  {
    if s == [] then 0
    else DigitsValue(s[..|s| - 1]) * 10 + DigitValue(s[|s| - 1])
  }

  /**
   * `Integer.parseInt(s)`: an optional sign followed by at least one decimal digit, the
   * value within `int` range; anything else is a `NumberFormatException`, here `None`.
   */
  function ParseInt(s: string): (r: Option<int>)
    ensures r.Some? ==> IsInt(r.value)
    ensures s == [] ==> r == None
  {
    if s == [] then None
    else
      var negative := s[0] == '-';
      var body := if s[0] == '-' || s[0] == '+' then s[1..] else s;
      if body == [] || !AllDigits(body) then None
      else
        var n := DigitsValue(body);
        var v := if negative then -(n as int) else n as int;
        if IsInt(v) then Some(v) else None
  }

  /** The decimal digits of `n`, most significant first, with no leading zero. */
  function NatToString(n: nat): (s: string)
    ensures s != []
    ensures AllDigits(s)
    ensures DigitsValue(s) == n
  {
    var d := [('0' as int + n % 10) as char];
    if n < 10 then d
    else
      var s := NatToString(n / 10) + d;
      assert s[..|s| - 1] == NatToString(n / 10);
      s
  }

  /** `Integer.toString(n)` and string concatenation of an `int`: a minus sign for negatives, then the digits. */
  function IntToString(n: int): string {
    if n < 0 then "-" + NatToString(-n) else NatToString(n)
  }

  /** `Integer.parseInt` reads back every `int` that `Integer.toString` writes. */
  lemma ParseIntToString(n: int)
    requires IsInt(n)
    ensures ParseInt(IntToString(n)) == Some(n)
  {
    var s := IntToString(n);
    if n < 0 {
      assert s[1..] == NatToString(-n);
    } else {
      AllDigitsAt(s);
      assert s[0] != '-' && s[0] != '+';
    }
  }
}
