/** Decimal text of integers (Python's `str(int)`), the subset of Python's `int(str)` that the
    DIMACS reader relies on, and the string operations `strip`, `startswith` and `split(' ')`. */
module Strings {
  import opened Wrappers

  predicate IsDigit(c: char) {
    '0' <= c <= '9'
  }

  predicate AllDigits(s: string) {
    forall i | 0 <= i < |s| :: IsDigit(s[i])
  }

  function DigitChar(d: nat): (c: char)
    requires d < 10
    ensures IsDigit(c) && (c as int) - ('0' as int) == d
  {
    (('0' as int) + d) as char
  }

  function DigitValue(c: char): nat
    requires IsDigit(c)
  {
    (c as int) - ('0' as int)
  }

  /** Python's `str(n)` for a non-negative integer: its decimal digits, without leading zeros. */
  function NatToString(n: nat): (s: string)
    ensures |s| >= 1 && AllDigits(s)
    ensures s[0] == '0' ==> n == 0
  {
    if n < 10 then [DigitChar(n)] else NatToString(n / 10) + [DigitChar(n % 10)]
  }

  /** Python's `str(i)` for any integer. */
  function IntToString(i: int): string {
    if i < 0 then "-" + NatToString(-i) else NatToString(i)
  }

  /** The value of a string of decimal digits, most significant first. */
  function DigitsValue(s: string): nat
    requires AllDigits(s)
  {
    if s == [] then 0 else DigitsValue(s[..|s| - 1]) * 10 + DigitValue(s[|s| - 1])
  }

  /** Reading back the decimal text of `n` gives `n`. */
  lemma {:induction false} DigitsValueOfNatToString(n: nat)
    ensures DigitsValue(NatToString(n)) == n
  {
    if n >= 10 {
      var s := NatToString(n);
      assert s[..|s| - 1] == NatToString(n / 10);
      DigitsValueOfNatToString(n / 10);
    }
  }

  /** Distinct numbers have distinct decimal texts. */
  lemma NatToStringInjective(a: nat, b: nat)
    requires NatToString(a) == NatToString(b)
    ensures a == b
  {
    DigitsValueOfNatToString(a);
    DigitsValueOfNatToString(b);
  }

  /** The characters Python's `str.isspace` accepts, which `strip` and `int` treat as white
      space, by code point: tab to carriage return, the file to unit separators and the
      space, NEL, the no-break space, the Ogham space mark, the spaces U+2000 to U+200A,
      the line and paragraph separators, the narrow no-break space, the medium
      mathematical space and the ideographic space. */
  predicate IsSpace(c: char) {
    var n := c as int;
    || 0x9 <= n <= 0xD || 0x1C <= n <= 0x20
    || n == 0x85 || n == 0xA0 || n == 0x1680
    || 0x2000 <= n <= 0x200A || n == 0x2028 || n == 0x2029
    || n == 0x202F || n == 0x205F || n == 0x3000
  }

  function StripLeft(s: string): (r: string)
    ensures |r| <= |s| && r == s[|s| - |r|..]
    ensures forall i | 0 <= i < |s| - |r| :: IsSpace(s[i])
    ensures r != [] ==> !IsSpace(r[0])
  {
    if s != [] && IsSpace(s[0]) then StripLeft(s[1..]) else s
  }

  function StripRight(s: string): (r: string)
    ensures |r| <= |s| && r == s[..|r|]
    ensures forall i | |r| <= i < |s| :: IsSpace(s[i])
    ensures r != [] ==> !IsSpace(r[|r| - 1])
  {
    if s != [] && IsSpace(s[|s| - 1]) then StripRight(s[..|s| - 1]) else s
  }

  /** Python's `s.strip()`: `s` without its leading and trailing white space. */
  function Strip(s: string): (r: string)
    ensures |r| <= |s|
    ensures r != [] ==> !IsSpace(r[0]) && !IsSpace(r[|r| - 1])
  {
    StripRight(StripLeft(s))
  }

  /** What `strip` removes is white space at the two ends and nothing else. */
  lemma StripTrims(s: string)
    ensures exists i, j | 0 <= i <= j <= |s| ::
              && Strip(s) == s[i..j]
              && (forall k | 0 <= k < i :: IsSpace(s[k]))
              && (forall k | j <= k < |s| :: IsSpace(s[k]))
  {
    var i, j := StripBounds(s);
  }

  /** The positions where the stripped text begins and ends. */
  lemma StripBounds(s: string) returns (i: nat, j: nat)
    ensures 0 <= i <= j <= |s| && Strip(s) == s[i..j]
    ensures forall k | 0 <= k < i :: IsSpace(s[k])
    ensures forall k | j <= k < |s| :: IsSpace(s[k])
  {
    var l := StripLeft(s);
    i := |s| - |l|;
    var r := StripRight(l);
    j := i + |r|;
    TrailingSpace(s, i, l, r);
  }

  /** White space after `r` in the suffix `l` of `s` from `i` is white space of `s` after
      position `i + |r|`, and `r` is the slice of `s` between. */
  lemma TrailingSpace(s: string, i: nat, l: string, r: string)
    requires i <= |s| && l == s[i..] && |r| <= |l| && r == l[..|r|]
    requires forall t | |r| <= t < |l| :: IsSpace(l[t])
    ensures r == s[i..i + |r|]
    ensures forall k | i + |r| <= k < |s| :: IsSpace(s[k])
  {
    forall k | i + |r| <= k < |s|
      ensures IsSpace(s[k])
    {
      assert s[k] == l[k - i];
    }
  }

  /** Python's `s.startswith(c)` for a one-character prefix. */
  predicate StartsWith(s: string, c: char) {
    |s| > 0 && s[0] == c
  }

  /** The pieces joined back with `sep` in between. */
  function Join(parts: seq<string>, sep: char): string {
    if parts == [] then "" else if |parts| == 1 then parts[0] else parts[0] + [sep] + Join(parts[1..], sep)
  }

  /** Python's `s.split(sep)` with an explicit one-character separator: the text between
      consecutive separators, so two adjacent separators give an empty piece and the empty
      string gives `[""]`. */
  function Split(s: string, sep: char): (parts: seq<string>)
    ensures |parts| >= 1
  {
    if s == [] then [""]
    else
      var rest := Split(s[1..], sep);
      if s[0] == sep then [""] + rest else [[s[0]] + rest[0]] + rest[1..]
  }

  /** No piece holds the separator. */
  lemma {:induction false} SplitPiecesClean(s: string, sep: char)
    ensures forall k | 0 <= k < |Split(s, sep)| :: sep !in Split(s, sep)[k]
  {
    if s != [] {
      var rest := Split(s[1..], sep);
      SplitPiecesClean(s[1..], sep);
      if s[0] != sep {
        var parts := [[s[0]] + rest[0]] + rest[1..];
        assert sep !in rest[0];
        assert forall k | 1 <= k < |parts| :: parts[k] == rest[k];
      }
    }
  }

  /** Joining the pieces with the separator gives the text back. */
  lemma {:induction false} SplitJoin(s: string, sep: char)
    ensures Join(Split(s, sep), sep) == s
  {
    if s != [] {
      var rest := Split(s[1..], sep);
      SplitJoin(s[1..], sep);
      if s[0] == sep {
        assert Join([""] + rest, sep) == [sep] + Join(rest, sep);
      } else {
        var parts := [[s[0]] + rest[0]] + rest[1..];
        assert parts[1..] == rest[1..];
        assert Join(parts, sep) == [s[0]] + Join(rest, sep);
      }
    }
  }

  /** What Python's `int(token)` accepts here: optional surrounding white space, an optional
      sign and one or more ASCII decimal digits. `None` stands for the ValueError it raises. */
  function ParseInt(token: string): Option<int> {
    var t := Strip(token);
    if |t| >= 2 && (t[0] == '-' || t[0] == '+') && AllDigits(t[1..]) then
      var v: int := DigitsValue(t[1..]);
      Some(if t[0] == '-' then -v else v)
    else if |t| >= 1 && AllDigits(t) then
      Some(DigitsValue(t))
    else
      None
  }

  /** No decimal digit is white space. */
  lemma DigitNotSpace(c: char)
    requires IsDigit(c)
    ensures !IsSpace(c)
  {
  }

  /** `int(str(n)) == n`: the decimal text of a number parses back to it. */
  lemma ParseIntOfNatToString(n: nat)
    ensures ParseInt(NatToString(n)) == Some(n)
  {
    var s := NatToString(n);
    assert Strip(s) == s by {
      DigitNotSpace(s[0]);
      DigitNotSpace(s[|s| - 1]);
      assert StripLeft(s) == s;
      assert StripRight(s) == s;
    }
    DigitsValueOfNatToString(n);
  }

  /** A piece without the separator, then the separator: the piece comes off first. */
  lemma {:induction false} SplitConcat(x: string, rest: string, sep: char)
    requires sep !in x
    ensures Split(x + [sep] + rest, sep) == [x] + Split(rest, sep)
  {
    if x != [] {
      assert (x + [sep] + rest)[1..] == x[1..] + [sep] + rest;
      SplitConcat(x[1..], rest, sep);
      assert [x[0]] + x[1..] == x;
    } else {
      assert x + [sep] + rest == [sep] + rest;
    }
  }

  /** A string without the separator splits into itself. */
  lemma {:induction false} SplitSingle(x: string, sep: char)
    requires sep !in x
    ensures Split(x, sep) == [x]
  {
    if x != [] {
      SplitSingle(x[1..], sep);
      assert [x[0]] + x[1..] == x;
    }
  }

  /** Text with no white space at either end, followed by a line break, strips back to itself. */
  lemma StripLine(x: string)
    requires x != [] && !IsSpace(x[0]) && !IsSpace(x[|x| - 1])
    ensures Strip(x + "\n") == x
  {
    var s := x + "\n";
    assert StripLeft(s) == s;
    assert s[..|s| - 1] == x;
    assert StripRight(x) == x;
  }

  /** Stripping keeps a first character that is not white space. */
  lemma StripFirst(s: string)
    requires s != [] && !IsSpace(s[0])
    ensures StartsWith(Strip(s), s[0])
  {
    assert StripLeft(s) == s;
    var r := StripRight(s);
    assert |r| >= 1;
  }
}
