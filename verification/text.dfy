/** The string operations the serialisers and the solver-output parsers rely
    on: Python's `str(int)`, `int(str)`, `str.split(sep)`, `sep.join(parts)`
    and `str.splitlines()`, each with the round trip that makes it usable. */
module Text {
  import opened Wrappers

  predicate IsDigit(c: char) {
    '0' <= c <= '9'
  }

  predicate AllDigits(s: string) {
    forall j | 0 <= j < |s| :: IsDigit(s[j])
  }

  function DigitChar(d: nat): (c: char)
    requires d < 10
    ensures IsDigit(c)
  {
    "0123456789"[d]
  }

  function DigitValue(c: char): (d: nat)
    requires IsDigit(c)
    ensures d < 10
  {
    (c as int) - ('0' as int)
  }

  /** Python's `str(n)` for a non-negative integer: its decimal digits, with
      no leading zero. */
  function NatToString(n: nat): (s: string)
    ensures |s| > 0 && AllDigits(s)
    decreases n
  {
    if n < 10 then [DigitChar(n)] else NatToString(n / 10) + [DigitChar(n % 10)]
  }

  /** Python's `str(i)`: a minus sign before the digits of a negative number. */
  function IntToString(i: int): (s: string)
    ensures |s| > 0
    ensures forall j | 0 <= j < |s| :: IsDigit(s[j]) || s[j] == '-'
  {
    if i < 0 then "-" + NatToString(-i) else NatToString(i)
  }

  /** The number a string of decimal digits denotes. */
  function DigitsValue(s: string): nat
    requires AllDigits(s)
  {
    if |s| == 0 then 0 else DigitsValue(s[..|s| - 1]) * 10 + DigitValue(s[|s| - 1])
  }

  lemma {:induction false} NatToStringValue(n: nat)
    ensures DigitsValue(NatToString(n)) == n
    decreases n
  {
    var s := NatToString(n);
    if n < 10 {
      assert DigitValue(DigitChar(n)) == n;
    } else {
      NatToStringValue(n / 10);
      assert s[..|s| - 1] == NatToString(n / 10);
      assert DigitValue(DigitChar(n % 10)) == n % 10;
    }
  }

  /** Python's `int(s)` on the strings the solver prints: an optional sign
      followed by at least one decimal digit. Anything else raises
      `ValueError` in Python and is `None` here. */
  function ParseInt(s: string): (r: Option<int>)
    ensures r.Some? <==>
              (|s| > 0 && AllDigits(s)) ||
              (|s| > 1 && (s[0] == '-' || s[0] == '+') && AllDigits(s[1..]))
    ensures r.Some? && |s| > 0 && s[0] == '-' ==> r.value <= 0
    ensures r.Some? && |s| > 0 && s[0] != '-' ==> r.value >= 0
  {
    if |s| > 1 && s[0] == '-' && AllDigits(s[1..]) then Some(-(DigitsValue(s[1..]) as int))
    else if |s| > 1 && s[0] == '+' && AllDigits(s[1..]) then Some(DigitsValue(s[1..]))
    else if |s| > 0 && AllDigits(s) then Some(DigitsValue(s))
    else None
  }

  /** Reading back what `str` printed gives the same integer. */
  lemma IntToStringRoundTrip(i: int)
    ensures ParseInt(IntToString(i)) == Some(i)
  {
    if i < 0 {
      ParseNegative(-i);
    } else {
      ParseDigits(i);
    }
  }

  lemma ParseNegative(n: nat)
    requires n > 0
    ensures ParseInt("-" + NatToString(n)) == Some(-(n as int))
  {
    var t := NatToString(n);
    assert ("-" + t)[1..] == t;
    NatToStringValue(n);
  }

  lemma ParseDigits(n: nat)
    ensures ParseInt(NatToString(n)) == Some(n)
  {
    NatToStringValue(n);
  }

  /** `str(i)` never contains a space, a newline or an `x`. */
  lemma IntToStringAlphabet(i: int)
    ensures ' ' !in IntToString(i) && '\n' !in IntToString(i) && 'x' !in IntToString(i)
    ensures forall j | 0 <= j < |IntToString(i)| :: !IsLineBreak(IntToString(i)[j])
  {
    var s := IntToString(i);
    forall j | 0 <= j < |s|
      ensures s[j] != ' ' && s[j] != 'x' && !IsLineBreak(s[j])
    {
    }
  }

  /** Python's `s.split(sep)` with a one-character separator: the pieces
      between separators, empty pieces included (`"".split(" ") == [""]`). */
  function Split(s: string, sep: char): (r: seq<string>)
    ensures |r| > 0
    ensures forall j | 0 <= j < |r| :: sep !in r[j]
    decreases |s|
  {
    if |s| == 0 then [""]
    else
      var rest := Split(s[1..], sep);
      if s[0] == sep then [""] + rest
      else [[s[0]] + rest[0]] + rest[1..]
  }

  /** Python's `sep.join(parts)`. */
  function Join(parts: seq<string>, sep: char): string {
    if |parts| == 0 then ""
    else if |parts| == 1 then parts[0]
    else parts[0] + [sep] + Join(parts[1..], sep)
  }

  lemma {:induction false} SplitNoSeparator(s: string, sep: char)
    requires sep !in s
    ensures Split(s, sep) == [s]
    decreases |s|
  {
    if |s| > 0 {
      SplitNoSeparator(s[1..], sep);
      assert [s[0]] + s[1..] == s;
    }
  }

  /** Splitting distributes over a separator: the pieces of `a`, then those of `b`. */
  lemma {:induction false} SplitAtSeparator(a: string, b: string, sep: char)
    ensures Split(a + [sep] + b, sep) == Split(a, sep) + Split(b, sep)
    decreases |a|
  {
    var s := a + [sep] + b;
    if |a| == 0 {
      assert s[1..] == b;
    } else {
      assert s[1..] == a[1..] + [sep] + b;
      SplitAtSeparator(a[1..], b, sep);
    }
  }

  /** `s.split(sep)` undoes `sep.join(parts)` when no part holds the separator. */
  lemma {:induction false} SplitJoin(parts: seq<string>, sep: char)
    requires |parts| > 0
    requires forall j | 0 <= j < |parts| :: sep !in parts[j]
    ensures Split(Join(parts, sep), sep) == parts
    decreases |parts|
  {
    if |parts| == 1 {
      SplitNoSeparator(parts[0], sep);
    } else {
      var rest := Join(parts[1..], sep);
      assert Join(parts, sep) == parts[0] + [sep] + rest;
      SplitAtSeparator(parts[0], rest, sep);
      SplitNoSeparator(parts[0], sep);
      SplitJoin(parts[1..], sep);
      assert [parts[0]] + parts[1..] == parts;
    }
  }

  /** The characters at which Python's `str.splitlines()` breaks a line. */
  predicate IsLineBreak(c: char) {
    c == '\n' || c == '\r' || c == '\U{B}' || c == '\U{C}' || c == '\U{1C}' ||
    c == '\U{1D}' || c == '\U{1E}' || c == '\U{85}' || c == '\U{2028}' || c == '\U{2029}'
  }

  predicate NoLineBreak(s: string) {
    forall j | 0 <= j < |s| :: !IsLineBreak(s[j])
  }

  /** The index of the first line break of `s`, or `|s|` when there is none. */
  function LineEnd(s: string): (i: nat)
    ensures i <= |s|
    ensures NoLineBreak(s[..i])
    ensures i < |s| ==> IsLineBreak(s[i])
  {
    if |s| == 0 || IsLineBreak(s[0]) then 0
    else
      var i := 1 + LineEnd(s[1..]);
      assert s[..i] == [s[0]] + s[1..][..i - 1];
      i
  }

  /** Python's `s.splitlines()`: the lines of `s` without their terminators,
      where `"\r\n"` counts as one terminator and a final terminator does not
      start an empty line. */
  function SplitLines(s: string): (r: seq<string>)
    ensures forall j | 0 <= j < |r| :: NoLineBreak(r[j])
    decreases |s|
  {
    if |s| == 0 then []
    else
      var i := LineEnd(s);
      if i == |s| then
        assert s[..i] == s;
        [s]
      else
        var next := if s[i] == '\r' && i + 1 < |s| && s[i + 1] == '\n' then i + 2 else i + 1;
        [s[..i]] + SplitLines(s[next..])
  }

  /** Every line is free of line breaks. */
  predicate NoLineBreaks(lines: seq<string>) {
    forall j | 0 <= j < |lines| :: NoLineBreak(lines[j])
  }

  /** The text made of `lines`, each terminated by a newline. */
  function Unlines(lines: seq<string>): string {
    if |lines| == 0 then "" else lines[0] + "\n" + Unlines(lines[1..])
  }

  /** `splitlines` recovers the lines a writer terminated with newlines. */
  lemma {:induction false} SplitLinesUnlines(lines: seq<string>)
    requires NoLineBreaks(lines)
    ensures SplitLines(Unlines(lines)) == lines
    decreases |lines|
  {
    if |lines| > 0 {
      SplitLinesCons(lines[0], Unlines(lines[1..]));
      SplitLinesUnlines(lines[1..]);
    }
  }

  /** A line ended by a newline splits off the front of the text. */
  lemma SplitLinesCons(l: string, rest: string)
    requires NoLineBreak(l)
    ensures SplitLines(l + "\n" + rest) == [l] + SplitLines(rest)
  {
    var s := l + "\n" + rest;
    assert s[..|l|] == l;
    assert s[|l|] == '\n';
    LineEndAt(s, |l|);
    assert s[|l| + 1..] == rest;
  }

  lemma LineEndAt(s: string, i: nat)
    requires i < |s| && NoLineBreak(s[..i]) && IsLineBreak(s[i])
    ensures LineEnd(s) == i
  {
  }
}
