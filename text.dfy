/**
 * The character classes, decimal conversions and line splitting of the C++ standard
 * library that the text format relies on: `isspace`, `isdigit`, `to_string` and the
 * line boundaries `getline` finds.
 */
module Text {

  /**
   * `isspace` in the "C" locale: space, and the five control characters from tab to
   * carriage return (tab, newline, vertical tab, form feed, carriage return).
   */
  predicate IsSpace(c: char)
  {
    c == ' ' || '\t' <= c <= '\r'
  }

  /** `isdigit`: one of the ten decimal digits. */
  predicate IsDigit(c: char)
  {
    '0' <= c <= '9'
  }

  predicate AllDigits(s: string)
  {
    forall i | 0 <= i < |s| :: IsDigit(s[i])
  }

  function DigitValue(c: char): (d: nat)
    requires IsDigit(c)
    ensures d < 10
  {
    (c as int) - ('0' as int)
  }

  function DigitChar(d: nat): (c: char)
    requires d < 10
    ensures IsDigit(c) && DigitValue(c) == d
  {
    (('0' as int) + d) as char
  }

  /** The value of a string of decimal digits, most significant first. */
  function DecimalValue(s: string): nat
    requires AllDigits(s)
  {
    if |s| == 0 then 0 else 10 * DecimalValue(s[..|s| - 1]) + DigitValue(s[|s| - 1])
  }

  /** `to_string` of a non-negative number: its shortest decimal spelling. */
  function NatToDecimal(n: nat): (s: string)
    ensures |s| >= 1 && AllDigits(s)
    ensures |s| > 1 ==> s[0] != '0'
  {
    if n < 10 then [DigitChar(n)] else NatToDecimal(n / 10) + [DigitChar(n % 10)]
  }

  /** `to_string` of an `int`: a minus sign in front of the magnitude when negative. */
  function IntToString(i: int): string
  {
    if i < 0 then "-" + NatToDecimal(-i) else NatToDecimal(i)
  }

  /** Reading back the spelling yields the number. */
  lemma {:induction false} DecimalRoundTrip(n: nat)
    ensures DecimalValue(NatToDecimal(n)) == n
  {
    if n >= 10 {
      DecimalRoundTrip(n / 10);
      var s := NatToDecimal(n);
      assert s[..|s| - 1] == NatToDecimal(n / 10);
    }
  }

  /** The first index at or after `i` that is `|s|` or holds a character outside `p`. */
  function SkipWhile(s: string, i: nat, p: char -> bool): (j: nat)
    requires i <= |s|
    ensures i <= j <= |s|
    ensures j < |s| ==> !p(s[j])
    decreases |s| - i
  {
    if i == |s| || !p(s[i]) then i else SkipWhile(s, i + 1, p)
  }

  /** Every character skipped satisfies `p`. */
  lemma {:induction false} SkipWhileSkipped(s: string, i: nat, p: char -> bool)
    requires i <= |s|
    ensures forall k | i <= k < SkipWhile(s, i, p) :: p(s[k])
    decreases |s| - i
  {
    if i < |s| && p(s[i]) {
      SkipWhileSkipped(s, i + 1, p);
    }
  }

  /** Skipping leading whitespace, as `stoi` and the lexer do. */
  function SkipSpaces(s: string, i: nat): nat
    requires i <= |s|
  {
    SkipWhile(s, i, IsSpace)
  }

  /** The end of the maximal digit run starting at `i`. */
  function DigitEnd(s: string, i: nat): nat
    requires i <= |s|
  {
    SkipWhile(s, i, IsDigit)
  }

  predicate NotNewline(c: char)
  {
    c != '\n'
  }

  /** The end of the line starting at `i`: the next newline, or the end of the text. */
  function LineEnd(s: string, i: nat): nat
    requires i <= |s|
  {
    SkipWhile(s, i, NotNewline)
  }

  /** A position up to which every character satisfies `p`, and where that stops, is where skipping ends. */
  lemma {:induction false} SkipWhileFrom(s: string, i: nat, j: nat, p: char -> bool)
    requires i <= j <= |s|
    requires forall k | i <= k < j :: p(s[k])
    requires j == |s| || !p(s[j])
    ensures SkipWhile(s, i, p) == j
    decreases j - i
  {
    if i < j {
      SkipWhileFrom(s, i + 1, j, p);
    }
  }

  /**
   * The lines successive calls of `getline` deliver from position `i` on: the pieces
   * between newlines, where a final newline does not start another (empty) line.
   */
  function LinesFrom(s: string, i: nat): seq<string>
    requires i <= |s|
    decreases |s| - i
  {
    if i == |s| then [] else [s[i..LineEnd(s, i)]] + LinesFrom(s, NextLine(s, i))
  }

  /** Where the line after the one starting at `i` starts: past its newline, if it has one. */
  function NextLine(s: string, i: nat): (n: nat)
    requires i < |s|
    ensures i < n <= |s|
  {
    var j := LineEnd(s, i);
    if j < |s| then j + 1 else j
  }

  function Lines(s: string): seq<string>
  {
    LinesFrom(s, 0)
  }

  predicate NoNewline(s: string)
  {
    forall k | 0 <= k < |s| :: s[k] != '\n'
  }

  /** No delivered line holds a newline. */
  lemma {:induction false} LinesFromNoNewline(s: string, i: nat)
    requires i <= |s|
    ensures forall k | 0 <= k < |LinesFrom(s, i)| :: NoNewline(LinesFrom(s, i)[k])
    decreases |s| - i
  {
    if i < |s| {
      var j := LineEnd(s, i);
      if j < |s| {
        LinesFromNoNewline(s, j + 1);
      }
      assert NoNewline(s[i..j]) by {
        SkipWhileSkipped(s, i, NotNewline);
        forall k | 0 <= k < j - i ensures s[i..j][k] != '\n' {
          assert s[i..j][k] == s[i + k];
        }
      }
    }
  }

  /** Skipping in the second part of a concatenation is skipping in that part, shifted. */
  lemma {:induction false} SkipWhileConcat(a: string, b: string, k: nat, p: char -> bool)
    requires k <= |b|
    ensures SkipWhile(a + b, |a| + k, p) == |a| + SkipWhile(b, k, p)
    decreases |b| - k
  {
    if k < |b| {
      assert (a + b)[|a| + k] == b[k];
      SkipWhileConcat(a, b, k + 1, p);
    }
  }

  /** Skipping in a text that holds `b` from offset `off` on is skipping in `b`, shifted. */
  lemma {:induction false} SkipWhileShifted(s: string, b: string, off: nat, k: nat, p: char -> bool)
    requires off + |b| == |s| && s[off..] == b && k <= |b|
    ensures SkipWhile(s, off + k, p) == off + SkipWhile(b, k, p)
    decreases |b| - k
  {
    if k < |b| {
      assert s[off + k] == s[off..][k];
      SkipWhileShifted(s, b, off, k + 1, p);
    }
  }

  /** Skipping in a text that starts with `x`, where it stops inside `x` or `x` is followed by a character outside `p`. */
  lemma {:induction false} SkipWhilePrefixed(s: string, x: string, i: nat, p: char -> bool)
    requires |x| <= |s| && s[..|x|] == x && i <= |x|
    requires SkipWhile(x, i, p) < |x| || |x| == |s| || !p(s[|x|])
    ensures SkipWhile(s, i, p) == SkipWhile(x, i, p)
    decreases |x| - i
  {
    if i < |x| {
      assert s[i] == s[..|x|][i];
      if p(x[i]) {
        SkipWhilePrefixed(s, x, i + 1, p);
      }
    }
  }

  /** A piece of the second part of a concatenation. */
  lemma SliceConcat(a: string, b: string, j: nat, k: nat)
    requires j <= k <= |b|
    ensures (a + b)[|a| + j..|a| + k] == b[j..k]
  {
    assert forall m | 0 <= m < k - j :: (a + b)[|a| + j..|a| + k][m] == b[j..k][m];
  }

  /** A piece of the first part of a concatenation. */
  lemma SlicePrefix(a: string, b: string, j: nat, k: nat)
    requires j <= k <= |a|
    ensures (a + b)[j..k] == a[j..k]
  {
    assert forall m | 0 <= m < k - j :: (a + b)[j..k][m] == a[j..k][m];
  }

  /** A piece of a text that holds `b` from offset `off` on. */
  lemma SliceShifted(s: string, b: string, off: nat, j: nat, k: nat)
    requires off + |b| == |s| && s[off..] == b && j <= k <= |b|
    ensures s[off + j..off + k] == b[j..k]
  {
    forall m | 0 <= m < k - j
      ensures s[off + j..off + k][m] == b[j..k][m]
    {
      assert s[off + j + m] == s[off..][j + m];
    }
  }

  /** A piece of a text that starts with `x`, inside `x`. */
  lemma SlicePrefixed(s: string, x: string, j: nat, k: nat)
    requires |x| <= |s| && s[..|x|] == x && j <= k <= |x|
    ensures s[j..k] == x[j..k]
  {
    forall m | 0 <= m < k - j
      ensures s[j..k][m] == x[j..k][m]
    {
      assert s[j + m] == s[..|x|][j + m];
    }
  }

  /** The lines of the second part of a concatenation, from a position in it. */
  lemma {:induction false} LinesFromConcat(a: string, b: string, k: nat)
    requires k <= |b|
    ensures LinesFrom(a + b, |a| + k) == LinesFrom(b, k)
    decreases |b| - k
  {
    var s := a + b;
    if k < |b| {
      var i := |a| + k;
      var j := LineEnd(b, k);
      SkipWhileConcat(a, b, k, NotNewline);
      assert LineEnd(s, i) == |a| + j;
      SliceConcat(a, b, k, j);
      var line := b[k..j];
      assert s[i..LineEnd(s, i)] == line;
      var n := NextLine(b, k);
      assert NextLine(s, i) == |a| + n;
      LinesFromConcat(a, b, n);
      assert LinesFrom(s, i) == [line] + LinesFrom(s, |a| + n);
    }
  }

  /** A line followed by its newline contributes exactly that line. */
  lemma LinesCons(x: string, rest: string)
    requires NoNewline(x)
    ensures Lines(x + "\n" + rest) == [x] + Lines(rest)
  {
    var s := x + "\n" + rest;
    var xn := x + "\n";
    assert s == xn + rest;
    SkipWhileFrom(s, 0, |x|, NotNewline);
    assert s[0..|x|] == x by {
      SlicePrefix(x, "\n" + rest, 0, |x|);
      assert x + "\n" + rest == x + ("\n" + rest);
      assert x[0..|x|] == x;
    }
    LinesFromConcat(xn, rest, 0);
  }
}
