/**
 * Properties of the text format: what `stoi` reads back, what the lexer accepts, and
 * that parsing undoes serializing, for constraints and for images.
 */
module CodecProofs {
  import opened Support
  import opened Nonogram
  import opened Text
  import opened Codec

  // ----- stoi -----

  /** Accumulating the digits of a run one by one yields the run's decimal value. */
  lemma {:induction false} StoiDigitsValue(s: string, start: nat, k: nat, negative: bool)
    requires start <= k <= |s|
    requires forall m | start <= m < k :: IsDigit(s[m])
    ensures AllDigits(s[start..k])
    ensures StoiDigits(s, start, start, 0, negative) == StoiDigits(s, start, k, DecimalValue(s[start..k]), negative)
    decreases k - start
  {
    assert AllDigits(s[start..k]) by {
      forall m | 0 <= m < k - start ensures IsDigit(s[start..k][m]) {
        assert s[start..k][m] == s[start + m];
      }
    }
    if k > start {
      StoiDigitsValue(s, start, k - 1, negative);
      assert s[start..k][..k - 1 - start] == s[start..k - 1];
      assert s[start..k][k - 1 - start] == s[k - 1];
    }
  }

  /** Whitespace in front of the number is skipped. */
  lemma {:induction false} StoiSkipsSpaces(s: string, i: nat, j: nat)
    requires i <= j <= |s|
    requires forall m | i <= m < j :: IsSpace(s[m])
    ensures StoiFrom(s, i) == StoiFrom(s, j)
    decreases j - i
  {
    if i < j {
      StoiSkipsSpaces(s, i + 1, j);
    }
  }

  /**
   * `stoi` on a text whose first non-blank characters, at `i` up to `k`, are a run of
   * digits with an `int` value: that value, and the index after the run.
   */
  lemma StoiOfDigits(s: string, i: nat, k: nat)
    requires i < k <= |s|
    requires forall m | 0 <= m < i :: IsSpace(s[m])
    requires forall m | i <= m < k :: IsDigit(s[m])
    requires k == |s| || !IsDigit(s[k])
    requires AllDigits(s[i..k]) && DecimalValue(s[i..k]) <= INT_MAX
    ensures Stoi(s) == Just((DecimalValue(s[i..k]), k))
  {
    StoiSkipsSpaces(s, 0, i);
    StoiDigitsValue(s, i, k, false);
  }

  /** Reading back the decimal spelling of an `int`-sized number, followed by a non-digit. */
  lemma StoiOfDecimal(n: nat, rest: string)
    requires n <= INT_MAX
    requires rest == [] || !IsDigit(rest[0])
    ensures Stoi(NatToDecimal(n) + rest) == Just((n, |NatToDecimal(n)|))
  {
    var d := NatToDecimal(n);
    var s := d + rest;
    assert s[0..|d|] == d;
    DecimalRoundTrip(n);
    StoiOfDigits(s, 0, |d|);
  }

  /** A token that starts with a digit converts, if at all, to a non-negative number. */
  lemma StoiOfNumberToken(t: string)
    requires IsNumberToken(t)
    ensures Stoi(t).Just? ==> Stoi(t).value.0 >= 0
  {
    StoiDigitsNonNegative(t, 0, 0, 0);
  }

  lemma {:induction false} StoiDigitsNonNegative(s: string, start: nat, k: nat, magnitude: nat)
    requires start <= k <= |s|
    ensures StoiDigits(s, start, k, magnitude, false).Just? ==> StoiDigits(s, start, k, magnitude, false).value.0 >= 0
    decreases |s| - k
  {
    if k < |s| && IsDigit(s[k]) {
      StoiDigitsNonNegative(s, start, k + 1, 10 * magnitude + DigitValue(s[k]));
    }
  }

  /** A value outside `int` is an error, however it is spelled. */
  lemma StoiOutOfRange(n: nat)
    requires n > INT_MAX
    ensures Stoi(NatToDecimal(n)).Nothing?
  {
    var d := NatToDecimal(n);
    assert d[0..|d|] == d;
    DecimalRoundTrip(n);
    StoiDigitsValue(d, 0, |d|, false);
  }

  // ----- The lexer -----

  /** Lexing the second part of a concatenation, from a position in it. */
  lemma LexFromConcat(a: string, b: string, k: nat)
    requires k <= |b|
    ensures LexFrom(a + b, |a| + k) == LexFrom(b, k)
  {
    assert (a + b)[|a|..] == b;
    LexShifted(a + b, b, |a|, k);
  }

  /** Lexing a text that holds `b` from offset `off` on, from a position in `b`. */
  lemma {:induction false} LexShifted(s: string, b: string, off: nat, k: nat)
    requires off + |b| == |s| && s[off..] == b && k <= |b|
    ensures LexFrom(s, off + k) == LexFrom(b, k)
    decreases |b| - k, 2
  {
    if k < |b| {
      var j := SkipSpaces(b, k);
      SkipWhileShifted(s, b, off, k, IsSpace);
      if j < |b| {
        assert s[off + j] == s[off..][j];
      }
      if j < |b| && IsBrace(b[j]) {
        LexShiftedBrace(s, b, off, k, j);
      } else if j < |b| && IsDigit(b[j]) {
        LexShiftedDigits(s, b, off, k, j);
      } else {
        LexShiftedFail(s, b, off, k, j);
      }
    }
  }

  /** The case of `LexShifted` where a brace follows the whitespace. */
  lemma {:induction false} LexShiftedBrace(s: string, b: string, off: nat, k: nat, j: nat)
    requires off + |b| == |s| && s[off..] == b && k <= j < |b|
    requires SkipSpaces(b, k) == j && SkipSpaces(s, off + k) == off + j
    requires s[off + j] == b[j] && IsBrace(b[j])
    ensures LexFrom(s, off + k) == LexFrom(b, k)
    decreases |b| - k, 1
  {
    var e := j + 1;
    LexShifted(s, b, off, e);
    LexBraceRound(b, k, j, e);
    LexShiftedBraceRound(s, b, off, k, j, e);
  }

  /** The brace case of `LexShifted`, once the token and what follows it are known to agree. */
  lemma LexShiftedBraceRound(s: string, b: string, off: nat, k: nat, j: nat, e: nat)
    requires off + |b| == |s| && k <= j < |b| && e == j + 1
    requires SkipSpaces(s, off + k) == off + j
    requires s[off + j] == b[j] && IsBrace(b[j])
    requires LexFrom(b, k) == Push([b[j]], LexFrom(b, e))
    requires LexFrom(s, off + e) == LexFrom(b, e)
    ensures LexFrom(s, off + k) == LexFrom(b, k)
  {
    LexBraceRound(s, off + k, off + j, off + e);
  }

  /** The case of `LexShifted` where a digit follows the whitespace. */
  lemma {:induction false} LexShiftedDigits(s: string, b: string, off: nat, k: nat, j: nat)
    requires off + |b| == |s| && s[off..] == b && k <= j < |b|
    requires SkipSpaces(b, k) == j && SkipSpaces(s, off + k) == off + j
    requires s[off + j] == b[j] && !IsBrace(b[j]) && IsDigit(b[j])
    ensures LexFrom(s, off + k) == LexFrom(b, k)
    decreases |b| - k, 1
  {
    var e := DigitEnd(b, j);
    SkipWhileShifted(s, b, off, j, IsDigit);
    LexShifted(s, b, off, e);
    SliceShifted(s, b, off, j, e);
    LexDigitsRound(b, k, j, e);
    LexShiftedDigitsRound(s, b, off, k, j, e);
  }

  /** The digit case of `LexShifted`, once the token and what follows it are known to agree. */
  lemma LexShiftedDigitsRound(s: string, b: string, off: nat, k: nat, j: nat, e: nat)
    requires off + |b| == |s| && k <= j < e <= |b| && DigitEnd(s, off + j) == off + e
    requires SkipSpaces(s, off + k) == off + j
    requires s[off + j] == b[j] && !IsBrace(b[j]) && IsDigit(b[j])
    requires LexFrom(b, k) == Push(b[j..e], LexFrom(b, e))
    requires s[off + j..off + e] == b[j..e] && LexFrom(s, off + e) == LexFrom(b, e)
    ensures LexFrom(s, off + k) == LexFrom(b, k)
  {
    LexDigitsRound(s, off + k, off + j, off + e);
  }

  /** A round of the lexer that finds a brace at `j`, after the whitespace from `i`. */
  lemma LexBraceRound(s: string, i: nat, j: nat, e: nat)
    requires i <= j < |s| && SkipSpaces(s, i) == j && IsBrace(s[j]) && e == j + 1
    ensures LexFrom(s, i) == Push([s[j]], LexFrom(s, e))
  {
    assert s[j..e] == [s[j]];
  }

  /** A round of the lexer that finds the digit run `s[j..e]`, after the whitespace from `i`. */
  lemma LexDigitsRound(s: string, i: nat, j: nat, e: nat)
    requires i <= j < |s| && SkipSpaces(s, i) == j && !IsBrace(s[j]) && IsDigit(s[j])
    requires e == DigitEnd(s, j)
    ensures LexFrom(s, i) == Push(s[j..e], LexFrom(s, e))
  {
  }

  /** The failing step of `LexShifted`: only whitespace, or a stray character, at the shifted position. */
  lemma LexShiftedFail(s: string, b: string, off: nat, k: nat, j: nat)
    requires k < |b| && off + |b| == |s|
    requires SkipSpaces(b, k) == j && SkipSpaces(s, off + k) == off + j
    requires j < |b| ==> s[off + j] == b[j] && !IsBrace(b[j]) && !IsDigit(b[j])
    ensures LexFrom(s, off + k) == LexFrom(b, k)
  {
  }

  /** Whitespace between tokens is skipped, as long as a token follows. */
  lemma LexFromSpace(s: string, i: nat)
    requires i + 1 < |s| && IsSpace(s[i])
    ensures LexFrom(s, i) == LexFrom(s, i + 1)
  {
    assert SkipSpaces(s, i) == SkipSpaces(s, i + 1);
  }

  /**
   * A text that lexes, followed by a space and more text: its tokens come first, then
   * those of the rest, taken on its own.
   */
  lemma LexSpaced(x: string, rest: string)
    requires LexText(x).ok && rest != []
    ensures LexText(x + " " + rest) == Resume(LexText(x).tokens, LexText(rest))
  {
    var s := x + " " + rest;
    assert s[..|x|] == x;
    assert s[|x|] == ' ';
    LexPrefixed(s, x, 0);
    LexFromSpace(s, |x|);
    assert s == (x + " ") + rest;
    LexFromConcat(x + " ", rest, 0);
  }

  /**
   * Lexing a text that starts with `x`, from a position in `x` where `x` lexes: the
   * tokens of `x`, then whatever the lexer does at the end of `x`, provided the token
   * at the end of `x` is not continued by a digit.
   */
  lemma {:induction false} LexPrefixed(s: string, x: string, i: nat)
    requires |x| <= |s| && s[..|x|] == x && i <= |x| && LexFrom(x, i).ok
    requires |x| == |s| || !IsDigit(s[|x|])
    ensures LexFrom(s, i) == Resume(LexFrom(x, i).tokens, LexFrom(s, |x|))
    decreases |x| - i
  {
    var rest := LexFrom(s, |x|);
    if i == |x| {
      ResumeNothing(rest);
    } else {
      var t, e := LexPrefixedStep(s, x, i);
      LexPrefixed(s, x, e);
      PushResume(t, LexFrom(x, e).tokens, rest);
    }
  }

  lemma ResumeNothing(rest: Lexed)
    ensures Resume([], rest) == rest
  {
    assert [] + rest.tokens == rest.tokens;
  }

  lemma PushResume(t: string, done: seq<string>, rest: Lexed)
    ensures Push(t, Resume(done, rest)) == Resume([t] + done, rest)
  {
    assert [t] + (done + rest.tokens) == ([t] + done) + rest.tokens;
  }

  /** One step of `LexPrefixed`: the token `t` that ends at `e` inside `x`, read alike in `s` and in `x`. */
  lemma LexPrefixedStep(s: string, x: string, i: nat) returns (t: string, e: nat)
    requires |x| <= |s| && s[..|x|] == x && i < |x| && LexFrom(x, i).ok
    requires |x| == |s| || !IsDigit(s[|x|])
    ensures i < e <= |x| && LexFrom(x, e).ok
    ensures LexFrom(x, i) == Push(t, LexFrom(x, e))
    ensures LexFrom(s, i) == Push(t, LexFrom(s, e))
  {
    var j := SkipSpaces(x, i);
    SkipWhilePrefixed(s, x, i, IsSpace);
    assert s[j] == s[..|x|][j];
    if IsBrace(x[j]) {
      e := j + 1;
    } else {
      e := DigitEnd(x, j);
      SkipWhilePrefixed(s, x, j, IsDigit);
    }
    t := x[j..e];
    SlicePrefixed(s, x, j, e);
  }

  /** A single token lexes to itself. */
  lemma LexToken(t: string)
    requires WellFormedToken(t)
    ensures LexText(t) == Lexed(true, [t])
  {
    assert SkipSpaces(t, 0) == 0;
    if IsBrace(t[0]) {
      assert |t| == 1 && t[0..1] == t;
      assert LexFrom(t, 1) == Lexed(true, []);
      assert LexText(t) == Push(t, Lexed(true, []));
    } else {
      SkipWhileFrom(t, 0, |t|, IsDigit);
      assert t[0..|t|] == t;
      assert LexFrom(t, |t|) == Lexed(true, []);
      assert LexText(t) == Push(t, Lexed(true, []));
    }
    assert [t] + [] == [t];
  }

  /** Tokens written with single spaces between them lex back to those tokens. */
  lemma {:induction false} LexJoined(ts: seq<string>)
    requires |ts| >= 1
    requires forall m | 0 <= m < |ts| :: WellFormedToken(ts[m])
    ensures LexText(Joined(ts, " ")) == Lexed(true, ts)
  {
    LexToken(ts[0]);
    if |ts| > 1 {
      LexJoined(ts[1..]);
      JoinedLength(ts[1..], " ");
      LexSpaced(ts[0], Joined(ts[1..], " "));
      assert [ts[0]] + ts[1..] == ts;
    }
  }

  /** The empty constraint list, `{  }`. */
  lemma LexEmptyList()
    ensures LexText("{  }") == Lexed(true, ["{", "}"])
  {
    LexToken("{");
    LexToken("}");
    assert "{  }" == "{" + " " + " }";
    LexFromSpace(" }", 0);
    assert " }" == " " + "}";
    LexFromConcat(" ", "}", 0);
    assert LexText(" }") == Lexed(true, ["}"]);
    LexSpaced("{", " }");
    assert ["{"] + ["}"] == ["{", "}"];
  }

  // ----- What the lexer accepts, and what it produces -----

  /** The characters `lex` knows: whitespace, braces and digits. */
  predicate LexChar(c: char)
  {
    IsSpace(c) || IsBrace(c) || IsDigit(c)
  }

  /** From position `i` on, only known characters, and no whitespace at the very end. */
  predicate Lexable(s: string, i: nat)
    requires i <= |s|
  {
    (forall k | i <= k < |s| :: LexChar(s[k])) && (i == |s| || !IsSpace(s[|s| - 1]))
  }

  /**
   * One round of the lexer from `i`, seen from the characters: the skipped whitespace
   * ends at `j`; either there is no token (the text ends in whitespace or `s[j]` is
   * unknown) or the token is `s[j..e]`.
   */
  lemma LexStep(s: string, i: nat) returns (j: nat, e: nat)
    requires i < |s|
    ensures i <= j <= |s| && j == SkipSpaces(s, i)
    ensures j < |s| && (IsBrace(s[j]) || IsDigit(s[j])) ==>
      j < e <= |s| && LexFrom(s, i) == Push(s[j..e], LexFrom(s, e))
      && (IsBrace(s[j]) ==> e == j + 1)
      && (!IsBrace(s[j]) ==> e == DigitEnd(s, j))
    ensures !(j < |s| && (IsBrace(s[j]) || IsDigit(s[j]))) ==> LexFrom(s, i) == Lexed(false, [])
    ensures forall k | i <= k < j :: IsSpace(s[k])
    ensures j < |s| && !IsBrace(s[j]) && IsDigit(s[j]) ==> forall k | j <= k < e :: IsDigit(s[k])
  {
    j := SkipSpaces(s, i);
    e := if j < |s| && IsBrace(s[j]) then j + 1 else if j < |s| then DigitEnd(s, j) else j;
    SkipWhileSkipped(s, i, IsSpace);
    if j < |s| && !IsBrace(s[j]) && IsDigit(s[j]) {
      SkipWhileSkipped(s, j, IsDigit);
    }
  }

  /** `lex` succeeds exactly on texts of known characters that do not end in whitespace. */
  lemma {:induction false} LexFromOk(s: string, i: nat)
    requires i <= |s|
    ensures LexFrom(s, i).ok <==> Lexable(s, i)
    decreases |s| - i
  {
    if i < |s| {
      var j, e := LexStep(s, i);
      if j < |s| && (IsBrace(s[j]) || IsDigit(s[j])) {
        LexFromOk(s, e);
        LexableStep(s, i, j, e);
      } else if j < |s| {
        assert !LexChar(s[j]);
      } else {
        assert IsSpace(s[|s| - 1]);
      }
    }
  }

  /** The characters from `i` are lexable exactly when those after the token at `j..e` are. */
  lemma LexableStep(s: string, i: nat, j: nat, e: nat)
    requires i <= j < e <= |s| && j == SkipSpaces(s, i)
    requires forall k | j <= k < e :: IsBrace(s[k]) || IsDigit(s[k])
    ensures Lexable(s, i) <==> Lexable(s, e)
  {
    SkipWhileSkipped(s, i, IsSpace);
    if Lexable(s, e) {
      forall k | i <= k < |s| ensures LexChar(s[k]) {
        if k >= e {
          assert LexChar(s[k]);
        }
      }
    }
  }

  /** `lex` succeeds exactly when every character is whitespace, a brace or a digit and the last is not whitespace. */
  lemma LexTextOk(s: string)
    ensures LexText(s).ok <==> Lexable(s, 0)
  {
    LexFromOk(s, 0);
  }

  /** The tokens one after the other, as one string. */
  function Flatten(ts: seq<string>): string
  {
    if ts == [] then "" else ts[0] + Flatten(ts[1..])
  }

  /** The characters from `i` on that are not whitespace, in order. */
  function NonSpaceFrom(s: string, i: nat): string
    requires i <= |s|
    decreases |s| - i
  {
    if i == |s| then "" else (if IsSpace(s[i]) then "" else [s[i]]) + NonSpaceFrom(s, i + 1)
  }

  lemma {:induction false} NonSpaceSkip(s: string, i: nat, j: nat)
    requires i <= j <= |s| && forall k | i <= k < j :: IsSpace(s[k])
    ensures NonSpaceFrom(s, i) == NonSpaceFrom(s, j)
    decreases j - i
  {
    if i < j {
      NonSpaceSkip(s, i + 1, j);
      assert "" + NonSpaceFrom(s, i + 1) == NonSpaceFrom(s, i + 1);
    }
  }

  lemma {:induction false} NonSpaceRun(s: string, j: nat, e: nat)
    requires j <= e <= |s| && forall k | j <= k < e :: !IsSpace(s[k])
    ensures NonSpaceFrom(s, j) == s[j..e] + NonSpaceFrom(s, e)
    decreases e - j
  {
    if j < e {
      NonSpaceRun(s, j + 1, e);
      assert [s[j]] + s[j + 1..e] == s[j..e];
      assert [s[j]] + (s[j + 1..e] + NonSpaceFrom(s, e)) == s[j..e] + NonSpaceFrom(s, e);
    } else {
      assert s[j..e] == "";
    }
  }

  lemma FlattenCons(t: string, ts: seq<string>)
    ensures Flatten([t] + ts) == t + Flatten(ts)
  {
    assert ([t] + ts)[1..] == ts;
  }

  /** The token `s[j..e]` of one lexer round is well formed and holds no whitespace. */
  lemma TokenOfStep(s: string, j: nat, e: nat)
    requires j < e <= |s| && (IsBrace(s[j]) || IsDigit(s[j]))
    requires IsBrace(s[j]) ==> e == j + 1
    requires !IsBrace(s[j]) ==> e == DigitEnd(s, j)
    ensures WellFormedToken(s[j..e]) && forall k | j <= k < e :: !IsSpace(s[k])
  {
    if !IsBrace(s[j]) {
      SkipWhileSkipped(s, j, IsDigit);
      assert AllDigits(s[j..e]) by {
        forall m | 0 <= m < e - j ensures IsDigit(s[j..e][m]) {
          assert s[j..e][m] == s[j + m];
        }
      }
    }
  }

  /**
   * The tokens `lex` pushes are single braces and digit runs, and together they are
   * the text's non-whitespace characters, in source order.
   */
  lemma {:induction false} LexFromTokens(s: string, i: nat)
    requires i <= |s| && LexFrom(s, i).ok
    ensures AllWellFormed(LexFrom(s, i).tokens)
    ensures Flatten(LexFrom(s, i).tokens) == NonSpaceFrom(s, i)
    decreases |s| - i
  {
    if i < |s| {
      var j, e := LexStep(s, i);
      var t := s[j..e];
      var rest := LexFrom(s, e).tokens;
      LexFromTokens(s, e);
      TokenOfStep(s, j, e);
      AllWellFormedConcat([t], rest);
      FlattenCons(t, rest);
      NonSpaceSkip(s, i, j);
      NonSpaceRun(s, j, e);
    }
  }

  /** Where the whitespace before token `k` starts: at `i` for the first token, else where token `k - 1` ends. */
  function GapStart(i: nat, toks: seq<string>, p: seq<nat>, k: nat): int
    requires |p| == |toks| && k <= |p|
  {
    if k == 0 then i else p[k - 1] + |toks[k - 1]|
  }

  predicate Spaces(s: string, a: int, b: int)
  {
    0 <= a <= b <= |s| && forall m | a <= m < b :: IsSpace(s[m])
  }

  /**
   * Token `t` is the text at `at`, with only whitespace between `gap` and `at`. A number
   * token is a maximal digit run: the end of the text or a non-digit follows it.
   */
  predicate TokenAt(s: string, gap: int, at: nat, t: string)
  {
    Spaces(s, gap, at) && at + |t| <= |s| && s[at..at + |t|] == t
    && (IsNumberToken(t) ==> at + |t| == |s| || !IsDigit(s[at + |t|]))
  }

  /**
   * Token `k` of `toks` stands at `p[k]`, after whitespace back to the end of the previous
   * token (or to `i`), and the text ends where the last token does.
   */
  predicate Placed(s: string, i: nat, toks: seq<string>, p: seq<nat>)
  {
    |p| == |toks|
    && (forall k | 0 <= k < |p| :: TokenAt(s, GapStart(i, toks, p, k), p[k], toks[k]))
    && GapStart(i, toks, p, |p|) == |s|
  }

  /** A token at `j`, after whitespace from `i`, in front of tokens placed from its end on. */
  lemma PlacedCons(s: string, i: nat, j: nat, t: string, ts: seq<string>, q: seq<nat>)
    requires TokenAt(s, i, j, t) && Placed(s, j + |t|, ts, q)
    ensures Placed(s, i, [t] + ts, [j] + q)
  {
    var toks, p := [t] + ts, [j] + q;
    assert GapStart(i, toks, p, 0) == i;
    forall k | 1 <= k <= |p|
      ensures GapStart(i, toks, p, k) == GapStart(j + |t|, ts, q, k - 1)
    {
      if k > 1 {
        assert p[k - 1] == q[k - 2] && toks[k - 1] == ts[k - 2];
      }
    }
    forall k | 0 <= k < |p|
      ensures TokenAt(s, GapStart(i, toks, p, k), p[k], toks[k])
    {
      if k > 0 {
        assert p[k] == q[k - 1] && toks[k] == ts[k - 1];
      }
    }
    assert GapStart(i, toks, p, |p|) == GapStart(j + |t|, ts, q, |q|);
  }

  /** Each token `lex` pushes from position `i` on, with where it stands in the text. */
  lemma {:induction false} LexFromPlaced(s: string, i: nat) returns (p: seq<nat>)
    requires i <= |s| && LexFrom(s, i).ok
    ensures Placed(s, i, LexFrom(s, i).tokens, p)
    decreases |s| - i
  {
    if i == |s| {
      p := [];
    } else {
      var j, e := LexStep(s, i);
      var t := s[j..e];
      var rest := LexFromPlaced(s, e);
      assert |t| == e - j;
      PlacedCons(s, i, j, t, LexFrom(s, e).tokens, rest);
      p := [j] + rest;
    }
  }

  /**
   * The tokens of a lexed text are single braces and maximal digit runs, and together
   * they are its non-whitespace characters in order: token `k` is the text at `p[k]`,
   * with only whitespace between consecutive tokens and none after the last.
   */
  lemma LexTextTokens(s: string) returns (p: seq<nat>)
    requires LexText(s).ok
    ensures AllWellFormed(LexText(s).tokens) && Flatten(LexText(s).tokens) == NonSpaceFrom(s, 0)
    ensures Placed(s, 0, LexText(s).tokens, p)
  {
    LexFromTokens(s, 0);
    p := LexFromPlaced(s, 0);
  }

  // ----- The tokens of serialized constraint lists -----

  /** A clue as `serializeConstraints` writes it accepts back: entries from 1 to `INT_MAX`. */
  predicate ValidClue(v: Clue)
  {
    forall i | 0 <= i < |v| :: 1 <= v[i] <= INT_MAX
  }

  predicate ValidClues(clues: seq<Clue>)
  {
    forall k | 0 <= k < |clues| :: ValidClue(clues[k])
  }

  predicate AllWellFormed(ts: seq<string>)
  {
    forall m | 0 <= m < |ts| :: WellFormedToken(ts[m])
  }

  /** The tokens of one written clue: `{`, its numbers (or `0`), `}`. */
  function ClueTokens(v: Clue): (ts: seq<string>)
    ensures |ts| >= 3
  {
    ["{"] + ClueStrings(v) + ["}"]
  }

  /** The tokens of several written clues, one after the other. */
  function FlatClues(clues: seq<Clue>): seq<string>
  {
    if clues == [] then [] else ClueTokens(clues[0]) + FlatClues(clues[1..])
  }

  /** The tokens of a written constraint list. */
  function ListTokens(clues: seq<Clue>): seq<string>
  {
    ["{"] + FlatClues(clues) + ["}"]
  }

  lemma AllWellFormedConcat(a: seq<string>, b: seq<string>)
    requires AllWellFormed(a) && AllWellFormed(b)
    ensures AllWellFormed(a + b)
  {
    forall m | 0 <= m < |a + b| ensures WellFormedToken((a + b)[m]) {
      if m >= |a| {
        assert (a + b)[m] == b[m - |a|];
      }
    }
  }

  /** The spelling of a non-negative number is a number token. */
  lemma DecimalWellFormed(n: int)
    requires n >= 0
    ensures WellFormedToken(IntToString(n)) && IntToString(n) == NatToDecimal(n)
  {
  }

  lemma ClueTokensWellFormed(v: Clue)
    requires ValidClue(v)
    ensures AllWellFormed(ClueTokens(v))
  {
    var cs := ClueStrings(v);
    if v == [] {
      assert cs == [NatToDecimal(0)];
    } else {
      forall m | 0 <= m < |cs| ensures WellFormedToken(cs[m]) {
        DecimalWellFormed(v[m]);
      }
    }
    AllWellFormedConcat(["{"], cs);
    AllWellFormedConcat(["{"] + cs, ["}"]);
  }

  lemma {:induction false} FlatCluesWellFormed(clues: seq<Clue>)
    requires ValidClues(clues)
    ensures AllWellFormed(FlatClues(clues))
  {
    if clues != [] {
      ClueTokensWellFormed(clues[0]);
      FlatCluesWellFormed(clues[1..]);
      AllWellFormedConcat(ClueTokens(clues[0]), FlatClues(clues[1..]));
    }
  }

  /** Braces around joined pieces, written `{ ... }`, are the braces joined with the pieces. */
  lemma BracedJoined(ws: seq<string>)
    requires |ws| >= 1
    ensures "{ " + Joined(ws, " ") + " }" == Joined(["{"] + ws + ["}"], " ")
  {
    var j := Joined(ws, " ");
    var v := ["{"] + ws + ["}"];
    Enclosed("{", ws, "}");
    JoinedSnoc(ws, "}", " ");
    assert Joined(v, " ") == "{" + " " + (j + " " + "}");
    Regroup("{", " ", j, "}");
    assert "{" + " " == "{ " && " " + "}" == " }";
  }

  /** The list `[o] + ws + [c]` starts with `o`, followed by the rest. */
  lemma Enclosed<T>(o: T, ws: seq<T>, c: T)
    ensures ([o] + ws + [c])[0] == o && ([o] + ws + [c])[1..] == ws + [c]
  {
  }

  /** Regrouping the pieces of a braced, spaced text. */
  lemma Regroup(o: string, sp: string, j: string, c: string)
    ensures o + sp + (j + sp + c) == (o + sp) + j + (sp + c)
  {
  }

  /** A written clue is its tokens with single spaces between them. */
  lemma ClueTextJoined(v: Clue)
    ensures ClueText(v) == Joined(ClueTokens(v), " ")
  {
    BracedJoined(ClueStrings(v));
  }

  lemma {:induction false} FlatCluesJoined(clues: seq<Clue>)
    requires clues != []
    ensures Joined(Mapped(clues, ClueText), " ") == Joined(FlatClues(clues), " ")
  {
    var texts := Mapped(clues, ClueText);
    ClueTextJoined(clues[0]);
    if |clues| == 1 {
      assert FlatClues(clues) == ClueTokens(clues[0]) + [];
      assert ClueTokens(clues[0]) + [] == ClueTokens(clues[0]);
    } else {
      FlatCluesJoined(clues[1..]);
      assert texts[1..] == Mapped(clues[1..], ClueText);
      JoinedConcat(ClueTokens(clues[0]), FlatClues(clues[1..]), " ");
    }
  }

  /** A written constraint list with at least one clue is its tokens with single spaces between them. */
  lemma ListTextJoined(clues: seq<Clue>)
    requires clues != []
    ensures ListText(clues) == Joined(ListTokens(clues), " ")
  {
    FlatCluesJoined(clues);
    BracedJoined(FlatClues(clues));
  }

  /** A written constraint list lexes to exactly its tokens, the empty list included. */
  lemma LexListText(clues: seq<Clue>)
    requires ValidClues(clues)
    ensures LexText(ListText(clues)) == Lexed(true, ListTokens(clues))
  {
    if clues == [] {
      assert ListText(clues) == "{  }";
      assert ListTokens(clues) == ["{", "}"];
      LexEmptyList();
    } else {
      ListTextJoined(clues);
      FlatCluesWellFormed(clues);
      AllWellFormedConcat(["{"], FlatClues(clues));
      AllWellFormedConcat(["{"] + FlatClues(clues), ["}"]);
      LexJoined(ListTokens(clues));
    }
  }

  // ----- Parsing written constraint lists back -----

  /** The tokens `ws` stand in `toks` from cursor `c` on. */
  predicate Occurs(toks: seq<string>, c: nat, ws: seq<string>)
  {
    c + |ws| <= |toks| && forall m | 0 <= m < |ws| :: toks[c + m] == ws[m]
  }

  lemma OccursFront(toks: seq<string>, c: nat, a: seq<string>, b: seq<string>)
    requires Occurs(toks, c, a + b)
    ensures Occurs(toks, c, a) && Occurs(toks, c + |a|, b)
  {
    forall m | 0 <= m < |a| ensures toks[c + m] == a[m] {
      assert (a + b)[m] == a[m];
    }
    forall m | 0 <= m < |b| ensures toks[c + |a| + m] == b[m] {
      assert (a + b)[|a| + m] == b[m];
    }
  }

  /** `0` is the only spelling of zero, and reads back as zero. */
  lemma StoiOfZero()
    ensures NatToDecimal(0) == "0" && Stoi("0") == Just((0, 1))
  {
    StoiOfDecimal(0, []);
    assert NatToDecimal(0) + [] == "0";
  }

  /** A number written by the serializer converts back to itself. */
  lemma StoiOfEntry(n: int)
    requires 0 <= n <= INT_MAX
    ensures IsNumberToken(IntToString(n)) && Stoi(IntToString(n)).Just? && Stoi(IntToString(n)).value.0 == n
  {
    StoiOfDecimal(n, []);
    assert NatToDecimal(n) + [] == NatToDecimal(n);
  }

  /** One number token of a list body: its value joins the numbers read so far. */
  lemma NumItemsStep(toks: seq<string>, c: nat, numList: seq<int>, n: int)
    requires c < |toks| && toks[c] != "}" && IsNumberToken(toks[c])
    requires Stoi(toks[c]).Just? && Stoi(toks[c]).value.0 == n
    ensures NumItems(toks, c, numList) == NumItems(toks, c + 1, numList + [n])
  {
  }

  /** Written numbers from 0 to `INT_MAX`, then `}`: the body of a number list reads them all. */
  lemma {:induction false} NumItemsOfClue(toks: seq<string>, c: nat, v: Clue, numList: seq<int>)
    requires InRange(v) && Occurs(toks, c, Mapped(v, IntToString) + ["}"])
    ensures NumItems(toks, c, numList) == Parsed(DropZero(numList + v), c + |v| + 1)
    decreases |v|
  {
    if v == [] {
      NumItemsEnd(toks, c, numList);
      ConcatEmpty(numList);
    } else {
      NumItemsHead(toks, c, v, numList);
      NumItemsOfClue(toks, c + 1, v[1..], numList + [v[0]]);
      ConcatHead(numList, v);
    }
  }

  lemma ConcatEmpty<T>(a: seq<T>)
    ensures a + [] == a
  {
  }

  lemma ConcatHead<T>(a: seq<T>, v: seq<T>)
    requires v != []
    ensures a + [v[0]] + v[1..] == a + v
  {
    assert [v[0]] + v[1..] == v;
  }

  /** The closing `}` of a number list body. */
  lemma NumItemsEnd(toks: seq<string>, c: nat, numList: seq<int>)
    requires Occurs(toks, c, Mapped([], IntToString) + ["}"])
    ensures NumItems(toks, c, numList) == Parsed(DropZero(numList), c + 1)
  {
    assert toks[c] == (Mapped([], IntToString) + ["}"])[0];
  }

  /** The first number of a clue body. */
  lemma NumItemsHead(toks: seq<string>, c: nat, v: Clue, numList: seq<int>)
    requires InRange(v) && v != [] && Occurs(toks, c, Mapped(v, IntToString) + ["}"])
    ensures NumItems(toks, c, numList) == NumItems(toks, c + 1, numList + [v[0]])
    ensures InRange(v[1..]) && Occurs(toks, c + 1, Mapped(v[1..], IntToString) + ["}"])
  {
    var w := Mapped(v, IntToString) + ["}"];
    var rest := Mapped(v[1..], IntToString) + ["}"];
    assert w == [w[0]] + rest;
    OccursFront(toks, c, [w[0]], rest);
    assert toks[c] == IntToString(v[0]);
    StoiOfEntry(v[0]);
    NumItemsStep(toks, c, numList, v[0]);
    assert InRange(v[1..]) by {
      forall i | 0 <= i < |v| - 1 ensures 0 <= v[1..][i] <= INT_MAX {
        assert v[1..][i] == v[i + 1];
      }
    }
  }

  /** A written clue at the cursor parses back to that clue, and the cursor moves past it. */
  lemma NumListOfClue(toks: seq<string>, c: nat, v: Clue)
    requires ValidClue(v) && Occurs(toks, c, ClueTokens(v))
    ensures NumListAt(toks, c) == Parsed(Just(v), c + |ClueTokens(v)|)
  {
    var cs := ClueStrings(v);
    assert ClueTokens(v) == ["{"] + (cs + ["}"]);
    assert toks[c] == ClueTokens(v)[0];
    OccursFront(toks, c, ["{"], cs + ["}"]);
    if v == [] {
      NumListOfZero(toks, c + 1);
    } else {
      NumItemsOfClue(toks, c + 1, v, []);
      DropZeroOfValid(v);
    }
  }

  /** `{ 0 }` stands for the empty clue. */
  lemma NumListOfZero(toks: seq<string>, c: nat)
    requires Occurs(toks, c, ClueStrings([]) + ["}"])
    ensures NumItems(toks, c, []) == Parsed(Just([]), c + 2)
  {
    StoiOfZero();
    var w := ClueStrings([]) + ["}"];
    assert w[0] == "0" && w[1] == "}";
    assert toks[c + 0] == w[0] && toks[c + 1] == w[1];
    NumItemsStep(toks, c, [], 0);
  }

  lemma DropZeroOfValid(v: Clue)
    requires ValidClue(v) && v != []
    ensures DropZero([] + v) == Just(v)
  {
    assert [] + v == v;
    assert 0 !in v;
  }

  /** Written clues, then the closing `}` as the last token: the list body reads them all. */
  lemma {:induction false} ClueItemsOfClues(toks: seq<string>, c: nat, clues: seq<Clue>, done: seq<Clue>)
    requires ValidClues(clues) && Occurs(toks, c, FlatClues(clues) + ["}"])
    requires c + |FlatClues(clues)| + 1 == |toks|
    ensures ClueItems(toks, c, done) == Parsed(Just(done + clues), |toks|)
    decreases |clues|
  {
    if clues == [] {
      ClueItemsEnd(toks, c, done);
      ConcatEmpty(done);
    } else {
      var next := ClueItemsHead(toks, c, clues, done);
      ClueItemsOfClues(toks, next, clues[1..], done + [clues[0]]);
      ConcatHead(done, clues);
    }
  }

  /** The closing `}` of a constraint list, as its last token. */
  lemma ClueItemsEnd(toks: seq<string>, c: nat, done: seq<Clue>)
    requires Occurs(toks, c, FlatClues([]) + ["}"]) && c + 1 == |toks|
    ensures ClueItems(toks, c, done) == Parsed(Just(done), |toks|)
  {
    assert toks[c] == (FlatClues([]) + ["}"])[0];
  }

  /** The first clue of a constraint list body, and the cursor after it. */
  lemma ClueItemsHead(toks: seq<string>, c: nat, clues: seq<Clue>, done: seq<Clue>) returns (next: nat)
    requires ValidClues(clues) && clues != [] && Occurs(toks, c, FlatClues(clues) + ["}"])
    requires c + |FlatClues(clues)| + 1 == |toks|
    ensures ClueItems(toks, c, done) == ClueItems(toks, next, done + [clues[0]])
    ensures ValidClues(clues[1..]) && Occurs(toks, next, FlatClues(clues[1..]) + ["}"])
    ensures next + |FlatClues(clues[1..])| + 1 == |toks|
  {
    var first := ClueTokens(clues[0]);
    next := c + |first|;
    assert FlatClues(clues) + ["}"] == first + (FlatClues(clues[1..]) + ["}"]);
    OccursFront(toks, c, first, FlatClues(clues[1..]) + ["}"]);
    assert toks[c] == first[0];
    assert ValidClue(clues[0]);
    NumListOfClue(toks, c, clues[0]);
    assert ValidClues(clues[1..]) by {
      forall k | 0 <= k < |clues| - 1 ensures ValidClue(clues[1..][k]) {
        assert clues[1..][k] == clues[k + 1];
      }
    }
  }

  /** `parseConstraintList` reads a written list back. */
  lemma ConstraintListRoundTrip(clues: seq<Clue>)
    requires ValidClues(clues)
    ensures ConstraintListOf(ListText(clues)).ast == Just(clues)
  {
    LexListText(clues);
    var toks := ListTokens(clues);
    assert toks[0] == "{";
    assert Occurs(toks, 1, FlatClues(clues) + ["}"]) by {
      assert toks == ["{"] + (FlatClues(clues) + ["}"]);
      forall m | 0 <= m < |FlatClues(clues)| + 1 ensures toks[1 + m] == (FlatClues(clues) + ["}"])[m] { }
    }
    ClueItemsOfClues(toks, 1, clues, []);
    assert [] + clues == clues;
  }

  // ----- The zero convention and the failures of `parseNumList`, on token sequences -----

  /** `{ 0 }` and `{ }` both stand for the empty clue. */
  lemma EmptyClueSpellings()
    ensures NumListAt(["{", "0", "}"], 0) == Parsed(Just([]), 3)
    ensures NumListAt(["{", "}"], 0) == Parsed(Just([]), 2)
  {
    StoiOfZero();
    NumItemsStep(["{", "0", "}"], 1, [], 0);
  }

  /** The zero convention rejects exactly the lists of two or more numbers that hold a 0. */
  lemma DropZeroRejects(numList: seq<int>)
    ensures DropZero(numList).Nothing? <==> |numList| >= 2 && 0 in numList
  {
    if |numList| == 1 && 0 in numList {
      assert numList[0] == 0;
    }
  }

  /**
   * A written list of numbers from 0 to `INT_MAX` at the cursor: it reads as the list
   * with the zero convention applied, and is rejected exactly when it has two or more
   * entries and one of them is 0.
   */
  lemma ZeroAmongOthers(toks: seq<string>, c: nat, numList: seq<int>)
    requires InRange(numList) && Occurs(toks, c, ["{"] + (Mapped(numList, IntToString) + ["}"]))
    ensures NumListAt(toks, c) == Parsed(DropZero(numList), c + |numList| + 2)
    ensures NumListAt(toks, c).ast.Nothing? <==> |numList| >= 2 && 0 in numList
  {
    var body := Mapped(numList, IntToString) + ["}"];
    assert toks[c] == (["{"] + body)[0];
    OccursFront(toks, c, ["{"], body);
    NumItemsOfClue(toks, c + 1, numList, []);
    assert [] + numList == numList;
    DropZeroRejects(numList);
  }

  /**
   * The failures of a number list body: no `}` anywhere from the cursor on, or a token
   * at `d` that is neither `}` nor a number, reached over number tokens only.
   */
  lemma {:induction false} NumItemsMalformed(toks: seq<string>, c: nat, d: nat, numList: seq<int>)
    ensures (forall m | c <= m < |toks| :: toks[m] != "}") ==> NumItems(toks, c, numList).ast.Nothing?
    ensures c <= d < |toks| && toks[d] != "}" && !IsNumberToken(toks[d])
            && (forall m | c <= m < d :: IsNumberToken(toks[m]))
            ==> NumItems(toks, c, numList).ast.Nothing?
    decreases |toks| - c
  {
    if c < |toks| && toks[c] != "}" && IsNumberToken(toks[c]) && Stoi(toks[c]).Just? {
      NumItemsMalformed(toks, c + 1, d, numList + [Stoi(toks[c]).value.0]);
    }
  }

  /**
   * A number list is rejected when it is never closed, or when a token other than a
   * number stands inside it after number tokens only.
   */
  lemma NumListMalformed(toks: seq<string>, c: nat, d: nat)
    ensures (forall m | c < m < |toks| :: toks[m] != "}") ==> NumListAt(toks, c).ast.Nothing?
    ensures c < d < |toks| && toks[d] != "}" && !IsNumberToken(toks[d])
            && (forall m | c < m < d :: IsNumberToken(toks[m]))
            ==> NumListAt(toks, c).ast.Nothing?
  {
    NumItemsMalformed(toks, c + 1, d, []);
  }

  /** Any number beyond `INT_MAX` inside a list makes the list fail. */
  lemma NumListOverflow(toks: seq<string>, c: nat, numList: seq<int>, n: nat)
    requires n > INT_MAX && c < |toks| && toks[c] == NatToDecimal(n)
    ensures NumItems(toks, c, numList).ast.Nothing?
  {
    StoiOutOfRange(n);
  }

  // ----- What a parsed constraint list holds -----

  predicate InRange(numList: seq<int>)
  {
    forall i | 0 <= i < |numList| :: 0 <= numList[i] <= INT_MAX
  }

  /** The zero convention leaves only entries from 1 to `INT_MAX`. */
  lemma DropZeroValid(numList: seq<int>)
    requires InRange(numList)
    ensures DropZero(numList).Just? ==> ValidClue(DropZero(numList).value)
  {
  }

  /** One number token of a list body, whatever it spells: its value is in range, or the parse fails there. */
  lemma NumItemsNumber(toks: seq<string>, c: nat, numList: seq<int>) returns (n: int)
    requires c < |toks| && toks[c] != "}" && IsNumberToken(toks[c])
    ensures Stoi(toks[c]).Nothing? ==> NumItems(toks, c, numList).ast.Nothing?
    ensures Stoi(toks[c]).Just? ==> 0 <= n <= INT_MAX && NumItems(toks, c, numList) == NumItems(toks, c + 1, numList + [n])
  {
    StoiOfNumberToken(toks[c]);
    n := if Stoi(toks[c]).Just? then Stoi(toks[c]).value.0 else 0;
  }

  /** A number list body yields entries from 1 to `INT_MAX` only. */
  lemma {:induction false} NumItemsValid(toks: seq<string>, c: nat, numList: seq<int>)
    requires InRange(numList)
    ensures NumItems(toks, c, numList).ast.Just? ==> ValidClue(NumItems(toks, c, numList).ast.value)
    decreases |toks| - c
  {
    if c < |toks| {
      if toks[c] == "}" {
        DropZeroValid(numList);
      } else if IsNumberToken(toks[c]) {
        var n := NumItemsNumber(toks, c, numList);
        if Stoi(toks[c]).Just? {
          InRangeSnoc(numList, n);
          NumItemsValid(toks, c + 1, numList + [n]);
        }
      }
    }
  }

  lemma InRangeSnoc(numList: seq<int>, n: int)
    requires InRange(numList) && 0 <= n <= INT_MAX
    ensures InRange(numList + [n])
  {
  }

  /** A parsed number list holds entries from 1 to `INT_MAX` only. */
  lemma NumListValid(toks: seq<string>, c: nat)
    ensures NumListAt(toks, c).ast.Just? ==> ValidClue(NumListAt(toks, c).ast.value)
  {
    NumItemsValid(toks, c + 1, []);
  }

  /** A constraint list body succeeds only with its `}` as the last token, and holds valid clues. */
  lemma {:induction false} ClueItemsValid(toks: seq<string>, c: nat, clues: seq<Clue>)
    requires ValidClues(clues)
    ensures ClueItems(toks, c, clues).ast.Just? ==> ClueItems(toks, c, clues).cursor == |toks|
    ensures ClueItems(toks, c, clues).ast.Just? ==> ValidClues(ClueItems(toks, c, clues).ast.value)
    decreases |toks| - c
  {
    if c < |toks| && toks[c] != "}" {
      var p := NumListAt(toks, c);
      NumListValid(toks, c);
      if p.ast.Just? {
        ValidCluesSnoc(clues, p.ast.value);
        ClueItemsValid(toks, p.cursor, clues + [p.ast.value]);
      }
    }
  }

  lemma ValidCluesSnoc(clues: seq<Clue>, v: Clue)
    requires ValidClues(clues) && ValidClue(v)
    ensures ValidClues(clues + [v])
  {
    forall k | 0 <= k < |clues| + 1 ensures ValidClue((clues + [v])[k]) {
      if k == |clues| {
        assert (clues + [v])[k] == v;
      } else {
        assert (clues + [v])[k] == clues[k];
      }
    }
  }

  /**
   * `parseConstraintList` succeeds only when its closing `}` is the last token, and
   * every clue it returns has entries from 1 to `INT_MAX`.
   */
  lemma ConstraintListValid(src: string)
    ensures ConstraintListOf(src).ast.Just? ==> ConstraintListOf(src).cursor == |LexText(src).tokens|
    ensures ConstraintListOf(src).ast.Just? ==> ValidClues(ConstraintListOf(src).ast.value)
  {
    var lx := LexText(src);
    if lx.ok && 0 < |lx.tokens| && lx.tokens[0] == "{" {
      ClueItemsValid(lx.tokens, 1, []);
    }
  }

  // ----- Reading a written puzzle back -----

  /** `getline` at the start of a line `x` that ends in a newline. */
  lemma GetLineOf(s: string, i: nat, x: string)
    requires i + |x| < |s| && s[i..i + |x|] == x && s[i + |x|] == '\n' && NoNewline(x)
    ensures GetLine(s, i) == Just((x, i + |x| + 1))
  {
    forall k | i <= k < i + |x| ensures NotNewline(s[k]) {
      assert s[k] == s[i..i + |x|][k - i];
    }
    SkipWhileFrom(s, i, i + |x|, NotNewline);
  }

  /** The line `x` that follows the text `a`, and where the line after it starts. */
  lemma LineAt(a: string, x: string, rest: string)
    requires NoNewline(x)
    ensures GetLine(a + x + "\n" + rest, |a|) == Just((x, |a| + |x| + 1))
  {
    var t := a + x + "\n" + rest;
    var tail := x + ("\n" + rest);
    assert t == a + tail;
    SliceConcat(a, tail, 0, |x|);
    SlicePrefix(x, "\n" + rest, 0, |x|);
    assert x[0..|x|] == x;
    assert t[|a| + |x|] == tail[|x|];
    GetLineOf(t, |a|, x);
  }

  lemma NoNewlineConcat(a: string, b: string)
    requires NoNewline(a) && NoNewline(b)
    ensures NoNewline(a + b)
  {
    forall k | 0 <= k < |a + b| ensures (a + b)[k] != '\n' {
      if k >= |a| {
        assert (a + b)[k] == b[k - |a|];
      }
    }
  }

  lemma {:induction false} JoinedNoNewline(ws: seq<string>)
    requires forall m | 0 <= m < |ws| :: NoNewline(ws[m])
    ensures NoNewline(Joined(ws, " "))
  {
    if |ws| > 1 {
      JoinedNoNewline(ws[1..]);
      NoNewlineConcat(ws[0], " ");
      NoNewlineConcat(ws[0] + " ", Joined(ws[1..], " "));
    }
  }

  lemma TokensNoNewline(ts: seq<string>)
    requires AllWellFormed(ts)
    ensures forall m | 0 <= m < |ts| :: NoNewline(ts[m])
  {
    forall m | 0 <= m < |ts| ensures NoNewline(ts[m]) {
      assert WellFormedToken(ts[m]);
    }
  }

  /** A written constraint list takes one line. */
  lemma ListTextNoNewline(clues: seq<Clue>)
    requires ValidClues(clues)
    ensures NoNewline(ListText(clues))
  {
    if clues == [] {
      assert ListText(clues) == "{  }";
    } else {
      ListTextJoined(clues);
      FlatCluesWellFormed(clues);
      AllWellFormedConcat(["{"], FlatClues(clues));
      AllWellFormedConcat(["{"] + FlatClues(clues), ["}"]);
      TokensNoNewline(ListTokens(clues));
      JoinedNoNewline(ListTokens(clues));
    }
  }

  /** The second count of the header, after its separating space. */
  lemma StoiAfterSpace(n: nat)
    requires n <= INT_MAX
    ensures Stoi(" " + NatToDecimal(n)) == Just((n, 1 + |NatToDecimal(n)|))
  {
    var d := NatToDecimal(n);
    var t := " " + d;
    assert t[1..|t|] == d;
    DecimalRoundTrip(n);
    StoiOfDigits(t, 1, |t|);
  }

  /** The header line `cols rows` reads back as both counts. */
  lemma HeaderRoundTrip(cols: nat, rows: nat)
    requires cols <= INT_MAX && rows <= INT_MAX
    ensures var h := NatToDecimal(cols) + " " + NatToDecimal(rows);
      Stoi(h) == Just((cols, |NatToDecimal(cols)|)) && Stoi(h[|NatToDecimal(cols)|..]) == Just((rows, |h| - |NatToDecimal(cols)|))
  {
    var d := NatToDecimal(cols);
    var t := " " + NatToDecimal(rows);
    SplitAfter(d, " ", NatToDecimal(rows));
    assert t[0] == ' ';
    StoiOfDecimal(cols, t);
    StoiAfterSpace(rows);
  }

  /** A text `d + sp + r` is `d` followed by `sp + r`. */
  lemma SplitAfter(d: string, sp: string, r: string)
    ensures d + sp + r == d + (sp + r) && (d + sp + r)[|d|..] == sp + r
  {
  }

  lemma HeaderNoNewline(cols: nat, rows: nat)
    ensures NoNewline(NatToDecimal(cols) + " " + NatToDecimal(rows))
  {
    var h := NatToDecimal(cols) + " " + NatToDecimal(rows);
    forall k | 0 <= k < |h| ensures h[k] != '\n' {
      if k < |NatToDecimal(cols)| {
        assert h[k] == NatToDecimal(cols)[k];
      } else if k > |NatToDecimal(cols)| {
        assert h[k] == NatToDecimal(rows)[k - |NatToDecimal(cols)| - 1];
      }
    }
  }

  /** A puzzle whose counts fit in `int` and whose clues hold entries from 1 to `INT_MAX`. */
  predicate Writable(c: Constraints)
  {
    |c.cols| <= INT_MAX && |c.rows| <= INT_MAX && ValidClues(c.rows) && ValidClues(c.cols)
  }

  /** Three lines, each ending in a newline, read with `getline` one after the other. */
  lemma ThreeLines(h: string, r: string, k: string)
    requires NoNewline(h) && NoNewline(r) && NoNewline(k)
    ensures var s := h + "\n" + r + "\n" + k + "\n";
      && GetLine(s, 0) == Just((h, |h| + 1))
      && GetLine(s, |h| + 1) == Just((r, |h| + |r| + 2))
      && GetLine(s, |h| + |r| + 2) == Just((k, |s|))
  {
    FirstOfThree(h, r, k);
    SecondOfThree(h, r, k);
    ThirdOfThree(h, r, k);
  }

  lemma FirstOfThree(h: string, r: string, k: string)
    requires NoNewline(h)
    ensures GetLine(h + "\n" + r + "\n" + k + "\n", 0) == Just((h, |h| + 1))
  {
    assert h + "\n" + r + "\n" + k + "\n" == [] + h + "\n" + (r + "\n" + k + "\n");
    LineAt([], h, r + "\n" + k + "\n");
  }

  lemma SecondOfThree(h: string, r: string, k: string)
    requires NoNewline(r)
    ensures GetLine(h + "\n" + r + "\n" + k + "\n", |h| + 1) == Just((r, |h| + |r| + 2))
  {
    assert h + "\n" + r + "\n" + k + "\n" == (h + "\n") + r + "\n" + (k + "\n");
    LineAt(h + "\n", r, k + "\n");
  }

  lemma ThirdOfThree(h: string, r: string, k: string)
    requires NoNewline(k)
    ensures var s := h + "\n" + r + "\n" + k + "\n"; GetLine(s, |h| + |r| + 2) == Just((k, |s|))
  {
    assert h + "\n" + r + "\n" + k + "\n" == (h + "\n" + r + "\n") + k + "\n" + [];
    LineAt(h + "\n" + r + "\n", k, []);
  }

  /** The sections of a text whose first three lines are a readable header and two more. */
  lemma SectionsOfLines(s: string, h: string, r: string, k: string, p1: nat, p2: nat, p3: nat, cols: int, rows: int)
    requires p1 <= p2 <= |s|
    requires GetLine(s, 0) == Just((h, p1)) && GetLine(s, p1) == Just((r, p2)) && GetLine(s, p2) == Just((k, p3))
    requires Stoi(h).Just? && Stoi(h).value.0 == cols
    requires Stoi(h[Stoi(h).value.1..]).Just? && Stoi(h[Stoi(h).value.1..]).value.0 == rows
    ensures SectionsOf(s) == Just(Sections(cols, rows, r, k))
  {
  }

  /** A header line with two readable counts, then two more lines. */
  lemma SectionsOfText(h: string, r: string, k: string, cols: int, rows: int)
    requires NoNewline(h) && NoNewline(r) && NoNewline(k)
    requires Stoi(h).Just? && Stoi(h).value.0 == cols
    requires Stoi(h[Stoi(h).value.1..]).Just? && Stoi(h[Stoi(h).value.1..]).value.0 == rows
    ensures SectionsOf(h + "\n" + r + "\n" + k + "\n") == Just(Sections(cols, rows, r, k))
  {
    var s := h + "\n" + r + "\n" + k + "\n";
    ThreeLines(h, r, k);
    SectionsOfLines(s, h, r, k, |h| + 1, |h| + |r| + 2, |s|, cols, rows);
  }

  /** The three lines of a written puzzle. */
  lemma SectionsRoundTrip(c: Constraints)
    requires Writable(c)
    ensures SectionsOf(SerializeConstraints(c))
      == Just(Sections(|c.cols|, |c.rows|, ListText(c.rows), ListText(c.cols)))
  {
    HeaderNoNewline(|c.cols|, |c.rows|);
    ListTextNoNewline(c.rows);
    ListTextNoNewline(c.cols);
    HeaderRoundTrip(|c.cols|, |c.rows|);
    SectionsOfText(NatToDecimal(|c.cols|) + " " + NatToDecimal(|c.rows|), ListText(c.rows), ListText(c.cols), |c.cols|, |c.rows|);
  }

  /** `parseConstraints` reads back what `serializeConstraints` wrote. */
  lemma ConstraintsRoundTrip(c: Constraints)
    requires Writable(c)
    ensures ConstraintsOf(SerializeConstraints(c)) == Just(c)
  {
    SectionsRoundTrip(c);
    ConstraintListRoundTrip(c.rows);
    ConstraintListRoundTrip(c.cols);
  }

  /** The clues `parseConstraints` returns hold entries from 1 to `INT_MAX`, as many as the header says. */
  lemma ConstraintsValid(src: string)
    ensures ConstraintsOf(src).Just? ==> ValidClues(ConstraintsOf(src).value.rows) && ValidClues(ConstraintsOf(src).value.cols)
    ensures ConstraintsOf(src).Just? ==> |ConstraintsOf(src).value.rows| == ToSize(SectionsOf(src).value.rows)
    ensures ConstraintsOf(src).Just? ==> |ConstraintsOf(src).value.cols| == ToSize(SectionsOf(src).value.cols)
  {
    if SectionsOf(src).Just? {
      ConstraintListValid(SectionsOf(src).value.rowLine);
      ConstraintListValid(SectionsOf(src).value.colLine);
    }
  }
}
