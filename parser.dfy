/**
 * Parsing and serializing puzzles (a "cols rows" header line, then the row clues and
 * the column clues as brace-delimited lists) and solved images (one line of `.`/`*`
 * per row).
 */
module Codec {
  import opened Support
  import opened Nonogram
  import opened Text

  /** The parser's option type: `Nothing` is the invalid value, `Just(v)` the valid one. */
  datatype Maybe<T> = Nothing | Just(value: T)

  const INT_MIN: int := -2147483648
  const INT_MAX: int := 2147483647
  /** One more than the largest `size_t`. */
  const SIZE_MODULUS: int := 0x1_0000_0000_0000_0000

  /** The conversion of an `int` to `size_t`: negative values wrap around. */
  function ToSize(v: int): (s: nat)
    ensures s < SIZE_MODULUS
    ensures 0 <= v < SIZE_MODULUS ==> s == v
  {
    v % SIZE_MODULUS
  }

  /**
   * `std::stoi(s, &pos, 10)`: skip leading whitespace, read an optional sign and a
   * maximal run of digits; no digit, or a value outside `int`, is an error. On success
   * the value and the index after the digits.
   */
  function Stoi(s: string): (r: Maybe<(int, nat)>)
    ensures r.Just? ==> INT_MIN <= r.value.0 <= INT_MAX && r.value.1 <= |s|
  {
    StoiFrom(s, 0)
  }

  /** `stoi` once the characters before `i` were skipped as whitespace. */
  function StoiFrom(s: string, i: nat): (r: Maybe<(int, nat)>)
    requires i <= |s|
    ensures r.Just? ==> INT_MIN <= r.value.0 <= INT_MAX && i < r.value.1 <= |s|
    decreases |s| - i
  {
    if i < |s| && IsSpace(s[i]) then StoiFrom(s, i + 1)
    else if i < |s| && (s[i] == '-' || s[i] == '+') then StoiDigits(s, i + 1, i + 1, 0, s[i] == '-')
    else StoiDigits(s, i, i, 0, false)
  }

  /**
   * The digit run of `stoi` that started at `start`, with the digits before `k` already
   * accumulated into `magnitude`.
   */
  function StoiDigits(s: string, start: nat, k: nat, magnitude: nat, negative: bool): (r: Maybe<(int, nat)>)
    requires start <= k <= |s|
    ensures r.Just? ==> INT_MIN <= r.value.0 <= INT_MAX && start < r.value.1 <= |s|
    decreases |s| - k
  {
    if k < |s| && IsDigit(s[k]) then StoiDigits(s, start, k + 1, 10 * magnitude + DigitValue(s[k]), negative)
    else if k == start then Nothing
    else
      var v: int := if negative then -(magnitude as int) else magnitude;
      if v < INT_MIN || v > INT_MAX then Nothing else Just((v, k))
  }

  /**
   * One call of `std::getline` on a string stream positioned at `i`: nothing when no
   * character is left, otherwise the text up to the next newline and the position
   * after that newline.
   */
  function GetLine(s: string, i: nat): (r: Maybe<(string, nat)>)
    requires i <= |s|
    ensures r.Nothing? <==> i == |s|
    ensures r.Just? ==> i < r.value.1 <= |s| && NoNewline(r.value.0)
  {
    if i == |s| then Nothing
    else
      var j := LineEnd(s, i);
      assert NoNewline(s[i..j]) by {
        SkipWhileSkipped(s, i, NotNewline);
        forall k | 0 <= k < j - i ensures s[i..j][k] != '\n' {
          assert s[i..j][k] == s[i + k];
        }
      }
      Just((s[i..j], NextLine(s, i)))
  }

  // ----- Tokens -----

  predicate IsBrace(c: char)
  {
    c == '{' || c == '}'
  }

  /** What `acceptNumber` accepts: a token whose first character is a digit. */
  predicate IsNumberToken(t: string)
  {
    |t| > 0 && IsDigit(t[0])
  }

  /** The tokens `lex` produces: a single brace, or a non-empty run of digits. */
  predicate WellFormedToken(t: string)
  {
    (|t| == 1 && IsBrace(t[0])) || (|t| > 0 && AllDigits(t))
  }

  /** The outcome of `lex`: whether it succeeded, and the tokens pushed until it stopped. */
  datatype Lexed = Lexed(ok: bool, tokens: seq<string>)

  function Push(t: string, rest: Lexed): Lexed
  {
    Lexed(rest.ok, [t] + rest.tokens)
  }

  /**
   * The tokenizer from position `i` on: skip whitespace, then take a brace or a maximal
   * digit run. Whitespace that runs to the end of the text makes the lexer read the
   * terminating NUL character, which is neither, and fail; so does any other character.
   */
  function LexFrom(s: string, i: nat): Lexed
    requires i <= |s|
    decreases |s| - i
  {
    if i == |s| then Lexed(true, [])
    else
      var j := SkipSpaces(s, i);
      if j == |s| then Lexed(false, [])
      else if IsBrace(s[j]) then Push(s[j..j + 1], LexFrom(s, j + 1))
      else if IsDigit(s[j]) then
        var k := DigitEnd(s, j);
        Push(s[j..k], LexFrom(s, k))
      else Lexed(false, [])
  }

  /** The outcome of a lexer that has already pushed `done` and goes on as `rest`. */
  function Resume(done: seq<string>, rest: Lexed): Lexed
  {
    Lexed(rest.ok, done + rest.tokens)
  }

  /**
   * One round of the loop of `lex` from position `it`: skip whitespace, then read a
   * brace or a maximal digit run and report where the next round starts; nothing when
   * the text ends in whitespace or a stray character follows.
   */
  method LexRound(src: string, it: nat) returns (token: Maybe<string>, next: nat)
    requires it < |src|
    ensures token.Nothing? ==> LexFrom(src, it) == Lexed(false, [])
    ensures token.Just? ==> it < next <= |src| && LexFrom(src, it) == Push(token.value, LexFrom(src, next))
  {
    var j := ScanWhile(src, it, IsSpace);
    if j == |src| {
      return Nothing, j;
    }
    if IsBrace(src[j]) {
      return Just(src[j..j + 1]), j + 1;
    } else if IsDigit(src[j]) {
      next := ScanWhile(src, j + 1, IsDigit);
      assert DigitEnd(src, j) == next;
      return Just(src[j..next]), next;
    }
    return Nothing, j;
  }

  /** A pushed token moves from the rest of the outcome to the tokens already pushed. */
  lemma ResumePush(done: seq<string>, t: string, rest: Lexed)
    ensures Resume(done, Push(t, rest)) == Resume(done + [t], rest)
  {
    assert done + ([t] + rest.tokens) == (done + [t]) + rest.tokens;
  }

  /** The lexer's inner scans: advance while the character satisfies `p`. */
  method ScanWhile(s: string, i: nat, p: char -> bool) returns (j: nat)
    requires i <= |s|
    ensures j == SkipWhile(s, i, p)
  {
    j := i;
    while j != |s| && p(s[j])
      invariant i <= j <= |s|
      invariant SkipWhile(s, i, p) == SkipWhile(s, j, p)
    {
      j := j + 1;
    }
  }

  /**
   * The loop of `lex`: skip whitespace, then push a brace or a digit run; stop with
   * failure at a stray character or at whitespace that runs to the end of the text.
   * The tokens pushed before a failure are kept.
   */
  method Tokenize(src: string) returns (ok: bool, pushed: seq<string>)
    ensures Lexed(ok, pushed) == LexText(src)
  {
    pushed := [];
    var it := 0;
    ghost var goal := LexText(src);
    while it != |src|
      invariant it <= |src|
      invariant Resume(pushed, LexFrom(src, it)) == goal
      decreases |src| - it
    {
      var token, next := LexRound(src, it);
      if token.Nothing? {
        return false, pushed;
      }
      ResumePush(pushed, token.value, LexFrom(src, next));
      pushed := pushed + [token.value];
      it := next;
    }
    assert pushed + [] == pushed;
    return true, pushed;
  }

  /** `lex` on a whole line. */
  function LexText(s: string): Lexed
  {
    LexFrom(s, 0)
  }

  // ----- The grammar, on a token sequence and a cursor -----

  /** What a parse produced, and where it left the cursor. */
  datatype Parsed<T> = Parsed(ast: Maybe<T>, cursor: nat)

  /**
   * The zero convention of number lists: the single entry 0 means an empty clue,
   * and 0 is not allowed anywhere else.
   */
  function DropZero(numList: seq<int>): Maybe<seq<int>>
  {
    if |numList| == 1 && numList[0] == 0 then Just([])
    else if 0 in numList then Nothing
    else Just(numList)
  }

  /** The body of a number list, after its `{`, with the numbers `numList` read so far. */
  function NumItems(toks: seq<string>, c: nat, numList: seq<int>): (r: Parsed<seq<int>>)
    ensures c <= r.cursor
    ensures c <= |toks| ==> r.cursor <= |toks|
    ensures r.ast.Just? ==> c < r.cursor
    decreases |toks| - c
  {
    if c >= |toks| then Parsed(Nothing, c)
    else if toks[c] == "}" then Parsed(DropZero(numList), c + 1)
    else if !IsNumberToken(toks[c]) then Parsed(Nothing, c)
    else
      var n := Stoi(toks[c]);
      if n.Nothing? then Parsed(Nothing, c + 1)
      else NumItems(toks, c + 1, numList + [n.value.0])
  }

  /** A number list `{ n1 n2 ... }` at cursor `c`. */
  function NumListAt(toks: seq<string>, c: nat): (r: Parsed<seq<int>>)
    ensures c <= r.cursor
    ensures c <= |toks| ==> r.cursor <= |toks|
    ensures r.ast.Just? ==> c + 1 < r.cursor
  {
    if c < |toks| && toks[c] == "{" then NumItems(toks, c + 1, []) else Parsed(Nothing, c)
  }

  /**
   * The body of a constraint list, with the clues `clues` read so far: number lists
   * up to the closing `}`, which must be the last token.
   */
  function ClueItems(toks: seq<string>, c: nat, clues: seq<Clue>): (r: Parsed<seq<Clue>>)
    ensures c <= |toks| ==> r.cursor <= |toks|
    decreases |toks| - c
  {
    if c >= |toks| then Parsed(Nothing, c)
    else if toks[c] == "}" then
      if c + 1 < |toks| then Parsed(Nothing, c + 1) else Parsed(Just(clues), c + 1)
    else
      var p := NumListAt(toks, c);
      if p.ast.Nothing? then Parsed(Nothing, p.cursor)
      else ClueItems(toks, p.cursor, clues + [p.ast.value])
  }

  /** `parseConstraintList` on one line of text: lex it, then `{ list list ... }`. */
  function ConstraintListOf(src: string): Parsed<seq<Clue>>
  {
    var lx := LexText(src);
    if !lx.ok then Parsed(Nothing, 0)
    else if !(0 < |lx.tokens| && lx.tokens[0] == "{") then Parsed(Nothing, 0)
    else ClueItems(lx.tokens, 1, [])
  }

  /**
   * The front of a puzzle: the column and row counts read off the header line, the text
   * of the row list's line, and where the next line starts; nothing when a line is
   * missing or a count does not convert.
   */
  datatype Front = Front(cols: int, rows: int, rowLine: string, next: nat)

  function FrontOf(src: string): (r: Maybe<Front>)
    ensures r.Just? ==> r.value.next <= |src|
  {
    var header := GetLine(src, 0);
    if header.Nothing? then Nothing
    else
      var cols := Stoi(header.value.0);
      if cols.Nothing? then Nothing
      else
        var rows := Stoi(header.value.0[cols.value.1..]);
        if rows.Nothing? then Nothing
        else
          var rowLine := GetLine(src, header.value.1);
          if rowLine.Nothing? then Nothing
          else Just(Front(cols.value.0, rows.value.0, rowLine.value.0, rowLine.value.1))
  }

  /** The three lines of a puzzle: the front, then the text of the column list's line. */
  datatype Sections = Sections(cols: int, rows: int, rowLine: string, colLine: string)

  function SectionsOf(src: string): Maybe<Sections>
  {
    var front := FrontOf(src);
    if front.Nothing? then Nothing
    else
      var colLine := GetLine(src, front.value.next);
      if colLine.Nothing? then Nothing
      else Just(Sections(front.value.cols, front.value.rows, front.value.rowLine, colLine.value.0))
  }

  /** `parseConstraints`: both lists parse and their lengths match the header. */
  function ConstraintsOf(src: string): Maybe<Constraints>
  {
    var sections := SectionsOf(src);
    if sections.Nothing? then Nothing
    else
      var rowClues := ConstraintListOf(sections.value.rowLine).ast;
      var colClues := ConstraintListOf(sections.value.colLine).ast;
      if rowClues.Nothing? || colClues.Nothing? then Nothing
      else if |rowClues.value| != ToSize(sections.value.rows) || |colClues.value| != ToSize(sections.value.cols) then Nothing
      else Just(Constraints(rowClues.value, colClues.value))
  }

  // ----- Images -----

  predicate IsImageChar(ch: char)
  {
    ch == '.' || ch == '*'
  }

  function CellOf(ch: char): Cell
  {
    if ch == '*' then Black else White
  }

  /** One image line: `.` is white, `*` is black, anything else is an error. */
  function RowOf(line: string): Maybe<Line>
  {
    if forall i | 0 <= i < |line| :: IsImageChar(line[i])
    then Just(seq(|line|, i requires 0 <= i < |line| => CellOf(line[i])))
    else Nothing
  }

  /** The rows of the given lines, in order, unless one of them is invalid. */
  function RowsOf(lines: seq<string>): Maybe<seq<Line>>
  {
    if lines == [] then Just([]) else RowsOfCons(RowOf(lines[0]), RowsOf(lines[1..]))
  }

  /** A first row in front of the rows after it, unless either is invalid. */
  function RowsOfCons(row: Maybe<Line>, rest: Maybe<seq<Line>>): Maybe<seq<Line>>
  {
    if row.Nothing? || rest.Nothing? then Nothing else Just([row.value] + rest.value)
  }

  /** Every row as long as the first. */
  predicate Rectangular(t: Table)
  {
    forall k | 0 <= k < |t| :: |t[k]| == |t[0]|
  }

  /** `parseImage`: the rows of all lines, accepted when fewer than two or all of one length. */
  function ImageOf(s: string): Maybe<Table>
  {
    var rows := RowsOf(Lines(s));
    if rows.Nothing? then Nothing
    else if |rows.value| < 2 || Rectangular(rows.value) then rows
    else Nothing
  }

  function CellChar(c: Cell): char
  {
    if c == Black then '*' else '.'
  }

  function RowText(row: Line): string
  {
    seq(|row|, i requires 0 <= i < |row| => CellChar(row[i]))
  }

  /** The text `serializeImage` writes: every row followed by a newline. */
  function ImageText(t: Table): string
  {
    if t == [] then "" else RowText(t[0]) + "\n" + ImageText(t[1..])
  }

  predicate NoUnknown(t: Table)
  {
    forall r, k | 0 <= r < |t| && 0 <= k < |t[r]| :: t[r][k] != Unknown
  }

  lemma {:induction false} ImageTextSnoc(t: Table, row: Line)
    ensures ImageText(t + [row]) == ImageText(t) + RowText(row) + "\n"
  {
    if t != [] {
      assert (t + [row])[1..] == t[1..] + [row];
      ImageTextSnoc(t[1..], row);
    } else {
      assert [row][1..] == [];
    }
  }

  // ----- Serializing constraints -----

  /** The number spellings of one clue, `0` standing for the empty clue. */
  function ClueStrings(v: Clue): seq<string>
  {
    if v == [] then ["0"] else Mapped(v, IntToString)
  }

  /** One clue as written by `serializeConstraints`: `{ n1 n2 ... }`. */
  function ClueText(v: Clue): string
  {
    "{ " + Joined(ClueStrings(v), " ") + " }"
  }

  /** A list of clues: `{ clue clue ... }`. */
  function ListText(clues: seq<Clue>): string
  {
    "{ " + Joined(Mapped(clues, ClueText), " ") + " }"
  }

  /** `serializeConstraints`: the header "cols rows", then the row list, then the column list. */
  function SerializeConstraints(c: Constraints): string
  {
    NatToDecimal(|c.cols|) + " " + NatToDecimal(|c.rows|) + "\n"
    + ListText(c.rows) + "\n"
    + ListText(c.cols) + "\n"
  }

  // ----- The parser object -----

  /** The tokenizer state: the tokens of the current line and the cursor into them. */
  class Parser {
    var cursor: nat
    var tokens: seq<string>

    constructor()
      ensures cursor == 0 && tokens == []
    {
      cursor := 0;
      tokens := [];
    }

    /** `eof`: the cursor is past the last token. */
    function Eof(): bool
      reads this
    {
      !(cursor < |tokens|)
    }

    /** `at`: the current token is `t`; never at end of input. */
    function At(t: string): bool
      reads this
    {
      !Eof() && tokens[cursor] == t
    }

    /** `lex`: reset the cursor and tokenize `src`. */
    method Lex(src: string) returns (ok: bool)
      modifies this
      ensures cursor == 0
      ensures ok == LexText(src).ok && tokens == LexText(src).tokens
    {
      cursor := 0;
      ok, tokens := Tokenize(src);
    }

    /** `accept`: on a match move past the token and succeed; otherwise change nothing. */
    method Accept(t: string) returns (ok: bool)
      modifies this`cursor
      ensures ok == old(At(t))
      ensures cursor == if ok then old(cursor) + 1 else old(cursor)
    {
      if !Eof() && tokens[cursor] == t {
        cursor := cursor + 1;
        return true;
      }
      return false;
    }

    /** `acceptNumber`: the same, for any token that starts with a digit. */
    method AcceptNumber() returns (m: Maybe<string>)
      modifies this`cursor
      ensures m.Just? <==> old(cursor < |tokens| && IsNumberToken(tokens[cursor]))
      ensures m.Just? ==> m.value == tokens[old(cursor)] && cursor == old(cursor) + 1
      ensures m.Nothing? ==> cursor == old(cursor)
    {
      if !Eof() && |tokens[cursor]| > 0 && IsDigit(tokens[cursor][0]) {
        m := Just(tokens[cursor]);
        cursor := cursor + 1;
        return;
      }
      return Nothing;
    }

    /**
     * One entry of a number list: accept a number token and convert it with `stoi`;
     * nothing when the token is not a number or does not convert. The cursor moves
     * exactly when a number token was accepted.
     */
    method ConvertNumber(ghost numList: seq<int>) returns (n: Maybe<int>)
      requires cursor < |tokens| && tokens[cursor] != "}"
      modifies this`cursor
      ensures n.Nothing? ==> NumItems(tokens, old(cursor), numList) == Parsed(Nothing, cursor)
      ensures n.Just? ==> cursor == old(cursor) + 1 && NumItems(tokens, old(cursor), numList) == NumItems(tokens, cursor, numList + [n.value])
    {
      var token := AcceptNumber();
      if token.Nothing? {
        return Nothing;
      }
      var converted := Stoi(token.value);
      if converted.Nothing? {
        return Nothing;
      }
      return Just(converted.value.0);
    }

    /** `parseNumList`: a brace-delimited list of numbers, with the zero convention. */
    method ParseNumList() returns (ast: Maybe<seq<int>>)
      modifies this`cursor
      ensures Parsed(ast, cursor) == NumListAt(tokens, old(cursor))
    {
      ghost var goal := NumListAt(tokens, cursor);
      var ok := Accept("{");
      if !ok {
        return Nothing;
      }
      var numList: seq<int> := [];
      while !Eof() && !At("}")
        invariant NumItems(tokens, cursor, numList) == goal
        decreases |tokens| - cursor
      {
        var n := ConvertNumber(numList);
        if n.Nothing? {
          return Nothing;
        }
        numList := numList + [n.value];
      }
      ok := Accept("}");
      if !ok {
        return Nothing;
      }
      assert goal == Parsed(DropZero(numList), cursor);
      if |numList| == 1 && numList[0] == 0 {
        numList := [];
      } else if 0 in numList {
        return Nothing;
      }
      return Just(numList);
    }

    /** `parseConstraintList`: lex one line, then `{ list list ... }` and end of input. */
    method ParseConstraintList(src: string) returns (ast: Maybe<seq<Clue>>)
      modifies this
      ensures tokens == LexText(src).tokens
      ensures Parsed(ast, cursor) == ConstraintListOf(src)
    {
      var ok := Lex(src);
      if !ok {
        return Nothing;
      }
      ok := Accept("{");
      if !ok {
        return Nothing;
      }
      var result: seq<Clue> := [];
      while !Eof() && !At("}")
        invariant tokens == LexText(src).tokens
        invariant ClueItems(tokens, cursor, result) == ClueItems(tokens, 1, [])
        decreases |tokens| - cursor
      {
        var constraint := ParseNumList();
        if constraint.Nothing? {
          return Nothing;
        }
        result := result + [constraint.value];
      }
      ok := Accept("}");
      if !ok {
        return Nothing;
      }
      if !Eof() {
        return Nothing;
      }
      return Just(result);
    }

    /**
     * `parseConstraints`: the header, then the row list and the column list. Each list
     * is read by `parseConstraintList`, so the parser state is that of the last list
     * line read, and is left alone when the text ends before the row list's line.
     */
    method ParseConstraints(src: string) returns (ast: Maybe<Constraints>)
      modifies this
      ensures ast == ConstraintsOf(src)
      ensures FrontOf(src).Nothing? ==> tokens == old(tokens) && cursor == old(cursor)
      ensures FrontOf(src).Just? && SectionsOf(src).Nothing? ==>
                tokens == LexText(FrontOf(src).value.rowLine).tokens
                && cursor == ConstraintListOf(FrontOf(src).value.rowLine).cursor
      ensures SectionsOf(src).Just? ==>
                tokens == LexText(SectionsOf(src).value.colLine).tokens
                && cursor == ConstraintListOf(SectionsOf(src).value.colLine).cursor
    {
      var header := GetLine(src, 0);
      if header.Nothing? {
        return Nothing;
      }
      var line := header.value.0;
      var cols := Stoi(line);
      if cols.Nothing? {
        return Nothing;
      }
      var rows := Stoi(line[cols.value.1..]);
      if rows.Nothing? {
        return Nothing;
      }
      var rowLine := GetLine(src, header.value.1);
      if rowLine.Nothing? {
        return Nothing;
      }
      ghost var front := Front(cols.value.0, rows.value.0, rowLine.value.0, rowLine.value.1);
      assert FrontOf(src) == Just(front);
      var rowConstraints := ParseConstraintList(rowLine.value.0);
      var colLine := GetLine(src, rowLine.value.1);
      if colLine.Nothing? {
        return Nothing;
      }
      ghost var sections := Sections(front.cols, front.rows, front.rowLine, colLine.value.0);
      assert SectionsOf(src) == Just(sections);
      var colConstraints := ParseConstraintList(colLine.value.0);
      if rowConstraints.Nothing? || colConstraints.Nothing? {
        return Nothing;
      }
      if |rowConstraints.value| != ToSize(rows.value.0) || |colConstraints.value| != ToSize(cols.value.0) {
        return Nothing;
      }
      return Just(Constraints(rowConstraints.value, colConstraints.value));
    }

    /** `parseImage`: read line by line, map every character, then check the widths. */
    method ParseImage(s: string) returns (r: Maybe<Table>)
      ensures r == ImageOf(s)
    {
      var result: Table := [];
      var pos := 0;
      ghost var goal := RowsOf(Lines(s));
      assert Then([], RowsOf(LinesFrom(s, 0))) == goal by {
        ThenNone(RowsOf(Lines(s)));
      }
      while pos < |s|
        invariant pos <= |s|
        invariant Then(result, RowsOf(LinesFrom(s, pos))) == goal
        decreases |s| - pos
      {
        var line := GetLine(s, pos);
        var row := MapRow(line.value.0);
        RowsStep(s, pos, result);
        if row.Nothing? {
          return Nothing;
        }
        result := result + [row.value];
        pos := line.value.1;
      }
      assert goal == Just(result + []);
      assert result + [] == result;
      if |result| < 2 {
        return Just(result);
      }
      var same := SameWidth(result);
      if same {
        return Just(result);
      }
      return Nothing;
    }

    /** The `all_of` test of `parseImage`: every row after the first is as wide as the first. */
    method SameWidth(t: Table) returns (b: bool)
      requires |t| >= 1
      ensures b <==> Rectangular(t)
    {
      var cols := |t[0]|;
      var k := 1;
      while k < |t|
        invariant 1 <= k <= |t|
        invariant forall m | 0 <= m < k :: |t[m]| == cols
      {
        if |t[k]| != cols {
          return false;
        }
        k := k + 1;
      }
      return true;
    }

    /** The row `_map` builds from an image line, or nothing when a character is invalid. */
    method MapRow(text: string) returns (row: Maybe<Line>)
      ensures row == RowOf(text)
    {
      var cells: Line := [];
      var i := 0;
      while i < |text|
        invariant i <= |text|
        invariant |cells| == i
        invariant forall k | 0 <= k < i :: IsImageChar(text[k]) && cells[k] == CellOf(text[k])
      {
        if text[i] == '.' {
          cells := cells + [White];
        } else if text[i] == '*' {
          cells := cells + [Black];
        } else {
          assert !IsImageChar(text[i]);
          return Nothing;
        }
        i := i + 1;
      }
      assert cells == seq(|text|, k requires 0 <= k < |text| => CellOf(text[k]));
      return Just(cells);
    }

    /** `serializeImage`: one line per row, `*` for black and `.` for white. */
    method SerializeImage(t: Table) returns (str: string)
      requires NoUnknown(t)
      ensures str == ImageText(t)
    {
      str := "";
      for r := 0 to |t|
        invariant str == ImageText(t[..r])
      {
        ghost var before := str;
        var row := t[r];
        for k := 0 to |row|
          invariant str == before + RowText(row)[..k]
        {
          assert RowText(row)[..k + 1] == RowText(row)[..k] + [CellChar(row[k])];
          str := str + [if row[k] == Black then '*' else '.'];
        }
        assert RowText(row)[..|row|] == RowText(row);
        assert t[..r + 1] == t[..r] + [row];
        ImageTextSnoc(t[..r], row);
        str := str + "\n";
      }
      assert t[..|t|] == t;
    }
  }

  /** The rows read so far in front of the rows still to come, unless those fail. */
  function Then(done: Table, rest: Maybe<Table>): Maybe<Table>
  {
    if rest.Nothing? then Nothing else Just(done + rest.value)
  }

  lemma ThenNone(rest: Maybe<Table>)
    ensures Then([], rest) == rest
  {
    if rest.Just? {
      assert [] + rest.value == rest.value;
    }
  }

  /** The lines from a position are the line `getline` reads there, then those after it. */
  lemma LinesFromGetLine(s: string, pos: nat)
    requires pos < |s|
    ensures LinesFrom(s, pos) == [GetLine(s, pos).value.0] + LinesFrom(s, GetLine(s, pos).value.1)
  {
  }

  /** One round of `parseImage`: the row of the line read is appended, or the parse fails. */
  lemma RowsStep(s: string, pos: nat, done: Table)
    requires pos < |s|
    ensures RowOf(GetLine(s, pos).value.0).Nothing? ==> Then(done, RowsOf(LinesFrom(s, pos))) == Nothing
    ensures RowOf(GetLine(s, pos).value.0).Just? ==>
              Then(done, RowsOf(LinesFrom(s, pos)))
              == Then(done + [RowOf(GetLine(s, pos).value.0).value], RowsOf(LinesFrom(s, GetLine(s, pos).value.1)))
  {
    var text := GetLine(s, pos).value.0;
    var rest := LinesFrom(s, GetLine(s, pos).value.1);
    LinesFromGetLine(s, pos);
    assert ([text] + rest)[1..] == rest;
    var row := RowOf(text);
    if row.Just? && RowsOf(rest).Just? {
      assert done + ([row.value] + RowsOf(rest).value) == (done + [row.value]) + RowsOf(rest).value;
    }
  }


}
