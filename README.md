# Nonogram line enumeration and text codec, in Dafny

This project models the sequential core of a nonogram library. A nonogram is a
picture-logic puzzle: each row and column of a black/white grid carries a clue, the
lengths of its black blocks from left to right. The model covers four parts.

- **The line-configuration enumerator** (`Classifier.cpp`), in `classifier.dfy`.
  - `lineConfigs` generates candidate lines by "combinations with repetition" over
    `F + n` abstract slots. `F` is the number of white cells and `n` the number of
    blocks. The block-first branch is explored first, and a cap stops the search early
    once a block-first subtree exceeds it.
  - `possibleLineConfigs` keeps the candidates whose run decomposition equals the clue.
  - `configsForAllLines` does this for every clue, in order.
  - `classifier_examples.dfy` proves worked examples about the model.
- **Run-length decomposition** (`constraintsFromTable` in `Nonogram.cpp`), in
  `nonogram.dfy`: the row and column clues of a filled-in grid.
- **The text codec** (`Parser.cpp`, `Parser.hpp`), in `parser.dfy`.
  - The parser object holds `cursor` and `tokens`, and has a tokenizer and a
    recursive-descent parser for brace-delimited clue lists.
  - A puzzle is written as a "cols rows" header line, then the row list, then the
    column list.
  - A solved image is one line of `.` and `*` per row.
  - The round trips are proved in `parser_proofs.dfy` and `image_proofs.dfy`.
  - The character classes, `to_string` and `getline` line splitting it uses are in
    `text.dfy`.
- **Functional helpers** (`Support.hpp`), in `support.dfy`: `sum`, `_map`, `filter`
  and `join`.

The model keeps the source's form:
- `Cell` is `White | Black | Unknown` with the enumeration's codes 0, 1 and 255. The
  scans test a cell by truthiness, so `Unknown` counts as filled (`Cell.IsSet`).
- `lineConfigs` is a recursive function. The uncapped enumeration described in the
  comment at `Classifier.cpp:18-26` is a second function, `Combinations`, used as its
  reference.
- The scanning loops, the filter, the fan-out, the lexer, the parse methods and
  `serializeImage` are methods with loops, each proved equal to a specification
  function.
- The parser state is a class `Codec.Parser` with the fields `cursor` and `tokens`.
- `Maybe` (`Parser.hpp:28-39`) is the datatype `Codec.Maybe`. `Nothing` is the
  invalid value and `Just(v)` the valid one holding `v`.

Where the code departs from what its own comments lead one to expect, the model
follows the code:
- **Empty clue.** A lone `0` in a number list stands for an empty line
  (`Parser.cpp:87-93`), so `{ 0 }` is expected to admit the all-white line. Yet for the
  empty clue it becomes, `possibleLineConfigs` returns no line at all: the all-white
  candidate scans to `[0]`, which is not `[]` (`Classifier.cpp:113-117`). See
  `Classifier.PossibleLineConfigsEmptyClue`.
- **Negative slot count.** A clue that does not fit has no placement, so one expects
  no line. When `F + n < 0`, though, the recursion reaches a vector of negative size,
  which throws `std::length_error` (`Classifier.cpp:36-37`, `88-90`). This is modelled
  as the outcome `LengthError` (`Classifier.PossibleLineConfigsThrows`). When
  `F + n == 0` the result is empty (`ClassifierExamples.Infeasible`).
- **The clue `[0]`.** Each enumerated line comes from its own choice of slots
  (`Classifier.cpp:18-26`, `82-85`), so no line is expected twice. That holds for
  positive clues (`Classifier.PossibleLineConfigsDistinct`). The clue `[0]`, however,
  is enumerated as one block of length zero, and the all-white line comes out once per
  slot (`ClassifierExamples.ZeroClueRepeats`).
- **The cap can leave no line.** The cap (`Classifier.cpp:51-53`) only cuts the
  enumeration short. But it cuts before filtering, so a satisfiable clue can end up
  with no line: with a cap of 0, two blocks of one in three cells give nothing,
  although black, white, black fits (`ClassifierExamples.CappedEmpty`).

## Model

| member | source | states |
|---|---|---|
| `Support.Sum` | Support.hpp:25-29 | defines `sum` as a left fold from 0; `SumConcat` states what it adds up |
| `Support.SumConcat` | Support.hpp:25-29 | the left fold `sum` splits over concatenation, so `sum` of the empty list is 0 and it adds every entry once |
| `Support.Map` | Support.hpp:31-37 | `_map` returns a list as long as its input whose `i`-th entry is `f` of the `i`-th input |
| `Support.Filter` | Support.hpp:39-51 | the push-back loop of `filter` returns exactly the order-preserving selection `Filtered` |
| `Support.FilteredMembers` | Support.hpp:39-51 | an element is in the filtered list iff it is in the input and satisfies the predicate |
| `Support.FilteredIsSubsequence` | Support.hpp:39-51 | the filtered list is a subsequence of the input: kept elements stay in their order |
| `Support.FilteredDistinct` | Support.hpp:39-51 | filtering a list without duplicates gives a list without duplicates |
| `Support.Join` | Support.hpp:53-66 | `join` returns "" for no pieces, the piece for one, otherwise the pieces with the delimiter between neighbours |
| `Support.JoinedLength` | Support.hpp:59-63 | for one or more pieces, the joined length is the pieces' total length plus (n-1) delimiters |
| `Support.JoinedConcat` | Support.hpp:53-66 | joining two non-empty lists puts exactly one delimiter between their joins |
| `Nonogram.ConstraintGen` | Nonogram.cpp:64-85 | the nested scanning loops return exactly `Runs(s)`, the lengths of the maximal runs of non-white cells, left to right |
| `Nonogram.RunsPositive` | Nonogram.cpp:69-77 | every recorded run is at least 1 |
| `Nonogram.RunsEmpty` | Nonogram.cpp:69-77 | the decomposition is `[]` (never `[0]`) iff no cell is set, the empty line included |
| `Nonogram.RunsSum` | Nonogram.cpp:68-82 | the runs add up to the number of set cells |
| `Nonogram.RunsBound` | Nonogram.cpp:68-82 | the runs' sum plus (count - 1) separators never exceeds the line length |
| `Nonogram.RunsSplit` | Nonogram.cpp:79-81 | a white cell separates the runs on its two sides: `Runs(a + [White] + b) == Runs(a) + Runs(b)` |
| `Nonogram.RunsOfBlock` | Nonogram.cpp:70-76 | a line starting with a set cell decomposes into its leading run followed by the runs of the rest |
| `Nonogram.Column` | Nonogram.cpp:94-96 | defines the `i`-th column: one cell per row, the `i`-th cell of that row; `ConstraintsFromTable` states the column clues through it |
| `Nonogram.ConstraintsFromTable` | Nonogram.cpp:63-102 | one row clue per row and `t[0].size()` column clues (0 for an empty grid), each the decomposition of its row or column, provided every row is at least as wide as the first |
| `Classifier.LineConfigs` | Classifier.cpp:32-63 | the capped generator returns at most `Binom(total, selected)` lines, and at least one when `selected <= total` |
| `Classifier.LineConfigsBase` | Classifier.cpp:36-42 | with no block left the only line is `total` white cells; with no slot left and a block to place there is none |
| `Classifier.LineConfigsOrder` | Classifier.cpp:44-61 | the lines of the block-first branch come first and start with the next block's black cells; the rest start with one white cell |
| `Classifier.CombinationsCount` | Classifier.cpp:18-26 | the uncapped enumeration has exactly `Binom(total, selected)` lines |
| `Classifier.CombinationsLength` | Classifier.cpp:34-62 | every enumerated line has `total - selected + sum(blocks[index..])` cells |
| `Classifier.CombinationsBlackAndWhite` | Classifier.cpp:44-59 | the generator writes only white and black cells, never `Unknown` |
| `Classifier.CombinationsDistinct` | Classifier.cpp:44-61 | with positive blocks, no two choice paths give the same line |
| `Classifier.CombinationsComplete` | Classifier.cpp:18-26 | every black-and-white line is enumerated, uncapped, for its own decomposition and slot count |
| `Classifier.LineConfigsPrefix` | Classifier.cpp:51-53 | the capped result is a prefix of the uncapped one; if strictly shorter, it holds more than `maxConfigs` lines |
| `Classifier.LineConfigsUncapped` | Classifier.cpp:51-55 | when the cap is at least the binomial count, the capped result is the full enumeration of `Binom(total, selected)` lines |
| `Classifier.LineConfigsShape` | Classifier.cpp:34-62 | every capped line has the expected length and only black and white cells |
| `Classifier.FitsLine` | Classifier.cpp:92-118 | the filter predicate holds iff the line's runs equal the clue, with no run standing for the clue `[0]` |
| `Classifier.PossibleLineConfigs` | Classifier.cpp:67-119 | when it returns, the slot count `F + n` is non-negative and at most `Binom(F + n, n)` lines come back, the count the comment at lines 82-85 names |
| `Classifier.ComputePossibleLineConfigs` | Classifier.cpp:69-119 | generating with `F + n` slots and filtering with the scanning predicate gives exactly `PossibleLineConfigs` |
| `Classifier.PossibleLineConfigsThrows` | Classifier.cpp:88-90 | the enumeration throws exactly when the slot count `F + n` is negative |
| `Classifier.PossibleLineConfigsOrdered` | Classifier.cpp:90-92 | the returned lines are a subsequence of the generated ones (generation order kept), at most `Binom(F + n, n)` of them |
| `Classifier.PossibleLineConfigsSound` | Classifier.cpp:88-118 | every returned line has `lineLength` cells, only black and white, and runs equal to the clue (none for `[0]`) |
| `Classifier.PossibleLineConfigsEmptyClue` | Classifier.cpp:113-117 | an empty clue yields no line (or the length error for a negative line length) |
| `Classifier.PossibleLineConfigsDistinct` | Classifier.cpp:92-118 | with positive blocks, no line is returned twice |
| `Classifier.OwnClueFits` | Classifier.cpp:96-117 | a line with a set cell passes the filter for the clue `constraintGen` derives from it |
| `Classifier.PossibleLineConfigsComplete` | Classifier.cpp:82-118 | a black-and-white line with a black cell is returned for its own clue whenever the cap is at least the binomial count |
| `Classifier.ConfigsForAllLines` | Classifier.cpp:121-145 | one result per clue, entry `i` being `possibleLineConfigs` of clue `i`; the length error iff some line's enumeration throws |
| `ClassifierExamples.ThreeInFive` | Classifier.cpp:34-118 | a block of 3 in 5 cells gives the three placements, leftmost first |
| `ClassifierExamples.TwoTwoInFive` | Classifier.cpp:92-118 | blocks 2,2 in 5 cells give only the packed line; the two merged candidates are filtered out |
| `ClassifierExamples.Infeasible` | Classifier.cpp:36-42 | a block of 4 in 3 cells gives nothing; a block of 5 throws |
| `ClassifierExamples.ThreeInFiveCapped` | Classifier.cpp:51-53 | with cap 0 the first block-first subtree is returned alone; here that is one of the three placements |
| `ClassifierExamples.CappedEmpty` | Classifier.cpp:51-53 | with cap 0, two blocks of one in three cells give no line, although black, white, black fits the clue |
| `ClassifierExamples.ZeroClueRepeats` | Classifier.cpp:44-61 | the clue `[0]` returns the all-white line once per slot |
| `Text.DecimalRoundTrip` | Parser.cpp:231-235 | the decimal spelling `to_string` writes reads back as the number |
| `Text.LinesCons` | Parser.cpp:185 | a newline-terminated line followed by more text is the first line `getline` delivers |
| `Codec.Stoi` | Parser.cpp:72-77 | `stoi` succeeds only with a value inside `int` and an end index within the text |
| `Codec.GetLine` | Parser.cpp:142-143 | `getline` fails only at end of text; otherwise it returns a line without newline and advances |
| `Codec.Parser.Eof` | Parser.hpp:51 | defines `eof`: the cursor is at or past the end of the token list; `At` is stated through it |
| `Codec.Parser.At` | Parser.hpp:52 | defines `at(t)`: not at the end of the tokens, and the current token is `t` |
| `Codec.Parser.Lex` | Parser.cpp:11-44 | `lex` resets the cursor to 0 and sets the tokens and success of the tokenizer function |
| `Codec.Tokenize` | Parser.cpp:15-43 | the iterator loop of `lex` computes exactly `LexText` |
| `Codec.LexRound` | Parser.cpp:16-40 | one round skips whitespace and reads one brace or one maximal digit run, or fails |
| `Codec.ScanWhile` | Parser.cpp:17-19 | the skipping loops stop at the first character outside the class |
| `Codec.Parser.Accept` | Parser.cpp:46-53 | `accept(t)` returns whether the current token is `t`, and moves the cursor by one exactly then |
| `Codec.Parser.AcceptNumber` | Parser.cpp:55-61 | `acceptNumber` returns the current token and moves by one iff it starts with a digit; otherwise the cursor stays |
| `Codec.Parser.ConvertNumber` | Parser.cpp:71-80 | one list entry: a number token converted by `stoi`, or failure |
| `Codec.Parser.ParseNumList` | Parser.cpp:63-101 | the parse loop returns the result and cursor of the grammar function `NumListAt` |
| `Codec.Parser.ParseConstraintList` | Parser.cpp:103-134 | lexes the line and returns the result and cursor of `ConstraintListOf` |
| `Codec.Parser.ParseConstraints` | Parser.cpp:136-178 | returns `ConstraintsOf(src)` and leaves the state of the last list line parsed |
| `Codec.Parser.ParseImage` | Parser.cpp:180-214 | the line-by-line loop returns exactly `ImageOf(s)` |
| `Codec.Parser.SameWidth` | Parser.cpp:206-213 | holds iff every row is as wide as the first |
| `Codec.Parser.MapRow` | Parser.cpp:187-193 | a line maps `.` to white and `*` to black, and fails at any other character |
| `Codec.Parser.SerializeImage` | Parser.cpp:216-228 | the nested loops write exactly `ImageText(t)`: every row as `*`/`.` followed by a newline |
| `CodecProofs.LexTextOk` | Parser.cpp:11-44 | `lex` succeeds iff every character is whitespace, a brace or a digit and the text does not end in whitespace |
| `CodecProofs.LexTextTokens` | Parser.cpp:15-43 | the tokens are single braces or digit runs, and together the non-space characters in order; token `k` is the text at a position `p[k]`, only whitespace lies between consecutive tokens and none after the last, and a digit token is followed by the end or a non-digit (a maximal run) |
| `CodecProofs.StoiOfDecimal` | Parser.cpp:72-77 | `stoi` reads back an `int`-sized decimal spelling followed by a non-digit |
| `CodecProofs.StoiOutOfRange` | Parser.cpp:72-77 | a number beyond `INT_MAX` does not convert |
| `CodecProofs.EmptyClueSpellings` | Parser.cpp:87-93 | `{ 0 }` and `{ }` both parse to the empty clue |
| `CodecProofs.DropZeroRejects` | Parser.cpp:87-98 | the zero convention rejects a list iff it has two or more entries and one is 0 |
| `CodecProofs.ZeroAmongOthers` | Parser.cpp:63-100 | any written list of entries from 0 to `INT_MAX` parses to itself with the zero convention applied (`{ 0 }` to the empty clue), and is rejected iff it has two or more entries and one is 0 |
| `CodecProofs.NumListMalformed` | Parser.cpp:63-85 | a list is rejected when no `}` follows its `{`, or when a token that is neither `}` nor a number comes after number tokens only |
| `CodecProofs.NumListOverflow` | Parser.cpp:71-77 | the decimal spelling of any number beyond `INT_MAX`, as a list entry, makes the list fail |
| `CodecProofs.ConstraintListValid` | Parser.cpp:103-134 | every clue of a parsed list has entries from 1 to `INT_MAX`, and the whole token stream was consumed |
| `CodecProofs.ConstraintListRoundTrip` | Parser.cpp:103-134 | a written constraint list parses back to its clues |
| `CodecProofs.HeaderRoundTrip` | Parser.cpp:146-153 | the header "cols rows" reads back as both counts |
| `Codec.SerializeConstraints` | Parser.cpp:230-254 | defines the writer: the header "cols rows", then the row list and the column list, one per line; `ConstraintsRoundTrip` states that it parses back |
| `CodecProofs.ConstraintsRoundTrip` | Parser.cpp:230-254 | `parseConstraints(serializeConstraints(c)) == c` for clues with entries from 1 to `INT_MAX` |
| `CodecProofs.ConstraintsValid` | Parser.cpp:167-174 | a parsed puzzle has as many row and column clues as the header says, all with positive entries |
| `ImageProofs.RowRoundTrip` | Parser.cpp:187-193 | a written row without unknown cells reads back as itself |
| `ImageProofs.ImageRoundTrip` | Parser.cpp:180-228 | `parseImage(serializeImage(t)) == t` for black-and-white grids that are rectangular or have fewer than two rows |
| `ImageProofs.ImageOfSound` | Parser.cpp:180-214 | an accepted image has no unknown cell, is rectangular when it has two or more rows, and writes back to its lines |

## Left out

- The Gecode solver (`buildRegexForLine`, the constructor's `extensional` and `branch`,
  the search in `solve`, the cloning constructor, `getState`): foreign library code.
- The mutex-protected `steps` map of the solver: bookkeeping for its worker threads.
- `std::async` and futures in `configsForAllLines`. The function is a sequential loop
  that launches every line in order, then joins every line in order. Threads are not
  modelled. An exception is modelled only as the length error: the first throwing line
  aborts the join and the call returns `LengthError`.
- `NonogramView.hpp` (the user interface) and the declarations in `Classifier.hpp` and
  `Nonogram.hpp` beyond `Cell`, `Constraints` and `Table`.
- Integer widths in the enumerator: `sum<int>` and the `int` slot counts are unbounded
  integers here, so overflow of `lineLength - sum(blocks)` for huge clues is not
  modelled.
- `Classifier.LineConfigs`: requires `blockSizeIndex + selected == |blockSizes|` and
  non-negative block sizes. The index condition holds at the only call site
  (`Classifier.cpp:90`). Block sizes are non-negative for every clue the parser
  produces (`CodecProofs.ConstraintListValid`); a clue built some other way is not
  checked by the source. Outside these conditions the source reads out of bounds or
  builds a vector of negative size.
- `Classifier.PossibleLineConfigs`: requires a cap `>= 0`. With a negative cap the
  `size_t` comparison makes the cap never fire; this case is not modelled.
- `Nonogram.ConstraintsFromTable`: requires every row to be at least as wide as the
  first. A shorter row makes the source read out of bounds.
- `Codec.Parser.SerializeImage`: the source's `assert(cell != CELL_UNKNOWN)` is a
  precondition (`NoUnknown`).
- Lexer end of input: whitespace right before the end of the text makes `lex`
  dereference the end iterator. It is modelled as failure; the character read there
  is the terminating NUL, which is neither a brace nor a digit.
- `stoi`: leading whitespace, an optional sign and a maximal digit run are modelled,
  with `isspace` in the "C" locale. Other locales, bases and `long` range checks are
  not. The `size_t` conversion of the header counts wraps negative values
  (`Codec.ToSize`).
- `getline`: a stream read error other than end of text cannot happen on a string
  stream, and is not modelled.
