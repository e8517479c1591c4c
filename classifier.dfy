/**
 * Enumeration of the candidate fillings of one line for a clue, as the difficulty
 * classifier computes them: a capped generator over "combinations with repetition",
 * a filter on the run decomposition, and the per-line fan-out over all clues.
 */
module Classifier {
  import opened Support
  import opened Nonogram

  /** What a call yields: its value, or the `std::length_error` that a vector of negative size throws. */
  datatype Outcome<T> = Returned(value: T) | LengthError

  /** `k` copies of the cell `c`. */
  function Repeat(c: Cell, k: nat): (l: Line)
    ensures |l| == k
  {
    if k == 0 then [] else [c] + Repeat(c, k - 1)
  }

  lemma {:induction false} RepeatAt(c: Cell, k: nat, i: nat)
    requires i < k
    ensures Repeat(c, k)[i] == c
  {
    if i > 0 {
      RepeatAt(c, k - 1, i - 1);
    }
  }

  function Whites(k: nat): Line
  {
    Repeat(White, k)
  }

  function Blacks(k: nat): Line
  {
    Repeat(Black, k)
  }

  predicate NonNegative(blocks: Clue)
  {
    forall i | 0 <= i < |blocks| :: blocks[i] >= 0
  }

  predicate Positive(blocks: seq<int>)
  {
    forall i | 0 <= i < |blocks| :: blocks[i] >= 1
  }

  /** The `_map` that inserts the cells `p` in front of every line. */
  function Prepend(p: Line, ls: seq<Line>): (r: seq<Line>)
    ensures |r| == |ls|
  {
    seq(|ls|, i requires 0 <= i < |ls| => p + ls[i])
  }

  /** The binomial coefficient, by Pascal's rule. */
  function Binom(n: nat, k: nat): nat
  {
    if k == 0 then 1 else if n == 0 then 0 else Binom(n - 1, k - 1) + Binom(n - 1, k)
  }

  /**
   * The uncapped enumeration of the comment above `lineConfigs`: every way of making
   * `selected` of `total` slots block slots, the first choice being "block".
   */
  function Combinations(total: nat, selected: nat, blockSizes: seq<nat>, blockSizeIndex: nat): seq<Line>
    requires blockSizeIndex + selected == |blockSizes|
    decreases total
  {
    if selected == 0 then [Whites(total)]
    else if total == 0 then []
    else
      Prepend(Blacks(blockSizes[blockSizeIndex]), Combinations(total - 1, selected - 1, blockSizes, blockSizeIndex + 1))
      + Prepend([White], Combinations(total - 1, selected, blockSizes, blockSizeIndex))
  }

  /**
   * `lineConfigs`: the same enumeration, except that once the block-first half of a
   * subtree has more than `maxConfigs` lines the other half is not explored.
   */
  function LineConfigs(total: nat, selected: nat, blockSizes: seq<nat>, blockSizeIndex: nat, maxConfigs: nat): (r: seq<Line>)
    requires blockSizeIndex + selected == |blockSizes|
    ensures |r| <= Binom(total, selected)
    ensures selected <= total ==> r != []
    decreases total
  {
    if selected == 0 then [Whites(total)]
    else if total == 0 then []
    else
      var subSelected := Prepend(Blacks(blockSizes[blockSizeIndex]),
                                 LineConfigs(total - 1, selected - 1, blockSizes, blockSizeIndex + 1, maxConfigs));
      if |subSelected| > maxConfigs then subSelected
      else subSelected + Prepend([White], LineConfigs(total - 1, selected, blockSizes, blockSizeIndex, maxConfigs))
  }

  lemma PrependPrefix(p: Line, a: seq<Line>, b: seq<Line>)
    requires a <= b
    ensures Prepend(p, a) <= Prepend(p, b)
  {
    assert Prepend(p, a) == Prepend(p, b)[..|a|];
  }

  lemma PrependMember(p: Line, l: Line, ls: seq<Line>)
    requires l in ls
    ensures p + l in Prepend(p, ls)
  {
    var i :| 0 <= i < |ls| && ls[i] == l;
    assert Prepend(p, ls)[i] == p + l;
  }

  /** The `i`-th line of a recursive step, in terms of the two sub-enumerations. */
  lemma StepAt(b: Line, sel: seq<Line>, uns: seq<Line>, i: nat)
    requires i < |sel| + |uns|
    ensures var r := Prepend(b, sel) + Prepend([White], uns);
            if i < |sel| then r[i] == b + sel[i] else r[i] == [White] + uns[i - |sel|]
  {
  }

  /** The two base cases of the generator. */
  lemma LineConfigsBase(total: nat, selected: nat, blockSizes: seq<nat>, blockSizeIndex: nat, maxConfigs: nat)
    requires blockSizeIndex + selected == |blockSizes|
    ensures selected == 0 ==> LineConfigs(total, selected, blockSizes, blockSizeIndex, maxConfigs) == [Whites(total)]
    ensures total == 0 && selected > 0 ==> LineConfigs(total, selected, blockSizes, blockSizeIndex, maxConfigs) == []
  {
  }

  /**
   * The generator's order: first the lines that start with the next block, then the
   * lines that start with a white cell.
   */
  lemma LineConfigsOrder(total: nat, selected: nat, blockSizes: seq<nat>, blockSizeIndex: nat, maxConfigs: nat)
    requires blockSizeIndex + selected == |blockSizes|
    requires total > 0 && selected > 0
    ensures var r := LineConfigs(total, selected, blockSizes, blockSizeIndex, maxConfigs);
            var k := |LineConfigs(total - 1, selected - 1, blockSizes, blockSizeIndex + 1, maxConfigs)|;
            && k <= |r|
            && (forall i | 0 <= i < k :: Blacks(blockSizes[blockSizeIndex]) <= r[i])
            && (forall i | k <= i < |r| :: [White] <= r[i])
  {
    var r := LineConfigs(total, selected, blockSizes, blockSizeIndex, maxConfigs);
    var b := Blacks(blockSizes[blockSizeIndex]);
    var sel := LineConfigs(total - 1, selected - 1, blockSizes, blockSizeIndex + 1, maxConfigs);
    forall i | 0 <= i < |sel| ensures b <= r[i] {
      assert r[i] == b + sel[i];
    }
  }

  /** Without the cap there are exactly `Binom(total, selected)` lines. */
  lemma {:induction false} CombinationsCount(total: nat, selected: nat, blockSizes: seq<nat>, blockSizeIndex: nat)
    requires blockSizeIndex + selected == |blockSizes|
    ensures |Combinations(total, selected, blockSizes, blockSizeIndex)| == Binom(total, selected)
    decreases total
  {
    if selected > 0 && total > 0 {
      var sel := Combinations(total - 1, selected - 1, blockSizes, blockSizeIndex + 1);
      var uns := Combinations(total - 1, selected, blockSizes, blockSizeIndex);
      CombinationsCount(total - 1, selected - 1, blockSizes, blockSizeIndex + 1);
      CombinationsCount(total - 1, selected, blockSizes, blockSizeIndex);
      assert |Combinations(total, selected, blockSizes, blockSizeIndex)| == |sel| + |uns|;
    }
  }

  /** Every line has one cell per white slot plus the cells of the remaining blocks. */
  lemma {:induction false} CombinationsLength(total: nat, selected: nat, blockSizes: seq<nat>, blockSizeIndex: nat)
    requires blockSizeIndex + selected == |blockSizes|
    ensures forall i | 0 <= i < |Combinations(total, selected, blockSizes, blockSizeIndex)| ::
              |Combinations(total, selected, blockSizes, blockSizeIndex)[i]| == total - selected + Sum(blockSizes[blockSizeIndex..])
    decreases total
  {
    var r := Combinations(total, selected, blockSizes, blockSizeIndex);
    if selected == 0 {
      assert blockSizes[blockSizeIndex..] == [];
    } else if total > 0 {
      var b := blockSizes[blockSizeIndex];
      var sel := Combinations(total - 1, selected - 1, blockSizes, blockSizeIndex + 1);
      var uns := Combinations(total - 1, selected, blockSizes, blockSizeIndex);
      CombinationsLength(total - 1, selected - 1, blockSizes, blockSizeIndex + 1);
      CombinationsLength(total - 1, selected, blockSizes, blockSizeIndex);
      assert blockSizes[blockSizeIndex..] == [b] + blockSizes[blockSizeIndex + 1..];
      SumCons(b, blockSizes[blockSizeIndex + 1..]);
      forall i | 0 <= i < |r| ensures |r[i]| == total - selected + Sum(blockSizes[blockSizeIndex..]) {
        StepAt(Blacks(b), sel, uns, i);
        if i < |sel| {
          assert |sel[i]| == total - selected + Sum(blockSizes[blockSizeIndex + 1..]);
        } else {
          assert |uns[i - |sel|]| == total - 1 - selected + Sum(blockSizes[blockSizeIndex..]);
        }
      }
    }
  }

  /** The generator only ever writes white and black cells. */
  lemma {:induction false} CombinationsBlackAndWhite(total: nat, selected: nat, blockSizes: seq<nat>, blockSizeIndex: nat)
    requires blockSizeIndex + selected == |blockSizes|
    ensures forall i | 0 <= i < |Combinations(total, selected, blockSizes, blockSizeIndex)| :: BlackAndWhite(Combinations(total, selected, blockSizes, blockSizeIndex)[i])
    decreases total
  {
    var r := Combinations(total, selected, blockSizes, blockSizeIndex);
    if selected == 0 {
      forall k | 0 <= k < total ensures Whites(total)[k] == White {
        RepeatAt(White, total, k);
      }
    } else if total > 0 {
      var b := blockSizes[blockSizeIndex];
      var sel := Combinations(total - 1, selected - 1, blockSizes, blockSizeIndex + 1);
      var uns := Combinations(total - 1, selected, blockSizes, blockSizeIndex);
      CombinationsBlackAndWhite(total - 1, selected - 1, blockSizes, blockSizeIndex + 1);
      CombinationsBlackAndWhite(total - 1, selected, blockSizes, blockSizeIndex);
      forall k | 0 <= k < b ensures Blacks(b)[k] == Black {
        RepeatAt(Black, b, k);
      }
      forall i | 0 <= i < |r| ensures BlackAndWhite(r[i]) {
        StepAt(Blacks(b), sel, uns, i);
        if i < |sel| {
          assert BlackAndWhite(sel[i]);
          assert forall k | 0 <= k < |r[i]| :: r[i][k] == (if k < b then Blacks(b)[k] else sel[i][k - b]);
        } else {
          assert BlackAndWhite(uns[i - |sel|]);
          assert forall k | 0 <= k < |r[i]| :: r[i][k] == (if k < 1 then White else uns[i - |sel|][k - 1]);
        }
      }
    }
  }

  lemma PrependDistinct(p: Line, ls: seq<Line>)
    requires Distinct(ls)
    ensures Distinct(Prepend(p, ls))
  {
    var r := Prepend(p, ls);
    forall i, j | 0 <= i < j < |r| ensures r[i] != r[j] {
      assert r[i][|p|..] == ls[i] && r[j][|p|..] == ls[j];
    }
  }

  /** With positive blocks no two choice paths give the same line. */
  lemma {:induction false} CombinationsDistinct(total: nat, selected: nat, blockSizes: seq<nat>, blockSizeIndex: nat)
    requires blockSizeIndex + selected == |blockSizes| && Positive(blockSizes)
    ensures Distinct(Combinations(total, selected, blockSizes, blockSizeIndex))
    decreases total
  {
    if selected > 0 && total > 0 {
      var b := blockSizes[blockSizeIndex];
      var sel := Combinations(total - 1, selected - 1, blockSizes, blockSizeIndex + 1);
      var uns := Combinations(total - 1, selected, blockSizes, blockSizeIndex);
      CombinationsDistinct(total - 1, selected - 1, blockSizes, blockSizeIndex + 1);
      CombinationsDistinct(total - 1, selected, blockSizes, blockSizeIndex);
      PrependDistinct(Blacks(b), sel);
      PrependDistinct([White], uns);
      RepeatAt(Black, b, 0);
      var r := Combinations(total, selected, blockSizes, blockSizeIndex);
      forall i, j | 0 <= i < j < |r| ensures r[i] != r[j] {
        StepAt(Blacks(b), sel, uns, i);
        StepAt(Blacks(b), sel, uns, j);
        if i < |sel| && j >= |sel| {
          assert r[i][0] == Black;
          assert r[j][0] == White;
        } else if i < |sel| {
          assert Prepend(Blacks(b), sel)[i] == r[i] && Prepend(Blacks(b), sel)[j] == r[j];
        } else {
          assert Prepend([White], uns)[i - |sel|] == r[i] && Prepend([White], uns)[j - |sel|] == r[j];
        }
      }
    }
  }

  /** The number of slots the generator is started with: white cells plus blocks. */
  function Slots(lineLength: int, blocks: Clue): int
  {
    lineLength - Sum(blocks) + |blocks|
  }

  /** A line in a white-first subtree, behind a white cell, is in the enclosing tree. */
  lemma CombinationsWhiteStep(l: Line, total: nat, blockSizes: seq<nat>, blockSizeIndex: nat)
    requires blockSizeIndex < |blockSizes| && total >= 1 && l != [] && l[0] == White
    requires l[1..] in Combinations(total - 1, |blockSizes| - blockSizeIndex, blockSizes, blockSizeIndex)
    ensures l in Combinations(total, |blockSizes| - blockSizeIndex, blockSizes, blockSizeIndex)
  {
    PrependMember([White], l[1..], Combinations(total - 1, |blockSizes| - blockSizeIndex, blockSizes, blockSizeIndex));
    assert l == [White] + l[1..];
  }

  /** A line in a block-first subtree, behind its block, is in the enclosing tree. */
  lemma CombinationsBlackStep(l: Line, total: nat, blockSizes: seq<nat>, blockSizeIndex: nat)
    requires blockSizeIndex < |blockSizes| && total >= 1
    requires blockSizes[blockSizeIndex] <= |l| && l[..blockSizes[blockSizeIndex]] == Blacks(blockSizes[blockSizeIndex])
    requires l[blockSizes[blockSizeIndex]..]
             in Combinations(total - 1, |blockSizes| - blockSizeIndex - 1, blockSizes, blockSizeIndex + 1)
    ensures l in Combinations(total, |blockSizes| - blockSizeIndex, blockSizes, blockSizeIndex)
  {
    var k := blockSizes[blockSizeIndex];
    PrependMember(Blacks(k), l[k..],
                  Combinations(total - 1, |blockSizes| - blockSizeIndex - 1, blockSizes, blockSizeIndex + 1));
    assert l == l[..k] + l[k..];
  }

  /** A black-and-white line without a black cell is the all-white line. */
  lemma AllWhite(l: Line)
    requires BlackAndWhite(l) && Runs(l) == []
    ensures l == Whites(|l|)
  {
    RunsEmpty(l);
    forall k | 0 <= k < |l| ensures l[k] == Whites(|l|)[k] {
      RepeatAt(White, |l|, k);
    }
  }

  lemma BlackAndWhiteSuffix(l: Line, k: nat)
    requires BlackAndWhite(l) && k <= |l|
    ensures BlackAndWhite(l[k..])
  {
    forall j | 0 <= j < |l[k..]| ensures l[k..][j] == White || l[k..][j] == Black {
      assert l[k..][j] == l[k + j];
    }
  }

  /** A black-and-white line starting with a block of `k` cells is that block followed by the rest. */
  lemma BlockThenRest(l: Line, k: nat)
    requires BlackAndWhite(l) && k <= |l| && forall j | 0 <= j < k :: l[j].IsSet()
    ensures l == Blacks(k) + l[k..]
    ensures BlackAndWhite(l[k..])
  {
    forall j | 0 <= j < k ensures l[j] == Blacks(k)[j] {
      RepeatAt(Black, k, j);
    }
    BlackAndWhiteSuffix(l, k);
  }

  /** A line's own runs leave a non-negative slot count. */
  lemma SlotsOfRuns(l: Line)
    ensures Slots(|l|, Runs(l)) >= 0
  {
    RunsBound(l);
  }

  /** Behind a leading white cell: same runs, one slot fewer. */
  lemma WhiteCase(l: Line, total: nat, blockSizes: seq<nat>, blockSizeIndex: nat)
    requires blockSizeIndex < |blockSizes| && l != [] && l[0] == White
    requires BlackAndWhite(l) && Runs(l) == blockSizes[blockSizeIndex..]
    requires total == Slots(|l|, blockSizes[blockSizeIndex..])
    ensures BlackAndWhite(l[1..]) && Runs(l[1..]) == blockSizes[blockSizeIndex..]
    ensures total >= 1 && total - 1 == Slots(|l[1..]|, blockSizes[blockSizeIndex..])
  {
    BlackAndWhiteSuffix(l, 1);
    assert l[0..] == l;
    RunsOfWhite(l);
    SlotsOfRuns(l[1..]);
  }

  /** Behind a leading block: the remaining runs, one slot fewer. */
  lemma BlackCase(l: Line, total: nat, blockSizes: seq<nat>, blockSizeIndex: nat)
    requires blockSizeIndex < |blockSizes| && l != [] && l[0] == Black
    requires BlackAndWhite(l) && Runs(l) == blockSizes[blockSizeIndex..]
    requires total == Slots(|l|, blockSizes[blockSizeIndex..])
    ensures blockSizes[blockSizeIndex] <= |l|
    ensures var rest := l[blockSizes[blockSizeIndex]..];
            && BlackAndWhite(rest) && Runs(rest) == blockSizes[blockSizeIndex + 1..]
            && total >= 1 && total - 1 == Slots(|rest|, blockSizes[blockSizeIndex + 1..])
            && l[..blockSizes[blockSizeIndex]] == Blacks(blockSizes[blockSizeIndex])
  {
    var k := LeadingSet(l);
    var rest := l[k..];
    var tail := blockSizes[blockSizeIndex + 1..];
    RunsOfBlock(l);
    BlockThenRest(l, k);
    assert l[..k] == Blacks(k);
    assert blockSizes[blockSizeIndex..] == [k] + tail;
    assert Runs(rest) == tail by {
      assert ([k] + Runs(rest))[1..] == Runs(rest);
      assert ([k] + tail)[1..] == tail;
    }
    SumCons(k, tail);
    SlotsOfRuns(rest);
  }

  /**
   * Every black-and-white line is enumerated (without the cap) for its own run
   * decomposition, with the slot count computed from its length.
   */
  lemma {:induction false} CombinationsComplete(l: Line, total: nat, blockSizes: seq<nat>, blockSizeIndex: nat)
    requires blockSizeIndex <= |blockSizes|
    requires BlackAndWhite(l) && Runs(l) == blockSizes[blockSizeIndex..]
    requires total == Slots(|l|, blockSizes[blockSizeIndex..])
    ensures l in Combinations(total, |blockSizes| - blockSizeIndex, blockSizes, blockSizeIndex)
    decreases |l|
  {
    if blockSizeIndex == |blockSizes| || l == [] {
      AllWhite(l);
    } else if l[0] == White {
      WhiteCase(l, total, blockSizes, blockSizeIndex);
      CombinationsComplete(l[1..], total - 1, blockSizes, blockSizeIndex);
      CombinationsWhiteStep(l, total, blockSizes, blockSizeIndex);
    } else {
      BlackCase(l, total, blockSizes, blockSizeIndex);
      CombinationsComplete(l[blockSizes[blockSizeIndex]..], total - 1, blockSizes, blockSizeIndex + 1);
      CombinationsBlackStep(l, total, blockSizes, blockSizeIndex);
    }
  }

  /**
   * The cap only truncates: the capped enumeration is a prefix of the full one, and
   * when it is strictly shorter it already holds more than `maxConfigs` lines.
   */
  lemma {:induction false} LineConfigsPrefix(total: nat, selected: nat, blockSizes: seq<nat>, blockSizeIndex: nat, maxConfigs: nat)
    requires blockSizeIndex + selected == |blockSizes|
    ensures LineConfigs(total, selected, blockSizes, blockSizeIndex, maxConfigs)
            <= Combinations(total, selected, blockSizes, blockSizeIndex)
    ensures |LineConfigs(total, selected, blockSizes, blockSizeIndex, maxConfigs)|
            < |Combinations(total, selected, blockSizes, blockSizeIndex)|
            ==> |LineConfigs(total, selected, blockSizes, blockSizeIndex, maxConfigs)| > maxConfigs
    decreases total
  {
    if selected > 0 && total > 0 {
      var b := Blacks(blockSizes[blockSizeIndex]);
      var sel := LineConfigs(total - 1, selected - 1, blockSizes, blockSizeIndex + 1, maxConfigs);
      var allSel := Combinations(total - 1, selected - 1, blockSizes, blockSizeIndex + 1);
      var uns := LineConfigs(total - 1, selected, blockSizes, blockSizeIndex, maxConfigs);
      var allUns := Combinations(total - 1, selected, blockSizes, blockSizeIndex);
      LineConfigsPrefix(total - 1, selected - 1, blockSizes, blockSizeIndex + 1, maxConfigs);
      LineConfigsPrefix(total - 1, selected, blockSizes, blockSizeIndex, maxConfigs);
      PrependPrefix(b, sel, allSel);
      PrependPrefix([White], uns, allUns);
      if |Prepend(b, sel)| <= maxConfigs {
        assert sel == allSel;
      }
    }
  }

  /** When the cap is at least the binomial count it never fires. */
  lemma LineConfigsUncapped(total: nat, selected: nat, blockSizes: seq<nat>, blockSizeIndex: nat, maxConfigs: nat)
    requires blockSizeIndex + selected == |blockSizes|
    requires maxConfigs >= Binom(total, selected)
    ensures LineConfigs(total, selected, blockSizes, blockSizeIndex, maxConfigs)
            == Combinations(total, selected, blockSizes, blockSizeIndex)
    ensures |LineConfigs(total, selected, blockSizes, blockSizeIndex, maxConfigs)| == Binom(total, selected)
  {
    LineConfigsPrefix(total, selected, blockSizes, blockSizeIndex, maxConfigs);
    CombinationsCount(total, selected, blockSizes, blockSizeIndex);
  }

  /** The clue a scan of the line reports, `[0]` standing for a line with no filled cell. */
  function ClueOf(line: Line): Clue
  {
    if Runs(line) == [] then [0] else Runs(line)
  }

  /** The filter of `possibleLineConfigs`: the line's reported clue equals the requested one. */
  predicate Fits(line: Line, blocks: Clue)
  {
    ClueOf(line) == blocks
  }

  /** The filter's predicate, run as the source runs it: scan, normalise, compare. */
  method FitsLine(line: Line, blocks: Clue) returns (ok: bool)
    ensures ok <==> (Runs(line) == [] && blocks == [0]) || (Runs(line) != [] && Runs(line) == blocks)
    ensures ok == Fits(line, blocks)
  {
    var blockSizes := ConstraintGen(line);
    if |blockSizes| == 0 {
      blockSizes := [0];
    }
    ok := blockSizes == blocks;
  }

  /** The filter of `possibleLineConfigs` as a function value. */
  function FitsClue(blocks: Clue): Line -> bool
  {
    (cand: Line) => Fits(cand, blocks)
  }

  /**
   * `possibleLineConfigs`: generate with `F + n` slots, `F` being the number of white
   * cells, and keep the lines whose decomposition is the clue. A negative slot count
   * ends in constructing a vector of negative size.
   */
  function PossibleLineConfigs(lineLength: int, blocks: Clue, maxConfigs: nat): (r: Outcome<seq<Line>>)
    requires NonNegative(blocks)
    ensures r.Returned? ==> Slots(lineLength, blocks) >= 0
                            && |r.value| <= Binom(Slots(lineLength, blocks), |blocks|)
  {
    var n := |blocks|;
    var free := lineLength - Sum(blocks);
    if free + n < 0 then LengthError
    else Returned(Filtered(LineConfigs(free + n, n, blocks, 0, maxConfigs), FitsClue(blocks)))
  }

  /**
   * `possibleLineConfigs` as the source runs it: generate the candidates, then keep,
   * in order, those for which the scanning predicate `FitsLine` holds.
   */
  method ComputePossibleLineConfigs(lineLength: int, blocks: Clue, maxConfigs: nat)
    returns (r: Outcome<seq<Line>>)
    requires NonNegative(blocks)
    ensures r == PossibleLineConfigs(lineLength, blocks, maxConfigs)
  {
    var n := |blocks|;
    var free := lineLength - Sum(blocks);
    if free + n < 0 {
      return LengthError;
    }
    var configs := LineConfigs(free + n, n, blocks, 0, maxConfigs);
    var kept: seq<Line> := [];
    for i := 0 to |configs|
      invariant kept == Filtered(configs[..i], FitsClue(blocks))
    {
      assert configs[..i + 1] == configs[..i] + [configs[i]];
      FilteredConcat(configs[..i], [configs[i]], FitsClue(blocks));
      var ok := FitsLine(configs[i], blocks);
      if ok {
        kept := kept + [configs[i]];
      }
    }
    assert configs[..|configs|] == configs;
    return Returned(kept);
  }

  /** Only a negative slot count throws. */
  lemma PossibleLineConfigsThrows(lineLength: int, blocks: Clue, maxConfigs: nat)
    requires NonNegative(blocks)
    ensures PossibleLineConfigs(lineLength, blocks, maxConfigs).LengthError? <==> Slots(lineLength, blocks) < 0
  {
  }

  /** The capped enumeration inherits the length and the cell kinds of the full one. */
  lemma LineConfigsShape(total: nat, selected: nat, blockSizes: seq<nat>, blockSizeIndex: nat, maxConfigs: nat)
    requires blockSizeIndex + selected == |blockSizes|
    ensures forall i | 0 <= i < |LineConfigs(total, selected, blockSizes, blockSizeIndex, maxConfigs)| ::
              && |LineConfigs(total, selected, blockSizes, blockSizeIndex, maxConfigs)[i]|
                 == total - selected + Sum(blockSizes[blockSizeIndex..])
              && BlackAndWhite(LineConfigs(total, selected, blockSizes, blockSizeIndex, maxConfigs)[i])
  {
    var capped := LineConfigs(total, selected, blockSizes, blockSizeIndex, maxConfigs);
    var all := Combinations(total, selected, blockSizes, blockSizeIndex);
    LineConfigsPrefix(total, selected, blockSizes, blockSizeIndex, maxConfigs);
    CombinationsLength(total, selected, blockSizes, blockSizeIndex);
    CombinationsBlackAndWhite(total, selected, blockSizes, blockSizeIndex);
    forall i | 0 <= i < |capped|
      ensures |capped[i]| == total - selected + Sum(blockSizes[blockSizeIndex..]) && BlackAndWhite(capped[i])
    {
      assert capped[i] == all[i];
    }
  }

  /**
   * The returned lines keep the generator's order, and there are at most binomially
   * many of them.
   */
  lemma PossibleLineConfigsOrdered(lineLength: int, blocks: Clue, maxConfigs: nat)
    requires NonNegative(blocks)
    ensures PossibleLineConfigs(lineLength, blocks, maxConfigs).Returned? ==>
              && IsSubsequence(PossibleLineConfigs(lineLength, blocks, maxConfigs).value,
                               LineConfigs(Slots(lineLength, blocks), |blocks|, blocks, 0, maxConfigs))
              && |PossibleLineConfigs(lineLength, blocks, maxConfigs).value| <= Binom(Slots(lineLength, blocks), |blocks|)
  {
    var S := Slots(lineLength, blocks);
    if S >= 0 {
      var raw := LineConfigs(S, |blocks|, blocks, 0, maxConfigs);
      assert PossibleLineConfigs(lineLength, blocks, maxConfigs).value == Filtered(raw, FitsClue(blocks));
      FilteredIsSubsequence(raw, FitsClue(blocks));
      LineConfigsPrefix(S, |blocks|, blocks, 0, maxConfigs);
      CombinationsCount(S, |blocks|, blocks, 0);
    }
  }

  /**
   * Every returned line has the requested length, only white and black cells and the
   * requested runs (none at all for the clue `0`).
   */
  lemma PossibleLineConfigsSound(lineLength: int, blocks: Clue, maxConfigs: nat)
    requires NonNegative(blocks)
    ensures PossibleLineConfigs(lineLength, blocks, maxConfigs).Returned? ==>
              forall i | 0 <= i < |PossibleLineConfigs(lineLength, blocks, maxConfigs).value| ::
                && |PossibleLineConfigs(lineLength, blocks, maxConfigs).value[i]| == lineLength
                && BlackAndWhite(PossibleLineConfigs(lineLength, blocks, maxConfigs).value[i])
                && Runs(PossibleLineConfigs(lineLength, blocks, maxConfigs).value[i]) == (if blocks == [0] then [] else blocks)
  {
    var S := Slots(lineLength, blocks);
    if S >= 0 {
      var raw := LineConfigs(S, |blocks|, blocks, 0, maxConfigs);
      var out := Filtered(raw, FitsClue(blocks));
      assert PossibleLineConfigs(lineLength, blocks, maxConfigs).value == out;
      LineConfigsShape(S, |blocks|, blocks, 0, maxConfigs);
      assert blocks[0..] == blocks;
      forall i | 0 <= i < |out|
        ensures |out[i]| == lineLength && BlackAndWhite(out[i])
        ensures Runs(out[i]) == (if blocks == [0] then [] else blocks)
      {
        FilteredMembers(raw, FitsClue(blocks), out[i]);
        RunsPositive(out[i]);
        if Runs(out[i]) != [] {
          assert Runs(out[i])[0] >= 1;
        }
      }
    }
  }

  /**
   * An empty clue (what the parser makes of `{ 0 }`) gets no line at all: the all-white
   * candidate reports `[0]`, which differs from `[]`.
   */
  lemma PossibleLineConfigsEmptyClue(lineLength: int, maxConfigs: nat)
    ensures lineLength >= 0 ==> PossibleLineConfigs(lineLength, [], maxConfigs) == Returned([])
    ensures lineLength < 0 ==> PossibleLineConfigs(lineLength, [], maxConfigs) == LengthError
  {
    if lineLength >= 0 {
      assert LineConfigs(lineLength, 0, [], 0, maxConfigs) == [Whites(lineLength)];
      assert !Fits(Whites(lineLength), []);
      assert Filtered([Whites(lineLength)], FitsClue([])) == [];
    }
  }

  /** With positive blocks no line is returned twice. */
  lemma PossibleLineConfigsDistinct(lineLength: int, blocks: Clue, maxConfigs: nat)
    requires NonNegative(blocks) && Positive(blocks)
    ensures PossibleLineConfigs(lineLength, blocks, maxConfigs).Returned? ==>
              Distinct(PossibleLineConfigs(lineLength, blocks, maxConfigs).value)
  {
    var S := Slots(lineLength, blocks);
    if S >= 0 {
      var n := |blocks|;
      var raw := LineConfigs(S, n, blocks, 0, maxConfigs);
      LineConfigsPrefix(S, n, blocks, 0, maxConfigs);
      CombinationsDistinct(S, n, blocks, 0);
      var all := Combinations(S, n, blocks, 0);
      assert Distinct(raw) by {
        forall i, j | 0 <= i < j < |raw| ensures raw[i] != raw[j] {
          assert raw[i] == all[i] && raw[j] == all[j];
        }
      }
      FilteredDistinct(raw, FitsClue(blocks));
    }
  }

  /** A line with a filled cell passes the filter for the clue `constraintGen` derives from it. */
  lemma OwnClueFits(line: Line)
    requires exists i | 0 <= i < |line| :: line[i].IsSet()
    ensures Fits(line, Runs(line))
  {
    RunsEmpty(line);
  }

  /**
   * A black-and-white line with a black cell is among the candidates for its own clue,
   * whenever the cap is at least the binomial count.
   */
  lemma PossibleLineConfigsComplete(line: Line, maxConfigs: nat)
    requires BlackAndWhite(line) && exists i | 0 <= i < |line| :: line[i] == Black
    ensures NonNegative(Runs(line)) && Slots(|line|, Runs(line)) >= 0
    ensures maxConfigs >= Binom(Slots(|line|, Runs(line)), |Runs(line)|) ==>
              && PossibleLineConfigs(|line|, Runs(line), maxConfigs).Returned?
              && line in PossibleLineConfigs(|line|, Runs(line), maxConfigs).value
  {
    var bs := Runs(line);
    RunsPositive(line);
    SlotsOfRuns(line);
    var S := Slots(|line|, bs);
    if maxConfigs >= Binom(S, |bs|) {
      assert bs[0..] == bs;
      CombinationsComplete(line, S, bs, 0);
      LineConfigsUncapped(S, |bs|, bs, 0, maxConfigs);
      OwnClueFits(line);
      var raw := LineConfigs(S, |bs|, bs, 0, maxConfigs);
      FilteredMembers(raw, FitsClue(bs), line);
      assert PossibleLineConfigs(|line|, bs, maxConfigs) == Returned(Filtered(raw, FitsClue(bs)));
    }
  }

  /**
   * `configsForAllLines`: one enumeration per clue, launched in order and joined in
   * order; the first line whose enumeration threw rethrows when it is joined.
   */
  method ConfigsForAllLines(lineLength: int, blockSizes: seq<Clue>, maxConfigs: nat)
    returns (result: Outcome<seq<seq<Line>>>)
    requires forall i | 0 <= i < |blockSizes| :: NonNegative(blockSizes[i])
    ensures result.LengthError? <==>
              exists i | 0 <= i < |blockSizes| :: PossibleLineConfigs(lineLength, blockSizes[i], maxConfigs).LengthError?
    ensures result.Returned? ==>
              && |result.value| == |blockSizes|
              && forall i | 0 <= i < |blockSizes| ::
                   result.value[i] == PossibleLineConfigs(lineLength, blockSizes[i], maxConfigs).value
  {
    var fs: seq<Outcome<seq<Line>>> := [];
    for i := 0 to |blockSizes|
      invariant |fs| == i
      invariant forall k | 0 <= k < i :: fs[k] == PossibleLineConfigs(lineLength, blockSizes[k], maxConfigs)
    {
      var good := ComputePossibleLineConfigs(lineLength, blockSizes[i], maxConfigs);
      fs := fs + [good];
    }
    var lines: seq<seq<Line>> := [];
    for i := 0 to |fs|
      invariant |lines| == i
      invariant forall k | 0 <= k < i :: fs[k].Returned? && lines[k] == fs[k].value
    {
      if fs[i].LengthError? {
        return LengthError;
      }
      lines := lines + [fs[i].value];
    }
    return Returned(lines);
  }
}
