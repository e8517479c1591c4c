/** Worked examples of the line enumerator, proved about the model. */
module ClassifierExamples {
  import opened Support
  import opened Nonogram
  import opened Classifier

  lemma PrependOne(p: Line, a: Line)
    ensures Prepend(p, [a]) == [p + a]
  {
  }

  lemma PrependTwo(p: Line, a: Line, b: Line)
    ensures Prepend(p, [a, b]) == [p + a, p + b]
  {
  }

  /** Filtering three lines that all pass keeps all three. */
  lemma FilteredThree(raw: seq<Line>, p: Line -> bool)
    requires |raw| == 3 && p(raw[0]) && p(raw[1]) && p(raw[2])
    ensures Filtered(raw, p) == raw
  {
    assert Filtered(raw[2..], p) == [raw[2]] by {
      assert raw[2..][1..] == [];
    }
    assert Filtered(raw[1..], p) == [raw[1]] + Filtered(raw[2..], p) by {
      assert raw[1..][1..] == raw[2..];
    }
  }

  /** The generator's three candidates for one block of three over three slots. */
  lemma ThreeInFiveRaw(maxConfigs: nat)
    requires maxConfigs >= 3
    ensures LineConfigs(3, 1, [3], 0, maxConfigs)
            == [[Black, Black, Black, White, White],
                [White, Black, Black, Black, White],
                [White, White, Black, Black, Black]]
  {
    var bs: seq<nat> := [3];
    var B3 := [Black, Black, Black];
    assert Blacks(3) == B3;
    assert Whites(2) == [White, White];
    assert Whites(1) == [White];
    assert Whites(0) == [];
    assert Prepend([White], []) == [];
    PrependOne(B3, []);
    PrependOne(B3, [White]);
    PrependOne(B3, [White, White]);
    PrependOne([White], B3);
    assert B3 + [] == B3;
    assert LineConfigs(0, 0, bs, 1, maxConfigs) == [[]];
    assert LineConfigs(1, 1, bs, 0, maxConfigs) == [B3];
    assert LineConfigs(2, 1, bs, 0, maxConfigs) == [B3 + [White], [White] + B3];
    assert LineConfigs(2, 0, bs, 1, maxConfigs) == [[White, White]];
    PrependTwo([White], B3 + [White], [White] + B3);
    var raw := LineConfigs(3, 1, bs, 0, maxConfigs);
    assert raw == [B3 + [White, White]] + [[White] + (B3 + [White]), [White] + ([White] + B3)];
    assert B3 + [White, White] == [Black, Black, Black, White, White];
    assert [White] + (B3 + [White]) == [White, Black, Black, Black, White];
    assert [White] + ([White] + B3) == [White, White, Black, Black, Black];
  }

  /** The runs of the three placements of a block of three in five cells. */
  lemma ThreeRuns()
    ensures Runs([Black, Black, Black, White, White]) == [3]
    ensures Runs([White, Black, Black, Black, White]) == [3]
    ensures Runs([White, White, Black, Black, Black]) == [3]
  {
  }

  /**
   * A block of three in a line of five can start at any of the first three cells, in
   * that order (the block-first choice comes first).
   */
  lemma ThreeInFive(maxConfigs: nat)
    requires maxConfigs >= 3
    ensures PossibleLineConfigs(5, [3], maxConfigs)
            == Returned([[Black, Black, Black, White, White],
                         [White, Black, Black, Black, White],
                         [White, White, Black, Black, Black]])
  {
    ThreeInFiveRaw(maxConfigs);
    var raw := LineConfigs(3, 1, [3], 0, maxConfigs);
    assert Sum([3]) == 3 by { assert [3][..0] == []; }
    ThreeRuns();
    FilteredThree(raw, FitsClue([3]));
  }

  /** The generator's candidates for two blocks of two over three slots; two of them merge the blocks. */
  lemma TwoTwoInFiveRaw(maxConfigs: nat)
    requires maxConfigs >= 2
    ensures LineConfigs(3, 2, [2, 2], 0, maxConfigs)
            == [[Black, Black, Black, Black, White],
                [Black, Black, White, Black, Black],
                [White, Black, Black, Black, Black]]
  {
    var bs: seq<nat> := [2, 2];
    var B2 := [Black, Black];
    assert Blacks(2) == B2;
    assert Whites(1) == [White];
    assert Whites(0) == [];
    assert B2 + [] == B2;
    assert Prepend([White], []) == [];
    assert Prepend(B2, []) == [];
    PrependOne(B2, []);
    PrependOne(B2, [White]);
    PrependOne([White], B2);
    PrependOne(B2, B2);
    PrependOne([White], B2 + B2);
    assert LineConfigs(0, 0, bs, 2, maxConfigs) == [[]];
    assert LineConfigs(1, 0, bs, 2, maxConfigs) == [[White]];
    assert LineConfigs(0, 1, bs, 1, maxConfigs) == [];
    assert LineConfigs(1, 1, bs, 1, maxConfigs) == [B2];
    assert LineConfigs(2, 1, bs, 1, maxConfigs) == [B2 + [White], [White] + B2];
    PrependTwo(B2, B2 + [White], [White] + B2);
    assert LineConfigs(1, 2, bs, 0, maxConfigs) == [];
    assert LineConfigs(2, 2, bs, 0, maxConfigs) == [B2 + B2];
    var raw := LineConfigs(3, 2, bs, 0, maxConfigs);
    assert raw == [B2 + (B2 + [White]), B2 + ([White] + B2)] + [[White] + (B2 + B2)];
    assert B2 + (B2 + [White]) == [Black, Black, Black, Black, White];
    assert B2 + ([White] + B2) == [Black, Black, White, Black, Black];
    assert [White] + (B2 + B2) == [White, Black, Black, Black, Black];
  }

  /** The runs of the three candidates for two blocks of two. */
  lemma TwoTwoRuns()
    ensures Runs([Black, Black, Black, Black, White]) == [4]
    ensures Runs([Black, Black, White, Black, Black]) == [2, 2]
    ensures Runs([White, Black, Black, Black, Black]) == [4]
  {
  }

  /** Two blocks of two in a line of five fit only as the tightly packed placement. */
  lemma TwoTwoInFive(maxConfigs: nat)
    requires maxConfigs >= 2
    ensures PossibleLineConfigs(5, [2, 2], maxConfigs) == Returned([[Black, Black, White, Black, Black]])
  {
    TwoTwoInFiveRaw(maxConfigs);
    var raw := LineConfigs(3, 2, [2, 2], 0, maxConfigs);
    assert Sum([2, 2]) == 4 by {
      assert [2, 2][..1] == [2];
      assert [2][..0] == [];
    }
    TwoTwoRuns();
    var p := FitsClue([2, 2]);
    assert !p(raw[0]) && p(raw[1]) && !p(raw[2]);
    assert Filtered(raw[2..], p) == [] by {
      assert raw[2..][1..] == [];
    }
    assert Filtered(raw[1..], p) == [raw[1]] by {
      assert raw[1..][1..] == raw[2..];
      assert [raw[1]] + [] == [raw[1]];
    }
    assert Filtered(raw, p) == [raw[1]];
    assert PossibleLineConfigs(5, [2, 2], maxConfigs) == Returned(Filtered(raw, p));
  }

  /**
   * Infeasible clues: a block of four in three cells leaves no slot and yields nothing;
   * a block of five makes the slot count negative, and the enumeration throws.
   */
  lemma Infeasible(maxConfigs: nat)
    ensures PossibleLineConfigs(3, [4], maxConfigs) == Returned([])
    ensures PossibleLineConfigs(3, [5], maxConfigs) == LengthError
  {
    assert Sum([4]) == 4 by { assert [4][..0] == []; }
    assert Sum([5]) == 5 by { assert [5][..0] == []; }
    assert LineConfigs(0, 1, [4], 0, maxConfigs) == [];
  }

  /**
   * With a cap of zero, the first block-first subtree already exceeds the cap and is
   * returned alone: one of the three placements of a block of three in five cells.
   */
  lemma ThreeInFiveCapped()
    ensures PossibleLineConfigs(5, [3], 0) == Returned([[Black, Black, Black, White, White]])
  {
    var bs: seq<nat> := [3];
    var B3 := [Black, Black, Black];
    assert Blacks(3) == B3;
    assert Whites(2) == [White, White];
    PrependOne(B3, [White, White]);
    assert LineConfigs(2, 0, bs, 1, 0) == [[White, White]];
    var raw := LineConfigs(3, 1, bs, 0, 0);
    assert raw == [B3 + [White, White]];
    assert B3 + [White, White] == [Black, Black, Black, White, White];
    assert Sum([3]) == 3 by { assert [3][..0] == []; }
    ThreeRuns();
    assert Filtered(raw, FitsClue([3])) == raw by {
      assert raw[1..] == [];
    }
  }

  /** The runs of the one candidate a cap of zero leaves for two blocks of one in three cells. */
  lemma CappedRuns()
    ensures Runs([Black, Black, White]) == [2]
    ensures Runs([Black, White, Black]) == [1, 1]
  {
  }

  /**
   * The cap can leave no line at all: with a cap of zero, two blocks of one in three
   * cells are enumerated as the single candidate with both blocks at the front, which
   * merges them into one run and is filtered out, although the line black, white, black
   * fits the clue.
   */
  lemma CappedEmpty()
    ensures PossibleLineConfigs(3, [1, 1], 0) == Returned([])
    ensures Fits([Black, White, Black], [1, 1])
  {
    var bs: seq<nat> := [1, 1];
    assert Blacks(1) == [Black];
    assert Whites(1) == [White];
    assert bs[0] == 1 && bs[1] == 1;
    PrependOne([Black], [White]);
    assert [Black] + [White] == [Black, White];
    assert LineConfigs(1, 0, bs, 2, 0) == [[White]];
    assert LineConfigs(2, 1, bs, 1, 0) == [[Black, White]];
    PrependOne([Black], [Black, White]);
    assert [Black] + [Black, White] == [Black, Black, White];
    var raw := LineConfigs(3, 2, bs, 0, 0);
    assert raw == [[Black, Black, White]];
    assert Sum([1, 1]) == 2 by {
      assert [1, 1][..1] == [1];
      assert [1][..0] == [];
    }
    CappedRuns();
    assert !Fits([Black, Black, White], [1, 1]);
    assert Filtered(raw, FitsClue([1, 1])) == [] by {
      assert raw[1..] == [];
    }
  }

  /**
   * The clue `[0]` is enumerated as one block of length zero, which can take any slot:
   * the all-white line then comes out once per slot, so it is returned twice in a line
   * of one cell.
   */
  lemma ZeroClueRepeats(maxConfigs: nat)
    requires maxConfigs >= 1
    ensures PossibleLineConfigs(1, [0], maxConfigs) == Returned([[White], [White]])
  {
    var bs: seq<nat> := [0];
    assert Blacks(0) == [];
    assert Whites(1) == [White];
    assert Whites(0) == [];
    PrependOne([], [White]);
    PrependOne([], []);
    PrependOne([White], []);
    assert [] + [White] == [White];
    assert [White] + [] == [White];
    assert Prepend([White], []) == [];
    assert LineConfigs(1, 0, bs, 1, maxConfigs) == [[White]];
    assert LineConfigs(0, 0, bs, 1, maxConfigs) == [[]];
    assert LineConfigs(1, 1, bs, 0, maxConfigs) == [[]];
    var raw := LineConfigs(2, 1, bs, 0, maxConfigs);
    assert raw == [[White], [White]];
    assert Sum([0]) == 0 by { assert [0][..0] == []; }
    assert Runs([White]) == [];
    var p := FitsClue([0]);
    assert p([White]);
    assert Filtered(raw[1..], p) == [[White]] by {
      assert raw[1..][1..] == [];
    }
  }
}
