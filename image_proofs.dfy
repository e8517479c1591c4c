/** Properties of the image format: writing a black-and-white grid and reading it back. */
module ImageProofs {
  import opened Support
  import opened Nonogram
  import opened Text
  import opened Codec

  /** A written row is a line of `.` and `*` only. */
  lemma RowTextNoNewline(row: Line)
    ensures NoNewline(RowText(row))
    ensures forall i | 0 <= i < |row| :: IsImageChar(RowText(row)[i])
  {
  }

  /** Reading a written row gives the row back, when it has no unknown cell. */
  lemma RowRoundTrip(row: Line)
    requires forall k | 0 <= k < |row| :: row[k] != Unknown
    ensures RowOf(RowText(row)) == Just(row)
  {
    var text := RowText(row);
    assert RowOf(text).Just?;
    assert RowOf(text).value == row by {
      forall i | 0 <= i < |row| ensures RowOf(text).value[i] == row[i] {
        assert text[i] == CellChar(row[i]);
      }
    }
  }

  /** Writing the row a line was read as gives that line back. */
  lemma RowOfSound(line: string)
    requires RowOf(line).Just?
    ensures RowText(RowOf(line).value) == line
    ensures forall k | 0 <= k < |RowOf(line).value| :: RowOf(line).value[k] != Unknown
  {
    var row := RowOf(line).value;
    forall i | 0 <= i < |line| ensures RowText(row)[i] == line[i] {
      assert IsImageChar(line[i]);
    }
  }

  /** The lines of a written image are the written rows. */
  lemma {:induction false} LinesOfImageText(t: Table)
    ensures Lines(ImageText(t)) == Mapped(t, RowText)
  {
    if t != [] {
      RowTextNoNewline(t[0]);
      LinesCons(RowText(t[0]), ImageText(t[1..]));
      LinesOfImageText(t[1..]);
    }
  }

  /** Reading the written rows back gives the grid. */
  lemma {:induction false} RowsOfWritten(t: Table)
    requires NoUnknown(t)
    ensures RowsOf(Mapped(t, RowText)) == Just(t)
  {
    if t != [] {
      var lines := Mapped(t, RowText);
      assert lines[0] == RowText(t[0]);
      assert lines[1..] == Mapped(t[1..], RowText);
      RowRoundTrip(t[0]);
      assert NoUnknown(t[1..]) by {
        forall r, k | 0 <= r < |t| - 1 && 0 <= k < |t[1..][r]| ensures t[1..][r][k] != Unknown {
          assert t[1..][r] == t[r + 1];
        }
      }
      RowsOfWritten(t[1..]);
      assert [t[0]] + t[1..] == t;
    }
  }

  /**
   * `parseImage` reads back what `serializeImage` wrote, for a grid without unknown
   * cells whose rows all have one length (or that has fewer than two rows).
   */
  lemma ImageRoundTrip(t: Table)
    requires NoUnknown(t) && (|t| < 2 || Rectangular(t))
    ensures ImageOf(ImageText(t)) == Just(t)
  {
    LinesOfImageText(t);
    RowsOfWritten(t);
  }

  /** The rows read from lines correspond to those lines one for one. */
  lemma {:induction false} RowsOfSound(lines: seq<string>)
    requires RowsOf(lines).Just?
    ensures |RowsOf(lines).value| == |lines|
    ensures Mapped(RowsOf(lines).value, RowText) == lines
    ensures NoUnknown(RowsOf(lines).value)
  {
    if lines != [] {
      var rest := RowsOf(lines[1..]);
      RowsOfSound(lines[1..]);
      RowOfSound(lines[0]);
      var t := RowsOf(lines).value;
      assert t == [RowOf(lines[0]).value] + rest.value;
      assert t[1..] == rest.value;
      assert Mapped(t, RowText) == [RowText(t[0])] + Mapped(t[1..], RowText);
      assert [lines[0]] + lines[1..] == lines;
      forall r, k | 0 <= r < |t| && 0 <= k < |t[r]| ensures t[r][k] != Unknown {
        if r > 0 {
          assert t[r] == rest.value[r - 1];
        }
      }
    }
  }

  /**
   * What `parseImage` accepts: every line a row of `.` and `*`, all of one length when
   * there are two or more; the grid it returns writes back to those lines.
   */
  lemma ImageOfSound(s: string)
    requires ImageOf(s).Just?
    ensures var t := ImageOf(s).value;
      && NoUnknown(t) && (|t| < 2 || Rectangular(t))
      && |t| == |Lines(s)| && Mapped(t, RowText) == Lines(s)
  {
    RowsOfSound(Lines(s));
  }
}
