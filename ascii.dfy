/**
 * The ASCII-art effect: the intensity image is cut into 16x20 cells; every
 * cell lying strictly inside the frame whose mean intensity exceeds 30 gets
 * one glyph from a dense-to-sparse block ramp (brighter cells get denser
 * glyphs) in a colour chosen by brightness tier.
 */
module Ascii {
  import opened Imaging
  import Grid

  const CharWidth := 16
  const CharHeight := 20
  const CellArea := CharWidth * CharHeight
  const DarkThreshold := 30

  /** Full block, seven narrowing left blocks, then a space. */
  const AsciiChars := "█▉▊▋▌▍▎▏ "

  const White := Color(255, 255, 255)
  const Green := Color(0, 255, 0)
  /** Blue 0, green 255, red 255: yellow in the BGR channel order. */
  const Yellow := Color(0, 255, 255)

  /** A recorded call of the text primitive: baseline origin, glyph, colour. */
  datatype Text = Text(x: int, y: int, glyph: char, color: Color)

  /** The intensities of `row` over the columns from x up to `stop`. */
  function RowSum(row: seq<int>, x: nat, stop: nat): int
    decreases stop - x
  {
    if x >= stop || x >= |row| then 0 else row[x] + RowSum(row, x + 1, stop)
  }

  lemma {:induction false} RowBound(row: seq<int>, x: nat, stop: nat, b: nat)
    requires x <= stop <= |row|
    requires forall c :: x <= c < stop ==> 0 <= row[c] <= b
    ensures 0 <= RowSum(row, x, stop) <= b * (stop - x)
    decreases stop - x
  {
    if x < stop {
      RowBound(row, x + 1, stop, b);
      assert b * (stop - x) == b + b * (stop - (x + 1));
    }
  }

  /** The intensity total of rows y + r up to y + 20 of the cell whose
      top-left corner is (x, y). */
  function CellRowsFrom(gray: seq<seq<int>>, y: nat, x: nat, r: nat): int
    decreases CharHeight - r
  {
    if r >= CharHeight || y + r >= |gray| then 0
    else RowSum(gray[y + r], x, x + CharWidth) + CellRowsFrom(gray, y, x, r + 1)
  }

  lemma {:induction false} CellRowsBound(gray: seq<seq<int>>, h: nat, w: nat, y: nat, x: nat, r: nat, b: nat)
    requires IsGray(gray, h, w) && y + CharHeight <= h && x + CharWidth <= w && r <= CharHeight
    requires forall i, j :: y <= i < y + CharHeight && x <= j < x + CharWidth ==> gray[i][j] <= b
    ensures 0 <= CellRowsFrom(gray, y, x, r) <= (CharHeight - r) * (b * CharWidth)
    decreases CharHeight - r
  {
    if r < CharHeight {
      var row := gray[y + r];
      assert forall c :: x <= c < x + CharWidth ==> 0 <= row[c] <= b;
      RowBound(row, x, x + CharWidth, b);
      CellRowsBound(gray, h, w, y, x, r + 1, b);
      var m := b * CharWidth;
      assert (CharHeight - r) * m == m + (CharHeight - (r + 1)) * m;
    }
  }

  /** The intensity total of the cell whose top-left corner is (x, y). Its
      mean is this total over 320; the effect only compares the mean with
      constants, so the comparisons are made on the total, which is exact. */
  function CellSum(gray: seq<seq<int>>, h: nat, w: nat, y: nat, x: nat): (s: int)
    requires IsGray(gray, h, w) && y + CharHeight <= h && x + CharWidth <= w
    ensures 0 <= s <= 255 * CellArea
  {
    CellRowsBound(gray, h, w, y, x, 0, 255);
    CellRowsFrom(gray, y, x, 0)
  }

  /** The cell mean exceeds `t`. */
  predicate MeanAbove(s: int, t: int)
  {
    s > t * CellArea
  }

  /** Comparing the total is comparing the mean `np.mean` computes, exactly. */
  lemma MeanAboveIsMeanComparison(s: int, t: int)
    ensures MeanAbove(s, t) <==> s as real / CellArea as real > t as real
  {
  }

  /** A cell whose pixels are all at most 30 does not have a mean above 30. */
  lemma DarkCell(gray: seq<seq<int>>, h: nat, w: nat, y: nat, x: nat)
    requires IsGray(gray, h, w) && y + CharHeight <= h && x + CharWidth <= w
    requires forall r, c :: y <= r < y + CharHeight && x <= c < x + CharWidth ==> gray[r][c] <= DarkThreshold
    ensures !MeanAbove(CellSum(gray, h, w, y, x), DarkThreshold)
  {
    CellRowsBound(gray, h, w, y, x, 0, DarkThreshold);
  }

  /** `int(((255 - mean) / 255) * (len(chars) - 1))` for a mean of s / 320,
      a non-negative quantity, so truncation is floor division. The index is
      a position in the ramp, and never that of the trailing space for a
      cell bright enough to be drawn. */
  function GlyphIndex(s: int): (k: int)
    requires 0 <= s <= 255 * CellArea
    ensures 0 <= k < |AsciiChars|
    ensures MeanAbove(s, DarkThreshold) ==> k <= 7
    ensures s == 255 * CellArea ==> k == 0
    ensures MeanAbove(s, DarkThreshold) && s <= 31 * CellArea ==> k == 7
  {
    (255 * CellArea - s) * (|AsciiChars| - 1) / (255 * CellArea)
  }

  /** The integer index is the source's float expression on the exact mean. */
  lemma GlyphIndexIsFloatFormula(s: int)
    requires 0 <= s <= 255 * CellArea
    ensures GlyphIndex(s) == Trunc((255.0 - s as real / CellArea as real) / 255.0 * (|AsciiChars| - 1) as real)
  {
    var num := (255 * CellArea - s) * (|AsciiChars| - 1);
    var den := 255 * CellArea;
    var v := (255.0 - s as real / CellArea as real) / 255.0 * (|AsciiChars| - 1) as real;
    assert v == num as real / den as real;
    var k := GlyphIndex(s);
    assert k * den <= num < (k + 1) * den;
    assert k as real <= v < k as real + 1.0 by {
      assert (k * den) as real <= num as real < ((k + 1) * den) as real;
    }
  }

  /** The ramp entry for a cell total. */
  function GlyphOf(s: int): (c: char)
    requires 0 <= s <= 255 * CellArea
    ensures MeanAbove(s, DarkThreshold) ==> c != ' '
  {
    AsciiChars[GlyphIndex(s)]
  }

  /** Brighter cells never get a sparser glyph. */
  lemma GlyphDensityMonotone(s1: int, s2: int)
    requires 0 <= s1 <= s2 <= 255 * CellArea
    ensures GlyphIndex(s2) <= GlyphIndex(s1)
  {
  }

  /** The brightness tiers: white above 150, green above 100, yellow otherwise. */
  function TierColor(s: int): (c: Color)
    ensures IsByteColor(c) && c.g == 255
    ensures c == White <==> MeanAbove(s, 150)
    ensures c == Yellow <==> !MeanAbove(s, 100)
  {
    if MeanAbove(s, 150) then White else if MeanAbove(s, 100) then Green else Yellow
  }

  /** The glyph, if any, for the cell at (x, y); the bounds test is strict, so
      a cell flush with the right or bottom border is skipped as well. */
  function AsciiCell(gray: seq<seq<int>>, h: nat, w: nat, y: int, x: int): seq<Text>
    requires IsGray(gray, h, w)
  {
    if 0 <= y && 0 <= x && y + CharHeight < h && x + CharWidth < w &&
       MeanAbove(CellSum(gray, h, w, y, x), DarkThreshold) then
      var s := CellSum(gray, h, w, y, x);
      [Text(x + 2, y + CharHeight - 4, GlyphOf(s), TierColor(s))]
    else []
  }

  /** The cells as a cell function for the grid traversal. */
  function AsciiCells(gray: seq<seq<int>>, h: nat, w: nat): (int, int) -> seq<Text>
    requires IsGray(gray, h, w)
  {
    (y, x) => AsciiCell(gray, h, w, y, x)
  }

  /** `cells` yields, at every position, the glyph of the cell there. The
      link is made only for a cell whose `AsciiCell` is mentioned, so that a
      proof about the traversal looks inside no other cell. */
  ghost predicate IsAsciiCells(gray: seq<seq<int>>, h: nat, w: nat, cells: (int, int) -> seq<Text>)
    requires IsGray(gray, h, w)
  {
    forall y, x {:trigger AsciiCell(gray, h, w, y, x)} :: cells(y, x) == AsciiCell(gray, h, w, y, x)
  }

  lemma AsciiCellsLinked(gray: seq<seq<int>>, h: nat, w: nat)
    requires IsGray(gray, h, w)
    ensures IsAsciiCells(gray, h, w, AsciiCells(gray, h, w))
  {
  }

  /** The glyphs `create_ascii_effect` draws, in drawing order. */
  function AsciiArt(gray: seq<seq<int>>, h: nat, w: nat): seq<Text>
    requires IsGray(gray, h, w)
  {
    Grid.Rows(AsciiCells(gray, h, w), h, w, CharHeight, CharWidth, 0)
  }

  /** The meaning of "t is a glyph of the effect": it sits at offset (2, 16)
      in a grid cell lying strictly inside the frame, the cell's mean exceeds
      30, the glyph is the ramp entry for that mean and its colour is the
      cell's tier. */
  predicate IsGlyph(gray: seq<seq<int>>, h: nat, w: nat, t: Text)
    requires IsGray(gray, h, w)
  {
    var cx, cy := t.x - 2, t.y - (CharHeight - 4);
    Grid.Visited(h, w, CharHeight, CharWidth, cy, cx) && cy + CharHeight < h && cx + CharWidth < w &&
    var s := CellSum(gray, h, w, cy, cx);
    MeanAbove(s, DarkThreshold) &&
    t.glyph == GlyphOf(s) && t.color == TierColor(s)
  }

  /** A visited cell yields exactly the glyph placed in it, if it has one. */
  lemma CellGlyph(gray: seq<seq<int>>, h: nat, w: nat, y: int, x: int, t: Text)
    requires IsGray(gray, h, w) && Grid.Visited(h, w, CharHeight, CharWidth, y, x)
    ensures t in AsciiCell(gray, h, w, y, x) <==>
            IsGlyph(gray, h, w, t) && t.x == x + 2 && t.y == y + CharHeight - 4
  {
  }

  /** What every drawn glyph looks like, stated without the ramp and tier
      functions: the cell mean exceeds 30, the glyph is one of the first eight
      ramp entries and not the blank, and the colour is white above a mean
      of 150, green above 100 and yellow otherwise. */
  lemma GlyphAppearance(gray: seq<seq<int>>, h: nat, w: nat, t: Text)
    requires IsGray(gray, h, w) && IsGlyph(gray, h, w, t)
    ensures var s := CellSum(gray, h, w, t.y - (CharHeight - 4), t.x - 2);
      MeanAbove(s, DarkThreshold) &&
      (exists k :: 0 <= k <= 7 && t.glyph == AsciiChars[k]) && t.glyph != ' ' &&
      (t.color == White <==> MeanAbove(s, 150)) &&
      (t.color == Green <==> MeanAbove(s, 100) && !MeanAbove(s, 150)) &&
      (t.color == Yellow <==> !MeanAbove(s, 100))
  {
    RampEntry(CellSum(gray, h, w, t.y - (CharHeight - 4), t.x - 2));
  }

  /** The ramp entry of a drawn cell is one of the first eight. */
  lemma RampEntry(s: int)
    requires 0 <= s <= 255 * CellArea && MeanAbove(s, DarkThreshold)
    ensures exists k :: 0 <= k <= 7 && GlyphOf(s) == AsciiChars[k]
  {
    var k := GlyphIndex(s);
    assert 0 <= k <= 7 && GlyphOf(s) == AsciiChars[k];
  }

  /** A traversal of linked cells draws only glyphs. */
  lemma LinkedSound(gray: seq<seq<int>>, h: nat, w: nat, cells: (int, int) -> seq<Text>, t: Text)
    requires IsGray(gray, h, w) && IsAsciiCells(gray, h, w, cells)
    requires t in Grid.Rows(cells, h, w, CharHeight, CharWidth, 0)
    ensures IsGlyph(gray, h, w, t)
  {
    Grid.Members(cells, h, w, CharHeight, CharWidth, t);
    var y, x :| Grid.Visited(h, w, CharHeight, CharWidth, y, x) && t in cells(y, x);
    CellGlyph(gray, h, w, y, x, t);
  }

  /** A traversal of linked cells draws every glyph. */
  lemma LinkedComplete(gray: seq<seq<int>>, h: nat, w: nat, cells: (int, int) -> seq<Text>, t: Text)
    requires IsGray(gray, h, w) && IsAsciiCells(gray, h, w, cells)
    requires IsGlyph(gray, h, w, t)
    ensures t in Grid.Rows(cells, h, w, CharHeight, CharWidth, 0)
  {
    var y, x := t.y - (CharHeight - 4), t.x - 2;
    CellGlyph(gray, h, w, y, x, t);
    assert t in cells(y, x);
    Grid.Members(cells, h, w, CharHeight, CharWidth, t);
  }

  /** The ASCII effect draws exactly the glyphs: one per bright inner cell and nothing else. */
  lemma AsciiMembers(gray: seq<seq<int>>, h: nat, w: nat, t: Text)
    requires IsGray(gray, h, w)
    ensures t in AsciiArt(gray, h, w) <==> IsGlyph(gray, h, w, t)
  {
    AsciiCellsLinked(gray, h, w);
    if t in AsciiArt(gray, h, w) {
      LinkedSound(gray, h, w, AsciiCells(gray, h, w), t);
    }
    if IsGlyph(gray, h, w, t) {
      LinkedComplete(gray, h, w, AsciiCells(gray, h, w), t);
    }
  }

  /** A frame with no intensity above 30 draws no glyph at all. */
  lemma DarkFrameHasNoGlyphs(gray: seq<seq<int>>, h: nat, w: nat)
    requires IsGray(gray, h, w)
    requires forall y, x :: 0 <= y < h && 0 <= x < w ==> gray[y][x] <= DarkThreshold
    ensures AsciiArt(gray, h, w) == []
  {
    var cells := AsciiCells(gray, h, w);
    forall y, x | Grid.Visited(h, w, CharHeight, CharWidth, y, x) ensures cells(y, x) == [] {
      if y + CharHeight < h && x + CharWidth < w {
        DarkCell(gray, h, w, y, x);
      }
    }
    Grid.NothingVisible(cells, h, w, CharHeight, CharWidth);
  }

  /** The body of the inner loop of `create_ascii_effect` for the cell at
      (x, y): the strict bounds test, the darkness test, then the glyph and
      its tier colour. */
  method DrawCell(gray: seq<seq<int>>, h: nat, w: nat, y: nat, x: nat) returns (cell: seq<Text>)
    requires IsGray(gray, h, w)
    ensures cell == AsciiCell(gray, h, w, y, x)
  {
    cell := [];
    if y + CharHeight < h && x + CharWidth < w {
      var total := CellSum(gray, h, w, y, x);
      if MeanAbove(total, DarkThreshold) {
        var ch := GlyphOf(total);
        var color;
        if MeanAbove(total, 150) {
          color := White;
        } else if MeanAbove(total, 100) {
          color := Green;
        } else {
          color := Yellow;
        }
        cell := [Text(x + 2, y + CharHeight - 4, ch, color)];
      }
    }
  }

  /** The inner loop of `create_ascii_effect`: the cells of row y, left to right. */
  method AsciiRowPass(gray: seq<seq<int>>, h: nat, w: nat, y: nat, ghost cells: (int, int) -> seq<Text>)
    returns (glyphs: seq<Text>)
    requires IsGray(gray, h, w) && IsAsciiCells(gray, h, w, cells)
    ensures glyphs == Grid.Row(cells, w, CharWidth, y, 0)
  {
    glyphs := [];
    var x: nat := 0;
    while x < w
      invariant glyphs + Grid.Row(cells, w, CharWidth, y, x) == Grid.Row(cells, w, CharWidth, y, 0)
    {
      var cell := DrawCell(gray, h, w, y, x);
      Grid.RowAdvance(cells, w, CharWidth, y, x, glyphs, Grid.Row(cells, w, CharWidth, y, 0));
      glyphs := glyphs + cell;
      x := x + CharWidth;
    }
  }

  /** The outer loop of `create_ascii_effect`: the cell rows, top to bottom. */
  method AsciiPass(gray: seq<seq<int>>, h: nat, w: nat, ghost cells: (int, int) -> seq<Text>)
    returns (glyphs: seq<Text>)
    requires IsGray(gray, h, w) && IsAsciiCells(gray, h, w, cells)
    ensures glyphs == Grid.Rows(cells, h, w, CharHeight, CharWidth, 0)
  {
    glyphs := [];
    var y: nat := 0;
    while y < h
      invariant glyphs + Grid.Rows(cells, h, w, CharHeight, CharWidth, y) == Grid.Rows(cells, h, w, CharHeight, CharWidth, 0)
    {
      var row := AsciiRowPass(gray, h, w, y, cells);
      Grid.RowsAdvance(cells, h, w, CharHeight, CharWidth, y, glyphs, Grid.Rows(cells, h, w, CharHeight, CharWidth, 0));
      glyphs := glyphs + row;
      y := y + CharHeight;
    }
  }

  /** `create_ascii_effect` after the conversion to intensity, recording each
      glyph drawn. */
  method CreateAsciiEffect(gray: seq<seq<int>>, h: nat, w: nat) returns (glyphs: seq<Text>)
    requires IsGray(gray, h, w)
    ensures glyphs == AsciiArt(gray, h, w)
    ensures forall t :: t in glyphs <==> IsGlyph(gray, h, w, t)
  {
    AsciiCellsLinked(gray, h, w);
    glyphs := AsciiPass(gray, h, w, AsciiCells(gray, h, w));
    forall t ensures t in glyphs <==> IsGlyph(gray, h, w, t) {
      AsciiMembers(gray, h, w, t);
    }
  }
}
