/**
 * The stippled-dots effect: sample the intensity image on a 12-pixel grid and
 * draw, for every sample brighter than 60, a filled circle whose radius grows
 * with intensity, in the sample's colour boosted by 1.2.
 */
module Dots {
  import opened Imaging
  import Grid

  const DotSpacing := 12
  const DotThreshold := 60

  /** `int((intensity / 255) * 6) + 1`. */
  function DotRadius(intensity: int): (r: int)
    requires IsByte(intensity)
    ensures 1 <= r <= 7
    ensures intensity > DotThreshold ==> 2 <= r
  {
    Trunc(intensity as real / 255.0 * 6.0) + 1
  }

  /** The circle, if any, for the sample at row y, column x. */
  function DotAt(frame: seq<seq<Color>>, gray: seq<seq<int>>, h: nat, w: nat, y: int, x: int): seq<Circle>
    requires IsFrame(frame, h, w) && IsGray(gray, h, w)
  {
    if 0 <= y < h && 0 <= x < w && gray[y][x] > DotThreshold then
      [Circle(x, y, DotRadius(gray[y][x]), VividColor(frame[y][x]))]
    else []
  }

  /** The sampling as a cell function for the grid traversal. */
  function DotCells(frame: seq<seq<Color>>, gray: seq<seq<int>>, h: nat, w: nat): (int, int) -> seq<Circle>
    requires IsFrame(frame, h, w) && IsGray(gray, h, w)
  {
    (y, x) => DotAt(frame, gray, h, w, y, x)
  }

  /** The circles `create_dots_effect` draws, in drawing order. */
  function Dots(frame: seq<seq<Color>>, gray: seq<seq<int>>, h: nat, w: nat): seq<Circle>
    requires IsFrame(frame, h, w) && IsGray(gray, h, w)
  {
    Grid.Rows(DotCells(frame, gray, h, w), h, w, DotSpacing, DotSpacing, 0)
  }

  /** The meaning of "c is a dot of the effect": its centre is a grid sample
      inside the frame whose intensity exceeds 60, its radius is in 2..7 and
      grows with that intensity, and its colour is the sample's colour boosted. */
  predicate IsDot(frame: seq<seq<Color>>, gray: seq<seq<int>>, h: nat, w: nat, c: Circle)
    requires IsFrame(frame, h, w) && IsGray(gray, h, w)
  {
    Grid.Visited(h, w, DotSpacing, DotSpacing, c.cy, c.cx) &&
    gray[c.cy][c.cx] > DotThreshold &&
    2 <= c.radius <= 7 && c.radius == DotRadius(gray[c.cy][c.cx]) &&
    c.color == VividColor(frame[c.cy][c.cx])
  }

  /** A visited sample yields exactly the dot centred on it, if it is one. */
  lemma DotCell(frame: seq<seq<Color>>, gray: seq<seq<int>>, h: nat, w: nat, y: int, x: int, c: Circle)
    requires IsFrame(frame, h, w) && IsGray(gray, h, w)
    requires Grid.Visited(h, w, DotSpacing, DotSpacing, y, x)
    ensures c in DotCells(frame, gray, h, w)(y, x) <==> IsDot(frame, gray, h, w, c) && c.cy == y && c.cx == x
  {
  }

  /** The dots effect draws exactly the dots: one circle per bright grid
      sample and nothing else. */
  lemma DotsMembers(frame: seq<seq<Color>>, gray: seq<seq<int>>, h: nat, w: nat, c: Circle)
    requires IsFrame(frame, h, w) && IsGray(gray, h, w)
    ensures c in Dots(frame, gray, h, w) <==> IsDot(frame, gray, h, w, c)
  {
    var cells := DotCells(frame, gray, h, w);
    Grid.Members(cells, h, w, DotSpacing, DotSpacing, c);
    if c in Dots(frame, gray, h, w) {
      var r, x :| Grid.Visited(h, w, DotSpacing, DotSpacing, r, x) && c in cells(r, x);
      DotCell(frame, gray, h, w, r, x, c);
    }
    if IsDot(frame, gray, h, w, c) {
      DotCell(frame, gray, h, w, c.cy, c.cx, c);
    }
  }

  /** A frame with no intensity above 60 (an all-black frame, say) yields no dots. */
  lemma DarkFrameHasNoDots(frame: seq<seq<Color>>, gray: seq<seq<int>>, h: nat, w: nat)
    requires IsFrame(frame, h, w) && IsGray(gray, h, w)
    requires forall y, x :: 0 <= y < h && 0 <= x < w ==> gray[y][x] <= DotThreshold
    ensures Dots(frame, gray, h, w) == []
  {
    var cells := DotCells(frame, gray, h, w);
    forall r, x | Grid.Visited(h, w, DotSpacing, DotSpacing, r, x) ensures cells(r, x) == [] {
    }
    Grid.NothingVisible(cells, h, w, DotSpacing, DotSpacing);
  }

  /** The body of the inner loop of `create_dots_effect` for the sample at
      (x, y): the threshold test, then the radius and the boosted colour. */
  method DrawDot(frame: seq<seq<Color>>, gray: seq<seq<int>>, h: nat, w: nat, y: nat, x: nat)
    returns (dot: seq<Circle>)
    requires IsFrame(frame, h, w) && IsGray(gray, h, w) && y < h && x < w
    ensures dot == DotCells(frame, gray, h, w)(y, x)
  {
    dot := [];
    var intensity := gray[y][x];
    if intensity > DotThreshold {
      var radius := DotRadius(intensity);
      var color := VividColor(frame[y][x]);
      dot := [Circle(x, y, radius, color)];
    }
  }

  /** The inner loop of `create_dots_effect`: the samples of row y, left to right. */
  method DotsRowPass(frame: seq<seq<Color>>, gray: seq<seq<int>>, h: nat, w: nat, y: nat)
    returns (circles: seq<Circle>)
    requires IsFrame(frame, h, w) && IsGray(gray, h, w) && y < h
    ensures circles == Grid.Row(DotCells(frame, gray, h, w), w, DotSpacing, y, 0)
  {
    ghost var cells := DotCells(frame, gray, h, w);
    circles := [];
    var x: nat := 0;
    while x < w
      invariant circles + Grid.Row(cells, w, DotSpacing, y, x) == Grid.Row(cells, w, DotSpacing, y, 0)
    {
      var dot := DrawDot(frame, gray, h, w, y, x);
      circles := circles + dot;
      x := x + DotSpacing;
    }
  }

  /** `create_dots_effect` after the conversion to intensity: the outer loop
      over sampled rows, recording each circle drawn. */
  method CreateDotsEffect(frame: seq<seq<Color>>, gray: seq<seq<int>>, h: nat, w: nat)
    returns (circles: seq<Circle>)
    requires IsFrame(frame, h, w) && IsGray(gray, h, w)
    ensures circles == Dots(frame, gray, h, w)
    ensures forall c :: c in circles <==> IsDot(frame, gray, h, w, c)
  {
    ghost var cells := DotCells(frame, gray, h, w);
    circles := [];
    var y: nat := 0;
    while y < h
      invariant circles + Grid.Rows(cells, h, w, DotSpacing, DotSpacing, y) == Dots(frame, gray, h, w)
    {
      var row := DotsRowPass(frame, gray, h, w, y);
      circles := circles + row;
      y := y + DotSpacing;
    }
    forall c ensures c in circles <==> IsDot(frame, gray, h, w, c) {
      DotsMembers(frame, gray, h, w, c);
    }
  }
}
