/**
 * The edge-outline effect after edge detection: every pixel of the edge mask
 * takes the frame's colour brightened by 1.5, every other pixel stays black.
 * The blur, the edge detector and the final dilation are OpenCV primitives and
 * are not part of this model: the mask is an input and the canvas is the one
 * handed to the dilation.
 */
module Lines {
  import opened Imaging

  /** The edge pixels of row y from column x on, left to right. */
  function EdgeRow(edges: seq<seq<int>>, h: nat, w: nat, y: nat, x: nat): seq<(int, int)>
    requires IsGray(edges, h, w) && y < h
    decreases w - x
  {
    if x >= w then []
    else (if edges[y][x] > 0 then [(y, x)] else []) + EdgeRow(edges, h, w, y, x + 1)
  }

  /** `np.where(edges > 0)` zipped into (row, column) pairs, in row-major order
      from row y on. */
  function EdgePoints(edges: seq<seq<int>>, h: nat, w: nat, y: nat): seq<(int, int)>
    requires IsGray(edges, h, w)
    decreases h - y
  {
    if y >= h then [] else EdgeRow(edges, h, w, y, 0) + EdgePoints(edges, h, w, y + 1)
  }

  lemma {:induction false} EdgeRowMembers(edges: seq<seq<int>>, h: nat, w: nat, y: nat, x: nat, p: (int, int))
    requires IsGray(edges, h, w) && y < h
    ensures p in EdgeRow(edges, h, w, y, x) <==> p.0 == y && x <= p.1 < w && edges[y][p.1] > 0
    decreases w - x
  {
    if x < w {
      EdgeRowMembers(edges, h, w, y, x + 1, p);
    }
  }

  lemma {:induction false} EdgePointsFrom(edges: seq<seq<int>>, h: nat, w: nat, y: nat, p: (int, int))
    requires IsGray(edges, h, w)
    ensures p in EdgePoints(edges, h, w, y) <==> y <= p.0 < h && 0 <= p.1 < w && edges[p.0][p.1] > 0
    decreases h - y
  {
    if y < h {
      EdgeRowMembers(edges, h, w, y, 0, p);
      EdgePointsFrom(edges, h, w, y + 1, p);
    }
  }

  /** The edge-point list holds exactly the in-frame positions where the mask is set. */
  lemma EdgePointsMembers(edges: seq<seq<int>>, h: nat, w: nat, p: (int, int))
    requires IsGray(edges, h, w)
    ensures p in EdgePoints(edges, h, w, 0) <==> 0 <= p.0 < h && 0 <= p.1 < w && edges[p.0][p.1] > 0
  {
    EdgePointsFrom(edges, h, w, 0, p);
  }

  /** The colour a pixel of the canvas ends up with. */
  function LinesPixel(frame: seq<seq<Color>>, edges: seq<seq<int>>, h: nat, w: nat, y: nat, x: nat): (c: Color)
    requires IsFrame(frame, h, w) && IsGray(edges, h, w) && y < h && x < w
    ensures IsByteColor(c)
    ensures c != Black <==> edges[y][x] > 0 && frame[y][x] != Black
    ensures edges[y][x] > 0 ==> c.b >= frame[y][x].b && c.g >= frame[y][x].g && c.r >= frame[y][x].r
  {
    if edges[y][x] > 0 then BrightenColor(frame[y][x]) else Black
  }

  /** `create_lines_effect` before its dilation: a black canvas, then the loop
      over the edge points writing the brightened frame colour at each. */
  method CreateLinesEffect(frame: seq<seq<Color>>, edges: seq<seq<int>>, h: nat, w: nat)
    returns (result: array2<Color>)
    requires IsFrame(frame, h, w) && IsGray(edges, h, w)
    ensures fresh(result)
    ensures result.Length0 == h && result.Length1 == w
    ensures forall y, x :: 0 <= y < h && 0 <= x < w ==> result[y, x] == LinesPixel(frame, edges, h, w, y, x)
  {
    result := new Color[h, w]((i, j) => Black);
    var points := EdgePoints(edges, h, w, 0);
    forall p | p in points ensures 0 <= p.0 < h && 0 <= p.1 < w && edges[p.0][p.1] > 0 {
      EdgePointsMembers(edges, h, w, p);
    }
    var i := 0;
    while i < |points|
      invariant 0 <= i <= |points|
      invariant forall y, x :: 0 <= y < h && 0 <= x < w ==>
                  result[y, x] == (if (y, x) in points[..i] then BrightenColor(frame[y][x]) else Black)
    {
      var (y, x) := points[i];
      assert points[..i + 1] == points[..i] + [(y, x)];
      result[y, x] := BrightenColor(frame[y][x]);
      i := i + 1;
    }
    assert points[..i] == points;
    forall y, x | 0 <= y < h && 0 <= x < w
      ensures result[y, x] == LinesPixel(frame, edges, h, w, y, x)
    {
      EdgePointsMembers(edges, h, w, (y, x));
    }
  }
}
