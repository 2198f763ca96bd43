/**
 * The traversal both sampling effects share: `for y in range(0, h, sy)` and,
 * inside it, `for x in range(0, w, sx)`, every visited position contributing
 * the records one cell function computes for it, in visiting order. What the
 * traversal collects is proved here once, for any cell function.
 */
module Grid {

  /** Whether the nested loops visit column x of row y. */
  predicate Visited(h: int, w: int, sy: int, sx: int, y: int, x: int)
    requires 0 < sy && 0 < sx
  {
    0 <= y < h && 0 <= x < w && y % sy == 0 && x % sx == 0
  }

  /** The records of row y from column x on, left to right. */
  function Row<T>(cell: (int, int) -> seq<T>, w: int, sx: int, y: int, x: int): seq<T>
    requires 0 < sx
    decreases w - x
  {
    if x >= w then [] else cell(y, x) + Row(cell, w, sx, y, x + sx)
  }

  /** The records of every visited row from row y on, top to bottom. */
  function Rows<T>(cell: (int, int) -> seq<T>, h: int, w: int, sy: int, sx: int, y: int): seq<T>
    requires 0 < sy && 0 < sx
    decreases h - y
  {
    if y >= h then [] else Row(cell, w, sx, y, 0) + Rows(cell, h, w, sy, sx, y + sy)
  }

  /** One step of the inner loop: the records of the cell at x move from
      the part still to visit to the part collected. */
  lemma RowAdvance<T>(cell: (int, int) -> seq<T>, w: int, sx: int, y: int, x: int, acc: seq<T>, all: seq<T>)
    requires 0 < sx && x < w && acc + Row(cell, w, sx, y, x) == all
    ensures (acc + cell(y, x)) + Row(cell, w, sx, y, x + sx) == all
  {
    assert Row(cell, w, sx, y, x) == cell(y, x) + Row(cell, w, sx, y, x + sx);
    assert (acc + cell(y, x)) + Row(cell, w, sx, y, x + sx) == acc + (cell(y, x) + Row(cell, w, sx, y, x + sx));
  }

  /** One step of the outer loop: row y moves from the part still to visit
      to the part collected. */
  lemma RowsAdvance<T>(cell: (int, int) -> seq<T>, h: int, w: int, sy: int, sx: int, y: int, acc: seq<T>, all: seq<T>)
    requires 0 < sy && 0 < sx && y < h && acc + Rows(cell, h, w, sy, sx, y) == all
    ensures (acc + Row(cell, w, sx, y, 0)) + Rows(cell, h, w, sy, sx, y + sy) == all
  {
    assert Rows(cell, h, w, sy, sx, y) == Row(cell, w, sx, y, 0) + Rows(cell, h, w, sy, sx, y + sy);
    assert (acc + Row(cell, w, sx, y, 0)) + Rows(cell, h, w, sy, sx, y + sy)
        == acc + (Row(cell, w, sx, y, 0) + Rows(cell, h, w, sy, sx, y + sy));
  }

  lemma {:induction false} MulAtLeast(m: int, d: int)
    ensures 0 < m && 1 <= d ==> m <= m * d
    decreases if d < 1 then 0 else d
  {
    if 0 < m && d > 1 {
      MulAtLeast(m, d - 1);
      assert m * d == m * (d - 1) + m;
    }
  }

  /** Euclidean quotient and remainder are unique. */
  lemma DivModUnique(x: int, m: int, q: int, r: int)
    requires 0 < m && 0 <= r < m && x == m * q + r
    ensures x / m == q && x % m == r
  {
    var q2, r2 := x / m, x % m;
    MulAtLeast(m, q - q2);
    MulAtLeast(m, q2 - q);
    assert m * (q - q2) == r2 - r;
  }

  /** One stride further along is equally aligned. */
  lemma ModStep(x: int, m: int)
    requires 0 < m
    ensures (x + m) % m == x % m
  {
    DivModUnique(x + m, m, x / m + 1, x % m);
  }

  /** Two distinct multiples of m lie at least m apart. */
  lemma NextMultiple(a: int, b: int, m: int)
    requires 0 < m && a % m == 0 && b % m == 0 && a < b
    ensures a + m <= b
  {
    var qa, qb := a / m, b / m;
    MulAtLeast(m, qb - qa);
    MulAtLeast(m, qa - qb);
    assert b - a == m * (qb - qa);
  }

  lemma {:induction false} RowSound<T>(cell: (int, int) -> seq<T>, w: int, sx: int, y: int, x: int, t: T)
    requires 0 < sx && x % sx == 0 && t in Row(cell, w, sx, y, x)
    ensures exists c :: x <= c < w && c % sx == 0 && t in cell(y, c)
    decreases w - x
  {
    if t !in cell(y, x) {
      ModStep(x, sx);
      RowSound(cell, w, sx, y, x + sx, t);
    }
  }

  lemma {:induction false} RowComplete<T>(cell: (int, int) -> seq<T>, w: int, sx: int, y: int, x: int, c: int, t: T)
    requires 0 < sx && x % sx == 0 && x <= c < w && c % sx == 0 && t in cell(y, c)
    ensures t in Row(cell, w, sx, y, x)
    decreases w - x
  {
    if c != x {
      NextMultiple(x, c, sx);
      ModStep(x, sx);
      RowComplete(cell, w, sx, y, x + sx, c, t);
    }
  }

  lemma {:induction false} RowsSound<T>(cell: (int, int) -> seq<T>, h: int, w: int, sy: int, sx: int, y: int, t: T)
    requires 0 < sy && 0 < sx && 0 <= y && y % sy == 0 && t in Rows(cell, h, w, sy, sx, y)
    ensures exists r, c :: y <= r && Visited(h, w, sy, sx, r, c) && t in cell(r, c)
    decreases h - y
  {
    if t in Row(cell, w, sx, y, 0) {
      RowSound(cell, w, sx, y, 0, t);
      var c :| 0 <= c < w && c % sx == 0 && t in cell(y, c);
      assert Visited(h, w, sy, sx, y, c);
    } else {
      ModStep(y, sy);
      RowsSound(cell, h, w, sy, sx, y + sy, t);
    }
  }

  lemma {:induction false} RowsComplete<T>(cell: (int, int) -> seq<T>, h: int, w: int, sy: int, sx: int,
                                           y: int, r: int, c: int, t: T)
    requires 0 < sy && 0 < sx && y % sy == 0 && y <= r && Visited(h, w, sy, sx, r, c) && t in cell(r, c)
    ensures t in Rows(cell, h, w, sy, sx, y)
    decreases h - y
  {
    if r == y {
      RowComplete(cell, w, sx, y, 0, c, t);
    } else {
      NextMultiple(y, r, sy);
      ModStep(y, sy);
      RowsComplete(cell, h, w, sy, sx, y + sy, r, c, t);
    }
  }

  /** The traversal collects exactly the records of the visited cells. */
  lemma Members<T>(cell: (int, int) -> seq<T>, h: int, w: int, sy: int, sx: int, t: T)
    requires 0 < sy && 0 < sx
    ensures t in Rows(cell, h, w, sy, sx, 0) <==> exists r, c :: Visited(h, w, sy, sx, r, c) && t in cell(r, c)
  {
    if t in Rows(cell, h, w, sy, sx, 0) {
      RowsSound(cell, h, w, sy, sx, 0, t);
    }
    if exists r, c :: Visited(h, w, sy, sx, r, c) && t in cell(r, c) {
      var r, c :| Visited(h, w, sy, sx, r, c) && t in cell(r, c);
      RowsComplete(cell, h, w, sy, sx, 0, r, c, t);
    }
  }

  /** When no visited cell yields a record, the traversal yields none. */
  lemma NothingVisible<T>(cell: (int, int) -> seq<T>, h: int, w: int, sy: int, sx: int)
    requires 0 < sy && 0 < sx
    requires forall r, c :: Visited(h, w, sy, sx, r, c) ==> cell(r, c) == []
    ensures Rows(cell, h, w, sy, sx, 0) == []
  {
    var out := Rows(cell, h, w, sy, sx, 0);
    if out != [] {
      assert out[0] in out;
      Members(cell, h, w, sy, sx, out[0]);
    }
  }
}
