/** Geometry of the board: cells are numbered row by row, the cell at column x
    and row y having index x + width * y, and the engine reaches the eight
    neighbours of a cell by adding fixed offsets to its index. */
module Grid {

  /** A grid position (column, row); row 0 is the bottom row of the board. */
  type Pos = (int, int)

  /** A step from a cell to one of its neighbours: (column change, row change). */
  type Dir = (int, int)

  /** The eight neighbour steps, in the order the engine visits them:
      top, bottom, left, right, bottom-left, bottom-right, top-left, top-right. */
  const Dirs: seq<Dir> := [(0, 1), (0, -1), (-1, 0), (1, 0), (-1, -1), (1, -1), (-1, 1), (1, 1)]

  /** The change of linear index that a step stands for on a board `w` cells
      wide (`+ w` is one row up, `- 1` one column left, and so on). */
  function Offset(w: int, d: Dir): int {
    d.0 + w * d.1
  }

  /** The position of the tile at index `i` when tiles are laid out row by row. */
  function PosOf(w: nat, i: nat): Pos
    requires w > 0
  {
    (i % w, i / w)
  }

  /** Squared Euclidean distance. Comparing two distances of integer points is
      the same as comparing their squares, so no square root is needed. */
  function SqDist(p: Pos, q: Pos): int {
    (p.0 - q.0) * (p.0 - q.0) + (p.1 - q.1) * (p.1 - q.1)
  }

  /** The column and row changes from cell i to cell j. */
  function Delta(w: nat, i: nat, j: nat): Dir
    requires w > 0
  {
    (PosOf(w, j).0 - PosOf(w, i).0, PosOf(w, j).1 - PosOf(w, i).1)
  }

  /** Cells i and j lie in the same 3-by-3 block (at most one column and one
      row apart): the grid neighbourhood a player sees. */
  predicate Adjacent(w: nat, i: nat, j: nat)
    requires w > 0
  {
    -1 <= Delta(w, i, j).0 <= 1 && -1 <= Delta(w, i, j).1 <= 1
  }

  lemma MulMonotone(a: int, b: int)
    requires a > 0 && b >= 1
    ensures a * b >= a
  {
    assert a * b == a * (b - 1) + a;
  }

  /** Quotient and remainder are determined by n == w * q + r with 0 <= r < w. */
  lemma DivModUnique(n: int, w: int, q: int, r: int)
    requires w > 0 && 0 <= r < w && n == w * q + r
    ensures n / w == q && n % w == r
  {
    var q', r' := n / w, n % w;
    assert w * (q' - q) == r - r';
    if q' - q >= 1 {
      MulMonotone(w, q' - q);
    } else if q - q' >= 1 {
      MulMonotone(w, q - q');
    }
  }

  /** The board set-up creates the tile for column x and row y as the
      (x + w * y)-th tile, and the click handler computes the same index from a
      grid position: index and position determine each other. */
  lemma PositionIndexRoundTrip(w: nat, x: int, y: int)
    requires w > 0 && 0 <= x < w && y >= 0
    ensures x + w * y >= 0 && PosOf(w, x + w * y) == (x, y)
  {
    DivModUnique(x + w * y, w, y, x);
  }

  /** The engine measures nearness against the distance from tile 0 to tile
      w + 1. On boards at least two columns wide that tile is (1, 1), so the
      test accepts squared distances up to 2. */
  lemma NearThresholdIsTwo(w: nat)
    requires w >= 2
    ensures SqDist(PosOf(w, 0), PosOf(w, w + 1)) == 2
  {
    PositionIndexRoundTrip(w, 0, 0);
    PositionIndexRoundTrip(w, 1, 1);
  }

  lemma SquareAtLeastFour(a: int)
    requires a >= 2 || a <= -2
    ensures a * a >= 4
  {
    if a >= 2 {
      MulMonotone(a, a);
    } else {
      MulMonotone(-a, -a);
    }
  }

  /** For integer positions "squared distance at most 2" is exactly "at most
      one column and one row apart". */
  lemma SqDistAtMostTwo(w: nat, i: nat, j: nat)
    requires w > 0
    ensures SqDist(PosOf(w, i), PosOf(w, j)) <= 2 <==> Adjacent(w, i, j)
  {
    var dx, dy := Delta(w, i, j).0, Delta(w, i, j).1;
    assert SqDist(PosOf(w, i), PosOf(w, j)) == dx * dx + dy * dy;
    if dx >= 2 || dx <= -2 {
      SquareAtLeastFour(dx);
    } else if dy >= 2 || dy <= -2 {
      SquareAtLeastFour(dy);
    } else {
      assert dx * dx <= 1 && dy * dy <= 1;
    }
  }

  /** Following an offset from cell t lands on the intended neighbour exactly
      when the step stays inside t's column range; a step off the left or right
      edge wraps to the far end of a row, at least w - 1 columns away.
      On boards at least three columns wide such a wrapped cell is never
      adjacent. */
  lemma OffsetTarget(w: nat, t: nat, d: Dir)
    requires w >= 3 && d in Dirs && t + Offset(w, d) >= 0
    ensures var j := t + Offset(w, d);
      && (Adjacent(w, t, j) <==> 0 <= PosOf(w, t).0 + d.0 < w)
      && (Adjacent(w, t, j) ==> Delta(w, t, j) == d)
  {
    var x, y := PosOf(w, t).0, PosOf(w, t).1;
    var j := t + Offset(w, d);
    assert t == w * y + x;
    assert j == w * (y + d.1) + (x + d.0);
    if x + d.0 < 0 {
      assert j == w * (y + d.1 - 1) + (w - 1);
      DivModUnique(j, w, y + d.1 - 1, w - 1);
    } else if x + d.0 >= w {
      assert j == w * (y + d.1 + 1);
      DivModUnique(j, w, y + d.1 + 1, 0);
    } else {
      DivModUnique(j, w, y + d.1, x + d.0);
    }
  }

  /** Every other cell in t's 3-by-3 block is reached from t by one of the eight
      offsets, namely the one for its own column and row change. */
  lemma AdjacentIsStep(w: nat, t: nat, u: nat)
    requires w > 0 && Adjacent(w, t, u) && u != t
    ensures Delta(w, t, u) in Dirs && u == t + Offset(w, Delta(w, t, u))
  {
    var d := Delta(w, t, u);
    assert t == w * (t / w) + t % w;
    assert u == w * (u / w) + u % w;
    assert u - t == d.0 + w * d.1;
  }
}
