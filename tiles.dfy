/** One cell of the board and the adjacency classification the engine runs on
    the list of all tiles: whether a tile is "near" another, and how many mines
    are near a tile. */
module Tiles {
  import opened Grid

  /** A tile. `position` is fixed when the board is built; `nearMines` is only
      meaningful for tiles that are not mines. */
  datatype Tile = Tile(
    position: Pos,
    isCovered: bool,
    isFlagged: bool,
    isCrossed: bool,
    isMine: bool,
    nearMines: int)

  /** A tile as the board set-up creates it: covered, unflagged, not crossed,
      not a mine, no mines counted. */
  function NewTile(p: Pos): Tile {
    Tile(p, true, false, false, false, 0)
  }

  /** Every tile sits at the position its index stands for (row-major layout). */
  ghost predicate RowMajor(s: seq<Tile>, w: nat)
    requires w > 0
  {
    forall k :: 0 <= k < |s| ==> s[k].position == PosOf(w, k)
  }

  /** Two tile lists agree on everything adjacency depends on. */
  ghost predicate SameLayout(s1: seq<Tile>, s2: seq<Tile>)
  {
    && |s1| == |s2|
    && forall k :: 0 <= k < |s1| ==> s1[k].position == s2[k].position && s1[k].isMine == s2[k].isMine
  }

  /** Two tile lists agree on positions, mines and counts: they differ at most
      in what the player has uncovered, flagged or crossed out. */
  ghost predicate SameBoard(s1: seq<Tile>, s2: seq<Tile>)
  {
    && |s1| == |s2|
    && forall k :: 0 <= k < |s1| ==>
         s1[k].position == s2[k].position && s1[k].isMine == s2[k].isMine && s1[k].nearMines == s2[k].nearMines
  }

  /** No tile is crossed out; only a lost round crosses tiles out. */
  ghost predicate NoneCrossed(s: seq<Tile>) {
    forall k :: 0 <= k < |s| ==> !s[k].isCrossed
  }

  /** `tile.isNearTile(t, target, isMine)` with tile t at index `t` of the list
      `s` and the target looked up at index `j`, which may lie outside the list
      (the target is then undefined). Tiles are distinct objects, so "a
      different position object" means a different index. The nearness bound is
      the distance from tile 0 to tile w + 1, which is why that tile must exist.
      With `isMine` set, only mine targets count. */
  function IsNearTile(s: seq<Tile>, w: nat, t: nat, j: int, isMine: bool): bool
    requires w + 1 < |s| && t < |s|
  {
    && 0 <= j < |s|
    && j != t
    && SqDist(s[t].position, s[j].position) <= SqDist(s[0].position, s[w + 1].position)
    && (!isMine || s[j].isMine)
  }

  /** Counts, for the steps `ds` in order, the targets t + Offset(w, d) that are
      near mines: the chain of `if (...) count++` in `tile.getAdjacentMines`. */
  function CountNearMines(s: seq<Tile>, w: nat, t: nat, ds: seq<Dir>): (n: nat)
    requires w + 1 < |s| && t < |s|
    ensures n <= |ds|
  {
    if ds == [] then 0
    else (if IsNearTile(s, w, t, t + Offset(w, ds[0]), true) then 1 else 0) + CountNearMines(s, w, t, ds[1..])
  }

  /** `tile.getAdjacentMines(t)`: the eight offsets top, bottom, left, right,
      bottom-left, bottom-right, top-left, top-right. */
  function AdjacentMines(s: seq<Tile>, w: nat, t: nat): (n: nat)
    requires w + 1 < |s| && t < |s|
    ensures n <= |Dirs|
  {
    CountNearMines(s, w, t, Dirs)
  }

  /** Reference definition: the mines in t's 3-by-3 block other than t itself. */
  ghost function NeighbourMines(s: seq<Tile>, w: nat, t: nat): set<nat>
    requires w > 0
  {
    set u: nat | u < |s| && u != t && Adjacent(w, t, u) && s[u].isMine
  }

  /** The mines among t's neighbours that are reached by one of the steps `ds`. */
  ghost function MinesInDirs(s: seq<Tile>, w: nat, t: nat, ds: seq<Dir>): set<nat>
    requires w > 0
  {
    set u: nat | u < |s| && u != t && Adjacent(w, t, u) && s[u].isMine && Delta(w, t, u) in ds
  }

  /** On a row-major board at least two columns wide, `isNearTile` holds exactly
      for an existing, different tile in the same 3-by-3 block (that is a mine,
      when `isMine` is asked for): the distance test is the grid neighbourhood. */
  lemma IsNearTileMeaning(s: seq<Tile>, w: nat, t: nat, j: int, isMine: bool)
    requires w >= 2 && w + 1 < |s| && t < |s| && RowMajor(s, w)
    ensures IsNearTile(s, w, t, j, isMine) <==>
      0 <= j < |s| && j != t && Adjacent(w, t, j) && (isMine ==> s[j].isMine)
  {
    NearThresholdIsTwo(w);
    if 0 <= j < |s| {
      SqDistAtMostTwo(w, t, j);
    }
  }

  /** The mines among t's neighbours that the single step d reaches. */
  ghost function MinesInDir(s: seq<Tile>, w: nat, t: nat, d: Dir): set<nat>
    requires w > 0
  {
    set u: nat | u < |s| && u != t && Adjacent(w, t, u) && s[u].isMine && Delta(w, t, u) == d
  }

  /** A single step reaches at most one neighbour, the one at t + Offset(w, d),
      and it is counted exactly when `isNearTile` reports a near mine there. */
  lemma MinesInDirIsTarget(s: seq<Tile>, w: nat, t: nat, d: Dir)
    requires w >= 3 && w + 1 < |s| && t < |s| && RowMajor(s, w) && d in Dirs
    ensures MinesInDir(s, w, t, d) ==
      if IsNearTile(s, w, t, t + Offset(w, d), true) then {t + Offset(w, d)} else {}
  {
    var j := t + Offset(w, d);
    IsNearTileMeaning(s, w, t, j, true);
    forall u | u in MinesInDir(s, w, t, d) ensures u == j {
      AdjacentIsStep(w, t, u);
    }
    if IsNearTile(s, w, t, j, true) {
      OffsetTarget(w, t, d);
      assert j in MinesInDir(s, w, t, d);
    }
  }

  /** Splitting off the first of a list of distinct steps splits the mines
      reached into two disjoint parts. */
  lemma MinesInDirsSplit(s: seq<Tile>, w: nat, t: nat, ds: seq<Dir>)
    requires w > 0 && ds != []
    requires forall p, q :: 0 <= p < q < |ds| ==> ds[p] != ds[q]
    ensures MinesInDirs(s, w, t, ds) == MinesInDir(s, w, t, ds[0]) + MinesInDirs(s, w, t, ds[1..])
    ensures MinesInDir(s, w, t, ds[0]) !! MinesInDirs(s, w, t, ds[1..])
  {
    assert ds[0] !in ds[1..] by {
      forall k | 0 <= k < |ds[1..]| ensures ds[1..][k] != ds[0] {
        assert ds[1..][k] == ds[k + 1];
      }
    }
  }

  /** Counting along distinct steps counts each mine neighbour reached by one
      of them exactly once. */
  lemma {:induction false} CountNearMinesHits(s: seq<Tile>, w: nat, t: nat, ds: seq<Dir>)
    requires w >= 3 && w + 1 < |s| && t < |s| && RowMajor(s, w)
    requires forall k :: 0 <= k < |ds| ==> ds[k] in Dirs
    requires forall p, q :: 0 <= p < q < |ds| ==> ds[p] != ds[q]
    ensures CountNearMines(s, w, t, ds) == |MinesInDirs(s, w, t, ds)|
    decreases |ds|
  {
    if ds == [] {
      assert MinesInDirs(s, w, t, ds) == {};
    } else {
      CountNearMinesHits(s, w, t, ds[1..]);
      MinesInDirsSplit(s, w, t, ds);
      MinesInDirIsTarget(s, w, t, ds[0]);
      var here, rest := MinesInDir(s, w, t, ds[0]), MinesInDirs(s, w, t, ds[1..]);
      assert here * rest == {};
      assert |here + rest| == |here| + |rest|;
    }
  }

  /** `getAdjacentMines` returns the number of mines in the tile's 3-by-3 block:
      on boards at least three columns wide, the distance test removes every
      offset that wraps around a row edge and no neighbour is counted twice. */
  lemma AdjacentMinesCorrect(s: seq<Tile>, w: nat, t: nat)
    requires w >= 3 && w + 1 < |s| && t < |s| && RowMajor(s, w)
    ensures AdjacentMines(s, w, t) == |NeighbourMines(s, w, t)|
  {
    CountNearMinesHits(s, w, t, Dirs);
    forall u | u in NeighbourMines(s, w, t) ensures u in MinesInDirs(s, w, t, Dirs) {
      AdjacentIsStep(w, t, u);
    }
    assert MinesInDirs(s, w, t, Dirs) == NeighbourMines(s, w, t);
  }

  /** The count reads only positions and mine flags. */
  lemma {:induction false} CountNearMinesLayout(s1: seq<Tile>, s2: seq<Tile>, w: nat, t: nat, ds: seq<Dir>)
    requires w + 1 < |s1| && t < |s1| && SameLayout(s1, s2)
    ensures CountNearMines(s1, w, t, ds) == CountNearMines(s2, w, t, ds)
    decreases |ds|
  {
    if ds != [] {
      CountNearMinesLayout(s1, s2, w, t, ds[1..]);
    }
  }

  /** The indices of the mine tiles. */
  ghost function MineSet(s: seq<Tile>): set<nat> {
    set k: nat | k < |s| && s[k].isMine
  }

  /** Every tile that is not a mine holds the count `getAdjacentMines` gives it. */
  ghost predicate CountsCorrect(s: seq<Tile>, w: nat)
    requires w + 1 < |s|
  {
    forall x :: 0 <= x < |s| && !s[x].isMine ==> s[x].nearMines == AdjacentMines(s, w, x)
  }

  /** Mines and counts survive any change that keeps positions, mine flags and
      counts (covering, flagging, crossing). */
  lemma CountsKept(s1: seq<Tile>, s2: seq<Tile>, w: nat)
    requires w + 1 < |s1| && SameLayout(s1, s2)
    requires forall k :: 0 <= k < |s1| ==> s1[k].nearMines == s2[k].nearMines
    requires CountsCorrect(s1, w)
    ensures CountsCorrect(s2, w) && MineSet(s2) == MineSet(s1)
  {
    forall x | 0 <= x < |s2| && !s2[x].isMine ensures s2[x].nearMines == AdjacentMines(s2, w, x) {
      CountNearMinesLayout(s1, s2, w, x, Dirs);
    }
  }

  /** On a board two columns wide the offsets "left" and "bottom-right"
      coincide, as do "right" and "top-left", so a neighbour can be counted
      twice: with a single mine at (1, 0), tile (0, 0) counts 2 while
      its block holds one mine. */
  lemma TwoColumnsCountTwice()
    ensures AdjacentMines(TwoByTwo(), 2, 0) == 2
    ensures NeighbourMines(TwoByTwo(), 2, 0) == {1}
  {
    TwoByTwoCount();
    TwoByTwoNeighbours();
  }

  lemma TwoByTwoCount()
    ensures AdjacentMines(TwoByTwo(), 2, 0) == 2
  {
    var s := TwoByTwo();
    assert CountNearMines(s, 2, 0, Dirs[8..]) == 0;
    assert CountNearMines(s, 2, 0, Dirs[7..]) == 0;
    assert CountNearMines(s, 2, 0, Dirs[6..]) == 1;
    assert CountNearMines(s, 2, 0, Dirs[5..]) == 1;
    assert CountNearMines(s, 2, 0, Dirs[4..]) == 1;
    assert CountNearMines(s, 2, 0, Dirs[3..]) == 2;
    assert CountNearMines(s, 2, 0, Dirs[2..]) == 2;
    assert CountNearMines(s, 2, 0, Dirs[1..]) == 2;
    assert CountNearMines(s, 2, 0, Dirs[0..]) == 2;
    assert Dirs[0..] == Dirs;
  }

  lemma TwoByTwoNeighbours()
    ensures NeighbourMines(TwoByTwo(), 2, 0) == {1}
  {
    var s := TwoByTwo();
    forall u | u in NeighbourMines(s, 2, 0) ensures u == 1 {
      assert s[u].isMine;
    }
    assert PosOf(2, 1) == (1, 0);
    assert 1 in NeighbourMines(s, 2, 0);
  }

  /** A 2-by-2 board with its only mine at (1, 0). */
  function TwoByTwo(): seq<Tile> {
    [NewTile((0, 0)), NewTile((1, 0)).(isMine := true), NewTile((0, 1)), NewTile((1, 1))]
  }

  /** On a board one column wide, tile w + 1 is two rows up, so the nearness
      bound is squared distance 4; and the offsets "top" and "right" coincide,
      as do "bottom" and "left". With mines at (0, 1) and (0, 2), tile (0, 0)
      counts the first mine twice and the second, two rows away, once: 3,
      while its block holds one mine. */
  lemma OneColumnCountsFar()
    ensures AdjacentMines(OneByThree(), 1, 0) == 3
    ensures NeighbourMines(OneByThree(), 1, 0) == {1}
  {
    OneByThreeCount();
    OneByThreeNeighbours();
  }

  lemma OneByThreeCount()
    ensures AdjacentMines(OneByThree(), 1, 0) == 3
  {
    OneByThreeBottom();
  }

  /** "Bottom" falls off the board. */
  lemma OneByThreeBottom()
    ensures CountNearMines(OneByThree(), 1, 0, Dirs[1..]) == 2
  {
    OneByThreeSides();
  }

  /** "Left" falls off the board and "right" reaches the mine one row up. */
  lemma OneByThreeSides()
    ensures CountNearMines(OneByThree(), 1, 0, Dirs[2..]) == 2
  {
    var s := OneByThree();
    OneByThreeDiagonals();
    assert CountNearMines(s, 1, 0, Dirs[3..]) == 2;
  }

  /** Of the four diagonal offsets, only "top-right" (two rows up on this
      board) reaches a mine within the bound. */
  lemma OneByThreeDiagonals()
    ensures CountNearMines(OneByThree(), 1, 0, Dirs[4..]) == 1
  {
    var s := OneByThree();
    assert CountNearMines(s, 1, 0, Dirs[8..]) == 0;
    assert CountNearMines(s, 1, 0, Dirs[7..]) == 1;
    assert CountNearMines(s, 1, 0, Dirs[6..]) == 1;
    assert CountNearMines(s, 1, 0, Dirs[5..]) == 1;
  }

  lemma OneByThreeNeighbours()
    ensures NeighbourMines(OneByThree(), 1, 0) == {1}
  {
    OneByThreeAdjacent();
    assert 1 in NeighbourMines(OneByThree(), 1, 0);
  }

  lemma OneByThreeAdjacent()
    ensures Adjacent(1, 0, 1) && !Adjacent(1, 0, 2)
  {
    assert PosOf(1, 0) == (0, 0) && PosOf(1, 1) == (0, 1) && PosOf(1, 2) == (0, 2);
  }

  /** A 1-by-3 board with mines at (0, 1) and (0, 2). */
  function OneByThree(): seq<Tile> {
    [NewTile((0, 0)), NewTile((0, 1)).(isMine := true), NewTile((0, 2)).(isMine := true)]
  }
}
