/** The game-state engine: the tile list with its covered-tile counter, the
    phase of the round and the tile that lost it, and the commands a mouse
    click turns into. */
module Engine {
  import opened Grid
  import opened Tiles
  import opened Flood

  /** The phases of a round. */
  datatype GameState = Initial | Playing | Win | Lose

  datatype Option<T> = None | Some(value: T)

  function Min(a: int, b: int): int {
    if a <= b then a else b
  }

  /** How far a phase is along the round; Win and Lose are both final. */
  function Stage(g: GameState): nat {
    match g
    case Initial => 0
    case Playing => 1
    case Win => 2
    case Lose => 2
  }

  /** A phase change a single click may make: stay, or move strictly forward
      (Initial to Playing or Win, Playing to Win or Lose); never out of Win or
      Lose and never back. */
  predicate Advances(from: GameState, to: GameState) {
    from == to || Stage(from) < Stage(to)
  }

  /** The state after mine placement: `min(mineCount, cells - 1)` mines and a
      correct count on every other tile. */
  ghost predicate MinesPlaced(s: seq<Tile>, w: nat, mineCount: nat)
    requires w + 1 < |s|
  {
    |MineSet(s)| == Min(mineCount, |s| - 1) && CountsCorrect(s, w)
  }

  /** Row y of an h-row board ends within the board. */
  lemma RowFits(w: nat, h: nat, y: nat)
    requires y < h
    ensures w * (y + 1) == w * y + w <= w * h
  {
    if w > 0 {
      MulMonotone(w, h - y);
      assert w * (h - y) == w * h - w * y;
    }
  }

  /** How `loseGame` shows a tile at the end of a lost round: a mine that was
      not flagged is uncovered, a flag on a tile that is not a mine is taken
      off and the tile crossed out, and nothing else changes. */
  function RevealOnLoss(t: Tile): (r: Tile)
    ensures r.position == t.position && r.isMine == t.isMine && r.nearMines == t.nearMines
    ensures r.isCovered <==> t.isCovered && (!t.isMine || t.isFlagged)
    ensures r.isFlagged <==> t.isFlagged && t.isMine
    ensures r.isCrossed <==> t.isCrossed || (t.isFlagged && !t.isMine)
    ensures r.isMine ==> !r.isCovered || r.isFlagged
  {
    if t.isMine && !t.isFlagged then t.(isCovered := false)
    else if !t.isMine && t.isFlagged then t.(isFlagged := false, isCrossed := true)
    else t
  }

  /** No index occurs twice. */
  predicate Distinct(s: seq<nat>) {
    forall p, q | 0 <= p < q < |s| :: s[p] != s[q]
  }

  /** `availableTiles.splice(index, 1)` on a list without repeats leaves a list
      without repeats that holds everything else and not the removed index. */
  lemma SpliceDistinct(s: seq<nat>, i: nat)
    requires i < |s| && Distinct(s)
    ensures var r := s[..i] + s[i + 1..];
      && Distinct(r)
      && forall x :: x in r <==> x in s && x != s[i]
  {
    var r := s[..i] + s[i + 1..];
    assert forall p | 0 <= p < |r| :: r[p] == if p < i then s[p] else s[p + 1];
  }

  /** The first loop of `generateMines`: the indices of the board other than
      `ignore`, in increasing order. */
  method AvailableTiles(cells: nat, ignore: int) returns (availableTiles: seq<nat>)
    ensures Distinct(availableTiles)
    ensures forall x: int :: x in availableTiles <==> 0 <= x < cells && x != ignore
    ensures |availableTiles| == cells - (if 0 <= ignore < cells then 1 else 0)
  {
    availableTiles := [];
    var i := 0;
    while i < cells
      invariant 0 <= i <= cells
      invariant forall p, q | 0 <= p < q < |availableTiles| :: availableTiles[p] < availableTiles[q]
      invariant forall p | 0 <= p < |availableTiles| :: availableTiles[p] < i
      invariant forall x: int :: x in availableTiles <==> 0 <= x < i && x != ignore
      invariant |availableTiles| == i - (if 0 <= ignore < i then 1 else 0)
    {
      if i != ignore {
        availableTiles := availableTiles + [i];
      }
      i := i + 1;
    }
  }

  /** A board as set-up leaves it is laid out row by row and has no mines. */
  lemma FreshBoard(s: seq<Tile>, w: nat)
    requires w > 0 && forall k | 0 <= k < |s| :: s[k] == NewTile(PosOf(w, k))
    ensures RowMajor(s, w) && MineSet(s) == {}
  {
    assert forall k | 0 <= k < |s| :: !s[k].isMine;
  }

  class Game {
    const width: nat
    const height: nat
    const mineCount: nat
    /** `tile.list`: the tiles in row-major order. */
    var tiles: seq<Tile>
    var coveredTiles: int
    var gameState: GameState
    /** The index of the mine whose reveal lost the round. */
    var failedTile: Option<nat>
    /** The tiles as mine placement left them (as set-up left them before). */
    ghost var layout: seq<Tile>

    /** The board's dimensions and the tile `isNearTile` measures against. */
    ghost predicate Shape()
      reads this
    {
      0 < width && 0 < height && |tiles| == width * height && width + 1 < |tiles|
    }

    /** The class invariant. The mine layout and the counts are fixed once
        mines are placed; `layout` keeps them so that revealing tiles, which
        leaves them alone, need not re-establish them. */
    ghost predicate Valid()
      reads this
    {
      && Shape()
      && |layout| == |tiles|
      && RowMajor(layout, width)
      && SameBoard(layout, tiles)
      && (gameState == Initial ==>
            && coveredTiles == |tiles|
            && failedTile == None
            && forall k | 0 <= k < |tiles| :: tiles[k] == NewTile(PosOf(width, k)))
      && (gameState != Initial ==> MinesPlaced(layout, width, mineCount))
      && (gameState != Lose ==>
            && failedTile == None
            && coveredTiles <= CountCovered(tiles)
            && NoneCrossed(tiles))
      && (gameState == Win ==> coveredTiles <= mineCount)
      && (gameState == Lose ==> failedTile.Some? && failedTile.value < |tiles|)
    }

    /** Board set-up: one tile per cell, pushed row by row, every tile
        covered, and the round in its initial phase. */
    constructor (w: nat, h: nat, mines: nat)
      requires 0 < w && 0 < h && w + 1 < w * h
      ensures Valid()
      ensures width == w && height == h && mineCount == mines
      ensures gameState == Initial && coveredTiles == w * h && |tiles| == w * h
    {
      var list: seq<Tile> := [];
      var y := 0;
      while y < h
        invariant 0 <= y <= h && |list| == w * y
        invariant forall k | 0 <= k < |list| :: list[k] == NewTile(PosOf(w, k))
      {
        RowFits(w, h, y);
        var x := 0;
        while x < w
          invariant 0 <= x <= w && |list| == w * y + x
          invariant forall k | 0 <= k < |list| :: list[k] == NewTile(PosOf(w, k))
        {
          PositionIndexRoundTrip(w, x, y);
          list := list + [NewTile((x, y))];
          x := x + 1;
        }
        y := y + 1;
      }
      width, height, mineCount := w, h, mines;
      tiles, layout := list, list;
      coveredTiles := w * h;
      gameState := Initial;
      failedTile := None;
      CountCoveredAll(list);
    }

    /** `tile.generateMines(count, ignore)`: caps `count` at all cells but one,
        lists every index other than `ignore`, marks `count` of them as mines
        and gives every other tile its neighbour count. `placed` names the
        indices that became mines. */
    method GenerateMines(count: nat, ignore: int) returns (ghost placed: set<nat>)
      requires Shape() && RowMajor(tiles, width)
      modifies this`tiles
      ensures Shape() && RowMajor(tiles, width) && CountsCorrect(tiles, width)
      ensures |placed| == Min(count, |tiles| - 1)
      ensures ignore !in placed && forall x | x in placed :: x < |tiles|
      ensures forall x | 0 <= x < |tiles| ::
        && tiles[x].isMine == (old(tiles[x].isMine) || x in placed)
        && tiles[x].position == old(tiles[x].position)
        && tiles[x].isCovered == old(tiles[x].isCovered)
        && tiles[x].isFlagged == old(tiles[x].isFlagged)
        && tiles[x].isCrossed == old(tiles[x].isCrossed)
        && (tiles[x].isMine ==> tiles[x].nearMines == old(tiles[x].nearMines))
      ensures width >= 3 ==> forall x | 0 <= x < |tiles| && !tiles[x].isMine ::
        tiles[x].nearMines == |NeighbourMines(tiles, width, x)|
    {
      var cells := width * height;
      var n := count;
      if n > cells - 1 {
        n := cells - 1;
      }
      var availableTiles := AvailableTiles(cells, ignore);
      placed := PlaceMines(availableTiles, n);
      SetNearMines();
      if width >= 3 {
        forall y | 0 <= y < cells ensures AdjacentMines(tiles, width, y) == |NeighbourMines(tiles, width, y)| {
          AdjacentMinesCorrect(tiles, width, y);
        }
      }
    }

    /** The second loop of `generateMines`: `n` times, an index anywhere in
        the list (the choice `Math.random` makes) has its tile made a mine and
        is spliced out of the list. */
    method PlaceMines(availableTiles: seq<nat>, n: nat) returns (ghost placed: set<nat>)
      requires n <= |availableTiles| && Distinct(availableTiles)
      requires forall x | x in availableTiles :: x < |tiles|
      modifies this`tiles
      ensures |tiles| == old(|tiles|)
      ensures |placed| == n && forall x | x in placed :: x in availableTiles
      ensures forall x | 0 <= x < |tiles| ::
        tiles[x] == old(tiles[x]).(isMine := old(tiles[x].isMine) || x in placed)
    {
      var available := availableTiles;
      placed := {};
      var c := 0;
      while c < n
        invariant 0 <= c <= n && |placed| == c && |available| == |availableTiles| - c
        invariant |tiles| == old(|tiles|)
        invariant Distinct(available)
        invariant forall x :: x in available <==> x in availableTiles && x !in placed
        invariant forall x | x in placed :: x in availableTiles
        invariant forall x | 0 <= x < |tiles| :: tiles[x] == old(tiles[x]).(isMine := old(tiles[x].isMine) || x in placed)
        modifies this`tiles
      {
        var index :| 0 <= index < |available|;
        var chosen := available[index];
        assert chosen in available;
        tiles := tiles[chosen := tiles[chosen].(isMine := true)];
        placed := placed + {chosen};
        SpliceDistinct(available, index);
        available := available[..index] + available[index + 1..];
        c := c + 1;
      }
    }

    /** The last loop of `generateMines`: every tile that is not a mine gets the
        count `getAdjacentMines` computes. */
    method SetNearMines()
      requires Shape() && RowMajor(tiles, width)
      modifies this`tiles
      ensures Shape() && CountsCorrect(tiles, width) && SameLayout(old(tiles), tiles)
      ensures forall x | 0 <= x < |tiles| ::
        tiles[x] == if old(tiles[x].isMine) then old(tiles[x]) else old(tiles[x]).(nearMines := tiles[x].nearMines)
    {
      ghost var mined := tiles;
      var x := 0;
      while x < |tiles|
        invariant 0 <= x <= |tiles|
        invariant SameLayout(mined, tiles)
        invariant forall y | 0 <= y < |tiles| ::
          tiles[y] == if y < x && !mined[y].isMine then mined[y].(nearMines := AdjacentMines(mined, width, y)) else mined[y]
        modifies this`tiles
      {
        if !tiles[x].isMine {
          CountNearMinesLayout(mined, tiles, width, x, Dirs);
          tiles := tiles[x := tiles[x].(nearMines := AdjacentMines(tiles, width, x))];
        }
        x := x + 1;
      }
      forall y | 0 <= y < |tiles| && !tiles[y].isMine
        ensures tiles[y].nearMines == AdjacentMines(tiles, width, y)
      {
        CountNearMinesLayout(mined, tiles, width, y, Dirs);
      }
    }

    /** `beginGame(targetTile)`: the round starts and mines are placed
        everywhere except on the tile about to be revealed. */
    method BeginGame(targetTile: nat)
      requires Valid() && gameState == Initial && targetTile < |tiles|
      modifies this`tiles, this`gameState, this`layout
      ensures Valid() && gameState == Playing && layout == tiles
      ensures !tiles[targetTile].isMine
      ensures |MineSet(tiles)| == Min(mineCount, |tiles| - 1)
      ensures forall k | 0 <= k < |tiles| ::
        && tiles[k].isCovered && !tiles[k].isFlagged && !tiles[k].isCrossed
        && (tiles[k].isMine ==> tiles[k].nearMines == 0)
      ensures width >= 3 ==> forall k | 0 <= k < |tiles| && !tiles[k].isMine ::
        tiles[k].nearMines == |NeighbourMines(tiles, width, k)|
    {
      FreshBoard(tiles, width);
      gameState := Playing;
      ghost var placed := GenerateMines(mineCount, targetTile);
      layout := tiles;
      assert MineSet(layout) == placed;
      assert forall k | 0 <= k < |tiles| :: tiles[k].isCovered && !tiles[k].isFlagged && !tiles[k].isCrossed;
      CountCoveredAll(tiles);
    }

    /** `winGame()`. */
    method WinGame()
      requires gameState == Playing || gameState == Win
      modifies this`gameState
      ensures gameState == Win
    {
      gameState := Win;
    }

    /** `uncoverTile(targetTile)`: removes the tile's cover and counts one
        covered tile less (even when it was already uncovered); if the tile
        starts a chain reveal, reveals its eligible neighbours recursively;
        finally declares the round won once no more tiles are covered than
        there are mines. */
    method UncoverTile(target: nat)
      requires Shape() && (gameState == Playing || gameState == Win) && target < |tiles|
      modifies this`tiles, this`coveredTiles, this`gameState
      ensures Shape() && (gameState == Playing || gameState == Win)
      ensures UncoversOnly(old(tiles), tiles)
      ensures !tiles[target].isCovered && ClosedAt(tiles, width, target)
      ensures Progress(Uncover(old(tiles), target), tiles, width)
      ensures !Spreads(old(tiles), target) ==> tiles == Uncover(old(tiles), target)
      ensures FloodResult(old(tiles), tiles, width, target)
      ensures coveredTiles - CountCovered(tiles) ==
        old(coveredTiles - CountCovered(tiles)) - (if old(tiles[target].isCovered) then 0 else 1)
      ensures CountCovered(tiles) <= old(CountCovered(tiles))
      ensures old(tiles[target].isCovered) ==> old(coveredTiles) - coveredTiles == |Flipped(old(tiles), tiles)|
      ensures coveredTiles < old(coveredTiles)
      ensures gameState == if coveredTiles <= mineCount then Win else old(gameState)
      decreases CountCovered(tiles) + (if tiles[target].isCovered then 0 else 1), 0
    {
      ghost var before := tiles;
      tiles := tiles[target := tiles[target].(isCovered := false)];
      coveredTiles := coveredTiles - 1;
      assert tiles == Uncover(before, target);
      CountCoveredUncover(before, target);

      ghost var mid := tiles;
      if tiles[target].nearMines == 0 && !tiles[target].isMine {
        UncoverAdjacentSafeTiles(target);
      } else {
        ProgressRefl(mid, width);
      }
      UncoverComplete(before, tiles, width, target);

      if coveredTiles <= mineCount {
        WinGame();
      }
    }

    /** `uncoverAdjecentSafeTiles(t)`: tries the eight neighbours of an
        uncovered tile that starts a chain reveal, in the order top, bottom,
        left, right, bottom-left, bottom-right, top-left, top-right. */
    method UncoverAdjacentSafeTiles(t: nat)
      requires Shape() && (gameState == Playing || gameState == Win) && t < |tiles|
      requires !tiles[t].isCovered && Spreads(tiles, t)
      modifies this`tiles, this`coveredTiles, this`gameState
      ensures Shape() && (gameState == Playing || gameState == Win)
      ensures Progress(old(tiles), tiles, width) && Sound(old(tiles), tiles, width, t)
      ensures ClosedAt(tiles, width, t)
      ensures coveredTiles - CountCovered(tiles) == old(coveredTiles - CountCovered(tiles))
      ensures CountCovered(tiles) <= old(CountCovered(tiles))
      ensures gameState == if old(gameState) == Win || (coveredTiles < old(coveredTiles) && coveredTiles <= mineCount) then Win else old(gameState)
      decreases CountCovered(tiles), 2
    {
      ghost var start := tiles;
      var n := 0;
      while n < |Dirs|
        invariant 0 <= n <= |Dirs|
        invariant Shape() && (gameState == Playing || gameState == Win)
        invariant Progress(start, tiles, width) && TriedUpTo(tiles, width, t, n)
        invariant Sound(start, tiles, width, t)
        invariant coveredTiles - CountCovered(tiles) == old(coveredTiles - CountCovered(tiles))
        invariant CountCovered(tiles) <= old(CountCovered(tiles))
        invariant gameState == if old(gameState) == Win || (coveredTiles < old(coveredTiles) && coveredTiles <= mineCount) then Win else old(gameState)
      {
        IterateForAdjacentSafeTile(t, t + Offset(width, Dirs[n]), start, n);
        n := n + 1;
      }
    }

    /** `iterateForAdjacentSafeTile(t, target)`: reveals the tile at index j
        when it exists, is covered, is near t and is not a mine. Whether it is
        flagged is not looked at. `start` is the state the surrounding chain
        reveal began in, and j is t's n-th offset target. */
    method IterateForAdjacentSafeTile(t: nat, j: int, ghost start: seq<Tile>, ghost n: nat)
      requires Shape() && (gameState == Playing || gameState == Win) && t < |tiles|
      requires |start| == |tiles| && Progress(start, tiles, width)
      requires Spreads(start, t) && Sound(start, tiles, width, t)
      requires n < |Dirs| && j == t + Offset(width, Dirs[n]) && TriedUpTo(tiles, width, t, n)
      modifies this`tiles, this`coveredTiles, this`gameState
      ensures Shape() && (gameState == Playing || gameState == Win)
      ensures Progress(start, tiles, width) && Sound(start, tiles, width, t)
      ensures TriedUpTo(tiles, width, t, n + 1)
      ensures !Eligible(old(tiles), width, t, j) ==>
        tiles == old(tiles) && coveredTiles == old(coveredTiles) && gameState == old(gameState)
      ensures coveredTiles - CountCovered(tiles) == old(coveredTiles - CountCovered(tiles))
      ensures CountCovered(tiles) <= old(CountCovered(tiles))
      ensures Eligible(old(tiles), width, t, j) ==> FloodResult(old(tiles), tiles, width, j)
      ensures gameState == if old(gameState) == Win || (coveredTiles < old(coveredTiles) && coveredTiles <= mineCount) then Win else old(gameState)
      decreases CountCovered(tiles), 1
    {
      ghost var before := tiles;
      if 0 <= j < |tiles| {
        if tiles[j].isCovered && IsNearTile(tiles, width, t, j, false) {
          if !tiles[j].isMine {
            UncoverTile(j);
            ProgressThroughUncover(before, tiles, width, j);
            ProgressTrans(start, before, tiles, width);
            FloodSound(before, tiles, width, j);
            SoundStep(start, before, tiles, width, t, j, n);
          }
        }
      }
      TriedStep(before, tiles, width, t, n);
    }

    /** `loseGame(targetTile)`: the round is lost on `target` and every tile
        takes its end-of-round look. */
    method LoseGame(target: nat)
      requires Valid() && (gameState == Playing || gameState == Win) && target < |tiles|
      modifies this`tiles, this`gameState, this`failedTile
      ensures Valid() && gameState == Lose && failedTile == Some(target)
      ensures forall k | 0 <= k < |tiles| :: tiles[k] == RevealOnLoss(old(tiles[k]))
    {
      gameState := Lose;
      failedTile := Some(target);
      var k := 0;
      while k < |tiles|
        invariant 0 <= k <= |tiles| == old(|tiles|)
        invariant forall m | 0 <= m < k :: tiles[m] == RevealOnLoss(old(tiles[m]))
        invariant forall m | k <= m < |tiles| :: tiles[m] == old(tiles[m])
        modifies this`tiles
      {
        var t := tiles[k];
        if t.isMine && !t.isFlagged {
          t := t.(isCovered := false);
        }
        if !t.isMine && t.isFlagged {
          t := t.(isFlagged := false, isCrossed := true);
        }
        tiles := tiles[k := t];
        k := k + 1;
      }
    }

    /** A left click on tile `arrayClick` (-1 when the pointer is off the
        board). It is ignored off the board and on a flagged tile. Otherwise
        the first click of a round places the mines around the clicked tile;
        then, while the round is being played, the tile is uncovered and, if
        it is a mine, the round is lost on it. */
    method LeftClick(arrayClick: int)
      requires Valid() && -1 <= arrayClick < |tiles|
      modifies this`tiles, this`coveredTiles, this`gameState, this`failedTile, this`layout
      ensures Valid() && Advances(old(gameState), gameState) && coveredTiles <= old(coveredTiles)
      ensures arrayClick == -1 || old(tiles[arrayClick].isFlagged) || old(gameState) == Win || old(gameState) == Lose ==>
        tiles == old(tiles) && gameState == old(gameState) && coveredTiles == old(coveredTiles) && failedTile == old(failedTile)
      ensures arrayClick != -1 && !old(tiles[arrayClick].isFlagged) && (old(gameState) == Initial || old(gameState) == Playing) ==>
        && !tiles[arrayClick].isCovered
        && (tiles[arrayClick].isMine <==> gameState == Lose)
        && (gameState == Lose ==> failedTile == Some(arrayClick))
        && (gameState != Lose ==> gameState == if coveredTiles <= mineCount then Win else Playing)
        && (old(gameState) == Initial ==> !tiles[arrayClick].isMine)
      ensures arrayClick != -1 && !old(tiles[arrayClick].isFlagged) && (old(gameState) == Initial || old(gameState) == Playing) ==>
        var base := if old(gameState) == Initial then layout else old(tiles);
        && (forall i | 0 <= i < |tiles| ::
              var flooded := if Reach(base, width, arrayClick, i) then base[i].(isCovered := false) else base[i];
              tiles[i] == if gameState == Lose then RevealOnLoss(flooded) else flooded)
        && coveredTiles == old(coveredTiles) - |ReachedCovered(base, width, arrayClick)| - (if base[arrayClick].isCovered then 0 else 1)
      ensures arrayClick != -1 && !old(tiles[arrayClick].isFlagged) && old(gameState) == Initial ==>
        forall k | 0 <= k < |layout| ::
          && layout[k].isCovered && !layout[k].isFlagged && !layout[k].isCrossed
          && (layout[k].isMine ==> layout[k].nearMines == 0)
    {
      if arrayClick != -1 && !tiles[arrayClick].isFlagged {
        if gameState == Initial {
          BeginGame(arrayClick);
        }
        if gameState == Playing {
          RevealClicked(arrayClick);
        }
      }
    }

    /** The playing branch of a left click: the clicked tile is uncovered,
        with its chain reveal, and the round is lost on it if it is a mine. */
    method RevealClicked(target: nat)
      requires Valid() && gameState == Playing && target < |tiles|
      modifies this`tiles, this`coveredTiles, this`gameState, this`failedTile
      ensures Valid() && |tiles| == old(|tiles|)
      ensures coveredTiles == old(coveredTiles) - |ReachedCovered(old(tiles), width, target)| - (if old(tiles[target].isCovered) then 0 else 1)
      ensures !tiles[target].isCovered
      ensures tiles[target].isMine <==> gameState == Lose
      ensures gameState == Lose ==> failedTile == Some(target)
      ensures gameState != Lose ==> gameState == if coveredTiles <= mineCount then Win else Playing
      ensures forall i | 0 <= i < |tiles| ::
        var flooded := if Reach(old(tiles), width, target, i) then old(tiles[i]).(isCovered := false) else old(tiles[i]);
        tiles[i] == if gameState == Lose then RevealOnLoss(flooded) else flooded
    {
      ghost var before := tiles;
      UncoverTile(target);
      FloodCount(before, tiles, width, target);
      UncoversKeepBoard(layout, before, tiles);
      if tiles[target].isMine {
        LoseGame(target);
      }
    }

    /** A right click on tile `arrayClick` toggles the flag of a covered tile
        while the round is being played. Off the board during play the tile
        lookup is undefined and reading its cover throws, which `thrown`
        reports; the handler then stops without changing anything. */
    method RightClick(arrayClick: int) returns (thrown: bool)
      requires Valid() && -1 <= arrayClick < |tiles|
      modifies this`tiles
      ensures Valid()
      ensures thrown <==> arrayClick == -1 && gameState == Playing
      ensures tiles == if gameState == Playing && arrayClick != -1 && old(tiles[arrayClick].isCovered)
        then old(tiles)[arrayClick := old(tiles[arrayClick]).(isFlagged := !old(tiles[arrayClick].isFlagged))]
        else old(tiles)
    {
      thrown := false;
      if gameState == Playing {
        if arrayClick == -1 {
          thrown := true;
        } else if tiles[arrayClick].isCovered {
          CountCoveredKeep(tiles, arrayClick, tiles[arrayClick].(isFlagged := !tiles[arrayClick].isFlagged));
          tiles := tiles[arrayClick := tiles[arrayClick].(isFlagged := !tiles[arrayClick].isFlagged)];
        }
      }
    }
  }
}
