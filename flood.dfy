/** What the chain reveal of `uncoverTile` achieves, stated over the tile list
    before and after a step: which tiles may change, which must end up
    uncovered, and how the number of covered tiles moves. */
module Flood {
  import opened Grid
  import opened Tiles

  /** The number of covered tiles: what `coveredTiles` is meant to track. */
  ghost function CountCovered(s: seq<Tile>): (n: nat)
    ensures n <= |s|
  {
    if s == [] then 0
    else CountCovered(s[..|s| - 1]) + (if s[|s| - 1].isCovered then 1 else 0)
  }

  /** The tiles covered in s1 and uncovered in s2. */
  ghost function Flipped(s1: seq<Tile>, s2: seq<Tile>): set<nat> {
    set k: nat | k < |s1| && k < |s2| && s1[k].isCovered && !s2[k].isCovered
  }

  /** Tile i with its cover removed, as `targetTile.isCovered = false` does. */
  function Uncover(s: seq<Tile>, i: nat): seq<Tile>
    requires i < |s|
  {
    s[i := s[i].(isCovered := false)]
  }

  /** From s1 to s2 some tiles lost their cover and nothing else changed; in
      particular no tile went from uncovered back to covered. */
  ghost predicate UncoversOnly(s1: seq<Tile>, s2: seq<Tile>) {
    && |s1| == |s2|
    && forall k :: 0 <= k < |s1| ==> s2[k] == s1[k] || s2[k] == s1[k].(isCovered := false)
  }

  /** The guard of `iterateForAdjacentSafeTile`: the target j exists, is
      covered, is near tile z and is not a mine. Flags are not consulted. */
  predicate Eligible(s: seq<Tile>, w: nat, z: nat, j: int)
    requires w + 1 < |s| && z < |s|
  {
    0 <= j < |s| && s[j].isCovered && IsNearTile(s, w, z, j, false) && !s[j].isMine
  }

  /** Tile z starts a chain reveal: no mines near it and not a mine itself. */
  predicate Spreads(s: seq<Tile>, z: nat)
    requires z < |s|
  {
    s[z].nearMines == 0 && !s[z].isMine
  }

  /** None of the first n offset targets of z (in the order of `Dirs`) is
      eligible: the chain reveal around z has dealt with them. */
  ghost predicate TriedUpTo(s: seq<Tile>, w: nat, z: nat, n: nat)
    requires w + 1 < |s| && z < |s| && n <= |Dirs|
  {
    forall p | 0 <= p < n :: !Eligible(s, w, z, z + Offset(w, Dirs[p]))
  }

  /** If z is uncovered and starts a chain reveal, none of its eight offset
      targets is still eligible: the reveal around z is complete. */
  ghost predicate ClosedAt(s: seq<Tile>, w: nat, z: nat)
    requires w + 1 < |s| && z < |s|
  {
    !s[z].isCovered && Spreads(s, z) ==> TriedUpTo(s, w, z, |Dirs|)
  }

  /** Tile k is covered in s1 and uncovered in s2. */
  predicate Revealed(s1: seq<Tile>, s2: seq<Tile>, k: int) {
    0 <= k < |s1| && k < |s2| && s1[k].isCovered && !s2[k].isCovered
  }

  /** From s1 to s2 only covers were removed, each from a non-mine tile whose
      own chain reveal is complete in s2. */
  ghost predicate Progress(s1: seq<Tile>, s2: seq<Tile>, w: nat)
    requires w + 1 < |s1|
  {
    && UncoversOnly(s1, s2)
    && forall k {:trigger Revealed(s1, s2, k)} :: Revealed(s1, s2, k) ==> !s1[k].isMine && ClosedAt(s2, w, k)
  }

  /** One step of the chain reveal through board s: tile y starts a chain and
      j, one of y's eight offset targets, passes the guard of
      `iterateForAdjacentSafeTile`. */
  ghost predicate Step(s: seq<Tile>, w: nat, y: nat, j: nat)
    requires w + 1 < |s|
  {
    && y < |s| && Spreads(s, y) && Eligible(s, w, y, j)
    && exists q | 0 <= q < |Dirs| :: j == y + Offset(w, Dirs[q])
  }

  /** A chain of steps through board s. */
  ghost predicate IsPath(s: seq<Tile>, w: nat, p: seq<nat>)
    requires w + 1 < |s|
  {
    |p| > 0 && forall i | 0 <= i < |p| - 1 :: Step(s, w, p[i], p[i + 1])
  }

  /** Reference definition of the chain reveal started at t on board s: the
      tiles at the end of a chain of steps from t (t itself included). */
  ghost predicate Reach(s: seq<Tile>, w: nat, t: nat, k: nat)
    requires w + 1 < |s|
  {
    exists p :: IsPath(s, w, p) && p[0] == t && p[|p| - 1] == k
  }

  /** Every tile that lost its cover from s0 to s is reached from t in s0. */
  ghost predicate Sound(s0: seq<Tile>, s: seq<Tile>, w: nat, t: nat)
    requires w + 1 < |s0|
  {
    forall k: nat {:trigger Revealed(s0, s, k)} | Revealed(s0, s, k) :: Reach(s0, w, t, k)
  }

  /** s is s0 with the cover removed from exactly the tiles reached from t. */
  ghost predicate FloodResult(s0: seq<Tile>, s: seq<Tile>, w: nat, t: nat)
    requires w + 1 < |s0|
  {
    && |s| == |s0|
    && forall k | 0 <= k < |s0| :: s[k] == if Reach(s0, w, t, k) then s0[k].(isCovered := false) else s0[k]
  }

  /** The covered tiles of s that a chain reveal from t uncovers. */
  ghost function ReachedCovered(s: seq<Tile>, w: nat, t: nat): set<nat>
    requires w + 1 < |s|
  {
    set k: nat | k < |s| && s[k].isCovered && Reach(s, w, t, k)
  }

  /** The covered count falls by exactly the number of tiles that lost their
      cover, whenever no tile regained one. */
  lemma {:induction false} CountCoveredDrop(s1: seq<Tile>, s2: seq<Tile>)
    requires |s1| == |s2|
    requires forall k :: 0 <= k < |s1| && !s1[k].isCovered ==> !s2[k].isCovered
    ensures CountCovered(s1) == CountCovered(s2) + |Flipped(s1, s2)|
    decreases |s1|
  {
    if s1 != [] {
      var n := |s1| - 1;
      CountCoveredDrop(s1[..n], s2[..n]);
      var f := Flipped(s1[..n], s2[..n]);
      assert Flipped(s1, s2) == f + (if s1[n].isCovered && !s2[n].isCovered then {n} else {});
    }
  }

  /** Uncovering one tile lowers the covered count by one, or by nothing when
      the tile was already uncovered. */
  lemma CountCoveredUncover(s: seq<Tile>, i: nat)
    requires i < |s|
    ensures CountCovered(Uncover(s, i)) == CountCovered(s) - (if s[i].isCovered then 1 else 0)
  {
    CountCoveredDrop(s, Uncover(s, i));
    assert Flipped(s, Uncover(s, i)) == if s[i].isCovered then {i} else {};
  }

  /** A board whose tiles are all covered has all of them counted. */
  lemma {:induction false} CountCoveredAll(s: seq<Tile>)
    requires forall k :: 0 <= k < |s| ==> s[k].isCovered
    ensures CountCovered(s) == |s|
    decreases |s|
  {
    if s != [] {
      CountCoveredAll(s[..|s| - 1]);
    }
  }

  /** On a row-major board at least two columns wide, a target is eligible for
      the chain reveal exactly when it is a covered, non-mine tile in z's 3-by-3
      block other than z; whether it is flagged plays no part. */
  lemma EligibleMeaning(s: seq<Tile>, w: nat, z: nat, j: int)
    requires w >= 2 && w + 1 < |s| && z < |s| && RowMajor(s, w)
    ensures Eligible(s, w, z, j) <==>
      0 <= j < |s| && j != z && Adjacent(w, z, j) && s[j].isCovered && !s[j].isMine
  {
    IsNearTileMeaning(s, w, z, j, false);
  }

  /** Removing covers never makes a target eligible: one that is not eligible
      stays so. */
  lemma IneligibleStays(s1: seq<Tile>, s2: seq<Tile>, w: nat, z: nat, j: int)
    requires w + 1 < |s1| && z < |s1| && UncoversOnly(s1, s2)
    requires !Eligible(s1, w, z, j)
    ensures !Eligible(s2, w, z, j)
  {
    if 0 <= j < |s1| {
      assert s2[z].position == s1[z].position;
      assert s2[0].position == s1[0].position && s2[w + 1].position == s1[w + 1].position;
    }
  }

  /** A completed chain reveal around an uncovered tile stays complete. */
  lemma ClosedAtStays(s1: seq<Tile>, s2: seq<Tile>, w: nat, z: nat)
    requires w + 1 < |s1| && z < |s1| && UncoversOnly(s1, s2)
    requires !s1[z].isCovered && ClosedAt(s1, w, z)
    ensures ClosedAt(s2, w, z)
  {
    if Spreads(s2, z) {
      forall p | 0 <= p < |Dirs| ensures !Eligible(s2, w, z, z + Offset(w, Dirs[p])) {
        IneligibleStays(s1, s2, w, z, z + Offset(w, Dirs[p]));
      }
    }
  }

  /** Two steps of progress make one. */
  lemma ProgressTrans(a: seq<Tile>, b: seq<Tile>, c: seq<Tile>, w: nat)
    requires w + 1 < |a| && Progress(a, b, w) && Progress(b, c, w)
    ensures Progress(a, c, w)
  {
    forall k | Revealed(a, c, k)
      ensures !a[k].isMine && ClosedAt(c, w, k)
    {
      if !b[k].isCovered {
        assert Revealed(a, b, k);
        ClosedAtStays(b, c, w, k);
      } else {
        assert Revealed(b, c, k);
      }
    }
  }

  /** Uncovering a covered non-mine tile j and then completing its chain reveal
      is progress. */
  lemma ProgressThroughUncover(s: seq<Tile>, s2: seq<Tile>, w: nat, j: nat)
    requires w + 1 < |s| && j < |s| && s[j].isCovered && !s[j].isMine
    requires Progress(Uncover(s, j), s2, w) && ClosedAt(s2, w, j)
    ensures Progress(s, s2, w)
  {
    var mid := Uncover(s, j);
    forall k | Revealed(s, s2, k)
      ensures !s[k].isMine && ClosedAt(s2, w, k)
    {
      if k != j {
        assert mid[k] == s[k];
        assert Revealed(mid, s2, k);
      }
    }
  }

  /** Dealing with the next offset target extends what has been dealt with,
      across any step that only removes covers. */
  lemma TriedStep(s1: seq<Tile>, s2: seq<Tile>, w: nat, z: nat, n: nat)
    requires w + 1 < |s1| && z < |s1| && n < |Dirs| && UncoversOnly(s1, s2)
    requires TriedUpTo(s1, w, z, n) && !Eligible(s2, w, z, z + Offset(w, Dirs[n]))
    ensures TriedUpTo(s2, w, z, n + 1)
  {
    forall p | 0 <= p < n ensures !Eligible(s2, w, z, z + Offset(w, Dirs[p])) {
      IneligibleStays(s1, s2, w, z, z + Offset(w, Dirs[p]));
    }
  }

  /** Doing nothing is progress. */
  lemma ProgressRefl(s: seq<Tile>, w: nat)
    requires w + 1 < |s|
    ensures Progress(s, s, w)
  {
  }

  /** Removing one cover and then only covers removes only covers. */
  lemma UncoversAfterUncover(s: seq<Tile>, i: nat, s2: seq<Tile>)
    requires i < |s| && UncoversOnly(Uncover(s, i), s2)
    ensures UncoversOnly(s, s2)
  {
    var mid := Uncover(s, i);
    forall k | 0 <= k < |s| ensures s2[k] == s[k] || s2[k] == s[k].(isCovered := false) {
      if k != i {
        assert mid[k] == s[k];
      }
    }
  }

  /** Removing covers keeps positions, mines and counts, and crosses out
      nothing. */
  lemma UncoversKeepBoard(l: seq<Tile>, s1: seq<Tile>, s2: seq<Tile>)
    requires SameBoard(l, s1) && UncoversOnly(s1, s2)
    ensures SameBoard(l, s2)
    ensures NoneCrossed(s1) ==> NoneCrossed(s2)
  {
  }

  /** Changing a tile without touching its cover leaves the covered count as
      it is. */
  lemma CountCoveredKeep(s: seq<Tile>, i: nat, t: Tile)
    requires i < |s| && t.isCovered == s[i].isCovered
    ensures CountCovered(s[i := t]) == CountCovered(s)
  {
    CountCoveredDrop(s, s[i := t]);
    assert Flipped(s, s[i := t]) == {};
  }

  /** A chain reveal reaches its own start. */
  lemma ReachStart(s: seq<Tile>, w: nat, t: nat)
    requires w + 1 < |s|
    ensures Reach(s, w, t, t)
  {
    assert IsPath(s, w, [t]);
  }

  /** A step through a board is a step through any board it was uncovered
      from: removing covers only removes steps. */
  lemma StepKept(s1: seq<Tile>, s2: seq<Tile>, w: nat, y: nat, j: nat)
    requires w + 1 < |s1| && UncoversOnly(s1, s2) && Step(s2, w, y, j)
    ensures Step(s1, w, y, j)
  {
    assert s1[0].position == s2[0].position && s1[w + 1].position == s2[w + 1].position;
    assert s1[y].position == s2[y].position && s1[j].position == s2[j].position;
  }

  /** What is reached in a board is reached in any board it was uncovered from. */
  lemma ReachKept(s1: seq<Tile>, s2: seq<Tile>, w: nat, t: nat, k: nat)
    requires w + 1 < |s1| && UncoversOnly(s1, s2) && Reach(s2, w, t, k)
    ensures Reach(s1, w, t, k)
  {
    var p :| IsPath(s2, w, p) && p[0] == t && p[|p| - 1] == k;
    forall i | 0 <= i < |p| - 1 ensures Step(s1, w, p[i], p[i + 1]) {
      StepKept(s1, s2, w, p[i], p[i + 1]);
    }
    assert IsPath(s1, w, p);
  }

  /** A step from t followed by a chain from j is a chain from t. */
  lemma ReachPrepend(s: seq<Tile>, w: nat, t: nat, j: nat, k: nat)
    requires w + 1 < |s| && Step(s, w, t, j) && Reach(s, w, j, k)
    ensures Reach(s, w, t, k)
  {
    var p :| IsPath(s, w, p) && p[0] == j && p[|p| - 1] == k;
    var p' := [t] + p;
    forall i | 0 <= i < |p'| - 1 ensures Step(s, w, p'[i], p'[i + 1]) {
      if i > 0 {
        assert p'[i] == p[i - 1] && p'[i + 1] == p[i];
      }
    }
    assert IsPath(s, w, p');
  }

  /** Removing t's cover and then only tiles reached from t removes only tiles
      reached from t. */
  lemma SoundThroughUncover(s0: seq<Tile>, s: seq<Tile>, w: nat, t: nat)
    requires w + 1 < |s0| && t < |s0|
    requires UncoversOnly(Uncover(s0, t), s) && Sound(Uncover(s0, t), s, w, t)
    ensures Sound(s0, s, w, t)
  {
    var mid := Uncover(s0, t);
    assert UncoversOnly(s0, mid);
    forall k: nat | Revealed(s0, s, k) ensures Reach(s0, w, t, k) {
      if k == t {
        ReachStart(s0, w, t);
      } else {
        assert mid[k] == s0[k];
        assert Revealed(mid, s, k);
        ReachKept(s0, mid, w, t, k);
      }
    }
  }

  /** Taking the step from t to j and then revealing only tiles reached from j
      reveals only tiles reached from t. */
  lemma SoundStep(start: seq<Tile>, before: seq<Tile>, after: seq<Tile>, w: nat, t: nat, j: nat, n: nat)
    requires w + 1 < |start| && t < |start| && n < |Dirs| && j == t + Offset(w, Dirs[n])
    requires UncoversOnly(start, before) && UncoversOnly(before, after)
    requires Spreads(start, t) && Eligible(before, w, t, j)
    requires Sound(start, before, w, t) && Sound(before, after, w, j)
    ensures Sound(start, after, w, t)
  {
    assert before[t] == start[t] || before[t] == start[t].(isCovered := false);
    assert Step(before, w, t, j);
    StepKept(start, before, w, t, j);
    forall k: nat | Revealed(start, after, k) ensures Reach(start, w, t, k) {
      if before[k].isCovered {
        assert Revealed(before, after, k);
        ReachKept(start, before, w, j, k);
        ReachPrepend(start, w, t, j, k);
      } else {
        assert Revealed(start, before, k);
      }
    }
  }

  /** A step out of an uncovered tile whose chain reveal is complete ends on
      an uncovered tile. */
  lemma StepUncovered(s0: seq<Tile>, s: seq<Tile>, w: nat, y: nat, j: nat)
    requires w + 1 < |s0| && UncoversOnly(s0, s) && Step(s0, w, y, j)
    requires !s[y].isCovered && ClosedAt(s, w, y)
    ensures !s[j].isCovered
  {
    var q :| 0 <= q < |Dirs| && j == y + Offset(w, Dirs[q]);
    assert s[y] == s0[y] || s[y] == s0[y].(isCovered := false);
    assert s[0].position == s0[0].position && s[w + 1].position == s0[w + 1].position;
    assert s[j].position == s0[j].position && s[j].isMine == s0[j].isMine;
    assert !Eligible(s, w, y, y + Offset(w, Dirs[q]));
  }

  /** Every tile on a chain from t is uncovered once t is uncovered, every
      tile revealed since is a non-mine with a complete chain reveal, and so
      is t. */
  lemma {:induction false} PathUncovered(s0: seq<Tile>, s: seq<Tile>, w: nat, t: nat, p: seq<nat>, i: nat)
    requires w + 1 < |s0| && t < |s0| && UncoversOnly(s0, s)
    requires !s[t].isCovered && ClosedAt(s, w, t) && Progress(Uncover(s0, t), s, w)
    requires IsPath(s0, w, p) && p[0] == t && i < |p|
    ensures p[i] < |s| && !s[p[i]].isCovered
    decreases i
  {
    if i > 0 {
      PathUncovered(s0, s, w, t, p, i - 1);
      var y := p[i - 1];
      assert Step(s0, w, y, p[i]);
      if y != t {
        assert Step(s0, w, p[i - 2], y);
        assert Uncover(s0, t)[y] == s0[y];
        assert Revealed(Uncover(s0, t), s, y);
      }
      StepUncovered(s0, s, w, y, p[i]);
    }
  }

  /** Closure and soundness together pin the chain reveal down: the covers
      removed are exactly those of the tiles reached from t. */
  lemma FloodExact(s0: seq<Tile>, s: seq<Tile>, w: nat, t: nat)
    requires w + 1 < |s0| && t < |s0| && UncoversOnly(s0, s)
    requires !s[t].isCovered && ClosedAt(s, w, t) && Progress(Uncover(s0, t), s, w)
    requires Sound(s0, s, w, t)
    ensures FloodResult(s0, s, w, t)
  {
    forall k | 0 <= k < |s0|
      ensures s[k] == if Reach(s0, w, t, k) then s0[k].(isCovered := false) else s0[k]
    {
      if Reach(s0, w, t, k) {
        var p :| IsPath(s0, w, p) && p[0] == t && p[|p| - 1] == k;
        PathUncovered(s0, s, w, t, p, |p| - 1);
      } else {
        assert !Revealed(s0, s, k);
      }
    }
  }

  /** The exact result in particular reveals only tiles reached from t. */
  lemma FloodSound(s0: seq<Tile>, s: seq<Tile>, w: nat, t: nat)
    requires w + 1 < |s0| && FloodResult(s0, s, w, t)
    ensures Sound(s0, s, w, t)
  {
    forall k: nat | Revealed(s0, s, k) ensures Reach(s0, w, t, k) {
      assert s[k] != s0[k];
    }
  }

  /** Uncovering t and then closing the chain reveal around it, with only
      tiles reached from t revealed on the way, gives exactly the reference
      result, and the covered count falls by the number of covers removed. */
  lemma UncoverComplete(s0: seq<Tile>, s: seq<Tile>, w: nat, t: nat)
    requires w + 1 < |s0| && t < |s0|
    requires Progress(Uncover(s0, t), s, w) && Sound(Uncover(s0, t), s, w, t)
    requires !s[t].isCovered && ClosedAt(s, w, t)
    ensures UncoversOnly(s0, s) && FloodResult(s0, s, w, t)
    ensures CountCovered(s0) == CountCovered(s) + |Flipped(s0, s)|
  {
    UncoversAfterUncover(s0, t, s);
    CountCoveredDrop(s0, s);
    SoundThroughUncover(s0, s, w, t);
    FloodExact(s0, s, w, t);
  }

  /** The chain reveal from t lowers the covered count by exactly the number
      of covered tiles reached from t. */
  lemma FloodCount(s0: seq<Tile>, s: seq<Tile>, w: nat, t: nat)
    requires w + 1 < |s0| && FloodResult(s0, s, w, t)
    ensures CountCovered(s0) == CountCovered(s) + |ReachedCovered(s0, w, t)|
  {
    assert Flipped(s0, s) == ReachedCovered(s0, w, t);
    CountCoveredDrop(s0, s);
  }
}
