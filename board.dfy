/** The board: an n×n grid of tiles changed in place, the score and the two-entry undo
    history. */
module Engine {
  import opened Rows
  import opened Grids
  import opened Spawning
  import opened Snapshots

  /** Cell (a, b) is neither empty nor equal to the cell below it or to its right. */
  predicate CellBlocked(g: Grid, a: nat, b: nat)
    requires Square(g) && a < |g| && b < |g|
  {
    g[a][b] != 0 && (a + 1 < |g| ==> !SameBelow(g, a, b)) && (b + 1 < |g| ==> !SameRight(g, a, b))
  }

  /** A grid is stuck exactly when every one of its cells is blocked. */
  lemma StuckCells(g: Grid)
    requires Square(g)
    ensures Stuck(g) <==> forall a: nat, b: nat :: a < |g| && b < |g| ==> CellBlocked(g, a, b)
  {
    if forall a: nat, b: nat :: a < |g| && b < |g| ==> CellBlocked(g, a, b) {
      forall i, j | 0 <= i < |g| && 0 <= j < |g|
        ensures g[i][j] != 0
      {
        assert CellBlocked(g, i, j);
      }
      forall i: nat, j: nat | i < |g| - 1 && j < |g|
        ensures !SameBelow(g, i, j)
      {
        assert CellBlocked(g, i, j);
      }
      forall i: nat, j: nat | i < |g| && j < |g| - 1
        ensures !SameRight(g, i, j)
      {
        assert CellBlocked(g, i, j);
      }
    }
  }

  /** Append zeros to `m` until it is `n` long (the row padding of a leftward slide). */
  method PadRow(m: seq<int>, n: nat) returns (p: seq<int>)
    requires |m| <= n
    ensures p == Pad(m, n)
  {
    p := m;
    while |p| < n
      invariant |m| <= |p| <= n && p == m + Zeros(|p| - |m|)
    {
      assert Zeros(|p| + 1 - |m|) == Zeros(|p| - |m|) + [0];
      p := p + [0];
    }
  }

  class Board {
    const size: nat
    var tiles: Grid
    var score: int
    var history: seq<Grid>

    /** The grid is size×size and holds tile values, the score is never negative and the
        history holds one or two grids of the same shape. */
    ghost predicate Valid()
      reads this
    {
      IsGrid(tiles, size) && GridTiles(tiles) && score >= 0 && |history| >= 1 && HistoryOk()
    }

    /** At most two snapshots, each a size×size grid of tile values. */
    ghost predicate HistoryOk()
      reads this
    {
      |history| <= 2 && forall k :: 0 <= k < |history| ==> IsGrid(history[k], size) && GridTiles(history[k])
    }

    /** A fresh board: two tiles spawned on an empty grid, then the first snapshot. */
    constructor (size: nat, pick1: Random, roll1: Random, pick2: Random, roll2: Random)
      ensures Valid() && this.size == size && score == 0
      ensures tiles == Spawned(Spawned(ZeroGrid(size), pick1, roll1), pick2, roll2)
      ensures history == [tiles]
    {
      this.size := size;
      tiles := ZeroGrid(size);
      history := [];
      score := 0;
      new;
      AddRandomTile(pick1, roll1);
      AddRandomTile(pick2, roll2);
      SaveState();
    }

    /** Append a copy of the grid to the history, dropping the oldest entry beyond two. */
    method SaveState()
      requires IsGrid(tiles, size) && GridTiles(tiles) && HistoryOk()
      modifies this`history
      ensures history == Pushed(old(history), tiles)
      ensures HistoryOk() && |history| >= 1
    {
      history := history + [tiles];
      if |history| > 2 {
        history := history[1..];
      }
    }

    /** Go back to the older snapshot when there are two; the score is not restored. */
    method Undo() returns (ok: bool)
      requires Valid()
      modifies this`history, this`tiles
      ensures Valid()
      ensures ok <==> |old(history)| > 1
      ensures ok ==> history == old(history)[..|old(history)| - 1] && tiles == UndoTarget(old(history))
      ensures !ok ==> history == old(history) && tiles == old(tiles)
      ensures score == old(score)
    {
      if |history| > 1 {
        history := history[..|history| - 1];
        tiles := history[0];
        return true;
      }
      return false;
    }

    /** Scan the grid row by row for empty cells and set the one the draw `pick` selects to
        the value the draw `roll` selects; a full grid is left as it is. */
    method AddRandomTile(pick: Random, roll: Random)
      requires IsGrid(tiles, size) && GridTiles(tiles)
      modifies this`tiles
      ensures tiles == Spawned(old(tiles), pick, roll)
      ensures GridTiles(tiles)
    {
      SpawnedTiles(tiles, pick, roll);
      var empty: seq<(nat, nat)> := [];
      var i := 0;
      while i < size
        invariant 0 <= i <= size
        invariant empty == EmptyPrefix(tiles, i)
      {
        var j := 0;
        while j < size
          invariant 0 <= j <= size
          invariant empty == EmptyPrefix(tiles, i) + EmptiesBefore(tiles[i], i, j)
        {
          if tiles[i][j] == 0 {
            empty := empty + [(i, j)];
          }
          j := j + 1;
        }
        i := i + 1;
      }
      if |empty| == 0 {
        return;
      }
      var p := empty[PickIndex(pick, |empty|)];
      EmptyCellsAre(tiles, p);
      tiles := tiles[p.0 := tiles[p.0][p.1 := SpawnValue(roll)]];
    }

    /** Slide every row to the left, merging equal neighbours once, and add the merged
        values to the score; reports whether any row changed. */
    method MoveLeft() returns (moved: bool)
      requires IsGrid(tiles, size) && GridTiles(tiles)
      modifies this`tiles, this`score
      ensures IsGrid(tiles, size) && GridTiles(tiles)
      ensures tiles == MoveLeftGrid(old(tiles))
      ensures score == old(score) + MoveGain(old(tiles)) && score >= old(score)
      ensures moved <==> tiles != old(tiles)
    {
      moved := false;
      var i := 0;
      while i < size
        invariant 0 <= i <= size && IsGrid(old(tiles), size)
        invariant tiles == MoveLeftGrid(old(tiles)[..i]) + old(tiles)[i..]
        invariant score == old(score) + MoveGain(old(tiles)[..i])
        invariant moved <==> MoveLeftGrid(old(tiles)[..i]) != old(tiles)[..i]
      {
        MoveLeftPrefix(old(tiles), i);
        MoveGainPrefix(old(tiles), i);
        MoveLeftPrefixChanges(old(tiles), i);
        MoveLeftPrefixShape(old(tiles), i);
        var rowMoved := MoveRowLeft(i);
        if rowMoved {
          moved := true;
        }
        i := i + 1;
      }
      MoveLeftPrefixDone(old(tiles));
    }

    /** The slide of row i: keep its nonzero values, merge equal neighbours in one pass
        from the left (adding each merged value to the score), pad with zeros and store
        the new row; reports whether the row changed. */
    method MoveRowLeft(i: nat) returns (rowMoved: bool)
      requires IsGrid(tiles, size) && i < size
      modifies this`tiles, this`score
      ensures tiles == old(tiles)[i := SlideRow(old(tiles)[i])]
      ensures score == old(score) + RowGain(old(tiles)[i])
      ensures rowMoved <==> SlideRow(old(tiles)[i]) != old(tiles)[i]
    {
      var row := Compact(tiles[i]);
      var newRow;
      newRow, rowMoved := MergePass(row);
      if rowMoved {
        MergeMovesRow(tiles[i]);
      }
      newRow := PadRow(newRow, size);
      assert newRow == SlideRow(tiles[i]);
      if tiles[i] != newRow {
        rowMoved := true;
      }
      tiles := tiles[i := newRow];
    }

    /** The merge pass over a compacted row, adding each merged value to the score;
        reports whether any pair merged. */
    method MergePass(row: seq<int>) returns (newRow: seq<int>, merged: bool)
      modifies this`score
      ensures newRow == Merge(row) && score == old(score) + MergeGain(row)
      ensures merged <==> |newRow| < |row|
    {
      newRow := [];
      merged := false;
      var j := 0;
      while j < |row|
        invariant 0 <= j <= |row| && |newRow| <= j
        invariant newRow + Merge(row[j..]) == Merge(row)
        invariant score + MergeGain(row[j..]) == old(score) + MergeGain(row)
        invariant merged <==> |newRow| < j
      {
        MergeResume(row, j, newRow);
        if j + 1 < |row| && row[j] == row[j + 1] {
          newRow := newRow + [2 * row[j]];
          score := score + 2 * row[j];
          j := j + 2;
          merged := true;
        } else {
          newRow := newRow + [row[j]];
          j := j + 1;
        }
      }
      assert row[j..] == [];
    }

    /** Turn the grid a quarter clockwise `times` times. */
    method Rotate(times: nat)
      requires IsGrid(tiles, size) && GridTiles(tiles)
      modifies this`tiles
      ensures IsGrid(tiles, size) && GridTiles(tiles)
      ensures tiles == Rotated(old(tiles), times)
    {
      var t := 0;
      while t < times
        invariant 0 <= t <= times && IsGrid(tiles, size) && GridTiles(tiles)
        invariant tiles == Rotated(old(tiles), t)
      {
        var newTiles := ZeroGrid(size);
        var i := 0;
        while i < size
          invariant 0 <= i <= size && IsGrid(newTiles, size)
          invariant forall a, b :: 0 <= a < size && 0 <= b < size ==>
                      newTiles[a][b] == if size - 1 - b < i then tiles[size - 1 - b][a] else 0
        {
          var j := 0;
          while j < size
            invariant 0 <= j <= size && IsGrid(newTiles, size)
            invariant forall a, b :: 0 <= a < size && 0 <= b < size ==>
                        newTiles[a][b] == if size - 1 - b < i || (size - 1 - b == i && a < j)
                                          then tiles[size - 1 - b][a] else 0
          {
            newTiles := newTiles[j := newTiles[j][size - 1 - i := tiles[i][j]]];
            j := j + 1;
          }
          i := i + 1;
        }
        forall a, b | 0 <= a < size && 0 <= b < size
          ensures newTiles[a][b] == RotateOnce(tiles)[a][b]
        {
          RotateOnceAt(tiles, a, b);
        }
        GridExt(newTiles, RotateOnce(tiles));
        RotatedTiles(old(tiles), t + 1);
        tiles := newTiles;
        t := t + 1;
      }
    }

    /** Whether no move is possible: no empty cell and no equal neighbours. */
    method IsGameOver() returns (over: bool)
      requires Valid()
      ensures over <==> Stuck(tiles)
    {
      StuckCells(tiles);
      var i := 0;
      while i < size
        invariant 0 <= i <= size
        invariant forall a: nat, b: nat :: a < i && b < size ==> CellBlocked(tiles, a, b)
      {
        var j := 0;
        while j < size
          invariant 0 <= j <= size
          invariant forall a: nat, b: nat :: (a < i && b < size) || (a == i && b < j) ==> CellBlocked(tiles, a, b)
        {
          if tiles[i][j] == 0 {
            return false;
          }
          if i < size - 1 && tiles[i][j] == tiles[i + 1][j] {
            assert SameBelow(tiles, i, j);
            return false;
          }
          if j < size - 1 && tiles[i][j] == tiles[i][j + 1] {
            assert SameRight(tiles, i, j);
            return false;
          }
          j := j + 1;
        }
        i := i + 1;
      }
      return true;
    }

    /** The largest cell value. */
    function GetMaxTile(): (m: int)
      reads this
      requires Valid() && size > 0
      ensures exists i, j :: 0 <= i < size && 0 <= j < size && tiles[i][j] == m
      ensures forall i, j :: 0 <= i < size && 0 <= j < size ==> tiles[i][j] <= m
    {
      MaxTile(tiles)
    }
  }
}
