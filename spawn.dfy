/** Spawning a tile: the list of empty cells in row-major order, the choice of one of them
    and of its value from two draws of a uniform random number in [0, 1). */
module Spawning {
  import opened Rows
  import opened Grids

  /** One draw of the random source: a real number in [0, 1). */
  type Random = r: real | 0.0 <= r < 1.0

  /** The empty cells (i, k) of row i with k < j, by increasing column. */
  function EmptiesBefore(row: seq<int>, i: nat, j: nat): seq<(nat, nat)>
    requires j <= |row|
  {
    if j == 0 then []
    else EmptiesBefore(row, i, j - 1) + (if row[j - 1] == 0 then [(i, j - 1)] else [])
  }

  /** The empty cells of the rows before row i, row by row. */
  function EmptyPrefix(g: Grid, i: nat): seq<(nat, nat)>
    requires i <= |g|
  {
    if i == 0 then []
    else EmptyPrefix(g, i - 1) + EmptiesBefore(g[i - 1], i - 1, |g[i - 1]|)
  }

  /** Every empty cell of the grid, in the order the nested scan meets them. */
  function EmptyCells(g: Grid): seq<(nat, nat)>
  {
    EmptyPrefix(g, |g|)
  }

  predicate HasEmpty(g: Grid)
  {
    exists i, j :: 0 <= i < |g| && 0 <= j < |g[i]| && g[i][j] == 0
  }

  lemma {:induction false} EmptiesBeforeAre(row: seq<int>, i: nat, j: nat, p: (nat, nat))
    requires j <= |row|
    ensures p in EmptiesBefore(row, i, j) <==> p.0 == i && p.1 < j && row[p.1] == 0
  {
    if j > 0 {
      EmptiesBeforeAre(row, i, j - 1, p);
    }
  }

  lemma {:induction false} EmptyPrefixAre(g: Grid, i: nat, p: (nat, nat))
    requires i <= |g|
    ensures p in EmptyPrefix(g, i) <==> p.0 < i && p.1 < |g[p.0]| && g[p.0][p.1] == 0
  {
    if i > 0 {
      EmptyPrefixAre(g, i - 1, p);
      EmptiesBeforeAre(g[i - 1], i - 1, |g[i - 1]|, p);
    }
  }

  /** The list holds exactly the cells that are 0. */
  lemma EmptyCellsAre(g: Grid, p: (nat, nat))
    ensures p in EmptyCells(g) <==> p.0 < |g| && p.1 < |g[p.0]| && g[p.0][p.1] == 0
  {
    EmptyPrefixAre(g, |g|, p);
  }

  /** The list is empty exactly when no cell is 0. */
  lemma EmptyCellsNone(g: Grid)
    ensures |EmptyCells(g)| == 0 <==> !HasEmpty(g)
  {
    if |EmptyCells(g)| > 0 {
      EmptyCellsAre(g, EmptyCells(g)[0]);
    }
    if HasEmpty(g) {
      var i, j :| 0 <= i < |g| && 0 <= j < |g[i]| && g[i][j] == 0;
      EmptyCellsAre(g, (i, j));
    }
  }

  /** The index `floor(r * k)` chosen from a list of k > 0 entries. */
  function PickIndex(r: Random, k: nat): (t: nat)
    requires k > 0
    ensures t < k
    ensures t as real <= r * k as real < t as real + 1.0
  {
    assert 0.0 <= r * k as real < k as real;
    (r * k as real).Floor
  }

  /** Every index can be drawn: r = t / k picks entry t. */
  lemma PickReaches(k: nat, t: nat)
    requires t < k
    ensures exists r: Random :: PickIndex(r, k) == t
  {
    var r: Random := t as real / k as real;
    assert r * k as real == t as real;
    assert PickIndex(r, k) == t;
  }

  /** A new tile is 2 when the draw is below 0.9 and 4 otherwise. */
  function SpawnValue(r: Random): (v: int)
    ensures v == 2 <==> r < 0.9
    ensures v == 4 <==> r >= 0.9
  {
    if r < 0.9 then 2 else 4
  }

  /** The grid after a spawn with the two draws `pick` (which empty cell) and `roll`
      (which value); a grid with no empty cell is left as it is. */
  function Spawned(g: Grid, pick: Random, roll: Random): (r: Grid)
    requires Square(g)
    ensures IsGrid(r, |g|)
  {
    var e := EmptyCells(g);
    if |e| == 0 then g
    else
      var p := e[PickIndex(pick, |e|)];
      EmptyCellsAre(g, p);
      g[p.0 := g[p.0][p.1 := SpawnValue(roll)]]
  }

  /** `r` is `g` with the empty cell (a, b) set to 2 or 4 and nothing else changed. */
  predicate SpawnedAt(g: Grid, r: Grid, a: nat, b: nat)
    requires Square(g) && IsGrid(r, |g|)
  {
    a < |g| && b < |g| && g[a][b] == 0 && (r[a][b] == 2 || r[a][b] == 4) &&
    forall i, j :: 0 <= i < |g| && 0 <= j < |g| && (i != a || j != b) ==> r[i][j] == g[i][j]
  }

  /** A full grid is left unchanged. */
  lemma SpawnedFull(g: Grid, pick: Random, roll: Random)
    requires Square(g) && !HasEmpty(g)
    ensures Spawned(g, pick, roll) == g
  {
    EmptyCellsNone(g);
  }

  /** Otherwise exactly one previously empty cell becomes 2 or 4. */
  lemma SpawnedOne(g: Grid, pick: Random, roll: Random)
    requires Square(g) && HasEmpty(g)
    ensures exists a, b :: SpawnedAt(g, Spawned(g, pick, roll), a, b)
  {
    EmptyCellsNone(g);
    var e := EmptyCells(g);
    var p := e[PickIndex(pick, |e|)];
    EmptyCellsAre(g, p);
    assert SpawnedAt(g, Spawned(g, pick, roll), p.0, p.1);
  }

  /** Every empty cell and both values can come out of some pair of draws. */
  lemma SpawnedReaches(g: Grid, a: nat, b: nat, v: int)
    requires Square(g) && a < |g| && b < |g| && g[a][b] == 0 && (v == 2 || v == 4)
    ensures exists pick: Random, roll: Random :: Spawned(g, pick, roll) == g[a := g[a][b := v]]
  {
    var e := EmptyCells(g);
    EmptyCellsAre(g, (a, b));
    var t :| 0 <= t < |e| && e[t] == (a, b);
    PickReaches(|e|, t);
    var pick: Random :| PickIndex(pick, |e|) == t;
    var roll: Random := if v == 2 then 0.0 else 0.95;
    assert Spawned(g, pick, roll) == g[a := g[a][b := v]];
  }

  /** A spawn keeps every cell a tile value. */
  lemma SpawnedTiles(g: Grid, pick: Random, roll: Random)
    requires Square(g) && GridTiles(g)
    ensures GridTiles(Spawned(g, pick, roll))
  {
    var r := Spawned(g, pick, roll);
    if HasEmpty(g) {
      SpawnedOne(g, pick, roll);
      var a, b :| SpawnedAt(g, r, a, b);
      assert PowerOfTwo(2) by {
        assert PowerOfTwo(1);
      }
      assert PowerOfTwo(4) by {
        assert PowerOfTwo(2) by {
          assert PowerOfTwo(1);
        }
      }
      forall i | 0 <= i < |r|
        ensures AllTiles(r[i])
      {
        if i == a {
          forall j | 0 <= j < |r[i]|
            ensures IsTile(r[i][j])
          {
            if j != b {
              assert r[i][j] == g[i][j];
            }
          }
        }
      }
    } else {
      SpawnedFull(g, pick, roll);
    }
  }
}
