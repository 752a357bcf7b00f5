/** The N×N grid: the whole-grid leftward slide, quarter-turn rotation, the four move
    directions built from them, the game-over test and the largest tile. */
module Grids {
  import opened Rows

  /** Rows of cells; row i, column j is g[i][j]. */
  type Grid = seq<seq<int>>

  predicate IsGrid(g: Grid, n: nat)
  {
    |g| == n && forall i :: 0 <= i < n ==> |g[i]| == n
  }

  predicate Square(g: Grid)
  {
    IsGrid(g, |g|)
  }

  predicate GridTiles(g: Grid)
  {
    forall i :: 0 <= i < |g| ==> AllTiles(g[i])
  }

  function ZeroGrid(n: nat): (g: Grid)
    ensures IsGrid(g, n) && GridTiles(g)
    ensures forall i, j :: 0 <= i < n && 0 <= j < n ==> g[i][j] == 0
  {
    seq(n, _ => Zeros(n))
  }

  /** Two grids of the same shape with the same cells are equal. */
  lemma GridExt(g: Grid, h: Grid)
    requires |g| == |h| && forall i :: 0 <= i < |g| ==> |g[i]| == |h[i]|
    requires forall i, j :: 0 <= i < |g| && 0 <= j < |g[i]| ==> g[i][j] == h[i][j]
    ensures g == h
  {
    forall i | 0 <= i < |g|
      ensures g[i] == h[i]
    {
    }
  }

  // ---------------------------------------------------------------------------
  // Flattening and the largest tile

  /** The cells in row-major order (the source's `tiles.flat()`). */
  function Flatten(g: Grid): seq<int>
  {
    if g == [] then [] else g[0] + Flatten(g[1..])
  }

  lemma {:induction false} FlattenAppend(a: Grid, b: Grid)
    ensures Flatten(a + b) == Flatten(a) + Flatten(b)
  {
    if a == [] {
      assert a + b == b;
    } else {
      assert (a + b)[1..] == a[1..] + b;
      FlattenAppend(a[1..], b);
    }
  }

  /** A value occurs in the flattened grid exactly when some cell holds it. */
  lemma {:induction false} FlattenHas(g: Grid, x: int)
    ensures x in Flatten(g) <==> exists i, j :: 0 <= i < |g| && 0 <= j < |g[i]| && g[i][j] == x
  {
    if g != [] {
      FlattenHas(g[1..], x);
      if x in Flatten(g[1..]) {
        var i, j :| 0 <= i < |g[1..]| && 0 <= j < |g[1..][i]| && g[1..][i][j] == x;
        assert g[i + 1][j] == x;
      }
      if exists i, j :: 0 <= i < |g| && 0 <= j < |g[i]| && g[i][j] == x {
        var i, j :| 0 <= i < |g| && 0 <= j < |g[i]| && g[i][j] == x;
        if i > 0 {
          assert g[1..][i - 1][j] == x;
        } else {
          assert g[0][j] in g[0];
        }
      }
    }
  }

  /** The largest element (the source's `Math.max(...)` over a nonempty list). */
  function MaxOf(s: seq<int>): (m: int)
    requires |s| > 0
    ensures m in s
    ensures forall k :: 0 <= k < |s| ==> s[k] <= m
  {
    if |s| == 1 then s[0]
    else
      var rest := MaxOf(s[1..]);
      if s[0] >= rest then s[0] else rest
  }

  /** The largest cell value of a nonempty grid: some cell holds it and no cell exceeds it. */
  function MaxTile(g: Grid): (m: int)
    requires Square(g) && |g| > 0
    ensures exists i, j :: 0 <= i < |g| && 0 <= j < |g| && g[i][j] == m
    ensures forall i, j :: 0 <= i < |g| && 0 <= j < |g| ==> g[i][j] <= m
  {
    var flat := Flatten(g);
    assert g[0][0] in flat by { FlattenHas(g, g[0][0]); }
    var m := MaxOf(flat);
    FlattenHas(g, m);
    assert forall i, j :: 0 <= i < |g| && 0 <= j < |g| ==> g[i][j] <= m by {
      forall i, j | 0 <= i < |g| && 0 <= j < |g|
        ensures g[i][j] <= m
      {
        FlattenHas(g, g[i][j]);
      }
    }
    m
  }

  // ---------------------------------------------------------------------------
  // The leftward slide of a whole grid

  /** Every row slid to the left (the source's `moveLeft` on the grid). */
  function MoveLeftGrid(g: Grid): (r: Grid)
    ensures |r| == |g| && forall i :: 0 <= i < |g| ==> |r[i]| == |g[i]|
  {
    seq(|g|, i requires 0 <= i < |g| => SlideRow(g[i]))
  }

  /** The points a leftward slide of the whole grid scores. */
  function MoveGain(g: Grid): int
  {
    if g == [] then 0 else MoveGain(g[..|g| - 1]) + RowGain(g[|g| - 1])
  }

  /** A leftward slide leaves the grid alone exactly when every row is settled. */
  lemma MoveLeftGridFixed(g: Grid)
    ensures MoveLeftGrid(g) == g <==> forall i :: 0 <= i < |g| ==> Settled(g[i])
  {
    forall i | 0 <= i < |g|
      ensures SlideRow(g[i]) == g[i] <==> Settled(g[i])
    {
      SlideRowFixed(g[i]);
    }
    if forall i :: 0 <= i < |g| ==> Settled(g[i]) {
      assert forall i :: 0 <= i < |g| ==> MoveLeftGrid(g)[i] == g[i];
    }
  }

  lemma MoveLeftGridTiles(g: Grid)
    requires GridTiles(g)
    ensures GridTiles(MoveLeftGrid(g))
  {
    forall i | 0 <= i < |g|
      ensures AllTiles(MoveLeftGrid(g)[i])
    {
      SlideRowTiles(g[i]);
    }
  }

  /** The score a leftward slide adds is never negative. */
  lemma {:induction false} MoveGainNonNegative(g: Grid)
    requires GridTiles(g)
    ensures MoveGain(g) >= 0
  {
    if g != [] {
      MoveGainNonNegative(g[..|g| - 1]);
      RowGainSign(g[|g| - 1]);
    }
  }

  /** Sliding the rows one at a time: after rows 0..i-1 are done, doing row i gives the
      grid with rows 0..i done. */
  lemma MoveLeftPrefix(g: Grid, i: nat)
    requires i < |g|
    ensures (MoveLeftGrid(g[..i]) + g[i..])[i := SlideRow(g[i])] == MoveLeftGrid(g[..i + 1]) + g[i + 1..]
  {
    MoveLeftPrefixRows(g, i);
  }

  lemma MoveLeftPrefixRows(g: Grid, i: nat)
    requires i < |g|
    ensures MoveLeftGrid(g[..i + 1]) == MoveLeftGrid(g[..i]) + [SlideRow(g[i])]
  {
    assert g[..i + 1][..i] == g[..i];
  }

  /** The score of rows 0..i is the score of rows 0..i-1 plus that of row i. */
  lemma MoveGainPrefix(g: Grid, i: nat)
    requires i < |g|
    ensures MoveGain(g[..i + 1]) == MoveGain(g[..i]) + RowGain(g[i])
  {
    assert g[..i + 1][..i] == g[..i];
  }

  /** Rows 0..i change exactly when rows 0..i-1 or row i change. */
  lemma MoveLeftPrefixChanges(g: Grid, i: nat)
    requires i < |g|
    ensures MoveLeftGrid(g[..i + 1]) != g[..i + 1] <==>
              MoveLeftGrid(g[..i]) != g[..i] || SlideRow(g[i]) != g[i]
  {
    MoveLeftPrefixRows(g, i);
    assert g[..i + 1] == g[..i] + [g[i]];
    var before := MoveLeftGrid(g[..i]);
    if before + [SlideRow(g[i])] != g[..i] + [g[i]] && before == g[..i] {
      assert SlideRow(g[i]) != g[i];
    }
  }

  /** A square grid with its first i rows slid is still square. */
  lemma MoveLeftPrefixShape(g: Grid, i: nat)
    requires Square(g) && i <= |g|
    ensures IsGrid(MoveLeftGrid(g[..i]) + g[i..], |g|)
  {
    var t := MoveLeftGrid(g[..i]) + g[i..];
    forall k | 0 <= k < |g|
      ensures |t[k]| == |g|
    {
      if k < i {
        assert t[k] == SlideRow(g[k]);
      } else {
        assert t[k] == g[k];
      }
    }
  }

  /** With every row slid, the prefix form is the whole slide, which keeps tiles and
      scores a non-negative amount. */
  lemma MoveLeftPrefixDone(g: Grid)
    requires Square(g) && GridTiles(g)
    ensures g[..|g|] == g && MoveLeftGrid(g[..|g|]) + g[|g|..] == MoveLeftGrid(g)
    ensures IsGrid(MoveLeftGrid(g), |g|) && GridTiles(MoveLeftGrid(g)) && MoveGain(g) >= 0
  {
    assert g[..|g|] == g;
    assert g[|g|..] == [];
    MoveLeftPrefixShape(g, |g|);
    MoveLeftGridTiles(g);
    MoveGainNonNegative(g);
  }

  /** A leftward slide keeps the sum of all cell values. */
  lemma {:induction false} MoveLeftGridSum(g: Grid)
    ensures Sum(Flatten(MoveLeftGrid(g))) == Sum(Flatten(g))
  {
    if g != [] {
      var r := MoveLeftGrid(g);
      assert r[1..] == MoveLeftGrid(g[1..]);
      MoveLeftGridSum(g[1..]);
      SumAppend(r[0], Flatten(r[1..]));
      SumAppend(g[0], Flatten(g[1..]));
      SlideRowSum(g[0]);
    }
  }

  // ---------------------------------------------------------------------------
  // Quarter-turn rotation

  /** One clockwise quarter turn of an n×n grid. */
  function RotateOnce(g: Grid): (r: Grid)
    requires Square(g)
    ensures IsGrid(r, |g|)
  {
    var n := |g|;
    seq(n, a requires 0 <= a < n => seq(n, b requires 0 <= b < n => g[n - 1 - b][a]))
  }

  /** A quarter turn moves the cell at (i, j) to (j, n - 1 - i): the headline statement of
      the turn, in the direction the source's loop writes it. `RotateOnceAt` below is the
      same map read backwards; the lemmas after it lift these two to any number of turns. */
  lemma RotateOnceMoves(g: Grid, i: nat, j: nat)
    requires Square(g) && i < |g| && j < |g|
    ensures RotateOnce(g)[j][|g| - 1 - i] == g[i][j]
  {
  }

  /** `k` quarter turns, one after another (the source's `rotate(k)`). */
  function Rotated(g: Grid, k: nat): (r: Grid)
    requires Square(g)
    ensures IsGrid(r, |g|)
  {
    if k == 0 then g else RotateOnce(Rotated(g, k - 1))
  }

  /** Where cell (a, b) of a quarter turn comes from (the backward form). */
  lemma RotateOnceAt(g: Grid, a: nat, b: nat)
    requires Square(g) && a < |g| && b < |g|
    ensures RotateOnce(g)[a][b] == g[|g| - 1 - b][a]
  {
  }

  /** One, two and three turns spelled out. */
  lemma RotatedSmall(g: Grid)
    requires Square(g)
    ensures Rotated(g, 1) == RotateOnce(g)
    ensures Rotated(g, 2) == RotateOnce(RotateOnce(g))
    ensures Rotated(g, 3) == RotateOnce(RotateOnce(RotateOnce(g)))
  {
    assert Rotated(g, 0) == g;
    assert Rotated(g, 1) == RotateOnce(g);
    assert Rotated(g, 2) == RotateOnce(Rotated(g, 1));
  }

  /** Where a cell of two quarter turns comes from. */
  lemma TwiceTurnedCell(g: Grid, a: nat, b: nat)
    requires Square(g) && a < |g| && b < |g|
    ensures RotateOnce(RotateOnce(g))[a][b] == g[|g| - 1 - a][|g| - 1 - b]
  {
    RotateOnceAt(RotateOnce(g), a, b);
    RotateOnceAt(g, |g| - 1 - b, a);
  }

  /** Where a cell of the (k + 1)-th quarter turn comes from. */
  lemma RotatedStepAt(g: Grid, k: nat, a: nat, b: nat)
    requires Square(g) && a < |g| && b < |g|
    ensures Rotated(g, k + 1)[a][b] == Rotated(g, k)[|g| - 1 - b][a]
  {
    RotateOnceAt(Rotated(g, k), a, b);
  }

  /** Where cell (i, j) of the k-th turn goes under one more quarter turn. */
  lemma OnceTurnedMoves(g: Grid, k: nat, i: nat, j: nat)
    requires Square(g) && i < |g| && j < |g|
    ensures Rotated(g, k + 1)[j][|g| - 1 - i] == Rotated(g, k)[i][j]
  {
    RotateOnceMoves(Rotated(g, k), i, j);
  }

  /** ...under two more quarter turns. */
  lemma TwiceTurnedMoves(g: Grid, k: nat, i: nat, j: nat)
    requires Square(g) && i < |g| && j < |g|
    ensures Rotated(g, k + 2)[|g| - 1 - i][|g| - 1 - j] == Rotated(g, k)[i][j]
  {
    RotatedStepAt(g, k + 1, |g| - 1 - i, |g| - 1 - j);
    OnceTurnedMoves(g, k, i, j);
  }

  /** ...under three more quarter turns. */
  lemma ThriceTurnedMoves(g: Grid, k: nat, i: nat, j: nat)
    requires Square(g) && i < |g| && j < |g|
    ensures Rotated(g, k + 3)[|g| - 1 - j][i] == Rotated(g, k)[i][j]
  {
    RotatedStepAt(g, k + 2, |g| - 1 - j, i);
    TwiceTurnedMoves(g, k, i, j);
  }

  // The same for the grid itself (the turn count is kept in a variable: a call of
  // Rotated on a literal count is unfolded eagerly and makes these proofs expensive).

  /** Where cell (i, j) goes under one quarter turn. */
  lemma CellAfterOneTurn(g: Grid, i: nat, j: nat)
    requires Square(g) && i < |g| && j < |g|
    ensures Rotated(g, 1)[j][|g| - 1 - i] == g[i][j]
  {
    var k := 0;
    assert Rotated(g, k) == g;
    OnceTurnedMoves(g, k, i, j);
  }

  /** Where cell (i, j) goes under two quarter turns. */
  lemma CellAfterTwoTurns(g: Grid, i: nat, j: nat)
    requires Square(g) && i < |g| && j < |g|
    ensures Rotated(g, 2)[|g| - 1 - i][|g| - 1 - j] == g[i][j]
  {
    var k := 0;
    assert Rotated(g, k) == g;
    TwiceTurnedMoves(g, k, i, j);
  }

  /** Where cell (i, j) goes under three quarter turns. */
  lemma CellAfterThreeTurns(g: Grid, i: nat, j: nat)
    requires Square(g) && i < |g| && j < |g|
    ensures Rotated(g, 3)[|g| - 1 - j][i] == g[i][j]
  {
    var k := 0;
    assert Rotated(g, k) == g;
    ThriceTurnedMoves(g, k, i, j);
    assert k + 3 == 3;
  }

  /** Turning k times and then m more times is turning k + m times. */
  lemma {:induction false} RotatedAdd(g: Grid, k: nat, m: nat)
    requires Square(g)
    ensures Rotated(Rotated(g, k), m) == Rotated(g, k + m)
  {
    if m > 0 {
      RotatedAdd(g, k, m - 1);
    }
  }

  /** Four quarter turns are the identity. */
  lemma RotatedFour(g: Grid)
    requires Square(g)
    ensures Rotated(g, 4) == g
  {
    var n := |g|;
    var h := RotateOnce(RotateOnce(g));
    RotatedSmall(g);
    assert Rotated(g, 4) == RotateOnce(RotateOnce(h));
    forall a, b | 0 <= a < n && 0 <= b < n
      ensures RotateOnce(RotateOnce(h))[a][b] == g[a][b]
    {
      TwiceTurnedCell(h, a, b);
      TwiceTurnedCell(g, n - 1 - a, n - 1 - b);
    }
    GridExt(RotateOnce(RotateOnce(h)), g);
  }

  /** Turning k times and then 4 - k times gives the grid back: rotate(4),
      rotate(2) twice, rotate(1) then rotate(3), rotate(3) then rotate(1). */
  lemma RotatedInverse(g: Grid, k: nat)
    requires Square(g) && k <= 4
    ensures Rotated(Rotated(g, k), 4 - k) == g
  {
    RotatedAdd(g, k, 4 - k);
    RotatedFour(g);
  }

  lemma RotatedTiles(g: Grid, k: nat)
    requires Square(g) && GridTiles(g)
    ensures GridTiles(Rotated(g, k))
  {
    if k > 0 {
      RotatedTiles(g, k - 1);
    }
  }

  // The rotation is a transpose of the grid with its rows in reverse order; each of the
  // two keeps the multiset of cells.

  function ReversedRows(g: Grid): (r: Grid)
    ensures |r| == |g|
  {
    seq(|g|, i requires 0 <= i < |g| => g[|g| - 1 - i])
  }

  function Transposed(g: Grid, m: nat): (t: Grid)
    requires forall i :: 0 <= i < |g| ==> |g[i]| == m
    ensures |t| == m && forall a :: 0 <= a < m ==> |t[a]| == |g|
  {
    seq(m, a requires 0 <= a < m => seq(|g|, b requires 0 <= b < |g| => g[b][a]))
  }

  lemma {:induction false} ReversedRowsCells(g: Grid)
    ensures multiset(Flatten(ReversedRows(g))) == multiset(Flatten(g))
  {
    if g != [] {
      var r := ReversedRows(g);
      assert r == ReversedRows(g[1..]) + [g[0]];
      ReversedRowsCells(g[1..]);
      FlattenAppend(ReversedRows(g[1..]), [g[0]]);
      assert Flatten([g[0]]) == g[0] + [];
    }
  }

  /** Each of |x| rows gets one more cell at its front. */
  function PrependColumn(x: seq<int>, t: Grid): (r: Grid)
    requires |x| == |t|
    ensures |r| == |x|
  {
    seq(|x|, a requires 0 <= a < |x| => [x[a]] + t[a])
  }

  lemma {:induction false} PrependColumnCells(x: seq<int>, t: Grid)
    requires |x| == |t|
    ensures multiset(Flatten(PrependColumn(x, t))) == multiset(x) + multiset(Flatten(t))
  {
    if x != [] {
      var p := PrependColumn(x, t);
      assert p[1..] == PrependColumn(x[1..], t[1..]);
      PrependColumnCells(x[1..], t[1..]);
      assert x == [x[0]] + x[1..];
    }
  }

  lemma {:induction false} FlattenEmptyRows(t: Grid)
    requires forall a :: 0 <= a < |t| ==> t[a] == []
    ensures Flatten(t) == []
  {
    if t != [] {
      FlattenEmptyRows(t[1..]);
    }
  }

  lemma {:induction false} TransposedCells(g: Grid, m: nat)
    requires forall i :: 0 <= i < |g| ==> |g[i]| == m
    ensures multiset(Flatten(Transposed(g, m))) == multiset(Flatten(g))
  {
    var t := Transposed(g, m);
    if g == [] {
      FlattenEmptyRows(t);
    } else {
      var rest := Transposed(g[1..], m);
      forall a | 0 <= a < m
        ensures t[a] == PrependColumn(g[0], rest)[a]
      {
      }
      assert t == PrependColumn(g[0], rest);
      PrependColumnCells(g[0], rest);
      TransposedCells(g[1..], m);
    }
  }

  /** The multiset of cell values. */
  ghost function Cells(g: Grid): multiset<int>
  {
    multiset(Flatten(g))
  }

  /** A quarter turn moves cells around and keeps the multiset of cell values. */
  lemma RotateOnceCells(g: Grid)
    requires Square(g)
    ensures Cells(RotateOnce(g)) == Cells(g)
  {
    var n := |g|;
    var rr := ReversedRows(g);
    assert RotateOnce(g) == Transposed(rr, n) by {
      GridExt(RotateOnce(g), Transposed(rr, n));
    }
    TransposedCells(rr, n);
    ReversedRowsCells(g);
  }

  lemma RotatedCellsStep(g: Grid, k: nat)
    requires Square(g) && k > 0
    requires Cells(Rotated(g, k - 1)) == Cells(g)
    ensures Cells(Rotated(g, k)) == Cells(g)
  {
    RotateOnceCells(Rotated(g, k - 1));
  }

  /** Any number of quarter turns keeps the multiset of cell values. */
  lemma {:induction false} RotatedCellsMultiset(g: Grid, k: nat)
    requires Square(g)
    ensures Cells(Rotated(g, k)) == Cells(g)
  {
    if k == 0 {
      assert Rotated(g, k) == g;
    } else {
      RotatedCellsMultiset(g, k - 1);
      RotatedCellsStep(g, k);
    }
  }

  // ---------------------------------------------------------------------------
  // The four directions

  datatype Direction = Left | Right | Up | Down

  /** Quarter turns before the leftward slide, as the source's dispatch does them. */
  function TurnsBefore(d: Direction): nat
  {
    match d
    case Left => 0
    case Right => 2
    case Up => 1
    case Down => 3
  }

  /** Quarter turns after the leftward slide. */
  function TurnsAfter(d: Direction): nat
  {
    match d
    case Left => 0
    case Right => 2
    case Up => 3
    case Down => 1
  }

  /** The turns after a slide undo the turns before it. */
  lemma TurnsUndo(g: Grid, d: Direction)
    requires Square(g)
    ensures Rotated(Rotated(g, TurnsBefore(d)), TurnsAfter(d)) == g
    ensures Rotated(Rotated(g, TurnsAfter(d)), TurnsBefore(d)) == g
  {
    if d.Left? {
    } else {
      RotatedInverse(g, TurnsBefore(d));
      RotatedInverse(g, TurnsAfter(d));
    }
  }

  /** The grid after a move in direction d: turn, slide left, turn back. */
  function Shift(g: Grid, d: Direction): (r: Grid)
    requires Square(g)
    ensures IsGrid(r, |g|)
  {
    Rotated(MoveLeftGrid(Rotated(g, TurnsBefore(d))), TurnsAfter(d))
  }

  /** The points a move in direction d scores. */
  function ShiftGain(g: Grid, d: Direction): int
    requires Square(g)
  {
    MoveGain(Rotated(g, TurnsBefore(d)))
  }

  /** A move changes the grid exactly when the leftward slide of the turned grid changes it. */
  lemma ShiftChanges(g: Grid, d: Direction)
    requires Square(g)
    ensures var turned := Rotated(g, TurnsBefore(d));
            Shift(g, d) == g <==> MoveLeftGrid(turned) == turned
  {
    var turned := Rotated(g, TurnsBefore(d));
    var slid := MoveLeftGrid(turned);
    TurnsUndo(g, d);
    if Shift(g, d) == g {
      TurnsUndo(slid, d);
    }
  }

  /** Every move keeps the sum of the cell values. */
  lemma ShiftSum(g: Grid, d: Direction)
    requires Square(g)
    ensures Sum(Flatten(Shift(g, d))) == Sum(Flatten(g))
  {
    var turned := Rotated(g, TurnsBefore(d));
    var slid := MoveLeftGrid(turned);
    RotatedCellsMultiset(g, TurnsBefore(d));
    SumOfPermutation(Flatten(turned), Flatten(g));
    MoveLeftGridSum(turned);
    RotatedCellsMultiset(slid, TurnsAfter(d));
    SumOfPermutation(Flatten(Shift(g, d)), Flatten(slid));
  }

  /** Every move keeps every cell a tile value and scores a non-negative amount. */
  lemma ShiftTiles(g: Grid, d: Direction)
    requires Square(g) && GridTiles(g)
    ensures GridTiles(Shift(g, d))
    ensures ShiftGain(g, d) >= 0
  {
    var turned := Rotated(g, TurnsBefore(d));
    RotatedTiles(g, TurnsBefore(d));
    MoveLeftGridTiles(turned);
    MoveGainNonNegative(turned);
    RotatedTiles(MoveLeftGrid(turned), TurnsAfter(d));
  }

  // ---------------------------------------------------------------------------
  // Game over

  /** The cell at (i, j) equals the one below it. */
  predicate SameBelow(g: Grid, i: nat, j: nat)
    requires i + 1 < |g| && j < |g[i]| && j < |g[i + 1]|
  {
    g[i][j] == g[i + 1][j]
  }

  /** The cell at (i, j) equals the one to its right. */
  predicate SameRight(g: Grid, i: nat, j: nat)
    requires i < |g| && j + 1 < |g[i]|
  {
    g[i][j] == g[i][j + 1]
  }

  /** No empty cell, and no two horizontally or vertically adjacent cells are equal. */
  predicate Stuck(g: Grid)
    requires Square(g)
  {
    && (forall i, j :: 0 <= i < |g| && 0 <= j < |g| ==> g[i][j] != 0)
    && (forall i: nat, j: nat :: i < |g| - 1 && j < |g| ==> !SameBelow(g, i, j))
    && (forall i: nat, j: nat :: i < |g| && j < |g| - 1 ==> !SameRight(g, i, j))
  }

  predicate HasTile(g: Grid)
  {
    exists i, j :: 0 <= i < |g| && 0 <= j < |g[i]| && g[i][j] != 0
  }

  lemma StuckRotateOnce(g: Grid)
    requires Square(g) && Stuck(g)
    ensures Stuck(RotateOnce(g))
  {
    var n := |g|;
    var r := RotateOnce(g);
    forall a: nat, b: nat | a < n - 1 && b < n
      ensures !SameBelow(r, a, b)
    {
      assert r[a][b] == g[n - 1 - b][a] && r[a + 1][b] == g[n - 1 - b][a + 1];
      assert !SameRight(g, n - 1 - b, a);
    }
    forall a: nat, b: nat | a < n && b < n - 1
      ensures !SameRight(r, a, b)
    {
      assert r[a][b] == g[n - 1 - b][a] && r[a][b + 1] == g[n - 2 - b][a];
      assert !SameBelow(g, n - 2 - b, a);
    }
  }

  lemma {:induction false} StuckRotated(g: Grid, k: nat)
    requires Square(g) && Stuck(g)
    ensures Stuck(Rotated(g, k))
  {
    if k > 0 {
      StuckRotated(g, k - 1);
      StuckRotateOnce(Rotated(g, k - 1));
    }
  }

  /** On a stuck grid a leftward slide changes nothing. */
  lemma StuckMoveLeft(g: Grid)
    requires Square(g) && Stuck(g)
    ensures MoveLeftGrid(g) == g
  {
    forall i | 0 <= i < |g|
      ensures Settled(g[i])
    {
      forall k | 0 <= k < |g[i]| - 1
        ensures g[i][k] != g[i][k + 1]
      {
        assert !SameRight(g, i, k);
      }
    }
    MoveLeftGridFixed(g);
  }

  /** A stuck grid admits no move: every direction leaves it as it is. */
  lemma StuckNoMove(g: Grid, d: Direction)
    requires Square(g) && Stuck(g)
    ensures Shift(g, d) == g
  {
    var turned := Rotated(g, TurnsBefore(d));
    StuckRotated(g, TurnsBefore(d));
    StuckMoveLeft(turned);
    ShiftChanges(g, d);
  }

  /** Every row of the grid and of each of its turns is settled when no move changes it. */
  lemma NoMoveSettled(g: Grid, d: Direction, i: nat)
    requires Square(g) && i < |g| && Shift(g, d) == g
    ensures Settled(Rotated(g, TurnsBefore(d))[i])
  {
    ShiftChanges(g, d);
    MoveLeftGridFixed(Rotated(g, TurnsBefore(d)));
  }

  /** When the rows are settled both read left to right and read right to left (the
      grid turned twice), a row holding an empty cell is empty throughout. */
  lemma NoMoveRowEmpty(g: Grid, i: nat, x: nat, y: nat)
    requires Square(g) && i < |g| && x < |g| && y < |g| && g[i][x] == 0
    requires Settled(g[i]) && Settled(Rotated(g, 2)[|g| - 1 - i])
    ensures g[i][y] == 0
  {
    if y < x {
      CellAfterTwoTurns(g, i, x);
      CellAfterTwoTurns(g, i, y);
    }
  }

  /** The same for the columns: read bottom to top (one quarter turn), an empty cell
      empties every cell above it... */
  lemma NoMoveColumnEmptyAbove(g: Grid, j: nat, x: nat, y: nat)
    requires Square(g) && j < |g| && y < x < |g| && g[x][j] == 0
    requires Settled(Rotated(g, 1)[j])
    ensures g[y][j] == 0
  {
    var row := Rotated(g, 1)[j];
    CellAfterOneTurn(g, x, j);
    CellAfterOneTurn(g, y, j);
    assert row[|g| - 1 - x] == 0;
  }

  /** ...and read top to bottom (three quarter turns), every cell below it. */
  lemma NoMoveColumnEmptyBelow(g: Grid, j: nat, x: nat, y: nat)
    requires Square(g) && j < |g| && x < y < |g| && g[x][j] == 0
    requires Settled(Rotated(g, 3)[|g| - 1 - j])
    ensures g[y][j] == 0
  {
    var row := Rotated(g, 3)[|g| - 1 - j];
    CellAfterThreeTurns(g, x, j);
    SettledZeroAfter(row, x, y);
    CellAfterThreeTurns(g, y, j);
  }

  /** In a grid the horizontal slides leave unchanged, an empty cell empties its row. */
  lemma NoMoveRowZero(g: Grid, i: nat, x: nat, y: nat)
    requires Square(g) && i < |g| && x < |g| && y < |g| && g[i][x] == 0
    requires Shift(g, Left) == g && Shift(g, Right) == g
    ensures g[i][y] == 0
  {
    NoMoveSettled(g, Left, i);
    NoMoveSettled(g, Right, |g| - 1 - i);
    assert Rotated(g, 0) == g;
    NoMoveRowEmpty(g, i, x, y);
  }

  /** In a grid the vertical slides leave unchanged, an empty cell empties its column. */
  lemma NoMoveColumnZero(g: Grid, j: nat, x: nat, y: nat)
    requires Square(g) && j < |g| && x < |g| && y < |g| && g[x][j] == 0
    requires Shift(g, Up) == g && Shift(g, Down) == g
    ensures g[y][j] == 0
  {
    if y < x {
      NoMoveSettled(g, Up, j);
      NoMoveColumnEmptyAbove(g, j, x, y);
    } else if x < y {
      NoMoveSettled(g, Down, |g| - 1 - j);
      NoMoveColumnEmptyBelow(g, j, x, y);
    }
  }

  /** In a grid no direction changes, one tile fills every cell: an empty cell would
      empty its row, then the tile's column. */
  lemma NoMoveFull(g: Grid, p: nat, q: nat, i: nat, j: nat)
    requires Square(g) && p < |g| && q < |g| && i < |g| && j < |g| && g[p][q] != 0
    requires Shift(g, Left) == g && Shift(g, Right) == g
    requires Shift(g, Up) == g && Shift(g, Down) == g
    ensures g[i][j] != 0
  {
    if g[i][j] == 0 {
      NoMoveRowZero(g, i, j, q);
      NoMoveColumnZero(g, q, i, p);
    }
  }

  /** A grid the leftward slide leaves unchanged has no equal horizontal neighbours. */
  lemma NoMoveNoPairRight(g: Grid, i: nat, j: nat)
    requires Square(g) && i < |g| && j + 1 < |g| && g[i][j] != 0 && Shift(g, Left) == g
    ensures !SameRight(g, i, j)
  {
    NoMoveSettled(g, Left, i);
    assert Rotated(g, 0) == g;
    assert g[i][j] != g[i][j + 1];
  }

  /** A grid the upward slide leaves unchanged has no equal vertical neighbours. */
  lemma NoMoveNoPairBelow(g: Grid, i: nat, j: nat)
    requires Square(g) && i + 1 < |g| && j < |g| && g[i + 1][j] != 0 && Shift(g, Up) == g
    ensures !SameBelow(g, i, j)
  {
    var row := Rotated(g, 1)[j];
    NoMoveSettled(g, Up, j);
    CellAfterOneTurn(g, i, j);
    CellAfterOneTurn(g, i + 1, j);
    assert row[|g| - 1 - (i + 1)] != row[|g| - 1 - (i + 1) + 1];
  }

  /** Conversely, a grid holding at least one tile that no direction changes is stuck. So
      for every grid with a tile, the game-over test holds exactly when no move is possible. */
  lemma NoMoveStuck(g: Grid)
    requires Square(g) && HasTile(g)
    requires forall d :: Shift(g, d) == g
    ensures Stuck(g)
  {
    var n := |g|;
    var p, q :| 0 <= p < n && 0 <= q < |g[p]| && g[p][q] != 0;
    assert Shift(g, Left) == g && Shift(g, Right) == g;
    assert Shift(g, Up) == g && Shift(g, Down) == g;
    forall i, j | 0 <= i < n && 0 <= j < n
      ensures g[i][j] != 0
    {
      NoMoveFull(g, p, q, i, j);
    }
    forall i: nat, j: nat | i < n && j < n - 1
      ensures !SameRight(g, i, j)
    {
      NoMoveNoPairRight(g, i, j);
    }
    forall i: nat, j: nat | i < n - 1 && j < n
      ensures !SameBelow(g, i, j)
    {
      NoMoveNoPairBelow(g, i, j);
    }
  }

  /** For a grid holding a tile, the game-over test holds exactly when no direction
      changes the grid. */
  lemma StuckIffNoMove(g: Grid)
    requires Square(g) && HasTile(g)
    ensures Stuck(g) <==> forall d :: Shift(g, d) == g
  {
    if Stuck(g) {
      forall d
        ensures Shift(g, d) == g
      {
        StuckNoMove(g, d);
      }
    }
    if forall d :: Shift(g, d) == g {
      NoMoveStuck(g);
    }
  }
}
