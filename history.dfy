/** The undo buffer: a history of at most two snapshots of the grid, oldest first. */
module Snapshots {
  import opened Grids

  /** The history after saving the grid `g`: `g` goes on the end and, when that makes more
      than two entries, the oldest one is dropped. */
  function Pushed(h: seq<Grid>, g: Grid): (r: seq<Grid>)
    ensures |h| <= 2 ==> |r| == if |h| == 0 then 1 else 2
    ensures 0 < |r| <= |h| + 1 && r[|r| - 1] == g
    ensures |h| > 0 ==> |r| > 1 && r[|r| - 2] == h[|h| - 1]
    ensures r == (h + [g])[|h| + 1 - |r|..]
  {
    var longer := h + [g];
    if |longer| > 2 then longer[1..] else longer
  }

  /** The tiles an undo restores when it can: after dropping the newest snapshot it goes
      back to the first entry, which is the older of the two. */
  function UndoTarget(h: seq<Grid>): (t: Grid)
    requires |h| > 1
    ensures |h| == 2 ==> t == h[|h| - 2]
  {
    h[0]
  }

  /** After the first move of a game (whose history holds only the starting grid `t0`),
      undo goes back to `t0`, the grid before that move. */
  lemma UndoAfterFirstMove(t0: Grid)
    ensures |Pushed([t0], t0)| == 2 && UndoTarget(Pushed([t0], t0)) == t0
  {
  }

  /** Two saves in a row leave exactly the two saved grids, whatever came before, so an
      undo after two moves from grid `a` (giving `b`, then a third grid) restores `a`, the
      grid from before the earlier of the two moves, not `b`. */
  lemma UndoSkipsBack(h: seq<Grid>, a: Grid, b: Grid)
    requires 0 < |h| <= 2
    ensures Pushed(Pushed(h, a), b) == [a, b]
    ensures UndoTarget(Pushed(Pushed(h, a), b)) == a
  {
    var h1 := Pushed(h, a);
    assert |h1| == 2 && h1[1] == a;
    assert Pushed(h1, b) == [h1[1], b];
  }
}
