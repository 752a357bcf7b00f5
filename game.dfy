/** The game controller: a 4×4 board, the game-over flag and the milestones already
    announced. A move turns the board so that the chosen direction becomes a leftward
    slide, slides, turns back, and on a change spawns a tile and checks the status. */
module Controller {
  import opened Grids
  import opened Spawning
  import opened Snapshots
  import opened Milestones
  import opened Engine

  class Game {
    const board: Board
    var gameOver: bool
    const milestones: seq<int>
    var achievedMilestones: set<int>

    ghost predicate Valid()
      reads this, board
    {
      board.Valid() && board.size == 4
    }

    /** A new game on a fresh 4×4 board, with the four draws its two first tiles use. */
    constructor (pick1: Random, roll1: Random, pick2: Random, roll2: Random)
      ensures Valid() && fresh(board)
      ensures board.tiles == Spawned(Spawned(ZeroGrid(4), pick1, roll1), pick2, roll2)
      ensures board.score == 0 && board.history == [board.tiles]
      ensures milestones == Targets && !gameOver && achievedMilestones == {}
    {
      board := new Board(4, pick1, roll1, pick2, roll2);
      gameOver := false;
      milestones := Targets;
      achievedMilestones := {};
    }

    /** One move in direction `d`, with the two draws the spawn would use. Nothing happens
        once the game is over. Otherwise the grid is saved for undo and shifted; only when
        the shift changed the grid is a tile spawned and the status checked, and the
        milestone announced then, if any, is returned. */
    method Move(d: Direction, pick: Random, roll: Random) returns (shown: Option<int>)
      requires Valid()
      modifies this`gameOver, this`achievedMilestones, board`tiles, board`score, board`history
      ensures Valid()
      ensures old(gameOver) ==>
                gameOver && shown == None && achievedMilestones == old(achievedMilestones) &&
                board.tiles == old(board.tiles) && board.score == old(board.score) &&
                board.history == old(board.history)
      ensures !old(gameOver) ==>
                board.history == Pushed(old(board.history), old(board.tiles)) &&
                board.score == old(board.score) + ShiftGain(old(board.tiles), d)
      ensures !old(gameOver) && Shift(old(board.tiles), d) == old(board.tiles) ==>
                board.tiles == old(board.tiles) && !gameOver && shown == None &&
                achievedMilestones == old(achievedMilestones)
      ensures !old(gameOver) && Shift(old(board.tiles), d) != old(board.tiles) ==>
                board.tiles == Spawned(Shift(old(board.tiles), d), pick, roll) &&
                (gameOver <==> Stuck(board.tiles)) &&
                shown == FirstReached(milestones, old(achievedMilestones), MaxTile(board.tiles)) &&
                achievedMilestones == Recorded(old(achievedMilestones), shown)
      ensures board.score >= old(board.score)
    {
      shown := None;
      if gameOver {
        return;
      }
      board.SaveState();
      assert Valid();
      var moved := ShiftBoard(d);
      assert Valid();
      if moved {
        shown := SpawnAndCheck(pick, roll);
      }
    }

    /** What a move that changed the grid does next: spawn a tile with the two draws and
        check the status. */
    method SpawnAndCheck(pick: Random, roll: Random) returns (shown: Option<int>)
      requires Valid()
      modifies this`gameOver, this`achievedMilestones, board`tiles
      ensures Valid()
      ensures board.tiles == Spawned(old(board.tiles), pick, roll)
      ensures gameOver <==> old(gameOver) || Stuck(board.tiles)
      ensures shown == FirstReached(milestones, old(achievedMilestones), MaxTile(board.tiles))
      ensures achievedMilestones == Recorded(old(achievedMilestones), shown)
    {
      board.AddRandomTile(pick, roll);
      shown := CheckGameStatus();
    }

    /** The direction dispatch: turn the board so that `d` becomes a leftward slide, slide,
        and turn it back; reports whether the slide changed anything. */
    method ShiftBoard(d: Direction) returns (moved: bool)
      requires IsGrid(board.tiles, board.size) && GridTiles(board.tiles)
      modifies board`tiles, board`score
      ensures IsGrid(board.tiles, board.size) && GridTiles(board.tiles)
      ensures board.tiles == Shift(old(board.tiles), d)
      ensures board.score == old(board.score) + ShiftGain(old(board.tiles), d) >= old(board.score)
      ensures moved <==> board.tiles != old(board.tiles)
    {
      match d {
        case Left =>
          moved := board.MoveLeft();
        case Right =>
          board.Rotate(2);
          moved := board.MoveLeft();
          board.Rotate(2);
        case Up =>
          board.Rotate(1);
          moved := board.MoveLeft();
          board.Rotate(3);
        case Down =>
          board.Rotate(3);
          moved := board.MoveLeft();
          board.Rotate(1);
      }
      ShiftChanges(old(board.tiles), d);
    }

    /** Set the game-over flag when no move is possible, and announce the first milestone
        the largest tile has reached that was not announced before (at most one per call). */
    method CheckGameStatus() returns (shown: Option<int>)
      requires Valid()
      modifies this`gameOver, this`achievedMilestones
      ensures gameOver <==> old(gameOver) || Stuck(board.tiles)
      ensures shown == FirstReached(milestones, old(achievedMilestones), board.GetMaxTile())
      ensures achievedMilestones == Recorded(old(achievedMilestones), shown)
    {
      var over := board.IsGameOver();
      if over {
        gameOver := true;
      }
      var maxTile := board.GetMaxTile();
      shown := None;
      var k := 0;
      while k < |milestones|
        invariant 0 <= k <= |milestones|
        invariant achievedMilestones == old(achievedMilestones) && shown == None
        invariant FirstReached(milestones, achievedMilestones, maxTile) ==
                  FirstReached(milestones[k..], achievedMilestones, maxTile)
      {
        var milestone := milestones[k];
        if maxTile >= milestone && milestone !in achievedMilestones {
          achievedMilestones := achievedMilestones + {milestone};
          shown := Some(milestone);
          break;
        }
        assert milestones[k..][1..] == milestones[k + 1..];
        k := k + 1;
      }
    }
  }
}
