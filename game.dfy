/** The state of a game of 2048 and the operations of Game2048 that change it:
    `restart_game`, `spawn_tile`, `move` with its `merge` and `can_move` calls,
    and the game-over test at the end of `update_ui`. */
module Game {
  import opened Rows
  import opened Boards

  class Game2048 {
    var board: Board
    var score: int
    var highScore: int
    var gameOver: bool

    /** The board is 4x4 and holds only tiles, and the score is never negative. */
    ghost predicate Valid()
      reads this
    {
      IsBoard(board) && BoardTiles(board) && score >= 0
    }

    /** A game as `__init__` leaves it, with `savedHighScore` what
        `load_high_score` read from its file. */
    constructor (savedHighScore: int)
      ensures Valid()
      ensures score == 0 && highScore == savedHighScore && !gameOver
      ensures BoardTotal(board, Occupancy) == 2 && SmallTiles(board)
    {
      score := 0;
      highScore := savedHighScore;
      board := EmptyBoard();
      gameOver := false;
      new;
      Restart();
    }

    /** `restart_game`: an empty board with two spawned tiles, score 0, the
        game-over flag cleared; the high score is kept. */
    method Restart()
      modifies this`board, this`score, this`gameOver
      ensures Valid()
      ensures score == 0 && !gameOver && highScore == old(highScore)
      ensures exists mid :: SpawnedFrom(EmptyBoard(), mid) && SpawnedFrom(mid, board)
      ensures BoardTotal(board, Occupancy) == 2 && SmallTiles(board)
    {
      board := EmptyBoard();
      score := 0;
      gameOver := false;
      ghost var empty := board;
      // Restating the unchanged high score at each call keeps the frame proof small.
      assert highScore == old(highScore);
      SpawnTile();
      assert highScore == old(highScore);
      ghost var mid := board;
      SpawnTile();
      assert highScore == old(highScore);
      TwoSpawnsFromEmpty(mid, board);
      assert SpawnedFrom(empty, mid) && SpawnedFrom(mid, board);
      UpdateGameOver();
    }

    /** `spawn_tile`: when some cell is empty, a 2 or a 4 goes into one of the
        empty cells (both choices left open); on a full board nothing happens. */
    method SpawnTile()
      requires Valid()
      modifies this`board
      ensures Valid()
      ensures SpawnedFrom(old(board), board)
    {
      var emptyCells := EmptyCells(board);
      if emptyCells != [] {
        var k :| 0 <= k < |emptyCells|;
        assert 2 in [2, 4];
        var v :| v in [2, 4];
        // `random.choice([2, 4])`, in the form the spawn lemmas state it.
        assert v == 2 || v == 4;
        var cell := emptyCells[k];
        assert cell in emptyCells;
        var i, j := cell.0, cell.1;
        PlacedIsSpawn(board, i, j, v);
        board := board[i := board[i][j := v]];
      }
    }

    /** `merge`: every row merged, and the score of every merge added to `score`. */
    method Merge(rows: Board) returns (merged: Board)
      modifies this`score
      ensures merged == MergedBoard(rows)
      ensures score == old(score) + BoardGain(rows)
    {
      merged := [];
      for i := 0 to |rows|
        invariant merged == MergedBoard(rows[..i])
        invariant score + BoardGain(rows[i..]) == old(score) + BoardGain(rows)
      {
        var row, gain := MergeRow(rows[i], GridSize);
        assert rows[i..][1..] == rows[i + 1..];
        merged := merged + [row];
        score := score + gain;
        assert MergedBoard(rows[..i + 1]) == MergedBoard(rows[..i]) + [row];
      }
      assert rows[..|rows|] == rows;
    }

    /** `can_move`: reads the board, changes nothing, and answers whether some cell
        is empty or equals its right or lower neighbour. */
    method CanMove() returns (movable: bool)
      requires Valid()
      ensures movable == Movable(board)
    {
      for i := 0 to GridSize
        invariant forall i', j' :: 0 <= i' < i && 0 <= j' < GridSize ==> !CellCanMove(board, i', j')
      {
        for j := 0 to GridSize
          invariant forall j' :: 0 <= j' < j ==> !CellCanMove(board, i, j')
        {
          if board[i][j] == 0 {
            assert CellCanMove(board, i, j);
            return true;
          }
          if i < GridSize - 1 && board[i][j] == board[i + 1][j] {
            assert CellCanMove(board, i, j);
            return true;
          }
          if j < GridSize - 1 && board[i][j] == board[i][j + 1] {
            assert CellCanMove(board, i, j);
            return true;
          }
        }
      }
      return false;
    }

    /** The game-over test of `update_ui`: the flag is raised once the board
        cannot move, and never lowered here. */
    method UpdateGameOver()
      requires Valid()
      modifies this`gameOver
      ensures gameOver == (old(gameOver) || !Movable(board))
    {
      var movable := CanMove();
      if !movable && !gameOver {
        gameOver := true;
      }
    }

    /** `move`: ignored once the game is over; otherwise the board becomes the
        moved board and the score grows by what the merge earned; only if the board
        changed does a tile spawn and the high score catch up with the score; then
        the game is over exactly when the new board cannot move. */
    method Move(d: Direction)
      requires Valid()
      modifies this
      ensures Valid()
      ensures old(gameOver) ==>
        board == old(board) && score == old(score) && highScore == old(highScore) && gameOver
      ensures !old(gameOver) ==> score == old(score) + MoveGain(d, old(board))
      ensures !old(gameOver) && Moved(d, old(board)) == old(board) ==>
        board == old(board) && score == old(score) && highScore == old(highScore)
      ensures !old(gameOver) && Moved(d, old(board)) != old(board) ==>
        SpawnedFrom(Moved(d, old(board)), board) &&
        highScore == (if score > old(highScore) then score else old(highScore))
      ensures !old(gameOver) ==> gameOver == !Movable(board)
      ensures highScore >= old(highScore)
    {
      if gameOver {
        return;
      }
      var original := board;
      Shift(d);
      assert highScore == old(highScore) && !gameOver;
      if board != original {
        SpawnTile();
        if score > highScore {
          highScore := score;
        }
      } else {
        UnchangedEarnsNothing(d, original);
      }
      UpdateGameOver();
    }

    /** The direction dispatch of `move` (lines 132-139): the board is replaced by
        the merge of its reoriented rows, reoriented as the code does. */
    method Shift(d: Direction)
      requires Valid()
      modifies this`board, this`score
      ensures Valid()
      ensures board == Moved(d, old(board))
      ensures score == old(score) + MoveGain(d, old(board))
    {
      MovedShape(d, board);
      MoveGainBounds(d, board);
      match d {
        case Up =>
          board := Merge(Transpose(board));
        case Down =>
          var merged := Merge(Transpose(Reverse(board)));
          board := Reverse(merged);
        case Left =>
          board := Merge(board);
        case Right =>
          var merged := Merge(ReverseEach(board));
          board := ReverseEach(merged);
      }
    }
  }
}
