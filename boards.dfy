/** The whole 4x4 board: orientation plumbing (`transpose`, row and board
    reversal), the direction dispatch of `move`, the `can_move` test, the list of
    empty cells `spawn_tile` draws from, and sums over the board. */
module Boards {
  import opened Rows

  const GridSize := 4

  /** A list of rows, each a list of cell values. */
  type Board = seq<seq<int>>

  datatype Direction = Up | Down | Left | Right

  predicate IsBoard(b: Board)
  {
    |b| == GridSize && forall i :: 0 <= i < |b| ==> |b[i]| == GridSize
  }

  predicate BoardTiles(b: Board)
  {
    forall i :: 0 <= i < |b| ==> AllTiles(b[i])
  }

  predicate InGrid(i: int, j: int)
  {
    0 <= i < GridSize && 0 <= j < GridSize
  }

  /** `s[::-1]` */
  function Reverse<T>(s: seq<T>): seq<T>
  {
    seq(|s|, k requires 0 <= k < |s| => s[|s| - 1 - k])
  }

  /** `[row[::-1] for row in b]` */
  function ReverseEach(b: Board): Board
  {
    seq(|b|, i requires 0 <= i < |b| => Reverse(b[i]))
  }

  /** The length of the shortest row, where `zip` stops. */
  function Shortest(b: Board): (n: nat)
    requires b != []
    ensures forall i :: 0 <= i < |b| ==> n <= |b[i]|
    ensures exists i :: 0 <= i < |b| && n == |b[i]|
  {
    if |b| == 1 then |b[0]|
    else if |b[0]| <= Shortest(b[1..]) then |b[0]|
    else Shortest(b[1..])
  }

  /** Cell `j` of every row, top to bottom. */
  function Column(b: Board, j: nat): seq<int>
    requires forall i :: 0 <= i < |b| ==> j < |b[i]|
  {
    seq(|b|, i requires 0 <= i < |b| => b[i][j])
  }

  /** `[list(row) for row in zip(*b)]`: row `j` of the result is column `j` of `b`,
      as many of them as the shortest row is long. */
  function Transpose(b: Board): Board
  {
    if b == [] then [] else seq(Shortest(b), j requires 0 <= j < Shortest(b) => Column(b, j))
  }

  /** The board `merge` returns: every row merged on its own. */
  function MergedBoard(rows: Board): Board
  {
    seq(|rows|, i requires 0 <= i < |rows| => MergedRow(rows[i], GridSize))
  }

  /** What `merge` adds to the score for the whole board. */
  function BoardGain(rows: Board): int
  {
    if rows == [] then 0 else RowGain(rows[0]) + BoardGain(rows[1..])
  }

  /** The board `move` stores for each direction, exactly as lines 132-139
      compose merge, transpose and reversal (the vertical moves do not transpose back). */
  function Moved(d: Direction, b: Board): Board
  {
    match d
    case Up => MergedBoard(Transpose(b))
    case Down => Reverse(MergedBoard(Transpose(Reverse(b))))
    case Left => MergedBoard(b)
    case Right => ReverseEach(MergedBoard(ReverseEach(b)))
  }

  /** What the `merge` call of a move adds to the score. */
  function MoveGain(d: Direction, b: Board): int
  {
    match d
    case Up => BoardGain(Transpose(b))
    case Down => BoardGain(Transpose(Reverse(b)))
    case Left => BoardGain(b)
    case Right => BoardGain(ReverseEach(b))
  }

  /** The test `can_move` makes at one cell: it is empty, or equals the cell below
      it, or equals the cell to its right. */
  predicate CellCanMove(b: Board, i: int, j: int)
    requires IsBoard(b) && InGrid(i, j)
  {
    b[i][j] == 0 ||
    (i < GridSize - 1 && b[i][j] == b[i + 1][j]) ||
    (j < GridSize - 1 && b[i][j] == b[i][j + 1])
  }

  /** Some cell is empty or has an equal neighbour to its right or below it. */
  ghost predicate Movable(b: Board)
    requires IsBoard(b)
  {
    exists i, j :: InGrid(i, j) && CellCanMove(b, i, j)
  }

  /** The empty cells from (i, j) on, in row-major order. */
  function EmptyFrom(b: Board, i: int, j: int): (cells: seq<(int, int)>)
    requires IsBoard(b) && 0 <= i <= GridSize && 0 <= j <= GridSize
    ensures forall p :: p in cells <==>
      InGrid(p.0, p.1) && (p.0 > i || (p.0 == i && p.1 >= j)) && b[p.0][p.1] == 0
    decreases GridSize - i, GridSize - j
  {
    if i == GridSize then []
    else if j == GridSize then EmptyFrom(b, i + 1, 0)
    else (if b[i][j] == 0 then [(i, j)] else []) + EmptyFrom(b, i, j + 1)
  }

  /** `empty_cells` of `spawn_tile`: the positions holding 0, row by row. */
  function EmptyCells(b: Board): (cells: seq<(int, int)>)
    requires IsBoard(b)
    ensures forall p :: p in cells <==> InGrid(p.0, p.1) && b[p.0][p.1] == 0
  {
    EmptyFrom(b, 0, 0)
  }

  /** The board with value `v` written into cell (i, j). */
  function Placed(b: Board, i: int, j: int, v: int): Board
    requires IsBoard(b) && InGrid(i, j)
  {
    b[i := b[i][j := v]]
  }

  /** The boards `spawn_tile` can leave: on a board without an empty cell the
      same board; otherwise one cell that was empty now holds 2 or 4, and nothing
      else changed. */
  ghost predicate SpawnedFrom(before: Board, after: Board)
  {
    IsBoard(before) &&
    ((EmptyCells(before) == [] && after == before) ||
     (exists i, j, v :: InGrid(i, j) && before[i][j] == 0 && (v == 2 || v == 4) &&
       after == Placed(before, i, j, v)))
  }

  /** The board `restart_game` clears: every cell 0. */
  function EmptyBoard(): (b: Board)
    ensures IsBoard(b) && BoardTiles(b)
    ensures forall i :: 0 <= i < |b| ==> b[i] == Zeros(GridSize)
  {
    seq(GridSize, _ => Zeros(GridSize))
  }

  /** Every cell is empty, 2 or 4. */
  ghost predicate SmallTiles(b: Board)
  {
    IsBoard(b) && forall i, j :: InGrid(i, j) ==> b[i][j] == 0 || b[i][j] == 2 || b[i][j] == 4
  }

  /** Sum over the board of `f` applied to each cell. */
  function BoardTotal(b: Board, f: int -> int): int
  {
    if b == [] then 0 else RowTotal(b[0], f) + BoardTotal(b[1..], f)
  }

  // ---------------------------------------------------------------------------
  // Orientation plumbing

  lemma ReverseReverse<T>(s: seq<T>)
    ensures Reverse(Reverse(s)) == s
  {
  }

  /** Transposing a 4x4 board gives a 4x4 board holding cell (j, i) at (i, j). */
  lemma TransposeShape(b: Board)
    requires IsBoard(b)
    ensures IsBoard(Transpose(b))
    ensures forall i, j :: InGrid(i, j) ==> Transpose(b)[i][j] == b[j][i]
  {
    var w := Shortest(b);
    assert w == GridSize;
  }

  /** `transpose` of a square board is an involution. */
  lemma TransposeInvolution(b: Board)
    requires IsBoard(b)
    ensures Transpose(Transpose(b)) == b
  {
    TransposeShape(b);
    TransposeShape(Transpose(b));
    var t := Transpose(Transpose(b));
    forall i | 0 <= i < GridSize ensures t[i] == b[i] {
      assert forall j :: 0 <= j < GridSize ==> t[i][j] == b[i][j];
    }
  }

  lemma ReverseBoard(b: Board)
    requires IsBoard(b) && BoardTiles(b)
    ensures IsBoard(Reverse(b)) && BoardTiles(Reverse(b))
    ensures IsBoard(ReverseEach(b)) && BoardTiles(ReverseEach(b))
  {
  }

  lemma TransposeTiles(b: Board)
    requires IsBoard(b) && BoardTiles(b)
    ensures BoardTiles(Transpose(b))
  {
    TransposeShape(b);
    var t := Transpose(b);
    forall i | 0 <= i < |t| ensures AllTiles(t[i]) {
      forall j | 0 <= j < |t[i]| ensures IsTile(t[i][j]) {
        assert t[i][j] == b[j][i];
        assert AllTiles(b[j]);
      }
    }
  }

  lemma MergedBoardShape(rows: Board)
    requires IsBoard(rows) && BoardTiles(rows)
    ensures IsBoard(MergedBoard(rows)) && BoardTiles(MergedBoard(rows))
  {
    forall i | 0 <= i < |rows| ensures |MergedBoard(rows)[i]| == GridSize && AllTiles(MergedBoard(rows)[i]) {
      MergedRowShape(rows[i], GridSize);
      MergedRowTiles(rows[i], GridSize);
    }
  }

  /** Every move leaves a 4x4 board of tiles. */
  lemma MovedShape(d: Direction, b: Board)
    requires IsBoard(b) && BoardTiles(b)
    ensures IsBoard(Moved(d, b)) && BoardTiles(Moved(d, b))
  {
    match d
    case Up =>
      TransposeShape(b);
      TransposeTiles(b);
      MergedBoardShape(Transpose(b));
    case Down =>
      ReverseBoard(b);
      TransposeShape(Reverse(b));
      TransposeTiles(Reverse(b));
      MergedBoardShape(Transpose(Reverse(b)));
      ReverseBoard(MergedBoard(Transpose(Reverse(b))));
    case Left =>
      MergedBoardShape(b);
    case Right =>
      ReverseBoard(b);
      MergedBoardShape(ReverseEach(b));
      ReverseBoard(MergedBoard(ReverseEach(b)));
  }

  /** Direction dispatch, row by row: `left` merges each row, `right` merges each
      row read backwards and turns it round again. */
  lemma MovedRowsHorizontal(b: Board)
    requires IsBoard(b)
    ensures forall k :: 0 <= k < GridSize ==> Moved(Left, b)[k] == MergedRow(b[k], GridSize)
    ensures forall k :: 0 <= k < GridSize ==>
      Moved(Right, b)[k] == Reverse(MergedRow(Reverse(b[k]), GridSize))
  {
  }

  /** Direction dispatch for the vertical moves, as the code composes them: `up`
      stores as row k the merged column k, and `down` stores as row k the merged
      column 3 - k read bottom to top. Neither turns the result back into columns. */
  lemma MovedRowsVertical(b: Board)
    requires IsBoard(b)
    ensures forall k :: 0 <= k < GridSize ==> Moved(Up, b)[k] == MergedRow(Column(b, k), GridSize)
    ensures forall k :: 0 <= k < GridSize ==>
      Moved(Down, b)[k] == MergedRow(Reverse(Column(b, GridSize - 1 - k)), GridSize)
  {
    TransposeRows(b);
    MovedRowsDown(b);
  }

  lemma MovedRowsDown(b: Board)
    requires IsBoard(b)
    ensures forall k :: 0 <= k < GridSize ==>
      Moved(Down, b)[k] == MergedRow(Reverse(Column(b, GridSize - 1 - k)), GridSize)
  {
    var rb := Reverse(b);
    assert IsBoard(rb);
    TransposeRows(rb);
    var m := MergedBoard(Transpose(rb));
    assert Moved(Down, b) == Reverse(m);
    forall k | 0 <= k < GridSize
      ensures Moved(Down, b)[k] == MergedRow(Reverse(Column(b, GridSize - 1 - k)), GridSize)
    {
      var c := GridSize - 1 - k;
      assert Reverse(m)[k] == m[c];
      assert Column(rb, c) == Reverse(Column(b, c));
    }
  }

  /** Row `k` of a transposed board is column `k` of the board. */
  lemma TransposeRows(b: Board)
    requires IsBoard(b)
    ensures |Transpose(b)| == GridSize
    ensures forall k :: 0 <= k < GridSize ==> Transpose(b)[k] == Column(b, k)
  {
    assert Shortest(b) == GridSize;
  }

  // ---------------------------------------------------------------------------
  // Sums over the board

  lemma {:induction false} BoardTotalAppend(a: Board, c: Board, f: int -> int)
    ensures BoardTotal(a + c, f) == BoardTotal(a, f) + BoardTotal(c, f)
  {
    if a == [] {
      assert a + c == c;
    } else {
      assert (a + c)[1..] == a[1..] + c;
      BoardTotalAppend(a[1..], c, f);
    }
  }

  lemma {:induction false} RowTotalReverse(s: seq<int>, f: int -> int)
    ensures RowTotal(Reverse(s), f) == RowTotal(s, f)
  {
    if s != [] {
      assert Reverse(s) == Reverse(s[1..]) + [s[0]];
      RowTotalAppend(Reverse(s[1..]), [s[0]], f);
      RowTotalReverse(s[1..], f);
    }
  }

  lemma {:induction false} BoardTotalReverse(b: Board, f: int -> int)
    ensures BoardTotal(Reverse(b), f) == BoardTotal(b, f)
    ensures BoardTotal(ReverseEach(b), f) == BoardTotal(b, f)
  {
    if b != [] {
      assert Reverse(b) == Reverse(b[1..]) + [b[0]];
      BoardTotalAppend(Reverse(b[1..]), [b[0]], f);
      assert ReverseEach(b)[1..] == ReverseEach(b[1..]);
      RowTotalReverse(b[0], f);
      BoardTotalReverse(b[1..], f);
    }
  }

  function Heads(a: Board): seq<int>
    requires forall j :: 0 <= j < |a| ==> a[j] != []
  {
    seq(|a|, j requires 0 <= j < |a| => a[j][0])
  }

  function Tails(a: Board): Board
    requires forall j :: 0 <= j < |a| ==> a[j] != []
  {
    seq(|a|, j requires 0 <= j < |a| => a[j][1..])
  }

  /** Summing row by row equals summing the first cells and then the rest. */
  lemma {:induction false} HeadsTailsTotal(a: Board, f: int -> int)
    requires forall j :: 0 <= j < |a| ==> a[j] != []
    ensures BoardTotal(a, f) == RowTotal(Heads(a), f) + BoardTotal(Tails(a), f)
  {
    if a != [] {
      assert Heads(a)[1..] == Heads(a[1..]);
      assert Tails(a)[1..] == Tails(a[1..]);
      HeadsTailsTotal(a[1..], f);
    }
  }

  lemma {:induction false} EmptyRowsTotal(a: Board, f: int -> int)
    requires forall j :: 0 <= j < |a| ==> a[j] == []
    ensures BoardTotal(a, f) == 0
  {
    if a != [] {
      EmptyRowsTotal(a[1..], f);
    }
  }

  /** The columns of a board whose rows are all `n` long. */
  function Columns(b: Board, n: nat): Board
    requires forall i :: 0 <= i < |b| ==> |b[i]| == n
  {
    seq(n, j requires 0 <= j < n => Column(b, j))
  }

  lemma {:induction false} ColumnsTotal(b: Board, n: nat, f: int -> int)
    requires forall i :: 0 <= i < |b| ==> |b[i]| == n
    ensures BoardTotal(Columns(b, n), f) == BoardTotal(b, f)
  {
    var cols := Columns(b, n);
    if b == [] {
      EmptyRowsTotal(cols, f);
    } else {
      assert Heads(cols) == b[0];
      forall j | 0 <= j < n ensures Tails(cols)[j] == Columns(b[1..], n)[j] {
        assert Column(b, j)[1..] == Column(b[1..], j);
      }
      assert Tails(cols) == Columns(b[1..], n);
      HeadsTailsTotal(cols, f);
      ColumnsTotal(b[1..], n, f);
    }
  }

  /** Transposing a 4x4 board keeps every sum over its cells. */
  lemma TransposeTotal(b: Board, f: int -> int)
    requires IsBoard(b)
    ensures BoardTotal(Transpose(b), f) == BoardTotal(b, f)
  {
    TransposeShape(b);
    assert Transpose(b) == Columns(b, GridSize);
    ColumnsTotal(b, GridSize, f);
  }

  lemma {:induction false} MergedBoardSum(rows: Board)
    ensures BoardTotal(MergedBoard(rows), Value) == BoardTotal(rows, Value)
  {
    if rows != [] {
      assert MergedBoard(rows)[1..] == MergedBoard(rows[1..]);
      MergedRowSum(rows[0], GridSize);
      MergedBoardSum(rows[1..]);
    }
  }

  /** The score of a `merge` call: never negative, never more than the sum of the
      tiles, and zero exactly when the board keeps all its occupied cells. */
  lemma {:induction false} MergedBoardGain(rows: Board)
    requires BoardTiles(rows)
    ensures 0 <= BoardGain(rows) <= BoardTotal(rows, Value)
    ensures BoardTotal(MergedBoard(rows), Occupancy) <= BoardTotal(rows, Occupancy)
    ensures BoardGain(rows) == 0 <==>
      BoardTotal(MergedBoard(rows), Occupancy) == BoardTotal(rows, Occupancy)
  {
    if rows != [] {
      assert MergedBoard(rows)[1..] == MergedBoard(rows[1..]);
      RowGainBounds(rows[0], GridSize);
      MergedBoardGain(rows[1..]);
    }
  }

  /** Every move keeps the sum of the tiles. */
  lemma MovedSum(d: Direction, b: Board)
    requires IsBoard(b)
    ensures BoardTotal(Moved(d, b), Value) == BoardTotal(b, Value)
  {
    match d
    case Up =>
      MergedBoardSum(Transpose(b));
      TransposeTotal(b, Value);
    case Down =>
      BoardTotalReverse(b, Value);
      TransposeTotal(Reverse(b), Value);
      MergedBoardSum(Transpose(Reverse(b)));
      BoardTotalReverse(MergedBoard(Transpose(Reverse(b))), Value);
    case Left =>
      MergedBoardSum(b);
    case Right =>
      BoardTotalReverse(b, Value);
      MergedBoardSum(ReverseEach(b));
      BoardTotalReverse(MergedBoard(ReverseEach(b)), Value);
  }

  /** The score of a move: never negative, never more than the sum of the tiles,
      and zero exactly when no occupied cell is lost. */
  lemma MoveGainBounds(d: Direction, b: Board)
    requires IsBoard(b) && BoardTiles(b)
    ensures 0 <= MoveGain(d, b) <= BoardTotal(b, Value)
    ensures BoardTotal(Moved(d, b), Occupancy) <= BoardTotal(b, Occupancy)
    ensures MoveGain(d, b) == 0 <==> BoardTotal(Moved(d, b), Occupancy) == BoardTotal(b, Occupancy)
  {
    match d
    case Up =>
      TransposeTiles(b);
      TransposeTotal(b, Value);
      TransposeTotal(b, Occupancy);
      MergedBoardGain(Transpose(b));
    case Down =>
      ReverseBoard(b);
      BoardTotalReverse(b, Value);
      BoardTotalReverse(b, Occupancy);
      TransposeTiles(Reverse(b));
      TransposeTotal(Reverse(b), Value);
      TransposeTotal(Reverse(b), Occupancy);
      MergedBoardGain(Transpose(Reverse(b)));
      BoardTotalReverse(MergedBoard(Transpose(Reverse(b))), Occupancy);
    case Left =>
      MergedBoardGain(b);
    case Right =>
      ReverseBoard(b);
      BoardTotalReverse(b, Value);
      BoardTotalReverse(b, Occupancy);
      MergedBoardGain(ReverseEach(b));
      BoardTotalReverse(MergedBoard(ReverseEach(b)), Occupancy);
  }

  /** A move that leaves the board as it was earned no score. */
  lemma UnchangedEarnsNothing(d: Direction, b: Board)
    requires IsBoard(b) && BoardTiles(b)
    requires Moved(d, b) == b
    ensures MoveGain(d, b) == 0
  {
    MoveGainBounds(d, b);
  }

  // ---------------------------------------------------------------------------
  // The end of the game

  lemma {:induction false} SettledRows(rows: Board)
    requires forall i :: 0 <= i < |rows| ==>
      |rows[i]| == GridSize && NoEmpty(rows[i]) && NoEqualNeighbours(rows[i])
    ensures MergedBoard(rows) == rows
    ensures BoardGain(rows) == 0
  {
    if rows != [] {
      SettledRow(rows[0], GridSize);
      SettledRows(rows[1..]);
      assert MergedBoard(rows)[1..] == MergedBoard(rows[1..]);
    }
  }

  /** On a board where `can_move` fails, every move earns nothing; `left` and
      `right` leave the board alone, while `up` stores its transpose and `down`
      the transpose of the board turned upside down, turned upside down. */
  lemma StuckBoard(b: Board)
    requires IsBoard(b) && !Movable(b)
    ensures Moved(Left, b) == b && Moved(Right, b) == b
    ensures Moved(Up, b) == Transpose(b)
    ensures Moved(Down, b) == Reverse(Transpose(Reverse(b)))
    ensures MoveGain(Up, b) == 0 && MoveGain(Down, b) == 0
    ensures MoveGain(Left, b) == 0 && MoveGain(Right, b) == 0
  {
    StuckHorizontal(b);
    StuckUp(b);
    StuckDown(b);
  }

  lemma StuckHorizontal(b: Board)
    requires IsBoard(b) && !Movable(b)
    ensures Moved(Left, b) == b && Moved(Right, b) == b
    ensures MoveGain(Left, b) == 0 && MoveGain(Right, b) == 0
  {
    forall i | 0 <= i < GridSize ensures NoEmpty(b[i]) && NoEqualNeighbours(b[i]) {
      forall j | 0 <= j < GridSize ensures b[i][j] != 0 && (j < GridSize - 1 ==> b[i][j] != b[i][j + 1]) {
        assert !CellCanMove(b, i, j);
      }
    }
    SettledRows(b);
    var r := ReverseEach(b);
    forall i | 0 <= i < GridSize ensures NoEmpty(r[i]) && NoEqualNeighbours(r[i]) {
      forall j | 0 <= j < GridSize - 1 ensures r[i][j] != r[i][j + 1] {
        assert r[i][j] == b[i][GridSize - 1 - j] && r[i][j + 1] == b[i][GridSize - 2 - j];
      }
    }
    SettledRows(r);
    forall i | 0 <= i < GridSize ensures ReverseEach(r)[i] == b[i] {
      ReverseReverse(b[i]);
    }
    assert ReverseEach(r) == b;
  }

  lemma StuckUp(b: Board)
    requires IsBoard(b) && !Movable(b)
    ensures Moved(Up, b) == Transpose(b) && MoveGain(Up, b) == 0
  {
    TransposeShape(b);
    var t := Transpose(b);
    forall i | 0 <= i < GridSize ensures NoEmpty(t[i]) && NoEqualNeighbours(t[i]) {
      forall j | 0 <= j < GridSize ensures t[i][j] != 0 && (j < GridSize - 1 ==> t[i][j] != t[i][j + 1]) {
        assert !CellCanMove(b, j, i);
      }
    }
    SettledRows(t);
  }

  lemma StuckDown(b: Board)
    requires IsBoard(b) && !Movable(b)
    ensures Moved(Down, b) == Reverse(Transpose(Reverse(b))) && MoveGain(Down, b) == 0
  {
    TransposeShape(Reverse(b));
    var u := Transpose(Reverse(b));
    forall i | 0 <= i < GridSize ensures NoEmpty(u[i]) && NoEqualNeighbours(u[i]) {
      forall j | 0 <= j < GridSize ensures u[i][j] != 0 && (j < GridSize - 1 ==> u[i][j] != u[i][j + 1]) {
        assert u[i][j] == b[GridSize - 1 - j][i];
        assert !CellCanMove(b, GridSize - 1 - j, i);
        if j < GridSize - 1 {
          assert !CellCanMove(b, GridSize - 2 - j, i);
        }
      }
    }
    SettledRows(u);
  }

  /** A full board of alternating 2s and 4s is a lost game. */
  lemma CheckerboardIsStuck()
    ensures !Movable([[2, 4, 2, 4], [4, 2, 4, 2], [2, 4, 2, 4], [4, 2, 4, 2]])
  {
    var b: Board := [[2, 4, 2, 4], [4, 2, 4, 2], [2, 4, 2, 4], [4, 2, 4, 2]];
    forall i, j | InGrid(i, j) ensures !CellCanMove(b, i, j) {
      assert b[i][j] == if (i + j) % 2 == 0 then 2 else 4;
    }
  }

  // ---------------------------------------------------------------------------
  // Spawning

  lemma {:induction false} RowTotalUpdate(s: seq<int>, j: nat, v: int, f: int -> int)
    requires j < |s|
    ensures RowTotal(s[j := v], f) == RowTotal(s, f) - f(s[j]) + f(v)
  {
    if j > 0 {
      assert s[j := v][1..] == s[1..][j - 1 := v];
      RowTotalUpdate(s[1..], j - 1, v, f);
    } else {
      assert s[j := v][1..] == s[1..];
    }
  }

  lemma {:induction false} BoardTotalUpdate(b: Board, i: nat, r: seq<int>, f: int -> int)
    requires i < |b|
    ensures BoardTotal(b[i := r], f) == BoardTotal(b, f) - RowTotal(b[i], f) + RowTotal(r, f)
  {
    if i > 0 {
      assert b[i := r][1..] == b[1..][i - 1 := r];
      BoardTotalUpdate(b[1..], i - 1, r, f);
    } else {
      assert b[i := r][1..] == b[1..];
    }
  }

  /** Writing a 2 or a 4 into an empty cell of a 4x4 board of tiles gives a 4x4
      board of tiles with one more occupied cell and a sum larger by that value. */
  lemma PlacedOutcome(b: Board, i: int, j: int, v: int)
    requires IsBoard(b) && BoardTiles(b) && InGrid(i, j) && b[i][j] == 0 && (v == 2 || v == 4)
    ensures IsBoard(Placed(b, i, j, v)) && BoardTiles(Placed(b, i, j, v))
    ensures BoardTotal(Placed(b, i, j, v), Occupancy) == BoardTotal(b, Occupancy) + 1
    ensures BoardTotal(Placed(b, i, j, v), Value) == BoardTotal(b, Value) + v
  {
    var row := b[i][j := v];
    assert IsPowerOfTwo(v / 2);
    assert AllTiles(row) by {
      assert AllTiles(b[i]);
    }
    RowTotalUpdate(b[i], j, v, Occupancy);
    RowTotalUpdate(b[i], j, v, Value);
    BoardTotalUpdate(b, i, row, Occupancy);
    BoardTotalUpdate(b, i, row, Value);
  }

  /** Writing a 2 or a 4 into an empty cell is one of the outcomes of a spawn. */
  lemma PlacedIsSpawn(b: Board, i: int, j: int, v: int)
    requires IsBoard(b) && BoardTiles(b) && InGrid(i, j) && b[i][j] == 0 && (v == 2 || v == 4)
    ensures IsBoard(Placed(b, i, j, v)) && BoardTiles(Placed(b, i, j, v))
    ensures SpawnedFrom(b, Placed(b, i, j, v))
  {
    PlacedOutcome(b, i, j, v);
  }

  /** What `spawn_tile` can do: the board stays a 4x4 board of tiles; when it had an
      empty cell, exactly one more cell is occupied and the sum grows by 2 or 4. */
  lemma SpawnOutcome(before: Board, after: Board)
    requires IsBoard(before) && BoardTiles(before) && SpawnedFrom(before, after)
    ensures IsBoard(after) && BoardTiles(after)
    ensures EmptyCells(before) == [] ==> after == before
    ensures EmptyCells(before) != [] ==>
      BoardTotal(after, Occupancy) == BoardTotal(before, Occupancy) + 1 &&
      (BoardTotal(after, Value) == BoardTotal(before, Value) + 2 ||
       BoardTotal(after, Value) == BoardTotal(before, Value) + 4)
  {
    if EmptyCells(before) != [] || after != before {
      var i, j, v :| InGrid(i, j) && before[i][j] == 0 && (v == 2 || v == 4) &&
        after == Placed(before, i, j, v);
      assert (i, j) in EmptyCells(before);
      PlacedOutcome(before, i, j, v);
    }
  }

  /** Spawning keeps a board of 0s, 2s and 4s one. */
  lemma SpawnKeepsSmallTiles(before: Board, after: Board)
    requires SmallTiles(before) && SpawnedFrom(before, after)
    ensures SmallTiles(after)
  {
    if after != before {
      var i, j, v :| InGrid(i, j) && before[i][j] == 0 && (v == 2 || v == 4) &&
        after == Placed(before, i, j, v);
      forall i', j' | InGrid(i', j') ensures after[i'][j'] == 0 || after[i'][j'] == 2 || after[i'][j'] == 4 {
        if i' != i || j' != j {
          assert after[i'][j'] == before[i'][j'];
        }
      }
    }
  }

  /** The board of the end-to-end scenario: two 2s side by side in the top row
      merge left into a 4, earn 4 points, and the board changes, so a tile spawns. */
  lemma TwoTwosMergeLeft()
    ensures var b := [[2, 2, 0, 0], [0, 0, 0, 0], [0, 0, 0, 0], [0, 0, 0, 0]];
      Moved(Left, b) == [[4, 0, 0, 0], [0, 0, 0, 0], [0, 0, 0, 0], [0, 0, 0, 0]] &&
      MoveGain(Left, b) == 4 && Moved(Left, b) != b
  {
    var b: Board := [[2, 2, 0, 0], [0, 0, 0, 0], [0, 0, 0, 0], [0, 0, 0, 0]];
    assert Compact([2, 2, 0, 0]) == [2, 2];
    assert Compact([0, 0, 0, 0]) == [];
    assert MergedRow([2, 2, 0, 0], GridSize) == [4, 0, 0, 0];
    assert MergedRow([0, 0, 0, 0], GridSize) == [0, 0, 0, 0];
  }

  /** A board with fewer than 16 occupied cells has an empty cell, so it can move. */
  lemma RoomWhenSparse(b: Board)
    requires IsBoard(b) && BoardTotal(b, Occupancy) < GridSize * GridSize
    ensures EmptyCells(b) != [] && Movable(b)
  {
    if forall i :: 0 <= i < GridSize ==> NoEmpty(b[i]) {
      FullBoardCount(b);
      assert false;
    }
    var i :| 0 <= i < GridSize && !NoEmpty(b[i]);
    var j :| 0 <= j < GridSize && b[i][j] == 0;
    EmptyCellMakesRoom(b, i, j);
  }

  lemma EmptyCellMakesRoom(b: Board, i: int, j: int)
    requires IsBoard(b) && InGrid(i, j) && b[i][j] == 0
    ensures EmptyCells(b) != [] && Movable(b)
  {
    assert (i, j) in EmptyCells(b);
    assert CellCanMove(b, i, j);
  }

  /** A board of empty rows holds only small tiles, has an empty cell and
      counts no occupied cell. */
  lemma EmptyRowsFacts(b: Board)
    requires IsBoard(b) && forall i :: 0 <= i < |b| ==> b[i] == Zeros(GridSize)
    ensures SmallTiles(b) && EmptyCells(b) != []
    ensures BoardTotal(b, Occupancy) == 0
  {
    EmptyRowsRoom(b);
    EmptyRowsCount(b);
    EmptyRowsSmall(b);
  }

  lemma EmptyRowsRoom(b: Board)
    requires IsBoard(b) && forall i :: 0 <= i < |b| ==> b[i] == Zeros(GridSize)
    ensures EmptyCells(b) != []
  {
    assert b[0] == Zeros(GridSize);
    EmptyCellMakesRoom(b, 0, 0);
  }

  lemma EmptyRowsSmall(b: Board)
    requires IsBoard(b) && forall i :: 0 <= i < |b| ==> b[i] == Zeros(GridSize)
    ensures SmallTiles(b)
  {
    forall i, j | InGrid(i, j) ensures b[i][j] == 0 {
      assert b[i] == Zeros(GridSize);
    }
  }

  lemma {:induction false} EmptyRowsCount(b: Board)
    requires forall i :: 0 <= i < |b| ==> b[i] == Zeros(GridSize)
    ensures BoardTotal(b, Occupancy) == 0
  {
    if b != [] {
      ZerosTotal(GridSize, Occupancy);
      EmptyRowsCount(b[1..]);
    }
  }

  /** `restart_game`'s two spawns on a cleared board leave exactly two occupied
      cells, each 2 or 4, and a board that can move. */
  lemma TwoSpawnsFromEmpty(mid: Board, fin: Board)
    requires SpawnedFrom(EmptyBoard(), mid) && SpawnedFrom(mid, fin)
    ensures IsBoard(fin) && BoardTiles(fin) && SmallTiles(fin)
    ensures BoardTotal(fin, Occupancy) == 2 && Movable(fin)
  {
    var empty := EmptyBoard();
    EmptyRowsFacts(empty);
    SpawnOutcome(empty, mid);
    SpawnKeepsSmallTiles(empty, mid);
    RoomWhenSparse(mid);
    SpawnOutcome(mid, fin);
    SpawnKeepsSmallTiles(mid, fin);
    RoomWhenSparse(fin);
  }

  lemma {:induction false} FullBoardCount(b: Board)
    requires forall i :: 0 <= i < |b| ==> |b[i]| == GridSize && NoEmpty(b[i])
    ensures BoardTotal(b, Occupancy) == GridSize * |b|
  {
    if b != [] {
      OccupancyOfFull(b[0]);
      FullBoardCount(b[1..]);
    }
  }
}
