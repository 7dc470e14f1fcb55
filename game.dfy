/*
 * The board engine of the 2048 game: an object holding an N x N board and
 * a running score, whose methods move the tiles, spawn new ones and tell
 * whether the game can go on. Each method is proved against the pure
 * functions of modules Rows and Grid.
 */
module Game {
  import opened Rows
  import opened Grid

  datatype Direction = Left | Right | Up | Down

  datatype Option<T> = None | Some(value: T)

  /** The four names `move` accepts; any other name is not a direction. */
  function DirectionNamed(name: string): (d: Option<Direction>)
    ensures d == Some(Left) <==> name == "left"
    ensures d == Some(Right) <==> name == "right"
    ensures d == Some(Up) <==> name == "up"
    ensures d == Some(Down) <==> name == "down"
    ensures d.None? <==> name !in {"left", "right", "up", "down"}
  {
    if name == "left" then Some(Left)
    else if name == "right" then Some(Right)
    else if name == "up" then Some(Up)
    else if name == "down" then Some(Down)
    else None
  }

  /**
   * The board after moving in direction d. A move that changes the board
   * leaves an empty cell behind, and a move that changes nothing scores
   * nothing.
   */
  function Slide(d: Direction, b: Grid, n: nat): (s: Grid)
    requires IsSquare(b, n)
    ensures IsSquare(s, n)
    ensures s != b ==> HasEmptyCell(s)
    ensures s == b ==> SlideGain(d, b, n) == 0
  {
    UnchangedBoardScoresNothing(b, n);
    match d
    case Left => SlideLeftLeavesRoom(b, n); SlideLeft(b, n)
    case Right => SlideRightLeavesRoom(b, n); SlideRight(b, n)
    case Up => SlideUpLeavesRoom(b, n); SlideUp(b, n)
    case Down => SlideDownLeavesRoom(b, n); SlideDown(b, n)
  }

  /** The score earned by moving in direction d; never negative. */
  function SlideGain(d: Direction, b: Grid, n: nat): (g: int)
    requires IsSquare(b, n)
    ensures g >= 0
  {
    match d
    case Left => LeftGain(b, n)
    case Right => RightGain(b, n)
    case Up => UpGain(b, n)
    case Down => DownGain(b, n)
  }

  /** On a board where no move is possible, every direction leaves it as it is. */
  lemma StuckInEveryDirection(d: Direction, b: Grid, n: nat)
    requires IsSquare(b, n) && !Movable(b, n)
    ensures Slide(d, b, n) == b
  {
    TerminalIsStuck(b, n);
  }

  /** A move in any direction keeps every cell empty, blocked or a tile. */
  lemma SlideKeepsTileValues(d: Direction, b: Grid, n: nat)
    requires IsSquare(b, n) && TileValues(b)
    ensures TileValues(Slide(d, b, n))
  {
    match d
    case Left => SlideLeftKeepsTileValues(b, n);
    case Right => SlideRightKeepsTileValues(b, n);
    case Up => SlideUpKeepsTileValues(b, n);
    case Down => SlideDownKeepsTileValues(b, n);
  }

  class Game2048 {
    const size: nat
    var board: Grid
    var score: int

    /** The board is size x size and the score, which only grows, is not negative. */
    ghost predicate Valid()
      reads this
    {
      IsSquare(board, size) && score >= 0
    }

    /**
     * A game on a given layout (copied as it is, blocked cells included,
     * nothing spawned), or, when the layout is empty, on an empty board with
     * two spawned tiles. The random draws of the two spawns come first; the
     * size defaults to 4 and the layout to none.
     */
    constructor (pick1: nat, four1: bool, pick2: nat, four2: bool, size: nat := 4, initBoard: Grid := [])
      requires initBoard != [] ==> IsSquare(initBoard, size)
      ensures Valid() && this.size == size && score == 0
      ensures initBoard != [] ==> board == initBoard
      ensures initBoard == [] ==> board == Spawn(Spawn(EmptyGrid(size), pick1, four1), pick2, four2)
      ensures initBoard == [] ==> TileValues(board)
    {
      this.size := size;
      score := 0;
      board := if initBoard != [] then initBoard else EmptyGrid(size);
      new;
      if initBoard == [] {
        EmptyGridTileValues(size);
        SpawnTile(pick1, four1);
        SpawnTile(pick2, four2);
      }
    }

    /**
     * Turns one empty cell, chosen by `pick` among the empty cells in
     * row-major order, into a 2, or a 4 when `four` holds; a full board is
     * left alone.
     */
    method SpawnTile(pick: nat, four: bool)
      requires Valid()
      modifies this`board
      ensures Valid()
      ensures board == Spawn(old(board), pick, four)
      ensures !HasEmptyCell(old(board)) ==> board == old(board)
      ensures HasEmptyCell(old(board)) ==>
                SpawnedOne(old(board), board) && |EmptyCells(board)| == |EmptyCells(old(board))| - 1
      ensures TileValues(old(board)) ==> TileValues(board)
    {
      if TileValues(board) {
        SpawnKeepsTileValues(board, pick, four);
      }
      var empty := EmptyCells(board);
      if empty == [] {
        return;
      }
      var cell := empty[pick % |empty|];
      board := board[cell.row := board[cell.row][cell.col := if four then 4 else 2]];
      SpawnTakesOneCell(old(board), pick, four);
    }

    /**
     * The merge pass, in place on the first `size` cells of `row`: each
     * doubled cell's new value is added to the score.
     */
    method Merge(row: array<int>)
      requires row.Length >= size
      modifies row, this`score
      ensures row[..] == MergePass(old(row[..size])) + old(row[size..])
      ensures score == old(score) + MergeGain(old(row[..size]))
    {
      ghost var orig := row[..size];
      ghost var tail := row[size..];
      ghost var cur := row[..];
      var i := 0;
      while i + 1 < size
        invariant i == 0 || i < size
        invariant row[..] == cur && |cur| == row.Length
        invariant cur[..i] + MergePass(cur[i..size]) == MergePass(orig)
        invariant cur[size..] == tail
        invariant score + MergeGain(cur[i..size]) == old(score) + MergeGain(orig)
      {
        MergeAtStep(cur, i, size);
        if row[i] > 0 && row[i] == row[i + 1] {
          row[i] := 2 * row[i];
          score := score + row[i];
          row[i + 1] := 0;
        }
        cur := MergeAt(cur, i);
        i := i + 1;
      }
      assert MergePass(cur[i..size]) == cur[i..size];
      assert cur[..size] == cur[..i] + cur[i..size];
      assert cur == cur[..size] + cur[size..];
    }

    /**
     * The body of move_left's loop for row r: compress it, merge the copy
     * in place, compress again. The score, which held the gains of the rows
     * before r, now also holds the gain of row r.
     */
    method MoveRowLeft(rows: Grid, r: nat, ghost base: int) returns (newRow: Row)
      requires r < |rows| && |rows[r]| == size
      requires score == base + GainOfRows(rows, size, r)
      modifies this`score
      ensures newRow == MoveRow(rows[r], size)
      ensures score == base + GainOfRows(rows, size, r + 1)
    {
      var compressed := Compress(rows[r], size);
      var cells := new int[size](k requires 0 <= k < size => compressed[k]);
      assert cells[..size] == compressed && cells[size..] == [];
      Merge(cells);
      assert cells[..] == MergePass(compressed);
      newRow := Compress(cells[..], size);
    }

    /**
     * Moves every row to the left (compress, merge, compress) and reports
     * whether any row changed.
     */
    method MoveLeft() returns (moved: bool)
      requires Valid()
      modifies this
      ensures Valid()
      ensures board == SlideLeft(old(board), size)
      ensures score == old(score) + LeftGain(old(board), size)
      ensures moved <==> board != old(board)
    {
      var rows := board;
      moved := false;
      var newBoard: Grid := [];
      var r := 0;
      while r < |rows|
        invariant r <= |rows|
        invariant newBoard == MovedRows(rows, size, r)
        invariant moved == AnyRowChanged(rows, size, r)
        invariant score == old(score) + GainOfRows(rows, size, r)
      {
        var newRow := MoveRowLeft(rows, r, old(score));
        newBoard := newBoard + [newRow];
        moved := moved || newRow != rows[r];
        r := r + 1;
      }
      SlideLeftByRows(rows, size);
      board := newBoard;
    }

    /** Mirrors the board left to right. */
    method Reverse()
      requires Valid()
      modifies this`board
      ensures Valid()
      ensures board == Mirror(old(board))
    {
      board := Mirror(board);
    }

    /** Swaps the rows and columns of the board. */
    method Transpose()
      requires Valid()
      modifies this`board
      ensures Valid()
      ensures board == Transposed(old(board), size)
    {
      board := Transposed(board, size);
    }

    method MoveRight() returns (moved: bool)
      requires Valid()
      modifies this
      ensures Valid()
      ensures board == SlideRight(old(board), size)
      ensures score == old(score) + RightGain(old(board), size)
      ensures moved <==> board != old(board)
    {
      Reverse();
      moved := MoveLeft();
      Reverse();
      SlideRightChanged(old(board), size);
    }

    method MoveUp() returns (moved: bool)
      requires Valid()
      modifies this
      ensures Valid()
      ensures board == SlideUp(old(board), size)
      ensures score == old(score) + UpGain(old(board), size)
      ensures moved <==> board != old(board)
    {
      Transpose();
      moved := MoveLeft();
      Transpose();
      SlideUpChanged(old(board), size);
    }

    method MoveDown() returns (moved: bool)
      requires Valid()
      modifies this
      ensures Valid()
      ensures board == SlideDown(old(board), size)
      ensures score == old(score) + DownGain(old(board), size)
      ensures moved <==> board != old(board)
    {
      Transpose();
      moved := MoveRight();
      Transpose();
      SlideDownChanged(old(board), size);
    }

    /** Dispatches a move to the method for direction d. */
    method MoveIn(d: Direction) returns (moved: bool)
      requires Valid()
      modifies this
      ensures Valid()
      ensures board == Slide(d, old(board), size)
      ensures score == old(score) + SlideGain(d, old(board), size)
      ensures moved <==> board != old(board)
    {
      match d
      case Left => moved := MoveLeft();
      case Right => moved := MoveRight();
      case Up => moved := MoveUp();
      case Down => moved := MoveDown();
    }

    /**
     * Moves in the named direction and, if the board changed, spawns one
     * tile with the given draws. An unknown name changes nothing, and so
     * does any direction on a board where no move is possible.
     */
    method Move(direction: string, pick: nat, four: bool) returns (moved: bool)
      requires Valid()
      modifies this
      ensures Valid()
      ensures DirectionNamed(direction).None? ==> !moved && board == old(board) && score == old(score)
      ensures DirectionNamed(direction).Some? ==>
                var d := DirectionNamed(direction).value;
                && moved == (Slide(d, old(board), size) != old(board))
                && score == old(score) + SlideGain(d, old(board), size)
                && board == (if moved then Spawn(Slide(d, old(board), size), pick, four) else old(board))
                && (moved ==> SpawnedOne(Slide(d, old(board), size), board))
      ensures !moved ==> board == old(board) && score == old(score)
      ensures !Movable(old(board), size) ==> !moved
      ensures TileValues(old(board)) ==> TileValues(board)
    {
      var named := DirectionNamed(direction);
      if named.None? {
        return false;
      }
      moved := MoveIn(named.value);
      ghost var slid := board;
      if TileValues(old(board)) {
        SlideKeepsTileValues(named.value, old(board), size);
      }
      if moved {
        SpawnTile(pick, four);
        assert SpawnedOne(slid, board);
      }
      if !Movable(old(board), size) {
        StuckInEveryDirection(named.value, old(board), size);
      }
    }

    /**
     * Whether the game can go on: some cell is empty, or two horizontally
     * or vertically adjacent cells hold the same value (blocked cells
     * included).
     */
    method CanMove() returns (can: bool)
      requires Valid()
      ensures can <==> Movable(board, size)
    {
      var r := 0;
      while r < |board|
        invariant 0 <= r <= |board|
        invariant forall k, c :: 0 <= k < r && 0 <= c < |board[k]| ==> board[k][c] != 0
      {
        if 0 in board[r] {
          return true;
        }
        r := r + 1;
      }
      r := 0;
      while r < size
        invariant 0 <= r <= size
        invariant forall k, c :: 0 <= k < r ==> !EqualRight(board, k, c)
      {
        var c := 0;
        while c + 1 < size
          invariant 0 <= c && (c == 0 || c < size)
          invariant forall j :: 0 <= j < c ==> !EqualRight(board, r, j)
        {
          if board[r][c] == board[r][c + 1] {
            assert EqualRight(board, r, c);
            return true;
          }
          c := c + 1;
        }
        r := r + 1;
      }
      var c := 0;
      while c < size
        invariant 0 <= c <= size
        invariant forall k, j :: 0 <= j < c ==> !EqualBelow(board, k, j)
      {
        r := 0;
        while r + 1 < size
          invariant 0 <= r && (r == 0 || r < size)
          invariant forall k :: 0 <= k < r ==> !EqualBelow(board, k, c)
        {
          if board[r][c] == board[r + 1][c] {
            assert EqualBelow(board, r, c);
            return true;
          }
          r := r + 1;
        }
        c := c + 1;
      }
      return false;
    }
  }
}
