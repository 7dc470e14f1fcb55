/*
 * The whole N x N board as a value: the two rebuilds `reverse` and
 * `transpose`, the four directional slides built from the row move, the
 * list of empty cells and the placement of a new tile, and the condition
 * `can_move` tests.
 */
module Grid {
  import opened Rows

  type Grid = seq<Row>

  /** The board has n rows of n cells each. */
  predicate IsSquare(b: Grid, n: nat)
  {
    |b| == n && forall r :: 0 <= r < n ==> |b[r]| == n
  }

  /** An n x n board of empty cells. */
  function EmptyGrid(n: nat): (b: Grid)
    ensures IsSquare(b, n)
  {
    seq(n, _ => Zeros(n))
  }

  // ---------------------------------------------------------------------
  // reverse and transpose (game2048.py:69-75)
  // ---------------------------------------------------------------------

  /** A row read from right to left. */
  function Reversed(s: Row): (t: Row)
    ensures |t| == |s|
  {
    seq(|s|, k requires 0 <= k < |s| => s[|s| - 1 - k])
  }

  /** The board mirrored left to right: every row reversed. */
  function Mirror(b: Grid): (m: Grid)
    ensures |m| == |b|
    ensures forall r :: 0 <= r < |b| ==> |m[r]| == |b[r]|
    ensures forall r, c :: 0 <= r < |b| && 0 <= c < |b[r]| ==> m[r][c] == b[r][|b[r]| - 1 - c]
  {
    seq(|b|, r requires 0 <= r < |b| => Reversed(b[r]))
  }

  /** The board with rows and columns swapped. */
  function Transposed(b: Grid, n: nat): (t: Grid)
    requires IsSquare(b, n)
    ensures IsSquare(t, n)
  {
    seq(n, r requires 0 <= r < n => seq(n, c requires 0 <= c < n => b[c][r]))
  }

  lemma ReversedInvolution(s: Row)
    ensures Reversed(Reversed(s)) == s
  {
    assert forall k :: 0 <= k < |s| ==> Reversed(Reversed(s))[k] == s[k];
  }

  /** Mirroring twice gives back the board. */
  lemma MirrorInvolution(b: Grid)
    ensures Mirror(Mirror(b)) == b
  {
    forall r | 0 <= r < |b| ensures Mirror(Mirror(b))[r] == b[r] {
      ReversedInvolution(b[r]);
    }
  }

  /** Transposing twice gives back the board. */
  lemma TransposeInvolution(b: Grid, n: nat)
    requires IsSquare(b, n)
    ensures Transposed(Transposed(b, n), n) == b
  {
    var t := Transposed(Transposed(b, n), n);
    forall r | 0 <= r < n ensures t[r] == b[r] {
      assert forall c :: 0 <= c < n ==> t[r][c] == b[r][c];
    }
  }

  // ---------------------------------------------------------------------
  // The four slides (game2048.py:38-67)
  // ---------------------------------------------------------------------

  /** move_left on the board: every row moved on its own. */
  function SlideLeft(b: Grid, n: nat): (s: Grid)
    ensures |s| == |b|
    ensures IsSquare(b, n) ==> IsSquare(s, n)
  {
    seq(|b|, r requires 0 <= r < |b| => MoveRow(b[r], n))
  }

  /** The score move_left earns on the first k rows. */
  function GainOfRows(b: Grid, n: nat, k: nat): (g: int)
    requires k <= |b|
    ensures g >= 0
  {
    if k == 0 then 0 else GainOfRows(b, n, k - 1) + RowGain(b[k - 1], n)
  }

  /** The score move_left earns: the rows' gains added up. */
  function LeftGain(b: Grid, n: nat): (g: int)
    ensures g >= 0
  {
    GainOfRows(b, n, |b|)
  }

  /** move_right: mirror, move left, mirror back. */
  function SlideRight(b: Grid, n: nat): (s: Grid)
    requires IsSquare(b, n)
    ensures IsSquare(s, n)
  {
    Mirror(SlideLeft(Mirror(b), n))
  }

  /** The score move_right earns; never negative. */
  function RightGain(b: Grid, n: nat): (g: int)
    ensures g >= 0
  {
    LeftGain(Mirror(b), n)
  }

  /** move_up: transpose, move left, transpose back. */
  function SlideUp(b: Grid, n: nat): (s: Grid)
    requires IsSquare(b, n)
    ensures IsSquare(s, n)
  {
    Transposed(SlideLeft(Transposed(b, n), n), n)
  }

  /** The score move_up earns; never negative. */
  function UpGain(b: Grid, n: nat): (g: int)
    requires IsSquare(b, n)
    ensures g >= 0
  {
    LeftGain(Transposed(b, n), n)
  }

  /** move_down: transpose, move right, transpose back. */
  function SlideDown(b: Grid, n: nat): (s: Grid)
    requires IsSquare(b, n)
    ensures IsSquare(s, n)
  {
    Transposed(SlideRight(Transposed(b, n), n), n)
  }

  /** The score move_down earns; never negative. */
  function DownGain(b: Grid, n: nat): (g: int)
    requires IsSquare(b, n)
    ensures g >= 0
  {
    RightGain(Transposed(b, n), n)
  }

  /** The number of tiles (non-empty cells) on the board. */
  function TileCount(b: Grid): nat
  {
    if |b| == 0 then 0 else TileCount(b[..|b| - 1]) + |NonZero(b[|b| - 1])|
  }

  /** move_left keeps every row sum. */
  lemma SlideLeftKeepsSums(b: Grid, n: nat)
    ensures forall r :: 0 <= r < |b| ==> Sum(SlideLeft(b, n)[r]) == Sum(b[r])
  {
    forall r | 0 <= r < |b| ensures Sum(SlideLeft(b, n)[r]) == Sum(b[r]) {
      MoveRowKeepsSumAndTiles(b[r], n);
    }
  }

  /** move_left keeps the number of blocked cells (-1) in every row. */
  lemma SlideLeftKeepsBlocked(b: Grid, n: nat)
    ensures forall r :: 0 <= r < |b| ==> multiset(SlideLeft(b, n)[r])[-1] == multiset(b[r])[-1]
  {
    forall r | 0 <= r < |b| ensures multiset(SlideLeft(b, n)[r])[-1] == multiset(b[r])[-1] {
      MoveRowCount(b[r], n, -1);
    }
  }

  /** move_left never adds a tile to the board. */
  lemma {:induction false} SlideLeftNeverAddsTiles(b: Grid, n: nat)
    ensures TileCount(SlideLeft(b, n)) <= TileCount(b)
  {
    if |b| > 0 {
      var k := |b| - 1;
      SlideLeftNeverAddsTiles(b[..k], n);
      assert SlideLeft(b[..k], n) == SlideLeft(b, n)[..k];
      MoveRowKeepsSumAndTiles(b[k], n);
    }
  }

  /** The first k rows of the board, each moved left: what move_left has built after k rows. */
  function MovedRows(b: Grid, n: nat, k: nat): (s: Grid)
    requires k <= |b|
    ensures |s| == k
  {
    if k == 0 then [] else MovedRows(b, n, k - 1) + [MoveRow(b[k - 1], n)]
  }

  /** Whether moving one of the first k rows changed it: move_left's flag after k rows. */
  function AnyRowChanged(b: Grid, n: nat, k: nat): (changed: bool)
    requires k <= |b|
    ensures changed <==> exists j :: 0 <= j < k && MoveRow(b[j], n) != b[j]
  {
    k > 0 && (AnyRowChanged(b, n, k - 1) || MoveRow(b[k - 1], n) != b[k - 1])
  }

  /** A prefix extended by one row is the longer prefix exactly when both parts agree. */
  lemma PrefixStep(b: Grid, k: nat, done: Grid, x: Row)
    requires k < |b|
    ensures (done + [x] == b[..k + 1]) <==> (done == b[..k] && x == b[k])
  {
    assert b[..k + 1] == b[..k] + [b[k]];
    if done + [x] == b[..k + 1] {
      assert (done + [x])[..|done|] == done;
    }
  }

  /** The rows built by the loop are the first rows of move_left's board. */
  lemma {:induction false} MovedRowsAreSlide(b: Grid, n: nat, k: nat)
    requires k <= |b|
    ensures MovedRows(b, n, k) == SlideLeft(b, n)[..k]
  {
    if k > 0 {
      MovedRowsAreSlide(b, n, k - 1);
      PrefixStep(SlideLeft(b, n), k - 1, MovedRows(b, n, k - 1), MoveRow(b[k - 1], n));
    }
  }

  /** The loop's flag is set exactly when the rows built differ from the rows read. */
  lemma {:induction false} AnyRowChangedIff(b: Grid, n: nat, k: nat)
    requires k <= |b|
    ensures AnyRowChanged(b, n, k) <==> MovedRows(b, n, k) != b[..k]
  {
    if k > 0 {
      AnyRowChangedIff(b, n, k - 1);
      PrefixStep(b, k - 1, MovedRows(b, n, k - 1), MoveRow(b[k - 1], n));
    }
  }

  /** After every row, the loop of move_left has built move_left's board and flag. */
  lemma SlideLeftByRows(b: Grid, n: nat)
    ensures MovedRows(b, n, |b|) == SlideLeft(b, n)
    ensures AnyRowChanged(b, n, |b|) <==> SlideLeft(b, n) != b
  {
    MovedRowsAreSlide(b, n, |b|);
    AnyRowChangedIff(b, n, |b|);
    assert b[..|b|] == b;
    assert SlideLeft(b, n)[..|b|] == SlideLeft(b, n);
  }

  /** A move_left that changes nothing scores nothing. */
  lemma SlideLeftUnchangedGainsNothing(b: Grid, n: nat)
    requires SlideLeft(b, n) == b
    ensures LeftGain(b, n) == 0
  {
    forall r | 0 <= r < |b|
      ensures RowGain(b[r], n) == 0
    {
      assert MoveRow(b[r], n) == SlideLeft(b, n)[r];
      MoveRowScoringChanges(b[r], n);
    }
    ZeroRowGains(b, n, |b|);
  }

  lemma {:induction false} ZeroRowGains(b: Grid, n: nat, k: nat)
    requires k <= |b| && forall r :: 0 <= r < k ==> RowGain(b[r], n) == 0
    ensures GainOfRows(b, n, k) == 0
  {
    if k > 0 {
      ZeroRowGains(b, n, k - 1);
      assert RowGain(b[k - 1], n) == 0;
    }
  }

  // ---------------------------------------------------------------------
  // Empty cells and spawning (game2048.py:15-21)
  // ---------------------------------------------------------------------

  datatype Cell = Cell(row: nat, col: nat)

  /** The board has a cell holding 0. */
  predicate HasEmptyCell(b: Grid)
  {
    exists r, c :: 0 <= r < |b| && 0 <= c < |b[r]| && b[r][c] == 0
  }

  /** The empty cells of row r from column c on, left to right. */
  function EmptyInRow(row: Row, r: nat, c: nat): (cells: seq<Cell>)
    ensures forall cell :: cell in cells <==> cell.row == r && c <= cell.col < |row| && row[cell.col] == 0
    decreases |row| - c
  {
    if c >= |row| then [] else (if row[c] == 0 then [Cell(r, c)] else []) + EmptyInRow(row, r, c + 1)
  }

  /** The empty cells of the rows from r on, in row-major order. */
  function EmptyFrom(b: Grid, r: nat): (cells: seq<Cell>)
    ensures forall cell :: cell in cells <==>
              r <= cell.row < |b| && cell.col < |b[cell.row]| && b[cell.row][cell.col] == 0
    decreases |b| - r
  {
    if r >= |b| then [] else EmptyInRow(b[r], r, 0) + EmptyFrom(b, r + 1)
  }

  /** The list of empty cells `spawn_tile` chooses from: exactly the cells holding 0. */
  function EmptyCells(b: Grid): (cells: seq<Cell>)
    ensures forall cell :: cell in cells <==>
              cell.row < |b| && cell.col < |b[cell.row]| && b[cell.row][cell.col] == 0
    ensures cells != [] <==> HasEmptyCell(b)
  {
    EmptyCellListed(b);
    EmptyFrom(b, 0)
  }

  lemma EmptyCellListed(b: Grid)
    ensures HasEmptyCell(b) <==> EmptyFrom(b, 0) != []
  {
    var cells := EmptyFrom(b, 0);
    if HasEmptyCell(b) {
      var r, c :| 0 <= r < |b| && 0 <= c < |b[r]| && b[r][c] == 0;
      assert Cell(r, c) in cells;
    }
    if cells != [] {
      assert cells[0] in cells;
    }
  }

  /**
   * The board after exactly one empty cell became a new tile of 2 or 4 and
   * every other cell kept its value.
   */
  ghost predicate SpawnedOne(before: Grid, after: Grid)
  {
    |after| == |before| &&
    (forall r :: 0 <= r < |before| ==> |after[r]| == |before[r]|) &&
    exists r, c :: 0 <= r < |before| && 0 <= c < |before[r]| && before[r][c] == 0 &&
      (after[r][c] == 2 || after[r][c] == 4) &&
      forall r', c' :: 0 <= r' < |before| && 0 <= c' < |before[r']| && (r', c') != (r, c) ==>
        after[r'][c'] == before[r'][c']
  }

  /**
   * `spawn_tile` with its random draws supplied: `pick` chooses among the
   * empty cells (reduced modulo their number) and `four` is the outcome of
   * the 10% coin that makes the new tile a 4 instead of a 2.
   */
  function Spawn(b: Grid, pick: nat, four: bool): (s: Grid)
    ensures !HasEmptyCell(b) ==> s == b
    ensures HasEmptyCell(b) ==> SpawnedOne(b, s)
  {
    var cells := EmptyCells(b);
    if cells == [] then b
    else
      var cell := cells[pick % |cells|];
      var s := b[cell.row := b[cell.row][cell.col := if four then 4 else 2]];
      assert cell in cells;
      assert SpawnedOne(b, s) by {
        var r, c := cell.row, cell.col;
        assert forall r', c' :: 0 <= r' < |b| && 0 <= c' < |b[r']| && (r', c') != (r, c) ==>
          s[r'][c'] == b[r'][c'];
      }
      s
  }

  /** Spawning on a board with an empty cell leaves one empty cell fewer. */
  lemma SpawnTakesOneCell(b: Grid, pick: nat, four: bool)
    requires HasEmptyCell(b)
    ensures |EmptyCells(Spawn(b, pick, four))| == |EmptyCells(b)| - 1
  {
    var cells := EmptyCells(b);
    var cell := cells[pick % |cells|];
    assert cell in cells;
    var v := if four then 4 else 2;
    var row' := b[cell.row][cell.col := v];
    EmptyInRowUpdate(b[cell.row], cell.row, cell.col, v, 0);
    EmptyFromUpdate(b, cell.row, row', 0);
  }

  /** Filling one empty cell of a row removes it from the row's list. */
  lemma {:induction false} EmptyInRowUpdate(row: Row, r: nat, c: nat, v: int, k: nat)
    requires c < |row| && row[c] == 0 && v != 0
    ensures |EmptyInRow(row[c := v], r, k)| == |EmptyInRow(row, r, k)| - (if k <= c then 1 else 0)
    decreases |row| - k
  {
    if k < |row| {
      EmptyInRowUpdate(row, r, c, v, k + 1);
    }
  }

  /** Replacing row r0 changes only that row's share of the list. */
  lemma {:induction false} EmptyFromUpdate(b: Grid, r0: nat, x: Row, r: nat)
    requires r0 < |b|
    ensures |EmptyFrom(b[r0 := x], r)| ==
            |EmptyFrom(b, r)| + (if r <= r0 then |EmptyInRow(x, r0, 0)| - |EmptyInRow(b[r0], r0, 0)| else 0)
    decreases |b| - r
  {
    if r < |b| {
      EmptyFromUpdate(b, r0, x, r + 1);
    }
  }

  // ---------------------------------------------------------------------
  // can_move (game2048.py:92-106)
  // ---------------------------------------------------------------------

  /** Cell (r, c) and its right neighbour hold the same value. */
  predicate EqualRight(b: Grid, r: int, c: int)
  {
    0 <= r < |b| && 0 <= c && c + 1 < |b[r]| && b[r][c] == b[r][c + 1]
  }

  /** Cell (r, c) and the cell below it hold the same value. */
  predicate EqualBelow(b: Grid, r: int, c: int)
  {
    0 <= r && r + 1 < |b| && 0 <= c < |b[r]| && c < |b[r + 1]| && b[r][c] == b[r + 1][c]
  }

  /** Two horizontally or two vertically adjacent cells hold the same value. */
  ghost predicate HasEqualNeighbours(b: Grid)
    ensures HasMergeablePair(b) ==> HasEqualNeighbours(b)
  {
    (exists r, c :: EqualRight(b, r, c)) || (exists r, c :: EqualBelow(b, r, c))
  }

  /** What `can_move` answers: some cell is empty or some neighbours are equal. */
  ghost predicate Movable(b: Grid, n: nat)
    requires IsSquare(b, n)
    ensures HasEmptyCell(b) || HasMergeablePair(b) ==> Movable(b, n)
  {
    HasEmptyCell(b) || HasEqualNeighbours(b)
  }

  /** Two adjacent tiles of equal positive value: a pair `merge` would join. */
  ghost predicate HasMergeablePair(b: Grid)
  {
    (exists r, c :: EqualRight(b, r, c) && b[r][c] > 0) ||
    (exists r, c :: EqualBelow(b, r, c) && b[r][c] > 0)
  }

  // ---------------------------------------------------------------------
  // How the rebuilds carry empty cells and pairs
  // ---------------------------------------------------------------------

  /** Cell (r, c) of the mirrored board is cell (r, n - 1 - c) of the board. */
  lemma MirrorCell(b: Grid, n: nat, r: int, c: int)
    requires IsSquare(b, n) && 0 <= r < n && 0 <= c < n
    ensures Mirror(b)[r][c] == b[r][n - 1 - c]
  {
  }

  /** A horizontal pair of the mirrored board is a horizontal pair of the board. */
  lemma MirrorRightPair(b: Grid, n: nat, r: int, c: int)
    requires IsSquare(b, n) && EqualRight(Mirror(b), r, c)
    ensures EqualRight(b, r, n - 2 - c) && b[r][n - 2 - c] == Mirror(b)[r][c]
  {
    MirrorCell(b, n, r, c);
    MirrorCell(b, n, r, c + 1);
  }

  /** A vertical pair of the mirrored board is a vertical pair of the board. */
  lemma MirrorBelowPair(b: Grid, n: nat, r: int, c: int)
    requires IsSquare(b, n) && EqualBelow(Mirror(b), r, c)
    ensures EqualBelow(b, r, n - 1 - c) && b[r][n - 1 - c] == Mirror(b)[r][c]
  {
    MirrorCell(b, n, r, c);
    MirrorCell(b, n, r + 1, c);
  }

  lemma MirrorCarriesEmpty(b: Grid, n: nat)
    requires IsSquare(b, n)
    ensures HasEmptyCell(Mirror(b)) ==> HasEmptyCell(b)
  {
    var m := Mirror(b);
    if HasEmptyCell(m) {
      var r, c :| 0 <= r < |m| && 0 <= c < |m[r]| && m[r][c] == 0;
      MirrorCell(b, n, r, c);
    }
  }

  lemma MirrorCarriesMergeable(b: Grid, n: nat)
    requires IsSquare(b, n)
    ensures HasMergeablePair(Mirror(b)) ==> HasMergeablePair(b)
  {
    var m := Mirror(b);
    if exists r, c :: EqualRight(m, r, c) && m[r][c] > 0 {
      var r, c :| EqualRight(m, r, c) && m[r][c] > 0;
      MirrorRightPair(b, n, r, c);
    } else if exists r, c :: EqualBelow(m, r, c) && m[r][c] > 0 {
      var r, c :| EqualBelow(m, r, c) && m[r][c] > 0;
      MirrorBelowPair(b, n, r, c);
    }
  }

  lemma MirrorCarriesEqual(b: Grid, n: nat)
    requires IsSquare(b, n)
    ensures HasEqualNeighbours(Mirror(b)) ==> HasEqualNeighbours(b)
  {
    var m := Mirror(b);
    if exists r, c :: EqualRight(m, r, c) {
      var r, c :| EqualRight(m, r, c);
      MirrorRightPair(b, n, r, c);
    } else if exists r, c :: EqualBelow(m, r, c) {
      var r, c :| EqualBelow(m, r, c);
      MirrorBelowPair(b, n, r, c);
    }
  }

  /** Mirroring keeps the empty cells, the mergeable pairs and the equal neighbours of a board. */
  lemma MirrorCarries(b: Grid, n: nat)
    requires IsSquare(b, n)
    ensures HasEmptyCell(Mirror(b)) <==> HasEmptyCell(b)
    ensures HasMergeablePair(Mirror(b)) <==> HasMergeablePair(b)
    ensures HasEqualNeighbours(Mirror(b)) <==> HasEqualNeighbours(b)
  {
    MirrorInvolution(b);
    MirrorCarriesEmpty(b, n);
    MirrorCarriesEmpty(Mirror(b), n);
    MirrorCarriesMergeable(b, n);
    MirrorCarriesMergeable(Mirror(b), n);
    MirrorCarriesEqual(b, n);
    MirrorCarriesEqual(Mirror(b), n);
  }

  /** A horizontal pair of the transposed board is a vertical pair of the board. */
  lemma TransposedRightPair(b: Grid, n: nat, r: int, c: int)
    requires IsSquare(b, n) && EqualRight(Transposed(b, n), r, c)
    ensures EqualBelow(b, c, r) && b[c][r] == Transposed(b, n)[r][c]
  {
  }

  /** A vertical pair of the transposed board is a horizontal pair of the board. */
  lemma TransposedBelowPair(b: Grid, n: nat, r: int, c: int)
    requires IsSquare(b, n) && EqualBelow(Transposed(b, n), r, c)
    ensures EqualRight(b, c, r) && b[c][r] == Transposed(b, n)[r][c]
  {
  }

  lemma TransposeCarriesEmpty(b: Grid, n: nat)
    requires IsSquare(b, n)
    ensures HasEmptyCell(Transposed(b, n)) ==> HasEmptyCell(b)
  {
    var t := Transposed(b, n);
    if HasEmptyCell(t) {
      var r, c :| 0 <= r < |t| && 0 <= c < |t[r]| && t[r][c] == 0;
      assert b[c][r] == 0;
    }
  }

  lemma TransposeCarriesMergeable(b: Grid, n: nat)
    requires IsSquare(b, n)
    ensures HasMergeablePair(Transposed(b, n)) ==> HasMergeablePair(b)
  {
    var t := Transposed(b, n);
    if exists r, c :: EqualRight(t, r, c) && t[r][c] > 0 {
      var r, c :| EqualRight(t, r, c) && t[r][c] > 0;
      TransposedRightPair(b, n, r, c);
    } else if exists r, c :: EqualBelow(t, r, c) && t[r][c] > 0 {
      var r, c :| EqualBelow(t, r, c) && t[r][c] > 0;
      TransposedBelowPair(b, n, r, c);
    }
  }

  lemma TransposeCarriesEqual(b: Grid, n: nat)
    requires IsSquare(b, n)
    ensures HasEqualNeighbours(Transposed(b, n)) ==> HasEqualNeighbours(b)
  {
    var t := Transposed(b, n);
    if exists r, c :: EqualRight(t, r, c) {
      var r, c :| EqualRight(t, r, c);
      TransposedRightPair(b, n, r, c);
    } else if exists r, c :: EqualBelow(t, r, c) {
      var r, c :| EqualBelow(t, r, c);
      TransposedBelowPair(b, n, r, c);
    }
  }

  /**
   * Transposing keeps the empty cells and the pairs of a board; a
   * horizontal pair becomes a vertical one and the other way round.
   */
  lemma TransposeCarries(b: Grid, n: nat)
    requires IsSquare(b, n)
    ensures HasEmptyCell(Transposed(b, n)) <==> HasEmptyCell(b)
    ensures HasMergeablePair(Transposed(b, n)) <==> HasMergeablePair(b)
    ensures HasEqualNeighbours(Transposed(b, n)) <==> HasEqualNeighbours(b)
  {
    TransposeInvolution(b, n);
    TransposeCarriesEmpty(b, n);
    TransposeCarriesEmpty(Transposed(b, n), n);
    TransposeCarriesMergeable(b, n);
    TransposeCarriesMergeable(Transposed(b, n), n);
    TransposeCarriesEqual(b, n);
    TransposeCarriesEqual(Transposed(b, n), n);
  }

  // ---------------------------------------------------------------------
  // The conjugated moves report a change exactly when move_left does
  // ---------------------------------------------------------------------

  /** move_right changes the board exactly when move_left changes the mirrored board. */
  lemma SlideRightChanged(b: Grid, n: nat)
    requires IsSquare(b, n)
    ensures SlideRight(b, n) != b <==> SlideLeft(Mirror(b), n) != Mirror(b)
  {
    MirrorInvolution(b);
    MirrorInvolution(SlideLeft(Mirror(b), n));
  }

  /** move_up changes the board exactly when move_left changes the transposed board. */
  lemma SlideUpChanged(b: Grid, n: nat)
    requires IsSquare(b, n)
    ensures SlideUp(b, n) != b <==> SlideLeft(Transposed(b, n), n) != Transposed(b, n)
  {
    TransposeInvolution(b, n);
    TransposeInvolution(SlideLeft(Transposed(b, n), n), n);
  }

  /** move_down changes the board exactly when move_right changes the transposed board. */
  lemma SlideDownChanged(b: Grid, n: nat)
    requires IsSquare(b, n)
    ensures SlideDown(b, n) != b <==> SlideRight(Transposed(b, n), n) != Transposed(b, n)
  {
    TransposeInvolution(b, n);
    TransposeInvolution(SlideRight(Transposed(b, n), n), n);
  }

  // ---------------------------------------------------------------------
  // A move that changes the board leaves room for the new tile
  // ---------------------------------------------------------------------

  lemma SlideLeftLeavesRoom(b: Grid, n: nat)
    requires IsSquare(b, n)
    ensures SlideLeft(b, n) != b ==> HasEmptyCell(SlideLeft(b, n))
  {
    var s := SlideLeft(b, n);
    if s != b {
      assert !(forall r :: 0 <= r < n ==> s[r] == b[r]);
      var r :| 0 <= r < n && s[r] != b[r];
      MovedRowHasRoom(b[r], n);
      var c :| 0 <= c < n && s[r][c] == 0;
    }
  }

  lemma SlideRightLeavesRoom(b: Grid, n: nat)
    requires IsSquare(b, n)
    ensures SlideRight(b, n) != b ==> HasEmptyCell(SlideRight(b, n))
  {
    var m := Mirror(b);
    SlideRightChanged(b, n);
    SlideLeftLeavesRoom(m, n);
    MirrorCarries(SlideLeft(m, n), n);
  }

  lemma SlideUpLeavesRoom(b: Grid, n: nat)
    requires IsSquare(b, n)
    ensures SlideUp(b, n) != b ==> HasEmptyCell(SlideUp(b, n))
  {
    var t := Transposed(b, n);
    SlideUpChanged(b, n);
    SlideLeftLeavesRoom(t, n);
    TransposeCarries(SlideLeft(t, n), n);
  }

  lemma SlideDownLeavesRoom(b: Grid, n: nat)
    requires IsSquare(b, n)
    ensures SlideDown(b, n) != b ==> HasEmptyCell(SlideDown(b, n))
  {
    var t := Transposed(b, n);
    SlideDownChanged(b, n);
    SlideRightLeavesRoom(t, n);
    TransposeCarries(SlideRight(t, n), n);
  }

  /** A move that does not change the board scores nothing, whichever way. */
  lemma UnchangedBoardScoresNothing(b: Grid, n: nat)
    requires IsSquare(b, n)
    ensures SlideLeft(b, n) == b ==> LeftGain(b, n) == 0
    ensures SlideRight(b, n) == b ==> RightGain(b, n) == 0
    ensures SlideUp(b, n) == b ==> UpGain(b, n) == 0
    ensures SlideDown(b, n) == b ==> DownGain(b, n) == 0
  {
    var m := Mirror(b);
    var t := Transposed(b, n);
    var mt := Mirror(t);
    SlideRightChanged(b, n);
    SlideUpChanged(b, n);
    SlideDownChanged(b, n);
    SlideRightChanged(t, n);
    if SlideLeft(b, n) == b { SlideLeftUnchangedGainsNothing(b, n); }
    if SlideLeft(m, n) == m { SlideLeftUnchangedGainsNothing(m, n); }
    if SlideLeft(t, n) == t { SlideLeftUnchangedGainsNothing(t, n); }
    if SlideLeft(mt, n) == mt { SlideLeftUnchangedGainsNothing(mt, n); }
  }

  // ---------------------------------------------------------------------
  // Boards on which no move changes anything
  // ---------------------------------------------------------------------

  lemma SlideLeftStuck(b: Grid, n: nat)
    requires IsSquare(b, n) && !HasEmptyCell(b) && !HasMergeablePair(b)
    ensures SlideLeft(b, n) == b && LeftGain(b, n) == 0
  {
    forall r | 0 <= r < n ensures SlideLeft(b, n)[r] == b[r] {
      assert forall c :: 0 <= c < n ==> b[r][c] != 0;
      assert forall c :: 0 <= c < n - 1 ==> !(EqualRight(b, r, c) && b[r][c] > 0);
      MoveRowStuck(b[r], n);
    }
    SlideLeftUnchangedGainsNothing(b, n);
  }

  /**
   * A full board without two adjacent equal tiles is left as it is by every
   * move, and no move scores.
   */
  lemma StuckWithoutPair(b: Grid, n: nat)
    requires IsSquare(b, n) && !HasEmptyCell(b) && !HasMergeablePair(b)
    ensures SlideLeft(b, n) == b && LeftGain(b, n) == 0
    ensures SlideRight(b, n) == b && RightGain(b, n) == 0
    ensures SlideUp(b, n) == b && UpGain(b, n) == 0
    ensures SlideDown(b, n) == b && DownGain(b, n) == 0
  {
    SlideLeftStuck(b, n);
    var m := Mirror(b);
    MirrorCarries(b, n);
    SlideLeftStuck(m, n);
    MirrorInvolution(b);
    var t := Transposed(b, n);
    TransposeCarries(b, n);
    SlideLeftStuck(t, n);
    TransposeInvolution(b, n);
    var mt := Mirror(t);
    MirrorCarries(t, n);
    SlideLeftStuck(mt, n);
    MirrorInvolution(t);
  }

  /**
   * A board on which `can_move` answers false is terminal: every move
   * leaves it unchanged and scores nothing.
   */
  lemma TerminalIsStuck(b: Grid, n: nat)
    requires IsSquare(b, n) && !Movable(b, n)
    ensures SlideLeft(b, n) == b && LeftGain(b, n) == 0
    ensures SlideRight(b, n) == b && RightGain(b, n) == 0
    ensures SlideUp(b, n) == b && UpGain(b, n) == 0
    ensures SlideDown(b, n) == b && DownGain(b, n) == 0
  {
    StuckWithoutPair(b, n);
  }

  /**
   * On a full board some move changes the board exactly when two adjacent
   * tiles hold the same positive value. `can_move` also counts two adjacent
   * blocked cells (-1), which no move can join.
   */
  lemma FullBoardMovesIffPair(b: Grid, n: nat)
    requires IsSquare(b, n) && !HasEmptyCell(b)
    ensures HasMergeablePair(b) <==>
            (SlideLeft(b, n) != b || SlideRight(b, n) != b || SlideUp(b, n) != b || SlideDown(b, n) != b)
  {
    if !HasMergeablePair(b) {
      StuckWithoutPair(b, n);
    } else if exists r, c :: EqualRight(b, r, c) && b[r][c] > 0 {
      var r, c :| EqualRight(b, r, c) && b[r][c] > 0;
      assert forall k :: 0 <= k < n ==> b[r][k] != 0;
      MoveRowWithPair(b[r], n, c);
      assert SlideLeft(b, n)[r] != b[r];
    } else {
      var r, c :| EqualBelow(b, r, c) && b[r][c] > 0;
      var t := Transposed(b, n);
      TransposeCarries(b, n);
      assert forall k :: 0 <= k < n ==> t[c][k] != 0;
      MoveRowWithPair(t[c], n, r);
      assert SlideLeft(t, n)[c] != t[c];
      SlideUpChanged(b, n);
    }
  }

  /**
   * A full board whose only equal neighbours are not positive tiles (two
   * blocked cells, say): `can_move` says yes, yet no move changes it.
   */
  lemma UnmergeableNeighboursNeverEnd(b: Grid, n: nat)
    requires IsSquare(b, n) && !HasEmptyCell(b) && !HasMergeablePair(b) && HasEqualNeighbours(b)
    ensures Movable(b, n)
    ensures SlideLeft(b, n) == b && SlideRight(b, n) == b && SlideUp(b, n) == b && SlideDown(b, n) == b
  {
    StuckWithoutPair(b, n);
  }

  /** The board [[-1, -1], [2, 4]] is such a board. */
  lemma BlockedPairNeverEnds()
    ensures var b := [[-1, -1], [2, 4]];
            Movable(b, 2) && !HasMergeablePair(b) &&
            SlideLeft(b, 2) == b && SlideRight(b, 2) == b && SlideUp(b, 2) == b && SlideDown(b, 2) == b
  {
    var b := [[-1, -1], [2, 4]];
    assert EqualRight(b, 0, 0);
    assert !HasEmptyCell(b);
    UnmergeableNeighboursNeverEnd(b, 2);
  }

  // ---------------------------------------------------------------------
  // Cell values are kept by every rebuild, slide and spawn
  // ---------------------------------------------------------------------

  /** Every cell of the board is empty (0), blocked (-1) or a tile (a power of two). */
  predicate TileValues(b: Grid)
  {
    forall r :: 0 <= r < |b| ==> CellValues(b[r])
  }

  /** The empty board holds only empty cells. */
  lemma EmptyGridTileValues(n: nat)
    ensures forall r, c :: 0 <= r < n && 0 <= c < n ==> EmptyGrid(n)[r][c] == 0
    ensures TileValues(EmptyGrid(n))
  {
  }

  lemma SlideLeftKeepsTileValues(b: Grid, n: nat)
    requires TileValues(b)
    ensures TileValues(SlideLeft(b, n))
  {
    forall r | 0 <= r < |b| ensures CellValues(SlideLeft(b, n)[r]) {
      MoveRowKeepsCellValues(b[r], n);
    }
  }

  lemma MirrorKeepsTileValues(b: Grid)
    requires TileValues(b)
    ensures TileValues(Mirror(b))
  {
  }

  lemma TransposeKeepsTileValues(b: Grid, n: nat)
    requires IsSquare(b, n) && TileValues(b)
    ensures TileValues(Transposed(b, n))
  {
    var t := Transposed(b, n);
    forall r | 0 <= r < n ensures CellValues(t[r]) {
      assert forall c :: 0 <= c < n ==> t[r][c] == b[c][r];
    }
  }

  lemma SlideRightKeepsTileValues(b: Grid, n: nat)
    requires IsSquare(b, n) && TileValues(b)
    ensures TileValues(SlideRight(b, n))
  {
    MirrorKeepsTileValues(b);
    SlideLeftKeepsTileValues(Mirror(b), n);
    MirrorKeepsTileValues(SlideLeft(Mirror(b), n));
  }

  lemma SlideUpKeepsTileValues(b: Grid, n: nat)
    requires IsSquare(b, n) && TileValues(b)
    ensures TileValues(SlideUp(b, n))
  {
    TransposeKeepsTileValues(b, n);
    SlideLeftKeepsTileValues(Transposed(b, n), n);
    TransposeKeepsTileValues(SlideLeft(Transposed(b, n), n), n);
  }

  lemma SlideDownKeepsTileValues(b: Grid, n: nat)
    requires IsSquare(b, n) && TileValues(b)
    ensures TileValues(SlideDown(b, n))
  {
    TransposeKeepsTileValues(b, n);
    SlideRightKeepsTileValues(Transposed(b, n), n);
    TransposeKeepsTileValues(SlideRight(Transposed(b, n), n), n);
  }

  /** A spawn writes a 2 or a 4, both tiles, into one cell. */
  lemma SpawnKeepsTileValues(b: Grid, pick: nat, four: bool)
    requires TileValues(b)
    ensures TileValues(Spawn(b, pick, four))
  {
    var cells := EmptyCells(b);
    if cells != [] {
      var cell := cells[pick % |cells|];
      assert cell in cells;
      var v := if four then 4 else 2;
      assert IsCellValue(v) by {
        assert IsPowerOfTwo(2);
        assert 4 / 2 == 2;
      }
      assert Spawn(b, pick, four) == b[cell.row := b[cell.row][cell.col := v]];
    }
  }
}
