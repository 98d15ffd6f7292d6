/** Connect-four: 6 rows by 7 columns, flattened row-major (cell `r * 7 + c`),
    row 0 at the top. The landing-row search and the win check are shared by
    the server's state machine and the client's single-player game. */
module ConnectFour {
  import opened Wrappers
  import opened Games

  /** Cell (`r`, `c`) of a 42-cell board. */
  function At(b: Board, r: int, c: int): Cell
    requires |b| == 42 && 0 <= r < 6 && 0 <= c < 7
  {
    b[r * 7 + c]
  }

  /** The landing-row search from row `r` upwards. */
  function RowFrom(b: Board, col: int, r: int): (row: int)
    requires |b| == 42 && 0 <= col < 7 && -1 <= r <= 5
    decreases r + 1
    ensures -1 <= row <= r
    ensures row == -1 <==> forall k :: 0 <= k <= r ==> At(b, k, col).Some?
    ensures row >= 0 ==> At(b, row, col).None? && forall k :: row < k <= r ==> At(b, k, col).Some?
  {
    if r < 0 then -1
    else if At(b, r, col) == None then r
    else RowFrom(b, col, r - 1)
  }

  /** The row a disc dropped into `col` lands on: the largest empty row, or -1
      when all six cells of the column are filled. */
  function FindEmptyRow(b: Board, col: int): (row: int)
    requires |b| == 42 && 0 <= col < 7
    ensures -1 <= row <= 5
    ensures row == -1 <==> forall k :: 0 <= k < 6 ==> At(b, k, col).Some?
    ensures row >= 0 ==> At(b, row, col).None? && forall k :: row < k < 6 ==> At(b, k, col).Some?
  {
    RowFrom(b, col, 5)
  }

  /** (`r`, `c`) is on the board and holds a disc of player `p`. */
  predicate Matches(b: Board, r: int, c: int, p: Player)
    requires |b| == 42
  {
    0 <= r < 6 && 0 <= c < 7 && b[r * 7 + c] == Some(p)
  }

  /** The number of consecutive matching cells at steps `i`, `i + 1`, ... 3
      from (`row`, `col`) in direction (`dr`, `dc`); the scan stops at the
      first cell that is off the board or not `p`'s. */
  function Run(b: Board, row: int, col: int, dr: int, dc: int, p: Player, i: int): (n: nat)
    requires |b| == 42 && 1 <= i <= 4
    decreases 4 - i
    ensures n <= 4 - i
  {
    if i == 4 then 0
    else if Matches(b, Step(row, dr, i), Step(col, dc, i), p) then 1 + Run(b, row, col, dr, dc, p, i + 1)
    else 0
  }

  /** The four axes: horizontal, vertical, and the two diagonals. */
  const Directions: seq<(int, int)> := [(0, 1), (1, 0), (1, 1), (1, -1)]

  /** The cell itself plus the runs on both sides along direction `d`. */
  function LineCount(b: Board, row: int, col: int, d: (int, int), p: Player): nat
    requires |b| == 42
  {
    1 + Run(b, row, col, d.0, d.1, p, 1) + Run(b, row, col, -d.0, -d.1, p, 1)
  }

  function WinFrom(b: Board, row: int, col: int, p: Player, k: nat): bool
    requires |b| == 42 && k <= 4
    decreases 4 - k
  {
    if k == 4 then false
    else if LineCount(b, row, col, Directions[k], p) >= 4 then true
    else WinFrom(b, row, col, p, k + 1)
  }

  /** The win check run after a disc is placed at (`row`, `col`). */
  function CheckWinner(b: Board, row: int, col: int, p: Player): bool
    requires |b| == 42
  {
    WinFrom(b, row, col, p, 0)
  }

  /** Four consecutive positions along direction `d`, steps `s..s+3` with
      `-3 <= s <= 0`, so that they include step 0, the placed cell; every one
      of them other than step 0 is on the board and holds `p`. */
  predicate Window(b: Board, row: int, col: int, d: (int, int), p: Player, s: int)
    requires |b| == 42
  {
    && -3 <= s <= 0
    && forall k :: s <= k <= s + 3 && k != 0 ==> Matches(b, Step(row, d.0, k), Step(col, d.1, k), p)
  }

  lemma {:induction false} RunFacts(b: Board, row: int, col: int, dr: int, dc: int, p: Player, i: int)
    requires |b| == 42 && 1 <= i <= 4
    decreases 4 - i
    ensures forall k :: i <= k < i + Run(b, row, col, dr, dc, p, i) ==> Matches(b, Step(row, dr, k), Step(col, dc, k), p)
    ensures i + Run(b, row, col, dr, dc, p, i) < 4 ==>
      !Matches(b, Step(row, dr, i + Run(b, row, col, dr, dc, p, i)), Step(col, dc, i + Run(b, row, col, dr, dc, p, i)), p)
  {
    if i < 4 && Matches(b, Step(row, dr, i), Step(col, dc, i), p) {
      RunFacts(b, row, col, dr, dc, p, i + 1);
    }
  }

  /** Along one axis, the count through the placed cell reaches 4 exactly when
      a window of four aligned cells through it belongs to `p`. */
  lemma LineCountIffWindow(b: Board, row: int, col: int, d: (int, int), p: Player)
    requires |b| == 42 && -1 <= d.0 <= 1 && -1 <= d.1 <= 1
    ensures LineCount(b, row, col, d, p) >= 4 <==> exists s :: Window(b, row, col, d, p, s)
  {
    var f := Run(b, row, col, d.0, d.1, p, 1);
    var g := Run(b, row, col, -d.0, -d.1, p, 1);
    RunFacts(b, row, col, d.0, d.1, p, 1);
    RunFacts(b, row, col, -d.0, -d.1, p, 1);
    if f + g >= 3 {
      var s := f as int - 3;
      forall k | s <= k <= s + 3 && k != 0
        ensures Matches(b, Step(row, d.0, k), Step(col, d.1, k), p)
      {
        if k < 0 {
          assert 1 <= -k < 1 + g;
          StepBack(row, d.0, -k);
          StepBack(col, d.1, -k);
          assert Matches(b, Step(row, -d.0, -k), Step(col, -d.1, -k), p);
        }
      }
      assert Window(b, row, col, d, p, s);
    } else {
      forall s: int
        ensures !Window(b, row, col, d, p, s)
      {
        NoWindow(b, row, col, d, p, s);
      }
    }
  }

  /** When the two side runs along `d` add up to less than 3, no window of
      four along `d` belongs to `p`. */
  lemma NoWindow(b: Board, row: int, col: int, d: (int, int), p: Player, s: int)
    requires |b| == 42 && -1 <= d.0 <= 1 && -1 <= d.1 <= 1
    requires Run(b, row, col, d.0, d.1, p, 1) + Run(b, row, col, -d.0, -d.1, p, 1) < 3
    ensures !Window(b, row, col, d, p, s)
  {
    var f := Run(b, row, col, d.0, d.1, p, 1);
    var g := Run(b, row, col, -d.0, -d.1, p, 1);
    RunFacts(b, row, col, d.0, d.1, p, 1);
    RunFacts(b, row, col, -d.0, -d.1, p, 1);
    if -3 <= s <= 0 && f < s + 3 {
      assert !Matches(b, Step(row, d.0, f + 1), Step(col, d.1, f + 1), p);
    } else if -3 <= s <= 0 {
      var k := -(g as int + 1);
      assert s <= k <= s + 3 && k != 0;
      StepBack(row, d.0, g + 1);
      StepBack(col, d.1, g + 1);
      assert !Matches(b, Step(row, d.0, k), Step(col, d.1, k), p);
    }
  }

  lemma {:induction false} WinFromIffWindow(b: Board, row: int, col: int, p: Player, k: nat)
    requires |b| == 42 && k <= 4
    decreases 4 - k
    ensures WinFrom(b, row, col, p, k) <==>
      exists j, s :: k <= j < 4 && Window(b, row, col, Directions[j], p, s)
  {
    if k < 4 {
      LineCountIffWindow(b, row, col, Directions[k], p);
      WinFromIffWindow(b, row, col, p, k + 1);
    }
  }

  /** The win check holds exactly when, along one of the four axes, four
      aligned on-board cells through the placed cell belong to `p` (the placed
      cell itself is not read). Each side is scanned at most 3 steps and every
      read is guarded by the 6x7 bounds. */
  lemma CheckWinnerIffWindow(b: Board, row: int, col: int, p: Player)
    requires |b| == 42
    ensures CheckWinner(b, row, col, p) <==>
      exists j, s :: 0 <= j < 4 && Window(b, row, col, Directions[j], p, s)
  {
    WinFromIffWindow(b, row, col, p, 0);
  }

  /** A disc of `p` dropped into `col` of `b` landed on `row`, giving `nb`:
      `row` is the lowest empty cell of the column, it now holds the disc, and
      no other cell changed. */
  predicate Landed(b: Board, nb: Board, col: int, row: int, p: Player)
    requires |b| == 42 && 0 <= col < 7
  {
    && 0 <= row < 6 && |nb| == 42
    && At(b, row, col).None?
    && (forall k :: row < k < 6 ==> At(b, k, col).Some?)
    && nb[row * 7 + col] == Some(p)
    && (forall i :: 0 <= i < 42 && i != row * 7 + col ==> nb[i] == b[i])
  }

  /** A drop into column `column`: the disc lands on the largest empty row.
      As written, every accepted drop ends the game: the win check returns a
      boolean, and the game-over test compares it with null. A win names the
      mover; anything else is reported as a draw (winner -1). */
  function Process(s: GameState, a: Action, p: Player): (r: ActionResult)
    requires s.BoardGame? && |s.board| == 42
    ensures a.Drop? && !(0 <= a.column <= 6) ==> r == Rejected(InvalidColumn)
    ensures !a.Drop? ==> r == Rejected(ColumnFull)
    ensures a.Drop? && 0 <= a.column <= 6 ==>
      (r == Rejected(ColumnFull) <==> forall k :: 0 <= k < 6 ==> At(s.board, k, a.column).Some?)
    ensures a.Drop? && 0 <= a.column <= 6 ==>
      (r.Accepted? <==> exists k :: 0 <= k < 6 && At(s.board, k, a.column).None?)
    ensures r.Accepted? ==>
      && a.Drop? && 0 <= a.column <= 6
      && r.newState.BoardGame?
      && r.newState.moves == s.moves + 1
      && |r.newState.board| == 42
      && r.gameOver
    ensures r.Accepted? ==>
      exists row :: Landed(s.board, r.newState.board, a.column, row, p)
                 && (r.winner == Some(p) <==> CheckWinner(r.newState.board, row, a.column, p))
    ensures r.Accepted? ==>
      && (r.winner == Some(p) <==> r.reason == Some(Win))
      && (r.winner != Some(p) ==> r.winner == Some(DrawWinner) && r.reason == Some(Draw))
  {
    if !a.Drop? then
      Rejected(ColumnFull)
    else if a.column < 0 || a.column > 6 then
      Rejected(InvalidColumn)
    else
      var col := a.column;
      var row := FindEmptyRow(s.board, col);
      if row == -1 then Rejected(ColumnFull)
      else
        var nb := s.board[row * 7 + col := Some(p)];
        var won := CheckWinner(nb, row, col, p);
        assert Landed(s.board, nb, col, row, p);
        Accepted(BoardGame(nb, s.moves + 1), true,
                 if won then Some(p) else Some(DrawWinner),
                 if won then Some(Win) else Some(Draw))
  }

  /** The first disc of a game already ends it, reported as a draw. */
  lemma FirstDropEndsInDraw(col: int, p: Player)
    requires 0 <= col <= 6
    ensures Process(BoardGame(EmptyBoard(42), 0), Drop(col), p)
         == Accepted(BoardGame(EmptyBoard(42)[5 * 7 + col := Some(p)], 1), true, Some(DrawWinner), Some(Draw))
  {
    var b := EmptyBoard(42);
    var nb := b[5 * 7 + col := Some(p)];
    assert FindEmptyRow(b, col) == 5;
    forall j, s | 0 <= j < 4
      ensures !Window(nb, 5, col, Directions[j], p, s)
    {
      var k := if s == 0 then 1 else s;
      assert !Matches(nb, Step(5, Directions[j].0, k), Step(col, Directions[j].1, k), p);
    }
    CheckWinnerIffWindow(nb, 5, col, p);
  }
}
