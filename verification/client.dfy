/** The client's pure game helpers where they differ from the server's, and
    how they relate to it: the tic-tac-toe winner check on mark strings, the
    reversi end test, the reversi and connect-four move pickers, and the
    roulette win rule. The connect-four landing row and win check, and the
    reversi flip computation and any-move test, are the same code on both
    sides and are modelled once, in ConnectFour and Reversi. */
module Client {
  import opened Wrappers
  import opened Games
  import TicTacToe
  import ConnectFour
  import Reversi

  /** The values a client board cell can hold. */
  datatype JsValue = Null | Num(n: int) | Str(s: string)

  /** Truthiness: null, 0 and the empty string are false. */
  predicate Truthy(v: JsValue) {
    match v
    case Null => false
    case Num(n) => n != 0
    case Str(s) => s != ""
  }

  /** Line `l` of `board` wins on the client: its three cells are equal and
      the first one is truthy. */
  predicate LineWins(board: seq<JsValue>, l: (TicTacToe.Index9, TicTacToe.Index9, TicTacToe.Index9))
    requires |board| == 9
  {
    Truthy(board[l.0]) && board[l.0] == board[l.1] && board[l.0] == board[l.2]
  }

  /** The client's winner check, scanning the lines from `k`: the value of the
      first line whose three cells are equal and truthy, or null. */
  function CheckWinnerFrom(board: seq<JsValue>, k: nat): (w: JsValue)
    requires |board| == 9 && k <= 8
    decreases 8 - k
    ensures w == Null <==> forall j :: k <= j < 8 ==> !LineWins(board, TicTacToe.Lines[j])
    ensures w != Null ==> exists j :: k <= j < 8 && LineWins(board, TicTacToe.Lines[j]) &&
                                      w == board[TicTacToe.Lines[j].0] &&
                                      forall i :: k <= i < j ==> !LineWins(board, TicTacToe.Lines[i])
  {
    if k == 8 then Null
    else
      var l := TicTacToe.Lines[k];
      if LineWins(board, l) then board[l.0]
      else CheckWinnerFrom(board, k + 1)
  }

  /** The value of the first winning line in scan order, null when no line
      wins; a non-null result is always truthy. */
  function CheckWinner(board: seq<JsValue>): (w: JsValue)
    requires |board| == 9
    ensures w == Null <==> forall j :: 0 <= j < 8 ==> !LineWins(board, TicTacToe.Lines[j])
    ensures w != Null ==> Truthy(w) && exists j :: 0 <= j < 8 && LineWins(board, TicTacToe.Lines[j]) &&
                                                   w == board[TicTacToe.Lines[j].0] &&
                                                   forall i :: 0 <= i < j ==> !LineWins(board, TicTacToe.Lines[i])
  {
    CheckWinnerFrom(board, 0)
  }

  /** A server cell as the client's tic-tac-toe draws it: player 0 is "X",
      player 1 is "O". */
  function Mark(c: Cell): JsValue {
    match c
    case None => Null
    case Some(p) => if p == 0 then Str("X") else Str("O")
  }

  function Marks(b: Board): (m: seq<JsValue>)
    ensures |m| == |b| && forall i :: 0 <= i < |b| ==> m[i] == Mark(b[i])
  {
    seq(|b|, i requires 0 <= i < |b| => Mark(b[i]))
  }

  /** Different cells are drawn differently, and only an empty cell is drawn
      falsy. */
  lemma MarkInjective(c: Cell, d: Cell)
    ensures Mark(c) == Mark(d) <==> c == d
    ensures Truthy(Mark(c)) <==> c.Some?
  {
  }

  lemma {:induction false} CheckWinnerFromMarks(b: Board, k: nat)
    requires |b| == 9 && k <= 8
    decreases 8 - k
    ensures CheckWinnerFrom(Marks(b), k) == Mark(TicTacToe.WinnerFrom(b, k))
  {
    if k < 8 {
      CheckWinnerFromMarks(b, k + 1);
      var l := TicTacToe.Lines[k];
      MarkInjective(b[l.0], b[l.1]);
      MarkInjective(b[l.0], b[l.2]);
    }
  }

  /** With "X" and "O" marks the client's truthiness test finds the same
      winner as the server's null test: the owner of the first full line. */
  lemma CheckWinnerAgrees(b: Board)
    requires |b| == 9
    ensures CheckWinner(Marks(b)) == Mark(TicTacToe.Winner(b))
  {
    CheckWinnerFromMarks(b, 0);
  }

  /** With the server's numeric cells instead, player 0's mark 0 is falsy, so
      the client check misses a line of player 0. */
  lemma NumericMarksMissPlayerZero()
    ensures var board := [Num(0), Num(0), Num(0), Null, Null, Null, Null, Null, Null];
      CheckWinner(board) == Null && TicTacToe.Winner([Some(0), Some(0), Some(0), None, None, None, None, None, None]) == Some(0)
  {
    var b: Board := [Some(0), Some(0), Some(0), None, None, None, None, None, None];
    assert TicTacToe.Owns(b, TicTacToe.Lines[0], 0);
  }

  /** The client's reversi end test: a full board, or neither player can move. */
  predicate ClientGameOver(b: Board)
    requires |b| == 64
  {
    Full(b) || (!Reversi.HasValidMove(b, 0) && !Reversi.HasValidMove(b, 1))
  }

  /** Wherever the client's game is over, the server's is too, whichever
      player moved last: the server also stops when only the next player is
      stuck. */
  lemma ClientGameOverImpliesServer(b: Board, p: Player)
    requires |b| == 64 && ClientGameOver(b)
    ensures Reversi.GameOver(b, p)
  {
    if !Full(b) {
      assert !Reversi.HasValidMove(b, Opponent(p)) by {
        if p == 0 { assert Opponent(p) == 1; } else { assert Opponent(p) == 0; }
      }
    }
  }

  /** The number of discs a move of `p` on each position would flip. */
  function FlipCounts(b: Board, p: Player): (c: seq<nat>)
    requires |b| == 64
    ensures |c| == 64
  {
    seq(64, i requires 0 <= i < 64 => |Reversi.GetValidFlips(b, i, p)|)
  }

  /** The scan of the move picker over the per-position flip counts: keep the
      first position whose count is strictly larger than every count before
      it, starting from a best count of 0 and a best position of -1. */
  method ArgMax(counts: seq<nat>) returns (best: int)
    ensures -1 <= best < |counts|
    ensures best == -1 <==> forall i :: 0 <= i < |counts| ==> counts[i] == 0
    ensures best >= 0 ==>
      && counts[best] > 0
      && (forall i :: 0 <= i < |counts| ==> counts[i] <= counts[best])
      && (forall i :: 0 <= i < best ==> counts[i] < counts[best])
  {
    best := -1;
    var maxFlips := 0;
    for i := 0 to |counts|
      invariant -1 <= best < i
      invariant best == -1 ==> maxFlips == 0
      invariant best >= 0 ==> maxFlips == counts[best] > 0
      invariant forall j :: 0 <= j < i ==> counts[j] <= maxFlips
      invariant forall j :: 0 <= j < best ==> counts[j] < maxFlips
    {
      if counts[i] > maxFlips {
        maxFlips := counts[i];
        best := i;
      }
    }
  }

  /** The computer's reversi move: the first position with the largest
      positive number of flips, or -1 when no position flips anything. */
  method BestReversiMove(b: Board, p: Player) returns (best: int)
    requires |b| == 64
    ensures -1 <= best < 64
    ensures best == -1 <==> forall i :: 0 <= i < 64 ==> FlipCounts(b, p)[i] == 0
    ensures best >= 0 ==>
      && FlipCounts(b, p)[best] > 0
      && (forall i :: 0 <= i < 64 ==> FlipCounts(b, p)[i] <= FlipCounts(b, p)[best])
      && (forall i :: 0 <= i < best ==> FlipCounts(b, p)[i] < FlipCounts(b, p)[best])
  {
    best := ArgMax(FlipCounts(b, p));
  }

  /** The picker gives up, returning -1, exactly when the player has no
      valid move. */
  lemma NoBestMoveIffStuck(b: Board, p: Player)
    requires |b| == 64
    ensures (forall i :: 0 <= i < 64 ==> FlipCounts(b, p)[i] == 0) <==> !Reversi.HasValidMove(b, p)
  {
    var c := FlipCounts(b, p);
    if Reversi.HasValidMove(b, p) {
      var j :| 0 <= j < 64 && |Reversi.GetValidFlips(b, j, p)| > 0;
      assert c[j] > 0;
    }
  }

  /** The columns whose top cell (row 0) is empty, in increasing order. */
  function EmptyColumns(b: Board): (cols: seq<int>)
    requires |b| == 42
    ensures forall c :: c in cols <==> 0 <= c < 7 && b[c].None?
    ensures forall i, j :: 0 <= i < j < |cols| ==> cols[i] < cols[j]
  {
    ColumnsFrom(b, 0)
  }

  function ColumnsFrom(b: Board, c: int): (cols: seq<int>)
    requires |b| == 42 && 0 <= c <= 7
    decreases 7 - c
    ensures forall x :: x in cols <==> c <= x < 7 && b[x].None?
    ensures forall i, j :: 0 <= i < j < |cols| ==> cols[i] < cols[j]
    ensures forall i :: 0 <= i < |cols| ==> c <= cols[i]
  {
    if c == 7 then []
    else if b[c] == None then [c] + ColumnsFrom(b, c + 1)
    else ColumnsFrom(b, c + 1)
  }

  /** The computer's connect-four column: the candidate at the random index
      `pick`, or `None` (undefined) when every column is full. */
  function RandomEmptyColumn(b: Board, pick: int): (col: Option<int>)
    requires |b| == 42
    requires EmptyColumns(b) != [] ==> 0 <= pick < |EmptyColumns(b)|
    ensures col.None? <==> forall c :: 0 <= c < 7 ==> b[c].Some?
    ensures col.Some? ==> 0 <= col.value < 7 && b[col.value].None?
  {
    var cols := EmptyColumns(b);
    if cols == [] then None else assert cols[pick] in cols; Some(cols[pick])
  }

  /** A column with an empty top cell always has a landing row, so the
      computer's pick never meets a full column. */
  lemma RandomColumnHasRow(b: Board, pick: int)
    requires |b| == 42
    requires EmptyColumns(b) != [] ==> 0 <= pick < |EmptyColumns(b)|
    ensures var col := RandomEmptyColumn(b, pick);
      col.Some? ==> 0 <= ConnectFour.FindEmptyRow(b, col.value) <= 5
  {
    var col := RandomEmptyColumn(b, pick);
    if col.Some? {
      assert ConnectFour.At(b, 0, col.value).None?;
    }
  }

  /** The 18 red numbers of the wheel. */
  const RedNumbers: set<int> := {1, 3, 5, 7, 9, 12, 14, 16, 18, 19, 21, 23, 25, 27, 30, 32, 34, 36}

  /** Whether a bet on `bet` wins when the wheel shows `n`: red on a red
      number, black on a non-red number other than 0, even on a non-zero
      even number, odd on a number that is neither even nor 0. Any other bet
      loses. */
  predicate RouletteWins(bet: string, n: int) {
    var isRed := n in RedNumbers;
    var isEven := n % 2 == 0 && n != 0;
    || (bet == "red" && isRed)
    || (bet == "black" && !isRed && n != 0)
    || (bet == "even" && isEven)
    || (bet == "odd" && !isEven && n != 0)
  }

  /** 0 loses every bet. */
  lemma ZeroLosesEveryBet(bet: string)
    ensures !RouletteWins(bet, 0)
  {
  }

  /** On the numbers 1 to 36 exactly one of red and black wins, and exactly
      one of even and odd; odd wins exactly on the odd numbers. */
  lemma RouletteComplements(n: int)
    requires 1 <= n <= 36
    ensures RouletteWins("red", n) != RouletteWins("black", n)
    ensures RouletteWins("even", n) != RouletteWins("odd", n)
    ensures RouletteWins("odd", n) <==> n % 2 == 1
  {
  }
}
