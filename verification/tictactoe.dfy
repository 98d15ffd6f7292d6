/** Server-side tic-tac-toe: a 9-cell board, row-major. */
module TicTacToe {
  import opened Wrappers
  import opened Games

  type Index9 = i: int | 0 <= i < 9

  /** The 8 lines, in the order the winner check scans them: rows, columns,
      then the two diagonals. */
  const Lines: seq<(Index9, Index9, Index9)> :=
    [(0, 1, 2), (3, 4, 5), (6, 7, 8),
     (0, 3, 6), (1, 4, 7), (2, 5, 8),
     (0, 4, 8), (2, 4, 6)]

  /** Player `p` holds all three cells of line `l`. */
  predicate Owns(b: Board, l: (Index9, Index9, Index9), p: Player)
    requires |b| == 9
  {
    b[l.0] == Some(p) && b[l.1] == Some(p) && b[l.2] == Some(p)
  }

  /** Some player holds all three cells of line `l`. */
  predicate Held(b: Board, l: (Index9, Index9, Index9))
    requires |b| == 9
  {
    Owns(b, l, 0) || Owns(b, l, 1)
  }

  /** The winner check, scanning from line `k`: the owner of the first held
      line at or after `k`, `None` if there is none. */
  function WinnerFrom(b: Board, k: nat): (w: Cell)
    requires |b| == 9 && k <= 8
    decreases 8 - k
    ensures w.None? <==> forall j :: k <= j < 8 ==> !Held(b, Lines[j])
    ensures w.Some? ==> exists j :: k <= j < 8 && Owns(b, Lines[j], w.value) &&
                                    forall i :: k <= i < j ==> !Held(b, Lines[i])
  {
    if k == 8 then None
    else
      var (x, y, z) := Lines[k];
      if b[x] != None && b[x] == b[y] && b[x] == b[z] then b[x]
      else WinnerFrom(b, k + 1)
  }

  /** The owner of the first held line, player 0 included; `None` if no line
      is held. */
  function Winner(b: Board): (w: Cell)
    requires |b| == 9
    ensures w.None? <==> forall j :: 0 <= j < 8 ==> !Held(b, Lines[j])
    ensures w.Some? ==> exists j :: 0 <= j < 8 && Owns(b, Lines[j], w.value) &&
                                    forall i :: 0 <= i < j ==> !Held(b, Lines[i])
  {
    WinnerFrom(b, 0)
  }

  /** A move claims the empty cell `position` for the acting player. The game
      ends on a held line (that line's owner wins) or a full board (draw,
      winner -1); otherwise winner and reason are null. */
  function Process(s: GameState, a: Action, p: Player): (r: ActionResult)
    requires s.BoardGame? && |s.board| == 9
    ensures r.Rejected? <==>
      (PositionOf(a).None? || !(0 <= PositionOf(a).value < 9) || s.board[PositionOf(a).value].Some?)
    ensures r.Rejected? ==> r.error == AlreadyPlaced
    ensures r.Accepted? ==>
      var pos := PositionOf(a).value;
      && r.newState.BoardGame?
      && r.newState.moves == s.moves + 1
      && |r.newState.board| == 9
      && r.newState.board[pos] == Some(p)
      && (forall i :: 0 <= i < 9 && i != pos ==> r.newState.board[i] == s.board[i])
    ensures r.Accepted? ==>
      var nb := r.newState.board;
      && (r.reason == Some(Win) <==> exists j :: 0 <= j < 8 && Held(nb, Lines[j]))
      && (r.reason == Some(Win) ==>
            r.gameOver && exists j, q: Player :: 0 <= j < 8 && r.winner == Some(q) && Owns(nb, Lines[j], q) &&
                                                 forall i :: 0 <= i < j ==> !Held(nb, Lines[i]))
      && (r.winner == Some(DrawWinner) <==> (Full(nb) && forall j :: 0 <= j < 8 ==> !Held(nb, Lines[j])))
      && (r.winner == Some(DrawWinner) <==> r.reason == Some(Draw))
      && (!r.gameOver <==> r.winner.None? && r.reason.None?)
      && (r.gameOver <==> (Full(nb) || exists j :: 0 <= j < 8 && Held(nb, Lines[j])))
  {
    var pos := PositionOf(a);
    if pos.None? || !(0 <= pos.value < 9) || s.board[pos.value] != None then
      Rejected(AlreadyPlaced)
    else
      var nb := s.board[pos.value := Some(p)];
      var w := Winner(nb);
      var over := w.Some? || Full(nb);
      Accepted(BoardGame(nb, s.moves + 1), over,
               if w.Some? then Some(w.value) else if over then Some(DrawWinner) else None,
               if w.Some? then Some(Win) else if over then Some(Draw) else None)
  }

  /** A player's line of three ends the game in that player's favour; a move
      onto the last empty cell of the top row, played by player 0, wins it for
      player 0. */
  lemma PlayerZeroWinsTopRow()
    ensures
      var b := [Some(0), Some(0), None, None, Some(1), None, None, None, None];
      var r := Process(BoardGame(b, 3), Place(2), 0);
      r.Accepted? && r.gameOver && r.winner == Some(0) && r.reason == Some(Win)
  {
    var b := [Some(0), Some(0), None, None, Some(1), None, None, None, None];
    var nb := b[2 := Some(0)];
    assert Owns(nb, Lines[0], 0);
  }
}
