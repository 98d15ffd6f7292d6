/** Reversi on an 8x8 board, flattened row-major (cell `r * 8 + c`). The flip
    computation and the any-move test are shared by the server's state machine
    and the client's single-player game. */
module Reversi {
  import opened Wrappers
  import opened Games
  import Cards

  predicate OnBoard(r: int, c: int) {
    0 <= r < 8 && 0 <= c < 8
  }

  /** One of the eight compass directions. */
  predicate IsDirection(dr: int, dc: int) {
    -1 <= dr <= 1 && -1 <= dc <= 1 && (dr != 0 || dc != 0)
  }

  type Direction = d: (int, int) | IsDirection(d.0, d.1) witness (0, 1)

  /** The eight directions, in the order the flip computation scans them. */
  const Directions: seq<Direction> :=
    [(-1, -1), (-1, 0), (-1, 1), (0, -1), (0, 1), (1, -1), (1, 0), (1, 1)]

  /** Steps left before (`r`, `c`) walks off the board in direction (`dr`, `dc`),
      summed over both coordinates. */
  function EdgeDistance(r: int, c: int, dr: int, dc: int): nat
    requires OnBoard(r, c)
  {
    (if dr == 1 then 7 - r else if dr == -1 then r else 0) +
    (if dc == 1 then 7 - c else if dc == -1 then c else 0)
  }

  /** The cells met walking from (`r`, `c`) in direction (`dr`, `dc`), nearest
      first, up to the edge of the board. */
  function Ray(r: int, c: int, dr: int, dc: int): (ray: seq<int>)
    requires OnBoard(r, c) && IsDirection(dr, dc)
    decreases EdgeDistance(r, c, dr, dc)
    ensures forall i :: 0 <= i < |ray| ==> 0 <= ray[i] < 64
  {
    if !OnBoard(r + dr, c + dc) then []
    else [(r + dr) * 8 + (c + dc)] + Ray(r + dr, c + dc, dr, dc)
  }

  /** One step along a direction, then `k - 1` more, is `k` steps. */
  lemma StepShift(x: int, d: int, k: int)
    requires -1 <= d <= 1
    ensures Step(x + d, d, k - 1) == Step(x, d, k)
  {
  }

  /** Leaving the board `k - 1` steps after the neighbour is leaving it `k`
      steps after the start. */
  lemma OffBoardShift(r: int, c: int, dr: int, dc: int, k: int)
    requires IsDirection(dr, dc)
    requires !OnBoard(Step(r + dr, dr, k - 1), Step(c + dc, dc, k - 1))
    ensures !OnBoard(Step(r, dr, k), Step(c, dc, k))
  {
    StepShift(r, dr, k);
    StepShift(c, dc, k);
  }

  /** The `k`-th cell of a ray is the cell `k` steps away in the direction. */
  lemma {:induction false} RayCells(r: int, c: int, dr: int, dc: int)
    requires OnBoard(r, c) && IsDirection(dr, dc)
    decreases EdgeDistance(r, c, dr, dc)
    ensures forall k :: 1 <= k <= |Ray(r, c, dr, dc)| ==>
      Ray(r, c, dr, dc)[k - 1] == Step(r, dr, k) * 8 + Step(c, dc, k)
  {
    if OnBoard(r + dr, c + dc) {
      RayCells(r + dr, c + dc, dr, dc);
      var ray, rest := Ray(r, c, dr, dc), Ray(r + dr, c + dc, dr, dc);
      forall k | 1 <= k <= |ray|
        ensures ray[k - 1] == Step(r, dr, k) * 8 + Step(c, dc, k)
      {
        StepShift(r, dr, k);
        StepShift(c, dc, k);
        if k > 1 {
          assert ray[k - 1] == rest[k - 2];
        }
      }
    }
  }

  /** Every step of a ray stays on the board: the walk never wraps from one
      row into the next. */
  lemma {:induction false} RayOnBoard(r: int, c: int, dr: int, dc: int)
    requires OnBoard(r, c) && IsDirection(dr, dc)
    decreases EdgeDistance(r, c, dr, dc)
    ensures forall k :: 1 <= k <= |Ray(r, c, dr, dc)| ==> OnBoard(Step(r, dr, k), Step(c, dc, k))
  {
    if OnBoard(r + dr, c + dc) {
      RayOnBoard(r + dr, c + dc, dr, dc);
      forall k | 1 <= k <= |Ray(r, c, dr, dc)|
        ensures OnBoard(Step(r, dr, k), Step(c, dc, k))
      {
        StepShift(r, dr, k);
        StepShift(c, dc, k);
      }
    }
  }

  /** One step past the end of a ray is off the board: the walk stops only
      at the edge. */
  lemma {:induction false} RayEndsAtEdge(r: int, c: int, dr: int, dc: int)
    requires OnBoard(r, c) && IsDirection(dr, dc)
    decreases EdgeDistance(r, c, dr, dc)
    ensures !OnBoard(Step(r, dr, |Ray(r, c, dr, dc)| + 1), Step(c, dc, |Ray(r, c, dr, dc)| + 1))
  {
    var n := |Ray(r, c, dr, dc)|;
    if OnBoard(r + dr, c + dc) {
      var m := |Ray(r + dr, c + dc, dr, dc)|;
      assert n == m + 1;
      RayEndsAtEdge(r + dr, c + dc, dr, dc);
      OffBoardShift(r, c, dr, dc, m + 2);
    } else {
      assert n == 0;
      assert Step(r, dr, 1) == r + dr && Step(c, dc, 1) == c + dc;
    }
  }

  predicate ValidCells(ray: seq<int>) {
    forall i :: 0 <= i < |ray| ==> 0 <= ray[i] < 64
  }

  /** Along `ray`, the first `n` cells hold the opponent's discs and cell `n`
      holds one of `p`'s: the first `n` cells are bracketed. */
  predicate Brackets(b: Board, ray: seq<int>, p: Player, n: int)
    requires |b| == 64 && ValidCells(ray)
  {
    && 0 <= n < |ray|
    && b[ray[n]] == Some(p)
    && forall i :: 0 <= i < n ==> b[ray[i]] == Some(Opponent(p))
  }

  /** One direction's scan: walk the ray while it holds opponent discs; a run
      closed by a disc of `p` is returned, an empty cell or the edge gives `None`. */
  function Bracket(b: Board, ray: seq<int>, p: Player): (run: Option<seq<int>>)
    requires |b| == 64 && ValidCells(ray)
    ensures run.Some? ==> Brackets(b, ray, p, |run.value|) && run.value == ray[..|run.value|]
    ensures run.None? ==> forall n :: !Brackets(b, ray, p, n)
  {
    if ray == [] then None
    else match b[ray[0]]
      case None => None
      case Some(q) =>
        if q == p then Some([])
        else
          var rest := Bracket(b, ray[1..], p);
          if rest.None? then
            assert forall n :: 1 <= n ==> (Brackets(b, ray, p, n) ==> Brackets(b, ray[1..], p, n - 1));
            None
          else
            assert Brackets(b, ray[1..], p, |rest.value|);
            Some([ray[0]] + rest.value)
  }

  /** The discs flipped along direction `d` by a disc placed on `pos`. */
  function DirectionFlips(b: Board, pos: int, p: Player, d: (int, int)): (f: seq<int>)
    requires |b| == 64 && 0 <= pos < 64 && IsDirection(d.0, d.1)
    ensures forall i :: 0 <= i < |f| ==> 0 <= f[i] < 64 && b[f[i]] == Some(Opponent(p))
  {
    var ray := Ray(pos / 8, pos % 8, d.0, d.1);
    match Bracket(b, ray, p)
    case Some(run) => run
    case None => []
  }

  function FlipsFrom(b: Board, pos: int, p: Player, k: nat): (f: seq<int>)
    requires |b| == 64 && 0 <= pos < 64 && k <= 8
    decreases 8 - k
    ensures forall i :: 0 <= i < |f| ==> 0 <= f[i] < 64 && b[f[i]] == Some(Opponent(p))
  {
    if k == 8 then []
    else DirectionFlips(b, pos, p, Directions[k]) + FlipsFrom(b, pos, p, k + 1)
  }

  /** The discs a move of `p` on `position` would flip, direction by direction.
      An occupied or off-board position flips nothing; every flipped cell is
      on the board and holds an opponent disc. */
  function GetValidFlips(b: Board, position: int, p: Player): (f: seq<int>)
    requires |b| == 64
    ensures !(0 <= position < 64) || b[position].Some? ==> f == []
    ensures forall i :: 0 <= i < |f| ==> 0 <= f[i] < 64 && b[f[i]] == Some(Opponent(p))
  {
    if !(0 <= position < 64) || b[position] != None then []
    else FlipsFrom(b, position, p, 0)
  }

  /** Direction `d` from `pos` contributes exactly the bracketed run along its ray. */
  ghost predicate FlippedAlong(b: Board, pos: int, p: Player, d: (int, int), x: int)
    requires |b| == 64 && 0 <= pos < 64 && IsDirection(d.0, d.1)
  {
    var ray := Ray(pos / 8, pos % 8, d.0, d.1);
    exists n :: Brackets(b, ray, p, n) && x in ray[..n]
  }

  /** Direction `d` contributes exactly its bracketed run. */
  lemma DirectionFlipsMembers(b: Board, pos: int, p: Player, d: (int, int), x: int)
    requires |b| == 64 && 0 <= pos < 64 && IsDirection(d.0, d.1)
    ensures x in DirectionFlips(b, pos, p, d) <==> FlippedAlong(b, pos, p, d, x)
  {
    var ray := Ray(pos / 8, pos % 8, d.0, d.1);
    var run := Bracket(b, ray, p);
    if run.Some? && FlippedAlong(b, pos, p, d, x) {
      var n :| Brackets(b, ray, p, n) && x in ray[..n];
      BracketUnique(b, ray, p, n, |run.value|);
    }
  }

  lemma {:induction false} FlipsFromMembers(b: Board, pos: int, p: Player, k: nat, x: int)
    requires |b| == 64 && 0 <= pos < 64 && k <= 8
    decreases 8 - k
    ensures x in FlipsFrom(b, pos, p, k) <==> exists j :: k <= j < 8 && FlippedAlong(b, pos, p, Directions[j], x)
  {
    if k < 8 {
      var here := DirectionFlips(b, pos, p, Directions[k]);
      var later := FlipsFrom(b, pos, p, k + 1);
      assert FlipsFrom(b, pos, p, k) == here + later;
      FlipsFromMembers(b, pos, p, k + 1, x);
      DirectionFlipsMembers(b, pos, p, Directions[k], x);
      assert x in FlipsFrom(b, pos, p, k) <==> x in here || x in later;
      if x in here {
        assert FlippedAlong(b, pos, p, Directions[k], x);
        assert exists j :: k <= j < 8 && FlippedAlong(b, pos, p, Directions[j], x);
      } else if x in later {
        var j :| k + 1 <= j < 8 && FlippedAlong(b, pos, p, Directions[j], x);
        assert k <= j < 8;
      } else {
        forall j | k <= j < 8
          ensures !FlippedAlong(b, pos, p, Directions[j], x)
        {
          if j == k {
            assert !FlippedAlong(b, pos, p, Directions[k], x);
          } else {
            assert k + 1 <= j < 8;
          }
        }
      }
    }
  }

  /** At most one prefix of a ray is bracketed. */
  lemma BracketUnique(b: Board, ray: seq<int>, p: Player, n: int, m: int)
    requires |b| == 64 && ValidCells(ray)
    requires Brackets(b, ray, p, n) && Brackets(b, ray, p, m)
    ensures n == m
  {
  }

  /** A cell is flipped exactly when, in one of the eight directions, it lies
      in the run of opponent discs next to `position` that a disc of `p` closes. */
  lemma GetValidFlipsMembers(b: Board, position: int, p: Player, x: int)
    requires |b| == 64 && 0 <= position < 64 && b[position].None?
    ensures x in GetValidFlips(b, position, p) <==>
      exists j :: 0 <= j < 8 && FlippedAlong(b, position, p, Directions[j], x)
  {
    assert GetValidFlips(b, position, p) == FlipsFrom(b, position, p, 0);
    FlipsFromMembers(b, position, p, 0, x);
  }

  /** Two walks from one cell that meet took the same direction and the
      same number of steps. */
  lemma StepsDetermine(r: int, c: int, d1: (int, int), d2: (int, int), k: int, m: int)
    requires IsDirection(d1.0, d1.1) && IsDirection(d2.0, d2.1) && 1 <= k && 1 <= m
    requires Step(r, d1.0, k) == Step(r, d2.0, m) && Step(c, d1.1, k) == Step(c, d2.1, m)
    ensures d1 == d2 && k == m
  {
  }

  /** The `k`-th cell of a ray, as a row and a column. */
  lemma RayCellAt(r: int, c: int, d: (int, int), k: int)
    requires OnBoard(r, c) && IsDirection(d.0, d.1) && 1 <= k <= |Ray(r, c, d.0, d.1)|
    ensures Ray(r, c, d.0, d.1)[k - 1] / 8 == Step(r, d.0, k)
    ensures Ray(r, c, d.0, d.1)[k - 1] % 8 == Step(c, d.1, k)
  {
    RayCells(r, c, d.0, d.1);
    RayOnBoard(r, c, d.0, d.1);
    assert OnBoard(Step(r, d.0, k), Step(c, d.1, k));
  }

  /** The cells `i` and `j` steps along rays from one cell are the same only
      for the same direction and distance: a ray never repeats a cell, and
      rays in two directions share none. */
  lemma RaysMeetOnlyAtSameStep(r: int, c: int, d1: (int, int), d2: (int, int), i: int, j: int)
    requires OnBoard(r, c) && IsDirection(d1.0, d1.1) && IsDirection(d2.0, d2.1)
    requires 0 <= i < |Ray(r, c, d1.0, d1.1)| && 0 <= j < |Ray(r, c, d2.0, d2.1)|
    requires Ray(r, c, d1.0, d1.1)[i] == Ray(r, c, d2.0, d2.1)[j]
    ensures d1 == d2 && i == j
  {
    RayCellAt(r, c, d1, i + 1);
    RayCellAt(r, c, d2, j + 1);
    StepsDetermine(r, c, d1, d2, i + 1, j + 1);
  }

  /** The ray from cell `pos` in direction `d`. */
  function RayFrom(pos: int, d: (int, int)): seq<int>
    requires 0 <= pos < 64 && IsDirection(d.0, d.1)
  {
    Ray(pos / 8, pos % 8, d.0, d.1)
  }

  /** A cell among the first cells of the ray in one direction is on no ray
      of another direction from the same cell. */
  lemma RaysDisjoint(pos: int, d1: (int, int), d2: (int, int), x: int)
    requires 0 <= pos < 64 && IsDirection(d1.0, d1.1) && IsDirection(d2.0, d2.1) && d1 != d2
    requires 0 <= x < |RayFrom(pos, d1)|
    ensures RayFrom(pos, d1)[x] !in RayFrom(pos, d2)
  {
    var ray2 := RayFrom(pos, d2);
    if RayFrom(pos, d1)[x] in ray2 {
      var i :| 0 <= i < |ray2| && ray2[i] == RayFrom(pos, d1)[x];
      RaysMeetOnlyAtSameStep(pos / 8, pos % 8, d1, d2, x, i);
      assert false;
    }
  }

  /** Every cell flipped along `d` lies on the ray in direction `d`, and no
      cell is flipped twice along it. */
  lemma DirectionFlipsOnRay(b: Board, pos: int, p: Player, d: (int, int))
    requires |b| == 64 && 0 <= pos < 64 && IsDirection(d.0, d.1)
    ensures var f := DirectionFlips(b, pos, p, d);
      && |f| <= |RayFrom(pos, d)| && f == RayFrom(pos, d)[..|f|]
      && Cards.Distinct(f)
  {
    var f := DirectionFlips(b, pos, p, d);
    forall x, y | 0 <= x < y < |f|
      ensures f[x] != f[y]
    {
      if f[x] == f[y] {
        RaysMeetOnlyAtSameStep(pos / 8, pos % 8, d, d, x, y);
      }
    }
  }

  /** A cell flipped by directions `k` onwards lies on the ray of one of them. */
  lemma {:induction false} FlipsFromOnRays(b: Board, pos: int, p: Player, k: nat, v: int)
    requires |b| == 64 && 0 <= pos < 64 && k <= 8
    requires v in FlipsFrom(b, pos, p, k)
    decreases 8 - k
    ensures exists j :: k <= j < 8 && v in RayFrom(pos, Directions[j])
  {
    var here := DirectionFlips(b, pos, p, Directions[k]);
    assert FlipsFrom(b, pos, p, k) == here + FlipsFrom(b, pos, p, k + 1);
    if v in here {
      DirectionFlipsOnRay(b, pos, p, Directions[k]);
      assert v in RayFrom(pos, Directions[k]);
    } else {
      FlipsFromOnRays(b, pos, p, k + 1, v);
    }
  }

  /** The eight directions are pairwise different. */
  lemma DirectionsDistinct(j: int, k: int)
    requires 0 <= j < k < 8
    ensures Directions[j] != Directions[k]
  {
  }

  /** A cell flipped along direction `k` is not flipped again by a later
      direction. */
  lemma FlippedOnce(b: Board, pos: int, p: Player, k: nat, x: int)
    requires |b| == 64 && 0 <= pos < 64 && k < 8
    requires 0 <= x < |DirectionFlips(b, pos, p, Directions[k])|
    ensures DirectionFlips(b, pos, p, Directions[k])[x] !in FlipsFrom(b, pos, p, k + 1)
  {
    var v := DirectionFlips(b, pos, p, Directions[k])[x];
    DirectionFlipsOnRay(b, pos, p, Directions[k]);
    assert v == RayFrom(pos, Directions[k])[x];
    if v in FlipsFrom(b, pos, p, k + 1) {
      FlipsFromOnRays(b, pos, p, k + 1, v);
      var j :| k + 1 <= j < 8 && v in RayFrom(pos, Directions[j]);
      DirectionsDistinct(k, j);
      RaysDisjoint(pos, Directions[k], Directions[j], x);
      assert false;
    }
  }

  /** Directions `k` onwards flip no cell twice. */
  lemma {:induction false} FlipsFromDistinct(b: Board, pos: int, p: Player, k: nat)
    requires |b| == 64 && 0 <= pos < 64 && k <= 8
    decreases 8 - k
    ensures Cards.Distinct(FlipsFrom(b, pos, p, k))
  {
    if k < 8 {
      var here := DirectionFlips(b, pos, p, Directions[k]);
      var later := FlipsFrom(b, pos, p, k + 1);
      DirectionFlipsOnRay(b, pos, p, Directions[k]);
      FlipsFromDistinct(b, pos, p, k + 1);
      forall x | 0 <= x < |here|
        ensures here[x] !in later
      {
        FlippedOnce(b, pos, p, k, x);
      }
      Cards.DistinctConcat(here, later);
    }
  }

  /** No disc is flipped twice, so the number of flips is the number of
      discs a move turns over. */
  lemma GetValidFlipsDistinct(b: Board, position: int, p: Player)
    requires |b| == 64
    ensures Cards.Distinct(GetValidFlips(b, position, p))
  {
    if 0 <= position < 64 && b[position].None? {
      FlipsFromDistinct(b, position, p, 0);
    }
  }

  function AnyMoveFrom(b: Board, p: Player, i: int): (r: bool)
    requires |b| == 64 && 0 <= i <= 64
    decreases 64 - i
    ensures r <==> exists j :: i <= j < 64 && |GetValidFlips(b, j, p)| > 0
  {
    if i == 64 then false
    else if |GetValidFlips(b, i, p)| > 0 then true
    else AnyMoveFrom(b, p, i + 1)
  }

  /** Player `p` has a move: some cell 0..63 flips at least one disc. */
  function HasValidMove(b: Board, p: Player): (r: bool)
    requires |b| == 64
    ensures r <==> exists j :: 0 <= j < 64 && |GetValidFlips(b, j, p)| > 0
  {
    AnyMoveFrom(b, p, 0)
  }

  /** `b` with every cell listed in `cells` set to `v`. */
  function SetAll(b: Board, cells: seq<int>, v: Cell): (nb: Board)
    requires forall i :: 0 <= i < |cells| ==> 0 <= cells[i] < |b|
    ensures |nb| == |b|
    ensures forall i :: 0 <= i < |b| ==> nb[i] == if i in cells then v else b[i]
    decreases |cells|
  {
    if cells == [] then b
    else SetAll(b[cells[0] := v], cells[1..], v)
  }

  /** The opening position: the four centre cells hold two discs of each
      player, placed diagonally; every other cell is empty. */
  function InitialBoard(): (b: Board)
    ensures |b| == 64
    ensures b[27] == b[36] == Some(0) && b[28] == b[35] == Some(1)
    ensures forall i :: 0 <= i < 64 && i !in {27, 28, 35, 36} ==> b[i].None?
  {
    EmptyBoard(64)[27 := Some(0)][28 := Some(1)][35 := Some(1)][36 := Some(0)]
  }

  /** `b` after `p` plays on `pos` flipping `flips`. */
  function Apply(b: Board, pos: int, flips: seq<int>, p: Player): (nb: Board)
    requires |b| == 64 && 0 <= pos < 64 && forall i :: 0 <= i < |flips| ==> 0 <= flips[i] < 64
    ensures |nb| == 64
    ensures forall i :: 0 <= i < 64 ==> nb[i] == if i == pos || i in flips then Some(p) else b[i]
  {
    SetAll(b[pos := Some(p)], flips, Some(p))
  }

  /** The end-of-game test after a move of `p`: the board is full, or the
      opponent alone has no move. */
  function GameOver(nb: Board, p: Player): (over: bool)
    requires |nb| == 64
    ensures over <==> Full(nb) || !exists j :: 0 <= j < 64 && |GetValidFlips(nb, j, Opponent(p))| > 0
  {
    Full(nb) || !HasValidMove(nb, Opponent(p))
  }

  /** The winner once the game is over: more discs wins, a tie is -1. */
  function DiscWinner(nb: Board): (w: int)
    ensures w == 0 <==> Count(nb, Some(0)) > Count(nb, Some(1))
    ensures w == 1 <==> Count(nb, Some(1)) > Count(nb, Some(0))
    ensures w == DrawWinner <==> Count(nb, Some(0)) == Count(nb, Some(1))
  {
    var c0, c1 := Count(nb, Some(0)), Count(nb, Some(1));
    if c0 > c1 then 0 else if c1 > c0 then 1 else DrawWinner
  }

  /** A move on `position` is valid exactly when it flips something. The
      target and every flipped disc become the mover's; nothing else changes.
      The game ends when the board is full or the opponent alone has no move;
      then the player with more discs wins, or -1 on a tie. The reason is
      "win" for a player index and "draw" otherwise, including while the
      game goes on. */
  function Process(s: GameState, a: Action, p: Player): (r: ActionResult)
    requires s.BoardGame? && |s.board| == 64
    ensures r.Rejected? <==> !a.Place? || |GetValidFlips(s.board, a.position, p)| == 0
    ensures r.Rejected? ==> r.error == InvalidMove
    ensures a.Place? && (!(0 <= a.position < 64) || s.board[a.position].Some?) ==> r.Rejected?
    ensures r.Accepted? ==>
      var flips := GetValidFlips(s.board, a.position, p);
      && r.newState.BoardGame?
      && r.newState.moves == s.moves + 1
      && |r.newState.board| == 64
      && (forall i :: 0 <= i < 64 ==>
            r.newState.board[i] == if i == a.position || i in flips then Some(p) else s.board[i])
      && (r.gameOver <==> GameOver(r.newState.board, p))
      && (r.gameOver ==> r.winner == Some(DiscWinner(r.newState.board)))
      && (!r.gameOver ==> r.winner.None?)
      && (r.reason == Some(Draw) <==> r.winner.None? || r.winner == Some(DrawWinner))
      && (r.reason == Some(Win) <==> !(r.winner.None? || r.winner == Some(DrawWinner)))
  {
    var flips := if a.Place? then GetValidFlips(s.board, a.position, p) else [];
    if |flips| == 0 then Rejected(InvalidMove)
    else
      var nb := Apply(s.board, a.position, flips, p);
      var over := GameOver(nb, p);
      var winner: Option<int> := if over then Some(DiscWinner(nb)) else None;
      Accepted(BoardGame(nb, s.moves + 1), over, winner,
               if winner.Some? && winner.value != DrawWinner then Some(Win) else Some(Draw))
  }
}
