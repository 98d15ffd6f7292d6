/** Values shared by every game state machine: player indices, board cells,
    the tagged game state, the action payload and the result envelope. */
module Games {
  import opened Wrappers
  import opened Cards

  /** The seat index of a player in its room. */
  type Player = p: int | 0 <= p < 2

  function Opponent(p: Player): Player {
    1 - p
  }

  /** A board cell: `None` is empty, `Some(p)` holds player `p`'s mark or disc. */
  type Cell = Option<Player>

  type Board = seq<Cell>

  /** The game-kind keys that select a state machine. */
  const TicTacToeKind := "tic-tac-toe"
  const Connect4Kind := "connect4"
  const ReversiKind := "reversi"
  const PokerKind := "poker"
  const BlackjackKind := "blackjack"

  predicate KnownKind(kind: string) {
    kind in {TicTacToeKind, Connect4Kind, ReversiKind, PokerKind, BlackjackKind}
  }

  /** A room's authoritative state, one variant per family of games. The board
      games (and an unknown kind) use `BoardGame`. */
  datatype GameState =
    | BoardGame(board: Board, moves: int)
    | PokerGame(deck: seq<Card>, hands: seq<seq<Card>>, community: seq<Card>,
                pot: int, bets: seq<int>, phase: string)
    | BlackjackGame(deck: seq<Card>, hands: seq<seq<Card>>, dealer: seq<Card>, phase: string)

  /** An action payload. A board game reads `position` or `column`; a card game
      reads `type` (here `command`) and `amount`. A payload of the wrong shape
      reads the field it needs as missing. */
  datatype Action =
    | Place(position: int)
    | Drop(column: int)
    | Command(command: string, amount: int)

  /** The `position` field, `None` when the payload has none. */
  function PositionOf(a: Action): Option<int> {
    if a.Place? then Some(a.position) else None
  }

  /** The `type` field; a missing one equals none of the commands. */
  function CommandOf(a: Action): string {
    if a.Command? then a.command else ""
  }

  /** The error messages a state machine can report: "already placed",
      "invalid column", "column full", "invalid move", "unknown game type". */
  datatype Error = AlreadyPlaced | InvalidColumn | ColumnFull | InvalidMove | UnknownGameType

  datatype Reason = Win | Draw | Fold | Bust | Stand

  /** The draw sentinel reported as `winner`. */
  const DrawWinner := -1

  /** The result envelope: a rejection with its error, or an accepted move with
      the next state, whether the game is over, the winner (a player index,
      `DrawWinner`, or `None` for absent/null) and the reason tag. */
  datatype ActionResult =
    | Rejected(error: Error)
    | Accepted(newState: GameState, gameOver: bool, winner: Option<int>, reason: Option<Reason>)

  /** Coordinate `x` moved `k` steps in direction `d`, where `d` is -1, 0 or 1. */
  function Step(x: int, d: int, k: int): int {
    if d == 1 then x + k else if d == -1 then x - k else x
  }

  /** Going `k` steps against a direction is going `-k` steps along it. */
  lemma StepBack(x: int, d: int, k: int)
    requires -1 <= d <= 1
    ensures Step(x, -d, k) == Step(x, d, -k)
  {
  }

  /** Number of cells of `b` equal to `v`. */
  function Count(b: Board, v: Cell): (n: nat)
    ensures n <= |b|
  {
    if b == [] then 0 else (if b[0] == v then 1 else 0) + Count(b[1..], v)
  }

  predicate Full(b: Board) {
    forall i :: 0 <= i < |b| ==> b[i].Some?
  }

  /** A board of `n` empty cells. */
  function EmptyBoard(n: nat): (b: Board)
    ensures |b| == n && forall i :: 0 <= i < n ==> b[i] == None
  {
    seq(n, _ => None)
  }
}
