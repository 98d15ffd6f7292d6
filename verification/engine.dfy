/** The game engine's entry points: the initial state of each game kind and
    the dispatcher that routes an action to the kind's state machine. */
module Engine {
  import opened Wrappers
  import opened Cards
  import opened Games
  import TicTacToe
  import ConnectFour
  import Reversi
  import Poker
  import Blackjack

  predicate IsCardKind(kind: string) {
    kind == PokerKind || kind == BlackjackKind
  }

  /** The shape each kind's state machine works on. A poker deck stays the
      shuffled deck; a blackjack table holds exactly the 52 cards between the
      deck, the two hands and the dealer. An unknown kind may hold anything. */
  predicate WellFormed(kind: string, s: GameState) {
    if kind == TicTacToeKind then s.BoardGame? && |s.board| == 9
    else if kind == Connect4Kind then s.BoardGame? && |s.board| == 42
    else if kind == ReversiKind then s.BoardGame? && |s.board| == 64
    else if kind == PokerKind then
      s.PokerGame? && |s.bets| == 2 && |s.hands| == 2 && IsShuffledDeck(s.deck)
    else if kind == BlackjackKind then
      s.BlackjackGame? && |s.hands| == 2 && Blackjack.CardsOf(s) == multiset(OrderedDeck())
    else true
  }

  /** The actions the engine can carry out on a well-formed state: everything
      except a blackjack hit on an empty deck or a stand the deck cannot see
      through. */
  predicate Defined(kind: string, s: GameState, a: Action)
    requires WellFormed(kind, s)
  {
    kind == BlackjackKind ==> Blackjack.Defined(s, a)
  }

  /** A new game of `kind`. The card games take `deck`, the result of the
      shuffle; blackjack deals two cards to each seat and one to the dealer
      from the end of the deck. An unknown kind gets an empty board. */
  function InitialState(kind: string, deck: seq<Card>): (s: GameState)
    requires IsCardKind(kind) ==> IsShuffledDeck(deck)
    ensures WellFormed(kind, s)
    ensures kind == TicTacToeKind ==> s == BoardGame(EmptyBoard(9), 0)
    ensures kind == Connect4Kind ==> s == BoardGame(EmptyBoard(42), 0)
    ensures kind == ReversiKind ==>
      && s.BoardGame? && s.moves == 0 && |s.board| == 64
      && s.board[27] == s.board[36] == Some(0) && s.board[28] == s.board[35] == Some(1)
      && forall i :: 0 <= i < 64 && i !in {27, 28, 35, 36} ==> s.board[i].None?
    ensures kind == PokerKind ==>
      && s.PokerGame? && s.deck == deck && s.hands == [[], []] && s.community == []
      && s.pot == 0 && s.bets == [0, 0] && Poker.Unmatched(s) == 0 && s.phase == "preflop"
    ensures kind == BlackjackKind ==> s == Blackjack.Deal(deck)
    ensures !KnownKind(kind) ==> s == BoardGame([], 0)
  {
    if kind == TicTacToeKind then BoardGame(EmptyBoard(9), 0)
    else if kind == Connect4Kind then BoardGame(EmptyBoard(42), 0)
    else if kind == ReversiKind then
      BoardGame(Reversi.InitialBoard(), 0)
    else if kind == PokerKind then PokerGame(deck, [[], []], [], 0, [0, 0], "preflop")
    else if kind == BlackjackKind then Blackjack.Deal(deck)
    else BoardGame([], 0)
  }

  /** The dispatcher: the kind's state machine, or a rejection with "unknown
      game type" for any other kind. An accepted action keeps the state in
      the shape of its kind. */
  function Dispatch(kind: string, s: GameState, a: Action, p: Player): (r: ActionResult)
    requires WellFormed(kind, s) && Defined(kind, s, a)
    ensures !KnownKind(kind) <==> r == Rejected(UnknownGameType)
    ensures r.Accepted? ==> WellFormed(kind, r.newState)
  {
    if kind == TicTacToeKind then TicTacToe.Process(s, a, p)
    else if kind == Connect4Kind then ConnectFour.Process(s, a, p)
    else if kind == ReversiKind then Reversi.Process(s, a, p)
    else if kind == PokerKind then Poker.Process(s, a, p)
    else if kind == BlackjackKind then Blackjack.Process(s, a, p)
    else Rejected(UnknownGameType)
  }

  /** The dispatcher hands each known kind to that kind's state machine, so
      every per-game contract holds of the engine's result. */
  lemma DispatchRoutes(kind: string, s: GameState, a: Action, p: Player)
    requires WellFormed(kind, s) && Defined(kind, s, a)
    ensures kind == TicTacToeKind ==> Dispatch(kind, s, a, p) == TicTacToe.Process(s, a, p)
    ensures kind == Connect4Kind ==> Dispatch(kind, s, a, p) == ConnectFour.Process(s, a, p)
    ensures kind == ReversiKind ==> Dispatch(kind, s, a, p) == Reversi.Process(s, a, p)
    ensures kind == PokerKind ==> Dispatch(kind, s, a, p) == Poker.Process(s, a, p)
    ensures kind == BlackjackKind ==> Dispatch(kind, s, a, p) == Blackjack.Process(s, a, p)
  {
  }
}
