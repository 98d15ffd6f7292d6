/** The simplified two-seat poker state machine: bets, calls and folds move
    chips into the pot; nothing is dealt. */
module Poker {
  import opened Wrappers
  import opened Games

  /** The larger of the two seats' bets. */
  function MaxBet(bets: seq<int>): (m: int)
    requires |bets| == 2
    ensures m in bets && forall i :: 0 <= i < 2 ==> bets[i] <= m
  {
    if bets[0] >= bets[1] then bets[0] else bets[1]
  }

  /** Chips in the pot that no current bet accounts for. */
  function Unmatched(s: GameState): int
    requires s.PokerGame? && |s.bets| == 2
  {
    s.pot - (s.bets[0] + s.bets[1])
  }

  /** "bet" adds `amount` to the actor's bet and to the pot; "call" raises the
      actor's bet to the larger bet and puts the difference into the pot;
      "fold" ends the game with the opponent as winner and leaves the state as
      it is; any other command is accepted and changes nothing. Only the
      actor's bet and the pot ever change, and always by the same amount, so
      from the initial pot 0 and bets [0, 0] the pot stays the sum of the
      bets. */
  function Process(s: GameState, a: Action, p: Player): (r: ActionResult)
    requires s.PokerGame? && |s.bets| == 2
    ensures r.Accepted?
    ensures r.newState.PokerGame? && |r.newState.bets| == 2
    ensures r.newState.deck == s.deck && r.newState.hands == s.hands
    ensures r.newState.community == s.community && r.newState.phase == s.phase
    ensures r.newState.bets[Opponent(p)] == s.bets[Opponent(p)]
    ensures Unmatched(r.newState) == Unmatched(s)
    ensures CommandOf(a) == "bet" ==>
      && r.newState.bets[p] == s.bets[p] + a.amount
      && r.newState.pot == s.pot + a.amount
      && !r.gameOver && r.winner.None? && r.reason.None?
    ensures CommandOf(a) == "call" ==>
      && r.newState.bets[p] == MaxBet(s.bets)
      && r.newState.pot == s.pot + (MaxBet(s.bets) - s.bets[p])
      && !r.gameOver && r.winner.None? && r.reason.None?
    ensures CommandOf(a) == "call" && s.bets[p] <= s.bets[Opponent(p)] ==>
      r.newState.bets[0] == r.newState.bets[1]
    ensures CommandOf(a) == "fold" <==> r.gameOver
    ensures CommandOf(a) == "fold" ==>
      r.newState == s && r.winner == Some(Opponent(p)) && r.reason == Some(Fold)
    ensures CommandOf(a) !in {"bet", "call", "fold"} ==>
      r == Accepted(s, false, None, None)
  {
    var command := CommandOf(a);
    if command == "bet" then
      Accepted(s.(bets := s.bets[p := s.bets[p] + a.amount], pot := s.pot + a.amount), false, None, None)
    else if command == "fold" then
      Accepted(s, true, Some(Opponent(p)), Some(Fold))
    else if command == "call" then
      var toCall := MaxBet(s.bets) - s.bets[p];
      Accepted(s.(bets := s.bets[p := s.bets[p] + toCall], pot := s.pot + toCall), false, None, None)
    else
      Accepted(s, false, None, None)
  }
}
