/** Two-seat blackjack against a shared dealer: the hand value with ace
    demotion, the dealer's draw-to-17, and the hit / stand state machine.
    Cards are always drawn from the end of the deck. */
module Blackjack {
  import opened Wrappers
  import opened Cards
  import opened Games

  /** A card's nominal points: an ace 11, a face card 10, a numeric rank its
      number. */
  function CardPoints(c: Card): int {
    match c.rank
    case Ace => 11
    case Jack => 10
    case Queen => 10
    case King => 10
    case Pip(n) => n
  }

  function NominalSum(hand: seq<Card>): int {
    if hand == [] then 0 else NominalSum(hand[..|hand| - 1]) + CardPoints(hand[|hand| - 1])
  }

  /** The ranks of `hand`, card by card. */
  function RanksOf(hand: seq<Card>): (rs: seq<Rank>)
    ensures |rs| == |hand| && forall i :: 0 <= i < |hand| ==> rs[i] == hand[i].rank
  {
    seq(|hand|, i requires 0 <= i < |hand| => hand[i].rank)
  }

  /** The number of aces in `hand`: none exactly when no card is an ace, and
      one per card exactly when every card is. `AceCountIsMultiplicity`
      states the count for every hand. */
  function AceCount(hand: seq<Card>): (n: nat)
    ensures n <= |hand|
    ensures n == 0 <==> forall i :: 0 <= i < |hand| ==> hand[i].rank != Ace
    ensures n == |hand| <==> forall i :: 0 <= i < |hand| ==> hand[i].rank == Ace
  {
    if hand == [] then 0
    else
      AceCount(hand[..|hand| - 1]) + (if hand[|hand| - 1].rank == Ace then 1 else 0)
  }

  /** The ace count is the number of aces among the hand's ranks: one per
      card ranked ace, whatever the other cards are. */
  lemma {:induction false} AceCountIsMultiplicity(hand: seq<Card>)
    ensures AceCount(hand) == multiset(RanksOf(hand))[Ace]
  {
    if hand != [] {
      var h := hand[..|hand| - 1];
      AceCountIsMultiplicity(h);
      assert RanksOf(hand) == RanksOf(h) + [hand[|hand| - 1].rank];
    }
  }

  /** The demotion loop: while the total exceeds 21 and an ace still counts
      11, count that ace as 1 instead. The result drops by a multiple of 10,
      at most once per ace; it stays above 21 only once every ace is
      demoted, and it is lowered only while it exceeds 21. */
  function Demote(v: int, aces: nat): (r: int)
    decreases aces
    ensures r <= v && (v - r) % 10 == 0 && v - r <= 10 * aces
    ensures r > 21 ==> v - r == 10 * aces
    ensures r < v ==> r + 10 > 21
    ensures v <= 21 ==> r == v
  {
    if v > 21 && aces > 0 then Demote(v - 10, aces - 1) else v
  }

  /** The value of a hand: the nominal sum, with aces demoted from 11 to 1
      one at a time while it exceeds 21. */
  function HandValue(hand: seq<Card>): (v: int)
    ensures v <= NominalSum(hand) && (NominalSum(hand) - v) % 10 == 0
    ensures NominalSum(hand) - v <= 10 * AceCount(hand)
    ensures v > 21 ==> NominalSum(hand) - v == 10 * AceCount(hand)
    ensures v < NominalSum(hand) ==> v + 10 > 21
  {
    Demote(NominalSum(hand), AceCount(hand))
  }

  /** An ace and a nine are worth 20; two aces and a nine are worth 21, one
      ace having been demoted. */
  lemma HandValueExamples()
    ensures HandValue([Card(Spades, Ace, 14), Card(Hearts, Pip(9), 9)]) == 20
    ensures HandValue([Card(Spades, Ace, 14), Card(Hearts, Ace, 14), Card(Clubs, Pip(9), 9)]) == 21
  {
    var a := [Card(Spades, Ace, 14), Card(Hearts, Pip(9), 9)];
    assert a[..1] == [Card(Spades, Ace, 14)] && a[..1][..0] == [];
    var b := [Card(Spades, Ace, 14), Card(Hearts, Ace, 14), Card(Clubs, Pip(9), 9)];
    var b2 := [Card(Spades, Ace, 14), Card(Hearts, Ace, 14)];
    assert b[..2] == b2 && b2[..1] == a[..1];
    assert NominalSum(b2) == 22 && AceCount(b2) == 2;
    assert NominalSum(b) == 31 && AceCount(b) == 2;
  }

  function Last(deck: seq<Card>): Card
    requires deck != []
  {
    deck[|deck| - 1]
  }

  function Rest(deck: seq<Card>): seq<Card>
    requires deck != []
  {
    deck[..|deck| - 1]
  }

  /** The dealer's loop ends before the deck runs out: the dealer reaches 17
      with the cards left. */
  predicate DealerFinishes(dealer: seq<Card>, deck: seq<Card>)
    decreases |deck|
  {
    HandValue(dealer) >= 17 || (deck != [] && DealerFinishes(dealer + [Last(deck)], Rest(deck)))
  }

  /** The dealer's turn: draw from the end of the deck while the dealer's hand
      is worth less than 17. Returns the dealer's final hand and the deck left:
      the dealer keeps its cards and gains one card per card the deck loses,
      and the deck left is a prefix of the deck. */
  function DealerPlay(dealer: seq<Card>, deck: seq<Card>): (res: (seq<Card>, seq<Card>))
    requires DealerFinishes(dealer, deck)
    decreases |deck|
    ensures |res.1| <= |deck| && res.1 == deck[..|res.1|]
    ensures |res.0| == |dealer| + (|deck| - |res.1|)
    ensures res.0[..|dealer|] == dealer
  {
    if HandValue(dealer) >= 17 then (dealer, deck)
    else
      var d := dealer + [Last(deck)];
      var res := DealerPlay(d, Rest(deck));
      assert res.0[..|dealer|] == res.0[..|d|][..|dealer|] == dealer;
      assert res.1 == deck[..|res.1|] by {
        assert res.1 == Rest(deck)[..|res.1|];
      }
      res
  }

  /** One draw of the dealer's turn: below 17 the dealer takes the deck's
      last card and plays on from there. */
  lemma DealerStep(dealer: seq<Card>, deck: seq<Card>)
    requires DealerFinishes(dealer, deck) && HandValue(dealer) < 17
    ensures deck != [] && DealerFinishes(dealer + [Last(deck)], Rest(deck))
    ensures DealerPlay(dealer, deck) == DealerPlay(dealer + [Last(deck)], Rest(deck))
  {
  }

  /** The dealer ends on at least 17, draws only while below 17 (every hand
      the dealer draws to is worth less than 17), and draws nothing when
      already at 17 or more. */
  lemma {:induction false} DealerReaches17(dealer: seq<Card>, deck: seq<Card>)
    requires DealerFinishes(dealer, deck)
    decreases |deck|
    ensures HandValue(DealerPlay(dealer, deck).0) >= 17
    ensures forall k :: |dealer| <= k < |DealerPlay(dealer, deck).0| ==>
      HandValue(DealerPlay(dealer, deck).0[..k]) < 17
    ensures |DealerPlay(dealer, deck).0| == |dealer| <==> HandValue(dealer) >= 17
  {
    if HandValue(dealer) < 17 {
      var d := dealer + [Last(deck)];
      DealerStep(dealer, deck);
      DealerReaches17(d, Rest(deck));
      var res := DealerPlay(d, Rest(deck));
      forall k | |dealer| <= k < |res.0|
        ensures HandValue(res.0[..k]) < 17
      {
        if k == |dealer| {
          assert res.0[..k] == res.0[..|d|][..k] == dealer;
        }
      }
    }
  }

  /** The dealer draws the deck's last cards, last card first. */
  lemma {:induction false} DealerDrawOrder(dealer: seq<Card>, deck: seq<Card>)
    requires DealerFinishes(dealer, deck)
    decreases |deck|
    ensures forall j :: |dealer| <= j < |DealerPlay(dealer, deck).0| ==>
      DealerPlay(dealer, deck).0[j] == deck[|deck| + |dealer| - 1 - j]
  {
    if HandValue(dealer) < 17 {
      var d := dealer + [Last(deck)];
      DealerDrawOrder(d, Rest(deck));
      var res := DealerPlay(d, Rest(deck));
      assert res == DealerPlay(dealer, deck);
      forall j | |dealer| <= j < |res.0|
        ensures res.0[j] == deck[|deck| + |dealer| - 1 - j]
      {
        if j == |dealer| {
          assert res.0[j] == res.0[..|d|][j] == d[j];
        } else {
          assert |d| <= j < |res.0|;
          assert res.0[j] == Rest(deck)[|Rest(deck)| + |d| - 1 - j];
        }
      }
    }
  }

  /** The dealer's turn loses and gains no card. */
  lemma {:induction false} DealerKeepsCards(dealer: seq<Card>, deck: seq<Card>)
    requires DealerFinishes(dealer, deck)
    decreases |deck|
    ensures multiset(DealerPlay(dealer, deck).0) + multiset(DealerPlay(dealer, deck).1)
         == multiset(dealer) + multiset(deck)
  {
    if HandValue(dealer) < 17 {
      var d, rest := dealer + [Last(deck)], Rest(deck);
      DealerStep(dealer, deck);
      DealerKeepsCards(d, rest);
      assert multiset(d) + multiset(rest) == multiset(dealer) + multiset(deck) by {
        assert deck == rest + [Last(deck)];
      }
    }
  }

  /** All cards in play: the deck, both hands and the dealer's hand. */
  function CardsOf(s: GameState): multiset<Card>
    requires s.BlackjackGame? && |s.hands| == 2
  {
    multiset(s.deck) + multiset(s.hands[0]) + multiset(s.hands[1]) + multiset(s.dealer)
  }

  /** The stand outcome for the actor `p`: a dealer over 21 or a lower dealer
      loses to `p`, a higher dealer wins for the opponent, equal values draw. */
  function StandWinner(playerValue: int, dealerValue: int, p: Player): (w: int)
    ensures w == p <==> dealerValue > 21 || playerValue > dealerValue
    ensures w == Opponent(p) <==> dealerValue <= 21 && dealerValue > playerValue
    ensures w == DrawWinner <==> dealerValue <= 21 && dealerValue == playerValue
  {
    if dealerValue > 21 then p
    else if playerValue > dealerValue then p
    else if dealerValue > playerValue then Opponent(p)
    else DrawWinner
  }

  /** The commands the state machine can carry out: a hit needs a card left
      and a stand needs the dealer to reach 17 before the deck runs out. */
  predicate Defined(s: GameState, a: Action)
    requires s.BlackjackGame?
  {
    && (CommandOf(a) == "hit" ==> s.deck != [])
    && (CommandOf(a) == "stand" ==> DealerFinishes(s.dealer, s.deck))
  }

  /** "hit": the deck's last card moves into the actor's hand; a hand worth
      more than 21 ends the game as a bust won by the opponent. */
  function HitResult(s: GameState, p: Player): (r: ActionResult)
    requires s.BlackjackGame? && |s.hands| == 2 && s.deck != []
    ensures r.Accepted? && r.newState.BlackjackGame? && |r.newState.hands| == 2
    ensures CardsOf(r.newState) == CardsOf(s)
    ensures r.newState.phase == s.phase && r.newState.dealer == s.dealer
    ensures r.newState.hands[Opponent(p)] == s.hands[Opponent(p)]
    ensures r.newState.hands[p] == s.hands[p] + [s.deck[|s.deck| - 1]]
    ensures r.newState.deck == s.deck[..|s.deck| - 1]
    ensures r.gameOver <==> HandValue(r.newState.hands[p]) > 21
    ensures r.gameOver ==> r.winner == Some(Opponent(p)) && r.reason == Some(Bust)
    ensures !r.gameOver ==> r.winner.None? && r.reason.None?
  {
    var hand := s.hands[p] + [Last(s.deck)];
    var ns := BlackjackGame(Rest(s.deck), s.hands[p := hand], s.dealer, s.phase);
    assert CardsOf(ns) == CardsOf(s) by {
      assert s.deck == Rest(s.deck) + [Last(s.deck)];
      assert multiset(s.deck) == multiset(Rest(s.deck)) + multiset{Last(s.deck)};
      assert multiset(hand) == multiset(s.hands[p]) + multiset{Last(s.deck)};
      if p == 0 {
        assert ns.hands[0] == hand && ns.hands[1] == s.hands[1];
      } else {
        assert ns.hands[1] == hand && ns.hands[0] == s.hands[0];
      }
    }
    if HandValue(hand) > 21 then Accepted(ns, true, Some(Opponent(p)), Some(Bust))
    else Accepted(ns, false, None, None)
  }

  /** "stand": the dealer plays out and the game ends, decided by
      `StandWinner` on the actor's hand and the dealer's final hand. */
  function StandResult(s: GameState, p: Player): (r: ActionResult)
    requires s.BlackjackGame? && |s.hands| == 2 && DealerFinishes(s.dealer, s.deck)
    ensures r.Accepted? && r.newState.BlackjackGame? && |r.newState.hands| == 2
    ensures CardsOf(r.newState) == CardsOf(s)
    ensures r.newState.phase == s.phase && r.newState.hands == s.hands
    ensures |r.newState.dealer| >= |s.dealer| && r.newState.dealer[..|s.dealer|] == s.dealer
    ensures r.newState.dealer == DealerPlay(s.dealer, s.deck).0 && r.newState.deck == DealerPlay(s.dealer, s.deck).1
    ensures HandValue(r.newState.dealer) >= 17
    ensures r.gameOver && r.reason == Some(Stand)
    ensures r.winner == Some(StandWinner(HandValue(s.hands[p]), HandValue(r.newState.dealer), p))
  {
    var res := DealerPlay(s.dealer, s.deck);
    var ns := BlackjackGame(res.1, s.hands, res.0, s.phase);
    StandKeepsCards(s, res, ns);
    DealerReaches17(s.dealer, s.deck);
    Accepted(ns, true, Some(StandWinner(HandValue(s.hands[p]), HandValue(res.0), p)), Some(Stand))
  }

  lemma StandKeepsCards(s: GameState, res: (seq<Card>, seq<Card>), ns: GameState)
    requires s.BlackjackGame? && |s.hands| == 2 && DealerFinishes(s.dealer, s.deck)
    requires res == DealerPlay(s.dealer, s.deck) && ns == BlackjackGame(res.1, s.hands, res.0, s.phase)
    ensures CardsOf(ns) == CardsOf(s)
  {
    DealerKeepsCards(s.dealer, s.deck);
    var h := multiset(s.hands[0]) + multiset(s.hands[1]);
    calc {
      CardsOf(ns);
      multiset(res.1) + h + multiset(res.0);
      (multiset(res.0) + multiset(res.1)) + h;
      (multiset(s.dealer) + multiset(s.deck)) + h;
      CardsOf(s);
    }
  }

  /** The blackjack state machine: "hit" and "stand" as above; any other
      command is accepted and changes nothing. Every action keeps all cards
      in play and leaves the opponent's hand alone. */
  function Process(s: GameState, a: Action, p: Player): (r: ActionResult)
    requires s.BlackjackGame? && |s.hands| == 2 && Defined(s, a)
    ensures r.Accepted? && r.newState.BlackjackGame? && |r.newState.hands| == 2
    ensures CardsOf(r.newState) == CardsOf(s)
    ensures r.newState.hands[Opponent(p)] == s.hands[Opponent(p)]
    ensures CommandOf(a) == "hit" ==> r == HitResult(s, p)
    ensures CommandOf(a) == "stand" ==> r == StandResult(s, p)
    ensures CommandOf(a) !in {"hit", "stand"} ==> r == Accepted(s, false, None, None)
  {
    var command := CommandOf(a);
    if command == "hit" then HitResult(s, p)
    else if command == "stand" then StandResult(s, p)
    else Accepted(s, false, None, None)
  }

  /** The opening table: two cards to each seat and one to the dealer, drawn
      from the end of the shuffled deck in seat order. All 52 cards stay in
      play and no card appears twice. */
  function Deal(deck: seq<Card>): (s: GameState)
    requires IsShuffledDeck(deck)
    ensures s.BlackjackGame? && |s.hands| == 2 && s.phase == "betting"
    ensures |s.deck| == 47 && |s.hands[0]| == 2 && |s.hands[1]| == 2 && |s.dealer| == 1
    ensures s.deck == deck[..47]
    ensures s.hands[0] + s.hands[1] + s.dealer == [deck[51], deck[50], deck[49], deck[48], deck[47]]
    ensures CardsOf(s) == multiset(OrderedDeck())
    ensures Distinct(s.hands[0] + s.hands[1] + s.dealer + s.deck)
  {
    var s := BlackjackGame(deck[..47], [[deck[51], deck[50]], [deck[49], deck[48]]], [deck[47]], "betting");
    DealKeepsCards(deck, s);
    DealDistinct(deck, s);
    s
  }

  lemma DealKeepsCards(deck: seq<Card>, s: GameState)
    requires |deck| == 52
    requires s == BlackjackGame(deck[..47], [[deck[51], deck[50]], [deck[49], deck[48]]], [deck[47]], "betting")
    ensures CardsOf(s) == multiset(deck)
  {
    assert deck == deck[..47] + [deck[47]] + [deck[48], deck[49]] + [deck[50], deck[51]];
    SwapPair(deck[48], deck[49]);
    SwapPair(deck[50], deck[51]);
  }

  lemma SwapPair(a: Card, b: Card)
    ensures multiset([a, b]) == multiset([b, a])
  {
    assert [a, b] == [a] + [b] && [b, a] == [b] + [a];
  }

  lemma DealDistinct(deck: seq<Card>, s: GameState)
    requires IsShuffledDeck(deck)
    requires s == BlackjackGame(deck[..47], [[deck[51], deck[50]], [deck[49], deck[48]]], [deck[47]], "betting")
    ensures Distinct(s.hands[0] + s.hands[1] + s.dealer + s.deck)
  {
    ShuffledDeckDistinct(deck);
    var all := s.hands[0] + s.hands[1] + s.dealer + s.deck;
    forall i, j | 0 <= i < j < |all|
      ensures all[i] != all[j]
    {
      var di := if i < 5 then 51 - i else i - 5;
      var dj := if j < 5 then 51 - j else j - 5;
      assert all[i] == deck[di] && all[j] == deck[dj];
    }
  }
}
