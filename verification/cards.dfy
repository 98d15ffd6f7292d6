/** The 52-card deck shared by the poker and blackjack state machines: its
    construction in suit-major order and the Fisher-Yates shuffle, with the
    random draws supplied as an oracle sequence. */
module Cards {

  datatype Suit = Spades | Hearts | Diamonds | Clubs

  /** `Pip(n)` is one of the numeric ranks "2".."10". */
  datatype Rank = Pip(n: int) | Jack | Queen | King | Ace

  /** A card carries its suit, its rank and the rank's position in the rank
      list plus two (2 for "2" up to 14 for "A"). */
  datatype Card = Card(suit: Suit, rank: Rank, value: int)

  const Suits: seq<Suit> := [Spades, Hearts, Diamonds, Clubs]

  const Ranks: seq<Rank> :=
    [Pip(2), Pip(3), Pip(4), Pip(5), Pip(6), Pip(7), Pip(8), Pip(9), Pip(10),
     Jack, Queen, King, Ace]

  /** The position of a rank in `Ranks`, for the ranks that occur there. */
  function RankIndex(r: Rank): int {
    match r
    case Pip(n) => n - 2
    case Jack => 9
    case Queen => 10
    case King => 11
    case Ace => 12
  }

  function SuitIndex(s: Suit): int {
    match s
    case Spades => 0
    case Hearts => 1
    case Diamonds => 2
    case Clubs => 3
  }

  /** A card the deck builder can produce: a listed rank, and a value that is
      the rank's list position plus two. */
  predicate ValidCard(c: Card) {
    && 0 <= RankIndex(c.rank) < 13
    && Ranks[RankIndex(c.rank)] == c.rank
    && c.value == RankIndex(c.rank) + 2
  }

  /** The card the deck builder pushes as its `i`-th card. */
  function CardAt(i: int): Card
    requires 0 <= i < 52
  {
    Card(Suits[i / 13], Ranks[i % 13], i % 13 + 2)
  }

  /** The unshuffled deck: every rank of spades, then hearts, diamonds, clubs. */
  function OrderedDeck(): seq<Card> {
    seq(52, i requires 0 <= i < 52 => CardAt(i))
  }

  predicate Distinct<T(==)>(s: seq<T>) {
    forall i, j :: 0 <= i < j < |s| ==> s[i] != s[j]
  }

  /** Two sequences without repeats that share no value join into one
      without repeats. */
  lemma DistinctConcat<T>(a: seq<T>, c: seq<T>)
    requires Distinct(a) && Distinct(c)
    requires forall i :: 0 <= i < |a| ==> a[i] !in c
    ensures Distinct(a + c)
  {
    var s := a + c;
    forall x, y | 0 <= x < y < |s|
      ensures s[x] != s[y]
    {
      if x < |a| && |a| <= y {
        assert s[y] == c[y - |a|];
      } else if |a| <= x {
        assert s[x] == c[x - |a|] && s[y] == c[y - |a|];
      }
    }
  }

  /** A deck of 52 that holds exactly the cards of the ordered deck, in some
      order. */
  predicate IsShuffledDeck(d: seq<Card>) {
    |d| == 52 && multiset(d) == multiset(OrderedDeck())
  }

  lemma CardAtValid(i: int)
    requires 0 <= i < 52
    ensures ValidCard(CardAt(i))
    ensures SuitIndex(CardAt(i).suit) * 13 + RankIndex(CardAt(i).rank) == i
  {
    var s, r := i / 13, i % 13;
    assert 0 <= s < 4 && 0 <= r < 13;
    assert SuitIndex(Suits[s]) == s by {
      assert s == 0 || s == 1 || s == 2 || s == 3;
    }
    assert RankIndex(Ranks[r]) == r;
  }

  /** The ordered deck has 52 pairwise different cards, and a card occurs in
      it exactly when it is valid. */
  lemma OrderedDeckComplete()
    ensures |OrderedDeck()| == 52
    ensures Distinct(OrderedDeck())
    ensures forall c :: c in OrderedDeck() <==> ValidCard(c)
  {
    var d := OrderedDeck();
    forall i, j | 0 <= i < j < 52
      ensures d[i] != d[j]
    {
      CardAtValid(i);
      CardAtValid(j);
    }
    forall c | c in d
      ensures ValidCard(c)
    {
      var i :| 0 <= i < 52 && d[i] == c;
      CardAtValid(i);
    }
    forall c | ValidCard(c)
      ensures c in d
    {
      var i := SuitIndex(c.suit) * 13 + RankIndex(c.rank);
      assert 0 <= i < 52;
      assert i / 13 == SuitIndex(c.suit) && i % 13 == RankIndex(c.rank);
      assert Suits[SuitIndex(c.suit)] == c.suit by {
        match c.suit
        case Spades =>
        case Hearts =>
        case Diamonds =>
        case Clubs =>
      }
      assert d[i] == c;
    }
  }

  /** The deck builder's two nested loops: for each suit in order, for each
      rank in order, push the card whose value is the rank's index plus two. */
  method BuildDeck() returns (deck: seq<Card>)
    ensures deck == OrderedDeck()
    ensures |deck| == 52
    ensures Distinct(deck)
    ensures forall c :: c in deck <==> ValidCard(c)
  {
    deck := [];
    for s := 0 to 4
      invariant deck == OrderedDeck()[..13 * s]
    {
      for r := 0 to 13
        invariant deck == OrderedDeck()[..13 * s + r]
      {
        assert OrderedDeck()[13 * s + r] == Card(Suits[s], Ranks[r], r + 2);
        deck := deck + [Card(Suits[s], Ranks[r], r + 2)];
      }
    }
    OrderedDeckComplete();
  }

  /** A valid oracle for the shuffle: draw `k` (for position `51 - k`) is an
      index in `0..51-k`, as `floor(random * (i + 1))` is for position `i`. */
  predicate ValidSwaps(swaps: seq<int>) {
    |swaps| == 51 && forall k :: 0 <= k < 51 ==> 0 <= swaps[k] <= 51 - k
  }

  /** Fisher-Yates: for `i` from 51 down to 1 swap positions `i` and `j`,
      where `j` is the next oracle draw. */
  method ShuffleDeck(swaps: seq<int>) returns (deck: seq<Card>)
    requires ValidSwaps(swaps)
    ensures IsShuffledDeck(deck)
  {
    deck := BuildDeck();
    var i := 51;
    while i > 0
      invariant 0 <= i <= 51
      invariant |deck| == 52
      invariant multiset(deck) == multiset(OrderedDeck())
    {
      var j := swaps[51 - i];
      deck := deck[i := deck[j]][j := deck[i]];
      i := i - 1;
    }
  }

  /** A shuffled deck has pairwise different cards, all of them valid. */
  lemma ShuffledDeckDistinct(d: seq<Card>)
    requires IsShuffledDeck(d)
    ensures Distinct(d)
    ensures forall c :: c in d <==> ValidCard(c)
  {
    OrderedDeckComplete();
    forall c
      ensures c in d <==> ValidCard(c)
    {
      assert c in d <==> c in multiset(d);
      assert c in OrderedDeck() <==> c in multiset(OrderedDeck());
    }
    forall i, j | 0 <= i < j < |d|
      ensures d[i] != d[j]
    {
      if d[i] == d[j] {
        MultiplicityOfRepeat(d, i, j);
        DistinctMultiplicity(OrderedDeck(), d[i]);
        assert false;
      }
    }
  }

  /** A value at two positions occurs at least twice. */
  lemma MultiplicityOfRepeat<T>(s: seq<T>, i: int, j: int)
    requires 0 <= i < j < |s| && s[i] == s[j]
    ensures multiset(s)[s[i]] >= 2
  {
    var x := s[i];
    assert s == s[..i] + [x] + s[i+1..j] + [x] + s[j+1..];
    assert multiset(s) == multiset(s[..i]) + multiset{x} + multiset(s[i+1..j]) + multiset{x} + multiset(s[j+1..]);
  }

  /** In a sequence without repeats every value occurs at most once. */
  lemma {:induction false} DistinctMultiplicity<T>(s: seq<T>, x: T)
    requires Distinct(s)
    ensures multiset(s)[x] <= 1
  {
    if s != [] {
      var t := s[1..];
      assert s == [s[0]] + t;
      assert Distinct(t);
      DistinctMultiplicity(t, x);
      if s[0] == x {
        assert x !in t;
        assert multiset(t)[x] == 0;
      }
      assert multiset(s) == multiset{s[0]} + multiset(t);
    }
  }
}
