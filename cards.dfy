/** Cards of the Solitaire clone: suits, ranks, colours, the freshly built
    52-card deck and the swap shuffle applied to it. */
module Cards {

  /** The four suits, in the order the deck is built. */
  datatype Suit = Clubs | Hearts | Spades | Diamonds

  const CARD_SUITS: seq<Suit> := [Clubs, Hearts, Spades, Diamonds]

  /** Number of card values "A", "2", ..., "10", "J", "Q", "K". */
  const VALUE_COUNT: nat := 13

  const DECK_SIZE: nat := 52

  /** A rank is the position of a card's value in the value list: "A" is 0, "K" is 12. */
  type Rank = r: nat | r < 13

  /** A card is identified by its suit and rank; a deck holds each pair once.
      Whether it lies face up is kept by the game, one flag per card. */
  datatype Card = Card(suit: Suit, rank: Rank)

  /** Spades and Clubs are black; in the deck's suit order black and red suits alternate. */
  function IsBlack(c: Card): (r: bool)
    ensures r <==> SuitIndex(c.suit) % 2 == 0
  {
    c.suit == Spades || c.suit == Clubs
  }

  /** Every card is red or black, never both. */
  function IsRed(c: Card): (r: bool)
    ensures r <==> !IsBlack(c)
  {
    c.suit == Hearts || c.suit == Diamonds
  }

  function SuitIndex(s: Suit): (i: nat)
    ensures i < |CARD_SUITS| && CARD_SUITS[i] == s
  {
    match s
    case Clubs => 0
    case Hearts => 1
    case Spades => 2
    case Diamonds => 3
  }

  /** The deck as it is built, suit by suit, each suit from "A" to "K". */
  function NewDeck(): seq<Card> {
    seq(DECK_SIZE, i requires 0 <= i < DECK_SIZE => Card(CARD_SUITS[i / VALUE_COUNT], i % VALUE_COUNT))
  }

  /** The cards of one whole deck: the multiset of the deck as it is built. */
  ghost predicate IsFullDeck(m: multiset<Card>) {
    forall c: Card :: m[c] == 1
  }

  lemma OccursOnce<T>(s: seq<T>, i: nat)
    requires i < |s|
    requires forall j :: 0 <= j < |s| && j != i ==> s[j] != s[i]
    ensures multiset(s)[s[i]] == 1
  {
    assert s == s[..i] + [s[i]] + s[i + 1..];
    assert s[i] !in s[..i];
    assert s[i] !in s[i + 1..];
  }

  /** Building the deck creates each (suit, value) pair exactly once. */
  lemma NewDeckIsFull()
    ensures |NewDeck()| == DECK_SIZE
    ensures forall c: Card :: multiset(NewDeck())[c] == 1
  {
    var d := NewDeck();
    forall c: Card
      ensures multiset(d)[c] == 1
    {
      var i := SuitIndex(c.suit) * VALUE_COUNT + c.rank;
      assert i / VALUE_COUNT == SuitIndex(c.suit) && i % VALUE_COUNT == c.rank;
      assert d[i] == c;
      forall j | 0 <= j < |d| && j != i
        ensures d[j] != d[i]
      {
        assert j == j / VALUE_COUNT * VALUE_COUNT + j % VALUE_COUNT;
      }
      OccursOnce(d, i);
    }
  }

  /** A whole deck holds every one of the 52 cards exactly once. */
  lemma FullDeckOnce(m: multiset<Card>, c: Card)
    requires IsFullDeck(m)
    ensures m[c] == 1
  {
  }

  /** The nested suit/value loop that creates the cards. */
  method CreateCards() returns (cards: seq<Card>)
    ensures cards == NewDeck()
  {
    cards := [];
    for s := 0 to |CARD_SUITS|
      invariant |cards| == s * VALUE_COUNT
      invariant forall i :: 0 <= i < |cards| ==> cards[i] == NewDeck()[i]
    {
      for v := 0 to VALUE_COUNT
        invariant |cards| == s * VALUE_COUNT + v
        invariant forall i :: 0 <= i < |cards| ==> cards[i] == NewDeck()[i]
      {
        ghost var n := |cards|;
        assert n / VALUE_COUNT == s && n % VALUE_COUNT == v;
        cards := cards + [Card(CARD_SUITS[s], v)];
      }
    }
  }

  function Swap<T>(s: seq<T>, i: nat, j: nat): (r: seq<T>)
    requires i < |s| && j < |s|
  {
    s[i := s[j]][j := s[i]]
  }

  predicate SwapIndices(swaps: seq<nat>, n: nat) {
    |swaps| <= n && forall k :: 0 <= k < |swaps| ==> swaps[k] < n
  }

  /** The card list after the first |swaps| steps of the shuffle: step pos1
      exchanges positions pos1 and swaps[pos1]. */
  function Shuffled<T>(s: seq<T>, swaps: seq<nat>): (r: seq<T>)
    requires SwapIndices(swaps, |s|)
    ensures |r| == |s|
    decreases |swaps|
  {
    if swaps == [] then s
    else
      var k := |swaps| - 1;
      Swap(Shuffled(s, swaps[..k]), k, swaps[k])
  }

  /** Whatever swap indices the random source draws, the shuffle only reorders the cards. */
  lemma {:induction false} ShuffledPermutes<T>(s: seq<T>, swaps: seq<nat>)
    requires SwapIndices(swaps, |s|)
    ensures multiset(Shuffled(s, swaps)) == multiset(s)
    decreases |swaps|
  {
    if swaps != [] {
      var k := |swaps| - 1;
      ShuffledPermutes(s, swaps[..k]);
      var p := Shuffled(s, swaps[..k]);
      assert Shuffled(s, swaps) == p[k := p[swaps[k]]][swaps[k] := p[k]];
    }
  }

  /** The in-place swap shuffle of the card list; the random positions are given. */
  method Shuffle<T>(a: array<T>, swaps: seq<nat>)
    requires |swaps| == a.Length && SwapIndices(swaps, a.Length)
    modifies a
    ensures a[..] == Shuffled(old(a[..]), swaps)
  {
    for pos1 := 0 to a.Length
      invariant a[..] == Shuffled(old(a[..]), swaps[..pos1])
    {
      var pos2 := swaps[pos1];
      a[pos1], a[pos2] := a[pos2], a[pos1];
      assert swaps[..pos1 + 1][..pos1] == swaps[..pos1];
    }
    assert swaps[..a.Length] == swaps;
  }
}
