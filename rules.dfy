/** The checks the game makes on piles: a run on a tableau pile, a complete
    foundation, and the win test over the four foundations. */
module Rules {
  import opened Cards
  import opened Piles

  /** Card i of the pile follows card i - 1 in a tableau run: same suit, strictly lower rank. */
  predicate Follows(pile: seq<Card>, i: nat)
    requires 1 <= i < |pile|
  {
    pile[i].rank < pile[i - 1].rank && pile[i].suit == pile[i - 1].suit
  }

  /** What check_valid_tableau_sequence accepts: at least two cards, each following the one before. */
  predicate ValidTableauSequence(pile: seq<Card>) {
    |pile| >= 2 && forall i :: 1 <= i < |pile| ==> Follows(pile, i)
  }

  /** check_valid_tableau_sequence, with its flag-and-break loop. */
  method CheckValidTableauSequence(pile: seq<Card>) returns (valid: bool)
    ensures valid <==> ValidTableauSequence(pile)
  {
    if |pile| >= 2 {
      var validSequence := true;
      for i := 1 to |pile|
        invariant validSequence
        invariant forall k :: 1 <= k < i ==> Follows(pile, k)
      {
        var currentCard, previousCard := pile[i], pile[i - 1];
        if currentCard.rank >= previousCard.rank || currentCard.suit != previousCard.suit {
          assert !Follows(pile, i);
          validSequence := false;
          break;
        }
      }
      if validSequence {
        return true;
      }
    }
    return false;
  }

  lemma {:induction false} RunPrefix(pile: seq<Card>, i: nat, j: nat)
    requires ValidTableauSequence(pile) && i <= j < |pile|
    ensures pile[j].rank + (j - i) <= pile[i].rank && pile[j].suit == pile[i].suit
    decreases j - i
  {
    if i < j {
      RunPrefix(pile, i, j - 1);
      assert Follows(pile, j);
    }
  }

  /** A valid tableau run is one suit in strictly falling rank throughout, so it
      holds at most the thirteen cards of a suit. */
  lemma TableauRun(pile: seq<Card>)
    requires ValidTableauSequence(pile)
    ensures forall i, j :: 0 <= i < j < |pile| ==> pile[j].rank < pile[i].rank && pile[j].suit == pile[i].suit
    ensures |pile| <= VALUE_COUNT
  {
    forall i, j | 0 <= i < j < |pile|
      ensures pile[j].rank < pile[i].rank && pile[j].suit == pile[i].suit
    {
      RunPrefix(pile, i, j);
    }
    RunPrefix(pile, 0, |pile| - 1);
  }

  /** What check_valid_foundation_sequence accepts: thirteen cards of pile[0]'s suit,
      card i having the i-th value "A", "2", ..., "K". */
  predicate ValidFoundationSequence(pile: seq<Card>) {
    |pile| == VALUE_COUNT && forall i :: 0 <= i < |pile| ==> pile[i].suit == pile[0].suit && pile[i].rank == i
  }

  /** check_valid_foundation_sequence, with its flag-and-break loop. */
  method CheckValidFoundationSequence(pile: seq<Card>) returns (valid: bool)
    ensures valid <==> ValidFoundationSequence(pile)
  {
    if |pile| == VALUE_COUNT {
      var suit := pile[0].suit;
      var validSequence := true;
      for i := 0 to |pile|
        invariant validSequence
        invariant forall k :: 0 <= k < i ==> pile[k].suit == suit && pile[k].rank == k
      {
        var card := pile[i];
        if card.suit != suit || card.rank != i {
          validSequence := false;
          break;
        }
      }
      if validSequence {
        return true;
      }
    }
    return false;
  }

  function SuitsOf(pile: seq<Card>): set<Suit> {
    set c | c in pile :: c.suit
  }

  /** What check_win_condition accepts: the first foundation holds cards of one suit
      only, and every foundation is complete. */
  predicate WinCondition(piles: seq<seq<Card>>)
    requires |piles| == PILE_COUNT
  {
    |SuitsOf(piles[TOP_PILE_1])| == 1
    && forall f :: TOP_PILE_1 <= f <= TOP_PILE_4 ==> ValidFoundationSequence(piles[f])
  }

  /** The one-suit test on the first foundation adds nothing: the game is won exactly when
      all four foundations are complete, and never while the first foundation is empty
      or mixes suits. */
  lemma WinIff(piles: seq<seq<Card>>)
    requires |piles| == PILE_COUNT
    ensures WinCondition(piles) <==> forall f :: IsTopPile(f) ==> ValidFoundationSequence(piles[f])
    ensures piles[TOP_PILE_1] == [] ==> !WinCondition(piles)
    ensures (exists i, j :: 0 <= i < j < |piles[TOP_PILE_1]|
               && piles[TOP_PILE_1][i].suit != piles[TOP_PILE_1][j].suit)
            ==> !WinCondition(piles)
  {
    var p := piles[TOP_PILE_1];
    if forall f :: IsTopPile(f) ==> ValidFoundationSequence(piles[f]) {
      assert ValidFoundationSequence(p);
      assert SuitsOf(p) == {p[0].suit} by {
        assert p[0] in p;
      }
    }
  }

  lemma TableHolds52(piles: seq<seq<Card>>)
    requires ValidPiles(piles)
    ensures |Flatten(piles)| == DECK_SIZE
  {
    NewDeckIsFull();
    assert multiset(Flatten(piles)) == multiset(NewDeck());
  }

  /** Under the game's invariant a won game has every card on the foundations:
      stock, waste and tableau are empty. */
  lemma WonTableIsCleared(piles: seq<seq<Card>>)
    requires ValidPiles(piles) && WinCondition(piles)
    ensures forall q :: 0 <= q < PILE_COUNT && !IsTopPile(q) ==> piles[q] == []
  {
    TableHolds52(piles);
    var e := piles;
    for f := TOP_PILE_1 to TOP_PILE_4 + 1
      invariant |e| == PILE_COUNT
      invariant forall q :: 0 <= q < PILE_COUNT && !(TOP_PILE_1 <= q < f) ==> e[q] == piles[q]
      invariant forall q :: TOP_PILE_1 <= q < f ==> e[q] == []
      invariant |Flatten(e)| == DECK_SIZE - (f - TOP_PILE_1) * VALUE_COUNT
    {
      assert ValidFoundationSequence(piles[f]);
      FlattenLength(e, f, []);
      e := e[f := []];
    }
    forall q | 0 <= q < PILE_COUNT && !IsTopPile(q)
      ensures piles[q] == []
    {
      FlattenLength(e, q, []);
    }
  }
}
