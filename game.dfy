/** The game object of the Solitaire clone: the thirteen piles it updates in place,
    the cards the mouse holds, and the face-up flag of every card, with the deal and
    the mouse handlers that change them. */
module Solitaire {
  import opened Cards
  import opened Piles
  import opened Rules

  /** What a mouse press hits, standing in for the sprite hit-testing: the top card
      under the mouse, else the mat under it (by its index), else nothing. */
  datatype Press = OnCard(card: Card) | OnMat(mat: nat) | OnNothing

  /** The top cards of the tableau piles PLAY_PILE_1 .. n - 1. */
  function TopsBelow(piles: seq<seq<Card>>, n: int): set<Card> {
    set q | PLAY_PILE_1 <= q < n && q < |piles| && piles[q] != [] :: piles[q][|piles[q]| - 1]
  }

  /** The top card of every tableau pile: the cards the deal turns face up. */
  function TableauTops(piles: seq<seq<Card>>): set<Card> {
    TopsBelow(piles, PLAY_PILE_7 + 1)
  }

  /** Turning up the tableau tops leaves exactly the last card of each tableau pile
      face up, and no stock card. */
  lemma OnlyTopsFaceUp(piles: seq<seq<Card>>)
    requires ValidPiles(piles)
    ensures forall q, j :: IsPlayPile(q) && 0 <= j < |piles[q]| ==>
              (piles[q][j] in TableauTops(piles) <==> j == |piles[q]| - 1)
    ensures forall c :: c in piles[BOTTOM_FACE_DOWN_PILE] ==> c !in TableauTops(piles)
  {
    forall q, j | IsPlayPile(q) && 0 <= j < |piles[q]|
      ensures piles[q][j] in TableauTops(piles) <==> j == |piles[q]| - 1
    {
      var c := piles[q][j];
      PileDistinct(piles, q);
      PileUnique(piles, c, q);
      if c in TableauTops(piles) {
        var q' :| PLAY_PILE_1 <= q' < PLAY_PILE_7 + 1 && q' < |piles| && piles[q'] != []
                  && c == piles[q'][|piles[q'] | - 1];
        assert c in piles[q'];
      }
    }
    forall c | c in piles[BOTTOM_FACE_DOWN_PILE]
      ensures c !in TableauTops(piles)
    {
      PileUnique(piles, c, BOTTOM_FACE_DOWN_PILE);
    }
  }

  /** The effect of clicking the stock: Flip three rounds, each turning the moved card face up;
      no other pile changes. */
  ghost predicate FlippedThree(before: seq<seq<Card>>, up: set<Card>, after: seq<seq<Card>>, up': set<Card>)
    requires |before| == PILE_COUNT
  {
    var stock := before[BOTTOM_FACE_DOWN_PILE];
    var m := Min(3, |stock|);
    |after| == PILE_COUNT
    && (after[BOTTOM_FACE_DOWN_PILE], after[BOTTOM_FACE_UP_PILE])
       == Flip(stock, before[BOTTOM_FACE_UP_PILE], 3)
    && (forall q :: PLAY_PILE_1 <= q < PILE_COUNT ==> after[q] == before[q])
    && up' == up + Elems(stock[|stock| - m..])
  }

  /** The effect of turning the waste back over: the waste goes onto the stock in reverse,
      every one of its cards face down; no other pile changes. */
  ghost predicate Recycled(before: seq<seq<Card>>, up: set<Card>, after: seq<seq<Card>>, up': set<Card>)
    requires |before| == PILE_COUNT
  {
    |after| == PILE_COUNT
    && after[BOTTOM_FACE_DOWN_PILE] == before[BOTTOM_FACE_DOWN_PILE] + Reverse(before[BOTTOM_FACE_UP_PILE])
    && after[BOTTOM_FACE_UP_PILE] == []
    && (forall q :: PLAY_PILE_1 <= q < PILE_COUNT ==> after[q] == before[q])
    && up' == up - Elems(before[BOTTOM_FACE_UP_PILE])
  }

  class Game {
    /** The thirteen piles, each bottom card first. */
    var piles: seq<seq<Card>>
    /** The cards being dragged with the mouse. */
    var held: seq<Card>
    /** The cards whose is_face_up flag is set. */
    var faceUp: set<Card>

    ghost predicate Valid()
      reads this
    {
      ValidPiles(piles)
    }

    /** Creating the window and calling setup, with the random swap positions given. */
    constructor (swaps: seq<nat>)
      requires |swaps| == DECK_SIZE && SwapIndices(swaps, DECK_SIZE)
      ensures Valid() && held == []
      ensures piles == Deal(Shuffled(NewDeck(), swaps)) && faceUp == TableauTops(piles)
    {
      piles, held, faceUp := [], [], {};
      new;
      Setup(swaps);
    }

    /** The card list of setup: every card created, then shuffled in place. */
    static method ShuffledCards(swaps: seq<nat>) returns (deck: seq<Card>)
      requires |swaps| == DECK_SIZE && SwapIndices(swaps, DECK_SIZE)
      ensures deck == Shuffled(NewDeck(), swaps)
    {
      var created := CreateCards();
      var cardList := new Card[DECK_SIZE](i requires 0 <= i < DECK_SIZE => created[i]);
      assert cardList[..] == NewDeck();
      Shuffle(cardList, swaps);
      deck := cardList[..];
    }

    /** setup: create the 52 cards face down, shuffle them, put them all on the stock,
        deal 1, 2, ..., 7 cards off its end onto the tableau piles and turn up each
        tableau pile's top card. */
    method Setup(swaps: seq<nat>)
      requires |swaps| == DECK_SIZE && SwapIndices(swaps, DECK_SIZE)
      modifies this
      ensures Valid()
      ensures held == []
      ensures piles == Deal(Shuffled(NewDeck(), swaps))
      ensures faceUp == TableauTops(piles)
      ensures forall q, j :: IsPlayPile(q) && 0 <= j < |piles[q]| ==>
                (piles[q][j] in faceUp <==> j == |piles[q]| - 1)
      ensures forall c :: c in piles[BOTTOM_FACE_DOWN_PILE] ==> c !in faceUp
    {
      held := [];
      var deck := ShuffledCards(swaps);
      ShuffledPermutes(NewDeck(), swaps);
      NewDeckIsFull();
      assert IsFullDeck(multiset(deck));
      faceUp := {};

      StockAll(deck);
      DealTableau(deck);
      TurnUpTops();
    }

    /** The thirteen empty piles of setup, then every card appended to the stock in order. */
    method StockAll(deck: seq<Card>)
      requires IsFullDeck(multiset(deck))
      modifies this`piles
      ensures ValidPiles(piles)
      ensures piles[BOTTOM_FACE_DOWN_PILE] == deck
      ensures forall q :: 1 <= q < PILE_COUNT ==> piles[q] == []
    {
      piles := seq(PILE_COUNT, _ => []);
      for k := 0 to |deck|
        invariant |piles| == PILE_COUNT
        invariant piles[BOTTOM_FACE_DOWN_PILE] == deck[..k]
        invariant forall q :: 1 <= q < PILE_COUNT ==> piles[q] == []
      {
        piles := piles[BOTTOM_FACE_DOWN_PILE := piles[BOTTOM_FACE_DOWN_PILE] + [deck[k]]];
      }
      FlattenOnlyFirst(piles);
      assert deck[..|deck|] == deck;
    }

    /** The deal loop of setup: pile PLAY_PILE_1 + k receives k + 1 cards popped off the
        end of the stock, which holds the shuffled deck. */
    method DealTableau(ghost deck: seq<Card>)
      requires |deck| == DECK_SIZE && IsFullDeck(multiset(deck)) && |piles| == PILE_COUNT
      requires piles[BOTTOM_FACE_DOWN_PILE] == deck
      requires forall q :: 1 <= q < PILE_COUNT ==> piles[q] == []
      modifies this`piles
      ensures ValidPiles(piles) && piles == Deal(deck)
    {
      for pileNo := PLAY_PILE_1 to PLAY_PILE_7 + 1
        invariant |piles| == PILE_COUNT
        invariant Dealt(pileNo - PLAY_PILE_1) <= TABLEAU_CARDS
        invariant piles[BOTTOM_FACE_DOWN_PILE] == deck[..DECK_SIZE - Dealt(pileNo - PLAY_PILE_1)]
        invariant piles[BOTTOM_FACE_UP_PILE] == []
        invariant forall q :: PLAY_PILE_1 <= q < pileNo ==> piles[q] == TableauDeal(deck, q - PLAY_PILE_1)
        invariant forall q :: pileNo <= q < PILE_COUNT ==> piles[q] == []
      {
        var k := pileNo - PLAY_PILE_1;
        DealtBound(k);
        ghost var start := piles;
        for j := 0 to k + 1
          invariant |piles| == PILE_COUNT
          invariant piles[BOTTOM_FACE_DOWN_PILE] == deck[..DECK_SIZE - Dealt(k) - j]
          invariant piles[pileNo] == TableauDeal(deck, k)[..j]
          invariant forall q :: 0 < q < PILE_COUNT && q != pileNo ==> piles[q] == start[q]
        {
          var n := |piles[BOTTOM_FACE_DOWN_PILE]|;
          var card := piles[BOTTOM_FACE_DOWN_PILE][n - 1];
          assert card == TableauDeal(deck, k)[j];
          piles := piles[BOTTOM_FACE_DOWN_PILE := piles[BOTTOM_FACE_DOWN_PILE][..n - 1]];
          piles := piles[pileNo := piles[pileNo] + [card]];
          assert TableauDeal(deck, k)[..j + 1] == TableauDeal(deck, k)[..j] + [card];
        }
        assert TableauDeal(deck, k)[..k + 1] == TableauDeal(deck, k);
      }
      assert Dealt(7) == TABLEAU_CARDS;
      DealLaidOut(deck, piles);
    }

    /** The last loop of setup: turn up the top card of every tableau pile. */
    method TurnUpTops()
      requires ValidPiles(piles) && faceUp == {}
      requires forall q :: IsPlayPile(q) ==> piles[q] != []
      modifies this`faceUp
      ensures faceUp == TableauTops(piles)
      ensures forall q, j :: IsPlayPile(q) && 0 <= j < |piles[q]| ==>
                (piles[q][j] in faceUp <==> j == |piles[q]| - 1)
      ensures forall c :: c in piles[BOTTOM_FACE_DOWN_PILE] ==> c !in faceUp
    {
      for i := PLAY_PILE_1 to PLAY_PILE_7 + 1
        invariant faceUp == TopsBelow(piles, i)
      {
        var top := piles[i][|piles[i]| - 1];
        faceUp := faceUp + {top};
        assert TopsBelow(piles, i + 1) == TopsBelow(piles, i) + {top};
      }
      OnlyTopsFaceUp(piles);
    }

    /** Clicking the stock: up to three times, unless the stock has run out, turn its top
        card face up and move it to the waste. */
    method FlipThree()
      requires Valid()
      modifies this`piles, this`faceUp
      ensures Valid()
      ensures FlippedThree(old(piles), old(faceUp), piles, faceUp)
    {
      ghost var start := piles;
      ghost var stock, waste := piles[BOTTOM_FACE_DOWN_PILE], piles[BOTTOM_FACE_UP_PILE];
      PileDistinct(piles, BOTTOM_FACE_DOWN_PILE);
      assert stock[|stock|..] == [];
      for i := 0 to 3
        invariant |piles| == PILE_COUNT
        invariant |piles[BOTTOM_FACE_DOWN_PILE]| <= |stock|
        invariant |stock| - |piles[BOTTOM_FACE_DOWN_PILE]| == Min(i, |stock|)
        invariant piles[BOTTOM_FACE_DOWN_PILE] == stock[..|piles[BOTTOM_FACE_DOWN_PILE]|]
        invariant piles[BOTTOM_FACE_UP_PILE] == waste + Reverse(stock[|piles[BOTTOM_FACE_DOWN_PILE]|..])
        invariant forall q :: PLAY_PILE_1 <= q < PILE_COUNT ==> piles[q] == start[q]
        invariant faceUp == old(faceUp) + Elems(stock[|piles[BOTTOM_FACE_DOWN_PILE]|..])
      {
        if |piles[BOTTOM_FACE_DOWN_PILE]| == 0 {
          break;
        }
        var card := piles[BOTTOM_FACE_DOWN_PILE][|piles[BOTTOM_FACE_DOWN_PILE]| - 1];
        TopRound(piles, BOTTOM_FACE_DOWN_PILE, BOTTOM_FACE_UP_PILE, stock, waste);
        faceUp := faceUp + {card};
        piles := piles[BOTTOM_FACE_DOWN_PILE := RemoveFirst(piles[BOTTOM_FACE_DOWN_PILE], card)]
                      [BOTTOM_FACE_UP_PILE := piles[BOTTOM_FACE_UP_PILE] + [card]];
      }
      ghost var m := Min(3, |stock|);
      FlipMoves(stock, waste, 3);
      MoveReversedConserves(start, BOTTOM_FACE_DOWN_PILE, BOTTOM_FACE_UP_PILE, m);
      assert piles == start[BOTTOM_FACE_DOWN_PILE := stock[..|stock| - m]]
                           [BOTTOM_FACE_UP_PILE := waste + Reverse(stock[|stock| - m..])];
    }

    /** Clicking the empty stock mat: take the waste's cards from the top down, turn each
        face down and put it on the stock. */
    method Recycle()
      requires Valid()
      modifies this`piles, this`faceUp
      ensures Valid()
      ensures Recycled(old(piles), old(faceUp), piles, faceUp)
    {
      var tempList := piles[BOTTOM_FACE_UP_PILE];
      ghost var start := piles;
      PileDistinct(piles, BOTTOM_FACE_UP_PILE);
      for k := |tempList| downto 0
        invariant |piles| == PILE_COUNT
        invariant piles[BOTTOM_FACE_UP_PILE] == tempList[..k]
        invariant piles[BOTTOM_FACE_DOWN_PILE] == start[BOTTOM_FACE_DOWN_PILE] + Reverse(tempList[k..])
        invariant forall q :: PLAY_PILE_1 <= q < PILE_COUNT ==> piles[q] == start[q]
        invariant faceUp == old(faceUp) - Elems(tempList[k..])
      {
        var card := tempList[k];
        faceUp := faceUp - {card};
        TopRound(piles, BOTTOM_FACE_UP_PILE, BOTTOM_FACE_DOWN_PILE, tempList, start[BOTTOM_FACE_DOWN_PILE]);
        piles := piles[BOTTOM_FACE_UP_PILE := RemoveFirst(piles[BOTTOM_FACE_UP_PILE], card)]
                      [BOTTOM_FACE_DOWN_PILE := piles[BOTTOM_FACE_DOWN_PILE] + [card]];
      }
      MoveReversedConserves(start, BOTTOM_FACE_UP_PILE, BOTTOM_FACE_DOWN_PILE, |tempList|);
      assert tempList[..0] == [];
      assert tempList[0..] == tempList;
      assert piles == start[BOTTOM_FACE_UP_PILE := tempList[..0]]
                           [BOTTOM_FACE_DOWN_PILE := start[BOTTOM_FACE_DOWN_PILE] + Reverse(tempList[0..])];
    }

    /** Grabbing a face-up card: the card and every card above it in its pile. */
    method PickUp(card: Card, pileIndex: nat)
      requires pileIndex < |piles| && card in piles[pileIndex]
      modifies this`held
      ensures held == piles[pileIndex][IndexOf(piles[pileIndex], card)..]
    {
      held := [card];
      var cardIndex := IndexOf(piles[pileIndex], card);
      for i := cardIndex + 1 to |piles[pileIndex]|
        invariant held == piles[pileIndex][cardIndex..i]
      {
        held := held + [piles[pileIndex][i]];
      }
    }

    /** on_mouse_press */
    method OnMousePress(press: Press)
      requires Valid()
      modifies this
      ensures Valid()
      ensures press.OnCard? ==>
        var c := press.card;
        var p := PileOf(old(piles), c);
        p.Some? &&
        if p.value == BOTTOM_FACE_DOWN_PILE then
          FlippedThree(old(piles), old(faceUp), piles, faceUp) && held == old(held)
        else if c !in old(faceUp) then
          piles == old(piles) && held == old(held) && faceUp == old(faceUp) + {c}
        else
          piles == old(piles) && faceUp == old(faceUp)
          && held == old(piles)[p.value][IndexOf(old(piles)[p.value], c)..]
      ensures press.OnMat? && press.mat == BOTTOM_FACE_DOWN_PILE && old(piles)[BOTTOM_FACE_DOWN_PILE] == [] ==>
        Recycled(old(piles), old(faceUp), piles, faceUp) && held == old(held)
      ensures press.OnNothing?
              || (press.OnMat? && (press.mat != BOTTOM_FACE_DOWN_PILE || old(piles)[BOTTOM_FACE_DOWN_PILE] != [])) ==>
        piles == old(piles) && faceUp == old(faceUp) && held == old(held)
    {
      match press
      case OnCard(primaryCard) =>
        OnTable(piles, primaryCard);
        var pileIndex := GetPileForCard(primaryCard);
        if pileIndex.value == BOTTOM_FACE_DOWN_PILE {
          FlipThree();
        } else if primaryCard !in faceUp {
          faceUp := faceUp + {primaryCard};
        } else {
          PickUp(primaryCard, pileIndex.value);
        }
      case OnMat(matIndex) =>
        if matIndex == BOTTOM_FACE_DOWN_PILE && |piles[BOTTOM_FACE_DOWN_PILE]| == 0 {
          Recycle();
        }
      case OnNothing =>
    }

    /** get_pile_for_card */
    method GetPileForCard(card: Card) returns (index: Option<nat>)
      ensures index == PileOf(piles, card)
    {
      for i := 0 to |piles|
        invariant forall j :: 0 <= j < i ==> card !in piles[j]
      {
        if card in piles[i] {
          return Some(i);
        }
      }
      return None;
    }

    /** remove_card_from_pile */
    method RemoveCardFromPile(card: Card)
      modifies this`piles
      ensures piles == RemoveFromPiles(old(piles), card)
    {
      for i := 0 to |piles|
        invariant piles == old(piles)
        invariant forall j :: 0 <= j < i ==> card !in piles[j]
      {
        if card in piles[i] {
          piles := piles[i := RemoveFirst(piles[i], card)];
          break;
        }
      }
    }

    /** move_card_to_new_pile */
    method MoveCardToNewPile(card: Card, pileIndex: nat)
      requires pileIndex < |piles|
      modifies this`piles
      ensures piles == MoveCard(old(piles), card, pileIndex)
    {
      RemoveCardFromPile(card);
      piles := piles[pileIndex := piles[pileIndex] + [card]];
    }

    /** The loop of on_mouse_release that moves every held card onto the target pile. */
    method MoveHeldCards(pileIndex: nat)
      requires pileIndex < |piles|
      modifies this`piles
      ensures piles == MoveAll(old(piles), held, pileIndex)
    {
      for k := 0 to |held|
        invariant |piles| == |old(piles)|
        invariant piles == MoveAll(old(piles), held[..k], pileIndex)
      {
        MoveCardToNewPile(held[k], pileIndex);
        assert held[..k + 1][..k] == held[..k];
      }
      assert held[..|held|] == held;
    }

    /** on_mouse_release: drop the held cards on mat `target`, the mat nearest the first
        held card when the card overlaps it (None when it does not), then hold nothing. */
    method OnMouseRelease(target: Option<nat>)
      requires Valid()
      modifies this`piles, this`held
      ensures Valid()
      ensures piles == Release(old(piles), old(held), target)
      ensures held == []
    {
      ReleaseConserves(piles, held, target);
      if |held| == 0 {
        return;
      }
      if target.Some? {
        var pileIndex := target.value;
        var source := GetPileForCard(held[0]);
        if Some(pileIndex) == source {
        } else if PLAY_PILE_1 <= pileIndex <= PLAY_PILE_7 {
          MoveHeldCards(pileIndex);
        } else if TOP_PILE_1 <= pileIndex <= TOP_PILE_4 && |held| == 1 {
          MoveHeldCards(pileIndex);
        }
      }
      held := [];
    }

    /** check_win_condition */
    method CheckWinCondition() returns (won: bool)
      requires |piles| == PILE_COUNT
      ensures won <==> WinCondition(piles)
    {
      var suits := set c | c in piles[TOP_PILE_1] :: c.suit;
      if |suits| == 1 {
        for pile := TOP_PILE_1 to TOP_PILE_4 + 1
          invariant forall f :: TOP_PILE_1 <= f < pile ==> ValidFoundationSequence(piles[f])
        {
          var valid := CheckValidFoundationSequence(piles[pile]);
          if !valid {
            return false;
          }
        }
        return true;
      }
      return false;
    }
  }
}
