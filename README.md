# Solitaire pile bookkeeping, in Dafny

This project models the card logic of a Klondike-style Solitaire clone built on the
Python `arcade` library (`solitaire.py`).

The game keeps 52 cards in thirteen piles:

- pile 0 is the face-down stock;
- pile 1 is the face-up waste;
- piles 2 to 8 are the seven tableau piles;
- piles 9 to 12 are the four foundations.

It also keeps the list of cards held by the mouse and a face-up flag on every card.

The model covers these operations:

- `setup`: create the deck, shuffle it, deal it;
- the four branches of `on_mouse_press`: flip three from the stock, turn up a face-down
  card, pick up a stack, recycle the waste;
- the drop logic of `on_mouse_release`;
- the pile helpers `remove_card_from_pile`, `get_pile_for_card` and `move_card_to_new_pile`;
- the checks `check_valid_tableau_sequence`, `check_valid_foundation_sequence` and
  `check_win_condition`;
- `Card.is_black`, `is_red` and `is_face_down`.

Files:

- `cards.dfy` (module `Cards`): suits, ranks and colours, the deck as it is created, and the
  swap shuffle.
- `piles.dfy` (module `Piles`): the pile constants and the game invariant, with the list
  operations on values.
  - The list operations are `list.remove`, `list.index`, finding, moving, flipping,
    dealing and releasing.
  - The invariant `ValidPiles` says there are thirteen piles and every one of the 52 cards
    lies on them exactly once.
- `rules.dfy` (module `Rules`): the tableau and foundation checks and the win predicate.
  - The two sequence checks are methods with the source's flag-and-break loop, each proved
    equal to a predicate.
  - `WinCondition` is the predicate behind `check_win_condition`. The method itself,
    with its early-return loop, is `Game.CheckWinCondition` in `game.dfy`.
  - Lemmas about the predicates sit beside them.
- `game.dfy` (module `Solitaire`): class `Game`.
  - Its fields are `piles: seq<seq<Card>>`, `held: seq<Card>` and `faceUp: set<Card>`.
  - Its methods update those fields in place with the source's loops.

Modelling choices:

- **Cards.** A card is the pair (suit, rank). The rank is the card's position in
  `CARD_VALUES`: "A" is 0 and "K" is 12. A deck holds each pair once, so the pair identifies
  the card object.
- **Face-up flags.** Each card's `is_face_up` attribute is the membership of that card in
  `faceUp`. The piles and the held list refer to the same card objects, so they share the
  flag, as in the source.
  `Card.is_face_down` (solitaire.py:106-109) is `c !in faceUp`. Its one use is the
  face-down case of `Game.OnMousePress`, whose ensures states what a press on a face-down
  card does.
- **Hit-testing is an input.** The arcade calls `get_sprites_at_point`,
  `get_closest_sprite` and `check_for_collision` are replaced by their outcomes.
  - A press is `OnCard(card)`, `OnMat(index)` or `OnNothing`.
  - A release is given the index of the mat nearest the first held card when the card
    overlaps that mat, and `None` otherwise (solitaire.py:474-478). A card that touches some
    other mat but not the nearest one gives `None`.
- **Randomness is an input.** The shuffle is given the 52 positions `random.randrange`
  would draw, each below 52.

## Model

| member | source | states |
|---|---|---|
| Cards.IsBlack | solitaire.py:90-91 | Spades and Clubs are black; in the suit order Clubs, Hearts, Spades, Diamonds the black suits are those at even positions |
| Cards.IsRed | solitaire.py:90-94 | a card is red exactly when it is not black |
| Cards.NewDeckIsFull | solitaire.py:199-204 | the created list has 52 cards and holds every (suit, value) pair exactly once |
| Cards.CreateCards | solitaire.py:199-204 | the nested suit/value loop builds the deck suit by suit, each suit from "A" to "K" |
| Cards.ShuffledPermutes | solitaire.py:206-209 | whatever positions are drawn, the swap shuffle only reorders the cards |
| Cards.Shuffle | solitaire.py:206-209 | the in-place loop swaps position pos1 with the drawn pos2 for every pos1 in turn |
| Piles.PileOf | solitaire.py:392-396 | the result is the first pile holding the card, or none when no pile holds it |
| Piles.OnTable | solitaire.py:325-326 | under the invariant every card lies on some pile, so `get_pile_for_card` never returns None |
| Piles.PileUnique | solitaire.py:385-396 | under the invariant a card lies in one pile only, and once there |
| Piles.RemoveFirstAt | solitaire.py:342 | `list.remove` cuts the card out at the position where it occurs first |
| Piles.RemoveFirstMultiset | solitaire.py:342 | `list.remove` takes exactly one copy of a card the list holds out of it, and leaves a list without the card as it was |
| Piles.IndexOf | solitaire.py:360 | `list.index` gives the first position of the card |
| Piles.PickUpAt | solitaire.py:351-365 | clicking card i of pile p finds pile p and index i, so the held stack is `piles[p][i..]` and starts with the clicked card |
| Piles.RemoveFromPiles | solitaire.py:385-390 | only the first pile holding the card changes |
| Piles.MoveAllConserves | solitaire.py:398-401 | moving cards that are on the table one by one to a pile keeps every card on the table exactly once |
| Piles.MoveRun | solitaire.py:505-507 | moving a run `piles[s][i..]` card by card to another pile t cuts it off s and appends it to t in held order; no other pile changes |
| Piles.FlipMoves | solitaire.py:331-346 | flipping moves exactly min(3, stock size) cards off the stock's top onto the waste, in reverse of their stock order |
| Piles.TopRound | solitaire.py:331-344 | one round of the flip or recycle loop: `remove` of the source pile's top card, which occurs there once, cuts just that card off, and appending it grows the other pile's reversed run by one; no third pile changes |
| Piles.MoveReversedConserves | solitaire.py:329-346 | cutting the top m cards off one pile and putting them reversed on another keeps every card on the table exactly once |
| Piles.MultisetReverse | solitaire.py:377-379 | reversing a list keeps its cards |
| Piles.DrainReverses | solitaire.py:329-346 | flipping until the stock is empty leaves the waste as the old waste followed by the reversed stock |
| Piles.DrainThenRecycle | solitaire.py:376-383 | draining a stock into an empty waste and then recycling restores the original stock order |
| Piles.Deal | solitaire.py:218-230 | tableau pile 2+k holds k+1 cards; the stock keeps all but the 28 dealt cards from its bottom; waste and foundations are empty |
| Piles.TableauDealCards | solitaire.py:218-225 | pile PLAY_PILE_1 + k receives exactly the k + 1 cards just below those already dealt from the end of the stock |
| Piles.TableauCards | solitaire.py:218-225 | the first n tableau piles together hold exactly the deck's last 1 + 2 + ... + n cards |
| Piles.DealConserves | solitaire.py:212-225 | the deal neither loses nor duplicates a card of the deck |
| Piles.DealLaidOut | solitaire.py:211-225 | piles laid out as the deal prescribes are the deal, and a deal of a whole deck keeps every card on the table exactly once |
| Piles.ReleaseConserves | solitaire.py:466-528 | no release loses or duplicates a card |
| Piles.ReleaseRun | solitaire.py:484-519 | a run from pile s released over mat t is accepted exactly when t is not s and t is a tableau pile, or a foundation with one card held; an accepted drop cuts the run off s and appends it to t, a rejected one changes nothing |
| Rules.CheckValidTableauSequence | solitaire.py:403-421 | true exactly when the pile has at least 2 cards and each card has the suit of the one before and a strictly lower value |
| Rules.TableauRun | solitaire.py:403-421 | a valid tableau run is one suit in strictly falling value throughout, and so at most 13 cards |
| Rules.CheckValidFoundationSequence | solitaire.py:423-440 | true exactly when the pile has 13 cards, all of pile[0]'s suit, card i having value `CARD_VALUES[i]` |
| Rules.WinIff | solitaire.py:442-451 | the win test holds exactly when all four foundations are complete; it fails when the first foundation is empty or mixes suits |
| Rules.TableHolds52 | solitaire.py:199-216 | under the invariant the piles hold 52 cards in all |
| Rules.WonTableIsCleared | solitaire.py:442-451 | under the invariant a won game has stock, waste and tableau empty |
| Solitaire.OnlyTopsFaceUp | solitaire.py:232-234 | after the tops are turned up, a tableau card is face up exactly when it is its pile's last card, and no stock card is face up |
| Solitaire.Game.constructor | solitaire.py:158-234 | a new game is dealt from the shuffled deck with only the tableau tops face up |
| Solitaire.Game.ShuffledCards | solitaire.py:199-209 | the card list is the created deck after the given swaps |
| Solitaire.Game.Setup | solitaire.py:158-234 | nothing is held; the piles are the deal of the shuffled deck; every card is on the table once; in each tableau pile only the last card is face up; the stock is face down |
| Solitaire.Game.StockAll | solitaire.py:212-216 | thirteen piles, the stock holding the whole card list in order, the rest empty |
| Solitaire.Game.DealTableau | solitaire.py:218-230 | popping k+1 cards off the stock's end onto tableau pile 2+k gives the deal |
| Solitaire.Game.TurnUpTops | solitaire.py:232-234 | the face-up cards are exactly the tableau tops |
| Solitaire.Game.FlipThree | solitaire.py:329-346 | the stock and waste are as after three flip rounds; each moved card is face up; the other eleven piles are unchanged |
| Solitaire.Game.Recycle | solitaire.py:376-383 | the stock becomes the old stock followed by the reversed waste; the waste is empty; every waste card is face down; the other piles are unchanged |
| Solitaire.Game.PickUp | solitaire.py:351-365 | the held list is the pile from the clicked card's index on |
| Solitaire.Game.OnMousePress | solitaire.py:312-383 | a card on the stock flips three; a face-down card is turned up; any other card is picked up with the stack above it; a press on the empty stock mat recycles; every other press changes nothing |
| Solitaire.Game.GetPileForCard | solitaire.py:392-396 | the loop returns the first pile holding the card, or none |
| Solitaire.Game.RemoveCardFromPile | solitaire.py:385-390 | the piles become `RemoveFromPiles` of the old piles |
| Solitaire.Game.MoveCardToNewPile | solitaire.py:398-401 | the card leaves the first pile holding it and is appended to the target |
| Solitaire.Game.MoveHeldCards | solitaire.py:505-507 | each held card in turn is moved to the target pile |
| Solitaire.Game.OnMouseRelease | solitaire.py:466-528 | the piles become the release of the held cards over the target; nothing is held afterwards; the invariant is kept |
| Solitaire.Game.CheckWinCondition | solitaire.py:442-451 | the result is true exactly when the first foundation is of one suit and all four foundations are complete |

## Left out

- Pixel layout, card positions and `held_cards_original_position`: these are float
  geometry and do not change which pile holds which card.
- Arcade hit-testing: the outcome of a press or release is an input instead (see above).
- `pull_to_top`, the sprite list and all drawing: these fix only the draw order.
- Textures and the music player: `face_up` and `face_down` are modelled only by their flag.
- The wall-clock timer and `on_update`'s `has_lost` flag: they depend on `time.time()`.
  `on_update` sets `has_won` from `check_win_condition`; that check is modelled as
  `Game.CheckWinCondition`, and only the flag it sets is left out.
- `on_mouse_motion`: it only moves the held sprites.
- `on_key_press`:
  - "R" restarts the game by calling `setup`. That is `Game.Setup`, which demands nothing
    of the current state and so may be called at any time; resetting the timer is left out
    with the timer.
  - "C" picks a random background colour, using `random.randint`. It is purely cosmetic.
  - The other keys only change or toggle the music.
- `random.randrange`: the drawn positions are a parameter of `Setup`.
- The Ruby files under `swin/` are not part of this model. They are a Gosu drag-and-drop
  skeleton and console exercises with no pile logic.
- The other Ruby programs are not part of this model either: `music player/gui_music_player.rb`,
  and the CaptainRuby and FoodHunter programs under `OOP versus Structured-1/`. They are
  separate Gosu programs with no card logic.
- `list.index` is the function `Piles.IndexOf`, defined by recursion rather than by a loop.
- `list.remove` raising ValueError: every removal in the source removes a card from a pile
  that holds it, so the error cannot occur under the invariant.
