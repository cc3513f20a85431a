/** The thirteen piles of the game as a sequence of card sequences, the list
    operations the game performs on them, and what those operations keep. */
module Piles {
  import opened Cards

  datatype Option<T> = None | Some(value: T)

  const PILE_COUNT: nat := 13
  /** The stock. */
  const BOTTOM_FACE_DOWN_PILE: nat := 0
  /** The waste. */
  const BOTTOM_FACE_UP_PILE: nat := 1
  /** The seven tableau piles are PLAY_PILE_1 .. PLAY_PILE_7. */
  const PLAY_PILE_1: nat := 2
  const PLAY_PILE_7: nat := 8
  /** The four foundations are TOP_PILE_1 .. TOP_PILE_4. */
  const TOP_PILE_1: nat := 9
  const TOP_PILE_4: nat := 12

  predicate IsPlayPile(i: int) {
    PLAY_PILE_1 <= i <= PLAY_PILE_7
  }

  predicate IsTopPile(i: int) {
    TOP_PILE_1 <= i <= TOP_PILE_4
  }

  function Min(a: nat, b: nat): nat {
    if a <= b then a else b
  }

  function Reverse<T>(s: seq<T>): (r: seq<T>) {
    seq(|s|, i requires 0 <= i < |s| => s[|s| - 1 - i])
  }

  function Elems<T>(s: seq<T>): set<T> {
    set x | x in s
  }

  predicate Distinct<T(==)>(s: seq<T>) {
    forall a, b :: 0 <= a < b < |s| ==> s[a] != s[b]
  }

  /** All cards on the table, pile after pile. */
  function Flatten(piles: seq<seq<Card>>): seq<Card> {
    if piles == [] then [] else piles[0] + Flatten(piles[1..])
  }

  /** The game's invariant: thirteen piles that together hold every card exactly once. */
  ghost predicate ValidPiles(piles: seq<seq<Card>>) {
    |piles| == PILE_COUNT && IsFullDeck(multiset(Flatten(piles)))
  }

  // ----- Flattening -------------------------------------------------------

  lemma {:induction false} FlattenMember(piles: seq<seq<Card>>, c: Card)
    ensures c in Flatten(piles) <==> exists j :: 0 <= j < |piles| && c in piles[j]
  {
    if piles != [] {
      FlattenMember(piles[1..], c);
      assert forall j :: 1 <= j < |piles| ==> piles[1..][j - 1] == piles[j];
    }
  }

  /** Replacing one pile by x changes how often card c is on the table by exactly
      the difference between x and the old pile. */
  lemma {:induction false} FlattenUpdate(piles: seq<seq<Card>>, i: nat, x: seq<Card>, c: Card)
    requires i < |piles|
    ensures multiset(Flatten(piles[i := x]))[c] + multiset(piles[i])[c]
            == multiset(Flatten(piles))[c] + multiset(x)[c]
  {
    var p := piles[i := x];
    if i == 0 {
      assert p[1..] == piles[1..];
    } else {
      FlattenUpdate(piles[1..], i - 1, x, c);
      assert p[1..] == piles[1..][i - 1 := x];
      assert piles[1..][i - 1] == piles[i];
    }
  }

  /** Replacing one pile by x changes the number of cards on the table by the difference
      between the lengths of x and the old pile. */
  lemma {:induction false} FlattenLength(piles: seq<seq<Card>>, i: nat, x: seq<Card>)
    requires i < |piles|
    ensures |Flatten(piles[i := x])| + |piles[i]| == |Flatten(piles)| + |x|
  {
    var p := piles[i := x];
    if i == 0 {
      assert p[1..] == piles[1..];
    } else {
      FlattenLength(piles[1..], i - 1, x);
      assert p[1..] == piles[1..][i - 1 := x];
      assert piles[1..][i - 1] == piles[i];
    }
  }

  lemma {:induction false} FlattenOnlyFirst(piles: seq<seq<Card>>)
    requires piles != [] && forall j :: 1 <= j < |piles| ==> piles[j] == []
    ensures Flatten(piles) == piles[0]
  {
    if |piles| > 1 {
      FlattenOnlyFirst(piles[1..]);
    }
  }

  /** Replacing pile j by x, which lacks just the card c, and then appending c to pile t
      keeps every card on the table. */
  lemma ReplaceAppendConserves(piles: seq<seq<Card>>, j: nat, x: seq<Card>, t: nat, c: Card)
    requires j < |piles| && t < |piles| && multiset(x) + multiset{c} == multiset(piles[j])
    ensures var p := piles[j := x];
      multiset(Flatten(p[t := p[t] + [c]])) == multiset(Flatten(piles))
  {
    var p := piles[j := x];
    var p' := p[t := p[t] + [c]];
    forall e
      ensures multiset(Flatten(p'))[e] == multiset(Flatten(piles))[e]
    {
      FlattenUpdate(piles, j, x, e);
      FlattenUpdate(p, t, p[t] + [c], e);
      assert multiset(x)[e] + multiset{c}[e] == multiset(piles[j])[e];
      assert multiset(p[t] + [c])[e] == multiset(p[t])[e] + multiset{c}[e];
    }
    assert multiset(Flatten(p')) == multiset(Flatten(piles));
  }

  // ----- Consequences of the invariant ------------------------------------

  lemma CountSplit<T>(s: seq<T>, a: nat, b: nat)
    requires a < b < |s|
    ensures s[a] == s[b] ==> multiset(s)[s[a]] >= 2
  {
    assert s == s[..b] + s[b..];
    assert s[a] in s[..b];
    assert s[b] in s[b..];
    assert multiset(s)[s[a]] == multiset(s[..b])[s[a]] + multiset(s[b..])[s[a]];
  }

  /** A card lies in one pile only, and there only once. */
  lemma PileUnique(piles: seq<seq<Card>>, c: Card, j: nat)
    requires ValidPiles(piles) && j < |piles| && c in piles[j]
    ensures forall k :: 0 <= k < |piles| && k != j ==> c !in piles[k]
    ensures multiset(piles[j])[c] == 1
  {
    var rest := piles[j := []];
    FullDeckOnce(multiset(Flatten(piles)), c);
    FlattenUpdate(piles, j, [], c);
    assert multiset(Flatten(rest))[c] == 0;
    FlattenMember(rest, c);
    assert forall k :: 0 <= k < |piles| && k != j ==> rest[k] == piles[k];
  }

  /** No pile holds a card twice. */
  lemma PileDistinct(piles: seq<seq<Card>>, j: nat)
    requires ValidPiles(piles) && j < |piles|
    ensures Distinct(piles[j])
  {
    var s := piles[j];
    var rest := piles[j := []];
    forall a, b | 0 <= a < b < |s|
      ensures s[a] != s[b]
    {
      CountSplit(s, a, b);
      FullDeckOnce(multiset(Flatten(piles)), s[a]);
      FlattenUpdate(piles, j, [], s[a]);
    }
  }

  /** Every card is on the table, so get_pile_for_card always finds it. */
  lemma OnTable(piles: seq<seq<Card>>, c: Card)
    requires ValidPiles(piles)
    ensures c in Flatten(piles)
    ensures PileOf(piles, c).Some?
  {
    FullDeckOnce(multiset(Flatten(piles)), c);
    FlattenMember(piles, c);
  }

  lemma PileOfIn(piles: seq<seq<Card>>, c: Card, j: nat)
    requires ValidPiles(piles) && j < |piles| && c in piles[j]
    ensures PileOf(piles, c) == Some(j)
  {
    PileUnique(piles, c, j);
  }

  // ----- List operations ---------------------------------------------------

  /** list.remove: drop the first occurrence of c; a list without c is left as it is. */
  function RemoveFirst(s: seq<Card>, c: Card): seq<Card> {
    if s == [] then []
    else if s[0] == c then s[1..]
    else [s[0]] + RemoveFirst(s[1..], c)
  }

  /** list.remove cuts the card out where it occurs first. */
  lemma {:induction false} RemoveFirstAt(s: seq<Card>, i: nat)
    requires i < |s| && s[i] !in s[..i]
    ensures RemoveFirst(s, s[i]) == s[..i] + s[i + 1..]
  {
    if i > 0 {
      assert s[0] in s[..i];
      assert s[1..][i - 1] == s[i];
      assert s[1..][..i - 1] == s[1..i];
      RemoveFirstAt(s[1..], i - 1);
    }
  }

  /** list.remove takes exactly one copy of a card the list holds out of it, and leaves a
      list without the card as it was. */
  lemma {:induction false} RemoveFirstMultiset(s: seq<Card>, c: Card)
    ensures c in s ==> multiset(RemoveFirst(s, c)) + multiset{c} == multiset(s)
    ensures c !in s ==> RemoveFirst(s, c) == s
  {
    if s != [] {
      RemoveFirstMultiset(s[1..], c);
      assert s == [s[0]] + s[1..];
    }
  }

  /** One round of a loop that takes the top card of pile s, whose cards are a prefix of
      the run `from`, and appends it to pile t, which holds `base` followed by the cards
      already taken, last taken on top. */
  lemma TopRound(p: seq<seq<Card>>, s: nat, t: nat, from: seq<Card>, base: seq<Card>)
    requires s < |p| && t < |p| && s != t && Distinct(from) && p[s] != []
    requires |p[s]| <= |from| && p[s] == from[..|p[s]|]
    requires p[t] == base + Reverse(from[|p[s]|..])
    ensures var n := |p[s]|;
      var c := p[s][n - 1];
      var p' := p[s := RemoveFirst(p[s], c)][t := p[t] + [c]];
      |p'| == |p|
      && p'[s] == from[..n - 1]
      && p'[t] == base + Reverse(from[n - 1..])
      && (forall q :: 0 <= q < |p| && q != s && q != t ==> p'[q] == p[q])
      && Elems(from[n - 1..]) == Elems(from[n..]) + {c}
  {
    var n := |p[s]|;
    var c := p[s][n - 1];
    assert c == from[n - 1];
    assert c !in p[s][..n - 1] by {
      assert forall i :: 0 <= i < n - 1 ==> p[s][..n - 1][i] == from[i];
    }
    RemoveFirstAt(p[s], n - 1);
    assert p[s][..n - 1] + p[s][n..] == from[..n - 1];
    assert from[n - 1..] == [c] + from[n..];
    ReverseFirst(from[n - 1..]);
  }


  /** list.index: the position of the first occurrence of c. */
  function IndexOf(s: seq<Card>, c: Card): (i: nat)
    requires c in s
    ensures i < |s| && s[i] == c && c !in s[..i]
  {
    if s[0] == c then 0
    else
      assert c in s[1..];
      1 + IndexOf(s[1..], c)
  }

  /** Clicking card i of pile p: get_pile_for_card finds p, and list.index finds i, so the
      stack from index(card) on is piles[p][i..], starting with the clicked card. */
  lemma PickUpAt(piles: seq<seq<Card>>, p: nat, i: nat)
    requires ValidPiles(piles) && p < |piles| && i < |piles[p]|
    ensures PileOf(piles, piles[p][i]) == Some(p)
    ensures IndexOf(piles[p], piles[p][i]) == i
    ensures var h := piles[p][IndexOf(piles[p], piles[p][i])..];
      h == piles[p][i..] && h[0] == piles[p][i]
  {
    PileOfIn(piles, piles[p][i], p);
    PileDistinct(piles, p);
    var k := IndexOf(piles[p], piles[p][i]);
    assert piles[p][k] == piles[p][i];
  }

  /** get_pile_for_card: the first pile holding c, or None when no pile does. */
  function PileOf(piles: seq<seq<Card>>, c: Card): (r: Option<nat>)
    ensures r.Some? ==> r.value < |piles| && c in piles[r.value]
                        && forall j :: 0 <= j < r.value ==> c !in piles[j]
    ensures r.None? ==> forall j :: 0 <= j < |piles| ==> c !in piles[j]
  {
    if piles == [] then None
    else if c in piles[0] then Some(0)
    else
      match PileOf(piles[1..], c)
      case None =>
        assert forall j :: 1 <= j < |piles| ==> piles[j] == piles[1..][j - 1];
        None
      case Some(j) =>
        assert forall k :: 1 <= k < |piles| ==> piles[k] == piles[1..][k - 1];
        Some(j + 1)
  }

  /** remove_card_from_pile: c leaves the first pile that holds it, and no other pile changes. */
  function RemoveFromPiles(piles: seq<seq<Card>>, c: Card): (r: seq<seq<Card>>)
    ensures |r| == |piles|
    ensures forall k :: 0 <= k < |piles| && PileOf(piles, c) != Some(k) ==> r[k] == piles[k]
  {
    match PileOf(piles, c)
    case None => piles
    case Some(j) => piles[j := RemoveFirst(piles[j], c)]
  }

  /** move_card_to_new_pile. */
  function MoveCard(piles: seq<seq<Card>>, c: Card, t: nat): (r: seq<seq<Card>>)
    requires t < |piles|
    ensures |r| == |piles|
  {
    var p := RemoveFromPiles(piles, c);
    p[t := p[t] + [c]]
  }

  /** Each card of the list moved in turn, as on_mouse_release does with the held cards. */
  function MoveAll(piles: seq<seq<Card>>, cards: seq<Card>, t: nat): (r: seq<seq<Card>>)
    requires t < |piles|
    ensures |r| == |piles|
    decreases |cards|
  {
    if cards == [] then piles
    else
      var k := |cards| - 1;
      MoveCard(MoveAll(piles, cards[..k], t), cards[k], t)
  }

  /** Moving a card that is on the table keeps every card on the table. */
  lemma MoveCardConserves(piles: seq<seq<Card>>, c: Card, t: nat)
    requires t < |piles| && c in Flatten(piles)
    ensures multiset(Flatten(MoveCard(piles, c, t))) == multiset(Flatten(piles))
  {
    FlattenMember(piles, c);
    var j := PileOf(piles, c).value;
    var removed := RemoveFirst(piles[j], c);
    RemoveFirstMultiset(piles[j], c);
    ReplaceAppendConserves(piles, j, removed, t, c);
  }

  /** Whatever cards are moved and wherever to, the table keeps its 52 cards. */
  lemma {:induction false} MoveAllConserves(piles: seq<seq<Card>>, cards: seq<Card>, t: nat)
    requires ValidPiles(piles) && t < |piles|
    ensures multiset(Flatten(MoveAll(piles, cards, t))) == multiset(Flatten(piles))
    ensures ValidPiles(MoveAll(piles, cards, t))
    decreases |cards|
  {
    if cards != [] {
      var k := |cards| - 1;
      var p := MoveAll(piles, cards[..k], t);
      MoveAllConserves(piles, cards[..k], t);
      OnTable(p, cards[k]);
      MoveCardConserves(p, cards[k], t);
    }
  }

  /** Moving a card whose first pile is s, where it sits at position i. */
  lemma MoveCardFrom(q: seq<seq<Card>>, c: Card, s: nat, i: nat, t: nat)
    requires s < |q| && t < |q| && s != t && PileOf(q, c) == Some(s)
    requires i < |q[s]| && q[s][i] == c && c !in q[s][..i]
    ensures MoveCard(q, c, t) == q[s := q[s][..i] + q[s][i + 1..]][t := q[t] + [c]]
  {
    RemoveFirstAt(q[s], i);
  }

  /** Moving the run piles[s][i..] card by card onto another pile t: after k cards,
      the first k of the run sit on t in order and the rest are still on s. */
  lemma {:induction false} MoveRunPrefix(piles: seq<seq<Card>>, s: nat, i: nat, t: nat, k: nat)
    requires ValidPiles(piles) && s < |piles| && t < |piles| && s != t
    requires i <= |piles[s]| && k <= |piles[s]| - i
    ensures var h := piles[s][i..];
      MoveAll(piles, h[..k], t) == piles[s := piles[s][..i] + h[k..]][t := piles[t] + h[..k]]
  {
    var h := piles[s][i..];
    if k == 0 {
      assert piles[s][..i] + h == piles[s];
      assert piles[t] + h[..0] == piles[t];
    } else {
      MoveRunPrefix(piles, s, i, t, k - 1);
      MoveRunStep(piles, s, i, t, k - 1);
    }
  }

  /** One more card of the run moved: from the state after m cards to the state after m + 1. */
  lemma MoveRunStep(piles: seq<seq<Card>>, s: nat, i: nat, t: nat, m: nat)
    requires ValidPiles(piles) && s < |piles| && t < |piles| && s != t
    requires i + m < |piles[s]|
    requires var h := piles[s][i..];
      MoveAll(piles, h[..m], t) == piles[s := piles[s][..i] + h[m..]][t := piles[t] + h[..m]]
    ensures var h := piles[s][i..];
      MoveAll(piles, h[..m + 1], t) == piles[s := piles[s][..i] + h[m + 1..]][t := piles[t] + h[..m + 1]]
  {
    MoveAllPrefix(piles, piles[s][i..], m, t);
    RunCardMove(piles, s, i, t, m);
  }

  lemma MoveAllPrefix(piles: seq<seq<Card>>, cards: seq<Card>, k: nat, t: nat)
    requires t < |piles| && k < |cards|
    ensures MoveAll(piles, cards[..k + 1], t) == MoveCard(MoveAll(piles, cards[..k], t), cards[k], t)
  {
    assert cards[..k + 1][..k] == cards[..k];
  }

  /** Moving the next card of the run, from the state after m cards of it have moved. */
  lemma RunCardMove(piles: seq<seq<Card>>, s: nat, i: nat, t: nat, m: nat)
    requires ValidPiles(piles) && s < |piles| && t < |piles| && s != t
    requires i + m < |piles[s]|
    ensures var h := piles[s][i..];
      MoveCard(piles[s := piles[s][..i] + h[m..]][t := piles[t] + h[..m]], h[m], t)
        == piles[s := piles[s][..i] + h[m + 1..]][t := piles[t] + h[..m + 1]]
  {
    var h := piles[s][i..];
    var a, b := piles[s][..i] + h[m..], piles[t] + h[..m];
    var x, y := piles[s][..i] + h[m + 1..], piles[t] + h[..m + 1];
    var q := piles[s := a][t := b];
    assert MoveCard(q, h[m], t) == q[s := a[..i] + a[i + 1..]][t := b + [h[m]]] by {
      RunCardPlace(piles, s, i, t, m);
      MoveCardFrom(q, h[m], s, i, t);
    }
    RunCutShift(piles[s][..i], h, piles[t], m);
    RunPilesOverwrite(piles, s, t, a, b, x, y);
  }

  /** While a run h above the pile prefix a is being moved, taking away the card just
      above a leaves the prefix with one card less of the run, and appending that card to
      b extends the moved part of the run by one. */
  lemma RunCutShift(a: seq<Card>, h: seq<Card>, b: seq<Card>, m: nat)
    requires m < |h|
    ensures (a + h[m..])[..|a|] + (a + h[m..])[|a| + 1..] == a + h[m + 1..]
    ensures b + h[..m] + [h[m]] == b + h[..m + 1]
  {
    assert (a + h[m..])[..|a|] == a;
    assert (a + h[m..])[|a| + 1..] == h[m + 1..];
    assert h[..m + 1] == h[..m] + [h[m]];
  }

  /** Updating the source and target piles of a run move a second time overwrites the
      first update. */
  lemma RunPilesOverwrite(p: seq<seq<Card>>, s: nat, t: nat, a: seq<Card>, b: seq<Card>, x: seq<Card>, y: seq<Card>)
    requires s < |p| && t < |p| && s != t
    ensures p[s := a][t := b][s := x][t := y] == p[s := x][t := y]
  {
  }

  /** Where the next card of the run is while the run is being moved. */
  lemma RunCardPlace(piles: seq<seq<Card>>, s: nat, i: nat, t: nat, m: nat)
    requires ValidPiles(piles) && s < |piles| && t < |piles| && s != t
    requires i + m < |piles[s]|
    ensures var h := piles[s][i..];
      var q := piles[s := piles[s][..i] + h[m..]][t := piles[t] + h[..m]];
      PileOf(q, h[m]) == Some(s) && q[s][i] == h[m] && h[m] !in q[s][..i]
  {
    var h := piles[s][i..];
    var q := piles[s := piles[s][..i] + h[m..]][t := piles[t] + h[..m]];
    var c := h[m];
    PileDistinct(piles, s);
    PileUnique(piles, c, s);
    assert c == piles[s][i + m];
    assert c !in piles[s][..i];
    assert c !in h[..m];
    assert q[s][..i] == piles[s][..i];
    forall j | 0 <= j < |q| && j != s
      ensures c !in q[j]
    {
      if j != t {
        assert q[j] == piles[j];
      }
    }
    assert c in q[s];
  }

  /** Dropping a picked-up run on another pile: it leaves its pile and lands on top of
      the target in the same order; every other pile is untouched. */
  lemma MoveRun(piles: seq<seq<Card>>, s: nat, i: nat, t: nat)
    requires ValidPiles(piles) && s < |piles| && t < |piles| && s != t && i <= |piles[s]|
    ensures MoveAll(piles, piles[s][i..], t)
              == piles[s := piles[s][..i]][t := piles[t] + piles[s][i..]]
  {
    var h := piles[s][i..];
    MoveRunPrefix(piles, s, i, t, |h|);
    assert h[..|h|] == h;
    assert h[|h|..] == [];
    assert piles[s][..i] + [] == piles[s][..i];
  }

  // ----- Stock and waste ---------------------------------------------------

  /** n rounds of "turn the top stock card onto the waste", stopping early when
      the stock runs out. */
  function Flip(stock: seq<Card>, waste: seq<Card>, n: nat): (r: (seq<Card>, seq<Card>))
    decreases n
  {
    if n == 0 || stock == [] then (stock, waste)
    else Flip(stock[..|stock| - 1], waste + [stock[|stock| - 1]], n - 1)
  }

  /** Flipping moves exactly min(n, |stock|) cards off the top of the stock, and they
      land on the waste in reverse of their stock order. */
  lemma {:induction false} FlipMoves(stock: seq<Card>, waste: seq<Card>, n: nat)
    ensures var m := Min(n, |stock|);
      Flip(stock, waste, n) == (stock[..|stock| - m], waste + Reverse(stock[|stock| - m..]))
    decreases n
  {
    var m := Min(n, |stock|);
    if n == 0 || stock == [] {
      assert stock[..|stock|] == stock;
      assert waste + Reverse(stock[|stock|..]) == waste;
    } else {
      var top, rest := stock[|stock| - 1], stock[..|stock| - 1];
      FlipMoves(rest, waste + [top], n - 1);
      assert Min(n - 1, |rest|) == m - 1;
      FlipShift(stock, waste, m);
    }
  }

  /** One flip round seen on the final shape: the remaining m - 1 cards come off the
      stock below the moved top card. */
  lemma FlipShift(stock: seq<Card>, waste: seq<Card>, m: nat)
    requires 1 <= m <= |stock|
    ensures var top, rest := stock[|stock| - 1], stock[..|stock| - 1];
      rest[..|rest| - (m - 1)] == stock[..|stock| - m]
      && (waste + [top]) + Reverse(rest[|rest| - (m - 1)..]) == waste + Reverse(stock[|stock| - m..])
  {
    var top, rest := stock[|stock| - 1], stock[..|stock| - 1];
    var moved := stock[|stock| - m..];
    assert rest[|rest| - (m - 1)..] == moved[..m - 1];
    assert moved[m - 1] == top;
    ReverseLast(moved);
  }

  lemma ReverseFirst<T>(s: seq<T>)
    requires s != []
    ensures Reverse(s) == Reverse(s[1..]) + [s[0]]
  {
  }

  lemma ReverseLast<T>(s: seq<T>)
    requires s != []
    ensures Reverse(s) == [s[|s| - 1]] + Reverse(s[..|s| - 1])
  {
  }

  lemma ReverseSplit<T>(s: seq<T>, k: nat)
    requires k <= |s|
    ensures Reverse(s) == Reverse(s[k..]) + Reverse(s[..k])
  {
  }

  lemma {:induction false} MultisetReverse<T>(s: seq<T>)
    ensures multiset(Reverse(s)) == multiset(s)
    decreases |s|
  {
    if s != [] {
      ReverseFirst(s);
      MultisetReverse(s[1..]);
      assert s == [s[0]] + s[1..];
    }
  }

  /** Cutting the top m cards off pile s and putting them, reversed, on top of pile t
      keeps every card on the table: the net effect of flip three and of recycling. */
  lemma MoveReversedConserves(piles: seq<seq<Card>>, s: nat, t: nat, m: nat)
    requires ValidPiles(piles) && s < |piles| && t < |piles| && s != t && m <= |piles[s]|
    ensures var n := |piles[s]|;
      ValidPiles(piles[s := piles[s][..n - m]][t := piles[t] + Reverse(piles[s][n - m..])])
  {
    var n := |piles[s]|;
    var x, y := piles[s][..n - m], piles[t] + Reverse(piles[s][n - m..]);
    var p := piles[s := x];
    assert p[t] == piles[t];
    assert piles[s] == x + piles[s][n - m..];
    MultisetReverse(piles[s][n - m..]);
    assert multiset(x) + multiset(y) == multiset(piles[s]) + multiset(piles[t]);
    forall c
      ensures multiset(Flatten(p[t := y]))[c] == multiset(Flatten(piles))[c]
    {
      FlattenUpdate(piles, s, x, c);
      FlattenUpdate(p, t, y, c);
      assert (multiset(x) + multiset(y))[c] == (multiset(piles[s]) + multiset(piles[t]))[c];
    }
    assert multiset(Flatten(p[t := y])) == multiset(Flatten(piles));
  }

  /** The waste after clicking the stock, three cards at a time, until the stock is empty. */
  ghost function Drain(stock: seq<Card>, waste: seq<Card>): seq<Card>
    decreases |stock|
  {
    if stock == [] then waste
    else
      FlipMoves(stock, waste, 3);
      var next := Flip(stock, waste, 3);
      Drain(next.0, next.1)
  }

  lemma {:induction false} DrainReverses(stock: seq<Card>, waste: seq<Card>)
    ensures Drain(stock, waste) == waste + Reverse(stock)
    decreases |stock|
  {
    if stock != [] {
      var m := Min(3, |stock|);
      FlipMoves(stock, waste, 3);
      DrainReverses(stock[..|stock| - m], waste + Reverse(stock[|stock| - m..]));
      ReverseSplit(stock, |stock| - m);
    }
  }

  /** Round trip: flipping the whole stock onto an empty waste and turning the
      waste back over restores the stock in its original order. */
  lemma DrainThenRecycle(stock: seq<Card>)
    ensures Reverse(Drain(stock, [])) == stock
  {
    DrainReverses(stock, []);
    assert [] + Reverse(stock) == Reverse(stock);
  }

  // ----- The deal ----------------------------------------------------------

  const TABLEAU_CARDS: nat := 28

  /** Cards dealt to the first k tableau piles: pile PLAY_PILE_1 + k receives k + 1. */
  function Dealt(k: nat): nat {
    if k == 0 then 0 else Dealt(k - 1) + k
  }

  lemma {:induction false} DealtBound(k: nat)
    requires k < 7
    ensures Dealt(k) + k + 1 <= TABLEAU_CARDS
    decreases 7 - k
  {
    if k < 6 {
      DealtBound(k + 1);
    } else {
      assert Dealt(6) == 21;
    }
  }

  /** Tableau pile PLAY_PILE_1 + k after the deal: the cards popped off the end of the deck for it,
      in the order they were dealt. */
  function TableauDeal(deck: seq<Card>, k: nat): seq<Card>
    requires |deck| >= TABLEAU_CARDS && k < 7
  {
    DealtBound(k);
    seq(k + 1, j requires 0 <= j <= k => deck[|deck| - 1 - Dealt(k) - j])
  }

  /** The first n tableau piles after the deal. */
  function DealtPiles(deck: seq<Card>, n: nat): (r: seq<seq<Card>>)
    requires |deck| >= TABLEAU_CARDS && n <= 7
    ensures |r| == n && forall k :: 0 <= k < n ==> r[k] == TableauDeal(deck, k)
  {
    if n == 0 then [] else DealtPiles(deck, n - 1) + [TableauDeal(deck, n - 1)]
  }

  /** The thirteen piles after dealing a deck: 28 cards into the tableau, the rest left as stock. */
  function Deal(deck: seq<Card>): (r: seq<seq<Card>>)
    requires |deck| >= TABLEAU_CARDS
    ensures |r| == PILE_COUNT
    ensures r[BOTTOM_FACE_DOWN_PILE] == deck[..|deck| - TABLEAU_CARDS]
    ensures r[BOTTOM_FACE_UP_PILE] == []
    ensures forall q :: IsPlayPile(q) ==> |r[q]| == q - PLAY_PILE_1 + 1
    ensures forall f :: TOP_PILE_1 <= f <= TOP_PILE_4 ==> r[f] == []
  {
    [deck[..|deck| - TABLEAU_CARDS], []] + DealtPiles(deck, 7) + [[], [], [], []]
  }

  /** The cards of a list of piles, pile by pile. */
  function PileCards(piles: seq<seq<Card>>): multiset<Card>
    decreases |piles|
  {
    if piles == [] then multiset{} else multiset(piles[0]) + PileCards(piles[1..])
  }

  lemma {:induction false} FlattenCards(piles: seq<seq<Card>>)
    ensures multiset(Flatten(piles)) == PileCards(piles)
    decreases |piles|
  {
    if piles != [] {
      FlattenCards(piles[1..]);
    }
  }

  lemma {:induction false} PileCardsAppend(a: seq<seq<Card>>, b: seq<seq<Card>>)
    ensures PileCards(a + b) == PileCards(a) + PileCards(b)
    decreases |a|
  {
    if a == [] {
      assert a + b == b;
    } else {
      assert (a + b)[1..] == a[1..] + b;
      PileCardsAppend(a[1..], b);
    }
  }

  lemma {:induction false} EmptyPileCards(piles: seq<seq<Card>>)
    requires forall j :: 0 <= j < |piles| ==> piles[j] == []
    ensures PileCards(piles) == multiset{}
    decreases |piles|
  {
    if piles != [] {
      EmptyPileCards(piles[1..]);
    }
  }

  /** Tableau pile PLAY_PILE_1 + k receives the segment of the deck just below the cards
      dealt before it. */
  lemma TableauDealCards(deck: seq<Card>, k: nat)
    requires |deck| >= TABLEAU_CARDS && k < 7
    ensures Dealt(k + 1) == Dealt(k) + k + 1 <= TABLEAU_CARDS
    ensures multiset(TableauDeal(deck, k)) == multiset(deck[|deck| - Dealt(k + 1)..|deck| - Dealt(k)])
  {
    DealtBound(k);
    var seg := deck[|deck| - Dealt(k + 1)..|deck| - Dealt(k)];
    assert TableauDeal(deck, k) == Reverse(seg);
    MultisetReverse(seg);
  }

  /** The first n tableau piles of the deal hold exactly the deck's last Dealt(n) cards. */
  lemma {:induction false} TableauCards(deck: seq<Card>, n: nat)
    requires |deck| >= TABLEAU_CARDS && n <= 7
    ensures Dealt(n) <= TABLEAU_CARDS
    ensures PileCards(DealtPiles(deck, n)) == multiset(deck[|deck| - Dealt(n)..])
  {
    var L := |deck|;
    if n == 0 {
      assert deck[L..] == [];
    } else {
      var m := n - 1;
      TableauCards(deck, m);
      TableauDealCards(deck, m);
      var rest, last := DealtPiles(deck, m), TableauDeal(deck, m);
      assert DealtPiles(deck, n) == rest + [last];
      PileCardsAppend(rest, [last]);
      assert PileCards([last]) == multiset(last);
      var a, b := L - Dealt(n), L - Dealt(m);
      assert deck[a..] == deck[a..b] + deck[b..];
    }
  }

  /** The deal neither loses nor duplicates a card. */
  lemma DealConserves(deck: seq<Card>)
    requires |deck| >= TABLEAU_CARDS
    ensures multiset(Flatten(Deal(deck))) == multiset(deck)
  {
    var L := |deck|;
    var stock, dealt := deck[..L - TABLEAU_CARDS], deck[L - TABLEAU_CARDS..];
    assert PileCards(DealtPiles(deck, 7)) == multiset(dealt) by {
      TableauCards(deck, 7);
      DealtSeven();
    }
    assert multiset(deck) == multiset(stock) + multiset(dealt) by {
      assert deck == stock + dealt;
    }
    FlattenCards(Deal(deck));
    DealCards(deck);
  }

  lemma DealtSeven()
    ensures Dealt(7) == TABLEAU_CARDS
  {
    assert Dealt(3) == 6;
  }

  /** Thirteen piles laid out pile by pile as the deal prescribes are the deal, and a
      deal of a whole deck keeps the invariant. */
  lemma DealLaidOut(deck: seq<Card>, piles: seq<seq<Card>>)
    requires |deck| == DECK_SIZE && IsFullDeck(multiset(deck)) && |piles| == PILE_COUNT
    requires piles[BOTTOM_FACE_DOWN_PILE] == deck[..DECK_SIZE - TABLEAU_CARDS]
    requires piles[BOTTOM_FACE_UP_PILE] == []
    requires forall q :: IsPlayPile(q) ==> piles[q] == TableauDeal(deck, q - PLAY_PILE_1)
    requires forall q :: TOP_PILE_1 <= q < PILE_COUNT ==> piles[q] == []
    ensures piles == Deal(deck) && ValidPiles(piles)
  {
    forall q | 0 <= q < PILE_COUNT
      ensures piles[q] == Deal(deck)[q]
    {
      if IsPlayPile(q) {
        assert Deal(deck)[q] == TableauDeal(deck, q - PLAY_PILE_1);
      }
    }
    DealConserves(deck);
  }

  lemma DealCards(deck: seq<Card>)
    requires |deck| >= TABLEAU_CARDS
    ensures PileCards(Deal(deck))
            == multiset(deck[..|deck| - TABLEAU_CARDS])
               + PileCards(DealtPiles(deck, 7))
  {
    var head: seq<seq<Card>> := [deck[..|deck| - TABLEAU_CARDS], []];
    var t := DealtPiles(deck, 7);
    var tops: seq<seq<Card>> := [[], [], [], []];
    assert Deal(deck) == head + t + tops;
    PileCardsAppend(head + t, tops);
    PileCardsAppend(head, t);
    EmptyPileCards(tops);
    assert PileCards(head) == multiset(deck[..|deck| - TABLEAU_CARDS]) by {
      assert head[1..][1..] == [];
    }
  }

  // ----- Releasing held cards ----------------------------------------------

  /** on_mouse_release moves the held cards exactly when some cards are held, they touch a
      mat, that mat is not the pile the first held card is in, and it is a tableau pile or
      a foundation with a single card held. */
  predicate DropAccepted(piles: seq<seq<Card>>, held: seq<Card>, target: Option<nat>) {
    held != [] && target.Some? && target != PileOf(piles, held[0])
    && (IsPlayPile(target.value) || (IsTopPile(target.value) && |held| == 1))
  }

  /** The piles after a release. */
  function Release(piles: seq<seq<Card>>, held: seq<Card>, target: Option<nat>): seq<seq<Card>>
    requires |piles| == PILE_COUNT
  {
    if DropAccepted(piles, held, target) then MoveAll(piles, held, target.value) else piles
  }

  /** No release loses or duplicates a card. */
  lemma ReleaseConserves(piles: seq<seq<Card>>, held: seq<Card>, target: Option<nat>)
    requires ValidPiles(piles)
    ensures ValidPiles(Release(piles, held, target))
    ensures multiset(Flatten(Release(piles, held, target))) == multiset(Flatten(piles))
  {
    if DropAccepted(piles, held, target) {
      MoveAllConserves(piles, held, target.value);
    }
  }

  /** Releasing a run picked up from pile s over mat t. */
  lemma ReleaseRun(piles: seq<seq<Card>>, s: nat, i: nat, t: nat)
    requires ValidPiles(piles) && s < |piles| && i < |piles[s]|
    ensures var h := piles[s][i..];
      (DropAccepted(piles, h, Some(t)) <==>
         t != s && (IsPlayPile(t) || (IsTopPile(t) && |h| == 1)))
    ensures var h := piles[s][i..];
      Release(piles, h, Some(t))
        == if DropAccepted(piles, h, Some(t)) then piles[s := piles[s][..i]][t := piles[t] + h]
           else piles
    ensures DropAccepted(piles, piles[s][i..], Some(t)) ==> Release(piles, piles[s][i..], Some(t)) != piles
  {
    var h := piles[s][i..];
    assert h[0] == piles[s][i];
    PileOfIn(piles, h[0], s);
    if DropAccepted(piles, h, Some(t)) {
      MoveRun(piles, s, i, t);
      assert |piles[s][..i]| < |piles[s]|;
    }
  }
}
