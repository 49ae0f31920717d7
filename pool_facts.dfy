/**
 * Conservation of cards: every engine move only relocates cards between
 * the deck, the discard pile and the hands. `Pool` collects them all.
 */
module PoolFacts {
  import opened Seqs
  import opened Cards
  import opened Players
  import opened Rules

  /** Changing one player changes the cards at hand by that player's hand alone. */
  lemma {:induction false} HandsUpdate(ps: seq<PlayerView>, i: nat, p: PlayerView)
    requires i < |ps|
    ensures HandsMultiset(ps[i := p]) + multiset(ps[i].hand) == HandsMultiset(ps) + multiset(p.hand)
    decreases |ps|
  {
    var qs := ps[i := p];
    if i == |ps| - 1 {
      assert Front(qs) == Front(ps);
    } else {
      assert Front(qs) == Front(ps)[i := p];
      assert Last(qs) == Last(ps) && Front(ps)[i] == ps[i];
      HandsUpdate(Front(ps), i, p);
      calc {
        HandsMultiset(qs) + multiset(ps[i].hand);
        HandsMultiset(Front(ps)[i := p]) + multiset(Last(ps).hand) + multiset(ps[i].hand);
        (HandsMultiset(Front(ps)[i := p]) + multiset(Front(ps)[i].hand)) + multiset(Last(ps).hand);
        HandsMultiset(Front(ps)) + multiset(p.hand) + multiset(Last(ps).hand);
        HandsMultiset(ps) + multiset(p.hand);
      }
    }
  }

  lemma {:induction false} HandsOfEmpty(ps: seq<PlayerView>)
    requires forall j :: 0 <= j < |ps| ==> ps[j].hand == []
    ensures HandsMultiset(ps) == multiset{}
    decreases |ps|
  {
    if ps != [] {
      HandsOfEmpty(Front(ps));
    }
  }
  /** Replacing player `i` by `p` changes the cards in play by the hands' difference. */
  lemma PoolUpdate(t: Table, i: nat, p: PlayerView)
    requires i < |t.players|
    ensures Pool(t.(players := t.players[i := p])) + multiset(t.players[i].hand) == Pool(t) + multiset(p.hand)
  {
    HandsUpdate(t.players, i, p);
    var t1 := t.(players := t.players[i := p]);
    var base := multiset(t.deck) + multiset(t.discard);
    assert Pool(t1) == base + HandsMultiset(t1.players);
    assert Pool(t) == base + HandsMultiset(t.players);
    forall c ensures (Pool(t1) + multiset(t.players[i].hand))[c] == (Pool(t) + multiset(p.hand))[c] {
      assert (HandsMultiset(t1.players) + multiset(t.players[i].hand))[c]
          == (HandsMultiset(t.players) + multiset(p.hand))[c];
    }
  }

  /** A flag change leaves the cards in play as they are. */
  lemma PoolSameHand(t: Table, i: nat, p: PlayerView)
    requires i < |t.players| && p.hand == t.players[i].hand
    ensures Pool(t.(players := t.players[i := p])) == Pool(t)
  {
    PoolUpdate(t, i, p);
    Cancel(Pool(t.(players := t.players[i := p])), Pool(t), multiset(p.hand));
  }

  /** `addCard`: the card joins the cards in play. */
  lemma PoolGive(t: Table, i: nat, c: Card)
    requires i < |t.players|
    ensures Pool(t.(players := t.players[i := AddCardTo(t.players[i], c)])) == Pool(t) + multiset{c}
  {
    var p := AddCardTo(t.players[i], c);
    PoolUpdate(t, i, p);
    var old1 := multiset(t.players[i].hand);
    assert multiset(p.hand) == old1 + multiset{c};
    Cancel(Pool(t.(players := t.players[i := p])), Pool(t) + multiset{c}, old1);
  }

  /** `removeCard`: the card leaves the cards in play. */
  lemma PoolTake(t: Table, i: nat, k: nat)
    requires i < |t.players| && k < |t.players[i].hand|
    ensures Pool(t.(players := t.players[i := RemoveCardFrom(t.players[i], k).0])) + multiset{t.players[i].hand[k]}
         == Pool(t)
  {
    var r := RemoveCardFrom(t.players[i], k);
    PoolUpdate(t, i, r.0);
    var new1 := multiset(r.0.hand);
    RemoveCardMultiset(t.players[i], k);
    Cancel(Pool(t.(players := t.players[i := r.0])) + multiset{r.1}, Pool(t), new1);
  }

  /** `endTurn` moves no card. */
  lemma EndTurnPool(t: Table)
    requires WellFormed(t)
    ensures EndTurn(t).Ok? ==> Pool(EndTurn(t).t) == Pool(t)
  {
  }

  /** Putting a card on a pile adds it to the cards in play. */
  lemma PileAdd(s: seq<Card>, c: Card)
    ensures multiset(s + [c]) == multiset(s) + multiset{c}
  {
  }

  /** Popping the top of the deck takes that card out of the cards in play. */
  lemma PoolPop(t: Table)
    requires |t.deck| > 0
    ensures Pool(t.(deck := Front(t.deck))) + multiset{Last(t.deck)} == Pool(t)
  {
    assert t.deck == Front(t.deck) + [Last(t.deck)];
  }

  /** A defused Kitten goes back into the deck and the Defuse onto the discard pile. */
  lemma DefuseKittenPool(t: Table, p: nat, di: nat, insertAt: nat)
    requires WellFormed(t) && p < |t.players| && di < |t.players[p].hand|
    requires KittenSpot(|t.deck|, insertAt)
    ensures var s := DefuseKitten(t, p, di, insertAt);
      s.Ok? ==> Pool(s.t) == Pool(t) + multiset{Kitten}
  {
    var r := RemoveCardFrom(t.players[p], di);
    var tp := t.(players := t.players[p := r.0]);
    PoolTake(t, p, di);
    var t1 := tp.(discard := t.discard + [r.1], deck := InsertAt(t.deck, insertAt, Kitten));
    PileAdd(t.discard, r.1);
    assert Pool(t1) == Pool(tp) + multiset{r.1} + multiset{Kitten};
    EndTurnPool(t1);
  }

  /** An exploding player's Kitten goes onto the discard pile. */
  lemma ExplodePool(t: Table, p: nat)
    requires WellFormed(t) && p < |t.players|
    ensures var s := Explode(t, p);
      s.Ok? ==> Pool(s.t) == Pool(t) + multiset{Kitten}
  {
    var pv := t.players[p];
    var tp := t.(players := t.players[p := pv.(isActive := false)]);
    PoolSameHand(t, p, pv.(isActive := false));
    var t1 := tp.(discard := t.discard + [Kitten]);
    PileAdd(t.discard, Kitten);
    assert Pool(t1) == Pool(tp) + multiset{Kitten};
    EndTurnPool(t1);
  }

  /**
   * `handleKitten` puts the Kitten back into play: into the deck with the
   * Defuse on the discard pile, or onto the discard pile with the player out.
   */
  lemma HandleKittenPool(t: Table, p: nat, insertAt: nat)
    requires WellFormed(t) && p < |t.players| && KittenSpot(|t.deck|, insertAt)
    ensures var s := HandleKitten(t, p, insertAt);
      s.Ok? ==> Pool(s.t) == Pool(t) + multiset{Kitten}
  {
    var di := FirstIndexOf(t.players[p].hand, Defuse);
    if t.players[p].hasDefuse && di.Some? {
      DefuseKittenPool(t, p, di.value, insertAt);
    } else {
      ExplodePool(t, p);
    }
  }

  /** `drawCard` moves the top card into the hand, or the Kitten back into play: no card appears or vanishes. */
  lemma DrawPool(t: Table, insertAt: nat)
    requires WellFormed(t)
    requires |t.deck| > 0 ==> KittenSpot(|t.deck| - 1, insertAt)
    ensures var s := Draw(t, insertAt);
      s.Ok? ==> Pool(s.t) == Pool(t)
  {
    if |t.deck| > 0 && !(t.actionTaken && t.turns == 1) {
      var card := Last(t.deck);
      var t1 := t.(deck := Front(t.deck), actionTaken := true);
      PoolPop(t.(actionTaken := true));
      assert Pool(t1) + multiset{card} == Pool(t);
      if card == Kitten {
        HandleKittenPool(t1, t.current, insertAt);
      } else {
        PoolGive(t1, t.current, card);
        var t2 := t1.(players := t1.players[t.current := AddCardTo(t1.players[t.current], card)]);
        EndTurnPool(t2);
      }
    }
  }

  /** The effects of the played card move no card; a Shuffle only reorders the deck. */
  lemma DispatchPool(t: Table, card: Card, picks: seq<nat>)
    requires WellFormed(t) && ShufflePicks(picks) && |t.deck| <= |picks| + 1
    ensures var s := Dispatch(t, card, picks);
      s.Ok? ==> Pool(s.t) == Pool(t)
  {
    match card
    case Attack =>
    case Shuffle =>
    case Future =>
    case Favor =>
    case _ => EndTurnPool(t.(actionTaken := true));
  }

  /** The played card goes onto the discard pile; its effects move no card. */
  lemma DiscardedPool(t: Table, card: Card, picks: seq<nat>)
    requires WellFormed(t) && ShufflePicks(picks) && |t.deck| <= |picks| + 1
    ensures var s := Discarded(t, card, picks);
      s.Ok? ==> Pool(s.t) == Pool(t) + multiset{card}
  {
    var t1 := t.(discard := t.discard + [card]);
    PileAdd(t.discard, card);
    assert Pool(t1) == Pool(t) + multiset{card};
    DispatchPool(t1, card, picks);
  }

  /** `playCard` of the version without Nope: the played card moves from the hand to the discard pile. */
  lemma PlayCardWithoutNopePool(t: Table, index: nat, picks: seq<nat>)
    requires WellFormed(t) && index < |t.players[t.current].hand|
    requires ShufflePicks(picks) && |t.deck| <= |picks| + 1
    ensures var s := PlayCardWithoutNope(t, index, picks);
      s.Ok? ==> Pool(s.t) == Pool(t)
  {
    if !Locked(t) {
      var r := RemoveCardFrom(t.players[t.current], index);
      PoolTake(t, t.current, index);
      DiscardedPool(t.(players := t.players[t.current := r.0]), r.1, picks);
    }
  }

  /** A Nope that cancels `card` sends both to the discard pile. */
  lemma NopeCancelPool(t: Table, card: Card, o: nat)
    requires WellFormed(t) && o < |t.players| && HoldsNope(t.players[o])
    ensures var s := NopeCancel(t, card, o);
      s.Ok? ==> Pool(s.t) == Pool(t) + multiset{card}
  {
    var k := FirstIndexOf(t.players[o].hand, Nope).value;
    var h := RemoveCardFrom(t.players[o], k);
    var t1 := t.(players := t.players[o := h.0], discard := t.discard + [card, h.1], actionTaken := true);
    assert Pool(t1) == Pool(t) + multiset{card} by { NopeMovePool(t, card, o, k); }
    EndTurnPool(t1);
  }

  /** The holder's Nope moves from hand to pile, beside the cancelled card. */
  lemma NopeMovePool(t: Table, card: Card, o: nat, k: nat)
    requires o < |t.players| && k < |t.players[o].hand|
    ensures var h := RemoveCardFrom(t.players[o], k);
      Pool(t.(players := t.players[o := h.0], discard := t.discard + [card, h.1], actionTaken := true))
      == Pool(t) + multiset{card}
  {
    var h := RemoveCardFrom(t.players[o], k);
    var tp := t.(players := t.players[o := h.0]);
    PoolTake(t, o, k);
    var t1 := tp.(discard := t.discard + [card, h.1], actionTaken := true);
    assert t.discard + [card, h.1] == t.discard + [card] + [h.1];
    PileAdd(t.discard, card);
    PileAdd(t.discard + [card], h.1);
    assert Pool(t1) == Pool(tp) + multiset{card} + multiset{h.1};
  }

  /** `playCard` with the automatic Nope: whether cancelled or not, the played card ends on the discard pile. */
  lemma PlayCardPool(t: Table, index: nat, nopePick: nat, picks: seq<nat>)
    requires WellFormed(t) && index < |t.players[t.current].hand|
    requires NopePick(NopeHolders(t), nopePick)
    requires ShufflePicks(picks) && |t.deck| <= |picks| + 1
    ensures var s := PlayCard(t, index, nopePick, picks);
      s.Ok? ==> Pool(s.t) == Pool(t)
  {
    if !Locked(t) {
      var r := RemoveCardFrom(t.players[t.current], index);
      var t1 := t.(players := t.players[t.current := r.0]);
      PoolTake(t, t.current, index);
      NopeHoldersIgnoreActor(t, r.0);
      var holders := NopeHolders(t1);
      if Cancellable(r.1) && |holders| > 0 {
        var o := holders[nopePick];
        assert o in holders;
        NopeCancelPool(t1, r.1, o);
      } else {
        DiscardedPool(t1, r.1, picks);
      }
    }
  }

  /** `handleFavorCard` and `handleCatSteal` move one card between two hands, or none. */
  lemma StealPool(t: Table, target: nat, pick: nat)
    requires WellFormed(t) && target < |t.players|
    requires StealPick(|t.players[target].hand|, pick)
    ensures var s := Steal(t, target, pick);
      s.Ok? && Pool(s.t) == Pool(t)
  {
    var victim := t.players[target];
    if victim.hand != [] {
      var r := RemoveCardFrom(victim, pick);
      var tp := t.(players := t.players[target := r.0]);
      PoolTake(t, target, pick);
      PoolGive(tp, t.current, r.1);
    }
  }

  /** The pair's two cards go from the hand onto the discard pile. */
  lemma PairTakenPool(t: Table, hand: PlayerView, c1: Card, c2: Card)
    requires WellFormed(t)
    requires multiset(hand.hand) + multiset{c1, c2} == multiset(t.players[t.current].hand)
    ensures Pool(PairTaken(t, hand, c1, c2).t) == Pool(t)
  {
    var tp := t.(players := t.players[t.current := hand]);
    PoolUpdate(t, t.current, hand);
    var t1 := tp.(discard := t.discard + [c1, c2], comboMode := false, selected := [], actionTaken := false);
    assert multiset(t.discard + [c1, c2]) == multiset(t.discard) + multiset{c1, c2};
    assert Pool(t1) == Pool(tp) + multiset{c1, c2};
    Cancel(Pool(t1), Pool(t), multiset(hand.hand));
  }

  /** Taking a pair either throws part-way or moves both cards from the hand to the discard pile. */
  lemma TakePairPool(t: Table, a: nat, b: nat)
    requires WellFormed(t) && a < |t.players[t.current].hand| && b < |t.players[t.current].hand|
    ensures var s := TakePair(t, a, b);
      s.Ok? ==> Pool(s.t) == Pool(t)
  {
    var p := t.players[t.current];
    var r1 := RemoveCardFrom(p, b);
    if a < |r1.0.hand| {
      var r2 := RemoveCardFrom(r1.0, a);
      RemoveCardMultiset(p, b);
      RemoveCardMultiset(r1.0, a);
      assert multiset(r2.0.hand) + multiset{r1.1, r2.1} == multiset(p.hand);
      PairTakenPool(t, r2.0, r1.1, r2.1);
    }
  }

  /** A completed `confirmCombination` moves the pair from the hand to the discard pile. */
  lemma ConfirmCombinationPool(t: Table)
    requires WellFormed(t)
    ensures var s := ConfirmCombination(t);
      s.Ok? ==> Pool(s.t) == Pool(t)
  {
    if |t.selected| == 2 {
      var a, b := t.selected[0], t.selected[1];
      var p := t.players[t.current];
      if a < |p.hand| && b < |p.hand| && p.hand[a] == p.hand[b] {
        TakePairPool(t, a, b);
      }
    }
  }

  /** The same for the corrected confirmation. */
  lemma ConfirmPairPool(t: Table)
    requires WellFormed(t)
    ensures var s := ConfirmPair(t);
      s.Ok? ==> Pool(s.t) == Pool(t)
  {
    if |t.selected| == 2 {
      var a, b := t.selected[0], t.selected[1];
      var p := t.players[t.current];
      if a < |p.hand| && b < |p.hand| && p.hand[a] == p.hand[b] {
        if a <= b {
          TakePairPool(t, a, b);
        } else {
          TakePairPool(t, b, a);
        }
      }
    }
  }
}
