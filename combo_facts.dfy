/**
 * Cat pairs and stealing: the selection of `toggleCatCardSelection`,
 * what `confirmCombination` takes from the hand, and what
 * `handleFavorCard` / `handleCatSteal` move between two players.
 */
module ComboFacts {
  import opened Seqs
  import opened Cards
  import opened Players
  import opened Rules

  // ------------------------------------------------------------- selection

  /** At most two hand indices are selected, none of them twice. */
  ghost predicate SelectionOk(s: seq<nat>)
  {
    |s| <= 2 && Distinct(s)
  }

  /**
   * Clicking a cat card deselects it when it was selected, selects it when
   * fewer than two are selected, and is ignored otherwise; nothing but the
   * selection changes, and the selection stays at most two distinct indices.
   */
  lemma ToggleSelects(t: Table, index: nat)
    requires SelectionOk(t.selected)
    ensures var s := ToggleCatCardSelection(t, index);
      && s == t.(selected := s.selected)
      && SelectionOk(s.selected)
      && (index in t.selected ==>
            && index !in s.selected && |s.selected| == |t.selected| - 1
            && (forall y :: y in s.selected <==> y in t.selected && y != index))
      && (index !in t.selected && |t.selected| < 2 ==> s.selected == t.selected + [index])
      && (index !in t.selected && |t.selected| == 2 ==> s.selected == t.selected)
  {
    var sel := t.selected;
    if index in sel {
      WithoutDistinct(sel, index);
      WithoutDistinctLength(sel, index);
    } else if |sel| < 2 {
      DistinctSnoc(sel, index);
    }
  }

  /** Removing a value that occurs once shortens a sequence by exactly one. */
  lemma {:induction false} WithoutDistinctLength(s: seq<nat>, x: nat)
    requires Distinct(s) && x in s
    ensures |Without(s, x)| == |s| - 1
    decreases |s|
  {
    if s[0] == x {
      assert x !in s[1..] by {
        forall k | 0 <= k < |s[1..]| ensures s[1..][k] != x {
          assert s[1..][k] == s[k + 1];
        }
      }
      WithoutAbsent(s[1..], x);
    } else {
      assert Distinct(s[1..]) by {
        forall i, j | 0 <= i < |s[1..]| && 0 <= j < |s[1..]| && i != j ensures s[1..][i] != s[1..][j] {
          assert s[1..][i] == s[i + 1] && s[1..][j] == s[j + 1];
        }
      }
      assert x in s[1..];
      WithoutDistinctLength(s[1..], x);
    }
  }

  /** Filtering out a value that does not occur changes nothing. */
  lemma {:induction false} WithoutAbsent(s: seq<nat>, x: nat)
    requires x !in s
    ensures Without(s, x) == s
    decreases |s|
  {
    if s != [] {
      assert s[1..][0..] == s[1..];
      WithoutAbsent(s[1..], x);
      assert s == [s[0]] + s[1..];
    }
  }

  /** Clicking the same card twice, with room to select it, restores the selection. */
  lemma ToggleTwice(t: Table, index: nat)
    requires SelectionOk(t.selected) && index !in t.selected && |t.selected| < 2
    ensures ToggleCatCardSelection(ToggleCatCardSelection(t, index), index) == t
  {
    var s := t.selected + [index];
    assert index in s;
    WithoutSnoc(t.selected, index);
  }

  lemma {:induction false} WithoutSnoc(s: seq<nat>, x: nat)
    requires x !in s
    ensures Without(s + [x], x) == s
    decreases |s|
  {
    if s != [] {
      assert (s + [x])[1..] == s[1..] + [x];
      WithoutSnoc(s[1..], x);
      assert s == [s[0]] + s[1..];
    }
  }

  /**
   * Every operation on cat-pair mode keeps the selection at most two
   * distinct indices, and leaving the mode clears it.
   */
  lemma SelectionStaysOk(t: Table, index: nat)
    requires WellFormed(t) && SelectionOk(t.selected)
    ensures SelectionOk(ToggleCatCardSelection(t, index).selected)
    ensures SelectionOk(ToggleCombinationMode(t).selected)
    ensures !ToggleCombinationMode(t).comboMode ==> ToggleCombinationMode(t).selected == []
    ensures CancelCombination(t).selected == [] && !CancelCombination(t).comboMode
    ensures ConfirmPair(t).Ok? ==> SelectionOk(ConfirmPair(t).t.selected)
  {
    ToggleSelects(t, index);
    ConfirmPairShape(t);
  }

  // ------------------------------------------------------------- confirming a pair

  /**
   * The corrected confirmation changes nothing unless exactly two cards
   * are selected (`NeedTwo`) and they show the same picture (`Mismatch`),
   * throws when a selected index lies outside the hand, and otherwise
   * (for two different indices, as `SelectionStaysOk` keeps them) takes
   * the pair, ends cat-pair mode and offers the steal targets.
   */
  lemma ConfirmPairShape(t: Table)
    requires WellFormed(t)
    ensures var s, sel, hand := ConfirmPair(t), t.selected, t.players[t.current].hand;
      && (|sel| != 2 ==> s == Ok(t, NeedTwo))
      && (|sel| == 2 && (sel[0] >= |hand| || sel[1] >= |hand|) ==> s == Throws(t))
      && (|sel| == 2 && sel[0] < |hand| && sel[1] < |hand| && hand[sel[0]] != hand[sel[1]] ==> s == Ok(t, Mismatch))
      && (|sel| == 2 && sel[0] != sel[1] && sel[0] < |hand| && sel[1] < |hand| && hand[sel[0]] == hand[sel[1]] ==>
            s.Ok? && s.t.selected == [] && !s.t.comboMode && s.note == ChooseTarget(StealTargets(s.t)))
  {
  }

  /**
   * `confirmCombination` as written has the same early returns; with a
   * matching pair it either takes two cards and ends cat-pair mode or
   * throws part-way when the first selected index was the last one of the hand.
   */
  lemma ConfirmCombinationShape(t: Table)
    requires WellFormed(t)
    ensures var s, sel, hand := ConfirmCombination(t), t.selected, t.players[t.current].hand;
      && (|sel| != 2 ==> s == Ok(t, NeedTwo))
      && (|sel| == 2 && (sel[0] >= |hand| || sel[1] >= |hand|) ==> s == Throws(t))
      && (|sel| == 2 && sel[0] < |hand| && sel[1] < |hand| && hand[sel[0]] != hand[sel[1]] ==> s == Ok(t, Mismatch))
      && (|sel| == 2 && sel[0] < |hand| && sel[1] < |hand| && hand[sel[0]] == hand[sel[1]] ==>
            (s.Throws? <==> sel[0] == |hand| - 1)
            && (s.Ok? ==> s.t.selected == [] && !s.t.comboMode && s.note == ChooseTarget(StealTargets(s.t))))
  {
  }

  /**
   * `s` took the pair at indices `lo < hi` of the actor's hand: the hand
   * lost exactly those two cards, the higher-indexed one went onto the
   * discard pile first, nobody else's hand and the deck stayed, cat-pair
   * mode ended, and the choice of a target among the active opponents
   * with cards began.
   */
  ghost predicate TookPair(t: Table, s: Step, lo: nat, hi: nat)
    requires WellFormed(t) && lo < hi < |t.players[t.current].hand|
  {
    var hand := t.players[t.current].hand;
    && s.Ok?
    && |s.t.players| == |t.players| && s.t.current == t.current
    && s.t.players[t.current].hand == RemoveAt(RemoveAt(hand, hi), lo)
    && multiset(s.t.players[t.current].hand) + multiset{hand[lo], hand[hi]} == multiset(hand)
    && (forall j :: 0 <= j < |t.players| && j != t.current ==> s.t.players[j] == t.players[j])
    && s.t.discard == t.discard + [hand[hi], hand[lo]] && s.t.deck == t.deck
    && !s.t.comboMode && s.t.selected == [] && !s.t.actionTaken && s.t.turns == t.turns
    && s.note == ChooseTarget(StealTargets(s.t))
  }

  /** Removing the higher index first takes exactly the two cards. */
  lemma TakePairSpec(t: Table, lo: nat, hi: nat)
    requires WellFormed(t) && lo < hi < |t.players[t.current].hand|
    ensures TookPair(t, TakePair(t, lo, hi), lo, hi)
  {
    var hand := t.players[t.current].hand;
    assert RemoveAt(hand, hi)[lo] == hand[lo];
    var r1 := RemoveCardFrom(t.players[t.current], hi);
    var r2 := RemoveCardFrom(r1.0, lo);
    RemoveCardMultiset(t.players[t.current], hi);
    RemoveCardMultiset(r1.0, lo);
    assert multiset(r2.0.hand) + multiset{hand[lo], hand[hi]} == multiset(hand);
  }

  /** Selected in increasing order, a matching pair leaves the hand as it should. */
  lemma ConfirmTakesPair(t: Table)
    requires WellFormed(t) && |t.selected| == 2
    requires t.selected[0] < t.selected[1] < |t.players[t.current].hand|
    requires t.players[t.current].hand[t.selected[0]] == t.players[t.current].hand[t.selected[1]]
    ensures TookPair(t, ConfirmCombination(t), t.selected[0], t.selected[1])
  {
    TakePairSpec(t, t.selected[0], t.selected[1]);
  }

  /**
   * The corrected confirmation takes exactly the two selected cards,
   * whichever order they were clicked in, and never throws once both
   * indices are in the hand.
   */
  lemma ConfirmPairTakes(t: Table)
    requires WellFormed(t) && |t.selected| == 2 && t.selected[0] != t.selected[1]
    requires t.selected[0] < |t.players[t.current].hand| && t.selected[1] < |t.players[t.current].hand|
    requires t.players[t.current].hand[t.selected[0]] == t.players[t.current].hand[t.selected[1]]
    ensures t.selected[0] < t.selected[1] ==> TookPair(t, ConfirmPair(t), t.selected[0], t.selected[1])
    ensures t.selected[1] < t.selected[0] ==> TookPair(t, ConfirmPair(t), t.selected[1], t.selected[0])
  {
    if t.selected[0] < t.selected[1] {
      TakePairSpec(t, t.selected[0], t.selected[1]);
    } else {
      TakePairSpec(t, t.selected[1], t.selected[0]);
    }
  }

  /** The correction changes nothing for a selection clicked in increasing order. */
  lemma ConfirmAgrees(t: Table)
    requires WellFormed(t)
    requires |t.selected| == 2 ==> t.selected[0] <= t.selected[1]
    ensures ConfirmPair(t) == ConfirmCombination(t)
  {
  }

  /**
   * As written, a selection clicked in decreasing order `[a, b]`, `a > b`,
   * removes `hand[b]` and then the card that slid into index `a`: the one
   * originally at `a + 1`, or nothing (a TypeError) when `a` was the last
   * index, with `hand[b]` already gone from the hand.
   */
  lemma ConfirmDescendingAsWritten(t: Table)
    requires WellFormed(t) && |t.selected| == 2
    requires t.selected[1] < t.selected[0] < |t.players[t.current].hand|
    requires t.players[t.current].hand[t.selected[0]] == t.players[t.current].hand[t.selected[1]]
    ensures var s := ConfirmCombination(t);
      var a, b, hand := t.selected[0], t.selected[1], t.players[t.current].hand;
      && (a == |hand| - 1 ==>
            s.Throws? && s.t.players[t.current].hand == RemoveAt(hand, b) && s.t.discard == t.discard)
      && (a < |hand| - 1 ==>
            s.Ok? && s.t.discard == t.discard + [hand[b], hand[a + 1]]
            && s.t.players[t.current].hand == RemoveAt(RemoveAt(hand, b), a))
  {
    var a, b, hand := t.selected[0], t.selected[1], t.players[t.current].hand;
    if a < |hand| - 1 {
      assert RemoveAt(hand, b)[a] == hand[a + 1];
    }
  }

  /** The table of the counterexamples: the current player holds `hand` and clicked index 1, then 0. */
  function PairTable(hand: seq<Card>): (t: Table)
    ensures WellFormed(t) && t.current == 0 && t.players[0].hand == hand && t.selected == [1, 0] && t.discard == []
  {
    Table([PlayerView(hand, true, false, false), PlayerView([Skip], true, false, false)],
          [Kitten], [], 0, 1, false, true, [1, 0])
  }

  /** `TakePair` when both removals find a card. */
  lemma TakePairUnfold(t: Table, a: nat, b: nat)
    requires WellFormed(t) && a + 1 < |t.players[t.current].hand| && b < |t.players[t.current].hand|
    ensures var r1 := RemoveCardFrom(t.players[t.current], b);
      var r2 := RemoveCardFrom(r1.0, a);
      TakePair(t, a, b) == PairTaken(t, r2.0, r1.1, r2.1)
  {
  }

  /** `PairTaken` puts the new hand in the actor's seat and the two cards on the discard pile. */
  lemma PairTakenFacts(t: Table, hand: PlayerView, c1: Card, c2: Card)
    requires WellFormed(t)
    ensures var s := PairTaken(t, hand, c1, c2);
      s.Ok? && s.t.discard == t.discard + [c1, c2] && s.t.players == t.players[t.current := hand]
  {
  }

  /** From the hand `[Cat(c), Cat(c), x]`, removing index 0 then index 1 takes a cat and `x`. */
  lemma FirstThenSecond(p: PlayerView, c: CatVariant, x: Card)
    requires p.hand == [Cat(c), Cat(c), x]
    ensures var r1 := RemoveCardFrom(p, 0);
      var r2 := RemoveCardFrom(r1.0, 1);
      r1.1 == Cat(c) && r2.1 == x && r2.0.hand == [Cat(c)]
  {
    var r1 := RemoveCardFrom(p, 0);
    assert r1.0.hand == [Cat(c), x];
  }

  /** From the same hand, removing index 1 then index 0 takes both cats. */
  lemma SecondThenFirst(p: PlayerView, c: CatVariant, x: Card)
    requires p.hand == [Cat(c), Cat(c), x]
    ensures var r1 := RemoveCardFrom(p, 1);
      var r2 := RemoveCardFrom(r1.0, 0);
      r1.1 == Cat(c) && r2.1 == Cat(c) && r2.0.hand == [x]
  {
    var r1 := RemoveCardFrom(p, 1);
    assert r1.0.hand == [Cat(c), x];
  }

  /**
   * With two equal cats followed by any other card `x`, clicking the
   * second cat and then the first discards one cat and `x`, and keeps the
   * other cat in the hand.
   */
  lemma ConfirmWrongCard(t: Table, c: CatVariant, x: Card)
    requires WellFormed(t) && t.selected == [1, 0] && t.players[t.current].hand == [Cat(c), Cat(c), x]
    requires x != Cat(c)
    ensures var s := ConfirmCombination(t);
      s.Ok? && s.t.discard == t.discard + [Cat(c), x] && |s.t.players| == |t.players| && s.t.players[t.current].hand == [Cat(c)]
  {
    var r1 := RemoveCardFrom(t.players[t.current], 0);
    var r2 := RemoveCardFrom(r1.0, 1);
    FirstThenSecond(t.players[t.current], c, x);
    assert ConfirmCombination(t) == TakePair(t, 1, 0);
    TakePairUnfold(t, 1, 0);
    PairTakenFacts(t, r2.0, r1.1, r2.1);
  }

  /** On the same table the corrected confirmation discards both cats and keeps `x`. */
  lemma ConfirmPairRightCard(t: Table, c: CatVariant, x: Card)
    requires WellFormed(t) && t.selected == [1, 0] && t.players[t.current].hand == [Cat(c), Cat(c), x]
    ensures var s := ConfirmPair(t);
      s.Ok? && s.t.discard == t.discard + [Cat(c), Cat(c)] && |s.t.players| == |t.players| && s.t.players[t.current].hand == [x]
  {
    var r1 := RemoveCardFrom(t.players[t.current], 1);
    var r2 := RemoveCardFrom(r1.0, 0);
    SecondThenFirst(t.players[t.current], c, x);
    assert ConfirmPair(t) == TakePair(t, 0, 1);
    TakePairUnfold(t, 0, 1);
    PairTakenFacts(t, r2.0, r1.1, r2.1);
  }

  /**
   * With a hand of just the two cats, clicked second then first, the
   * second removal finds no card and throws; the first cat is out of the
   * hand but on no pile, so one card fewer is in play.
   */
  lemma ConfirmLosesCard(c: CatVariant)
    ensures var t := PairTable([Cat(c), Cat(c)]);
      var s := ConfirmCombination(t);
      s.Throws? && s.t.players[0].hand == [Cat(c)] && s.t.discard == []
      && Pool(s.t) + multiset{Cat(c)} == Pool(t)
  {
    var t := PairTable([Cat(c), Cat(c)]);
    ConfirmDescendingAsWritten(t);
    assert RemoveAt([Cat(c), Cat(c)], 0) == [Cat(c)];
    var s := ConfirmCombination(t);
    var p0 := PlayerView([Cat(c)], true, false, false);
    var p1 := PlayerView([Skip], true, false, false);
    var q0 := PlayerView([Cat(c), Cat(c)], true, false, false);
    assert s.t.players == [p0, p1] && t.players == [q0, p1];
    TwoHands(p0, p1);
    TwoHands(q0, p1);
  }

  lemma TwoHands(p: PlayerView, q: PlayerView)
    ensures HandsMultiset([p, q]) == multiset(p.hand) + multiset(q.hand)
  {
    assert Front([p, q]) == [p] && Last([p, q]) == q;
    assert Front([p]) == [] && Last([p]) == p;
    assert HandsMultiset([p]) == HandsMultiset([]) + multiset(p.hand);
  }

  /** On the same table the corrected confirmation takes both cats. */
  lemma ConfirmPairKeepsCard(c: CatVariant)
    ensures var s := ConfirmPair(PairTable([Cat(c), Cat(c)]));
      s.Ok? && s.t.discard == [Cat(c), Cat(c)] && s.t.players[0].hand == []
  {
    var t := PairTable([Cat(c), Cat(c)]);
    ConfirmPairTakes(t);
    assert RemoveAt([Cat(c), Cat(c)], 1) == [Cat(c)];
    assert RemoveAt([Cat(c)], 0) == [];
  }

  // ------------------------------------------------------------- stealing

  /**
   * Favor and cat-pair steals from an opponent: an empty hand gives
   * nothing and changes only the lock; otherwise the chosen card leaves the
   * target's hand and lands at the end of the actor's, and nobody else's
   * hand, the deck and the discard pile stay.
   */
  lemma StealMoves(t: Table, target: nat, pick: nat)
    requires WellFormed(t) && target < |t.players| && target != t.current
    requires StealPick(|t.players[target].hand|, pick)
    ensures var s := Steal(t, target, pick);
      var victim, actor := t.players[target], t.players[t.current];
      && s.Ok? && !s.t.actionTaken && |s.t.players| == |t.players|
      && s.t.deck == t.deck && s.t.discard == t.discard && s.t.current == t.current
      && (victim.hand == [] ==> s.t.players == t.players && s.note == NothingToGive(target))
      && (victim.hand != [] ==>
            && s.note == Received(victim.hand[pick], target)
            && s.t.players[target].hand == RemoveAt(victim.hand, pick)
            && s.t.players[t.current].hand == actor.hand + [victim.hand[pick]]
            && |s.t.players[target].hand| + |s.t.players[t.current].hand| == |victim.hand| + |actor.hand|
            && forall j :: 0 <= j < |t.players| && j != target && j != t.current ==> s.t.players[j] == t.players[j])
  {
  }

  /** A player offered as a target always has something to give. */
  lemma TargetGives(t: Table, target: nat, pick: nat)
    requires WellFormed(t) && target in StealTargets(t)
    requires StealPick(|t.players[target].hand|, pick)
    ensures Steal(t, target, pick).note.Received?
    ensures Steal(t, target, pick).note.from == target
  {
    assert target < |t.players| && |t.players[target].hand| > 0;
  }
}
