/**
 * What `createDeck` and `dealCards` produce: the 46 base cards, eight
 * cards per hand ending in the dealt Defuse, and a deck of 51 - 7n cards
 * holding the spare Defuses and the Kittens.
 */
module SetupFacts {
  import opened Seqs
  import opened Cards
  import opened Players
  import opened Rules
  import opened DeckFacts
  import opened PoolFacts

  /** What `dealCards` leaves in a hand dealt from a deck without Defuses. */
  predicate DealtWell(p: PlayerView)
  {
    && |p.hand| == 8 && Last(p.hand) == Defuse && multiset(p.hand)[Defuse] == 1
    && p.hasDefuse && p.isActive && !p.autoNope
  }

  /** One player's deal takes the top seven cards of a deck that has them. */
  lemma DealOneRest(p: PlayerView, d: seq<Card>)
    requires 7 <= |d|
    ensures DealOne(p, d).1 == d[..|d| - 7]
  {
  }

  /** A player without Defuses dealt from a deck without Defuses ends with seven more cards and a last, lone Defuse. */
  lemma DealOneHand(p: PlayerView, d: seq<Card>)
    requires 7 <= |d| && Defuse !in d && Defuse !in p.hand
    ensures var x := DealOne(p, d).0;
      && |x.hand| == |p.hand| + 8 && Last(x.hand) == Defuse && multiset(x.hand)[Defuse] == 1
      && x.hasDefuse && x.isActive == p.isActive && x.autoNope == p.autoNope
  {
    var slab := Reverse(d[|d| - 7..]);
    ReverseMultiset(d[|d| - 7..]);
    assert Defuse !in d[|d| - 7..];
    var x := DealOne(p, d).0;
    assert x.hand == p.hand + slab + [Defuse];
    assert multiset(x.hand)[Defuse] == multiset(p.hand)[Defuse] + multiset(slab)[Defuse] + 1;
  }

  /** One player's deal moves cards from the deck into the hand and adds a Defuse. */
  lemma DealOneKeeps(p: PlayerView, d: seq<Card>)
    ensures multiset(DealOne(p, d).0.hand) + multiset(DealOne(p, d).1)
         == multiset(p.hand) + multiset(d) + multiset{Defuse}
  {
    DrawIntoFacts(p, d, 7);
  }

  /** Dealing `i` players takes `7 * i` cards off the top of a deck that has them. */
  lemma {:induction false} DealPrefixRest(ps: seq<PlayerView>, deck: seq<Card>, i: nat)
    requires i <= |ps| && 7 * i <= |deck|
    ensures DealPrefix(ps, deck, i).1 == deck[..|deck| - 7 * i]
    decreases i
  {
    if i > 0 {
      DealPrefixRest(ps, deck, i - 1);
      DealPrefixRestStep(ps, deck, i, |deck| - 7 * (i - 1));
    }
  }

  /** The seven more cards the next player takes come off the top of what is left. */
  lemma DealPrefixRestStep(ps: seq<PlayerView>, deck: seq<Card>, i: nat, m: nat)
    requires 0 < i <= |ps| && 7 <= m <= |deck| && DealPrefix(ps, deck, i - 1).1 == deck[..m]
    ensures DealPrefix(ps, deck, i).1 == deck[..m - 7]
  {
    var q := DealPrefix(ps, deck, i - 1);
    DealOneRest(q.0[i - 1], q.1);
    assert deck[..m][..m - 7] == deck[..m - 7];
  }

  /** A player `dealCards` may serve: empty hand, in the game, automatic Nope off. */
  predicate Unserved(p: PlayerView)
  {
    |p.hand| == 0 && p.isActive && !p.autoNope
  }

  /** The first `i` unserved players are dealt their eight cards; the others are untouched. */
  lemma {:induction false} DealPrefixHands(ps: seq<PlayerView>, deck: seq<Card>, i: nat)
    requires i <= |ps| && 7 * i <= |deck| && Defuse !in deck
    requires forall j :: 0 <= j < |ps| ==> Unserved(ps[j])
    ensures forall j :: 0 <= j < i ==> DealtWell(DealPrefix(ps, deck, i).0[j])
    ensures forall j :: i <= j < |ps| ==> DealPrefix(ps, deck, i).0[j] == ps[j]
    decreases i
  {
    if i > 0 {
      DealPrefixHands(ps, deck, i - 1);
      assert Unserved(DealPrefix(ps, deck, i - 1).0[i - 1]);
      DealPrefixHandsStep(ps, deck, i);
    }
  }

  /** The next unserved player is dealt their eight cards, and nobody else's hand changes. */
  lemma DealPrefixHandsStep(ps: seq<PlayerView>, deck: seq<Card>, i: nat)
    requires 0 < i <= |ps| && 7 * i <= |deck| && Defuse !in deck
    requires Unserved(DealPrefix(ps, deck, i - 1).0[i - 1])
    ensures var q := DealPrefix(ps, deck, i - 1).0; var r := DealPrefix(ps, deck, i).0;
      DealtWell(r[i - 1]) && r == q[i - 1 := r[i - 1]]
  {
    var q := DealPrefix(ps, deck, i - 1);
    assert 7 <= |q.1| && Defuse !in q.1 by {
      DealPrefixRest(ps, deck, i - 1);
      PrefixLacks(deck, |deck| - 7 * (i - 1), Defuse);
    }
    DealOneHand(q.0[i - 1], q.1);
  }

  /** The first `i` deals move cards from deck to hands and add one Defuse each. */
  lemma {:induction false} DealPrefixKeeps(ps: seq<PlayerView>, deck: seq<Card>, i: nat)
    requires i <= |ps|
    ensures HandsMultiset(DealPrefix(ps, deck, i).0) + multiset(DealPrefix(ps, deck, i).1)
         == HandsMultiset(ps) + multiset(deck) + multiset(Repeat(Defuse, i))
    decreases i
  {
    if i > 0 {
      DealPrefixKeeps(ps, deck, i - 1);
      var q := DealPrefix(ps, deck, i - 1);
      var p := DealOne(q.0[i - 1], q.1);
      DealOneKeeps(q.0[i - 1], q.1);
      HandsUpdate(q.0, i - 1, p.0);
      RepeatSnoc(Defuse, i - 1);
      var r := DealPrefix(ps, deck, i);
      assert r == (q.0[i - 1 := p.0], p.1);
      Rebalance(HandsMultiset(r.0), multiset(r.1), multiset(q.0[i - 1].hand), multiset(p.0.hand),
        HandsMultiset(q.0), multiset(q.1), multiset{Defuse});
      assert multiset(Repeat(Defuse, i)) == multiset(Repeat(Defuse, i - 1)) + multiset{Defuse};
    }
  }

  /** `dealCards` moves cards from deck to hands and adds one Defuse per player, the spare Defuses and the Kittens. */
  lemma DealKeeps(ps: seq<PlayerView>, deck: seq<Card>, picks: seq<nat>)
    requires ShufflePicks(picks) && |deck| + |ps| + 6 <= |picks| + 1
    ensures HandsMultiset(Deal(ps, deck, picks).0) + multiset(Deal(ps, deck, picks).1)
         == HandsMultiset(ps) + multiset(deck) + multiset(Repeat(Defuse, |ps|))
            + multiset(Repeat(Defuse, SpareDefuses(|ps|))) + multiset(Repeat(Kitten, KittenCount(|ps|)))
  {
    DealPrefixKeeps(ps, deck, |ps|);
  }

  /** The table `init` sets up, spelled out as the deal of the shuffled base deck. */
  lemma SetupUnfold(n: nat, cats: seq<CatVariant>, deckPicks: seq<nat>, dealPicks: seq<nat>)
    requires SetupPicks(n, cats, deckPicks, dealPicks)
    ensures var ps, deck := Repeat(Fresh, n), CreateDeck(cats, deckPicks);
      var q := DealPrefix(ps, deck, n);
      Setup(n, cats, deckPicks, dealPicks)
        == Table(q.0, FisherYates(DealtDeck(q.1, n), dealPicks), [], 0, 1, false, false, [])
  {
  }

  /** The shuffled base deck: 46 cards, no Defuse and no Kitten. */
  lemma CreateDeckCounts(cats: seq<CatVariant>, deckPicks: seq<nat>)
    requires |cats| == CatCount && ShufflePicks(deckPicks) && 46 <= |deckPicks| + 1
    ensures |CreateDeck(cats, deckPicks)| == 46
    ensures Defuse !in CreateDeck(cats, deckPicks) && Kitten !in CreateDeck(cats, deckPicks)
  {
    BaseDeckLength(cats);
    BaseDeckCount(cats, Defuse);
    BaseDeckCount(cats, Kitten);
    assert multiset(CreateDeck(cats, deckPicks))[Defuse] == 0;
    assert multiset(CreateDeck(cats, deckPicks))[Kitten] == 0;
  }

  /** Every hand after setup: eight cards with the dealt Defuse last and the only Defuse. */
  lemma SetupHands(n: nat, cats: seq<CatVariant>, deckPicks: seq<nat>, dealPicks: seq<nat>)
    requires 1 <= n <= 6 && SetupPicks(n, cats, deckPicks, dealPicks)
    ensures var t := Setup(n, cats, deckPicks, dealPicks);
      |t.players| == n && forall j :: 0 <= j < n ==> DealtWell(t.players[j])
  {
    var ps, deck := Repeat(Fresh, n), CreateDeck(cats, deckPicks);
    SetupUnfold(n, cats, deckPicks, dealPicks);
    CreateDeckCounts(cats, deckPicks);
    DealPrefixHands(ps, deck, n);
  }

  /** The deck after setup: 51 - 7n cards, of which 6 - n Defuses and n - 1 Kittens. */
  lemma SetupDeck(n: nat, cats: seq<CatVariant>, deckPicks: seq<nat>, dealPicks: seq<nat>)
    requires 1 <= n <= 6 && SetupPicks(n, cats, deckPicks, dealPicks)
    ensures var t := Setup(n, cats, deckPicks, dealPicks);
      && |t.deck| == 51 - 7 * n
      && multiset(t.deck)[Defuse] == 6 - n
      && multiset(t.deck)[Kitten] == n - 1
  {
    var ps, deck := Repeat(Fresh, n), CreateDeck(cats, deckPicks);
    SetupUnfold(n, cats, deckPicks, dealPicks);
    CreateDeckCounts(cats, deckPicks);
    DealPrefixRest(ps, deck, n);
    var rest := DealPrefix(ps, deck, n).1;
    assert Defuse !in rest && Kitten !in rest;
    var m := multiset(DealtDeck(rest, n));
    assert m == multiset(rest) + multiset(Repeat(Defuse, SpareDefuses(n))) + multiset(Repeat(Kitten, KittenCount(n)));
    RepeatCount(Defuse, SpareDefuses(n), Defuse);
    RepeatCount(Kitten, KittenCount(n), Kitten);
    RepeatCount(Defuse, SpareDefuses(n), Kitten);
    RepeatCount(Kitten, KittenCount(n), Defuse);
  }

  /** The table a deal starts holds the players' cards, the deck, a Defuse per player, the spare Defuses and the Kittens. */
  lemma StartPool(ps: seq<PlayerView>, deck: seq<Card>, picks: seq<nat>)
    requires ShufflePicks(picks) && |deck| + |ps| + 6 <= |picks| + 1
    ensures var r := Deal(ps, deck, picks);
      Pool(Table(r.0, r.1, [], 0, 1, false, false, []))
        == HandsMultiset(ps) + multiset(deck) + multiset(Repeat(Defuse, |ps|))
           + multiset(Repeat(Defuse, SpareDefuses(|ps|))) + multiset(Repeat(Kitten, KittenCount(|ps|)))
  {
    DealKeeps(ps, deck, picks);
    var r := Deal(ps, deck, picks);
    PoolOfNewRound(r.0, r.1);
  }

  /** At the start of a round the discard pile is empty: the cards are the hands and the deck. */
  lemma PoolOfNewRound(ps: seq<PlayerView>, deck: seq<Card>)
    ensures Pool(Table(ps, deck, [], 0, 1, false, false, [])) == HandsMultiset(ps) + multiset(deck)
  {
    var t := Table(ps, deck, [], 0, 1, false, false, []);
    assert multiset(t.discard) == multiset{};
  }

  /** The cards after setup are the base deck, one Defuse per player, the spare Defuses and the Kittens. */
  lemma SetupPoolSum(n: nat, cats: seq<CatVariant>, deckPicks: seq<nat>, dealPicks: seq<nat>)
    requires SetupPicks(n, cats, deckPicks, dealPicks)
    ensures Pool(Setup(n, cats, deckPicks, dealPicks))
         == multiset(CreateDeck(cats, deckPicks)) + multiset(Repeat(Defuse, n))
            + multiset(Repeat(Defuse, SpareDefuses(n))) + multiset(Repeat(Kitten, KittenCount(n)))
  {
    var ps := Repeat(Fresh, n);
    HandsOfEmpty(ps);
    StartPool(ps, CreateDeck(cats, deckPicks), dealPicks);
  }

  /** Counting the cards of a base deck without Defuses and Kittens plus what `dealCards` adds for `n` players. */
  lemma DealtCounts(pool: multiset<Card>, base: multiset<Card>, n: nat)
    requires 1 <= n <= 6 && |base| == 46 && base[Defuse] == 0 && base[Kitten] == 0
    requires pool == base + multiset(Repeat(Defuse, n))
                  + multiset(Repeat(Defuse, SpareDefuses(n))) + multiset(Repeat(Kitten, KittenCount(n)))
    ensures pool[Defuse] == 6 && pool[Kitten] == n - 1 && |pool| == 51 + n
  {
    RepeatCount(Defuse, n, Defuse);
    RepeatCount(Defuse, n, Kitten);
    RepeatCount(Defuse, SpareDefuses(n), Defuse);
    RepeatCount(Defuse, SpareDefuses(n), Kitten);
    RepeatCount(Kitten, KittenCount(n), Kitten);
    RepeatCount(Kitten, KittenCount(n), Defuse);
  }

  /** All the cards after setup: six Defuses, n - 1 Kittens and 51 + n cards in all. */
  lemma SetupPool(n: nat, cats: seq<CatVariant>, deckPicks: seq<nat>, dealPicks: seq<nat>)
    requires 1 <= n <= 6 && SetupPicks(n, cats, deckPicks, dealPicks)
    ensures var pool := Pool(Setup(n, cats, deckPicks, dealPicks));
      pool[Defuse] == 6 && pool[Kitten] == n - 1 && |pool| == 51 + n
  {
    CreateDeckCounts(cats, deckPicks);
    SetupPoolSum(n, cats, deckPicks, dealPicks);
    var base := CreateDeck(cats, deckPicks);
    assert multiset(base)[Defuse] == 0 && multiset(base)[Kitten] == 0;
    DealtCounts(Pool(Setup(n, cats, deckPicks, dealPicks)), multiset(base), n);
  }

  /** `nextRound` deals exactly as a first round for the same players would. */
  lemma NextRoundIsSetup(t: Table, cats: seq<CatVariant>, deckPicks: seq<nat>, dealPicks: seq<nat>)
    requires SetupPicks(|t.players|, cats, deckPicks, dealPicks)
    ensures NextRound(t, cats, deckPicks, dealPicks) == Setup(|t.players|, cats, deckPicks, dealPicks)
  {
    var reset := seq(|t.players|, i requires 0 <= i < |t.players| =>
      t.players[i].(hand := [], isActive := true, hasDefuse := false, autoNope := false));
    assert reset == Repeat(Fresh, |t.players|);
  }

  /**
   * The inner loop of `dealCards` leaves the deck without its top
   * `min(k, |deck|)` cards, which the hand gains; the hand has a Defuse
   * flag exactly when it had one or a Defuse was among them.
   */
  lemma DrawIntoFacts(p: PlayerView, deck: seq<Card>, k: nat)
    ensures var r := DrawInto(p, deck, k);
      && |r.1| == (if k <= |deck| then |deck| - k else 0)
      && r.1 == deck[..|r.1|]
      && multiset(r.0.hand) + multiset(r.1) == multiset(p.hand) + multiset(deck)
      && (r.0.hasDefuse <==> p.hasDefuse || Defuse in deck[|r.1|..])
      && r.0.isActive == p.isActive && r.0.autoNope == p.autoNope
  {
    var n := if k <= |deck| then k else |deck|;
    var top := deck[|deck| - n..];
    ReverseMultiset(top);
    assert deck == deck[..|deck| - n] + top;
    ReverseHas(top, Defuse);
  }

  /** Drawing no card changes nothing. */
  lemma DrawIntoNone(p: PlayerView, deck: seq<Card>)
    ensures DrawInto(p, deck, 0) == (p, deck)
  {
    var drawn := Reverse(deck[|deck| - 0..]);
    assert drawn == [] && deck[..|deck| - 0] == deck;
    assert p.hand + drawn == p.hand;
    assert DrawTop(p, deck, 0) == (p, deck);
  }

  /**
   * One more round of the inner loop of `dealCards`: when the deck left is
   * not empty its top card goes to the end of the hand, otherwise nothing
   * happens.
   */
  lemma DrawIntoStep(p: PlayerView, deck: seq<Card>, k: nat)
    ensures var q := DrawInto(p, deck, k);
      DrawInto(p, deck, k + 1) == if |q.1| > 0 then (AddCardTo(q.0, Last(q.1)), Front(q.1)) else q
  {
    if k < |deck| {
      var x, top := deck[|deck| - k - 1], deck[|deck| - k..];
      assert deck[|deck| - (k + 1)..] == [x] + top;
      ReverseCons(x, top);
      var drawn := Reverse(top);
      assert p.hand + Reverse([x] + top) == (p.hand + drawn) + [x];
      assert Defuse in Reverse([x] + top) <==> Defuse in drawn || x == Defuse;
      var q := DrawTop(p, deck, k);
      assert q.1 == deck[..|deck| - k];
      assert Last(q.1) == x && Front(q.1) == deck[..|deck| - (k + 1)];
    }
  }

  lemma ReverseCons<T>(x: T, s: seq<T>)
    ensures Reverse([x] + s) == Reverse(s) + [x]
  {
    var r, r' := Reverse([x] + s), Reverse(s) + [x];
    forall m | 0 <= m < |r| ensures r[m] == r'[m] {
      if m < |s| {
        assert r[m] == ([x] + s)[|s| - m] == s[|s| - 1 - m];
      }
    }
  }
}
