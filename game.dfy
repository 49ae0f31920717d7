/**
 * The `Game` object of the engine: its fields, updated in place, and its
 * methods, each proved to leave the fields as the corresponding rule of
 * the module `Rules` says.
 *
 * `Snapshot()` reads the fields and the players' fields into a
 * `Rules.Table`; every method that changes the game ensures that the new
 * snapshot is the rule applied to the old one. Random draws are
 * parameters, and the callbacks of the alerts and modals run at once.
 */
module Engine {
  import opened Seqs
  import opened Cards
  import opened Players
  import opened Rules
  import opened DeckFacts
  import opened SetupFacts
  import opened ComboFacts
  import opened TurnFacts

  class Game {
    var players: seq<Player>
    var deck: seq<Card>
    var discardPile: seq<Card>
    var currentPlayerIndex: nat
    var turnsToMake: int
    var isActionTaken: bool
    var combinationMode: bool
    var selectedCatCards: seq<nat>

    /** The players' fields, seat by seat. */
    function Views(): (r: seq<PlayerView>)
      reads this`players, players
      ensures |r| == |players|
      ensures forall i :: 0 <= i < |players| ==> r[i] == players[i].View()
    {
      ViewsOf(players)
    }

    /** The value of every field the engine changes. */
    function Snapshot(): Table
      reads this, players
    {
      Table(Views(), deck, discardPile, currentPlayerIndex, turnsToMake, isActionTaken,
            combinationMode, selectedCatCards)
    }

    /**
     * No player object sits at two seats, the selection is at most two
     * distinct indices, and the current index names a player once there are any.
     */
    ghost predicate Valid()
      reads this
    {
      && Distinct(players)
      && SelectionOk(selectedCatCards)
      && (|players| > 0 ==> currentPlayerIndex < |players|)
    }

    /** Between two states, only the deck changed. */
    twostate predicate DeckOnly()
      reads this
    {
      && players == old(players) && discardPile == old(discardPile)
      && currentPlayerIndex == old(currentPlayerIndex) && turnsToMake == old(turnsToMake)
      && isActionTaken == old(isActionTaken) && combinationMode == old(combinationMode)
      && selectedCatCards == old(selectedCatCards)
    }

    /** Between two states, only the seating changed. */
    twostate predicate SeatsOnly()
      reads this
    {
      && deck == old(deck) && discardPile == old(discardPile)
      && currentPlayerIndex == old(currentPlayerIndex) && turnsToMake == old(turnsToMake)
      && isActionTaken == old(isActionTaken) && combinationMode == old(combinationMode)
      && selectedCatCards == old(selectedCatCards)
    }

    /** `new Game()`: no players, no cards, one turn owed. */
    constructor ()
      ensures Valid() && Snapshot() == Blank
    {
      players := [];
      deck := [];
      discardPile := [];
      currentPlayerIndex := 0;
      turnsToMake := 1;
      combinationMode := false;
      selectedCatCards := [];
      isActionTaken := false;
    }

    /**
     * `init(playerNames)`, which the start button calls on a new game:
     * a player per name, the seating shuffled, then the deck built and dealt.
     */
    method Init(names: seq<string>, playerPicks: seq<nat>, cats: seq<CatVariant>,
                deckPicks: seq<nat>, dealPicks: seq<nat>) returns (ghost seated: seq<Player>)
      requires Snapshot() == Blank
      requires ShufflePicks(playerPicks) && |names| <= |playerPicks| + 1
      requires SetupPicks(|names|, cats, deckPicks, dealPicks)
      modifies this
      ensures Valid() && |players| == |names|
      ensures |seated| == |names| && forall j :: 0 <= j < |seated| ==> seated[j].name == names[j]
      ensures players == FisherYates(seated, playerPicks)
      ensures Snapshot() == Setup(|names|, cats, deckPicks, dealPicks)
    {
      seated := SeatShuffled(names, playerPicks);
      StartRound(cats, deckPicks, dealPicks);
      FreshTurn();
    }

    /** `this.isActionTaken = false; this.turnsToMake = 1` */
    method FreshTurn()
      requires Valid()
      modifies this
      ensures Valid() && players == old(players)
      ensures Snapshot() == old(Snapshot()).(actionTaken := false, turns := 1)
    {
      isActionTaken := false;
      turnsToMake := 1;
    }

    /**
     * The players of `init`, created and shuffled: fresh objects, one per
     * name, seated in name order as `seated` and then put in the order the
     * shuffle picks.
     */
    method SeatShuffled(names: seq<string>, playerPicks: seq<nat>) returns (ghost seated: seq<Player>)
      requires Snapshot() == Blank
      requires ShufflePicks(playerPicks) && |names| <= |playerPicks| + 1
      modifies this
      ensures Valid() && |players| == |names|
      ensures |seated| == |names| && forall j :: 0 <= j < |seated| ==> seated[j].name == names[j]
      ensures players == FisherYates(seated, playerPicks)
      ensures forall j :: 0 <= j < |players| ==> fresh(players[j])
      ensures Snapshot() == Blank.(players := Repeat(Fresh, |names|))
    {
      SeatPlayers(names);
      seated := players;
      ShufflePlayers(playerPicks);
      forall j | 0 <= j < |players| ensures fresh(players[j]) && players[j].View() == Fresh {
        assert players[j] in multiset(seated);
      }
      assert Views() == Repeat(Fresh, |names|);
    }

    /**
     * The calls `createDeck(); dealCards()` that start a round, made on a
     * table with nothing but players.
     */
    method StartRound(cats: seq<CatVariant>, deckPicks: seq<nat>, dealPicks: seq<nat>)
      requires Valid() && Snapshot() == Blank.(players := Views())
      requires SetupPicks(|players|, cats, deckPicks, dealPicks)
      modifies this, players
      ensures Valid() && players == old(players)
      ensures Snapshot() == Start(old(Views()), cats, deckPicks, dealPicks)
    {
      ghost var ps := Views();
      CreateDeck(cats, deckPicks);
      assert Views() == ps;
      ghost var d := deck;
      DealCards(dealPicks);
      ghost var r := Deal(ps, d, dealPicks);
      assert Views() == r.0 && deck == r.1;
      StartIsDeal(ps, cats, deckPicks, dealPicks);
    }

    /** `this.players = playerNames.map(name => new Player(name))` */
    method SeatPlayers(names: seq<string>)
      requires Snapshot() == Blank
      modifies this
      ensures SeatsOnly() && Valid() && |players| == |names|
      ensures forall j :: 0 <= j < |players| ==> fresh(players[j]) && players[j].View() == Fresh
      ensures forall j :: 0 <= j < |players| ==> players[j].name == names[j]
    {
      var seated: seq<Player> := [];
      var i := 0;
      while i < |names|
        invariant 0 <= i <= |names| && |seated| == i && Distinct(seated) && unchanged(this)
        invariant forall j :: 0 <= j < i ==> fresh(seated[j]) && seated[j].View() == Fresh
        invariant forall j :: 0 <= j < i ==> seated[j].name == names[j]
      {
        var p := new Player(names[i]);
        DistinctSnoc(seated, p);
        seated := seated + [p];
        i := i + 1;
      }
      players := seated;
    }

    // ------------------------------------------------------------- shuffling

    /** `shuffleDeck` */
    method ShuffleDeck(picks: seq<nat>)
      requires ShufflePicks(picks) && |deck| <= |picks| + 1
      modifies this
      ensures DeckOnly() && deck == FisherYates(old(deck), picks)
    {
      deck := FisherYatesLoop(deck, picks);
    }

    /** `shufflePlayers` */
    method ShufflePlayers(picks: seq<nat>)
      requires Valid() && ShufflePicks(picks) && |players| <= |picks| + 1
      modifies this
      ensures Valid()
      ensures players == FisherYates(old(players), picks)
      ensures unchanged(this`deck, this`discardPile, this`currentPlayerIndex, this`turnsToMake)
      ensures unchanged(this`isActionTaken, this`combinationMode, this`selectedCatCards)
    {
      FisherYatesDistinct(players, picks);
      players := FisherYatesLoop(players, picks);
    }

    // ------------------------------------------------------------- setting up

    /** `createDeck`: push the counted copies of each action card, then the cats, and shuffle. */
    method CreateDeck(cats: seq<CatVariant>, picks: seq<nat>)
      requires |cats| == CatCount && ShufflePicks(picks) && 46 <= |picks| + 1
      modifies this
      ensures DeckOnly() && deck == Rules.CreateDeck(cats, picks)
    {
      deck := [];
      PushCopies(Nope, NopeCount);
      PushCopies(Attack, AttackCount);
      PushCopies(Skip, SkipCount);
      PushCopies(Favor, FavorCount);
      PushCopies(Shuffle, ShuffleCount);
      PushCopies(Future, FutureCount);
      assert deck == ActionCards();
      var i := 0;
      while i < CatCount
        invariant 0 <= i <= CatCount && deck == ActionCards() + CatCards(cats[..i])
        invariant DeckOnly()
      {
        assert Front(cats[..i + 1]) == cats[..i];
        deck := deck + [Cat(cats[i])];
        i := i + 1;
      }
      assert cats[..CatCount] == cats;
      BaseDeckLength(cats);
      ShuffleDeck(picks);
    }

    /** The loop `for (i = 0; i < count; i++) deck.push(card)`. */
    method PushCopies(c: Card, count: nat)
      modifies this
      ensures DeckOnly() && deck == old(deck) + Repeat(c, count)
    {
      var i := 0;
      while i < count
        invariant 0 <= i <= count && deck == old(deck) + Repeat(c, i)
        invariant DeckOnly()
      {
        RepeatSnoc(c, i);
        deck := deck + [c];
        i := i + 1;
      }
    }

    /**
     * `dealCards`: seven pops from the deck into each hand in seat order
     * (while cards remain) and a Defuse after them, then the spare Defuses
     * and the Kittens onto the deck, and a shuffle.
     */
    method DealCards(picks: seq<nat>)
      requires Valid() && ShufflePicks(picks) && |deck| + |players| + 6 <= |picks| + 1
      modifies this, players
      ensures DeckOnly() && Valid()
      ensures (Views(), deck) == Deal(old(Views()), old(deck), picks)
    {
      DealHands();
      ghost var dealt := (Views(), deck);
      var n := |players|;
      PushCopies(Defuse, SpareDefuses(n));
      PushCopies(Kitten, KittenCount(n));
      assert deck == DealtDeck(dealt.1, n);
      ShuffleDeck(picks);
      assert Views() == dealt.0;
    }

    /** The `forEach` of `dealCards`: every player in seat order. */
    method DealHands()
      requires Valid()
      modifies this, players
      ensures DeckOnly()
      ensures (Views(), deck) == DealPrefix(old(Views()), old(deck), |players|)
    {
      ghost var ps0, d0 := Views(), deck;
      var i := 0;
      while i < |players|
        invariant 0 <= i <= |players| && DeckOnly()
        invariant (Views(), deck) == DealPrefix(ps0, d0, i)
      {
        DealPrefixStep(ps0, d0, i);
        DealSeat(i);
        i := i + 1;
      }
    }

    /** The hand at seat `i` dealt, and nobody else's. */
    method DealSeat(i: nat)
      requires Valid() && i < |players|
      modifies this, players[i]
      ensures DeckOnly()
      ensures var p := DealOne(old(Views())[i], old(deck));
        (Views(), deck) == (old(Views())[i := p.0], p.1)
    {
      ghost var vs := Views();
      DealTo(players[i]);
      forall j | 0 <= j < |players| && j != i ensures players[j].View() == vs[j] {
        assert players[j] != players[i];
      }
      assert Views() == vs[i := players[i].View()];
    }

    /** The body of the `forEach` in `dealCards` for one player. */
    method DealTo(player: Player)
      modifies this, player
      ensures DeckOnly()
      ensures (player.View(), deck) == DealOne(old(player.View()), old(deck))
    {
      ghost var p0, d0 := player.View(), deck;
      DrawIntoNone(p0, d0);
      var k := 0;
      while k < 7
        invariant 0 <= k <= 7 && DeckOnly()
        invariant (player.View(), deck) == DrawInto(p0, d0, k)
      {
        DrawIntoStep(p0, d0, k);
        PopInto(player);
        k := k + 1;
      }
      player.AddCard(Defuse);
    }

    /** `if (this.deck.length) player.addCard(this.deck.pop())` */
    method PopInto(player: Player)
      modifies this, player
      ensures DeckOnly()
      ensures |old(deck)| > 0 ==> (player.View(), deck) == (AddCardTo(old(player.View()), Last(old(deck))), Front(old(deck)))
      ensures |old(deck)| == 0 ==> player.View() == old(player.View()) && deck == []
    {
      if |deck| > 0 {
        var c := Last(deck);
        deck := Front(deck);
        player.AddCard(c);
      }
    }

    // ------------------------------------------------------------- one seat

    /** `players[i].addCard(c)`: only that seat changes. */
    method AddCardAt(i: nat, c: Card)
      requires Valid() && i < |players|
      modifies players[i]
      ensures Views() == old(Views())[i := AddCardTo(old(Views())[i], c)]
    {
      ghost var vs := Views();
      players[i].AddCard(c);
      forall j | 0 <= j < |players| && j != i ensures players[j].View() == vs[j] {
        assert players[j] != players[i];
      }
    }

    /** `players[i].removeCard(index)`: only that seat changes. */
    method RemoveCardAt(i: nat, index: nat) returns (card: Card)
      requires Valid() && i < |players| && index < |players[i].hand|
      modifies players[i]
      ensures var r := RemoveCardFrom(old(Views())[i], index);
        card == r.1 && Views() == old(Views())[i := r.0]
    {
      ghost var vs := Views();
      card := players[i].RemoveCard(index);
      forall j | 0 <= j < |players| && j != i ensures players[j].View() == vs[j] {
        assert players[j] != players[i];
      }
    }

    /** `player.isActive = false` for the player at seat `i`. */
    method Deactivate(i: nat)
      requires Valid() && i < |players|
      modifies players[i]
      ensures Views() == old(Views())[i := old(Views())[i].(isActive := false)]
    {
      ghost var vs := Views();
      players[i].isActive := false;
      forall j | 0 <= j < |players| && j != i ensures players[j].View() == vs[j] {
        assert players[j] != players[i];
      }
    }

    /** The change handler of the auto-Nope checkbox of seat `i`. */
    method SetAutoNope(i: nat, on: bool)
      requires Valid() && i < |players|
      modifies players[i]
      ensures Snapshot() == Rules.SetAutoNope(old(Snapshot()), i, on)
    {
      ghost var vs := Views();
      players[i].autoNope := on;
      forall j | 0 <= j < |players| && j != i ensures players[j].View() == vs[j] {
        assert players[j] != players[i];
      }
      assert Views() == vs[i := vs[i].(autoNope := on)];
    }

    // ------------------------------------------------------------- turn order

    /** `getNextPlayerIndex`: from the seat after the current one, skip inactive players. */
    method GetNextPlayerIndex() returns (next: nat)
      requires Valid() && |players| > 0 && AnyActive(Views())
      ensures next < |players| && NextActive(Views(), currentPlayerIndex) == Some(next)
    {
      next := ScanSeats(Views(), currentPlayerIndex);
    }

    /** `endTurn`: use up one owed turn, or pass the turn on. */
    method EndTurn()
      requires Valid() && |players| > 0
      requires !Rules.EndTurn(Snapshot()).Spins?
      modifies this
      ensures Valid() && players == old(players)
      ensures Rules.EndTurn(old(Snapshot())) == Ok(Snapshot(), Quiet)
    {
      ghost var t := Snapshot();
      turnsToMake := turnsToMake - 1;
      if turnsToMake > 0 {
        isActionTaken := false;
        assert Snapshot() == t.(turns := t.turns - 1, actionTaken := false);
      } else {
        EndTurnSpins(t);
        PassTurn();
        EndTurnTo(t, currentPlayerIndex);
      }
    }

    /** The `else` branch of `endTurn`: a fresh single turn for the next active player. */
    method PassTurn()
      requires Valid() && |players| > 0 && AnyActive(Views())
      modifies this
      ensures Valid() && players == old(players)
      ensures NextActive(old(Views()), old(currentPlayerIndex)) == Some(currentPlayerIndex)
      ensures Snapshot() == old(Snapshot()).(turns := 1, current := currentPlayerIndex, actionTaken := false)
    {
      // The scan reads neither field that the assignments before it change.
      var next := GetNextPlayerIndex();
      turnsToMake := 1;
      currentPlayerIndex := next;
      isActionTaken := false;
    }

    // ------------------------------------------------------------- drawing

    /**
     * `drawCard`, with the drawn-card modal acknowledged at once: an empty
     * deck and the turn lock leave everything as it is; otherwise the top
     * card is popped, and a Kitten goes to `handleKitten` while any other
     * card joins the hand and the turn ends.
     */
    method DrawCard(insertAt: nat) returns (note: Note)
      requires Valid() && |players| > 0
      requires |deck| > 0 ==> KittenSpot(|deck| - 1, insertAt)
      requires !Rules.Draw(Snapshot(), insertAt).Spins?
      modifies this, players
      ensures Valid() && players == old(players)
      ensures Rules.Draw(old(Snapshot()), insertAt) == Ok(Snapshot(), note)
    {
      if |deck| == 0 {
        note := DeckEmpty;
        return;
      }
      if isActionTaken && turnsToMake == 1 {
        note := Quiet;
        return;
      }
      var card := TakeTop();
      if card == Kitten {
        note := HandleKitten(currentPlayerIndex, insertAt);
      } else {
        note := KeepCard(card);
      }
    }

    /** `this.isActionTaken = true; const card = this.deck.pop()` */
    method TakeTop() returns (card: Card)
      requires Valid() && |deck| > 0
      modifies this
      ensures Valid() && players == old(players) && card == Last(old(deck))
      ensures Snapshot() == old(Snapshot()).(deck := Front(old(deck)), actionTaken := true)
    {
      isActionTaken := true;
      card := Last(deck);
      deck := Front(deck);
    }

    /** A drawn card other than a Kitten: `player.addCard(card); this.endTurn()`. */
    method KeepCard(card: Card) returns (note: Note)
      requires Valid() && |players| > 0
      requires var t := Snapshot();
        !Rules.EndTurn(t.(players := t.players[t.current := AddCardTo(t.players[t.current], card)])).Spins?
      modifies this, players
      ensures Valid() && players == old(players)
      ensures var t := old(Snapshot());
        WithNote(Rules.EndTurn(t.(players := t.players[t.current := AddCardTo(t.players[t.current], card)])), Drew(card))
        == Ok(Snapshot(), note)
    {
      AddCardAt(currentPlayerIndex, card);
      EndTurn();
      note := Drew(card);
    }

    /**
     * `handleKitten` for the player at seat `p`, with its alerts
     * acknowledged at once: the first Defuse is spent when the player's
     * flag says they hold one, otherwise the player explodes.
     */
    method HandleKitten(p: nat, insertAt: nat) returns (note: Note)
      requires Valid() && |players| > 0 && p < |players|
      requires KittenSpot(|deck|, insertAt)
      requires !Rules.HandleKitten(Snapshot(), p, insertAt).Spins?
      modifies this, players
      ensures Valid() && players == old(players)
      ensures Rules.HandleKitten(old(Snapshot()), p, insertAt) == Ok(Snapshot(), note)
    {
      if players[p].hasDefuse {
        var di := FirstIndexOf(players[p].hand, Defuse);
        if di.Some? {
          note := DefuseKitten(p, di.value, insertAt);
          return;
        }
      }
      note := Explode(p);
    }

    /** The Defuse at `di` is discarded, the Kitten goes back into the deck at `insertAt`, the turn ends. */
    method DefuseKitten(p: nat, di: nat, insertAt: nat) returns (note: Note)
      requires Valid() && |players| > 0 && p < |players| && di < |players[p].hand|
      requires KittenSpot(|deck|, insertAt)
      requires !Rules.DefuseKitten(Snapshot(), p, di, insertAt).Spins?
      modifies this, players
      ensures Valid() && players == old(players)
      ensures Rules.DefuseKitten(old(Snapshot()), p, di, insertAt) == Ok(Snapshot(), note)
    {
      var defuse := RemoveCardAt(p, di);
      Discard([defuse]);
      InsertKitten(insertAt);
      EndTurn();
      note := Defused(p);
    }

    /** The player at seat `p` is out and the Kitten discarded; the game ends or the turn does. */
    method Explode(p: nat) returns (note: Note)
      requires Valid() && |players| > 0 && p < |players|
      requires !Rules.Explode(Snapshot(), p).Spins?
      modifies this, players
      ensures Valid() && players == old(players)
      ensures Rules.Explode(old(Snapshot()), p) == Ok(Snapshot(), note)
    {
      Deactivate(p);
      Discard([Kitten]);
      if CheckGameEnd(Views()) {
        GameEndHasWinner(Views());
        note := GameOver(Winner(Views()).value);
      } else {
        EndTurn();
        note := Exploded(p);
      }
    }

    /** `this.discardPile.push(...cards)` */
    method Discard(cards: seq<Card>)
      requires Valid()
      modifies this
      ensures Valid() && players == old(players)
      ensures Snapshot() == old(Snapshot()).(discard := old(discardPile) + cards)
    {
      discardPile := discardPile + cards;
    }

    /** `this.deck.splice(insertIndex, 0, card)` for the Kitten. */
    method InsertKitten(insertAt: nat)
      requires Valid() && KittenSpot(|deck|, insertAt)
      modifies this
      ensures Valid() && players == old(players)
      ensures Snapshot() == old(Snapshot()).(deck := InsertAt(old(deck), insertAt, Kitten))
    {
      deck := InsertAt(deck, insertAt, Kitten);
    }

    // ------------------------------------------------------------- playing

    /**
     * `playCard(index)` with the automatic Nope: under the turn lock
     * nothing happens; otherwise the card leaves the hand and is either
     * cancelled by a Nope of the opponent `nopePick` chooses, or discarded
     * and dispatched on its type.
     */
    method PlayCard(index: nat, nopePick: nat, picks: seq<nat>) returns (note: Note)
      requires Valid() && |players| > 0 && index < |players[currentPlayerIndex].hand|
      requires NopePick(NopeHolders(Snapshot()), nopePick)
      requires ShufflePicks(picks) && |deck| <= |picks| + 1
      requires !Rules.PlayCard(Snapshot(), index, nopePick, picks).Spins?
      modifies this, players
      ensures Valid() && players == old(players)
      ensures Rules.PlayCard(old(Snapshot()), index, nopePick, picks) == Ok(Snapshot(), note)
    {
      if isActionTaken && turnsToMake == 1 {
        note := Quiet;
        return;
      }
      ghost var t := Snapshot();
      var card := RemoveCardAt(currentPlayerIndex, index);
      NopeHoldersIgnoreActor(t, Views()[currentPlayerIndex]);
      var holders := NopeHolders(Snapshot());
      if Cancellable(card) && |holders| > 0 {
        assert holders[nopePick] in holders;
        note := NopeCancel(card, holders[nopePick]);
      } else {
        note := Discarded(card, picks);
      }
    }

    /**
     * `playCard(index)` of the version without Nope: under the turn lock
     * nothing happens; otherwise the card leaves the hand, is discarded
     * and is dispatched on its type.
     */
    method PlayCardWithoutNope(index: nat, picks: seq<nat>) returns (note: Note)
      requires Valid() && |players| > 0 && index < |players[currentPlayerIndex].hand|
      requires ShufflePicks(picks) && |deck| <= |picks| + 1
      requires !Rules.PlayCardWithoutNope(Snapshot(), index, picks).Spins?
      modifies this, players
      ensures Valid() && players == old(players)
      ensures Rules.PlayCardWithoutNope(old(Snapshot()), index, picks) == Ok(Snapshot(), note)
    {
      if isActionTaken && turnsToMake == 1 {
        note := Quiet;
        return;
      }
      var card := RemoveCardAt(currentPlayerIndex, index);
      note := Discarded(card, picks);
    }

    /** The opponent at seat `o` spends their first Nope on `card`; both are discarded and the turn ends. */
    method NopeCancel(card: Card, o: nat) returns (note: Note)
      requires Valid() && |players| > 0 && o < |players| && HoldsNope(players[o].View())
      requires !Rules.NopeCancel(Snapshot(), card, o).Spins?
      modifies this, players
      ensures Valid() && players == old(players)
      ensures Rules.NopeCancel(old(Snapshot()), card, o) == Ok(Snapshot(), note)
    {
      var nopeIndex := FirstIndexOf(players[o].hand, Nope).value;
      var nope := RemoveCardAt(o, nopeIndex);
      Discard([card, nope]);
      EndAction();
      note := Cancelled(card, o);
    }

    /** `this.discardPile.push(card)`, then the `switch` on the card's type. */
    method Discarded(card: Card, picks: seq<nat>) returns (note: Note)
      requires Valid() && |players| > 0
      requires ShufflePicks(picks) && |deck| <= |picks| + 1
      requires !Rules.Discarded(Snapshot(), card, picks).Spins?
      modifies this, players
      ensures Valid() && players == old(players)
      ensures Rules.Discarded(old(Snapshot()), card, picks) == Ok(Snapshot(), note)
    {
      Discard([card]);
      note := Dispatch(card, picks);
    }

    /** The `switch (card.type)` of `playCard`. */
    method Dispatch(card: Card, picks: seq<nat>) returns (note: Note)
      requires Valid() && |players| > 0
      requires ShufflePicks(picks) && |deck| <= |picks| + 1
      requires !Rules.Dispatch(Snapshot(), card, picks).Spins?
      modifies this, players
      ensures Valid() && players == old(players)
      ensures Rules.Dispatch(old(Snapshot()), card, picks) == Ok(Snapshot(), note)
    {
      note := Quiet;
      match card {
        case Attack =>
          NextActiveFacts(Views(), currentPlayerIndex);
          PlayAttack();
        case Skip =>
          EndAction();
        case Shuffle =>
          ShuffleDeck(picks);
          Unlock();
        case Future =>
          Unlock();
          note := Peek(TopThree(deck));
        case Favor =>
          Unlock();
          note := ChooseTarget(StealTargets(Snapshot()));
        case _ =>
          EndAction();
      }
    }

    /**
     * The Attack case: one more owed turn (two when none was owed) passed
     * to the next active player, with the lock cleared.
     */
    method PlayAttack()
      requires Valid() && |players| > 0 && AnyActive(Views())
      modifies this
      ensures Valid() && players == old(players)
      ensures NextActive(old(Views()), old(currentPlayerIndex)) == Some(currentPlayerIndex)
      ensures Snapshot() == old(Snapshot()).(turns := if old(turnsToMake) > 0 then old(turnsToMake) + 1 else 2,
                                             current := currentPlayerIndex, actionTaken := false)
    {
      // The new `turnsToMake` is worked out first, as in the source; the scan does not read it.
      var owed := if turnsToMake > 0 then turnsToMake + 1 else 2;
      var next := GetNextPlayerIndex();
      turnsToMake := owed;
      currentPlayerIndex := next;
      isActionTaken := false;
    }

    /** `this.isActionTaken = true; this.endTurn()` */
    method EndAction()
      requires Valid() && |players| > 0
      requires !Rules.EndTurn(Snapshot().(actionTaken := true)).Spins?
      modifies this
      ensures Valid() && players == old(players)
      ensures Rules.EndTurn(old(Snapshot()).(actionTaken := true)) == Ok(Snapshot(), Quiet)
    {
      isActionTaken := true;
      EndTurn();
    }

    /** `this.isActionTaken = false`: the closing of the Future modal and of the steal modals. */
    method Unlock()
      requires Valid()
      modifies this
      ensures Valid() && players == old(players)
      ensures Snapshot() == old(Snapshot()).(actionTaken := false)
    {
      isActionTaken := false;
    }

    /** The Future modal acknowledged. */
    method AcknowledgeFuture()
      requires Valid()
      modifies this
      ensures Valid() && players == old(players)
      ensures Snapshot() == Rules.AcknowledgeFuture(old(Snapshot()))
    {
      Unlock();
    }

    /**
     * `handleFavorCard(target)` and `handleCatSteal(target)`, with the
     * modal acknowledged at once: the card of the target at `pick` moves
     * to the end of the current player's hand, and the lock is cleared.
     */
    method Steal(target: nat, pick: nat) returns (note: Note)
      requires Valid() && |players| > 0 && target < |players|
      requires StealPick(|players[target].hand|, pick)
      modifies this, players
      ensures Valid() && players == old(players)
      ensures Rules.Steal(old(Snapshot()), target, pick) == Ok(Snapshot(), note)
    {
      if |players[target].hand| == 0 {
        Unlock();
        note := NothingToGive(target);
        return;
      }
      var stolen := RemoveCardAt(target, pick);
      AddCardAt(currentPlayerIndex, stolen);
      Unlock();
      note := Received(stolen, target);
    }

    // ------------------------------------------------------------- cat pairs

    /** `toggleCombinationMode` */
    method ToggleCombinationMode()
      requires Valid()
      modifies this
      ensures Valid() && players == old(players)
      ensures Snapshot() == Rules.ToggleCombinationMode(old(Snapshot()))
    {
      combinationMode := !combinationMode;
      if !combinationMode {
        selectedCatCards := [];
      }
      isActionTaken := false;
    }

    /** `toggleCatCardSelection(index)` */
    method ToggleCatCardSelection(index: nat)
      requires Valid()
      modifies this
      ensures Valid() && players == old(players)
      ensures Snapshot() == Rules.ToggleCatCardSelection(old(Snapshot()), index)
    {
      ToggleSelects(Snapshot(), index);
      if index in selectedCatCards {
        selectedCatCards := Without(selectedCatCards, index);
      } else if |selectedCatCards| < 2 {
        selectedCatCards := selectedCatCards + [index];
      }
    }

    /**
     * `confirmCombination` as written: `removeCard(selected[1])`, then
     * `removeCard(selected[0])` on the hand as the first removal left it.
     * `None` stands for the TypeError thrown when a selected index lies
     * outside the hand, or outside the shortened hand at the second removal.
     */
    method ConfirmCombination() returns (note: Option<Note>)
      requires Valid() && |players| > 0
      modifies this, players
      ensures Valid() && players == old(players)
      ensures Rules.ConfirmCombination(old(Snapshot())) == if note.Some? then Ok(Snapshot(), note.value) else Throws(Snapshot())
    {
      if |selectedCatCards| != 2 {
        note := Some(NeedTwo);
        return;
      }
      var a, b := selectedCatCards[0], selectedCatCards[1];
      var hand := players[currentPlayerIndex].hand;
      if a >= |hand| || b >= |hand| {
        note := None;
        return;
      }
      if hand[a] != hand[b] {
        note := Some(Mismatch);
        return;
      }
      note := TakePair(a, b);
    }

    /**
     * `confirmCombination` with the two removals made higher index first,
     * so that both selected cards leave the hand whatever the click order.
     */
    method ConfirmPair() returns (note: Option<Note>)
      requires Valid() && |players| > 0
      modifies this, players
      ensures Valid() && players == old(players)
      ensures Rules.ConfirmPair(old(Snapshot())) == if note.Some? then Ok(Snapshot(), note.value) else Throws(Snapshot())
    {
      if |selectedCatCards| != 2 {
        note := Some(NeedTwo);
        return;
      }
      var a, b := selectedCatCards[0], selectedCatCards[1];
      var hand := players[currentPlayerIndex].hand;
      if a >= |hand| || b >= |hand| {
        note := None;
        return;
      }
      if hand[a] != hand[b] {
        note := Some(Mismatch);
        return;
      }
      if a <= b {
        note := TakePair(a, b);
      } else {
        note := TakePair(b, a);
      }
    }

    /**
     * `removeCard(b)`, then `removeCard(a)` on the shortened hand; the two
     * cards go onto the discard pile and cat-pair mode ends. `None` stands
     * for the TypeError when `a` no longer lies inside the hand.
     */
    method TakePair(a: nat, b: nat) returns (note: Option<Note>)
      requires Valid() && |players| > 0
      requires a < |players[currentPlayerIndex].hand| && b < |players[currentPlayerIndex].hand|
      modifies this, players
      ensures Valid() && players == old(players)
      ensures Rules.TakePair(old(Snapshot()), a, b) == if note.Some? then Ok(Snapshot(), note.value) else Throws(Snapshot())
    {
      ghost var t := Snapshot();
      ghost var r1 := RemoveCardFrom(t.players[t.current], b);
      var first := RemoveCardAt(currentPlayerIndex, b);
      assert first == r1.1 && Views() == t.players[t.current := r1.0];
      if a >= |players[currentPlayerIndex].hand| {
        note := None;
        return;
      }
      ghost var r2 := RemoveCardFrom(r1.0, a);
      var second := RemoveCardAt(currentPlayerIndex, a);
      assert second == r2.1;
      assert Views() == t.players[t.current := r2.0];
      TakePairThen(t, a, b);
      var taken := ClosePair(first, second);
      note := Some(taken);
    }

    /** The two removed cards onto the discard pile and cat-pair mode ended, then the choice of a target. */
    method ClosePair(first: Card, second: Card) returns (note: Note)
      requires Valid() && |players| > 0
      modifies this
      ensures Valid() && players == old(players)
      ensures Rules.PairTaken(old(Snapshot()), old(Views())[currentPlayerIndex], first, second) == Ok(Snapshot(), note)
    {
      ghost var t := Snapshot();
      assert t.players[t.current := t.players[t.current]] == t.players;
      Discard([first, second]);
      CancelCombination();
      assert Snapshot() == t.(discard := t.discard + [first, second], comboMode := false, selected := [], actionTaken := false);
      note := ChooseTarget(StealTargets(Snapshot()));
    }

    /** `cancelCombination` */
    method CancelCombination()
      requires Valid()
      modifies this
      ensures Valid() && players == old(players)
      ensures Snapshot() == Rules.CancelCombination(old(Snapshot()))
    {
      combinationMode := false;
      selectedCatCards := [];
      isActionTaken := false;
    }

    // ------------------------------------------------------------- rounds

    /** `resetGame`: back to a game with nobody seated. */
    method ResetGame()
      modifies this
      ensures Valid() && Snapshot() == Blank
    {
      players := [];
      deck := [];
      discardPile := [];
      currentPlayerIndex := 0;
      turnsToMake := 1;
      combinationMode := false;
      selectedCatCards := [];
      isActionTaken := false;
    }

    /**
     * `nextRound`: the table cleared, every player back in with an empty
     * hand and no flags, then `createDeck(); dealCards()`.
     */
    method NextRound(cats: seq<CatVariant>, deckPicks: seq<nat>, dealPicks: seq<nat>)
      requires Valid() && SetupPicks(|players|, cats, deckPicks, dealPicks)
      modifies this, players
      ensures Valid() && players == old(players)
      ensures Snapshot() == Rules.NextRound(old(Snapshot()), cats, deckPicks, dealPicks)
    {
      ghost var t := Snapshot();
      NextRoundIsSetup(t, cats, deckPicks, dealPicks);
      ClearTable();
      RejoinAll();
      ghost var rejoined := Views();
      assert rejoined == Repeat(Fresh, |t.players|);
      StartRound(cats, deckPicks, dealPicks);
      assert Snapshot() == Start(rejoined, cats, deckPicks, dealPicks);
    }

    /** The field resets at the start of `nextRound`; the players stay seated. */
    method ClearTable()
      requires Valid()
      modifies this
      ensures Valid() && players == old(players)
      ensures Snapshot() == Blank.(players := Views())
    {
      deck := [];
      discardPile := [];
      currentPlayerIndex := 0;
      turnsToMake := 1;
      combinationMode := false;
      selectedCatCards := [];
      isActionTaken := false;
    }

    /** The `forEach` of `nextRound`: every player's hand emptied and flags reset. */
    method RejoinAll()
      requires Valid()
      modifies players
      ensures Views() == Repeat(Fresh, |players|)
    {
      var i := 0;
      while i < |players|
        invariant 0 <= i <= |players|
        invariant forall j :: 0 <= j < i ==> players[j].View() == Fresh
      {
        players[i].hand := [];
        players[i].isActive := true;
        players[i].hasDefuse := false;
        players[i].autoNope := false;
        i := i + 1;
      }
    }
  }

  /** On the last owed turn, `endTurn` moves to the seat the scan found. */
  lemma EndTurnTo(t: Table, next: nat)
    requires WellFormed(t) && t.turns - 1 <= 0 && NextActive(t.players, t.current) == Some(next)
    ensures Rules.EndTurn(t) == Ok(t.(turns := 1, current := next, actionTaken := false), Quiet)
  {
  }

  /** When both removals find a card, what follows only sees the actor's new hand. */
  lemma TakePairThen(t: Table, a: nat, b: nat)
    requires WellFormed(t) && a < |t.players[t.current].hand| && b < |t.players[t.current].hand|
    requires a < |t.players[t.current].hand| - 1
    ensures var r1 := RemoveCardFrom(t.players[t.current], b);
      var r2 := RemoveCardFrom(r1.0, a);
      Rules.TakePair(t, a, b) == PairTaken(t.(players := t.players[t.current := r2.0]), r2.0, r1.1, r2.1)
  {
  }

  /** The table a round starts with: the deal of the built deck, turn state reset. */
  lemma StartIsDeal(ps: seq<PlayerView>, cats: seq<CatVariant>, deckPicks: seq<nat>, dealPicks: seq<nat>)
    requires SetupPicks(|ps|, cats, deckPicks, dealPicks)
    ensures var r := Deal(ps, Rules.CreateDeck(cats, deckPicks), dealPicks);
      Start(ps, cats, deckPicks, dealPicks) == Table(r.0, r.1, [], 0, 1, false, false, [])
  {
  }

  /** The fields of the players `ps`, one after another. */
  function ViewsOf(ps: seq<Player>): (r: seq<PlayerView>)
    reads ps
    ensures |r| == |ps|
    ensures forall i :: 0 <= i < |ps| ==> r[i] == ps[i].View()
  {
    seq(|ps|, i reads ps requires 0 <= i < |ps| => ps[i].View())
  }

  /**
   * The loop of `shuffleDeck` and `shufflePlayers`:
   * `for (i = len - 1; i > 0; i--)` swap `i` with the draw `j` in `[0, i]`.
   */
  method FisherYatesLoop<T>(s: seq<T>, picks: seq<nat>) returns (r: seq<T>)
    requires ShufflePicks(picks) && |s| <= |picks| + 1
    ensures r == FisherYates(s, picks)
  {
    r := s;
    ghost var shuffled := FisherYates(s, picks);
    var i: int := |r| - 1;
    while i > 0
      invariant -1 <= i < |r| && |r| == |s|
      invariant i < 0 ==> r == s == []
      invariant 0 <= i ==> ShuffleFrom(r, picks, i) == shuffled
    {
      var j := picks[i - 1];
      ShuffleStep(r, picks, i);
      r := Swap(r, i, j);
      i := i - 1;
    }
    if i == 0 {
      assert ShuffleFrom(r, picks, 0) == r;
    }
  }

  /** One more player dealt to. */
  lemma DealPrefixStep(ps: seq<PlayerView>, deck: seq<Card>, i: nat)
    requires i < |ps|
    ensures var q := DealPrefix(ps, deck, i); var p := DealOne(q.0[i], q.1);
      DealPrefix(ps, deck, i + 1) == (q.0[i := p.0], p.1)
  {
  }

  /** The scan loop of `getNextPlayerIndex` over the players' fields. */
  method ScanSeats(vs: seq<PlayerView>, cur: nat) returns (next: nat)
    requires cur < |vs| && AnyActive(vs)
    ensures next < |vs| && NextActive(vs, cur) == Some(next)
  {
    NextActiveFacts(vs, cur);
    var n := |vs|;
    SeatStep(cur, 0, n);
    next := (cur + 1) % n;
    ghost var d := 1;
    while !vs[next].isActive
      invariant 1 <= d <= n && next == Pos(cur, d, n)
      invariant ScanFrom(vs, cur, d) == NextActive(vs, cur)
      decreases n - d
    {
      ScanPast(vs, cur, d);
      SeatStep(cur, d, n);
      next := (next + 1) % n;
      d := d + 1;
    }
    ScanHit(vs, cur, d);
  }

  /** An inactive seat is passed over, and some seat further on is active. */
  lemma ScanPast(vs: seq<PlayerView>, cur: nat, d: nat)
    requires cur < |vs| && 1 <= d <= |vs| && ScanFrom(vs, cur, d).Some?
    requires !vs[Pos(cur, d, |vs|)].isActive
    ensures d < |vs| && ScanFrom(vs, cur, d) == ScanFrom(vs, cur, d + 1)
  {
  }

  /** The scan stops at an active seat. */
  lemma ScanHit(vs: seq<PlayerView>, cur: nat, d: nat)
    requires cur < |vs| && 1 <= d <= |vs| && vs[Pos(cur, d, |vs|)].isActive
    ensures ScanFrom(vs, cur, d) == Some(Pos(cur, d, |vs|))
  {
  }

  /** `(x + 1) % n` from the seat `d` after `cur` is the seat `d + 1` after it. */
  lemma SeatStep(cur: nat, d: nat, n: nat)
    requires cur < n && d < n
    ensures (Pos(cur, d, n) + 1) % n == Pos(cur, d + 1, n)
  {
    SeatAfter(Pos(cur, d, n), n);
  }

  /** `(x + 1) % n` is the seat after `x`. */
  lemma SeatAfter(x: nat, n: nat)
    requires x < n
    ensures (x + 1) % n == if x + 1 < n then x + 1 else 0
  {
  }
}
