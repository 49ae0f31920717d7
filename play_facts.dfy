/**
 * What `drawCard` and `playCard` do: the turn lock, the three ways a
 * draw ends, the effect of each card type, and the automatic Nope.
 */
module PlayFacts {
  import opened Seqs
  import opened Cards
  import opened Players
  import opened Rules
  import opened TurnFacts

  // ------------------------------------------------------------------ drawing

  /** An empty deck or the turn lock make `drawCard` change nothing. */
  lemma DrawIdle(t: Table, insertAt: nat)
    requires WellFormed(t)
    requires |t.deck| > 0 ==> KittenSpot(|t.deck| - 1, insertAt)
    requires |t.deck| == 0 || Locked(t)
    ensures Draw(t, insertAt).Ok? && Draw(t, insertAt).t == t
    ensures Draw(t, insertAt).note == if |t.deck| == 0 then DeckEmpty else Quiet
  {
  }

  /**
   * When it draws something other than a Kitten, the card goes to the end
   * of the hand and the turn ends as `endTurn` ends it: one owed turn fewer
   * for the same player, or the next active player with one turn.
   */
  lemma DrawSafeCard(t: Table, insertAt: nat)
    requires WellFormed(t) && |t.deck| > 0 && KittenSpot(|t.deck| - 1, insertAt) && !Locked(t)
    requires Last(t.deck) != Kitten
    ensures var s := Draw(t, insertAt);
      s.Spins? || (
        && s.Ok? && s.note == Drew(Last(t.deck))
        && s.t.deck == Front(t.deck) && s.t.discard == t.discard
        && s.t.players == t.players[t.current := AddCardTo(t.players[t.current], Last(t.deck))]
        && !s.t.actionTaken
        && (t.turns > 1 ==> s.t.current == t.current && s.t.turns == t.turns - 1)
        && (t.turns <= 1 ==> s.t.turns == 1 && NextActive(t.players, t.current) == Some(s.t.current)))
  {
    var t1 := t.(deck := Front(t.deck), actionTaken := true);
    var t2 := t1.(players := t1.players[t.current := AddCardTo(t1.players[t.current], Last(t.deck))]);
    EndTurnKeeps(t2);
    NextActiveSameFlags(t.players, t2.players, t.current);
  }

  /**
   * A drawn Kitten with the Defuse flag set and a Defuse in hand: the first
   * Defuse goes onto the discard pile, the Kitten back into the deck at the
   * chosen spot (so the deck keeps its length), and the turn ends as
   * `endTurn` ends it.
   */
  lemma DrawKittenDefused(t: Table, insertAt: nat)
    requires WellFormed(t) && |t.deck| > 0 && KittenSpot(|t.deck| - 1, insertAt) && !Locked(t)
    requires Last(t.deck) == Kitten
    requires t.players[t.current].hasDefuse && Defuse in t.players[t.current].hand
    ensures var s := Draw(t, insertAt);
      var p := t.players[t.current];
      s.Spins? || (
        && s.Ok? && s.note == Defused(t.current)
        && s.t.deck == InsertAt(Front(t.deck), insertAt, Kitten) && |s.t.deck| == |t.deck|
        && s.t.discard == t.discard + [Defuse]
        && s.t.players == t.players[t.current := RemoveCardFrom(p, FirstIndexOf(p.hand, Defuse).value).0]
        && !s.t.actionTaken
        && (t.turns > 1 ==> s.t.current == t.current && s.t.turns == t.turns - 1)
        && (t.turns <= 1 ==> s.t.turns == 1 && NextActive(t.players, t.current) == Some(s.t.current)))
  {
    var t1 := t.(deck := Front(t.deck), actionTaken := true);
    var p := t.players[t.current];
    var di := FirstIndexOf(p.hand, Defuse).value;
    var r := RemoveCardFrom(p, di);
    var t2 := t1.(players := t1.players[t.current := r.0], discard := t1.discard + [r.1],
                  deck := InsertAt(t1.deck, insertAt, Kitten));
    EndTurnKeeps(t2);
    NextActiveSameFlags(t.players, t2.players, t.current);
  }

  /**
   * A drawn Kitten without the Defuse flag, or without a Defuse in hand: the
   * player is out and the Kitten goes onto the discard pile. Either the game
   * is over, with the last active player as winner and the turn left as it
   * was (still locked), or the turn ends as `endTurn` ends it: one owed turn
   * fewer for the same player, or the next active player with one turn.
   */
  lemma DrawKittenExplodes(t: Table, insertAt: nat)
    requires WellFormed(t) && |t.deck| > 0 && KittenSpot(|t.deck| - 1, insertAt) && !Locked(t)
    requires Last(t.deck) == Kitten
    requires !(t.players[t.current].hasDefuse && Defuse in t.players[t.current].hand)
    ensures var s := Draw(t, insertAt);
      var ps := t.players[t.current := t.players[t.current].(isActive := false)];
      s.Spins? || (
        && s.Ok? && s.t.players == ps
        && s.t.deck == Front(t.deck) && s.t.discard == t.discard + [Kitten]
        && (if CheckGameEnd(ps) then
              && s.note.GameOver? && OnlyActive(ps, s.note.winner)
              && s.t.current == t.current && s.t.turns == t.turns && s.t.actionTaken
            else
              && s.note == Exploded(t.current) && !s.t.actionTaken
              && (t.turns > 1 ==> s.t.current == t.current && s.t.turns == t.turns - 1)
              && (t.turns <= 1 ==> s.t.turns == 1 && NextActive(ps, t.current) == Some(s.t.current))))
  {
    var ps := t.players[t.current := t.players[t.current].(isActive := false)];
    var t1 := t.(deck := Front(t.deck), actionTaken := true, players := ps, discard := t.discard + [Kitten]);
    if CheckGameEnd(ps) {
      WinnerIsLastActive(ps);
    } else {
      EndTurnKeeps(t1);
    }
  }

  /**
   * A player who explodes while still owing turns (after an Attack) stays
   * the current player, out of the game, with one turn fewer owed.
   */
  lemma ExplodedKeepsExtraTurns(t: Table, insertAt: nat)
    requires WellFormed(t) && |t.deck| > 0 && KittenSpot(|t.deck| - 1, insertAt) && t.turns > 1
    requires Last(t.deck) == Kitten
    requires !(t.players[t.current].hasDefuse && Defuse in t.players[t.current].hand)
    ensures var s := Draw(t, insertAt);
      && s.Ok? && s.t.current == t.current && !s.t.players[t.current].isActive
      && (s.note == Exploded(t.current) ==> s.t.turns == t.turns - 1)
  {
  }

  /** `hasDefuse` goes stale: after one of two Defuses is played, a drawn Kitten explodes its holder. */
  lemma StaleDefuseFlag()
    ensures var t := Table([PlayerView([Defuse, Defuse], true, true, false), PlayerView([], true, false, false)],
                           [Kitten], [], 0, 2, false, false, []);
      var s := PlayCardWithoutNope(t, 0, []);
      && s.Ok? && s.t.current == 0 && s.t.players[0].hand == [Defuse] && !s.t.players[0].hasDefuse
      && var d := Draw(s.t, 0);
         d.Ok? && !d.t.players[0].isActive && d.t.players[0].hand == [Defuse] && d.note.GameOver?
  {
    var t := Table([PlayerView([Defuse, Defuse], true, true, false), PlayerView([], true, false, false)],
                   [Kitten], [], 0, 2, false, false, []);
    var s := PlayCardWithoutNope(t, 0, []);
    assert RemoveAt([Defuse, Defuse], 0) == [Defuse];
    assert FirstIndexOf([Defuse], Defuse) == Some(0);
    var ps := s.t.players[0 := s.t.players[0].(isActive := false)];
    assert ActiveFlags(ps) == [false, true];
    assert IndicesWhere([false, true]) == [1];
  }

  // ------------------------------------------------------------------ playing

  /** Under the turn lock both versions of `playCard` change nothing. */
  lemma PlayLocked(t: Table, index: nat, nopePick: nat, picks: seq<nat>)
    requires WellFormed(t) && index < |t.players[t.current].hand|
    requires NopePick(NopeHolders(t), nopePick)
    requires ShufflePicks(picks) && |t.deck| <= |picks| + 1
    requires Locked(t)
    ensures PlayCard(t, index, nopePick, picks) == Ok(t, Quiet)
    ensures PlayCardWithoutNope(t, index, picks) == Ok(t, Quiet)
  {
  }

  /**
   * Without the lock, the version without Nope takes `hand[index]` out of
   * the hand and puts it on the discard pile before the card takes effect.
   */
  lemma PlayDiscardsFirst(t: Table, index: nat, picks: seq<nat>)
    requires WellFormed(t) && index < |t.players[t.current].hand|
    requires ShufflePicks(picks) && |t.deck| <= |picks| + 1
    requires !Locked(t)
    ensures var p := t.players[t.current];
      var c := p.hand[index];
      var t1 := t.(players := t.players[t.current := RemoveCardFrom(p, index).0], discard := t.discard + [c]);
      && t1.players[t.current].hand == RemoveAt(p.hand, index)
      && PlayCardWithoutNope(t, index, picks) == Dispatch(t1, c, picks)
  {
  }

  /** Skip and the cards without an effect of their own take the action and end the turn. */
  lemma DispatchEndsTurn(t: Table, card: Card, picks: seq<nat>)
    requires WellFormed(t) && ShufflePicks(picks) && |t.deck| <= |picks| + 1
    requires card != Attack && card != Shuffle && card != Future && card != Favor
    ensures Dispatch(t, card, picks) == EndTurn(t.(actionTaken := true))
  {
  }

  /**
   * Shuffle, Future and Favor release the lock and keep the turn: same
   * player, same turns owed, same hands and discard pile. Only a Shuffle
   * touches the deck, and it only reorders it.
   */
  lemma DispatchKeepsTurn(t: Table, card: Card, picks: seq<nat>)
    requires WellFormed(t) && ShufflePicks(picks) && |t.deck| <= |picks| + 1
    requires card == Shuffle || card == Future || card == Favor
    ensures var s := Dispatch(t, card, picks);
      && s.Ok? && s.t.current == t.current && s.t.turns == t.turns && !s.t.actionTaken
      && s.t.players == t.players && s.t.discard == t.discard
      && multiset(s.t.deck) == multiset(t.deck) && |s.t.deck| == |t.deck|
      && (card != Shuffle ==> s.t.deck == t.deck)
      && (card == Future ==> s.note == Peek(TopThree(t.deck)))
      && (card == Favor ==> s.note == ChooseTarget(StealTargets(t)))
  {
  }

  /**
   * The Future peek shows the top three cards, topmost first, and leaves
   * the deck alone; closing it leaves the lock released.
   */
  lemma FuturePeek(t: Table, picks: seq<nat>)
    requires WellFormed(t) && ShufflePicks(picks) && |t.deck| <= |picks| + 1
    ensures var s := Dispatch(t, Future, picks);
      && s.Ok? && s.t.deck == t.deck && s.note.Peek?
      && |s.note.cards| == (if |t.deck| < 3 then |t.deck| else 3)
      && (forall k :: 0 <= k < |s.note.cards| ==> s.note.cards[k] == t.deck[|t.deck| - 1 - k])
      && !Locked(AcknowledgeFuture(s.t)) && AcknowledgeFuture(s.t).deck == t.deck
  {
  }

  // ------------------------------------------------------------ automatic Nope

  /**
   * When an active opponent with automatic Nope holds a Nope, the played
   * card is cancelled: it and that opponent's first Nope go onto the
   * discard pile, the deck is untouched (a cancelled Shuffle leaves its
   * order), the two players' flags change only as `removeCard` changes
   * them, nobody else's hand changes, and the turn ends as `endTurn`
   * ends it: one owed turn fewer for the same player, or the next active
   * player with one turn.
   */
  lemma NopeCancels(t: Table, index: nat, nopePick: nat, picks: seq<nat>)
    requires WellFormed(t) && index < |t.players[t.current].hand|
    requires NopePick(NopeHolders(t), nopePick)
    requires ShufflePicks(picks) && |t.deck| <= |picks| + 1
    requires !Locked(t) && Cancellable(t.players[t.current].hand[index]) && |NopeHolders(t)| > 0
    ensures var s := PlayCard(t, index, nopePick, picks);
      var c := t.players[t.current].hand[index];
      var o := NopeHolders(t)[nopePick];
      && o != t.current && t.players[o].isActive && t.players[o].autoNope && HoldsNope(t.players[o])
      && (s.Spins? || (
        && s.Ok? && s.note == Cancelled(c, o)
        && s.t.deck == t.deck && s.t.discard == t.discard + [c, Nope] && |s.t.players| == |t.players|
        && s.t.players[t.current].hand == RemoveAt(t.players[t.current].hand, index)
        && s.t.players[o].hand == RemoveAt(t.players[o].hand, FirstIndexOf(t.players[o].hand, Nope).value)
        && s.t.players[t.current] == RemoveCardFrom(t.players[t.current], index).0
        && s.t.players[o] == RemoveCardFrom(t.players[o], FirstIndexOf(t.players[o].hand, Nope).value).0
        && (forall j :: 0 <= j < |t.players| && j != t.current && j != o ==> s.t.players[j] == t.players[j])
        && !s.t.actionTaken
        && (t.turns > 1 ==> s.t.current == t.current && s.t.turns == t.turns - 1)
        && (t.turns <= 1 ==> s.t.turns == 1 && NextActive(t.players, t.current) == Some(s.t.current))))
  {
    var r := RemoveCardFrom(t.players[t.current], index);
    var t1 := t.(players := t.players[t.current := r.0]);
    NopeHoldersIgnoreActor(t, r.0);
    var o := NopeHolders(t)[nopePick];
    assert o in NopeHolders(t);
    var h := RemoveCardFrom(t1.players[o], FirstIndexOf(t1.players[o].hand, Nope).value);
    var t2 := t1.(players := t1.players[o := h.0], discard := t1.discard + [r.1, h.1], actionTaken := true);
    EndTurnKeeps(t2);
    NextActiveSameFlags(t.players, t2.players, t.current);
  }

  /** Without a Nope to come, `playCard` is exactly the version without Nope. */
  lemma NoNopeSameGame(t: Table, index: nat, nopePick: nat, picks: seq<nat>)
    requires WellFormed(t) && index < |t.players[t.current].hand|
    requires NopePick(NopeHolders(t), nopePick)
    requires ShufflePicks(picks) && |t.deck| <= |picks| + 1
    requires NopeHolders(t) == [] || !Cancellable(t.players[t.current].hand[index])
    ensures PlayCard(t, index, nopePick, picks) == PlayCardWithoutNope(t, index, picks)
  {
    NopeHoldersIgnoreActor(t, RemoveCardFrom(t.players[t.current], index).0);
  }

  /** Nobody has automatic Nope on, as after setup: nobody is a Nope holder. */
  lemma AutoNopeOffNoHolders(t: Table)
    requires forall j :: 0 <= j < |t.players| ==> !t.players[j].autoNope
    ensures NopeHolders(t) == []
  {
    if NopeHolders(t) != [] {
      FirstHolder(t);
      assert false;
    }
  }

  /** The first Nope holder is a player with automatic Nope on. */
  lemma FirstHolder(t: Table)
    requires NopeHolders(t) != []
    ensures NopeHolders(t)[0] < |t.players| && t.players[NopeHolders(t)[0]].autoNope
  {
    assert NopeHolders(t)[0] in NopeHolders(t);
  }

  /**
   * The checkbox changes one flag of one player, and with it whether that
   * player can be chosen to Nope: when off never, when on exactly when they
   * are an active opponent holding a Nope.
   */
  lemma AutoNopeDecidesHolder(t: Table, i: nat, on: bool)
    requires WellFormed(t) && i < |t.players|
    ensures var t1 := SetAutoNope(t, i, on);
      && |t1.players| == |t.players|
      && t1.players[i] == t.players[i].(autoNope := on)
      && (forall j :: 0 <= j < |t.players| && j != i ==> t1.players[j] == t.players[j])
      && t1 == t.(players := t1.players)
      && (i in NopeHolders(t1) <==> on && i != t.current && t.players[i].isActive && HoldsNope(t.players[i]))
      && (forall j :: j != i ==> (j in NopeHolders(t1) <==> j in NopeHolders(t)))
  {
    var t1 := SetAutoNope(t, i, on);
    assert HoldsNope(t1.players[i]) == HoldsNope(t.players[i]);
  }
}
