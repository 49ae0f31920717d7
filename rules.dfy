/**
 * The rules engine as pure transitions on a snapshot of the game.
 *
 * A `Table` holds the value of every field the engine mutates: the
 * players' hands and flags, the deck (top = last element), the discard
 * pile, `currentPlayerIndex`, `turnsToMake`, `isActionTaken`,
 * `combinationMode` and `selectedCatCards`. Each function below is one
 * engine operation, with the acknowledgement callbacks of its messages
 * run at once, and every `Math.random` draw passed in as a parameter.
 */
module Rules {
  import opened Seqs
  import opened Cards
  import opened Players
  import opened DeckFacts

  datatype Table = Table(
    players: seq<PlayerView>,
    deck: seq<Card>,
    discard: seq<Card>,
    current: nat,
    turns: int,
    actionTaken: bool,
    comboMode: bool,
    selected: seq<nat>)

  /** A game before `init` and after `resetGame`: nobody seated, no cards, one turn owed. */
  const Blank := Table([], [], [], 0, 1, false, false, [])

  /** There are players and the current index names one of them. */
  predicate WellFormed(t: Table)
  {
    0 < |t.players| && t.current < |t.players|
  }

  /** The message an operation shows the user (none for a silent return). */
  datatype Note =
    | Quiet
    | DeckEmpty
    | Drew(card: Card)
    | Defused(player: nat)
    | Exploded(player: nat)
    | GameOver(winner: nat)
    | Cancelled(card: Card, holder: nat)
    | Peek(cards: seq<Card>)
    | ChooseTarget(candidates: seq<nat>)
    | NothingToGive(target: nat)
    | Received(card: Card, from: nat)
    | NeedTwo
    | Mismatch

  /**
   * How an operation ends: normally, with a TypeError thrown out of the
   * click handler (the state it leaves behind stays in place), or spinning
   * forever in `getNextPlayerIndex` because no player is active.
   */
  datatype Step = Ok(t: Table, note: Note) | Throws(t: Table) | Spins

  function WithNote(s: Step, n: Note): Step
  {
    if s.Ok? then Ok(s.t, n) else s
  }

  // ---------------------------------------------------------------- turn order

  /** The index `d` seats after `cur` around a table of `n`. */
  function Pos(cur: nat, d: nat, n: nat): nat
    requires cur < n && d <= n
  {
    if cur + d < n then cur + d else cur + d - n
  }

  /** How many seats after `cur` seat `j` comes, between 1 and `n` (`cur` itself is `n`). */
  function Dist(cur: nat, j: nat, n: nat): nat
    requires cur < n && j < n
  {
    if cur < j then j - cur else j + n - cur
  }

  predicate AnyActive(ps: seq<PlayerView>)
  {
    exists j :: 0 <= j < |ps| && ps[j].isActive
  }

  /** The `while (!players[next].isActive)` scan from the seat `d` after `cur` on. */
  function ScanFrom(ps: seq<PlayerView>, cur: nat, d: nat): Option<nat>
    requires cur < |ps| && 1 <= d <= |ps| + 1
    decreases |ps| + 1 - d
  {
    if d > |ps| then None
    else if ps[Pos(cur, d, |ps|)].isActive then Some(Pos(cur, d, |ps|))
    else ScanFrom(ps, cur, d + 1)
  }

  /**
   * `getNextPlayerIndex`: the first active player after `cur`, going round
   * the table and ending with `cur` itself; `None` where the source loops forever.
   */
  function NextActive(ps: seq<PlayerView>, cur: nat): Option<nat>
    requires cur < |ps|
  {
    ScanFrom(ps, cur, 1)
  }

  /** `endTurn` */
  function EndTurn(t: Table): Step
    requires WellFormed(t)
  {
    if t.turns - 1 > 0 then Ok(t.(turns := t.turns - 1, actionTaken := false), Quiet)
    else
      match NextActive(t.players, t.current)
      case None => Spins
      case Some(j) => Ok(t.(turns := 1, current := j, actionTaken := false), Quiet)
  }

  // ------------------------------------------------------------- end of game

  function ActiveFlags(ps: seq<PlayerView>): seq<bool>
  {
    seq(|ps|, i requires 0 <= i < |ps| => ps[i].isActive)
  }

  /** `players.filter(p => p.isActive)`, as indices. */
  function ActivePlayers(ps: seq<PlayerView>): (r: seq<nat>)
    ensures forall i :: i in r <==> 0 <= i < |ps| && ps[i].isActive
    ensures forall a, b :: 0 <= a < b < |r| ==> r[a] < r[b]
  {
    IndicesWhere(ActiveFlags(ps))
  }

  /** `checkGameEnd` */
  predicate CheckGameEnd(ps: seq<PlayerView>)
  {
    |ActivePlayers(ps)| == 1
  }

  /** `getWinner`: `players.find(p => p.isActive)`, as an index. */
  function Winner(ps: seq<PlayerView>): (r: Option<nat>)
    ensures r.None? <==> !AnyActive(ps)
    ensures r.Some? ==> r.value < |ps| && ps[r.value].isActive
    ensures r.Some? ==> forall j :: 0 <= j < r.value ==> !ps[j].isActive
  {
    var a := ActivePlayers(ps);
    if a == [] then None
    else
      assert a[0] in a;
      assert forall j :: 0 <= j < |ps| && ps[j].isActive ==> j in a;
      Some(a[0])
  }

  // ------------------------------------------------------------------ drawing

  /** A draw of `floor(random() * len)`: below `len`, or 0 when `len` is 0. */
  predicate KittenSpot(len: nat, k: nat)
  {
    k == 0 || k < len
  }

  /** `drawCard`, with the callback of the drawn-card modal run at once. */
  function Draw(t: Table, insertAt: nat): Step
    requires WellFormed(t)
    requires |t.deck| > 0 ==> KittenSpot(|t.deck| - 1, insertAt)
  {
    if |t.deck| == 0 then Ok(t, DeckEmpty)
    else if t.actionTaken && t.turns == 1 then Ok(t, Quiet)
    else
      var card := Last(t.deck);
      var t1 := t.(deck := Front(t.deck), actionTaken := true);
      if card == Kitten then HandleKitten(t1, t.current, insertAt)
      else
        var t2 := t1.(players := t1.players[t.current := AddCardTo(t1.players[t.current], card)]);
        WithNote(EndTurn(t2), Drew(card))
  }

  /** `handleKitten` for player `p`, with its alert callbacks run at once. */
  function HandleKitten(t: Table, p: nat, insertAt: nat): Step
    requires WellFormed(t) && p < |t.players|
    requires KittenSpot(|t.deck|, insertAt)
  {
    var di := FirstIndexOf(t.players[p].hand, Defuse);
    if t.players[p].hasDefuse && di.Some? then DefuseKitten(t, p, di.value, insertAt)
    else Explode(t, p)
  }

  /** The Defuse at `di` goes to the discard pile and the Kitten back into the deck at `insertAt`. */
  function DefuseKitten(t: Table, p: nat, di: nat, insertAt: nat): Step
    requires WellFormed(t) && p < |t.players| && di < |t.players[p].hand|
    requires KittenSpot(|t.deck|, insertAt)
  {
    var r := RemoveCardFrom(t.players[p], di);
    var t1 := t.(players := t.players[p := r.0],
                 discard := t.discard + [r.1],
                 deck := InsertAt(t.deck, insertAt, Kitten));
    WithNote(EndTurn(t1), Defused(p))
  }

  /** Player `p` is out and the Kitten is discarded; the game ends if one player is left. */
  function Explode(t: Table, p: nat): Step
    requires WellFormed(t) && p < |t.players|
  {
    var t1 := t.(players := t.players[p := t.players[p].(isActive := false)], discard := t.discard + [Kitten]);
    if CheckGameEnd(t1.players) then
      GameEndHasWinner(t1.players);
      Ok(t1, GameOver(Winner(t1.players).value))
    else
      WithNote(EndTurn(t1), Exploded(p))
  }

  lemma GameEndHasWinner(ps: seq<PlayerView>)
    requires CheckGameEnd(ps)
    ensures Winner(ps).Some?
  {
    var a := ActivePlayers(ps);
    assert a[0] in a;
  }

  // ------------------------------------------------------------------ playing

  /** The opponents an automatic Nope may come from. */
  function NopeHolders(t: Table): (r: seq<nat>)
    ensures forall i :: i in r <==>
      0 <= i < |t.players| && t.players[i].isActive && i != t.current
      && t.players[i].autoNope && HoldsNope(t.players[i])
    ensures forall a :: 0 <= a < |r| ==> r[a] < |t.players|
  {
    IndicesWhere(seq(|t.players|, i requires 0 <= i < |t.players| =>
      t.players[i].isActive && i != t.current && t.players[i].autoNope && HoldsNope(t.players[i])))
  }

  /** The candidates of `showPlayerSelection`: active opponents with a card in hand. */
  function StealTargets(t: Table): (r: seq<nat>)
    ensures forall i :: i in r <==>
      0 <= i < |t.players| && t.players[i].isActive && i != t.current && |t.players[i].hand| > 0
    ensures forall a, b :: 0 <= a < b < |r| ==> r[a] < r[b]
  {
    IndicesWhere(seq(|t.players|, i requires 0 <= i < |t.players| =>
      t.players[i].isActive && i != t.current && |t.players[i].hand| > 0))
  }

  /** A uniform draw among the Nope holders (any value when there are none). */
  predicate NopePick(holders: seq<nat>, k: nat)
  {
    holders == [] || k < |holders|
  }

  /** `deck.slice(-3).reverse()`: the top three cards, top first. */
  function TopThree(deck: seq<Card>): (r: seq<Card>)
    ensures |r| == if |deck| < 3 then |deck| else 3
    ensures forall k :: 0 <= k < |r| ==> r[k] == deck[|deck| - 1 - k]
  {
    Reverse(deck[|deck| - (if |deck| < 3 then |deck| else 3)..])
  }

  /** The `switch (card.type)` of `playCard`, once the card is on the discard pile. */
  function Dispatch(t: Table, card: Card, picks: seq<nat>): Step
    requires WellFormed(t)
    requires ShufflePicks(picks) && |t.deck| <= |picks| + 1
  {
    match card
    case Attack =>
      (match NextActive(t.players, t.current)
       case None => Spins
       case Some(j) =>
         Ok(t.(turns := if t.turns > 0 then t.turns + 1 else 2, current := j, actionTaken := false), Quiet))
    case Skip => EndTurn(t.(actionTaken := true))
    case Shuffle => Ok(t.(deck := FisherYates(t.deck, picks), actionTaken := false), Quiet)
    case Future => Ok(t.(actionTaken := false), Peek(TopThree(t.deck)))
    case Favor => Ok(t.(actionTaken := false), ChooseTarget(StealTargets(t)))
    case _ => EndTurn(t.(actionTaken := true))
  }

  /** The turn lock: one action taken and no extra turn owed. */
  predicate Locked(t: Table)
  {
    t.actionTaken && t.turns == 1
  }

  /** `playCard` with the automatic Nope step. */
  function PlayCard(t: Table, index: nat, nopePick: nat, picks: seq<nat>): Step
    requires WellFormed(t) && index < |t.players[t.current].hand|
    requires NopePick(NopeHolders(t), nopePick)
    requires ShufflePicks(picks) && |t.deck| <= |picks| + 1
  {
    if Locked(t) then Ok(t, Quiet)
    else
      var r := RemoveCardFrom(t.players[t.current], index);
      var t1 := t.(players := t.players[t.current := r.0]);
      NopeHoldersIgnoreActor(t, r.0);
      var holders := NopeHolders(t1);
      if Cancellable(r.1) && |holders| > 0 then
        var o := holders[nopePick];
        assert o in holders;
        NopeCancel(t1, r.1, o)
      else Discarded(t1, r.1, picks)
  }

  /**
   * The Nope of player `o` cancels `card`: `o` loses their first Nope,
   * both cards go on the discard pile and the turn ends.
   */
  function NopeCancel(t: Table, card: Card, o: nat): Step
    requires WellFormed(t) && o < |t.players| && HoldsNope(t.players[o])
  {
    var h := RemoveCardFrom(t.players[o], FirstIndexOf(t.players[o].hand, Nope).value);
    var t1 := t.(players := t.players[o := h.0], discard := t.discard + [card, h.1], actionTaken := true);
    WithNote(EndTurn(t1), Cancelled(card, o))
  }

  /** The actor is never among the Nope holders, so their own hand does not matter. */
  lemma NopeHoldersIgnoreActor(t: Table, actor: PlayerView)
    requires WellFormed(t)
    ensures NopeHolders(t.(players := t.players[t.current := actor])) == NopeHolders(t)
  {
    var t1 := t.(players := t.players[t.current := actor]);
    var f1 := seq(|t1.players|, i requires 0 <= i < |t1.players| =>
      t1.players[i].isActive && i != t1.current && t1.players[i].autoNope && HoldsNope(t1.players[i]));
    var f := seq(|t.players|, i requires 0 <= i < |t.players| =>
      t.players[i].isActive && i != t.current && t.players[i].autoNope && HoldsNope(t.players[i]));
    assert f1 == f;
  }

  /** `playCard` of the version without Nope: discard, then dispatch. */
  function PlayCardWithoutNope(t: Table, index: nat, picks: seq<nat>): Step
    requires WellFormed(t) && index < |t.players[t.current].hand|
    requires ShufflePicks(picks) && |t.deck| <= |picks| + 1
  {
    if Locked(t) then Ok(t, Quiet)
    else
      var r := RemoveCardFrom(t.players[t.current], index);
      Discarded(t.(players := t.players[t.current := r.0]), r.1, picks)
  }

  /** The played card, already out of the hand, goes onto the discard pile and takes effect. */
  function Discarded(t: Table, card: Card, picks: seq<nat>): Step
    requires WellFormed(t)
    requires ShufflePicks(picks) && |t.deck| <= |picks| + 1
  {
    Dispatch(t.(discard := t.discard + [card]), card, picks)
  }

  /** Closing the Future modal. */
  function AcknowledgeFuture(t: Table): Table
  {
    t.(actionTaken := false)
  }

  /** A uniform draw from the target's hand (any value when it is empty). */
  predicate StealPick(len: nat, k: nat)
  {
    len == 0 || k < len
  }

  /**
   * `handleFavorCard` and `handleCatSteal` (the same code): the chosen
   * card of the target goes to the end of the current player's hand.
   */
  function Steal(t: Table, target: nat, pick: nat): Step
    requires WellFormed(t) && target < |t.players|
    requires StealPick(|t.players[target].hand|, pick)
  {
    var victim := t.players[target];
    if victim.hand == [] then Ok(t.(actionTaken := false), NothingToGive(target))
    else
      var (victim', c) := RemoveCardFrom(victim, pick);
      var ps := t.players[target := victim'];
      Ok(t.(players := ps[t.current := AddCardTo(ps[t.current], c)], actionTaken := false), Received(c, target))
  }

  /** The per-player "auto-Nope" checkbox. */
  function SetAutoNope(t: Table, i: nat, on: bool): Table
    requires i < |t.players|
  {
    t.(players := t.players[i := t.players[i].(autoNope := on)])
  }

  // ------------------------------------------------------------- cat pairs

  /** `toggleCombinationMode` */
  function ToggleCombinationMode(t: Table): Table
  {
    var on := !t.comboMode;
    t.(comboMode := on, selected := if on then t.selected else [], actionTaken := false)
  }

  /** `toggleCatCardSelection` */
  function ToggleCatCardSelection(t: Table, index: nat): Table
  {
    if index in t.selected then t.(selected := Without(t.selected, index))
    else if |t.selected| < 2 then t.(selected := t.selected + [index])
    else t
  }

  /**
   * `confirmCombination` as written: it removes `selected[1]`, then
   * `selected[0]` from the hand as it is after the first removal.
   */
  function ConfirmCombination(t: Table): Step
    requires WellFormed(t)
  {
    if |t.selected| != 2 then Ok(t, NeedTwo)
    else
      var a, b := t.selected[0], t.selected[1];
      var p := t.players[t.current];
      if a >= |p.hand| || b >= |p.hand| then Throws(t)
      else if p.hand[a] != p.hand[b] then Ok(t, Mismatch)
      else TakePair(t, a, b)
  }

  /**
   * `confirmCombination` with the removals in the order that keeps the
   * second index valid: the higher index first, then the lower one.
   */
  function ConfirmPair(t: Table): Step
    requires WellFormed(t)
  {
    if |t.selected| != 2 then Ok(t, NeedTwo)
    else
      var a, b := t.selected[0], t.selected[1];
      var p := t.players[t.current];
      if a >= |p.hand| || b >= |p.hand| then Throws(t)
      else if p.hand[a] != p.hand[b] then Ok(t, Mismatch)
      else if a <= b then TakePair(t, a, b)
      else TakePair(t, b, a)
  }

  /** The removals of `confirmCombination`: `removeCard(b)`, then `removeCard(a)` on the shortened hand. */
  function TakePair(t: Table, a: nat, b: nat): Step
    requires WellFormed(t) && a < |t.players[t.current].hand| && b < |t.players[t.current].hand|
  {
    var r1 := RemoveCardFrom(t.players[t.current], b);
    if a >= |r1.0.hand| then Throws(t.(players := t.players[t.current := r1.0]))
    else
      var r2 := RemoveCardFrom(r1.0, a);
      PairTaken(t, r2.0, r1.1, r2.1)
  }

  /** The actor's hand becomes `hand`, the two cards go onto the discard pile, cat-pair mode ends. */
  function PairTaken(t: Table, hand: PlayerView, c1: Card, c2: Card): Step
    requires WellFormed(t)
  {
    var t1 := t.(players := t.players[t.current := hand], discard := t.discard + [c1, c2],
                 comboMode := false, selected := [], actionTaken := false);
    Ok(t1, ChooseTarget(StealTargets(t1)))
  }

  /** `cancelCombination` */
  function CancelCombination(t: Table): Table
  {
    t.(comboMode := false, selected := [], actionTaken := false)
  }

  // ------------------------------------------------------------ setting up

  /** `createDeck`: the base deck, shuffled. */
  function CreateDeck(cats: seq<CatVariant>, picks: seq<nat>): seq<Card>
    requires |cats| == CatCount && ShufflePicks(picks) && 46 <= |picks| + 1
  {
    BaseDeckLength(cats);
    FisherYates(BaseDeck(cats), picks)
  }

  /**
   * The inner loop of `dealCards`: `k` times, `if (deck.length) addCard(deck.pop())`.
   * The player receives the top `min(k, |deck|)` cards, topmost first.
   */
  function DrawInto(p: PlayerView, deck: seq<Card>, k: nat): (PlayerView, seq<Card>)
  {
    DrawTop(p, deck, if k <= |deck| then k else |deck|)
  }

  /** The top `n` cards of the deck, topmost first, appended to the hand. */
  function DrawTop(p: PlayerView, deck: seq<Card>, n: nat): (r: (PlayerView, seq<Card>))
    requires n <= |deck|
  {
    var drawn := Reverse(deck[|deck| - n..]);
    (p.(hand := p.hand + drawn, hasDefuse := p.hasDefuse || Defuse in drawn), deck[..|deck| - n])
  }

  /** The players and deck once `dealCards` has served the first `i` players. */
  function DealPrefix(ps: seq<PlayerView>, deck: seq<Card>, i: nat): (r: (seq<PlayerView>, seq<Card>))
    requires i <= |ps|
    ensures |r.0| == |ps| && |r.1| <= |deck|
    decreases i
  {
    if i == 0 then (ps, deck)
    else
      var q := DealPrefix(ps, deck, i - 1);
      var p := DealOne(q.0[i - 1], q.1);
      (q.0[i - 1 := p.0], p.1)
  }

  /** One player's turn in `dealCards`: seven cards from the top of the deck, then a Defuse. */
  function DealOne(p: PlayerView, deck: seq<Card>): (r: (PlayerView, seq<Card>))
    ensures |r.1| <= |deck|
  {
    var q := DrawInto(p, deck, 7);
    (AddCardTo(q.0, Defuse), q.1)
  }

  /** Defuse cards `dealCards` adds to the deck: `6 - players.length` loop rounds. */
  function SpareDefuses(n: nat): nat
  {
    if n < 6 then 6 - n else 0
  }

  /** Kittens `dealCards` adds to the deck: `players.length - 1` loop rounds. */
  function KittenCount(n: nat): nat
  {
    if n > 0 then n - 1 else 0
  }

  /** The deck `dealCards` shuffles: what dealing left, then the spare Defuses, then the Kittens. */
  function DealtDeck(d: seq<Card>, n: nat): seq<Card>
  {
    d + Repeat(Defuse, SpareDefuses(n)) + Repeat(Kitten, KittenCount(n))
  }

  /** `dealCards` */
  function Deal(ps: seq<PlayerView>, deck: seq<Card>, picks: seq<nat>): (r: (seq<PlayerView>, seq<Card>))
    requires ShufflePicks(picks) && |deck| + |ps| + 6 <= |picks| + 1
  {
    var q := DealPrefix(ps, deck, |ps|);
    (q.0, FisherYates(DealtDeck(q.1, |ps|), picks))
  }

  /** The random draws one round of setup consumes. */
  ghost predicate SetupPicks(n: nat, cats: seq<CatVariant>, deckPicks: seq<nat>, dealPicks: seq<nat>)
  {
    && |cats| == CatCount
    && ShufflePicks(deckPicks) && 46 <= |deckPicks| + 1
    && ShufflePicks(dealPicks) && 46 + n + 6 <= |dealPicks| + 1
  }

  /** `init` for `n` players in their shuffled order: `createDeck`, `dealCards`, turn state reset. */
  function Setup(n: nat, cats: seq<CatVariant>, deckPicks: seq<nat>, dealPicks: seq<nat>): Table
    requires SetupPicks(n, cats, deckPicks, dealPicks)
  {
    Start(Repeat(Fresh, n), cats, deckPicks, dealPicks)
  }

  /** `createDeck` and `dealCards` for the players `ps`, then the turn state of a new round. */
  function Start(ps: seq<PlayerView>, cats: seq<CatVariant>, deckPicks: seq<nat>, dealPicks: seq<nat>): Table
    requires SetupPicks(|ps|, cats, deckPicks, dealPicks)
  {
    var r := Deal(ps, CreateDeck(cats, deckPicks), dealPicks);
    Table(r.0, r.1, [], 0, 1, false, false, [])
  }

  /** `nextRound`: everything reset, every player back in with an empty hand, then a fresh deal. */
  function NextRound(t: Table, cats: seq<CatVariant>, deckPicks: seq<nat>, dealPicks: seq<nat>): Table
    requires SetupPicks(|t.players|, cats, deckPicks, dealPicks)
  {
    var reset := seq(|t.players|, i requires 0 <= i < |t.players| =>
      t.players[i].(hand := [], isActive := true, hasDefuse := false, autoNope := false));
    Start(reset, cats, deckPicks, dealPicks)
  }

  // ------------------------------------------------------------- the cards

  /** All the cards of one hand after another. */
  function HandsMultiset(ps: seq<PlayerView>): multiset<Card>
  {
    if ps == [] then multiset{} else HandsMultiset(Front(ps)) + multiset(Last(ps).hand)
  }

  /** Every card in play: deck, discard pile and hands. */
  function Pool(t: Table): multiset<Card>
  {
    multiset(t.deck) + multiset(t.discard) + HandsMultiset(t.players)
  }
}
