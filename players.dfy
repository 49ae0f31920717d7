/**
 * The player entity: a hand of cards plus the flags `isActive`,
 * `hasDefuse` and `autoNope`.
 *
 * `hasDefuse` is a cache that `addCard` and `removeCard` update eagerly,
 * and only from the card that moves: removing one Defuse clears it even
 * when the hand still holds another.
 */
module Players {
  import opened Seqs
  import opened Cards

  /** The value of a player's mutable fields at one moment. */
  datatype PlayerView = PlayerView(hand: seq<Card>, isActive: bool, hasDefuse: bool, autoNope: bool)

  /** A player as created at setup or reset by `nextRound`: empty hand, in the game, no flags. */
  const Fresh := PlayerView([], true, false, false)

  /** `addCard`: the card goes to the end of the hand. */
  function AddCardTo(p: PlayerView, c: Card): (r: PlayerView)
    ensures r.hand == p.hand + [c]
    ensures r.hasDefuse <==> c == Defuse || p.hasDefuse
    ensures r.isActive == p.isActive && r.autoNope == p.autoNope
  {
    p.(hand := p.hand + [c], hasDefuse := if c == Defuse then true else p.hasDefuse)
  }

  /** `removeCard`: the card at `i` leaves the hand and is returned. */
  function RemoveCardFrom(p: PlayerView, i: nat): (r: (PlayerView, Card))
    requires i < |p.hand|
    ensures r.1 == p.hand[i]
    ensures r.0.hand == RemoveAt(p.hand, i)
    ensures |r.0.hand| == |p.hand| - 1
    ensures r.0.hasDefuse <==> r.1 != Defuse && p.hasDefuse
    ensures r.0.isActive == p.isActive && r.0.autoNope == p.autoNope
  {
    var c := p.hand[i];
    (p.(hand := RemoveAt(p.hand, i), hasDefuse := if c == Defuse then false else p.hasDefuse), c)
  }

  /** The removed card and the remaining hand make up the old hand. */
  lemma RemoveCardMultiset(p: PlayerView, i: nat)
    requires i < |p.hand|
    ensures var r := RemoveCardFrom(p, i);
      multiset(r.0.hand) + multiset{r.1} == multiset(p.hand)
  {
    RemoveAtMultiset(p.hand, i);
  }

  /** `hasNope`: some card of the hand is a Nope. */
  predicate HoldsNope(p: PlayerView)
  {
    Nope in p.hand
  }

  class Player {
    const name: string
    var hand: seq<Card>
    var isActive: bool
    var hasDefuse: bool
    var autoNope: bool

    function View(): PlayerView
      reads this
    {
      PlayerView(hand, isActive, hasDefuse, autoNope)
    }

    constructor (name: string)
      ensures this.name == name && View() == Fresh
    {
      this.name := name;
      hand := [];
      isActive := true;
      hasDefuse := false;
      autoNope := false;
    }

    method AddCard(card: Card)
      modifies this
      ensures View() == AddCardTo(old(View()), card)
    {
      hand := hand + [card];
      if card == Defuse {
        hasDefuse := true;
      }
    }

    method RemoveCard(index: nat) returns (card: Card)
      requires index < |hand|
      modifies this
      ensures (View(), card) == RemoveCardFrom(old(View()), index)
    {
      card := hand[index];
      hand := hand[..index] + hand[index + 1..];
      if card == Defuse {
        hasDefuse := false;
      }
    }

    function HasNope(): (r: bool)
      reads this
      ensures r <==> exists k :: 0 <= k < |hand| && hand[k] == Nope
    {
      Nope in hand
    }
  }
}
