/**
 * Card counts of the deck `createDeck` builds before shuffling.
 */
module DeckFacts {
  import opened Seqs
  import opened Cards

  /** How often card `y` occurs among the action cards. */
  lemma ActionCardsCount(y: Card)
    ensures multiset(ActionCards())[y] ==
      (if y == Nope then NopeCount else 0) + (if y == Attack then AttackCount else 0)
      + (if y == Skip then SkipCount else 0) + (if y == Favor then FavorCount else 0)
      + (if y == Shuffle then ShuffleCount else 0) + (if y == Future then FutureCount else 0)
  {
    RepeatCount(Nope, NopeCount, y);
    RepeatCount(Attack, AttackCount, y);
    RepeatCount(Skip, SkipCount, y);
    RepeatCount(Favor, FavorCount, y);
    RepeatCount(Shuffle, ShuffleCount, y);
    RepeatCount(Future, FutureCount, y);
  }

  /**
   * How often card `y` occurs in the base deck: the counts `createDeck`
   * lists for the action cards, none for Defuse and Kitten.
   */
  lemma BaseDeckCount(cats: seq<CatVariant>, y: Card)
    requires |cats| == CatCount
    ensures multiset(BaseDeck(cats))[y] ==
      (if y == Nope then NopeCount else 0) + (if y == Attack then AttackCount else 0)
      + (if y == Skip then SkipCount else 0) + (if y == Favor then FavorCount else 0)
      + (if y == Shuffle then ShuffleCount else 0) + (if y == Future then FutureCount else 0)
      + (if y.Cat? then multiset(CatCards(cats))[y] else 0)
  {
    ActionCardsCount(y);
    if !y.Cat? {
      assert y !in CatCards(cats);
    }
  }

  /** The base deck has 46 cards. */
  lemma BaseDeckLength(cats: seq<CatVariant>)
    requires |cats| == CatCount
    ensures |BaseDeck(cats)| == 46
  {
  }
}
