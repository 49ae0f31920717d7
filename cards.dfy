/**
 * The cards of the game and the base deck that `createDeck` builds.
 *
 * A card is its type; a cat card also carries which of the five cat
 * pictures it shows. Two cards have the same picture exactly when they
 * are equal as values, which is what the cat-pair check compares.
 */
module Cards {
  import opened Seqs

  /** Which of the five cat pictures a cat card shows. */
  type CatVariant = v: int | 1 <= v <= 5 witness 1

  datatype Card =
    | Defuse
    | Nope
    | Attack
    | Skip
    | Favor
    | Shuffle
    | Future
    | Cat(variant: CatVariant)
    | Kitten

  /** Cards an automatic Nope may cancel: everything but Kitten and Defuse. */
  predicate Cancellable(c: Card)
  {
    c != Kitten && c != Defuse
  }

  /** The twenty cat cards, each with its independently drawn picture. */
  function CatCards(cats: seq<CatVariant>): (r: seq<Card>)
    ensures |r| == |cats|
    ensures forall k :: 0 <= k < |r| ==> r[k].Cat? && r[k].variant == cats[k]
  {
    if cats == [] then [] else CatCards(Front(cats)) + [Cat(Last(cats))]
  }

  /** Number of base cards of each action type, in the order `createDeck` pushes them. */
  const NopeCount := 5
  const AttackCount := 4
  const SkipCount := 4
  const FavorCount := 4
  const ShuffleCount := 4
  const FutureCount := 5
  const CatCount := 20

  /** The action cards of the base deck, in the order `createDeck` pushes them. */
  function ActionCards(): seq<Card>
  {
    Repeat(Nope, NopeCount) + Repeat(Attack, AttackCount) + Repeat(Skip, SkipCount)
    + Repeat(Favor, FavorCount) + Repeat(Shuffle, ShuffleCount) + Repeat(Future, FutureCount)
  }

  /** The base deck before it is shuffled: the action cards, then the cat cards. */
  function BaseDeck(cats: seq<CatVariant>): seq<Card>
    requires |cats| == CatCount
  {
    ActionCards() + CatCards(cats)
  }
}
