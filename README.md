# Exploding Kittens rules engine, modelled in Dafny

This project models the rules engine of a browser game of Exploding Kittens: the `Card`, `Player` and
`Game` classes. The engine comes in two versions of the same code:

- `main.js`, whose `playCard` first lets an opponent with the "auto-Nope" box ticked cancel the
  played card with a Nope;
- `main/main.js`, whose `playCard` always discards the card and applies its effect.

Everything else is shared. The model keeps both `playCard` variants (`PlayCard` and
`PlayCardWithoutNope`). The version without Nope is the one with every `autoNope` flag false
(`PlayFacts.AutoNopeOffNoHolders`, `PlayFacts.NoNopeSameGame`).

The model has two layers.

- **`Rules`** (`rules.dfy`) is the meaning of each operation. A `Table` value holds every field the
  engine mutates:
  - the players' hands and flags;
  - the deck, whose top is its last element;
  - the discard pile;
  - `currentPlayerIndex`, `turnsToMake` and `isActionTaken`;
  - `combinationMode` and `selectedCatCards`.

  Each engine operation is a function from a `Table` to a `Step`:
  - `Ok(table, note)`: the new state, plus the message the user is shown;
  - `Throws(table)`: a JavaScript TypeError escaped the click handler, leaving the state it had reached;
  - `Spins`: `getNextPlayerIndex` would loop forever, because nobody is active.
- **`Engine.Game`** (`game.dfy`) is the engine as the source writes it: a class with the source's
  fields, and `Players.Player` objects whose `hand`, `isActive`, `hasDefuse` and `autoNope` are
  updated in place. The methods change the fields the way the source does: `push`, `pop`, `splice`,
  the Fisher–Yates swap loops, the deal loops and the `getNextPlayerIndex` scan. Each method is proved
  to change the state exactly as its `Rules` function says:
  `Rules.Op(old(Snapshot()), ...) == Ok(Snapshot(), note)`. The one source method with a bug,
  `confirmCombination`, has two methods: `ConfirmCombination` removes the cards in the source's
  order, and `ConfirmPair` in the corrected order (see Findings).

The properties are lemmas over `Rules`, grouped by topic:

| file | topic |
|---|---|
| `turn_facts.dfy` | turn order and extra turns |
| `play_facts.dfy` | drawing, playing, Nope |
| `combo_facts.dfy` | cat pairs and stealing |
| `setup_facts.dfy`, `deck_facts.dfy` | building and dealing the deck |
| `pool_facts.dfy` | conservation of cards |

The random draws are parameters with the ranges `Math.random` gives:
- the Fisher–Yates picks;
- the kitten's reinsertion index;
- the Nope holder;
- the card taken by a steal;
- the 20 cat pictures.

The acknowledgement callbacks of the alerts and modals run at once. The one exception is the Future
modal: closing it is its own operation (`AcknowledgeFuture`), because `playCard` returns before it.
The steal that follows a Favor or a cat pair is also its own operation (`Steal`), because the user
picks the target in between. The candidates offered then are `Rules.StealTargets`, which is the
`note` of those steps.

A cat card is `Cat(v)`, with `v` in 1..5 standing for its randomly chosen `imageUrl`. Two cards match
in `confirmCombination` exactly when they are equal values. No other card type has that freedom,
because every other card's image is fixed by its type.

Quirks of the source that the model keeps:

- `removeCard` clears `hasDefuse` whenever a Defuse leaves the hand, even if another one remains.
  `handleKitten` trusts the flag, so a player holding a Defuse can explode
  (`PlayFacts.StaleDefuseFlag`).
- A player who explodes while owing extra turns stays current (`PlayFacts.ExplodedKeepsExtraTurns`),
  and is left to play the remaining turns while out of the game.
- Attack adds one to the turns owed rather than resetting them, so chained Attacks compound
  (`TurnFacts.AttackChain`).

Facts about the deck and the piles that the code fixes:

- The comment beside the cat count at main/main.js:124 speaks of five cat pictures with four cards
  each. The code does not enforce that: it creates 20 cats, and each one's picture is drawn
  independently when the `Card` constructor looks up its image (main.js:21, main.js:35, main.js:41-44). `createDeck` builds 46 cards: 5 Nope, 4 each of
  Attack, Skip, Favor and Shuffle, 5 Future, and 20 cats (`DeckFacts.BaseDeckCount`). The deck after
  dealing `n` players therefore holds `51 - 7n` cards (`SetupFacts.SetupDeck`).
- `hasDefuse` is set by `addCard` and cleared by `removeCard` from the card that moves (main.js:60,
  main.js:71), so it need not agree with the hand (see above).
- Played Defuse and Kitten cards stay on the discard pile. The conservation lemmas therefore count the
  discard pile with the deck and the hands (`Rules.Pool`).

## Model

| member | source | states |
|---|---|---|
| Players.AddCardTo | main.js:58-60 | the card goes to the end of the hand; `hasDefuse` becomes true exactly when the card is a Defuse or it already was; the other flags are unchanged |
| Players.RemoveCardFrom | main.js:69-73 | returns `hand[i]`; the hand loses exactly that position and is one shorter; `hasDefuse` is cleared exactly when the removed card is a Defuse, whatever else the hand holds |
| Players.RemoveCardMultiset | main/main.js:64-68 | the removed card and the remaining hand together are the old hand, as a multiset |
| Players.Player.AddCard | main/main.js:54-62 | the player's fields change as `AddCardTo` says |
| Players.Player.RemoveCard | main/main.js:64-68 | returns the card and updates the fields as `RemoveCardFrom` says |
| Players.Player.HasNope | main.js:76-78 | true exactly when some position of the hand holds a Nope |
| Players.Player.constructor | main.js:49-55 | a new player has an empty hand, is active, and has neither flag set |
| Seqs.RemoveAt | main.js:70 | `splice(i, 1)`: one shorter; the elements before `i` keep their places and those after move down by one |
| Seqs.RemoveAtMultiset | main.js:70 | the removed element and the rest make up the old sequence, as a multiset |
| Seqs.InsertAt | main.js:359 | `splice(i, 0, x)`: one longer, `x` at `i`, the elements before `i` in place and the rest shifted up by one; the multiset gains exactly `x` |
| Seqs.Swap | main.js:182 | exchanges positions `i` and `j` and keeps every other position; same length and multiset |
| Seqs.ShuffleFrom | main.js:180-183 | the swap loop from step `i` down keeps the length and the multiset |
| Seqs.FisherYates | main.js:179-184 | the whole shuffle is a permutation: same length, same multiset |
| Seqs.FisherYatesDistinct | main.js:410-415 | shuffling the seating never puts one player object at two seats |
| Seqs.FirstIndexOf | main.js:354 | `findIndex`: `None` exactly when the value is absent; otherwise the index holds the value and no earlier index does |
| Seqs.IndicesWhere | main.js:401 | the filter over indices: exactly the flagged indices, in increasing order |
| Seqs.Without | main.js:537 | `filter(i => i !== x)`: exactly the members other than `x`, never longer |
| Seqs.Reverse | main.js:324 | position `k` of the result is position `len - 1 - k` of the input |
| Seqs.ReverseMultiset | main.js:324 | reversal keeps every element |
| Seqs.Repeat | main.js:138-140 | the `push` loop: `n` copies of the value |
| Seqs.RepeatCount | main.js:169-174 | `n` copies of `x` hold `x` exactly `n` times and nothing else |
| Cards.CatCards | main.js:41-44 | the 20 cat cards, each showing the picture drawn for it |
| DeckFacts.ActionCardsCount | main.js:128-135 | 5 Nope, 4 Attack, 4 Skip, 4 Favor, 4 Shuffle and 5 Future action cards, and no others |
| DeckFacts.BaseDeckCount | main.js:126-143 | the base deck's count of every card: the action counts, plus the cats with their drawn pictures; no Defuse and no Kitten |
| DeckFacts.BaseDeckLength | main.js:126-143 | the base deck has 46 cards |
| Rules.ActivePlayers | main.js:401 | exactly the active seats, in increasing order |
| Rules.Winner | main.js:405-407 | `find`: `None` exactly when nobody is active; otherwise an active seat with no active seat before it |
| Rules.GameEndHasWinner | main.js:369-370 | when the game is over, `getWinner` finds a player |
| Rules.NopeHolders | main.js:425-427 | exactly the active opponents of the actor with `autoNope` set who hold a Nope |
| Rules.NopeHoldersIgnoreActor | main.js:421-427 | the Nope holders do not depend on the actor's own hand, which `playCard` has already shortened |
| Rules.StealTargets | main/main.js:446-447 | exactly the active players other than the current one with a non-empty hand, in seat order |
| Rules.TopThree | main/main.js:305 | `slice(-3).reverse()`: `min(3, len)` cards, the top of the deck first |
| Rules.DealPrefix | main.js:163-168 | dealing to the first `i` players keeps the seat count and never grows the deck |
| Rules.DealOne | main.js:163-167 | dealing one player never grows the deck; its cards are specified by `SetupFacts.DealOneRest`, `DealOneHand` and `DealOneKeeps` |
| Rules.NextActive | main.js:378-384 | `getNextPlayerIndex`; specified by `TurnFacts.NextActiveFacts`, `NextActiveUnique` and `NextActiveSameFlags` |
| Rules.EndTurn | main.js:387-397 | `endTurn`; specified by `TurnFacts.EndTurnKeeps`, `EndTurnExtra`, `EndTurnPasses` and `EndTurnSpins`, and `PoolFacts.EndTurnPool` |
| Rules.CheckGameEnd | main.js:400-402 | `checkGameEnd`; specified by `TurnFacts.CheckGameEndIff`, `GameEndOnlyActive` and `OnlyActiveGameEnd` |
| Rules.Draw | main.js:256-275 | `drawCard`; specified by `PlayFacts.DrawIdle`, `DrawSafeCard`, `DrawKittenDefused` and `DrawKittenExplodes`, and `PoolFacts.DrawPool` |
| Rules.HandleKitten | main.js:352-375 | `handleKitten`; specified by `PlayFacts.DrawKittenDefused` and `DrawKittenExplodes`, and `PoolFacts.HandleKittenPool` |
| Rules.DefuseKitten | main.js:354-363 | the Defuse branch of `handleKitten`; specified by `PlayFacts.DrawKittenDefused` and `PoolFacts.DefuseKittenPool` |
| Rules.Explode | main.js:365-374 | the explosion branch of `handleKitten`; specified by `PlayFacts.DrawKittenExplodes`, `ExplodedKeepsExtraTurns` and `PoolFacts.ExplodePool` |
| Rules.Dispatch | main.js:442-469 | the `switch` on the played card; specified by `PlayFacts.DispatchEndsTurn`, `DispatchKeepsTurn` and `FuturePeek`, `TurnFacts.AttackCompounds` and `PoolFacts.DispatchPool` |
| Rules.PlayCard | main.js:418-470 | `playCard` with auto-Nope; specified by `PlayFacts.PlayLocked`, `NopeCancels` and `NoNopeSameGame`, and `PoolFacts.PlayCardPool` |
| Rules.NopeCancel | main.js:428-436 | the cancellation by a Nope holder; specified by `PlayFacts.NopeCancels` and `PoolFacts.NopeCancelPool` |
| Rules.PlayCardWithoutNope | main/main.js:401-438 | `playCard` without Nope; specified by `PlayFacts.PlayLocked` and `PlayDiscardsFirst`, and `PoolFacts.PlayCardWithoutNopePool` |
| Rules.Steal | main.js:499-520 | `handleFavorCard` and `handleCatSteal`; specified by `ComboFacts.StealMoves` and `TargetGives`, and `PoolFacts.StealPool` |
| Rules.ToggleCombinationMode | main.js:523-532 | `toggleCombinationMode`; specified by `ComboFacts.SelectionStaysOk` |
| Rules.ToggleCatCardSelection | main.js:535-542 | `toggleCatCardSelection`; specified by `ComboFacts.ToggleSelects`, `ToggleTwice` and `SelectionStaysOk` |
| Rules.ConfirmCombination | main.js:545-568 | `confirmCombination` as written; specified by `ComboFacts.ConfirmCombinationShape`, `ConfirmTakesPair`, `ConfirmDescendingAsWritten`, `ConfirmWrongCard` and `ConfirmLosesCard`, and `PoolFacts.ConfirmCombinationPool` |
| Rules.ConfirmPair | main.js:545-568 | `confirmCombination` with the removals in the corrected order; specified by `ComboFacts.ConfirmPairShape`, `ConfirmPairTakes`, `ConfirmAgrees`, `ConfirmPairRightCard` and `ConfirmPairKeepsCard`, and `PoolFacts.ConfirmPairPool` |
| Rules.TakePair | main.js:560-566 | the two removals and the discard; specified by `ComboFacts.TakePairSpec` and `PoolFacts.TakePairPool` |
| Rules.CancelCombination | main.js:595-602 | `cancelCombination`; specified by `ComboFacts.SelectionStaysOk` |
| Rules.CreateDeck | main.js:126-143 | `createDeck`; specified by `DeckFacts.BaseDeckCount`, `BaseDeckLength` and `SetupFacts.CreateDeckCounts` |
| Rules.Deal | main.js:162-176 | `dealCards`; specified by `SetupFacts.DealKeeps`, `DealPrefixRest` and `DealPrefixHands` |
| Rules.Setup | main.js:115-123 | `init`; specified by `SetupFacts.SetupHands`, `SetupDeck`, `SetupPool` and `SetupPoolSum` |
| Rules.NextRound | main.js:621-639 | `nextRound`; specified by `SetupFacts.NextRoundIsSetup` |
| TurnFacts.ScanFromFacts | main.js:378-384 | the scan from the `d`-th seat on finds the nearest active seat at distance `d` or more, or `None` when no such seat is active |
| TurnFacts.NextActiveFacts | main.js:378-384 | `getNextPlayerIndex` returns the first active seat after the current one, going round (the current seat last); `None`, where the source loops forever, exactly when nobody is active |
| TurnFacts.NextActiveUnique | main.js:378-384 | any active seat with no active seat nearer is the one `getNextPlayerIndex` returns |
| TurnFacts.NextActiveSameFlags | main.js:378-384 | the next seat depends only on the `isActive` flags |
| TurnFacts.EndTurnKeeps | main.js:387-397 | `endTurn` changes only the turn count, the current seat and the lock, and clears the lock |
| TurnFacts.EndTurnExtra | main.js:387-391 | with more than one turn owed, `endTurn` takes one off and keeps the current player |
| TurnFacts.EndTurnPasses | main.js:392-395 | with one turn owed, `endTurn` resets the count to 1 and makes the nearest active player after the current one current |
| TurnFacts.EndTurnSpins | main.js:380-382 | `endTurn` hangs exactly when no extra turn is owed and nobody is active |
| TurnFacts.NextSeatActive | main.js:379 | when the next seat is active, `endTurn` moves there |
| TurnFacts.AttackCompounds | main/main.js:410-415 | Attack with `t` turns owed leaves `t + 1` turns to the next active player, clears the lock, and leaves the deck alone |
| TurnFacts.AttackChain | main/main.js:410-415 | an Attack answered by an Attack leaves 3 turns owed, not 2 |
| TurnFacts.GameEndOnlyActive | main.js:400-402 | when `checkGameEnd` holds, the first active player is the only one |
| TurnFacts.OnlyActiveGameEnd | main.js:400-402 | when exactly one player is active, `checkGameEnd` holds |
| TurnFacts.CheckGameEndIff | main/main.js:383-385 | `checkGameEnd` holds exactly when some player is the only active one |
| TurnFacts.TwoActive | main.js:400-402 | two or more active players give two different active seats |
| TurnFacts.WinnerIsLastActive | main/main.js:383-390 | when the game is over, `getWinner` names the only active player |
| PlayFacts.DrawIdle | main.js:256-261 | with an empty deck, or under the lock, `drawCard` changes nothing; an empty deck gives the "deck empty" message |
| PlayFacts.DrawSafeCard | main.js:262-273 | an ordinary top card leaves the deck and goes to the end of the current hand; the discard pile and the other hands are unchanged; the turn ends as `endTurn` ends it: one owed turn fewer for the same player, or the next active player with one turn, and the lock cleared |
| PlayFacts.DrawKittenDefused | main.js:353-363 | a Kitten with a Defuse in hand and the flag set: the first Defuse goes to the discard pile and the Kitten goes back in at the drawn index, so the deck length is unchanged; the other hands are unchanged and the turn ends as `endTurn` ends it |
| PlayFacts.DrawKittenExplodes | main.js:365-374 | a Kitten otherwise: the player is out and the Kitten is discarded; when one active player is left the game ends with them as winner and the current seat, turns owed and lock are kept; otherwise the turn ends as `endTurn` ends it: one owed turn fewer for the same player, or the next active player with one turn, and the lock cleared |
| PlayFacts.ExplodedKeepsExtraTurns | main.js:387-391 | a player who explodes while owing extra turns stays current, one turn fewer owed |
| PlayFacts.StaleDefuseFlag | main.js:69-73 | a concrete game in which a player plays one of two Defuses, keeps the other, loses the flag, and explodes on the next Kitten |
| PlayFacts.PlayLocked | main.js:419 | under the lock, both versions of `playCard` change nothing |
| PlayFacts.PlayDiscardsFirst | main/main.js:401-407 | without the lock, the Nope-free `playCard` takes `hand[index]` out of the hand and onto the discard pile, then dispatches on it |
| PlayFacts.DispatchEndsTurn | main/main.js:417-437 | Skip, and every card without an effect (Cat, Defuse, Nope, Kitten), sets the lock and ends the turn |
| PlayFacts.DispatchKeepsTurn | main/main.js:421-433 | Shuffle, Future and Favor clear the lock and keep the current player, the turns owed, the hands and the discard pile; only Shuffle reorders the deck, as a permutation; Future shows the top three; Favor offers the steal targets |
| PlayFacts.FuturePeek | main/main.js:300-330 | Future shows the last three deck cards in reverse order and leaves the deck alone; closing the modal clears the lock |
| PlayFacts.NopeCancels | main.js:423-438 | when a Nope holder exists, the chosen one is an active opponent with `autoNope` and a Nope; the played card and that player's first Nope go to the discard pile, the deck is untouched (a cancelled Shuffle keeps the order), the actor and the holder change exactly as `removeCard` changes them (hand and `hasDefuse`), the other players are unchanged, and the turn ends as `endTurn` ends it: one owed turn fewer for the same player, or the next active player with one turn, and the lock cleared |
| PlayFacts.NoNopeSameGame | main.js:422-443 | with no Nope holder, or a Kitten or Defuse played, `playCard` does what the Nope-free version does |
| PlayFacts.AutoNopeOffNoHolders | main.js:425-427 | with every `autoNope` off there are no Nope holders |
| PlayFacts.FirstHolder | main.js:425-427 | a Nope holder has `autoNope` set |
| PlayFacts.AutoNopeDecidesHolder | main.js:247-251 | ticking a player's box changes only that player's flag, and makes them a Nope holder exactly when they are an active opponent holding a Nope |
| ComboFacts.ToggleSelects | main/main.js:503-510 | clicking a selected index removes it; clicking another adds it at the end when fewer than two are selected, and is ignored otherwise; the selection stays at most two distinct indices |
| ComboFacts.ToggleTwice | main.js:535-542 | clicking an unselected index twice restores the state |
| ComboFacts.SelectionStaysOk | main.js:523-602 | every cat-pair operation keeps the selection at most two distinct indices; leaving pair mode or cancelling clears it |
| ComboFacts.ConfirmPairShape | main.js:545-568 | corrected confirmation, each outcome with its condition: not two selected, nothing changes and "select two" is shown; an index past the hand throws; different pictures, nothing changes and "mismatch" is shown; two different indices with equal cards end pair mode, clear the selection and offer the steal targets |
| ComboFacts.ConfirmCombinationShape | main.js:545-568 | as written, the same outcomes for the first three cases; with equal cards it throws exactly when the first-clicked index is the last of the hand, and otherwise ends pair mode, clears the selection and offers the steal targets |
| ComboFacts.TakePairSpec | main.js:560-566 | removing the higher index first takes exactly the two selected cards: hand two shorter, both on the discard pile, nothing else moved |
| ComboFacts.ConfirmTakesPair | main.js:545-568 | selected in increasing order, a matching pair leaves the hand as it should |
| ComboFacts.ConfirmPairTakes | main.js:545-568 | in the corrected order, a matching pair leaves the hand as it should in either selection order |
| ComboFacts.ConfirmAgrees | main.js:560-561 | the source's order and the corrected one agree when the selection is increasing |
| ComboFacts.ConfirmDescendingAsWritten | main.js:560-561 | as written, a decreasing selection `[a, b]` removes `hand[b]` and then the card that was at `a + 1`, or throws after the first removal when `a` was the last index |
| ComboFacts.ConfirmWrongCard | main.js:560-561 | as written, on the hand `[cat, cat, x]` with the second cat clicked first, one cat and `x` are discarded and a cat stays in the hand |
| ComboFacts.ConfirmLosesCard | main/main.js:528-529 | as written, on the hand `[cat, cat]` clicked second-then-first, the code throws with one cat gone from the hand and from every pile |
| ComboFacts.ConfirmPairRightCard | main.js:545-568 | corrected, the same click order on `[cat, cat, x]` discards both cats and keeps `x` |
| ComboFacts.ConfirmPairKeepsCard | main/main.js:513-536 | corrected, `[cat, cat]` clicked second-then-first discards both cats |
| ComboFacts.StealMoves | main/main.js:467-488 | an empty target hand changes no hand; otherwise the target loses exactly the picked card, the actor gains it at the end, the combined size is kept, and no other seat changes |
| ComboFacts.TargetGives | main.js:499-513 | a player offered as a target always gives a card |
| SetupFacts.DrawIntoFacts | main.js:164-166 | the seven-card loop moves the top `min(k, len)` cards to the hand, keeps the rest of the deck in order and the cards as a multiset, and sets `hasDefuse` exactly when a Defuse arrived |
| SetupFacts.DealOneRest | main.js:164-166 | with seven cards or more, a player takes exactly the top seven |
| SetupFacts.DealOneHand | main.js:163-167 | from a deck without Defuse, a player with an empty hand ends with 8 cards, the last and only Defuse at the end, and the flag set |
| SetupFacts.DealOneKeeps | main.js:163-167 | dealing to one player moves cards from deck to hand and adds one Defuse |
| SetupFacts.DealPrefixRest | main.js:163-168 | after `i` players the deck is its bottom `len - 7i` cards |
| SetupFacts.DealPrefixHands | main.js:163-168 | after `i` players, each of them is dealt as `DealOneHand` says and the others are untouched |
| SetupFacts.DealPrefixKeeps | main.js:163-168 | dealing `i` players adds exactly `i` Defuses to the cards |
| SetupFacts.DealKeeps | main.js:162-176 | `dealCards` adds exactly `n` dealt Defuses, `6 - n` spare Defuses and `n - 1` Kittens |
| SetupFacts.CreateDeckCounts | main.js:126-143 | `createDeck` gives 46 cards, no Defuse and no Kitten |
| SetupFacts.SetupHands | main.js:115-123 | after `init` every hand has 8 cards, one Defuse, at the end, with the flag set; every player is active |
| SetupFacts.SetupDeck | main.js:162-176 | after `init` the deck holds `51 - 7n` cards, `6 - n` of them Defuse and `n - 1` Kitten |
| SetupFacts.SetupPool | main.js:162-176 | after `init` exactly 6 Defuses exist in total, `n - 1` Kittens, and `51 + n` cards |
| SetupFacts.SetupPoolSum | main.js:115-123 | the cards after `init` are the base deck plus the Defuses and Kittens `dealCards` adds |
| SetupFacts.StartPool | main.js:162-176 | the cards after a deal, counted over deck, discard pile and hands |
| SetupFacts.NextRoundIsSetup | main.js:621-639 | `nextRound` gives exactly the state `init` gives for as many players, under the same draws |
| PoolFacts.EndTurnPool | main.js:387-397 | `endTurn` moves no card |
| PoolFacts.PoolGive | main.js:59-60 | `addCard` adds exactly its card to the cards in play |
| PoolFacts.PoolTake | main.js:70-71 | `removeCard` takes exactly its card out of the cards in play |
| PoolFacts.DrawPool | main.js:256-275 | `drawCard` moves cards but creates or destroys none, counting the discard pile |
| PoolFacts.DefuseKittenPool | main.js:356-359 | defusing returns the drawn Kitten to the deck and moves the Defuse to the pile |
| PoolFacts.ExplodePool | main.js:365-366 | the exploded Kitten lands on the discard pile |
| PoolFacts.HandleKittenPool | main.js:352-375 | both kitten paths put the drawn Kitten back in play |
| PoolFacts.DispatchPool | main/main.js:409-437 | no card effect creates or destroys a card |
| PoolFacts.DiscardedPool | main/main.js:406-407 | the played card reaches the discard pile |
| PoolFacts.PlayCardWithoutNopePool | main/main.js:401-438 | the Nope-free `playCard` keeps the cards in play |
| PoolFacts.NopeCancelPool | main.js:429-431 | a cancellation moves the holder's Nope to the pile beside the cancelled card |
| PoolFacts.PlayCardPool | main.js:418-470 | `playCard` with the Nope step keeps the cards in play |
| PoolFacts.StealPool | main.js:499-520 | a steal always succeeds and keeps the cards in play |
| PoolFacts.PairTakenPool | main.js:562-563 | the two cats move from the hand to the pile |
| PoolFacts.TakePairPool | main.js:560-562 | a pair removal that completes keeps the cards in play |
| PoolFacts.ConfirmCombinationPool | main.js:545-568 | when `confirmCombination` as written returns normally, it keeps the cards in play |
| PoolFacts.ConfirmPairPool | main.js:545-568 | the corrected confirmation keeps the cards in play |
| Engine.ViewsOf | main.js:84 | one view per player object, in seat order |
| Engine.FisherYatesLoop | main.js:179-184 | the `for` swap loop computes `FisherYates` |
| Engine.ScanSeats | main.js:378-384 | the `while` scan returns the seat `NextActive` names |
| Engine.Game.Views | main.js:84 | the players' fields, seat by seat |
| Engine.Game.constructor | main.js:83-112 | a new game is `Blank`: nobody seated, no cards, one turn owed |
| Engine.Game.Init | main.js:115-123 | on a new game: one player per name, in name order, then shuffled by the picks; deck built and dealt; the state is `Setup` |
| Engine.Game.SeatShuffled | main.js:116-117 | one fresh player per name, the `j`-th created with the `j`-th name; the seating is the Fisher–Yates shuffle of that order; nothing else set |
| Engine.Game.SeatPlayers | main.js:116 | one new player per name, in order |
| Engine.Game.ShufflePlayers | main.js:410-415 | the seating becomes the Fisher–Yates shuffle of the old one; no other field changes |
| Engine.Game.StartRound | main.js:118-119 | `createDeck` then `dealCards` give the state `Rules.Start` describes |
| Engine.Game.FreshTurn | main.js:120-121 | clears the lock and sets one turn owed |
| Engine.Game.CreateDeck | main.js:126-143 | the deck becomes `Rules.CreateDeck`; nothing else changes |
| Engine.Game.PushCopies | main.js:138-140 | `count` pushes of the card; nothing else changes |
| Engine.Game.ShuffleDeck | main.js:179-184 | the deck becomes its Fisher–Yates shuffle; nothing else changes |
| Engine.Game.DealCards | main.js:162-176 | the players and deck become what `Rules.Deal` says |
| Engine.Game.DealHands | main.js:163-169 | the `forEach` over players gives `DealPrefix` for all of them |
| Engine.Game.DealSeat | main.js:163-168 | one player is dealt as `DealOne` says |
| Engine.Game.DealTo | main.js:164-167 | seven guarded pops, then a Defuse |
| Engine.Game.PopInto | main.js:165 | `if (deck.length) addCard(deck.pop())` |
| Engine.Game.AddCardAt | main.js:58-60 | one seat's player gains the card as `AddCardTo` says |
| Engine.Game.RemoveCardAt | main.js:69-73 | one seat's player loses the card as `RemoveCardFrom` says |
| Engine.Game.Deactivate | main.js:365 | one seat's player is out |
| Engine.Game.SetAutoNope | main.js:247-250 | the checkbox sets one player's `autoNope` |
| Engine.Game.GetNextPlayerIndex | main.js:378-384 | returns the seat `NextActive` names |
| Engine.Game.EndTurn | main.js:387-397 | the state becomes what `Rules.EndTurn` says |
| Engine.Game.PassTurn | main.js:392-395 | one turn owed, the next active player current, no lock |
| Engine.Game.DrawCard | main.js:256-275 | the state and message are what `Rules.Draw` says |
| Engine.Game.TakeTop | main.js:262-263 | sets the lock and pops the top card |
| Engine.Game.KeepCard | main.js:271-272 | the drawn card joins the hand and the turn ends |
| Engine.Game.HandleKitten | main.js:352-375 | the state is what `Rules.HandleKitten` says |
| Engine.Game.DefuseKitten | main.js:354-361 | the state is what `Rules.DefuseKitten` says |
| Engine.Game.Explode | main.js:365-374 | the state is what `Rules.Explode` says |
| Engine.Game.Discard | main.js:357 | the cards are pushed onto the discard pile |
| Engine.Game.InsertKitten | main.js:358-359 | the Kitten is spliced into the deck at the drawn index |
| Engine.Game.PlayCard | main.js:418-470 | the state and message are what `Rules.PlayCard` says |
| Engine.Game.PlayCardWithoutNope | main/main.js:401-438 | the state and message are what `Rules.PlayCardWithoutNope` says |
| Engine.Game.NopeCancel | main.js:428-436 | the state is what `Rules.NopeCancel` says |
| Engine.Game.Discarded | main.js:441 | the state is what `Rules.Discarded` says |
| Engine.Game.Dispatch | main.js:442-469 | the state and message are what `Rules.Dispatch` says |
| Engine.Game.PlayAttack | main.js:444-446 | one more turn owed (2 when none were), the next active player current, no lock |
| Engine.Game.EndAction | main.js:450-451 | sets the lock and ends the turn |
| Engine.Game.Unlock | main.js:455 | clears the lock |
| Engine.Game.AcknowledgeFuture | main.js:338-346 | closing the Future modal clears the lock |
| Engine.Game.Steal | main.js:499-520 | the state and message are what `Rules.Steal` says |
| Engine.Game.ToggleCombinationMode | main.js:523-532 | the state is what `Rules.ToggleCombinationMode` says |
| Engine.Game.ToggleCatCardSelection | main.js:535-542 | the state is what `Rules.ToggleCatCardSelection` says |
| Engine.Game.ConfirmCombination | main.js:545-568 | as written: the state is what `Rules.ConfirmCombination` says, `None` marking the case that throws |
| Engine.Game.ConfirmPair | main.js:545-568 | corrected: the state is what `Rules.ConfirmPair` says, `None` marking the case that throws |
| Engine.Game.TakePair | main.js:560-561 | the two removals, `b` then `a` from the shortened hand, as `Rules.TakePair` says, `None` when the second index has run off the hand |
| Engine.Game.ClosePair | main.js:562-567 | the cards are discarded and pair mode ends |
| Engine.Game.CancelCombination | main.js:595-602 | the state is what `Rules.CancelCombination` says |
| Engine.Game.ResetGame | main.js:605-618 | every field back to `Blank` |
| Engine.Game.NextRound | main.js:621-639 | the state is what `Rules.NextRound` says |
| Engine.Game.ClearTable | main.js:622-629 | every field but the seating back to `Blank` |
| Engine.Game.RejoinAll | main.js:630-635 | every player is fresh: empty hand, active, no flags |

## Left out

- Rendering, `updateUI`, `renderPlayerHand` and `updatePlayerList` are not modelled. They only draw the
  state.
- The DOM parts of `showModalCard`, `showFutureCards` and `showPlayerSelection` are not modelled.
  `isModalOpen` only disables buttons, so it is dropped.
- The `isNew` flag and its `setTimeout` in `addCard` are not modelled. They drive an animation.
- `showCustomAlert` and the modals' click listeners are not modelled. Their callbacks run at once. The
  Future modal becomes `AcknowledgeFuture`, and the target buttons become `Steal`.
- `Math.random` is a parameter: the shuffle picks, the 20 cat pictures, the Nope holder, the stolen
  card's index and the kitten's index. Each carries the range `Math.floor(Math.random() * k)` gives.
- Card names and image paths (`getCardName`, `getImageUrl`) are left out. Only the type and the cat
  picture are kept.
- The page wiring is left out: the player-count widget, the name inputs and the start, draw,
  skip-turn, next-round, new-game and pair buttons. The skip-turn button only finds a Skip and calls
  `playCard`.
- `resetGame`'s screen switch is left out. Its field resets are modelled.
- Player names are kept on `Player` objects. The contracts of the `Player` constructor,
  `Engine.Game.SeatPlayers`, `SeatShuffled` and `Init` say which name each player gets. No `Rules`
  function reads them, because they only label messages.
- Engine.Game.Init: requires a game as `new Game()` leaves it, because the start button always
  creates one first.
- Engine.Game.DrawCard, EndTurn, PlayCard and the other methods that can end a turn require that the
  step does not spin. Where nobody is active, the source's `getNextPlayerIndex` loops forever. That
  case is `Spins` in `Rules`, characterised by `TurnFacts.EndTurnSpins`.
- Once the game is over the source keeps accepting clicks. The model allows them too, and they
  follow the same rules.
- ComboFacts.ConfirmPairShape: the matching case promises a completed steal set-up only for two
  different indices. That is the only selection the toggles produce (`ComboFacts.SelectionStaysOk`).
- Engine.Game.Steal: one method models both `handleFavorCard` and `handleCatSteal`, whose bodies
  are the same.
- A TypeError that escapes `confirmCombination` is modelled as `Throws`, with the state reached
  before it. What the browser does afterwards is not modelled.

## Findings

| source | as written | input that shows it | evidently intended | confidence | as-written member | corrected member |
|---|---|---|---|---|---|---|
| main.js:560-561 | removes `hand[selected[1]]`, then `hand[selected[0]]` from the shortened hand | hand `[Cat(c), Cat(c), x]`, cat at 1 clicked before cat at 0: discards `Cat(c)` and `x`, and keeps a cat | remove the two selected cards whatever order they were clicked in (higher index first) | not executed | ComboFacts.ConfirmWrongCard, Engine.Game.ConfirmCombination | ComboFacts.ConfirmPairRightCard, Engine.Game.ConfirmPair |
| main/main.js:528-529 | the same two removals | hand `[Cat(c), Cat(c)]` clicked second-then-first: the second removal finds no card and throws, and one cat is lost from play | discard both cats | not executed | ComboFacts.ConfirmLosesCard | ComboFacts.ConfirmPairKeepsCard |
