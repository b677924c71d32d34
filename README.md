# Set game core — a Dafny model

This project models the sequential core of a multi-player "Set" card game in
Dafny and proves properties of that model. The game's Java source exists in
two drafts that share class names, and each draft is its own pair of modules:

- `Table2` (`table2.dfy`) and `Game2` (`game2.dfy`) model the later draft:
  `Table2.java`, `Dealer2.java` and `Player2.java`.
- `Table1` (`table1.dfy`) and `Game1` (`game1.dfy`) model the earlier draft:
  `Table.java`, `Dealer.java` and `Player.java`.
- `Cards` (`cards.dfy`) holds what both drafts share:
  - nullable ids (`Cell`);
  - counting and list removal;
  - the slot/card bijection (`slotToCard[x] == y` iff `cardToSlot[y] == x`);
  - the winner rule;
  - the row-major slot index `col + cols*row`;
  - the grid scan with a `keepLoop` flag.
- `AsWritten` (`as_written.dfy`) models four pieces of the later draft
  exactly as the Java executes them. It sits beside lemmas that exhibit how
  they differ from the documented behaviour (see "Findings").

The board is a Dafny `class` in each draft. Its `slotToCard` and `cardToSlot`
arrays, its `grid` and its token lists are arrays written in place. Its class
invariant `Valid()` holds:

- the documented bijection;
- a token layer in which a slot's players and a player's slots mirror each
  other, tokens sit only on occupied slots, and no list repeats an entry;
- the grid mirror: cell (r, c) shows slot `c + cols*r`. In the earlier draft,
  the grid instead shows cards of the table, each once.

The player and the dealer are classes too. Each Java method becomes a Dafny
method with `modifies` and `ensures` clauses that state its whole effect. Each
loop of the source is a loop with invariants. Each loop's result is tied to a
reference function, such as `Deal`, `Winners`, `MaxScore`, `NonNull`,
`Refilled` or `Withdraw`. Lemmas prove what the game promises about those
functions:

- no card is lost in a deal;
- the winners are exactly the players at the top score;
- a press toggles a slot;
- the token layer stays consistent.

The threads are removed, so every method is one sequential step. Inputs from
outside the core become parameters:

- the clock is `now`;
- the shuffle is a permutation `shuffled` of the deck;
- `env.util.testSet` is a `Matcher` value the dealer is built with;
- `env.util.findSets(deck, 1)` is the flag `deckHasSet`.

Where the documentation and the code disagree, the model follows the code:

- `removeCardsFromTable` (Dealer2.java:321-358) drops a queued player who no
  longer holds three tokens. It does not penalise them.
- Cards of a legal set leave the table for good, since `testSet` does not put
  them back in the deck.
- `placeToken` (Table2.java:182-191) does not itself check the player's token
  count. The check is in `treatSetQueue`.
- `removeCard` (Table2.java:143-175) returns nothing.
- In the earlier draft, `removeToken` (Table.java:169-177) returns true
  whenever the slot's list exists.
- In the earlier draft, `testSet` (Dealer.java:182-199) hands card ids to
  `removeCard`, whose argument is a slot.

## Model

| member | source | states |
|---|---|---|
| Cards.CountSomeIsOccupied | Table2.java:98-106 | the count of non-null entries equals the number of occupied indices |
| Cards.NonNullCount | Dealer2.java:135-144 | the cards collected from the non-null entries are as many as the occupied slots |
| Cards.NonNullMembers | Dealer2.java:135-144 | a card is collected iff some slot holds it |
| Cards.RemoveFirst | Table2.java:199-217 | removal by value shortens a list holding the value by one and leaves any other list alone |
| Cards.RemoveFirstMultiset | Table2.java:199-217 | removal takes out exactly one occurrence and keeps every other entry |
| Cards.RemoveFirstMembers | Table2.java:199-217 | on a list without repetition, removal takes out exactly the value and keeps the list repetition-free |
| Cards.BijectionIff | Table2.java:16 | under the invariant, `slotToCard[s] == c` iff `cardToSlot[c] == s` |
| Cards.BijectionOneSlotPerCard | Table2.java:16 | under the invariant, a card is never in two slots |
| Cards.BijectionPlace | Table2.java:115-137 | an off-table card placed in an empty slot keeps the bijection |
| Cards.BijectionRemove | Table2.java:143-175 | emptying an occupied slot and its card keeps the bijection |
| Cards.BijectionCards | Dealer2.java:135-144 | the cards on a valid table are distinct cards of the game, each with a slot |
| Cards.FullPrefixHoldsEveryCard | Table.java:189-194 | if the first `deckSize` slots are all occupied, they hold every card and the later slots are empty |
| Cards.MaxScore | Dealer2.java:249-254 | the running maximum from 0 is non-negative and at least every score |
| Cards.MaxScoreAttained | Dealer2.java:249-254 | with players present and scores non-negative, some player reaches the maximum |
| Cards.Winners | Dealer2.java:263-270 | the winners are ids of players at the given score, in increasing player order |
| Cards.WinnersComplete | Dealer2.java:256-270 | the winners are exactly as many as the counter, and every player at the score is among them |
| Cards.RowStartIsProduct | Table2.java:128 | the start of row `r` is `cols*r` |
| Cards.SlotOfInjective | Table2.java:128 | two cells with the same index `col + cols*row` are the same cell |
| Cards.CellOfSlot | Table2.java:128 | every index below `rows*cols` is the index of a cell |
| Cards.ReplaceFirst | Table.java:106-116 | the nested `keepLoop` scan overwrites the first matching cell in row-major order and nothing else |
| Table2.TokensPlaced | Table2.java:182-191 | placing a token not yet there keeps the token layer consistent |
| Table2.TokensRemoved | Table2.java:199-217 | removing a token that is there keeps the token layer consistent |
| Table2.TokensEvicted | Table2.java:150-159 | emptying a slot with all its tokens keeps the token layer consistent |
| Table2.TokensWithdrawn | Dealer2.java:338-349 | clearing a player's list and withdrawing the player from every slot keeps the token layer consistent |
| Table2.WithdrawnByTokens | Dealer2.java:340-348 | removing the player from exactly the slots on its own list is withdrawing it from every slot |
| Table2.TokensMoreCards | Table2.java:16 | cards joining empty slots never break the token layer |
| Table2.DropPlayer | Table2.java:153-155 | after player `id`'s token leaves, only players above `id` remain on the slot |
| Table2.EvictStep | Table2.java:153-155 | the player lists after ids `0..id` are handled, one id at a time |
| Table2.ClearedAt | Table2.java:150-159 | after the token lists of some slots are emptied, those lists are empty and every other slot keeps its list |
| Table2.EvictAllMembers | Table2.java:150-159 | after some slots are taken off every player's list, each list holds exactly its old slots not among them, still without repetition |
| Table2.EvictAllLength | Table2.java:150-159 | a player holding each of the distinct evicted slots loses exactly that many |
| Table2.EmptyTable | Table2.java:51-68 | an empty table with empty token lists satisfies the invariant |
| Table2.Table.constructor | Table2.java:51-68 | all slots, cards and cells null, every token list empty, and the table valid |
| Table2.Table.CountCards | Table2.java:98-106 | the number of occupied slots, at most the table size |
| Table2.Table.PlaceCard | Table2.java:115-137 | both maps are set; only the cell with index `slot` is written, and only if null; validity kept when slot and card were free |
| Table2.Table.RemoveCard | Table2.java:143-175 | an empty slot changes nothing; an occupied one loses every token, both map entries and its grid cell; validity kept |
| Table2.Table.RemoveTokensFrom | Table2.java:153-155 | the loop over player ids empties the slot's list and takes the slot off every player's list |
| Table2.Table.EraseFromGrid | Table2.java:160-170 | the one cell showing the card becomes null |
| Table2.Table.PlaceToken | Table2.java:182-191 | on an occupied slot both lists gain the token; on an empty slot nothing changes |
| Table2.Table.RemoveToken | Table2.java:199-217 | true iff the player was on the slot; then both lists lose the token; otherwise nothing changes; consistency kept |
| Table2.Table.RemoveTokenTwice | Table2.java:197-217 | a second identical `removeToken` returns false |
| Table2.Table.GetCard | Table2.java:221-227 | the card of an occupied slot, whose slot is that slot again |
| Table2.Table.GetSlot | Table2.java:229-234 | the slot of a placed card, which holds that card |
| Table2.Table.GetSlotToCard | Table2.java:251-256 | the slot array itself |
| Table2.Table.RemoveAllCardsFromTable | Table2.java:236-249 | every slot, card, cell and token list ends empty, and the table stays valid |
| Game2.Clamp | Dealer2.java:227 | `Math.max(x, 0)`: non-negative, at least `x`, and either `x` or 0 |
| Game2.DealKeeps | Dealer2.java:156-167 | the deal keeps every occupied slot, and an empty slot stays empty or gets a deck card |
| Game2.DealRest | Dealer2.java:156-167 | the deck left over is a suffix of the deck, its front cards taken |
| Game2.DealFills | Dealer2.java:156-167 | while the deck lasts, no slot is left empty |
| Game2.DealConserves | Dealer2.java:156-167 | the cards on the table and in the deck are the same multiset before and after the deal |
| Game2.DealOnEmpty | Dealer2.java:156-167 | on an empty table, the deck's cards go to slots 0, 1, 2, ... in order |
| Game2.CardsAtOnTable | Dealer2.java:330-332 | distinct occupied token slots show distinct cards, each placed at its slot |
| Game2.CreditsAllDropped | Dealer2.java:352-354 | claims that are all dropped earn nobody a point |
| Game2.CreditsStep | Dealer2.java:324-356 | each judged claim adds its point, if any, to its player's tally |
| Game2.RefilledAt | Dealer2.java:288-304 | each refilled slot holds its deck card or nothing, and every other slot keeps its content |
| Game2.UnmappedAt | Dealer2.java:288-304 | handled claimed cards are off the table, and the others sit where they were |
| Game2.ClaimSlots | Dealer2.java:289-290 | distinct cards on the table sit on distinct slots, and none of them is in the deck |
| Game2.ClaimRefilled | Dealer2.java:288-304 | after three refills, each claimed slot holds its fill and no token, each claimed card is gone, every other slot keeps its card and tokens, and each player's list loses exactly the claimed slots |
| Game2.Judged | Dealer2.java:326-339 | a claim is dropped iff its player does not hold three tokens; a scored claim can be read off the board |
| Game2.QuietJudgeAll | Dealer2.java:324-355 | with no player holding three tokens, every claim is dropped and the board is unchanged |
| Game2.ClaimantCleared | Dealer2.java:333-349 | a claim that is judged, scored or penalized, leaves its player holding no token |
| Game2.BoardsExtend | Dealer2.java:324-356 | judging one more claim on the last board extends a run of judgements |
| Game2.JudgeAllStep | Dealer2.java:324-356 | judging one more claim extends the fold `JudgeAll` and the verdicts by one step |
| Game2.BoardsAreJudgeAll | Dealer2.java:323-356 | a run of judgements, each on the board the one before left, is `JudgeAll` and `Verdicts` of its first board: first come, first served |
| Game2.BoardsPrefix | Dealer2.java:323-356 | the first `n` judgements of a run are `JudgeAll` and `Verdicts` of the first `n` claims |
| Game2.QuietBoards | Dealer2.java:324-355 | with no player holding three tokens, a run of judgements drops every claim and ends on its first board |
| Game2.ReadableOnValidBoard | Dealer2.java:328-332 | on a consistent board, each of a three-token claimant's slots holds a card of the game, so `getCard` finds a card there |
| Game2.ScoredClaim | Dealer2.java:286-304 | a legal set is scored, and the board it leaves is `AfterClaim` of the board before |
| Game2.ScoredBoard | Dealer2.java:286-304 | a legal set: the deck loses its front cards, each token slot takes its deck card (or none) and loses its tokens, the claimed cards leave the table, every other slot keeps its card and tokens, and each player's list loses exactly the token slots |
| Game2.ScoredFrame | Dealer2.java:288-304 | the three refills on distinct token slots touch only those slots and take exactly them off every player's list |
| Game2.ScoredUnmapped | Dealer2.java:288-304 | the claimed cards leave the table once their slots are refilled |
| Game2.PenalizedClaim | Dealer2.java:338-349 | a wrong claim is penalized, and the board it leaves is the board before with the player's tokens gone |
| Game2.Offered | Player2.java:184 | `offer` on the capacity-3 queue: the slot joins the back iff the queue holds fewer than three slots; otherwise nothing changes |
| Game2.Player.constructor | Player2.java:76-86 | score 0, empty queue, not frozen, not locked, not terminated |
| Game2.Player.KeyPressed | Player2.java:180-191 | ignored while locked, frozen or out of range; otherwise removes a held token, or offers the slot to the capacity-3 queue |
| Game2.Player.TreatSetQueue | Player2.java:106-132 | takes the oldest slot, toggles its token as `ToggleToken` says (an empty slot leaves every token as it was), and enqueues the player with the dealer iff it then holds three tokens |
| Game2.Player.ToggleToken | Player2.java:109-121 | places a token when the slot holds a card, fewer than three are held and none is on the slot; removes a held one; otherwise, and always on an empty slot, no change; at most three tokens |
| Game2.Player.Point | Player2.java:214-235 | the score rises by exactly one, and the freeze is over |
| Game2.Player.Penalty | Player2.java:240-257 | the score is untouched, and the freeze is over |
| Game2.Player.Score | Player2.java:259-261 | the score, non-negative for a valid player |
| Game2.Player.SetListToArray | Player2.java:193-206 | the player's token slots, in placement order |
| Game2.Player.SetLockTable | Player2.java:300-302 | the lock flag becomes `status` |
| Game2.Player.Terminate | Player2.java:164-173 | the terminate flag is raised |
| Game2.Dealer.constructor | Dealer2.java:45-54 | the deck is `0..deckSize-1` in order, with an empty claim queue and the deadline at `now` |
| Game2.Dealer.PlayerToQueue | Dealer2.java:316-319 | the player joins the back of the claim queue |
| Game2.Dealer.ReturnAllToDeck | Dealer2.java:135-144 | the cards on the table join the back of the deck in slot order, and the deck grows by `countCards` |
| Game2.Dealer.RemoveAllCardsFromTable | Dealer2.java:123-133 | the table's cards go to the deck, the table and the claim queue are emptied, every key-press queue is cleared, no score changes and the deadline stays; of the players only score, `isFrozen` and the key-press queue may change |
| Game2.Dealer.ClearTable | Dealer2.java:126-127 | return to the deck, then clear the table; the deck stays repetition-free |
| Game2.Dealer.ClearQueues | Dealer2.java:129-131 | every player's key-press queue is empty and scores are unchanged |
| Game2.Dealer.TopScore | Dealer2.java:249-254 | the first loop computes `MaxScore` of the scores |
| Game2.Dealer.CountScoring | Dealer2.java:256-261 | the second loop counts the players at the given score |
| Game2.Dealer.CollectScoring | Dealer2.java:263-270 | an array sized by the counter holds exactly the winners |
| Game2.Dealer.FillWinners | Dealer2.java:264-270 | the third loop fills the array with the ids at the score, in player order |
| Game2.Dealer.AnnounceWinners | Dealer2.java:247-273 | the array holds exactly the ids at the top score, in player order, and is non-empty when there are players |
| Game2.Dealer.PlaceCardsOnTable | Dealer2.java:149-170 | the deck is shuffled, the deal fills empty slots from its front, the deck keeps the rest, and the game ends when no set is left |
| Game2.Dealer.DealAll | Dealer2.java:156-167 | the nested loops perform `Deal` on the slots and the deck |
| Game2.Dealer.DealRow | Dealer2.java:159-166 | one row of the deal extends the dealt prefix by the row |
| Game2.Dealer.DealCell | Dealer2.java:160-165 | one cell of the deal extends the dealt prefix by one slot |
| Game2.Dealer.PutCard | Dealer2.java:161-163 | the deck's front card goes to the cell and its slot, and leaves the deck |
| Game2.Dealer.Shuffle | Dealer2.java:313-315 | the deck becomes the given permutation of itself |
| Game2.Dealer.PlaceSpecificCardOnTable | Dealer2.java:172-181 | with an empty deck nothing changes; otherwise the front card goes to slot `column + cols*row` and leaves the deck |
| Game2.Dealer.FindCard | Dealer2.java:291-293 | finds a cell showing the card, or reports that none does |
| Game2.Dealer.ReplaceCard | Dealer2.java:289-300 | the card's slot loses the card and its tokens, then takes the deck's front card if any |
| Game2.Dealer.TestSet | Dealer2.java:279-311 | true iff three cards form a set; then the deck, both maps and both token layers are `Refilled`, `Unmapped`, `Cleared` and `EvictAll` of the old ones on the cards' slots: the three are off the table, each freed slot holds its deck card and no token, and every other slot keeps its card and tokens; otherwise nothing changes |
| Game2.Dealer.TakeOffTable | Dealer2.java:288-304 | the loop over the three cards of a legal set performs the three refills: the whole new state is `Refilled`, `Unmapped`, `Cleared` and `EvictAll` of the old one, and every slot not holding a claimed card keeps its card and tokens |
| Game2.Dealer.RefillAll | Dealer2.java:288-304 | after the loop, the slot and card maps are `Refilled` and `Unmapped`, the slots' token lists `Cleared` and the players' lists `EvictAll` of the claimed slots |
| Game2.Dealer.RefillNext | Dealer2.java:289-300 | one more refill extends `Refilled`, `Unmapped`, `Cleared` and `EvictAll` by one card |
| Game2.Dealer.RemoveCardsFromTable | Dealer2.java:321-358 | the queue is emptied; claim `k` gets the verdict `Judged` on board `k`, and board `k+1` is `AfterClaim` of it, from the board before the call to the board after; each player gains one point per scored claim; a scored claim resets the deadline; with no three-token player every claim is dropped and the table is untouched; of the players only score and `isFrozen` may change |
| Game2.Dealer.JudgeQueue | Dealer2.java:323-356 | the loop over the claim queue: the queue is emptied, each claim is judged on the board the one before it left, scores gain one point per scored claim, and a scored claim resets the deadline |
| Game2.Dealer.JudgeStep | Dealer2.java:324-355 | one pass of the loop: `JudgeNext` on the oldest claim, with every player's tally extended by that claim's point |
| Game2.Dealer.JudgeNext | Dealer2.java:324-355 | the oldest claim leaves the queue; its verdict is `Judged` on the board before and the board after is `AfterClaim`; a point and a fresh deadline iff it scored; a dropped claim leaves the player's `isFrozen` |
| Game2.Dealer.JudgeClaim | Dealer2.java:325-354 | the verdict is `Judged` and the board after is `AfterClaim`: without three tokens the claim is dropped and nothing changes, `isFrozen` included; a point and a fresh deadline iff scored; a scored claim keeps the card and tokens of every slot off its tokens |
| Game2.Dealer.JudgeSet | Dealer2.java:328-349 | the three token slots hold cards; the claim scores iff their cards form a set; verdict `Judged`, board `AfterClaim`, a point and a fresh deadline iff scored; a scored claim keeps every slot off its tokens |
| Game2.Dealer.TestClaim | Dealer2.java:329-333 | `testSet` on the claim's cards: true iff they form a set, and then the board is `AfterClaim` of a scored claim; otherwise the board is unchanged |
| Game2.Dealer.CardsUnder | Dealer2.java:329-332 | the cards under the token slots, in order |
| Game2.Dealer.Reward | Dealer2.java:333-336 | one point and a fresh deadline |
| Game2.Dealer.Punish | Dealer2.java:338-349 | the player's token list is emptied and the player leaves every slot's list |
| Game2.Dealer.ReturnTokens | Dealer2.java:340-348 | the player's list is cleared and the player is withdrawn from every slot |
| Game2.Dealer.LiftTokens | Dealer2.java:346-348 | the player leaves exactly the listed slots' lists |
| Game2.Dealer.UpdateTimerDisplay | Dealer2.java:222-239 | shows `max(deadline - now, 0)`; warns iff not reset and at most the warning time remains; a reset sets the deadline to `now + turnTimeoutMillis` |
| Game2.Dealer.Terminate | Dealer2.java:98-105 | the dealer's flag is raised and every player is told to terminate |
| Game2.Dealer.SetPlayersLock | Dealer2.java:360-370 | every player's table lock is set to the given status |
| Table1.Listed | Table.java:151-156 | a null token list reads as empty |
| Table1.Table.constructor | Table.java:44-55 | null slots and cards, no token list yet, a null grid, and a valid table |
| Table1.Table.CountCards | Table.java:85-91 | the number of occupied slots, at most the table size |
| Table1.Table.PlaceCard | Table.java:100-117 | both maps are set, and the card goes into the first null cell in row-major order whatever the slot; validity kept when slot and card were free |
| Table1.Table.RemoveCard | Table.java:123-144 | on an occupied slot: both map entries and the slot's token list become null, and the cell showing the card is cleared |
| Table1.Table.PlaceToken | Table.java:151-161 | on an occupied slot the player joins the list, which is created if null; otherwise nothing changes |
| Table1.Table.RemoveToken | Table.java:169-177 | true iff the slot's list exists, with the player's first entry removed; otherwise false and nothing changes |
| Table1.Table.GetCard | Table.java:181-183 | the slot's entry, whose card lies in this slot |
| Table1.Table.GetSlot | Table.java:185-187 | the card's entry, whose slot holds this card |
| Table1.Table.GetSlotToCard | Table.java:196-198 | the slot array itself |
| Table1.Table.RemoveAllCardsFromTable | Table.java:189-194 | needs a table at least as large as the deck with those slots full; everything then ends empty |
| Table1.Table.EmptySlotsEmptyTable | Table.java:14 | with every slot empty, a valid table has no card, token list or grid entry |
| Game1.Toggled | Player.java:156-165 | the queue after a press: the slot joins, leaves, or nothing changes |
| Game1.ToggledBounded | Player.java:157 | a press keeps the queue within capacity 3 and free of repetition |
| Game1.ToggledMembers | Player.java:156-165 | the slot is queued afterwards iff it joined, and no other slot joins or leaves |
| Game1.ToggledTwice | Player.java:156-165 | two presses on a slot that joined give back the original queue |
| Game1.Player.constructor | Player.java:74-83 | score 0, empty queue, not frozen, not terminated |
| Game1.Player.KeyPressed | Player.java:156-171 | the queue changes as `Toggled` says, a token is placed or removed with it, and the claim flag is raised iff the queue is full |
| Game1.Player.SetQueueToArray | Player.java:176-184 | the cards under the three queued slots, in order and distinct |
| Game1.Player.Point | Player.java:192-207 | the score rises by exactly one and the player is frozen |
| Game1.Player.Penalty | Player.java:212-222 | the player is frozen and the score is untouched |
| Game1.Player.Score | Player.java:224-226 | the score, non-negative |
| Game1.Player.Terminate | Player.java:131-139 | the terminate flag is raised |
| Game1.Dealer.constructor | Dealer.java:44-49 | the deck is `0..deckSize-1` in order |
| Game1.Dealer.TopScore | Dealer.java:155-160 | the first loop computes `MaxScore` of the scores |
| Game1.Dealer.CollectWinners | Dealer.java:162-169 | an array of one entry per player: the winners' ids in player order, then zeros |
| Game1.Dealer.AnnounceWinners | Dealer.java:153-176 | winners at the top score then zeros, non-empty with players, and every player terminated |
| Game1.Dealer.TerminateAll | Dealer.java:172-175 | every player is told to terminate and no score changes |
| Game1.Dealer.TestSet | Dealer.java:182-199 | false unless three long and a set, with nothing changed; a set empties the slots named by the ids |
| Game1.Dealer.RemoveAllCardsFromTable | Dealer.java:132-148 | the table is emptied and the deck is unchanged |
| AsWritten.RemoveAt | Table2.java:204 | `remove(int)` on a list removes the entry at that index, and throws when the index is out of range |
| AsWritten.RemoveAtMissesPlayer | Table2.java:204 | when another player sits at position `player`, that player's token is removed instead |
| AsWritten.RemoveTokenCounterexample | Table.java:171 | concrete lists on which removal by index takes the wrong token, or throws |
| AsWritten.ScanAsWritten | Table2.java:160-170 | the unboxing grid scan finds only a cell that holds the card |
| AsWritten.ScanThrowsIff | Table2.java:163 | the scan throws iff a null cell comes before every cell showing the card |
| AsWritten.ScanCounterexample | Table2.java:236-249 | once the first cell is null, the scan for any card throws |
| AsWritten.DealAsWritten | Dealer2.java:156-167 | the deal with the placement counter as slot keeps the table size and never grows the deck |
| AsWritten.DealAsWrittenOnEmpty | Dealer2.java:156-167 | on an empty table the counter equals the cell index |
| AsWritten.DealAsWrittenAgreesOnEmpty | Dealer2.java:156-167 | on an empty table the deal as written is the corrected `Deal` |
| AsWritten.GetCardAsWritten | Table2.java:221-227 | the unboxing `getCard`: throws iff the slot is empty, and otherwise returns the slot's card |
| AsWritten.GetCardCounterexample | Player2.java:108-115 | on an empty slot no token sits, so a press offers it to an empty queue, from which `treatSetQueue` takes it, and `getCard` as written throws there |
| AsWritten.DealCounterexample | Dealer2.java:163-164 | a concrete table on which the deal as written overwrites a card and leaves a slot empty |

## Left out

- Threads, `run` loops, `wait`/`notifyAll`, the blocking `take()`, interrupts and `Thread.sleep` are not modelled. Each method is one sequential step, so an interleaving of two threads is not captured.
- The point and penalty freezes are timed sleeps and are not modelled. Only the `isFrozen` flag's final value is kept.
- The earlier draft's `keyPressed` wait loop (Player.java:148-154) is a thread wait and is not modelled.
- `blockPlayersTokens`/`unblockPlayersTokens` are modelled as `Game2.Dealer.SetPlayersLock` only. `placeCardsOnTable`, `testSet`, `removeCardsFromTable` and `removeAllCardsFromTable` do not call it in the model, because with one sequential step no key press can arrive while they run.
- `env.ui`, `env.logger`, `System.out.println` and `Table.hints()` are left out: they only display.
- `env.util.testSet` and `env.util.findSets` belong to a library that is not part of this model. The matching rule is an uninterpreted `Matcher`, and `findSets(deck, 1)` becomes the flag `deckHasSet`.
- `Collections.shuffle` is a parameter: any permutation of the deck.
- `System.currentTimeMillis()` is the parameter `now`.
- `createArtificialIntelligence`, `generateRandomNumber` and `generateRandomSet` (Player2.java:264-298, Player.java:229-250) are random move generators. They are not modelled, including the double add of `generateRandomSet` and its `remove(int)` at Player2.java:284.
- The earlier draft's `removeCardsFromTable` and `placeCardsOnTable` (Dealer.java:100-113) are empty stubs, so no model is needed.
- The earlier draft's `updateTimerDisplay`, `sleepUntilWokenOrTimeout` and `terminate` are not modelled.
- The earlier dealer has no claim queue: `playerToQueue` and `isThereSet` are missing from Dealer.java. `Game1.Player.KeyPressed` reports the full queue to its caller instead.
- The later dealer's `terminate` call inside `placeCardsOnTable` is modelled only as the raised dealer flag. The players' termination there is not modelled.
- Game2.Player.Score: Java's 32-bit `int` score is an unbounded integer here. Wrap-around after 2^31-1 points is not modelled.
- Table2.Table.constructor: the slot count is `rows*columns`. The source takes `config.tableSize` separately, and the grid mirror needs the two to agree.
- Game2.Player.TreatSetQueue: a step on an empty queue does nothing, where the source blocks in `take()`.
- Game2.Player.TreatSetQueue: the dealer is a parameter rather than a field.
- Table1.Table.Valid: does not state that every card on the table is shown in the grid. It only states that the grid shows cards of the table, each once.
- Game2.Dealer.RemoveAllCardsFromTable: does not state that the players' `isFrozen` flags stay as they were. They do, since every claim is dropped once the table is cleared, but the judging loop's invariants do not carry the flags. The flags `terminate` and `lockTable` are framed out.
- Game2.Dealer.RemoveCardsFromTable: does not state that a player's `isFrozen` flag stays when all its claims are dropped, for the same reason.
- Game2.Dealer.RemoveCardsFromTable: its verdicts and boards are ghost results, so the board each claim was judged on is a snapshot of the deck and the table's four maps; the grid is kept only as the table's validity.
- Game1.Dealer.TestSet: states the slot contents after a legal set only through `slotToCard`. The grid's effect is kept only as the table's validity.

## Findings

| source | as written | input that shows it | evidently intended | confidence | as-written member | corrected member |
|---|---|---|---|---|---|---|
| Table2.java:204 | `slotsToPlayers[slot].remove(player)` (and `remove(slot)` at Table2.java:207, `remove(player)` at Table.java:171) calls `List.remove(int)`, which removes by index | players `[2, 0, 1]` on a slot and `removeToken(0, slot)`: player 2's token goes and player 0's stays; player 1 alone on a slot and `removeToken(1, slot)` throws | remove the value: the player (or the slot) leaves the list | high, not executed | AsWritten.RemoveTokenCounterexample | Table2.Table.RemoveToken |
| Table2.java:163 | `grid[row][col] == card` compares an `Integer` cell with an `int`, so a null cell is unboxed and throws (also Dealer2.java:293 and Table.java:135) | a grid whose first cell is null, such as the grid after the first `removeCard` of `removeAllCardsFromTable`: the next scan throws | compare cells as nullable values and skip null cells | high, not executed | AsWritten.ScanCounterexample | Table2.Table.EraseFromGrid |
| Dealer2.java:163 | `placeCard(card, slot)` passes the count of cards placed so far as the slot, not the index of the filled cell | a table showing card 0 in slot 0 with slot 1 empty and deck `[1]`: card 1 overwrites slot 0 and slot 1 stays empty | place the card in slot `j + cols*i`, the slot of its cell | high, not executed | AsWritten.DealCounterexample | Game2.Dealer.PlaceCardsOnTable |
| Table2.java:223 | `int card = this.slotToCard[slot]` unboxes the entry, so `getCard` throws on an empty slot; `treatSetQueue` calls it (Player2.java:109) before its test `card != null` (Player2.java:115), and the exception is not the `InterruptedException` it catches (Player2.java:129) | a key press on an empty slot while the key-press queue is empty: `keyPressed` offers the slot, and the next `treatSetQueue` throws and ends the player's thread | return the nullable entry, so that an empty slot gets no token | high, not executed | AsWritten.GetCardCounterexample | Game2.Player.TreatSetQueue |
