# Player token bookkeeping of the Set card game

This project models the part of a Set-game player that keeps track of its
own tokens and its score. A player owns three token cells. Each cell holds
the table slot where the player has placed a token, or `-1` when the cell
is free. A counter `countTokens` travels with the cells. A key press on a
slot toggles the player's token there:

- if a cell already holds the slot, that cell is cleared, the counter drops
  and the table is told to remove the token;
- otherwise, if a cell is free, the slot is written into the free cell with
  the highest index (the scan keeps overwriting its candidate), the counter
  rises and the table is told to place the token;
- otherwise every cell is full and nothing happens.

Awarding a point raises the score by one and reports the new score to the UI.

Two modules:

- `Tokens` (tokens.dfy): the cells as a `seq<int>`, the press as the pure
  function `Press` with its counter change `PressCount`, and the lemmas
  about them. These cover the three cases, the invariant, the press-twice
  round trip, and why a press of `-1` must not happen.
- `PlayerModel` (player.dfy): the class `Player` with an `array<int>` of
  three cells, the counter, the score and an unused action queue.
  `KeyPressed` runs the source's loop with early exit in place. It is proved
  to compute `Press` on the old cells. Calls to the table and the UI are
  appended to a ghost event log `log`.

## Model

| member | source | states |
|---|---|---|
| `PlayerModel.Player.constructor` | src/main/java/bguspl/set/ex/Player.java:74-85 | all three cells are -1, the counter and the score are 0, the action queue and the event log are empty, and the token invariant holds |
| `PlayerModel.Player.KeyPressed` | src/main/java/bguspl/set/ex/Player.java:135-158 | the array afterwards is `Press` of the old cells and the counter is `PressCount` of the old state. The log gains one `RemoveToken`, one `PlaceToken` or nothing, according to the case. For any slot other than -1 the token invariant is preserved |
| `PlayerModel.Player.Point` | src/main/java/bguspl/set/ex/Player.java:160-170 | the score rises by exactly 1, `score >= 0` is kept, and the log gains `SetScore(id, new score)` |
| `PlayerModel.Player.Score` | src/main/java/bguspl/set/ex/Player.java:179-181 | returns the current score, which is non-negative |
| `Tokens.Occupied` | src/main/java/bguspl/set/ex/Player.java:56-58 | the number of occupied cells is at most the number of cells, and is 0 exactly when every cell is -1 |
| `Tokens.Find` | src/main/java/bguspl/set/ex/Player.java:138-146 | the cell the loop stops at: the first index holding the slot, with no earlier match; absent exactly when no cell holds the slot |
| `Tokens.LastFree` | src/main/java/bguspl/set/ex/Player.java:147-150 | the free cell the loop remembers last: a free index with no free cell after it; absent exactly when no cell is free |
| `Tokens.OccupiedUpdate` | src/main/java/bguspl/set/ex/Player.java:143-156 | overwriting one cell changes the number of occupied cells by what that cell loses and gains. This is why the counter's -1 and +1 match the array updates |
| `Tokens.OccupiedIsHeldSize` | src/main/java/bguspl/set/ex/Player.java:56-58 | when the tokens are distinct, the counter's reference value equals the number of distinct slots held |
| `Tokens.PressHeld` | src/main/java/bguspl/set/ex/Player.java:138-146 | if some cell holds the slot, the first such cell alone becomes -1, the counter drops by exactly 1 and no token is placed. With distinct tokens the slot leaves the held set |
| `Tokens.PressFree` | src/main/java/bguspl/set/ex/Player.java:147-156 | if no cell holds the slot and one is free, the slot goes into the highest-indexed free cell and the other cells are unchanged. The counter rises by 1 and the held set gains the slot |
| `Tokens.PressFull` | src/main/java/bguspl/set/ex/Player.java:152 | if no cell holds the slot and none is free, the press is `Ignored`: the cells and the counter are unchanged, so `KeyPressed` logs no table call |
| `Tokens.PressPreservesConsistency` | src/main/java/bguspl/set/ex/Player.java:135-158 | a press of any slot other than -1 keeps the invariant: the counter equals the number of occupied cells, occupied cells are pairwise distinct, and the counter stays between 0 and 3 |
| `Tokens.EmptyPressBreaksCounter` | src/main/java/bguspl/set/ex/Player.java:140-144 | the -1 exclusion is needed: in a consistent state with a free cell, a press of -1 matches the free cell, leaves the cells as they were, lowers the counter and breaks the invariant |
| `Tokens.PressTwice` | src/main/java/bguspl/set/ex/Player.java:138-156 | pressing the same real slot twice restores the counter and the set of held slots. If the slot was not held at first, the cells come back exactly |
| `Tokens.PressTwiceMayMoveToken` | src/main/java/bguspl/set/ex/Player.java:147-150 | the cells themselves need not come back: a token removed from cell 0 returns in cell 1, the highest free cell |
| `Tokens.PressAllPreservesConsistency` | src/main/java/bguspl/set/ex/Player.java:135-158 | any sequence of presses of real slots keeps the invariant, so the counter never exceeds 3 |

The class documentation's invariant `id >= 0` is expressed by giving `id`
the type `nat`. `score >= 0` is part of `Player.Valid()`.

## Left out

- `run()`: the main player loop is an empty busy-wait on a volatile flag, plus a thread join and logging. This is concurrency and I/O.
- `createArtificialIntelligence()`: it starts a second thread that presses `countTokens` as a slot and waits on the player's monitor. This is thread behaviour, not bookkeeping.
- `terminate()` and `penalty()`: their bodies are empty, so there is nothing to specify.
- The `Table`, `Env`, `Dealer`, UI and logger classes are not part of this model. `placeToken`, `removeToken` and `setScore` are recorded as `Event`s in the ghost log. The constructor's `env`, `dealer` and `table` parameters are left out.
- `table.countCards()` in `point()`: its result is discarded and it changes nothing the player owns, so it is not logged.
- The `actions` queue is only modelled as an empty field: the source creates it and never uses it.
- `PlayerModel.Player.Point`: does not model Java's 32-bit wrap-around of `++score`. The score is an unbounded integer, so `score >= 0` holds after every point. In the source the score would wrap to a negative value on the 2^31-th point.
- `PlayerModel.Player.KeyPressed`: does not model the 32-bit range of `countTokens` either. It only matters after about 2^31 presses of -1.
- Synchronisation: `keyPressed` is called from other threads without any lock in the source. The model treats each call as atomic.
