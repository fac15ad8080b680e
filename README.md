# Mini-games of the Đổi Mới presentation site, in Dafny

The site's mini-game page (`src/pages/MiniGamePage.tsx`) holds the only
state machines of the application:

- **SurvivalGame** ("Siêu thị Tem Phiếu"): a 30-second countdown. The player
  clicks items of an eight-item catalogue, four of which are essential. Each
  item can be picked once. An essential item earns 10 points and any other
  item costs 5, but the score never drops below 0. When the clock reaches 0
  the game is over, and clicks are ignored until the player restarts.
- **StrategyGame** ("Nhà Hoạch Định Chiến Lược"): six tagged items are dragged
  into three baskets (food, consumer goods, exports). A drop into the
  item's own basket earns 10 points. It moves the item out of the pool into
  that basket. Any other drop costs 5 points, clamped at 0, and moves
  nothing. The two heavy-industry items have no basket and can never be
  placed.
- **MiniGamePage** (the host): clicking a game card shows that game's
  instructions. Starting mounts the game, and closing unmounts it.

Each component is modelled twice over, in the same module:

- A value of its state, with one step function per handler. These functions
  are the specification.
- A `class` whose fields are the component's state variables. Its methods
  update those fields as the handlers do, and each method's `ensures` ties
  the new state to the step function applied to the old state.

The lemmas prove, about the step functions:
- the invariants every handler keeps;
- the bounds and the countdown;
- the pool/basket partition;
- a concrete pick sequence.

Modules: `Scoring` (the shared +10 / −5-clamped rule), `Optional` (the
optional value both the survival game and the page use), `Survival`,
`Strategy`, `Host`.

The survival game has no pick quota: a round ends only when the clock runs
out. The drag game has no timer, no counters of right and wrong drops and
no completion check, and a heavy-industry drop removes nothing from the
pool.

## Model

| member | source | states |
|---|---|---|
| Scoring.Penalized | src/pages/MiniGamePage.tsx:242 | a penalty gives `score - 5` when that is at least 0 and 0 otherwise; the result is never negative and never above a non-negative score |
| Scoring.Rewarded | src/pages/MiniGamePage.tsx:239 | a reward adds exactly 10; from a non-negative score the result is positive |
| Survival.CatalogueShape | src/pages/MiniGamePage.tsx:213-222 | the eight catalogue names are pairwise distinct, and an item is essential exactly when it is one of the first four |
| Survival.Catalogue | src/pages/MiniGamePage.tsx:213-222 | the survival catalogue has eight items (their names and tags are stated by `CatalogueShape`) |
| Survival.FindByName | src/pages/MiniGamePage.tsx:317 | `find` by name returns a catalogue item carrying that name, and returns nothing only when no item has that name |
| Survival.IsEssentialIn | src/pages/MiniGamePage.tsx:317 | a name passes the `find(...)?.isEssential` test only if some catalogue item with that name is essential, and a name no item carries never passes |
| Survival.EssentialNameIsListed | src/pages/MiniGamePage.tsx:317 | a name passes the `find(...)?.isEssential` test only if it is one of the four essential names |
| Survival.CatalogueItemLookup | src/pages/MiniGamePage.tsx:317 | looking up a catalogue item by its name finds an item with the same essential tag, and its name is a catalogue name |
| Survival.ItemLookup | src/pages/MiniGamePage.tsx:317 | in any catalogue with distinct names, an item's name is listed and the essential test on it agrees with the item's own tag |
| Survival.LookupFindsItem | src/pages/MiniGamePage.tsx:317 | in a catalogue with distinct names, `find` by an item's name returns that very item |
| Survival.EssentialPicksIn | src/pages/MiniGamePage.tsx:316-318 | for any catalogue, the summary filter keeps exactly the picked names that the catalogue marks essential, and is no longer than the picks |
| Survival.EssentialPicks | src/pages/MiniGamePage.tsx:316-318 | over the game's catalogue, the summary keeps exactly the picked names that are essential, and is no longer than the picks |
| Survival.EssentialPicksAppend | src/pages/MiniGamePage.tsx:316-318 | one more pick extends the summary by that name exactly when it is essential, and leaves it unchanged otherwise |
| Survival.EssentialPicksNoDuplicates | src/pages/MiniGamePage.tsx:316-318 | filtering picks without repetitions gives a summary without repetitions |
| Survival.EssentialCountBounds | src/pages/MiniGamePage.tsx:316-320 | when no name was picked twice, the end-of-game count is at most the number of picks and at most 4 |
| Survival.Initial | src/pages/MiniGamePage.tsx:199-211 | a mounted game has 30 seconds, score 0, is not over, has no picks and shows no feedback (hidden, not correct, empty message) |
| Survival.TickStep | src/pages/MiniGamePage.tsx:224-231 | a timer firing takes exactly one second off only while the clock is above 0 and the game is running; the game is over afterwards exactly when it was already over or the clock reads 0; score, picks and feedback are unchanged |
| Survival.ClickStep | src/pages/MiniGamePage.tsx:233-244 | a click after game over, or on an item already picked, changes nothing; any other click appends exactly that name, adds 10 for an essential item or applies the clamped penalty otherwise, shows feedback marked correct exactly for an essential item with the message "+10 điểm!" or "-5 điểm!" accordingly, and leaves the clock alone |
| Survival.ClearFeedbackStep | src/pages/MiniGamePage.tsx:245-248 | the delayed callback resets the feedback to hidden, not correct, empty message, and changes nothing else |
| Survival.RestartStep | src/pages/MiniGamePage.tsx:251-256 | restarting gives the mounted state back (30 s, score 0, not over, no picks) but keeps the feedback message |
| Survival.InitialInvariant | src/pages/MiniGamePage.tsx:199-202 | the mounted state satisfies the invariant: clock in 0..30 and at 0 exactly when over, score between 0 and 10 per essential pick, distinct catalogue picks |
| Survival.TickPreservesInvariant | src/pages/MiniGamePage.tsx:224-231 | the countdown keeps the invariant, so the clock never goes negative |
| Survival.ClickPreservesInvariant | src/pages/MiniGamePage.tsx:233-244 | a click on a catalogue item keeps the invariant: the score stays non-negative and no name is picked twice |
| Survival.ClickScoreBound | src/pages/MiniGamePage.tsx:238-243 | after a new pick, the score is non-negative and at most 10 per essential pick |
| Survival.ClearFeedbackPreservesInvariant | src/pages/MiniGamePage.tsx:245-248 | hiding the feedback keeps the invariant |
| Survival.RestartPreservesInvariant | src/pages/MiniGamePage.tsx:251-256 | restarting from any state lands in a state satisfying the invariant |
| Survival.ReachableBounds | src/pages/MiniGamePage.tsx:213-244 | in every reachable state there are at most 8 picks, at most 4 of them essential, and the score is at most 40 |
| Survival.GameOverIsFinal | src/pages/MiniGamePage.tsx:225-234 | once the game is over, neither a timer step nor any click changes the state |
| Survival.Countdown | src/pages/MiniGamePage.tsx:224-231 | from a reachable state, `n` ticks (with `n` at most the time left) take exactly `n` seconds off; the game is over exactly when the clock has run out; score and picks do not change |
| Survival.FullRoundEnds | src/pages/MiniGamePage.tsx:199 | 30 ticks from the mounted state reach 0 seconds with the game over, and a further tick changes nothing |
| Survival.PickScenario | src/pages/MiniGamePage.tsx:213-244 | Gạo gives 10; then Bánh kẹo gives 5; then Bánh kẹo again leaves the state unchanged; the picks are `["Gạo", "Bánh kẹo"]` |
| Survival.SurvivalGame.constructor | src/pages/MiniGamePage.tsx:198-211 | the component's fields start as the mounted state `Initial()` |
| Survival.SurvivalGame.Tick | src/pages/MiniGamePage.tsx:224-231 | the fields after a timer firing are `TickStep` of the fields before, so `TickPreservesInvariant` and `Countdown` apply to the component |
| Survival.SurvivalGame.HandleItemClick | src/pages/MiniGamePage.tsx:233-244 | for any item, the fields after a click are `ClickStep` of the fields before, so `ClickPreservesInvariant` applies to catalogue clicks |
| Survival.SurvivalGame.ClearFeedback | src/pages/MiniGamePage.tsx:245-248 | the fields after the callback are `ClearFeedbackStep` of the fields before |
| Survival.SurvivalGame.RestartGame | src/pages/MiniGamePage.tsx:251-256 | the fields after a restart are `RestartStep` of the fields before, so `RestartPreservesInvariant` applies |
| Strategy.CatalogueIdsDistinct | src/pages/MiniGamePage.tsx:451-458 | the six items of the pool have pairwise distinct ids |
| Strategy.Catalogue | src/pages/MiniGamePage.tsx:451-458 | the pool starts with six items (their ids are told apart by `CatalogueIdsDistinct`) |
| Strategy.CatalogueItemsById | src/pages/MiniGamePage.tsx:451-458 | two catalogue items with the same id are the same item |
| Strategy.Initial | src/pages/MiniGamePage.tsx:450-463 | a mounted game has score 0, the six catalogue items in the pool and three empty baskets |
| Strategy.WithoutId | src/pages/MiniGamePage.tsx:472 | filtering by id keeps exactly the pool items with another id, and never lengthens the pool |
| Strategy.WithoutIdRemovesOnly | src/pages/MiniGamePage.tsx:472 | when one item is the only pool entry with its id, the filter removes every copy of that item and nothing else |
| Strategy.DropStep | src/pages/MiniGamePage.tsx:465-478 | a matching drop adds exactly 10, appends the item to that basket only, leaves the other baskets alone and removes exactly the pool items with that id; a mismatched drop changes only the score, by the clamped penalty; the basket keys never change |
| Strategy.RestartStep | src/pages/MiniGamePage.tsx:480-500 | restarting from any state gives score 0, all six items back in the pool and three empty baskets |
| Strategy.BasketLabel | src/pages/MiniGamePage.tsx:532-543 | each of the three headings "Lương thực", "Hàng tiêu dùng", "Hàng xuất khẩu" is shown by exactly one basket, the one whose key is `luongthuc`, `tieudung` or `xuatkhau` respectively |
| Strategy.CategoryColor | src/pages/MiniGamePage.tsx:393-399 | the green set goes to the food heading and only to it, the blue set to the consumer-goods heading and only to it, and every other heading gets the purple set |
| Strategy.CategoryIcon | src/pages/MiniGamePage.tsx:401-405 | 🌾 goes to the food heading and only to it, 🛍️ to the consumer-goods heading and only to it, and every other heading gets 📦 |
| Strategy.InitialInvariant | src/pages/MiniGamePage.tsx:450-463 | the mounted state has a non-negative score and exactly the three baskets, each holding only its own category, and it is partitioned: pool plus baskets hold each catalogue item exactly once |
| Strategy.DropPreservesInvariant | src/pages/MiniGamePage.tsx:465-478 | any drop into one of the three baskets keeps the score non-negative, the three basket keys, and every basket holding only its own category |
| Strategy.RestartPreservesInvariant | src/pages/MiniGamePage.tsx:480-500 | restarting from any state yields a state satisfying the invariant, partitioned |
| Strategy.DropPreservesPartition | src/pages/MiniGamePage.tsx:465-472 | a drop of an item taken from the pool keeps each catalogue item exactly once across pool and baskets |
| Strategy.PoolLosesOneCopy | src/pages/MiniGamePage.tsx:472 | in a partitioned state, filtering the pool by a pool item's id removes exactly that one item |
| Strategy.BasketsGainOneCopy | src/pages/MiniGamePage.tsx:468-471 | appending the item to one basket adds exactly that item to the baskets taken together |
| Strategy.HeavyIndustryNeverPlaced | src/pages/MiniGamePage.tsx:473-477 | a `congnghiep` item dropped into any of the three baskets only costs the clamped penalty; pool and baskets are unchanged |
| Strategy.HeavyIndustryInPool | src/pages/MiniGamePage.tsx:532-543 | in a partitioned state whose baskets hold only their own category, every heavy-industry catalogue item is in the pool |
| Strategy.Run | src/pages/MiniGamePage.tsx:465-478 | a sequence of drops into the three baskets keeps exactly the three basket keys |
| Strategy.HeavyIndustryStaysInPool | src/pages/MiniGamePage.tsx:465-477 | whatever catalogue items are dropped into whatever baskets, a heavy-industry item in the pool is still there afterwards |
| Strategy.StaleBasketDrop | src/pages/MiniGamePage.tsx:385-387 | what a basket actually runs: a matching drop gives the drop applied to the initial state (score 10, the initial pool minus the item, the initial baskets plus the item); a wrong drop sets the score to 0 and leaves the current pool and baskets as they are |
| Strategy.StaleDropLosesProgress | src/pages/MiniGamePage.tsx:381-391 | two correct drops through the stale handler score 10 and put the first item back in the pool and out of its basket; the intended handler scores 20 and keeps both placements |
| Strategy.StaleWrongDropZeroesScore | src/pages/MiniGamePage.tsx:473-477 | after a correct drop, a wrong drop through the stale handler leaves score 0 and keeps the placement, where the intended handler leaves 5 |
| Strategy.CorrectDropsAccumulate | src/pages/MiniGamePage.tsx:466-467 | with the intended handler, `n` correct drops raise the score by exactly `10 * n` |
| Strategy.StrategyGame.constructor | src/pages/MiniGamePage.tsx:449-463 | the component's fields start as the mounted state, satisfying the invariant and partitioned |
| Strategy.StrategyGame.HandleDrop | src/pages/MiniGamePage.tsx:465-478 | the fields after a drop are `DropStep` of the fields before; the invariant is kept, and so is the partition when the item came from the pool |
| Strategy.StrategyGame.RestartGame | src/pages/MiniGamePage.tsx:480-500 | the fields after a restart are `RestartStep` of the fields before, satisfying the invariant and partitioned |
| Host.Initial | src/pages/MiniGamePage.tsx:561-567 | the page starts with no game mounted, no game waiting and the instructions flag off, so no overlay is shown |
| Host.InstructionsOverlay | src/pages/MiniGamePage.tsx:667 | instructions are shown exactly when `showInstructions` is set and a game is waiting, and then they are that game's |
| Host.GameOverlay | src/pages/MiniGamePage.tsx:678 | the game overlay is shown exactly when a game is mounted, and shows that game |
| Host.GameClickStep | src/pages/MiniGamePage.tsx:569-572 | clicking a card shows that game's instructions and leaves the mounted game as it was |
| Host.StartGameStep | src/pages/MiniGamePage.tsx:574-577 | starting mounts the waiting game (if any), turns the instructions flag off and keeps the waiting game recorded |
| Host.CloseInstructionsStep | src/pages/MiniGamePage.tsx:670 | closing the instructions turns the instructions flag off and changes nothing else |
| Host.CloseGameStep | src/pages/MiniGamePage.tsx:579-582 | closing the game clears both game fields, so neither overlay is shown, and does not touch `showInstructions` |
| Host.OpenStartClose | src/pages/MiniGamePage.tsx:569-582 | click then start mounts exactly the clicked game with no instructions on top; closing then returns the page to its first state |
| Host.StartWithoutChoice | src/pages/MiniGamePage.tsx:574-577 | starting when no game is waiting mounts nothing |
| Host.MiniGamePage.constructor | src/pages/MiniGamePage.tsx:560-567 | the page's fields start as the initial state |
| Host.MiniGamePage.HandleGameClick | src/pages/MiniGamePage.tsx:569-572 | the fields after a card click are `GameClickStep` of the fields before |
| Host.MiniGamePage.HandleStartGame | src/pages/MiniGamePage.tsx:574-577 | the fields after starting are `StartGameStep` of the fields before |
| Host.MiniGamePage.CloseInstructions | src/pages/MiniGamePage.tsx:670 | the fields after closing the instructions are `CloseInstructionsStep` of the fields before |
| Host.MiniGamePage.HandleCloseGame | src/pages/MiniGamePage.tsx:579-582 | the fields after closing the game are `CloseGameStep` of the fields before |

## Left out

- Rendering, Tailwind classes, framer-motion animation, item images and the
  text of the instructions overlay (`src/pages/MiniGamePage.tsx:17-195`).
  These are presentation only. The model has the instructions overlay's
  visibility but not its content.
- Real time. The countdown's `setTimeout`/`clearTimeout` pair becomes an
  explicit `Tick`. It means one timer firing followed by the effect re-running
  on the new state. The one-second feedback timeout becomes an explicit
  `ClearFeedback`. When these callbacks fire relative to clicks is not
  modelled. In particular, an earlier feedback timeout can hide a later
  pick's message early.
- The `alert` on a wrong drop (`src/pages/MiniGamePage.tsx:476`). It is a
  browser side effect that does not change state.
- The react-dnd plumbing (`useDrag`, `DndProvider`, hover highlighting). A
  drop is a call of `HandleDrop` with the basket's key. The one exception is
  the memoised drop callback, under Findings.
- React's state scheduling. Each event is taken to see the state rendered
  after the previous event.
- Mounting and unmounting. Opening a game builds a fresh component (a
  constructor call), and closing the overlay drops it. The host class does
  not hold the game objects.
- Strategy.StrategyGame.HandleDrop: keeps the partition only for an item
  taken from the pool. The handler has no "already placed" guard, and the
  page only renders pool items as draggable.

## Findings

| source | as written | input that shows it | evidently intended | confidence | as-written member | corrected member |
|---|---|---|---|---|---|---|
| src/pages/MiniGamePage.tsx:385-387 | `useDrop(() => ({ drop: (item) => onDrop(item) }))` is given no dependency list, and react-dnd memoises a spec factory with no dependencies for the component's lifetime. Each basket therefore keeps the `onDrop` of the first render, whose `handleDrop` sees the initial score, pool and baskets. Each field the handler sets is computed from the initial state, and a field it does not set keeps its current value: a correct drop rebuilds pool and baskets from the initial ones, and a wrong drop sets the score to 0 | drop Lúa gạo into the food basket, then Quần áo into the consumer-goods basket: score 10 instead of 20, Lúa gạo back in the pool, food basket empty | every drop applies `handleDrop` to the current state, so scores add up and placements persist | medium; not executed (follows react-dnd's memoisation of factory specs) | Strategy.StaleDropLosesProgress | Strategy.CorrectDropsAccumulate |
