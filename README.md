# Draw of 24 teams into 6 pools over 4 rounds — Dafny model

`app.js` runs a draw that puts 24 teams into 6 pools over 4 rounds, one team
at a time. On every reset it shuffles the team ids 0..23 into a random
order with Fisher–Yates. A slot pointer `(round, poolIndex)` then walks the
slots. It fills pools 0..5 once and then moves to the next round. Draw k
takes entry `round * 6 + poolIndex` of the order and flags that team as
assigned. A `running` flag keeps the automatic draw and the manual step
button apart.

This project models that part of `app.js` and proves properties of it:

- `Utilities.dfy` (module `Utilities`): `shuffle` as an in-place loop over an
  `array<int>`, proved against a functional description `Shuffled`. Its
  result is proved to be a permutation of its input. `Math.random()` is a
  parameter: `rand` holds the values it would return, in the order the loop
  asks for them. The swap partner is `Floor(r * (i + 1))`, and the model
  proves it lies in `[0, i]`.
- `Slots.dfy` (module `Slots`): the slot pointer as a value. It holds
  `advanceSlotPointer` as a function and the walk of 24 advances from (0, 0).
  Its lemmas prove the round-robin fill: the k-th draw fills round `k / 6`,
  pool `k % 6`; each slot is filled exactly once; a pool is refilled only in
  a later round; each pool gets four teams.
- `Draw.dfy` (module `Draw`): the `state` object as the class `State`. Its
  fields are `order` and the assigned flags (both arrays), `round`,
  `poolIndex` and `running`. Its methods are `prepareOrder`, `markAssigned`,
  `advanceSlotPointer`, `doOneDraw`, `startDrawing`, `stopDrawing`, the
  guarded manual step and `resetAll`. `nextSlot` and `pickNext` are functions
  over the fields. The object invariant `Valid()` says four things:
  - `order` is a permutation of 0..23;
  - `0 <= poolIndex < 6`;
  - the draw position `round * 6 + poolIndex` lies in 0..24;
  - the flagged teams are exactly the first `round * 6 + poolIndex` entries
    of the order.

  The constructor and `ResetAll` establish `Valid()`. `DoOneDraw`,
  `StartDrawing`, `StepOnce` and `RunToCompletion` preserve it. `PrepareOrder`
  establishes it only when no team is flagged. `MarkAssigned` and
  `AdvanceSlotPointer` are the two halves of one draw, and each of them alone
  breaks it. From the invariant, each draw takes a team that was not drawn
  before. After 24 draws every team is flagged and the next pick is null.
  `RunToCompletion` states the whole automatic run: its draws are the rest of
  the schedule, in order.

The field `state.assigned` is called `assignedFlags` in the model, because
`assigned` is a reserved word in Dafny.

Randomness is the only input from outside. The caller supplies the values of
`Math.random()` (at least 23 per shuffle, each in [0, 1)). The DOM, the
timers and the roster's names are not modelled.

## Model

| member | source | states |
|---|---|---|
| Utilities.Partner | app.js:27 | the swap partner `Math.floor(Math.random() * (i + 1))` lies in `[0, i]` for every random value in [0, 1) |
| Utilities.ScaledBelow | app.js:27 | a random value in [0, 1) times `i + 1` lies in [0, i + 1), so its floor is a valid index |
| Utilities.Swap | app.js:28 | the destructuring swap exchanges positions `i` and `j` and leaves every other position alone |
| Utilities.SwapPermutes | app.js:28 | one swap keeps the multiset of elements |
| Utilities.ShuffleFrom | app.js:26-29 | the loop from position `i` down to 1 as a function, each round consuming the next random value; it keeps the length, and its permutation property is `ShuffleFromPermutes` |
| Utilities.Shuffled | app.js:25-31 | `shuffle` on a value, with the random values in the order the loop asks for them; it keeps the length, and its permutation property is `ShuffledPermutes` |
| Utilities.ShuffleFromPermutes | app.js:26-29 | the loop from position `i` down to 1 keeps the multiset of elements |
| Utilities.ShuffledPermutes | app.js:25-31 | a full shuffle returns a permutation of its input |
| Utilities.PartnerHits | app.js:27 | every partner `j <= i` is chosen by some random value in [0, 1) |
| Utilities.ShuffleFromReaches | app.js:26-29 | every rearrangement of the first `i + 1` positions is produced by the loop from position `i` for some random values, one per round |
| Utilities.ShuffleReachesEveryPermutation | app.js:25-31 | every permutation of the input is a possible result of `shuffle`, for some `|s| - 1` random values in [0, 1) |
| Utilities.Shuffle | app.js:25-31 | returns the same array, now holding the shuffled order of its old contents, which is a permutation of them |
| Slots.Index | app.js:182 | the order index `round * 6 + poolIndex` of a slot in a round 0, 1, ... and a pool 0..5 is non-negative, with the round as its quotient by 6 and the pool as its remainder |
| Slots.Advanced | app.js:168-174 | keeps `0 <= poolIndex < 6`, raises `round * 6 + poolIndex` by exactly 1, and moves to the next round exactly when pool 5 was just filled |
| Slots.IndexRoundTrip | app.js:181-182 | the order index `round * 6 + poolIndex` and the slot `(k / 6, k % 6)` are inverse views of one draw position |
| Slots.AdvancedSlotOf | app.js:168-174 | advancing from the slot of draw k gives the slot of draw k + 1 |
| Slots.WalkVisitsSlotsInOrder | app.js:157-159 | starting from the pointer (0, 0) that `prepareOrder` sets, k advances reach slot `(k / 6, k % 6)`: the slots are visited (0,0), (0,1), ..., (0,5), (1,0), ..., (3,5) |
| Slots.DrawsStayInRange | app.js:162-174 | the 24 draws use rounds 0..3 and pools 0..5, and after them the pointer is at round 4, where `nextSlot` reports the end |
| Slots.EachSlotFilledOnce | app.js:168-174 | each (round, pool) slot is filled by exactly one of the 24 draws, the one at index `round * 6 + pool` |
| Slots.PoolRevisitedInLaterRound | app.js:168-174 | two draws into the same pool lie in different rounds, the later draw in the later round (every pool is filled once per round) |
| Slots.PoolReceivesFour | app.js:168-174 | over the 24 draws each pool receives exactly four teams, at draws p, p+6, p+12 and p+18 |
| Draw.Identity | app.js:157 | the array built by `Array.from({length:24}, (_,i)=>i)` holds `i` at every position `i` |
| Draw.IdentityCounts | app.js:157 | each id 0..n-1 occurs exactly once in the identity order, and no other value occurs |
| Draw.TeamOrderInRange | app.js:155-157 | a permutation of 0..23 has 24 entries, each a team id in [0, 24) |
| Draw.TeamOrderCovers | app.js:155-157 | every team id 0..23 occurs in such a permutation |
| Draw.TeamOrderDistinct | app.js:155-157 | no team id occurs twice in such a permutation |
| Draw.DrawMarksNewTeam | app.js:182-183 | draw k takes a team id whose flag is still clear; it sets that team's flag and leaves every other flag unchanged |
| Draw.AllAssignedAtEnd | app.js:125 | once all 24 entries of the order are drawn, every team's flag is set |
| Draw.Schedule | app.js:181-185 | the sequence of picks a full run makes: draw n takes entry n of the order into round n / 6, pool n % 6; one pick per entry |
| Draw.ScheduleDrawsEachTeamOnce | app.js:157 | over a full schedule every team id 0..23 is drawn and no team is drawn twice |
| Draw.State.constructor | app.js:11-22 | the initial state: nothing assigned, not running, pointer at (0, 0), and a fresh shuffled permutation in `order` (the `prepareOrder` call of `main`) |
| Draw.State.PrepareOrder | app.js:155-160 | `order` becomes a newly allocated shuffle of 0..23, which is a permutation of them, and the pointer is set to (0, 0); the invariant holds again when no team was flagged |
| Draw.State.NextSlot | app.js:162-166 | null exactly when `round >= 4`, otherwise the current `(round, poolIndex)`; it reads the state and changes nothing |
| Draw.State.PickNext | app.js:176-186 | null exactly when `nextSlot` is null; otherwise `round * 6 + poolIndex` lies in [0, 24), and the pick is `order[round * 6 + poolIndex]` with the current pool and round; that team is a valid id not yet flagged; it changes nothing |
| Draw.State.MarkAssigned | app.js:124-125 | sets the flag of `teamId` and changes no other flag |
| Draw.State.AdvanceSlotPointer | app.js:168-174 | the pointer becomes `Advanced` of the old pointer; no other field changes |
| Draw.State.StopDrawing | app.js:250-255 | clears `running` and nothing else, so a second call changes nothing |
| Draw.State.DoOneDraw | app.js:213-236 | with a pick: sets the flag of the picked team, which was clear before, leaves the other flags, `running` and `order` unchanged, and advances the pointer by one position; without a pick: clears `running` and leaves the flags, the pointer and `order` unchanged; the invariant is kept |
| Draw.State.StartDrawing | app.js:238-248 | a no-op while `running`; otherwise sets `running` and makes one draw, after which `running` is still set if there was a pick and cleared if there was none |
| Draw.State.StepOnce | app.js:287-290 | the manual step is ignored while `running`; otherwise it makes one draw |
| Draw.State.ResetAll | app.js:294-302 | clears `running`, allocates a fresh all-false flag array, and prepares a fresh permutation in `order` with the pointer at (0, 0); the invariant holds |
| Draw.PointerFollowsWalk | app.js:162-174 | in every valid state the pointer is where k advances from (0, 0) lead, k being the number of draws made, and `nextSlot` has a slot exactly while fewer than 24 draws are made |
| Draw.State.RunToCompletion | app.js:238-248 | `startDrawing` followed by the interval's synchronous draws until one finds no slot: the draws made are exactly the rest of the schedule, in order; at the end `running` is clear, the pointer is at draw 24, every team is flagged, `pickNext` is null, and the invariant holds |
| Draw.PickIsScheduled | app.js:176-186 | in a valid state a pick exists exactly while fewer than 24 draws are made, and it is the schedule's entry for the current draw |
| Draw.DrawComplete | app.js:164 | after the 24th draw every team is flagged and `pickNext` returns null |

## Left out

- DOM rendering and querying are left out because they are presentation only. This covers `qs`, `qsa`, `renderPools`, `renderTeamsList`, `setNowDrawing`, `resetUI`, `setToggleButtonRunning`, `finalizeDone` and the row and cell edits of `markAssigned` (app.js:126-140).
- Event wiring is left out: `bindControls`, the start/pause toggle handler (app.js:280-286), `main` and the `DOMContentLoaded` listener. Only the `running` guard of the manual step (app.js:288) is modelled, as `StepOnce`.
- Timers are left out. This covers the `setInterval` loop of `startDrawing` (app.js:244-247), the clearing of the timers in `stopDrawing` (app.js:252-253) and the spin animation of `startSpin` (app.js:189-211).
- Draw.State.DoOneDraw: models only the synchronous path, where `reveal` runs at once (app.js:232-234). With `animate: true` the source runs `reveal` only when the spin ends (app.js:206-210), so the flag and the pointer change later. The model does not capture any interleaving of timer callbacks in that gap. Reading the code suggests two consequences; neither was executed:
  - A second manual step started during a spin reads the same slot, because the pointer has not moved yet. Both pending reveals then flag the same team and each advances the pointer (app.js:223-226). One entry of the order is skipped, and its team is never flagged.
  - `stopDrawing` clears the spin interval (app.js:253) but not the pending `setTimeout` that calls `reveal` (app.js:206). A pause or a `resetAll` during a spin therefore does not cancel the reveal. After a reset, that stale reveal flags a team of the old order in the fresh flag array and moves the new pointer from (0, 0) to (0, 1).
- Draw.State.StartDrawing and Draw.State.StepOnce: both call `doOneDraw({ animate: true })` in the source. The model uses that same synchronous step.
- Draw.State.RunToCompletion: models an automatic run with no pause, no reset and no manual step between the interval's ticks. The 1800 ms period itself is not modelled.
- The decoy names of the spin (app.js:194-203) are left out: they are random and display only.
- `Math.random()` is left out. It is replaced by the caller-supplied sequence `rand` of values in [0, 1), and real arithmetic stands in for floating point.
- The roster `teams` and `initTeams` (app.js:36-66) are left out, and so is the `team` record that `pickNext` looks up (app.js:184). The model only needs the 24 team ids 0..23, so `Pick` carries the id.
- `state.pools` (app.js:15, app.js:297) is left out: it is only ever reset and never filled or read. The unused `nextPickPreviewNames` (app.js:21) is left out for the same reason.
- The timer handles `mainTimer` and `spinTimer` (app.js:19-20) are left out with the timers. They are set by `setInterval` (app.js:199, app.js:245) and cleared by `clearInterval` (app.js:198, app.js:207, app.js:244, app.js:252-253).
- Utilities.Shuffle: the model does not state that the shuffle is fair, i.e. that every ordering is equally likely, because that is a statement about probabilities. `ShuffleReachesEveryPermutation` proves the part that needs none: every permutation of the input is produced by some random values, one per swap.
