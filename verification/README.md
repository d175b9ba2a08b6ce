# WeWard letter game — a Dafny model of its core

The game shows a few photos of a random word. The player rebuilds the word by
dragging letter tiles into a row of answer slots. This project models four
parts of the game and proves properties about them:

- **letter-grid component** (`components/LetterGrid.tsx`). Its state is four
  parallel arrays:
  - `filledSpots` and `currentAnswer`, one entry per answer slot;
  - `usedLetters` and `letterToSpotMap`, one entry per tile.

  It also keeps the three-valued `isValid` flag. The model covers the drop
  handler, with its recursive nearest-slot search, the return handler on a
  tap, the reset, and the effect that checks the answer after every change.
- **grid utilities** (`utils/letterGridUtils.ts`): the loop version of
  `findNearestSpot`, `validateAnswer` and `calculateDistance`.
- **letter utilities** (`utils/letterUtils.ts`): `generateRandomLetters` and
  the Fisher-Yates `shuffleArray`.
- **round assembly** (`App.tsx`):
  - a round is kept only when the word has at most 8 letters and at least 4
    photos came back;
  - the 12-tile pool is the word's letters plus `12 - length` random fillers,
    shuffled.

Modules follow the source files:

- `LetterGridUtils` is `letter_grid_utils.dfy`.
- `LetterGrid` is `letter_grid.dfy`.
- `LetterUtils` is `letter_utils.dfy`.
- `App` is `app.dfy`.
- `Game` is `game.dfy`. It ties round assembly to the grid. It proves that
  every kept round can be solved on any measured layout, provided the player
  releases each tile at a point aimed at its slot: nearer to that slot than to
  any other, and within reach of it. It also shows that one such point exists
  for every slot of an evenly spaced row.
- `Wrappers` holds `Option`. It stands for JavaScript's `null`, `undefined`
  and `Infinity`.

Modelling choices:

- **Coordinates are integers.** The slot centre `pageX + width / 2` is kept
  exact by counting in half-units: `2 * pageX + width`.
- **Distances are squared.** The source takes the real square root
  `Math.sqrt((x - (pageX + width / 2))^2 + (y - (pageY + height / 2))^2)`.
  The model compares the integer `SlotDistance` instead: the same squared
  distance measured in half-units, against the threshold `(2 * 100)^2`.
  - `SlotDistanceIsSourceSquared` shows that `SlotDistance` is exactly four
    times the source's real squared distance, for odd sizes too.
  - `RootOrder` and `RootThreshold` state, over reals, that the root is
    monotone.
  - `SourceComparisonsAgree` combines the three facts. For any non-negative
    reals whose squares are the source's squared distances, the strict `<` of
    the search and the `<= MAX_DISTANCE` test of the drop answer exactly as the
    `SlotDistance` comparisons do.
- **`Math.random` is replaced by oracle sequences.** Each entry is the integer
  that `Math.floor(Math.random() * n)` would have produced.
- **The two rendered rows decide which events can happen.** `Enabled` only
  allows drags of unused tiles among the first twelve, and taps on rendered
  slots.
- **A tap reaches `handleReturnLetter` only on a filled slot**, as the
  `onPress` guard does.

## Model

| member | source | states |
|---|---|---|
| LetterGridUtils.CalculateDistance | utils/letterGridUtils.ts:60-62 | the squared distance is never negative, and it is zero exactly when the two points coincide |
| LetterGridUtils.DistanceSymmetric | utils/letterGridUtils.ts:60-62 | the distance between two points does not depend on their order |
| LetterGridUtils.DoubledCenter | components/LetterGrid.tsx:86-88 | the computed centre is the midpoint of the slot's left and right edges, and of its top and bottom edges |
| LetterGridUtils.RootOrder | utils/letterGridUtils.ts:37-44 | for any non-negative real distances, `<` between them holds exactly when `<` holds between their squares |
| LetterGridUtils.RootThreshold | components/LetterGrid.tsx:157-161 | a non-negative real distance is within MAX_DISTANCE (100) exactly when the square of twice it is within 40000 |
| LetterGridUtils.SourceSquared | components/LetterGrid.tsx:86-93 | the source's squared distance to the real slot centre `pageX + width / 2`, `pageY + height / 2` is never negative |
| LetterGridUtils.SlotDistanceIsSourceSquared | utils/letterGridUtils.ts:34-39 | the integer half-unit `SlotDistance` is exactly four times the source's real squared distance to the slot centre, whether the slot's sizes are odd or even |
| LetterGridUtils.SourceComparisonsAgree | components/LetterGrid.tsx:91-96 | for real distances whose squares are the source's squared distances, `di < dj` holds exactly when slot `i`'s `SlotDistance` is below slot `j`'s, and `di <= 100` exactly when slot `i`'s is within 40000 |
| LetterGridUtils.NearestUnique | utils/letterGridUtils.ts:14-47 | the nearest-slot requirement has at most one answer: -1 when there is no open slot, otherwise the first of the closest open slots |
| LetterGridUtils.FindNearestSpot | utils/letterGridUtils.ts:8-48 | the result is -1 exactly when every slot is absent or filled; otherwise it is an open slot no farther than any open slot and strictly closer than every open slot before it |
| LetterGridUtils.ValidateAnswer | utils/letterGridUtils.ts:50-58 | null exactly when some slot is unfilled; otherwise true exactly when the joined slots equal the expected answer |
| LetterGridUtils.JoinSingletons | utils/letterGridUtils.ts:57 | joining one-letter entries gives a string of the same length whose `i`-th character is the `i`-th entry |
| LetterGridUtils.ValidateAnswerPerSlot | utils/letterGridUtils.ts:50-58 | when every slot is filled with one letter, the answer is correct exactly when there are as many slots as letters and slot `i` holds letter `i` of the word |
| LetterGrid.Initial | components/LetterGrid.tsx:23-35 | the starting state (and the reset state) has every slot empty and unfilled, every tile unused and mapped to -1, and `isValid` null, with one entry per slot and per tile |
| LetterGrid.InitialConsistent | components/LetterGrid.tsx:23-35 | the starting state satisfies the slot/tile invariant |
| LetterGrid.SlotOwnedByExactlyOneTile | components/LetterGrid.tsx:200-204 | under the invariant, a slot is filled exactly when some tile maps to it; only one tile does, and that tile is used and its letter is shown in the slot; so `findIndex` finds the slot's only tile |
| LetterGrid.MeasureNextSpot | components/LetterGrid.tsx:67-105 | from any slot, given a correct choice and running minimum for the slots already measured, the recursive walk ends with the correct nearest open slot over all slots |
| LetterGrid.FindNearestSpot | components/LetterGrid.tsx:55-112 | -1 while the answer container is unmounted; otherwise the nearest open slot, with ties going to the first slot |
| LetterGrid.SearchesAgree | components/LetterGrid.tsx:55-112 | the component's recursive search returns the same slot as the loop in the utility module, whenever the container is mounted |
| LetterGrid.Place | components/LetterGrid.tsx:161-179 | the slot is filled with the tile's letter, the tile is used and mapped to the slot, and every other entry of every array is unchanged |
| LetterGrid.HandleLetterDrop | components/LetterGrid.tsx:139-186 | a drop places the tile in the slot it lands in, which is the nearest open slot if that slot is within MAX_DISTANCE; when it lands nowhere, nothing changes |
| LetterGrid.LandsInUnique | components/LetterGrid.tsx:141-161 | a drop lands in at most one slot |
| LetterGrid.DropPreservesConsistency | components/LetterGrid.tsx:139-195 | dropping an unused tile keeps the slot/tile invariant |
| LetterGrid.FindIndex | components/LetterGrid.tsx:201-204 | -1 exactly when no tile maps to the slot; otherwise the first tile that does |
| LetterGrid.Unplace | components/LetterGrid.tsx:206-227 | the slot is emptied, the tile goes back to the pool unmapped, `isValid` is reset to null, and nothing else changes |
| LetterGrid.HandleReturnLetter | components/LetterGrid.tsx:198-230 | no effect when no tile maps to the slot; otherwise the first tile mapped there is returned to the pool |
| LetterGrid.ReturnPreservesConsistency | components/LetterGrid.tsx:198-230 | returning a letter keeps the slot/tile invariant; in particular no tile is left pointing at the emptied slot |
| LetterGrid.Revalidate | components/LetterGrid.tsx:115-136 | the effect changes only `isValid`; it sets it when every slot is filled and leaves it unchanged otherwise |
| LetterGrid.RevalidateSettles | components/LetterGrid.tsx:115-136 | on a consistent state, after the effect, the component's `isValid` equals the utility `validateAnswer` |
| LetterGrid.Mount | components/LetterGrid.tsx:45-48 | the freshly mounted (or reset) component is consistent, and `isValid` agrees with `validateAnswer` |
| LetterGrid.Dispatch | components/LetterGrid.tsx:256-345 | a drag-end runs the drop handler for that tile and release point; a tap on a filled slot runs the return handler; a tap on an empty slot changes nothing; the reset button restores the initial state |
| LetterGrid.DispatchPreservesConsistency | components/LetterGrid.tsx:232-246 | every handler keeps the invariant: a drag-end, a tap on a filled slot, or a reset back to the initial arrays |
| LetterGrid.StepPreservesConsistency | components/LetterGrid.tsx:133-136 | a handler followed by the validation effect keeps the invariant and leaves `isValid` equal to `validateAnswer` |
| LetterGrid.RunPreservesConsistency | components/LetterGrid.tsx:274-341 | whatever the player does with the rendered slots and tiles, the invariant holds and `isValid` equals `validateAnswer` |
| LetterUtils.AlphabetIsUpperCase | utils/letterUtils.ts:11 | the alphabet is the 26 upper-case letters in order, and it contains every upper-case letter |
| LetterUtils.GenerateRandomLetters | utils/letterUtils.ts:10-18 | exactly `count` letters (none when `count` is not positive); letter `k` is the alphabet letter picked by draw `k`, and every letter is upper-case |
| LetterUtils.Swap | utils/letterUtils.ts:29 | the entries at the two positions are exchanged and all other entries are unchanged |
| LetterUtils.SwapPermutes | utils/letterUtils.ts:29 | a swap keeps the multiset of elements |
| LetterUtils.ShuffledAbovePermutes | utils/letterUtils.ts:25-32 | every stage of the shuffle is a permutation of the input |
| LetterUtils.ShuffledAboveSettles | utils/letterUtils.ts:27-30 | once the iteration for position `k` has run, later iterations never move the entry at `k` |
| LetterUtils.ShuffleArray | utils/letterUtils.ts:25-32 | the result has the input's length and is a permutation of it; it is the reference Fisher-Yates result for the given draws |
| App.UpperCasedIsFixed | App.tsx:37 | `toUpperCase` output is upper-cased, and upper-casing leaves a word unchanged exactly when the word is already upper-cased, as the word source guarantees |
| App.AcceptsRound | App.tsx:28 | a round is kept exactly when the word has at most 8 letters and at least 4 photos came back |
| App.FetchGameData | App.tsx:19-42 | a round is refetched exactly when the word is longer than 8 or fewer than 4 photos came back; a kept round has the word and photos, 12 tiles holding the word's letters, and exactly `12 - length` further upper-case letters |
| App.PoolFromWordAndFillers | App.tsx:37-39 | a shuffle of the word followed by the fillers contains the word's letters, and beyond them exactly the fillers |
| App.KeptAttempt | App.tsx:27-31 | the retry keeps the first attempt that passes the check, and -1 means none of the attempts passes |
| Game.PoolSpellsWord | App.tsx:37-39 | a pool that contains the word's letters as a sub-multiset gives every letter of the word its own tile |
| Game.AimedDropLands | components/LetterGrid.tsx:139-179 | on any mounted layout, a release point strictly nearer to an open slot than to every other slot, and within reach of it, lands the tile in that slot |
| Game.RowLayoutAimed | components/LetterGrid.tsx:86-88 | in an evenly spaced row of slots, every slot's centre is aimed at that slot |
| Game.RoundCanBeSolved | App.tsx:36-40 | whenever the tiles hold the word's letters and number at most 12, as `FetchGameData` guarantees of every kept round, then on any mounted layout with one aimed release point per slot, exactly `length` drops, tile by tile at those points, take the mounted grid to `isValid == true` |

## Left out

- Networking: `getRandomWord` and `searchPhotos` are not modelled. The model receives the word as a string and the photos as a count.
- Error handling in `fetchGameData` (`setError`, the rethrow) and the `isLoading` flag are not modelled.
- Rendering and styles are not modelled, and neither are `ImageGrid` and `SkeletonLoading`.
- Tile animation is not modelled. The shared position values and the `withSpring` and `withTiming` resets do not affect the game state.
- Asynchrony: each `measure` call and each `await` is modelled as an immediate answer from one layout snapshot.
  - The second `measure` in the drop handler reads the same rectangle the search saw.
  - The drop handler's `!spot` re-check cannot fire, because the search only returns slots whose view exists. So it is not a separate branch.
  - Handlers that close over state from an earlier render are not modelled, and neither are overlapping drops.
- Fractional page coordinates are not modelled. Release points and measured rectangles are integers in layout units. Half-units keep the centres of odd-sized slots exact.
- `Math.sqrt` is not computed, and floating-point rounding is not modelled. Comparisons are made on exact squares; `SourceComparisonsAgree` shows that they agree with comparisons on the exact real roots.
- Game.RoundCanBeSolved: assumes each release point is aimed at its slot (`Aimed`). A layout where two slots share a centre has no such point, and the model says nothing about solving it.
- `Math.random`: draws come from oracle sequences. The model says nothing about the distribution of fillers or of shuffles, such as uniformity over permutations.
- `toUpperCase` is modelled on ASCII only. The word source already upper-cases the word.
- `onValidationComplete` is not modelled. It fires after a 1000 ms `setTimeout` and triggers a refetch; the model stops at `isValid == true`.
- The unbounded recursive retry of `fetchGameData` is modelled over a finite list of attempts (`KeptAttempt`). Non-termination when no attempt passes is not modelled.
- App.FetchGameData: states what the pool contains (the word's letters plus `12 - length` upper-case fillers), not its order. The order is `ShuffleArray`'s Fisher-Yates result for the given draws.
