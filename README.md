# Sudoku UI core, modelled in Dafny

This project models the logic underneath the DOM code of the static Sudoku
page `app.js`:

- **Board geometry and the grid codec** (`grid.dfy`, module `Grid`).
  - Cell index, row and column, and box number.
  - `parsePuzzleGrid`: an 81-character string over `.` and `1`..`9` becomes 81 cell values in 0..9.
- **The Fisher–Yates shuffle** `shuffleCopy` (`shuffle.dfy`, module `Shuffle`).
- **The conflict engine** (`conflicts.dfy`, module `ConflictEngine`).
  - `computeConflicts`, with its per-unit `seen`/`firstPos` scan over arrays.
  - `isCompleteAndValid`.
  - `gridHasGivenConflicts` and its `hasDupes` helper.
- **The symmetry transformer** `transformPuzzleGrid` (`transform.dfy`, module `Transform`).
  - Band-preserving row and column permutations and a digit relabelling, built by the source's own loops.
- **The puzzle pool** (`pool.dfy`, module `Pool`).
  - The compiled-in seed table.
  - `getPuzzlePool`'s build: group the seeds, then grow each difficulty with deduplicated variants up to 6 entries or 500 attempts.
  - `puzzleIndexesByDifficulty`.
- **The page's mutable state** (`session.dfy`, module `Session`), as a class `Session` whose fields are the globals.
  - Fields: the pool cache, the per-difficulty draw queues, `puzzleIdx`, `selectedIdx`, the `given`/`values`/`notes` arrays and the reset snapshot.
  - Its methods are `getPuzzlePool`, `refillPuzzleCycle`, `loadRandomPuzzleByDifficulty`, `loadPuzzle` and the board part of `loadPuzzleFromData`.
  - Also `resetPuzzle`, `isEditable` (the predicate `Session.Session.IsEditable`), `setValueAt`, `toggleNoteAt` and `clearCell`.
  - Also `selectCell`, `moveSelection`, `handleDigit` and `handleErase`.

`Session.Session.Valid()` is the class invariant:

- The five buffers are distinct 81-cell arrays.
- Givens and values are in 0..9, and notes use 9 bits.
- A given cell shows its given.
- A cell that holds a value has no notes.
- The snapshot holds the givens and no notes.
- The cached pool is a pool the build can produce from the seeds: contiguous Easy, Medium and Hard runs of playable grids.
- Every draw queue holds distinct pool positions of its own difficulty.

Every state-changing method keeps `Valid()` and states its new board, selection, pool, queues and `puzzleIdx` in full. For the draw counter `draws`, the methods that draw state only that it grows and by at most how much.

How the source's environment is modelled:

- **Randomness.** `Math.random` is a stream `rand: nat -> nat`, and the k-th draw `Math.floor(Math.random() * n)` is `rand(k) % n`. Methods that draw take the stream position and return the next one; the class keeps it in `draws`.
- **JavaScript arithmetic.** `%` is truncating (`JsRem`, defined by repeated subtraction and shown to be the truncating remainder). `x | 0` is `ToInt32`.
- **Typed arrays.** `Uint8Array`/`Uint16Array` buffers are `array<int>` and `array<bv16>`.

Two behaviours of the code worth knowing, both modelled as written:

- **`isCompleteAndValid`.** The code (app.js:454-457) walks the cells in index order and reports whichever comes first, an empty cell or a flagged one. A board with a conflict before its first empty cell therefore gets "Conflicts", not "Incomplete" (`ConflictEngine.IsCompleteAndValid`).
- **`loadPuzzle`.** JavaScript's `%` keeps the dividend's sign, so for `n < -len` the index `(n + len) % len` is negative. The code then reads an undefined entry, sets `puzzleIdx` once more in `loadPuzzleFromData`, and throws on `.grid`. The model returns `loaded == false` there, with `puzzleIdx` as the code leaves it (`Session.Session.LoadWrapped`). Every `n >= -len` loads, and every `n` in `0..len-1` loads exactly entry `n`.

## Model

| member | source | states |
|---|---|---|
| Grid.IdxToRC | app.js:142-144 | row * 9 + column is the index, the column is 0..8, and the cell is on the board exactly when the index is below 81 |
| Grid.RcToIdx | app.js:146-148 | an on-board (row, column) has an index in 0..80 |
| Grid.InBounds | app.js:154-156 | an on-board (row, column) addresses one of the 81 cells through `r * 9 + c` |
| Grid.BoxIndex | app.js:150-152 | an on-board cell's box is 0..8, with band `r / 3` and stack `c / 3` |
| Grid.RcIdxRoundTrip | app.js:142-148 | `rcToIdx(idxToRC(i)) == i` for 0..80, and `idxToRC(rcToIdx(r, c)) == (r, c)` on the board |
| Grid.CharValue | app.js:174-175 | a grid character decodes to 0..9, and to 0 exactly for `.` |
| Grid.ValueChar | app.js:174-175 | the character written for 0..9 is a grid character that decodes back to the value |
| Grid.ParseGrid | app.js:166-179 | succeeds exactly on well-formed grids; fails with the length error exactly when the length is not 81; otherwise names the first bad position and character; decodes `.` to 0 and digit k to k |
| Grid.ParseThenSerialize | app.js:166-179 | writing the parsed digits back out reproduces the grid string |
| Grid.SerializeThenParse | app.js:166-179 | serialising 81 values in 0..9 gives a grid string that parses back to them |
| Grid.ParsePuzzleGrid | app.js:166-179 | the buffer-filling loop returns exactly `ParseGrid(s)`, error cases included |
| Shuffle.Below | app.js:184 | a draw for n choices is in 0..n-1 |
| Shuffle.ShuffleCopy | app.js:181-190 | the output is a rearrangement (same multiset) of the input, and the shuffle takes `length - 1` draws |
| Shuffle.PermutationKeepsDistinct | app.js:181-190 | a rearrangement of a repetition-free sequence has no repetitions |
| Shuffle.PermutationKeepsElements | app.js:181-190 | every element of a rearrangement is an element of the original |
| ConflictEngine.UnitCells | app.js:430-447 | each of the 27 scans visits 9 cells, all in its row, column or box |
| ConflictEngine.UnitCellsExact | app.js:430-447 | a scan visits each cell of its unit exactly once |
| ConflictEngine.SharesUnitIffCommonUnit | app.js:430-447 | two cells share a row, column or box exactly when one of the 27 scanned units holds both |
| ConflictEngine.FlaggedIffUnitDup | app.js:407-450 | a cell is flagged exactly when some scanned unit holds another cell with its non-zero digit |
| ConflictEngine.VisitCell | app.js:418-428 | one `visitCell` step extends the flags from the first k cells of a unit to the first k + 1 and keeps the scan state |
| ConflictEngine.FlagPair | app.js:422-423 | exactly the current cell and the digit's first cell get flagged, all other flags kept |
| ConflictEngine.VisitBlank | app.js:420 | visiting a blank makes no new duplicate |
| ConflictEngine.VisitFirst | app.js:424-427 | visiting a digit's first occurrence makes no new duplicate |
| ConflictEngine.VisitRepeat | app.js:421-423 | visiting a repeat makes exactly it and the digit's first cell new duplicates |
| ConflictEngine.ScanUnit | app.js:413-433 | after resetting `seen`/`firstPos` and visiting a unit, each flag is its old value or "duplicate within this unit" |
| ConflictEngine.ScanUnitNumber | app.js:430-447 | scanning unit u extends "flagged iff a duplicate in units 0..u-1" to units 0..u |
| ConflictEngine.ComputeConflicts | app.js:407-450 | cell i is flagged exactly when it is non-zero and another cell sharing its row, column or box holds the same value |
| ConflictEngine.IsCompleteAndValid | app.js:452-459 | ok exactly when all 81 cells are filled and none is flagged; otherwise the reason is that of the lowest-index empty or flagged cell |
| ConflictEngine.HasDupes | app.js:230-239 | true exactly when two of the listed cells hold the same non-zero digit |
| ConflictEngine.AnyUnitRepeats | app.js:241-263 | true exactly when some row, column or box repeats a digit |
| ConflictEngine.RepeatsIffDupAmong | app.js:230-239 | a unit repeats a digit exactly when one of its cells duplicates another |
| ConflictEngine.HasConflictIffSomeUnitRepeats | app.js:227-264 | some cell is flagged exactly when some unit repeats a digit, so `gridHasGivenConflicts` agrees with `computeConflicts` |
| ConflictEngine.GridHasGivenConflicts | app.js:227-264 | a malformed grid is the parse error; otherwise true exactly when the parsed grid has a flagged cell |
| Transform.ExpandBands | app.js:196-206 | the row (column) permutation built from a shuffled band order is a permutation of 0..8 that keeps every band together, placed where the band order says |
| Transform.AppendRow | app.js:197-200 | pushing `band * 3 + w` keeps the built prefix repetition-free and band-respecting |
| Transform.DigitMap | app.js:209-213 | `digitMap` sends a digit to one of the shuffled digits, which is itself a digit `1`..`9` when the shuffle is a bijection |
| Transform.DigitCharsShuffled | app.js:208-213 | a shuffle of `1`..`9` makes `digitMap` a bijection on the digits |
| Transform.ShuffleDigits | app.js:208-213 | the digit shuffle yields a bijection and takes 8 draws |
| Transform.Relabel | app.js:215-224 | the output loop builds exactly the transformed grid |
| Transform.RelabelStep | app.js:216-222 | writing cell (r, c) extends the written prefix by the relabelled source cell (`rowPerm[r]`, `colPerm[c]`) |
| Transform.TransformedShape | app.js:215-224 | the output is a well-formed grid, and cell (r, c) is `.` exactly when source cell (`rowPerm[r]`, `colPerm[c]`) is |
| Transform.SourceIdxKeepsUnits | app.js:192-206 | distinct cells sharing a unit come from distinct source cells sharing a unit |
| Transform.SameDigitSameSource | app.js:208-221 | an output cell is blank exactly when its source is, and equal output digits come from equal source digits |
| Transform.FlaggedComesFromFlagged | app.js:192-225 | a flagged output cell comes from a flagged source cell |
| Transform.TransformKeepsConflictFree | app.js:192-225 | if the source grid has no given conflict, neither has the output |
| Transform.TransformPuzzleGrid | app.js:192-225 | returns the grid transformed by band-preserving row and column permutations and a digit bijection; it is well formed, conflict-free when the input is, and takes 24 draws |
| Pool.SeedsWellFormed | app.js:10-95 | every seed of a recognised difficulty has a well-formed grid |
| Pool.LevelRank | app.js:270-275 | a difficulty is recognised exactly when it is Easy, Medium or Hard, with its position in that order |
| Pool.SeedsOf | app.js:273-277 | the seeds kept for a level are seeds of that level with a playable grid |
| Pool.GroupSeeds | app.js:273-277 | the first pass puts into each level's list exactly the playable seeds of that level, in table order |
| Pool.GridsOf | app.js:281 | the `seen` set holds exactly the grids of the list |
| Pool.NatToString | app.js:293 | the `${n}` in a variant id is a non-empty string of decimal digits with no leading zero |
| Pool.NatToStringValue | app.js:293 | reading that decimal string back gives n |
| Pool.NatToStringInjective | app.js:293 | distinct positions give distinct `-v<position>` suffixes |
| Pool.GrowLevel | app.js:279-297 | a level's list is its seeds followed by fresh, playable variants of them, named `<base>-v<position>`, with no grid repeated, never grown past 6; at most 500 attempts, all 500 when it stays short, none without seeds |
| Pool.PushVariant | app.js:291-296 | pushing a new playable variant below the target keeps the list grown from its seeds and adds its grid to `seen` |
| Pool.GrownUniform | app.js:279-297 | every entry of a grown list has the level's difficulty and a playable grid |
| Pool.ConcatLevels | app.js:300 | concatenating the Easy, Medium and Hard lists gives contiguous runs in that order, every entry playable |
| Pool.BuildPool | app.js:266-302 | the pool is the three grown lists concatenated, in the shape above, within the draw budget |
| Pool.LevelIndexes | app.js:322-329 | the positions listed are exactly the positions of the level's entries, in increasing order |
| Pool.IndexesByDifficulty | app.js:322-329 | the scan returns exactly those positions |
| Session.JsRem | app.js:363 | the truncating remainder lies strictly between -n and n and has the dividend's sign |
| Session.JsRemQuotient | app.js:363 | the remainder is the dividend minus a whole multiple of n taken towards zero |
| Session.JsRemOdd | app.js:363 | negating the dividend negates the remainder |
| Session.JsRemWrap | app.js:306 | adding the length to a remainder and reducing again lands in 0..n-1 |
| Session.ToInt32 | app.js:386 | `x \| 0` is a signed 32-bit value congruent to x, and x itself when x fits |
| Session.Clamp | app.js:386 | the clamp lies in 0..9, is the digit itself inside 0..9, and 0 or 9 outside |
| Session.NoteBit | app.js:397 | the mark bit `1 << (d - 1)` of a digit 1..9 is a single bit below 512 |
| Session.NoteBitsDisjoint | app.js:397 | the bits of two marks overlap exactly when the marks are the same digit |
| Session.FlipNote | app.js:397-398 | flipping mark d keeps the mask to 9 bits, changes exactly that bit, and flipping again restores the mask |
| Session.Shifts | app.js:350-355 | one or two entries come off a non-empty queue, never more than it holds |
| Session.DrawAvoidsCurrent | app.js:350-355 | from a repetition-free queue the loaded puzzle is drawn again exactly when it is the whole queue |
| Session.QueueSuffixFits | app.js:350-355 | what is left after shifting still fits the pool |
| Session.ShuffledIndexesFit | app.js:331-341 | a shuffle of a level's positions is a queue of distinct positions of that level |
| Session.NewBoard | app.js:309-314 | fresh buffers: givens and values equal to the parsed cells, no notes, snapshot equal to both |
| Session.Session.constructor | app.js:108-132 | the globals' initial state: empty buffers, nothing selected, `puzzleIdx` 0, no pool, empty queues |
| Session.Session.GetPuzzlePool | app.js:266-302 | builds on the first call and returns the cached pool afterwards without drawing; the pool is a built pool |
| Session.Session.PuzzleIndexesByDifficulty | app.js:322-329 | returns the positions of the level's entries in the cached pool |
| Session.Session.RefillPuzzleCycle | app.js:331-341 | the level's queue becomes a rearrangement of the level's pool positions; other queues and the board are kept |
| Session.Session.StoreCycle | app.js:340 | stores a fitting queue for one level and nothing else |
| Session.Session.LoadPuzzleFromData | app.js:304-316 | wraps `puzzleIdx` into the pool; on a well-formed grid the values equal the givens, notes are zero, the snapshot equals that state and nothing is selected; on a bad grid the board is kept |
| Session.Session.InstallGrid | app.js:307-316 | parses the grid and, exactly when it parses, installs it as above |
| Session.Session.ShowBoard | app.js:309-316 | fresh buffers for the cells become the board and its snapshot, with nothing selected |
| Session.Session.LoadPuzzle | app.js:360-366 | an empty pool changes nothing; otherwise it loads the entry at `(n + len) % len` when that remainder is not negative; every `n >= -len` loads, and `n` in 0..len-1 loads entry n |
| Session.Session.LoadWrapped | app.js:363-365 | the wrap of a non-empty pool: a non-negative remainder loads that entry; a negative one keeps the board and leaves `puzzleIdx` one length up |
| Session.Session.ShiftCycle | app.js:350-355 | shifts one entry, or two when the first is the loaded puzzle and more remain; the last shifted entry is the pick, a position of the level |
| Session.Session.EnsureCycle | app.js:346-348 | a missing or empty queue is refilled with a rearrangement of the level's positions; a non-empty one is kept |
| Session.Session.DrawFromCycle | app.js:346-355 | refill then shift; nothing is drawn from a queue that stays empty; the pick is the loaded puzzle only when it was the queue's last entry |
| Session.Session.LoadRandomPuzzleByDifficulty | app.js:343-358 | an unknown level changes nothing; otherwise it draws as above and loads the pick; an empty level loads nothing |
| Session.Session.IsEditable | app.js:375-377 | a cell is editable only when it is a cell of the board |
| Session.Session.EditableIffBlankInPuzzle | app.js:375-377 | under the class invariant, the editable cells are exactly those the loaded puzzle left blank |
| Session.Session.ResetPuzzle | app.js:368-370 | values and notes become fresh copies of the snapshot; the givens and the snapshot are kept |
| Session.Session.SetValueAt | app.js:383-389 | on an editable cell only that value changes, to the clamped digit, and a non-zero digit clears only that cell's notes; otherwise nothing changes; givens never change |
| Session.Session.ToggleNoteAt | app.js:391-399 | flips exactly bit d-1 of the target's notes when the cell is editable, d is in 1..9 and the cell is empty; otherwise nothing changes |
| Session.Session.ClearCell | app.js:401-405 | on an editable cell clears exactly that value and those notes; otherwise nothing changes |
| Session.Session.SelectCell | app.js:510-516 | selects an index on the board and deselects any other |
| Session.Session.MoveSelection | app.js:521-528 | no change when nothing is selected or the target is off the board; otherwise the selection is exactly (r + dr, c + dc) |
| Session.Session.HandleDigit | app.js:595-602 | on a selected editable cell, toggles the note in notes mode and sets the value otherwise; no change without one |
| Session.Session.ComputeConflicts | app.js:407-450 | on the current `values`, a cell is flagged exactly when it repeats a digit of one of its units |
| Session.Session.IsCompleteAndValid | app.js:452-459 | on the current `values`: ok exactly when all cells are filled and none conflicts; otherwise the reason is that of the lowest-index empty or flagged cell |
| Session.Session.HandleErase | app.js:606-612 | on a selected editable cell, clears the value if there is one and the notes otherwise; no change without one |

## Left out

- DOM and rendering are not modelled: `els`, `setStatus`, `setDifficulty`, `buildBoardDomOnce`, `renderCell`, `renderAll`, the `focus` call in `selectCell` and the status text of `runCheck`. They present state and keep no invariant.
- Event wiring is not modelled: `wireEvents`, `init`, keyboard dispatch and the `currentDifficulty` global. `handleDigit` reads the notes toggle from the page, so the model takes `notesMode` as a parameter.
- `Math.random` is not modelled. It is the stream `rand`; every sequence of in-range choices is some stream, so no behaviour of the source is lost.
- `computeConflicts` and `isCompleteAndValid` read the global `values` in the source. `ConflictEngine` takes the values as a parameter; `Session.Session.ComputeConflicts` and `Session.Session.IsCompleteAndValid` apply it to `values[..]`.
- The draw counter `draws` is not stated exactly after `getPuzzlePool`'s first build, `refillPuzzleCycle`, `loadPuzzleFromData` or `loadRandomPuzzleByDifficulty`. Those methods state only that it grows, within a bound, because the count depends on which attempts the stream makes the build reject.
- Grid.ParseGrid: counts string length in Unicode scalar values (Dafny's `char`), not in JavaScript's UTF-16 code units. For a grid string holding a character outside the Basic Multilingual Plane, `Grid.ParseGrid` reports the bad character where the source reports the length error. An example is 80 digits followed by one emoji, which has length 82 in JavaScript.
- Arguments are integers only. `digit | 0` on a non-integer or non-number argument is not modelled.
- Typed-array wrap-around (`Uint8Array`, `Uint16Array`) is not modelled, because values stay in 0..9 and notes in 9 bits, both stated in `Valid()`.
- The default parameter `baseIndex = puzzleIdx` of `loadPuzzleFromData` is not modelled; every caller passes it.
- Exceptions: `parsePuzzleGrid` and `gridHasGivenConflicts` return the parse error as a `Result`. For `loadPuzzle` and `loadPuzzleFromData` the exception is `loaded == false`, with the state the source leaves before throwing.
- Shuffle.ShuffleCopy: states that the output is a rearrangement and how many draws it takes, not which rearrangement a given stream yields.
- Session.Session.RefillPuzzleCycle: states the new queue as a rearrangement of the level's positions (its multiset), not the exact order the stream yields.
- Transform.TransformPuzzleGrid: returns the permutations it used as ghost results and states their properties, not their dependence on the stream.
- Pool.BuildPool: states that the pool is some grown concatenation (fresh playable variants, at most 6 per level) and bounds the draws, not which variants the stream produces.
- Session.Session.GetPuzzlePool: states the pool as a built pool (`BuiltFrom`), as `Pool.BuildPool` does, not the exact entries.
- Pool.GrowLevel: states how many attempts are made through a ghost count, which the draw position reflects; it does not state which attempts are rejected.
