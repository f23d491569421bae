# OpenSudoku puzzle session engine — a Dafny model

This project models the core of OpenSudoku's `SudokuGame` and the pure part of `SudokuDatabase`.

`SudokuGame` covers three things:
- the play-state machine (not started, playing, completed; codes 1, 0 and 2);
- play-time accounting across pause and resume;
- a last-in-first-out undo stack of reversible commands, which setting a value, editing a note, clearing all notes and filling in notes all push onto.

From `SudokuDatabase` it models:
- the bare-import format check;
- the folder count aggregation;
- the state filter of the puzzle list.

Files and modules:
- `grid.dfy` (`Grid`) holds the 81 cells, addressed as `row * 9 + col`. It also holds validation. The validator works group by group over the 9 rows, 9 columns and 9 boxes: a non-empty cell is invalid when its value occupies two or more cells of one of its groups. A lemma proves this equal to the pairwise rule: a non-empty cell is invalid when another cell of its row, column or 3x3 box holds the same value. Completion and the candidate digits written by "fill in notes" are here too.
- `commands.dfy` (`Commands`) holds the four commands as one datatype. Each command records the state it overwrites. The file also has `Execute`/`Revert` and the laws of the undo engine:
  - undoing right after executing restores the grid;
  - undoing a whole stack newest-first restores the grid the stack was built on;
  - pushing keeps the stack a faithful history, and so does popping.
- `clock.dfy` (`Clock`) holds elapsed time. `getTime` is the banked time plus the running interval. `pause` banks the interval. Uptime readings are parameters.
- `game.dfy` (`Game`) holds the class `SudokuGame`. Its fields are the ones the Java class updates in place. The grid is an `array<Cell>` and the undo stack a `seq<Command>`. A ghost base grid and a flag tie the stack to the grid: while the flag holds, replaying the stack on the base gives the current grid, ignoring validity flags. `reset` keeps the nested 9x9 loop. The file also holds the Parcel field order and its round trip.
- `database.dfy` (`Database`) holds three things:
  - the `^\d{81}$` matcher and the import check;
  - the `getFolderInfo` loop over `(id, name, state, count)` rows;
  - the list query's WHERE clause, as a list of conditions.
- `play_activity.dfy` (`PlayActivity`) holds the play screen's call pattern: start or resume when shown, pause when hidden, and restart. It also holds the undo scenarios.

The model keeps these behaviours of the code, some of which are easy to miss:
- `reset()` does not clear the undo stack or the active interval.
- A value outside 0..9 passed to `setCellValue` violates an `assert`, so it is a precondition here. It is not a silent no-op.
- `undo()` never changes the play state and never re-checks completion.
- `pause()` has no guard. On an inactive game it adds `now + 1` to the banked time. `setCellValue` finishes a game through it in that case too.
- Notes are free-text strings, not sets.
- For an empty folder, the folder query's left join yields one row with a null state, read as 0, and count 0. That row adds nothing to any count.

Clocks are parameters. `now` stands for `SystemClock.uptimeMillis()` and `wallNow` for `System.currentTimeMillis()`. Dates are milliseconds since the epoch. The solved-listener is a boolean, and `setCellValue` returns whether it was notified.

## Model

| member | source | states |
|---|---|---|
| `Grid.Validated` | OpenSudoku/src/cz/romario/opensudoku/game/SudokuGame.java:276-278 | validation changes only validity flags: values, notes and editability are kept. A flag is recomputed group by group over the 27 rows, columns and boxes: a cell is invalid when some group of it has its non-zero value in two or more cells |
| `Grid.ValidatedFollowsContent` | OpenSudoku/src/cz/romario/opensudoku/game/SudokuGame.java:276-278 | validation depends only on the cells' content, never on stale flags |
| `Grid.ValidatedIdempotent` | OpenSudoku/src/cz/romario/opensudoku/game/SudokuGame.java:276-278 | validating twice gives the same grid as validating once |
| `Grid.ValidatedMarksClashes` | OpenSudoku/src/cz/romario/opensudoku/game/SudokuGame.java:276-278 | on the 81-cell grid the group-by-group validator agrees with the pairwise rule: a cell is marked invalid iff it is non-empty and another cell of its row, column or box holds the same value |
| `Grid.DuplicatesBothInvalid` | OpenSudoku/src/cz/romario/opensudoku/game/SudokuGame.java:276-278 | two cells of one group holding the same digit are both invalid after validation |
| `Grid.CompletedIff` | OpenSudoku/src/cz/romario/opensudoku/game/SudokuGame.java:256-263 | on the 81-cell grid, after validation the puzzle is completed iff every cell is filled and no two cells of a row, column or box hold the same value |
| `Grid.CandidatesFrom` | OpenSudoku/src/cz/romario/opensudoku/game/SudokuGame.java:269-274 | the candidate list holds exactly the digits absent from the cell's row, column and box, ascending |
| `Grid.CandidateNoteIff` | OpenSudoku/src/cz/romario/opensudoku/game/SudokuGame.java:269-274 | a digit is in the filled-in note iff it is not excluded by the cell's row, column or box |
| `Commands.Execute` | OpenSudoku/src/cz/romario/opensudoku/game/SudokuGame.java:182-185 | executing a command never changes editability or validity flags; a command on an editable cell keeps every given |
| `Commands.Revert` | OpenSudoku/src/cz/romario/opensudoku/game/SudokuGame.java:190-198 | reverting a command never changes editability or validity flags, and keeps every given |
| `Commands.ExecuteAll` | OpenSudoku/src/cz/romario/opensudoku/game/SudokuGame.java:52-53 | replaying any stack of commands keeps the grid's size and every cell's editability |
| `Commands.RevertExecute` | OpenSudoku/src/cz/romario/opensudoku/game/SudokuGame.java:182-198 | undo right after execute restores the grid exactly, for every command variant |
| `Commands.UndoAll` | OpenSudoku/src/cz/romario/opensudoku/game/SudokuGame.java:190-198 | undoing a whole stack newest-first restores the grid the stack was built on (LIFO) |
| `Commands.PushKeepsReplay` | OpenSudoku/src/cz/romario/opensudoku/game/SudokuGame.java:182-185 | pushing a command built on the current grid keeps the stack a faithful history of the grid |
| `Commands.PopKeepsReplay` | OpenSudoku/src/cz/romario/opensudoku/game/SudokuGame.java:190-198 | popping and reverting the newest command yields the grid the remaining stack describes |
| `Commands.ExecuteAllKeepsGivens` | OpenSudoku/src/cz/romario/opensudoku/game/SudokuGame.java:151-180 | commands that address only editable cells never change a given's value, however many run |
| `Clock.Elapsed` | OpenSudoku/src/cz/romario/opensudoku/game/SudokuGame.java:113-119 | the reported time is the banked time while inactive (-1), and what `pause()` would bank while active |
| `Clock.PauseKeepsElapsed` | OpenSudoku/src/cz/romario/opensudoku/game/SudokuGame.java:221-227 | pausing an active game leaves the reported play time unchanged |
| `Clock.ElapsedMonotone` | OpenSudoku/src/cz/romario/opensudoku/game/SudokuGame.java:113-119 | play time is frozen while inactive and never runs backwards while active |
| `Clock.SessionsAddUp` | OpenSudoku/src/cz/romario/opensudoku/game/SudokuGame.java:207-227 | after any series of resume/pause pairs the banked time is the start value plus the sum of the active intervals |
| `Game.ResetForgetsMoves` | OpenSudoku/src/cz/romario/opensudoku/game/SudokuGame.java:240-254 | reset erases every player move: the values after reset do not depend on which editable-cell commands ran |
| `Game.ResetNotCompleted` | OpenSudoku/src/cz/romario/opensudoku/game/SudokuGame.java:240-254 | a puzzle with an editable cell is never completed right after reset |
| `Game.ReadParcel` | OpenSudoku/src/cz/romario/opensudoku/game/SudokuGame.java:281-290 | reading a Parcel succeeds only with a well-formed 81-cell grid |
| `Game.WriteParcel` | OpenSudoku/src/cz/romario/opensudoku/game/SudokuGame.java:281-316 | writes seven slots; for a well-formed grid, the Parcel constructor reads back id, note, created, state, time, last-played and cells, in that order |
| `Game.ParcelOrderMatters` | OpenSudoku/src/cz/romario/opensudoku/game/SudokuGame.java:281-316 | a Parcel whose first two slots are swapped does not read back as the game that was written |
| `Game.SudokuGame.GetTime` | OpenSudoku/src/cz/romario/opensudoku/game/SudokuGame.java:113-119 | while inactive the reported time is the banked time; while active it is exactly what `pause()` would bank at the same `now` |
| `Game.SudokuGame.IsCompleted` | OpenSudoku/src/cz/romario/opensudoku/game/SudokuGame.java:261-263 | on a validated 81-cell grid: completed iff every cell is filled and no two cells of a row, column or box hold the same value |
| `Game.SudokuGame.HasSomethingToUndo` | OpenSudoku/src/cz/romario/opensudoku/game/SudokuGame.java:200-202 | true iff the undo stack is non-empty |
| `Game.SudokuGame.CreateEmpty` | OpenSudoku/src/cz/romario/opensudoku/game/SudokuGame.java:55-70 | a new game is not started, has time 0, created and last-played at epoch 0, is inactive (-1), has nothing to undo and has 81 empty editable cells |
| `Game.SudokuGame.FromParcel` | OpenSudoku/src/cz/romario/opensudoku/game/SudokuGame.java:281-290 | a game read from a Parcel has the carried fields; it is inactive with an empty undo stack and no listener |
| `Game.SudokuGame.WriteToParcel` | OpenSudoku/src/cz/romario/opensudoku/game/SudokuGame.java:308-316 | what is written reads back as this game's carried fields |
| `Game.SudokuGame.SetOnPuzzleSolvedListener` | OpenSudoku/src/cz/romario/opensudoku/game/SudokuGame.java:72-74 | sets whether a listener is present, and nothing else |
| `Game.SudokuGame.Validate` | OpenSudoku/src/cz/romario/opensudoku/game/SudokuGame.java:276-278 | the grid becomes its validated form |
| `Game.SudokuGame.Start` | OpenSudoku/src/cz/romario/opensudoku/game/SudokuGame.java:207-210 | the state becomes playing and the active interval starts at `now`; nothing else changes |
| `Game.SudokuGame.Resume` | OpenSudoku/src/cz/romario/opensudoku/game/SudokuGame.java:212-216 | only the start of the active interval changes; the reported time equals the banked time |
| `Game.SudokuGame.Pause` | OpenSudoku/src/cz/romario/opensudoku/game/SudokuGame.java:221-227 | banks `now - activeFrom` into the time, becomes inactive and stamps last-played; on an active game the reported time is the same before and after |
| `Game.SudokuGame.Finish` | OpenSudoku/src/cz/romario/opensudoku/game/SudokuGame.java:232-235 | pause, then the state becomes completed |
| `Game.SudokuGame.ExecuteCommand` | OpenSudoku/src/cz/romario/opensudoku/game/SudokuGame.java:182-185 | the grid becomes the command's result and the command is pushed on top of the stack |
| `Game.SudokuGame.SetCellValue` | OpenSudoku/src/cz/romario/opensudoku/game/SudokuGame.java:151-166 | a non-editable cell: nothing changes and nobody is notified. An editable cell: exactly one command is pushed, the value is set and the grid re-validated. A completing move finishes the game (completed, inactive, time frozen) and notifies iff a listener is set |
| `Game.SudokuGame.SetCellNote` | OpenSudoku/src/cz/romario/opensudoku/game/SudokuGame.java:174-180 | a no-op on a non-editable cell; otherwise one command is pushed and only that cell's note changes |
| `Game.SudokuGame.ClearAllNotes` | OpenSudoku/src/cz/romario/opensudoku/game/SudokuGame.java:265-267 | always pushes one command that recorded every note; every cell's note becomes empty |
| `Game.SudokuGame.FillInNotes` | OpenSudoku/src/cz/romario/opensudoku/game/SudokuGame.java:269-274 | always pushes one command; every editable empty cell gets its candidate note and every other cell is untouched |
| `Game.SudokuGame.Undo` | OpenSudoku/src/cz/romario/opensudoku/game/SudokuGame.java:190-198 | an empty stack changes nothing. Otherwise only the newest command is popped, reverted and the grid re-validated; state and time are untouched. While the stack describes the grid, the result is the grid as it stood before that command |
| `Game.SudokuGame.ResetCellsInPlace` | OpenSudoku/src/cz/romario/opensudoku/game/SudokuGame.java:241-249 | the 9x9 loops empty every editable cell's value and note and leave every given untouched |
| `Game.SudokuGame.Reset` | OpenSudoku/src/cz/romario/opensudoku/game/SudokuGame.java:240-254 | editable cells emptied, the grid re-validated, time and last-played zeroed, state not started; the undo stack and active interval kept |
| `Game.SudokuGame.ResetClearingUndo` | OpenSudoku/src/cz/romario/opensudoku/game/SudokuGame.java:240-254 | as `Reset`, and afterwards there is nothing to undo |
| `Database.MatchesDigits` | OpenSudoku/src/cz/romario/opensudoku/db/SudokuDatabase.java:321 | the matcher for `^\d{n}$` accepts a string iff it has length n and every character is an ASCII digit |
| `Database.InsertSudokuImport` | OpenSudoku/src/cz/romario/opensudoku/db/SudokuDatabase.java:324-337 | accepted iff the string is non-null, has 81 characters and all are digits. A refusal carries the input. An accepted string becomes a not-started row with time, created and last-played 0 and the string as data |
| `Database.FolderCountsBounded` | OpenSudoku/src/cz/romario/opensudoku/db/SudokuDatabase.java:105-111 | with non-negative counts, solved plus playing never exceeds the folder's puzzle count |
| `Database.GetFolderInfo` | OpenSudoku/src/cz/romario/opensudoku/db/SudokuDatabase.java:80-125 | null iff there are no rows. Otherwise the folder has the first row's id and name, the sum of all counts, the sum over completed rows and the sum over playing rows |
| `Database.ListConditions` | OpenSudoku/src/cz/romario/opensudoku/db/SudokuDatabase.java:214-226 | the first conjunct selects the folder; every further conjunct excludes a state whose show flag is off, and every state whose flag is off is excluded |
| `Database.ListFilterIff` | OpenSudoku/src/cz/romario/opensudoku/db/SudokuDatabase.java:209-226 | a puzzle is listed iff it is in the folder and, when a filter is given, its state's show flag is set; a null filter passes every state |
| `PlayActivity.StartOrResume` | OpenSudoku/src/cz/romario/opensudoku/gui/SudokuPlayActivity.java:122-126 | a not-started game is started, a playing one resumed; both are then active from `now`. A completed game is left alone |
| `PlayActivity.PauseIfPlaying` | OpenSudoku/src/cz/romario/opensudoku/gui/SudokuPlayActivity.java:182-184 | a playing game banks its interval and becomes inactive; any other game is unchanged |
| `PlayActivity.PlayVisit` | OpenSudoku/src/cz/romario/opensudoku/gui/SudokuPlayActivity.java:122-184 | one visit to the play screen adds exactly the time the screen was shown |
| `PlayActivity.Restart` | OpenSudoku/src/cz/romario/opensudoku/gui/SudokuPlayActivity.java:302-303 | restart leaves the game playing with the clock at zero from `now`, keeping the old undo stack |
| `PlayActivity.SetValueThenUndo` | OpenSudoku/src/cz/romario/opensudoku/game/SudokuGame.java:151-198 | setting an editable cell and undoing gives back the validated original grid and the original stack |
| `PlayActivity.UndoAfterRestart` | OpenSudoku/src/cz/romario/opensudoku/game/SudokuGame.java:240-254 | as written: after two moves on a cell and a restart, undo brings back the first move's value 3 |
| `PlayActivity.UndoAfterCorrectedRestart` | OpenSudoku/src/cz/romario/opensudoku/game/SudokuGame.java:240-254 | with the history cleared on reset, nothing can be undone after a restart and the cell stays empty |

## Findings

| source | as written | input that shows it | evidently intended | confidence | as-written member | corrected member |
|---|---|---|---|---|---|---|
| OpenSudoku/src/cz/romario/opensudoku/game/SudokuGame.java:240-254 | `reset()` empties the editable cells but keeps the undo stack, whose commands still hold values from before the reset | on an empty puzzle set cell (0,1) to 3, then to 4, restart, undo: the cell shows 3 although the restarted game never had that move | a reset also clears the undo history, so undo after a restart does nothing | medium, not executed | `PlayActivity.UndoAfterRestart` | `Game.SudokuGame.ResetClearingUndo` |

`Game.SudokuGame.Reset` models `reset()` as written. `PlayActivity.UndoAfterRestart` runs it on the input above and proves that undo yields 3. `Game.SudokuGame.ResetClearingUndo` is the corrected reset. `PlayActivity.UndoAfterCorrectedRestart` proves that, after it, nothing can be undone and the cell stays empty.

## Left out

- The SQLite plumbing of `SudokuDatabase` is not modelled. That covers queries, cursors, `ContentValues`, opening and closing, insert/update/delete, `generateDebugPuzzles`, the shared import statement between `beginSudokuImport` and `finishSudokuImport`, and the row-id check with its `SQLException` after an insert. These are foreign I/O; rows are given as a sequence instead.
- The list query's sort order and projection are not modelled. They do not affect which puzzles pass the filter.
- `SudokuCellCollection` and `SudokuCell` are not part of this model. Validation and completion follow the standard row/column/box rule. `createEmpty` is taken to give 81 empty editable cells. The collection's own text and Parcel formats are not modelled: a Parcel carries the cell sequence as one value.
- The command classes are not part of this model. The "fill in notes" note is taken to be the candidate digits in ascending order. The notes commands record all 81 notes.
- Commands address cells by index, not by shared `SudokuCell` references. So aliasing is not captured: undoing a command after the game's collection has been replaced is out of scope.
- `setCells` and the plain getters and setters are covered by the two constructors. These are `setId`, `setNote`, `setCreated`, `setState`, `setTime` and `setLastPlayed`. The app only calls them right after construction.
- `Game.ReadParcel`: an Android Parcel is an untyped stream and the Java constructor never refuses one; a Parcel with misplaced slots just yields wrong fields. The typed slots and the `MalformedParcel` refusal belong to the model, which reads only Parcels laid out as `writeToParcel` writes them.
- `describeContents` and `CREATOR.newArray` are Android boilerplate and are left out.
- `SystemClock`, `System.currentTimeMillis` and `Date` are replaced by integer parameters.
- Java's 64-bit `long` and 32-bit `int` are unbounded integers here. Overflow of time or of folder counts is not modelled.
- The solved-listener is reduced to whether one is set; the callback itself is foreign code.
- `SudokuPlayActivity` is not modelled, beyond the call pattern in `PlayActivity`. Neither are the input widgets `IMPopup` and `InputMethod`, nor Freedoku's `AbstractCellCommand`. They are UI code or a bare field holder.
- Null note strings passed to `setCellNote` are not modelled; notes are non-null strings.
