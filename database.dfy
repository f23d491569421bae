/**
 * The pure core of the puzzle database: the bare-import format check, the
 * per-folder count aggregation over `(state, count)` rows, and the state
 * filter of the puzzle list.  Queries, cursors and statements are not
 * modelled: rows arrive as a sequence, and a query's WHERE clause is a list
 * of conditions.
 */
module Database {
  import opened Wrappers
  import Game

  /** Length of a bare-import puzzle: one digit per cell. */
  const ImportLength := 81

  /** Java's `\d` (no Unicode flag) matches exactly the ASCII digits. */
  predicate IsDigit(c: char) {
    '0' <= c <= '9'
  }

  /** The matcher for `^\d{n}$`: consume one digit per step, nothing may be left over. */
  function MatchesDigits(s: string, n: nat): (r: bool)
    ensures r <==> |s| == n && forall k :: 0 <= k < |s| ==> IsDigit(s[k])
    decreases |s|
  {
    if s == [] then n == 0
    else n > 0 && IsDigit(s[0]) && MatchesDigits(s[1..], n - 1)
  }

  /** `SudokuInvalidFormatException`, carrying the refused input (possibly null). */
  datatype InvalidFormat = SudokuInvalidFormat(data: Option<string>)

  /** The row the prepared import statement inserts. */
  datatype ImportRow = ImportRow(
    folderId: int, created: int, state: int, time: int, lastPlayed: int, data: string)

  /**
   * `insertSudokuImport()` up to the insert: a null or malformed string is
   * refused with the exception, anything else becomes a not-started row with
   * zero times and the string itself as data.
   */
  function InsertSudokuImport(folderId: int, sudoku: Option<string>): (r: Result<ImportRow, InvalidFormat>)
    ensures r.Ok? <==>
      sudoku.Some? && |sudoku.value| == ImportLength &&
      forall k :: 0 <= k < |sudoku.value| ==> IsDigit(sudoku.value[k])
    ensures r.Err? ==> r.error == SudokuInvalidFormat(sudoku)
    ensures r.Ok? ==> r.value == ImportRow(folderId, 0, Game.StateNotStarted, 0, 0, sudoku.value)
  {
    if sudoku.None? || !MatchesDigits(sudoku.value, ImportLength) then Err(SudokuInvalidFormat(sudoku))
    else Ok(ImportRow(folderId, 0, Game.StateNotStarted, 0, 0, sudoku.value))
  }

  // ---- folder info ----

  /** One row of the folder query: the folder's id and name, a puzzle state and how many puzzles have it. */
  datatype FolderRow = FolderRow(id: int, name: string, state: int, count: int)

  datatype FolderInfo = FolderInfo(
    id: int, name: string, puzzleCount: int, solvedCount: int, playingCount: int)

  function TotalCount(rows: seq<FolderRow>): int
    decreases |rows|
  {
    if rows == [] then 0 else TotalCount(rows[..|rows| - 1]) + rows[|rows| - 1].count
  }

  function CountInState(rows: seq<FolderRow>, state: int): int
    decreases |rows|
  {
    if rows == [] then 0
    else CountInState(rows[..|rows| - 1], state) +
         (if rows[|rows| - 1].state == state then rows[|rows| - 1].count else 0)
  }

  /** With non-negative counts, solved and playing puzzles together never outnumber the folder. */
  lemma {:induction false} FolderCountsBounded(rows: seq<FolderRow>)
    requires forall k :: 0 <= k < |rows| ==> rows[k].count >= 0
    ensures 0 <= CountInState(rows, Game.StateCompleted)
    ensures 0 <= CountInState(rows, Game.StatePlaying)
    ensures CountInState(rows, Game.StateCompleted) + CountInState(rows, Game.StatePlaying) <= TotalCount(rows)
    decreases |rows|
  {
    if rows != [] {
      FolderCountsBounded(rows[..|rows| - 1]);
    }
  }

  /**
   * `getFolderInfo()`'s loop over the query rows: no rows gives null; the
   * folder takes the first row's id and name, and the counts are the sums
   * over all rows.
   */
  method GetFolderInfo(rows: seq<FolderRow>) returns (folder: Option<FolderInfo>)
    ensures folder.None? <==> rows == []
    ensures folder.Some? ==>
      folder.value == FolderInfo(rows[0].id, rows[0].name, TotalCount(rows),
        CountInState(rows, Game.StateCompleted), CountInState(rows, Game.StatePlaying))
    ensures folder.Some? && (forall k :: 0 <= k < |rows| ==> rows[k].count >= 0) ==>
      folder.value.solvedCount + folder.value.playingCount <= folder.value.puzzleCount
  {
    folder := None;
    var i := 0;
    while i < |rows|
      invariant 0 <= i <= |rows|
      invariant folder.None? <==> i == 0
      invariant folder.Some? ==>
        folder.value == FolderInfo(rows[0].id, rows[0].name, TotalCount(rows[..i]),
          CountInState(rows[..i], Game.StateCompleted), CountInState(rows[..i], Game.StatePlaying))
    {
      var row := rows[i];
      if folder.None? {
        folder := Some(FolderInfo(row.id, row.name, 0, 0, 0));
      }
      var f := folder.value;
      f := f.(puzzleCount := f.puzzleCount + row.count);
      if row.state == Game.StateCompleted {
        f := f.(solvedCount := f.solvedCount + row.count);
      }
      if row.state == Game.StatePlaying {
        f := f.(playingCount := f.playingCount + row.count);
      }
      folder := Some(f);
      assert rows[..i + 1][..i] == rows[..i];
      i := i + 1;
    }
    assert rows[..i] == rows;
    if folder.Some? && forall k :: 0 <= k < |rows| ==> rows[k].count >= 0 {
      FolderCountsBounded(rows);
    }
  }

  // ---- puzzle list filter ----

  /** Which states the puzzle list shows. */
  datatype SudokuListFilter = SudokuListFilter(
    showStateCompleted: bool, showStateNotStarted: bool, showStatePlaying: bool)

  /** One conjunct of the list query's WHERE clause. */
  datatype Condition = FolderIs(folderId: int) | StateIsNot(state: int)

  /**
   * The WHERE clause `getSudokuList()` builds, conjunct by conjunct: the folder
   * first, then one exclusion per state whose show flag is off.
   */
  function ListConditions(folderId: int, filter: Option<SudokuListFilter>): (r: seq<Condition>)
    ensures |r| >= 1 && r[0] == FolderIs(folderId)
    ensures forall k :: 1 <= k < |r| ==>
      r[k].StateIsNot? && filter.Some? && !ShowsState(filter.value, r[k].state)
    ensures filter.Some? && !filter.value.showStateCompleted ==> StateIsNot(Game.StateCompleted) in r
    ensures filter.Some? && !filter.value.showStateNotStarted ==> StateIsNot(Game.StateNotStarted) in r
    ensures filter.Some? && !filter.value.showStatePlaying ==> StateIsNot(Game.StatePlaying) in r
  {
    [FolderIs(folderId)] +
    match filter
    case None => []
    case Some(f) =>
      (if !f.showStateCompleted then [StateIsNot(Game.StateCompleted)] else []) +
      (if !f.showStateNotStarted then [StateIsNot(Game.StateNotStarted)] else []) +
      (if !f.showStatePlaying then [StateIsNot(Game.StatePlaying)] else [])
  }

  predicate Holds(c: Condition, folderId: int, state: int) {
    match c
    case FolderIs(id) => folderId == id
    case StateIsNot(s) => state != s
  }

  /** A puzzle row is listed when it satisfies every conjunct. */
  predicate Selected(conds: seq<Condition>, folderId: int, state: int) {
    forall k :: 0 <= k < |conds| ==> Holds(conds[k], folderId, state)
  }

  /** The show flag for a state; a state outside the three codes is never excluded. */
  function ShowsState(f: SudokuListFilter, state: int): bool {
    if state == Game.StateCompleted then f.showStateCompleted
    else if state == Game.StateNotStarted then f.showStateNotStarted
    else if state == Game.StatePlaying then f.showStatePlaying
    else true
  }

  /** A puzzle is listed iff it lies in the folder and, when a filter is given, its state's flag is set. */
  lemma ListFilterIff(folderId: int, filter: Option<SudokuListFilter>, rowFolder: int, state: int)
    ensures Selected(ListConditions(folderId, filter), rowFolder, state) <==>
      rowFolder == folderId && (filter.None? || ShowsState(filter.value, state))
  {
    var conds := ListConditions(folderId, filter);
    if rowFolder != folderId {
      assert !Holds(conds[0], rowFolder, state);
    }
    if filter.Some? {
      var f := filter.value;
      var c := if f.showStateCompleted then 0 else 1;
      var n := if f.showStateNotStarted then 0 else 1;
      if state == Game.StateCompleted && !f.showStateCompleted {
        assert !Holds(conds[1], rowFolder, state);
      } else if state == Game.StateNotStarted && !f.showStateNotStarted {
        assert !Holds(conds[1 + c], rowFolder, state);
      } else if state == Game.StatePlaying && !f.showStatePlaying {
        assert !Holds(conds[1 + c + n], rowFolder, state);
      }
    }
  }
}
