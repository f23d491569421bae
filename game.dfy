/**
 * The puzzle session: play state, play-time accounting across pause and
 * resume, the undo stack of reversible commands, reset, and the Parcel
 * field order used to carry a game across an activity restart.
 */
module Game {
  import opened Wrappers
  import opened Grid
  import opened Commands
  import Clock

  /** Play-state codes as stored in the database. */
  const StatePlaying := 0
  const StateNotStarted := 1
  const StateCompleted := 2

  /** What `reset()` does to one cell: an editable cell is emptied and its note cleared. */
  function ResetCell(c: Cell): Cell {
    if c.editable then c.(value := 0, note := "") else c
  }

  function ResetCells(g: seq<Cell>): (r: seq<Cell>)
    ensures |r| == |g|
  {
    seq(|g|, i requires 0 <= i < |g| => ResetCell(g[i]))
  }

  /** Reset erases every player move: whatever editable-cell commands ran, the reset values are the same. */
  lemma ResetForgetsMoves(g: seq<Cell>, cs: seq<Command>)
    requires AllFit(cs, |g|)
    requires forall k :: 0 <= k < |cs| ==> TargetsEditable(cs[k], g)
    ensures Values(ResetCells(ExecuteAll(g, cs))) == Values(ResetCells(g))
  {
    ExecuteAllKeepsGivens(g, cs);
  }

  /** After a reset only the givens hold values, so a puzzle with an editable cell is not completed. */
  lemma ResetNotCompleted(g: seq<Cell>, i: int)
    requires 0 <= i < |g| && g[i].editable
    ensures !Completed(Validated(ResetCells(g)))
  {
    assert ResetCells(g)[i].value == 0;
  }

  // ---- Parcel ----

  /** One typed slot of an Android Parcel. */
  datatype ParcelValue =
    | PLong(l: int)
    | PInt(n: int)
    | PString(s: Option<string>)
    | PCells(cells: seq<Cell>)

  /** The fields a Parcel carries: the start time of an active interval and the undo stack are not among them. */
  datatype GameRecord = GameRecord(
    id: int, note: Option<string>, created: int, state: int, time: int, lastPlayed: int, cells: seq<Cell>)

  datatype ParcelError = MalformedParcel

  /**
   * `writeToParcel`: id, note, created, state, time, lastPlayed, cells, in that
   * order; the Parcel constructor reads back every carried field.
   */
  function WriteParcel(r: GameRecord): (p: seq<ParcelValue>)
    ensures |p| == 7
    ensures WellFormed(r.cells) ==> ReadParcel(p) == Ok(r)
  {
    [PLong(r.id), PString(r.note), PLong(r.created), PInt(r.state), PLong(r.time),
     PLong(r.lastPlayed), PCells(r.cells)]
  }

  /** The Parcel constructor: reads the slots back in the same order. */
  function ReadParcel(p: seq<ParcelValue>): (r: Result<GameRecord, ParcelError>)
    ensures r.Ok? ==> WellFormed(r.value.cells)
  {
    if |p| >= 7 && p[0].PLong? && p[1].PString? && p[2].PLong? && p[3].PInt? && p[4].PLong?
       && p[5].PLong? && p[6].PCells? && WellFormed(p[6].cells)
    then Ok(GameRecord(p[0].l, p[1].s, p[2].l, p[3].n, p[4].l, p[5].l, p[6].cells))
    else Err(MalformedParcel)
  }

  /** A Parcel whose first two slots are swapped does not read back as the game written. */
  lemma ParcelOrderMatters(r: GameRecord)
    requires WellFormed(r.cells)
    ensures ReadParcel([PString(r.note), PLong(r.id)] + WriteParcel(r)[2..]) != Ok(r)
  {
  }

  class SudokuGame {
    var id: int
    var created: int        // milliseconds since the epoch
    var state: int
    var time: int           // play time banked so far, milliseconds
    var lastPlayed: int     // milliseconds since the epoch
    var note: Option<string>
    const cells: array<Cell>
    var hasListener: bool   // an on-puzzle-solved listener is set
    var undoStack: seq<Command>
    var activeFromTime: int // uptime at which play became active, or -1

    /** The grid the undo stack was built on, and whether the stack still describes the grid. */
    ghost var base: seq<Cell>
    ghost var undoConsistent: bool

    ghost predicate Valid()
      reads this, cells
    {
      && WellFormed(cells[..])
      && (forall k :: 0 <= k < |undoStack| ==>
            undoStack[k].Fits(CellCount) && TargetsEditable(undoStack[k], cells[..]))
      && (undoConsistent ==>
            |base| == CellCount && Replays(base, undoStack) &&
            SameContent(ExecuteAll(base, undoStack), cells[..]))
    }

    function Record(): GameRecord
      reads this, cells
    {
      GameRecord(id, note, created, state, time, lastPlayed, cells[..])
    }

    predicate IsActive()
      reads this
    {
      activeFromTime != Clock.Inactive
    }

    /**
     * `getTime()` with the uptime reading passed in: the banked time while
     * inactive, and exactly what `pause()` would bank while active.
     */
    function GetTime(now: int): (r: int)
      reads this
      ensures !IsActive() ==> r == time
      ensures IsActive() ==> r == Clock.Banked(time, activeFromTime, now)
    {
      Clock.Elapsed(time, activeFromTime, now)
    }

    /**
     * `isCompleted()`.  On a validated 81-cell grid: every cell is filled and no
     * two cells of a row, column or box hold the same value.
     */
    function IsCompleted(): (r: bool)
      reads this, cells
      ensures cells.Length == CellCount && cells[..] == Validated(cells[..]) ==>
        (r <==> (forall i :: 0 <= i < cells.Length ==> cells[i].value != 0) &&
                (forall i, j :: 0 <= i < cells.Length && 0 <= j < cells.Length ==> !Clash(Values(cells[..]), i, j)))
    {
      if cells.Length == CellCount then
        CompletedIff(cells[..]);
        Completed(cells[..])
      else
        Completed(cells[..])
    }

    function HasSomethingToUndo(): (r: bool)
      reads this
      ensures r <==> undoStack != []
    {
      |undoStack| != 0
    }

    /** `createEmptyGame()`: a new game over 81 empty editable cells. */
    constructor CreateEmpty()
      ensures Valid() && fresh(cells)
      ensures state == StateNotStarted && time == 0 && created == 0 && lastPlayed == 0
      ensures activeFromTime == Clock.Inactive && !IsActive() && GetTime(0) == 0
      ensures id == 0 && note == None && !hasListener
      ensures cells[..] == seq(CellCount, _ => EmptyCell)
      ensures undoStack == [] && undoConsistent
    {
      id, created, state, time, lastPlayed := 0, 0, StateNotStarted, 0, 0;
      note, hasListener, undoStack, activeFromTime := None, false, [], Clock.Inactive;
      cells := new Cell[CellCount](_ => EmptyCell);
      new;
      base, undoConsistent := cells[..], true;
    }

    /** The Parcel constructor: carried fields come back, the game is inactive with nothing to undo. */
    constructor FromParcel(p: seq<ParcelValue>)
      requires ReadParcel(p).Ok?
      ensures Valid() && fresh(cells)
      ensures Record() == ReadParcel(p).value
      ensures activeFromTime == Clock.Inactive && undoStack == [] && !hasListener
    {
      var r := ReadParcel(p).value;
      id, note, created, state, time, lastPlayed := r.id, r.note, r.created, r.state, r.time, r.lastPlayed;
      hasListener, undoStack, activeFromTime := false, [], Clock.Inactive;
      cells := new Cell[CellCount](i requires 0 <= i < CellCount => r.cells[i]);
      new;
      assert cells[..] == r.cells;
      base, undoConsistent := cells[..], true;
    }

    /** `writeToParcel`: what it writes reads back as this game's carried fields. */
    method WriteToParcel() returns (p: seq<ParcelValue>)
      requires Valid()
      ensures p == WriteParcel(Record())
      ensures ReadParcel(p) == Ok(Record())
    {
      p := WriteParcel(Record());
    }

    method SetOnPuzzleSolvedListener(present: bool)
      modifies this`hasListener
      ensures hasListener == present
    {
      hasListener := present;
    }

    /** Copies a computed grid into the cell array. */
    method Install(g: seq<Cell>)
      requires cells.Length == |g|
      modifies cells
      ensures cells[..] == g
    {
      forall i | 0 <= i < cells.Length {
        cells[i] := g[i];
      }
    }

    /** `validate()`: recompute every validity flag. */
    method Validate()
      requires Valid()
      modifies cells
      ensures Valid()
      ensures cells[..] == Validated(old(cells[..]))
    {
      var g := cells[..];
      Install(Validated(g));
    }

    /** `start()`: the game is playing and active from `now`. */
    method Start(now: int)
      requires Valid()
      modifies this`state, this`activeFromTime
      ensures Valid()
      ensures state == StatePlaying && activeFromTime == now
    {
      state := StatePlaying;
      Resume(now);
    }

    /** `resume()`: only the start of the active interval changes; the banked time is kept. */
    method Resume(now: int)
      requires Valid()
      modifies this`activeFromTime
      ensures Valid()
      ensures activeFromTime == now
      ensures GetTime(now) == time
    {
      activeFromTime := now;
    }

    /**
     * `pause()`: bank the running interval, become inactive, and stamp the
     * wall-clock time as last played.  There is no guard: when already
     * inactive the banked time grows by `now + 1`.
     */
    method Pause(now: int, wallNow: int)
      requires Valid()
      modifies this`time, this`activeFromTime, this`lastPlayed
      ensures Valid()
      ensures time == Clock.Banked(old(time), old(activeFromTime), now)
      ensures activeFromTime == Clock.Inactive && lastPlayed == wallNow
      ensures old(IsActive()) ==> GetTime(now) == old(GetTime(now))
    {
      time := time + now - activeFromTime;
      activeFromTime := Clock.Inactive;
      lastPlayed := wallNow;
    }

    /** `finish()`: pause, then mark the game completed. */
    method Finish(now: int, wallNow: int)
      requires Valid()
      modifies this`time, this`activeFromTime, this`lastPlayed, this`state
      ensures Valid()
      ensures time == Clock.Banked(old(time), old(activeFromTime), now)
      ensures activeFromTime == Clock.Inactive && lastPlayed == wallNow && state == StateCompleted
      ensures old(IsActive()) ==> GetTime(now) == old(GetTime(now))
    {
      Pause(now, wallNow);
      state := StateCompleted;
    }

    /** `executeCommand()`: run a command built on the current grid, then push it. */
    method ExecuteCommand(c: Command)
      requires Valid() && Records(cells[..], c) && TargetsEditable(c, cells[..])
      modifies cells, this`undoStack
      ensures Valid()
      ensures cells[..] == Execute(old(cells[..]), c)
      ensures undoStack == old(undoStack) + [c]
    {
      var g := cells[..];
      if undoConsistent {
        PushKeepsReplay(base, undoStack, g, c);
      }
      Install(Execute(g, c));
      undoStack := undoStack + [c];
    }

    /**
     * `setCellValue()`: on a non-editable cell nothing happens.  On an editable
     * cell exactly one command is pushed, the value set and the grid
     * re-validated; if that completes the puzzle the game is finished and the
     * listener, when set, is notified (`notified`).
     */
    method SetCellValue(cell: int, value: int, now: int, wallNow: int) returns (notified: bool)
      requires Valid()
      requires 0 <= cell < CellCount && 0 <= value <= 9
      modifies cells, this`undoStack, this`state, this`time, this`activeFromTime, this`lastPlayed
      ensures Valid()
      ensures KeepsGivens(old(cells[..]), cells[..])
      ensures !old(cells[cell].editable) ==>
        cells[..] == old(cells[..]) && undoStack == old(undoStack) && !notified
      ensures old(cells[cell].editable) ==>
        undoStack == old(undoStack) + [Command.SetCellValue(cell, old(cells[cell].value), value)] &&
        cells[..] == Validated(old(cells[..])[cell := old(cells[cell]).(value := value)])
      ensures old(cells[cell].editable) && Completed(cells[..]) ==>
        state == StateCompleted && activeFromTime == Clock.Inactive && lastPlayed == wallNow &&
        time == Clock.Banked(old(time), old(activeFromTime), now)
      ensures !(old(cells[cell].editable) && Completed(cells[..])) ==>
        state == old(state) && time == old(time) && activeFromTime == old(activeFromTime) &&
        lastPlayed == old(lastPlayed)
      ensures old(IsActive()) ==> GetTime(now) == old(GetTime(now))
      ensures notified <==> old(cells[cell].editable) && Completed(cells[..]) && hasListener
    {
      notified := false;
      if cells[cell].editable {
        ExecuteCommand(Command.SetCellValue(cell, cells[cell].value, value));
        Validate();
        if IsCompleted() {
          Finish(now, wallNow);
          notified := hasListener;
        }
      }
    }

    /** `setCellNote()`: a no-op on a non-editable cell; otherwise one command is pushed and the note set. */
    method SetCellNote(cell: int, note: string)
      requires Valid()
      requires 0 <= cell < CellCount
      modifies cells, this`undoStack
      ensures Valid()
      ensures KeepsGivens(old(cells[..]), cells[..])
      ensures !old(cells[cell].editable) ==> cells[..] == old(cells[..]) && undoStack == old(undoStack)
      ensures old(cells[cell].editable) ==>
        undoStack == old(undoStack) + [EditCellNote(cell, old(cells[cell].note), note)] &&
        cells[..] == old(cells[..])[cell := old(cells[cell]).(note := note)]
    {
      if cells[cell].editable {
        ExecuteCommand(EditCellNote(cell, cells[cell].note, note));
      }
    }

    /** `clearAllNotes()`: always pushes one command, which empties every note. */
    method ClearAllNotes()
      requires Valid()
      modifies cells, this`undoStack
      ensures Valid()
      ensures undoStack == old(undoStack) + [Command.ClearAllNotes(Notes(old(cells[..])))]
      ensures forall i :: 0 <= i < CellCount ==> cells[i] == old(cells[i]).(note := "")
    {
      ExecuteCommand(Command.ClearAllNotes(Notes(cells[..])));
    }

    /** `fillInNotes()`: always pushes one command, which writes candidates into editable empty cells. */
    method FillInNotes()
      requires Valid()
      modifies cells, this`undoStack
      ensures Valid()
      ensures undoStack == old(undoStack) + [Command.FillInNotes(Notes(old(cells[..])))]
      ensures forall i :: 0 <= i < CellCount ==>
        cells[i] == if old(cells[i].editable) && old(cells[i].value) == 0
                    then old(cells[i]).(note := CandidateNote(Values(old(cells[..])), i))
                    else old(cells[i])
    {
      ExecuteCommand(Command.FillInNotes(Notes(cells[..])));
    }

    /**
     * `undo()`: a no-op on an empty stack; otherwise pops the newest command,
     * reverts it and re-validates.  Play state and time are untouched.  While
     * the stack still describes the grid, the result is the grid as it stood
     * before the popped command ran.
     */
    method Undo()
      requires Valid()
      modifies cells, this`undoStack
      ensures Valid()
      ensures KeepsGivens(old(cells[..]), cells[..])
      ensures old(undoStack) == [] ==> cells[..] == old(cells[..]) && undoStack == []
      ensures old(undoStack) != [] ==>
        undoStack == old(undoStack)[..|old(undoStack)| - 1] &&
        cells[..] == Validated(Revert(old(cells[..]), old(undoStack)[|old(undoStack)| - 1]))
      ensures old(undoStack) != [] && undoConsistent ==>
        cells[..] == Validated(ExecuteAll(base, undoStack))
    {
      if undoStack != [] {
        var c := undoStack[|undoStack| - 1];
        var g := cells[..];
        if undoConsistent {
          PopKeepsReplay(base, undoStack, g);
        }
        undoStack := undoStack[..|undoStack| - 1];
        Install(Revert(g, c));
        Validate();
        if undoConsistent {
          ValidatedFollowsContent(ExecuteAll(base, undoStack), Revert(g, c));
        }
      }
    }

    /** The 9x9 loops of `reset()`: empty every editable cell in place. */
    method ResetCellsInPlace()
      requires cells.Length == CellCount
      modifies cells
      ensures cells[..] == ResetCells(old(cells[..]))
    {
      var r := 0;
      while r < SudokuSize
        invariant 0 <= r <= SudokuSize
        invariant forall k :: 0 <= k < r * SudokuSize ==> cells[k] == ResetCell(old(cells[k]))
        invariant forall k :: r * SudokuSize <= k < CellCount ==> cells[k] == old(cells[k])
      {
        var c := 0;
        while c < SudokuSize
          invariant 0 <= c <= SudokuSize
          invariant forall k :: 0 <= k < r * SudokuSize + c ==> cells[k] == ResetCell(old(cells[k]))
          invariant forall k :: r * SudokuSize + c <= k < CellCount ==> cells[k] == old(cells[k])
        {
          var i := r * SudokuSize + c;
          if cells[i].editable {
            cells[i] := cells[i].(value := 0);
            cells[i] := cells[i].(note := "");
          }
          c := c + 1;
        }
        r := r + 1;
      }
    }

    /**
     * `reset()`: editable cells emptied, givens untouched, time and last-played
     * zeroed, state back to not-started.  The undo stack and the active
     * interval are kept, so the stack describes the grid only if it was empty.
     */
    method Reset()
      requires Valid()
      modifies cells, this`time, this`lastPlayed, this`state, this`base, this`undoConsistent
      ensures Valid()
      ensures KeepsGivens(old(cells[..]), cells[..])
      ensures cells[..] == Validated(ResetCells(old(cells[..])))
      ensures time == 0 && lastPlayed == 0 && state == StateNotStarted
      ensures undoConsistent <==> undoStack == []
    {
      ResetCellsInPlace();
      base, undoConsistent := cells[..], undoStack == [];
      Validate();
      time := 0;
      lastPlayed := 0;
      state := StateNotStarted;
    }

    /** `reset()` as evidently intended: as above, and the undo history is cleared too. */
    method ResetClearingUndo()
      requires Valid()
      modifies cells, this`time, this`lastPlayed, this`state, this`base, this`undoConsistent,
        this`undoStack
      ensures Valid()
      ensures KeepsGivens(old(cells[..]), cells[..])
      ensures cells[..] == Validated(ResetCells(old(cells[..])))
      ensures time == 0 && lastPlayed == 0 && state == StateNotStarted
      ensures undoStack == [] && !HasSomethingToUndo() && undoConsistent
    {
      undoStack, undoConsistent := [], false;
      Reset();
    }
  }
}
