/**
 * How the play screen drives a game: start or resume when shown, pause when
 * hidden, and "restart" (reset then start).  Also the undo scenarios that
 * show what a player sees after a move and after a restart.
 */
module PlayActivity {
  import opened Grid
  import opened Commands
  import opened Game
  import Clock

  /** Shown: a not-started game is started, a playing one resumed, a completed one left alone. */
  method StartOrResume(g: SudokuGame, now: int)
    requires g.Valid()
    modifies g`state, g`activeFromTime
    ensures g.Valid()
    ensures old(g.state) == StateNotStarted || old(g.state) == StatePlaying ==>
      g.state == StatePlaying && g.activeFromTime == now && g.GetTime(now) == g.time
    ensures !(old(g.state) == StateNotStarted || old(g.state) == StatePlaying) ==>
      g.state == old(g.state) && g.activeFromTime == old(g.activeFromTime)
  {
    if g.state == StateNotStarted {
      g.Start(now);
    } else if g.state == StatePlaying {
      g.Resume(now);
    }
  }

  /** Hidden: a playing game is paused. */
  method PauseIfPlaying(g: SudokuGame, now: int, wallNow: int)
    requires g.Valid()
    modifies g`time, g`activeFromTime, g`lastPlayed
    ensures g.Valid()
    ensures old(g.state) == StatePlaying ==>
      g.time == Clock.Banked(old(g.time), old(g.activeFromTime), now) && !g.IsActive() &&
      g.lastPlayed == wallNow
    ensures old(g.state) != StatePlaying ==>
      g.time == old(g.time) && g.activeFromTime == old(g.activeFromTime) && g.lastPlayed == old(g.lastPlayed)
  {
    if g.state == StatePlaying {
      g.Pause(now, wallNow);
    }
  }

  /** One visit to the play screen: the banked time grows by exactly the time the screen was shown. */
  method PlayVisit(g: SudokuGame, shownAt: int, hiddenAt: int, wallNow: int)
    requires g.Valid()
    modifies g`state, g`time, g`activeFromTime, g`lastPlayed
    ensures g.Valid()
    ensures old(g.state) == StateNotStarted || old(g.state) == StatePlaying ==>
      g.state == StatePlaying && !g.IsActive() &&
      g.time == Clock.AfterSessions(old(g.time), [Clock.Interval(shownAt, hiddenAt)])
    ensures !(old(g.state) == StateNotStarted || old(g.state) == StatePlaying) ==>
      g.state == old(g.state) && g.time == old(g.time)
  {
    StartOrResume(g, shownAt);
    PauseIfPlaying(g, hiddenAt, wallNow);
  }

  /** "Restart": reset then start.  The clock runs from zero; the old undo stack is still there. */
  method Restart(g: SudokuGame, now: int)
    requires g.Valid()
    modifies g.cells, g`time, g`lastPlayed, g`state, g`base, g`undoConsistent, g`activeFromTime
    ensures g.Valid()
    ensures g.cells[..] == Validated(ResetCells(old(g.cells[..])))
    ensures g.state == StatePlaying && g.time == 0 && g.activeFromTime == now && g.GetTime(now) == 0
    ensures g.undoStack == old(g.undoStack)
  {
    g.Reset();
    g.Start(now);
  }

  /** A value set on an editable cell and then undone leaves the grid as validation would leave it. */
  method SetValueThenUndo(g: SudokuGame, cell: int, value: int, now: int, wallNow: int)
    requires g.Valid() && 0 <= cell < CellCount && 0 <= value <= 9
    requires g.cells[cell].editable
    modifies g.cells, g`undoStack, g`state, g`time, g`activeFromTime, g`lastPlayed
    ensures g.Valid()
    ensures g.cells[..] == Validated(old(g.cells[..]))
    ensures g.undoStack == old(g.undoStack)
  {
    ghost var g0 := g.cells[..];
    var c := Command.SetCellValue(cell, g.cells[cell].value, value);
    var notified := g.SetCellValue(cell, value, now, wallNow);
    assert Execute(g0, c) == g0[cell := g0[cell].(value := value)];
    g.Undo();
    SameContentRevert(Validated(Execute(g0, c)), Execute(g0, c), c);
    RevertExecute(g0, c);
    ValidatedFollowsContent(Revert(Validated(Execute(g0, c)), c), g0);
  }

  /**
   * As written: two moves on cell (0,1), a restart, then undo.  The restart
   * emptied the cell, yet undo brings back the first move's 3.
   */
  method UndoAfterRestart() returns (v: int)
    ensures v == 3
  {
    var g := new SudokuGame.CreateEmpty();
    g.Start(0);
    var solved := g.SetCellValue(1, 3, 10, 1000);
    solved := g.SetCellValue(1, 4, 20, 2000);
    Restart(g, 30);
    g.Undo();
    v := g.cells[1].value;
  }

  /** Corrected: after a restart that clears the history, nothing can be undone and the cell stays empty. */
  method UndoAfterCorrectedRestart() returns (v: int, canUndo: bool)
    ensures v == 0 && !canUndo
  {
    var g := new SudokuGame.CreateEmpty();
    g.Start(0);
    var solved := g.SetCellValue(1, 3, 10, 1000);
    solved := g.SetCellValue(1, 4, 20, 2000);
    g.ResetClearingUndo();
    g.Start(30);
    g.Undo();
    v := g.cells[1].value;
    canUndo := g.HasSomethingToUndo();
  }
}
