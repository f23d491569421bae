/**
 * The reversible commands the game pushes on its undo stack, and the undo
 * engine's laws.  A command records the part of the grid it overwrites, so
 * reverting it restores exactly what it found; undoing a whole stack in LIFO
 * order restores the grid the stack was built on.
 */
module Commands {
  import opened Grid

  /**
   * The four command classes: each records the prior state it overwrites.
   * Cells are addressed by index `row * 9 + col`.
   */
  datatype Command =
    | SetCellValue(cell: int, oldValue: int, newValue: int)
    | EditCellNote(cell: int, oldNote: string, newNote: string)
    | ClearAllNotes(oldNotes: seq<string>)
    | FillInNotes(oldNotes: seq<string>)
  {
    /** The command addresses a grid of `n` cells, with values in 0..9. */
    predicate Fits(n: int) {
      match this
      case SetCellValue(i, o, v) => 0 <= i < n && 0 <= o <= 9 && 0 <= v <= 9
      case EditCellNote(i, _, _) => 0 <= i < n
      case ClearAllNotes(notes) => |notes| == n
      case FillInNotes(notes) => |notes| == n
    }
  }

  function Notes(g: seq<Cell>): (notes: seq<string>)
    ensures |notes| == |g|
  {
    seq(|g|, i requires 0 <= i < |g| => g[i].note)
  }

  function WithNotes(g: seq<Cell>, notes: seq<string>): (r: seq<Cell>)
    requires |notes| == |g|
    ensures |r| == |g|
  {
    seq(|g|, i requires 0 <= i < |g| => g[i].(note := notes[i]))
  }

  /** A single-cell command only ever addresses an editable cell (the game checks before pushing). */
  predicate TargetsEditable(c: Command, g: seq<Cell>)
    requires c.Fits(|g|)
  {
    match c
    case SetCellValue(i, _, _) => g[i].editable
    case EditCellNote(i, _, _) => g[i].editable
    case _ => true
  }

  /** `c` was built against `g`: what it records as "old" is what `g` holds. */
  predicate Records(g: seq<Cell>, c: Command) {
    c.Fits(|g|) &&
    match c
    case SetCellValue(i, o, _) => g[i].value == o
    case EditCellNote(i, o, _) => g[i].note == o
    case ClearAllNotes(notes) => notes == Notes(g)
    case FillInNotes(notes) => notes == Notes(g)
  }

  /** The notes "fill in notes" leaves: candidates in editable empty cells, other notes untouched. */
  function FilledNotes(g: seq<Cell>): (notes: seq<string>)
    ensures |notes| == |g|
  {
    seq(|g|, i requires 0 <= i < |g| =>
      if g[i].editable && g[i].value == 0 then CandidateNote(Values(g), i) else g[i].note)
  }

  /** `execute()`: a command changes values or notes, never editability or validity flags. */
  function Execute(g: seq<Cell>, c: Command): (r: seq<Cell>)
    requires c.Fits(|g|)
    ensures |r| == |g|
    ensures forall i :: 0 <= i < |g| ==> r[i].editable == g[i].editable && r[i].valid == g[i].valid
    ensures TargetsEditable(c, g) ==> KeepsGivens(g, r)
    ensures WellFormed(g) ==> WellFormed(r)
  {
    match c
    case SetCellValue(i, _, v) => g[i := g[i].(value := v)]
    case EditCellNote(i, _, n) => g[i := g[i].(note := n)]
    case ClearAllNotes(_) => WithNotes(g, seq(|g|, _ => ""))
    case FillInNotes(_) => WithNotes(g, FilledNotes(g))
  }

  /** `undo()`: put back what the command recorded. */
  function Revert(g: seq<Cell>, c: Command): (r: seq<Cell>)
    requires c.Fits(|g|)
    ensures |r| == |g|
    ensures forall i :: 0 <= i < |g| ==> r[i].editable == g[i].editable && r[i].valid == g[i].valid
    ensures TargetsEditable(c, g) ==> KeepsGivens(g, r)
    ensures WellFormed(g) ==> WellFormed(r)
  {
    match c
    case SetCellValue(i, o, _) => g[i := g[i].(value := o)]
    case EditCellNote(i, o, _) => g[i := g[i].(note := o)]
    case ClearAllNotes(notes) => WithNotes(g, notes)
    case FillInNotes(notes) => WithNotes(g, notes)
  }

  predicate AllFit(cs: seq<Command>, n: int) {
    forall k :: 0 <= k < |cs| ==> cs[k].Fits(n)
  }

  /** The grid after executing `cs` in order, oldest first. */
  function ExecuteAll(g: seq<Cell>, cs: seq<Command>): (r: seq<Cell>)
    requires AllFit(cs, |g|)
    ensures |r| == |g|
    ensures forall i :: 0 <= i < |g| ==> r[i].editable == g[i].editable
    decreases |cs|
  {
    if cs == [] then g else Execute(ExecuteAll(g, cs[..|cs| - 1]), cs[|cs| - 1])
  }

  /** The grid after undoing `cs` one by one, newest first. */
  function RevertAll(g: seq<Cell>, cs: seq<Command>): (r: seq<Cell>)
    requires AllFit(cs, |g|)
    ensures |r| == |g|
    decreases |cs|
  {
    if cs == [] then g else RevertAll(Revert(g, cs[|cs| - 1]), cs[..|cs| - 1])
  }

  /** `cs` is an undo stack built on `g`: each command recorded the grid it was executed on. */
  predicate Replays(g: seq<Cell>, cs: seq<Command>)
    decreases |cs|
  {
    AllFit(cs, |g|) &&
    (cs == [] ||
     (Replays(g, cs[..|cs| - 1]) && Records(ExecuteAll(g, cs[..|cs| - 1]), cs[|cs| - 1])))
  }

  /** Undoing a command right after executing it restores the grid exactly. */
  lemma RevertExecute(g: seq<Cell>, c: Command)
    requires Records(g, c)
    ensures Revert(Execute(g, c), c) == g
  {
    var r := Revert(Execute(g, c), c);
    assert forall i :: 0 <= i < |g| ==> r[i] == g[i];
  }

  /** LIFO: undoing a whole stack, newest first, restores the grid it was built on. */
  lemma {:induction false} UndoAll(g: seq<Cell>, cs: seq<Command>)
    requires Replays(g, cs)
    ensures RevertAll(ExecuteAll(g, cs), cs) == g
    decreases |cs|
  {
    if cs != [] {
      var prefix, last := cs[..|cs| - 1], cs[|cs| - 1];
      RevertExecute(ExecuteAll(g, prefix), last);
      UndoAll(g, prefix);
    }
  }

  lemma SameContentExecute(a: seq<Cell>, b: seq<Cell>, c: Command)
    requires SameContent(a, b) && c.Fits(|a|)
    ensures SameContent(Execute(a, c), Execute(b, c))
  {
    if c.FillInNotes? {
      assert Values(a) == Values(b);
    }
  }

  lemma SameContentRevert(a: seq<Cell>, b: seq<Cell>, c: Command)
    requires SameContent(a, b) && c.Fits(|a|)
    ensures SameContent(Revert(a, c), Revert(b, c))
  {
  }

  lemma SameContentRecords(a: seq<Cell>, b: seq<Cell>, c: Command)
    requires SameContent(a, b)
    ensures Records(a, c) <==> Records(b, c)
  {
    assert Notes(a) == Notes(b);
  }

  /**
   * Pushing a command built on the current grid keeps the stack a faithful
   * history: replaying the longer stack yields the grid after the command.
   */
  lemma PushKeepsReplay(base: seq<Cell>, cs: seq<Command>, g: seq<Cell>, c: Command)
    requires Replays(base, cs) && SameContent(ExecuteAll(base, cs), g) && Records(g, c)
    ensures Replays(base, cs + [c])
    ensures SameContent(ExecuteAll(base, cs + [c]), Execute(g, c))
  {
    var cs' := cs + [c];
    assert cs'[..|cs'| - 1] == cs;
    SameContentRecords(ExecuteAll(base, cs), g, c);
    SameContentExecute(ExecuteAll(base, cs), g, c);
  }

  /**
   * Popping the newest command and reverting it on the current grid yields
   * (up to validity flags) the grid the rest of the stack replays to.
   */
  lemma PopKeepsReplay(base: seq<Cell>, cs: seq<Command>, g: seq<Cell>)
    requires cs != [] && Replays(base, cs) && SameContent(ExecuteAll(base, cs), g)
    ensures Replays(base, cs[..|cs| - 1])
    ensures SameContent(ExecuteAll(base, cs[..|cs| - 1]), Revert(g, cs[|cs| - 1]))
  {
    var prefix, last := cs[..|cs| - 1], cs[|cs| - 1];
    RevertExecute(ExecuteAll(base, prefix), last);
    SameContentRevert(ExecuteAll(base, cs), g, last);
  }

  /** Commands that only address editable cells never change a given's value, however many run. */
  lemma {:induction false} ExecuteAllKeepsGivens(g: seq<Cell>, cs: seq<Command>)
    requires AllFit(cs, |g|)
    requires forall k :: 0 <= k < |cs| ==> TargetsEditable(cs[k], g)
    ensures KeepsGivens(g, ExecuteAll(g, cs))
    decreases |cs|
  {
    if cs != [] {
      var prefix, last := cs[..|cs| - 1], cs[|cs| - 1];
      ExecuteAllKeepsGivens(g, prefix);
      var h := ExecuteAll(g, prefix);
      assert TargetsEditable(last, h) by {
        assert TargetsEditable(last, g);
      }
    }
  }
}
