/**
 * The 9x9 cell collection the game owns: cells, the row/column/box partition,
 * the validation rule (a cell is invalid when another cell of its row, column
 * or box holds the same non-zero value), completion, and the candidate digits
 * that "fill in notes" writes.  Cells are addressed by index `row * 9 + col`.
 */
module Grid {

  const SudokuSize := 9
  const CellCount := 81

  /** One cell: value 0 is empty; `note` is the player's free-text note. */
  datatype Cell = Cell(value: int, note: string, editable: bool, valid: bool)

  const EmptyCell := Cell(0, "", true, true)

  /** Exactly 81 cells whose values lie in 0..9. */
  predicate WellFormed(g: seq<Cell>) {
    |g| == CellCount && forall i :: 0 <= i < |g| ==> 0 <= g[i].value <= 9
  }

  function Row(i: int): int { i / SudokuSize }
  function Col(i: int): int { i % SudokuSize }
  function Box(i: int): int { (Row(i) / 3) * 3 + Col(i) / 3 }

  predicate SameGroup(i: int, j: int) {
    Row(i) == Row(j) || Col(i) == Col(j) || Box(i) == Box(j)
  }

  function Values(g: seq<Cell>): (vals: seq<int>)
    ensures |vals| == |g|
  {
    seq(|g|, i requires 0 <= i < |g| => g[i].value)
  }

  /** Two cells agree on everything a player or a puzzle sets: value, note, editability. */
  predicate SameContent(a: seq<Cell>, b: seq<Cell>) {
    |a| == |b| &&
    forall i :: 0 <= i < |a| ==>
      a[i].value == b[i].value && a[i].note == b[i].note && a[i].editable == b[i].editable
  }

  /** Editability never changes, and a non-editable cell (a given) keeps its value. */
  predicate KeepsGivens(a: seq<Cell>, b: seq<Cell>) {
    |a| == |b| &&
    forall i :: 0 <= i < |a| ==>
      b[i].editable == a[i].editable && (!a[i].editable ==> b[i].value == a[i].value)
  }

  /**
   * The reference rule: cell `i` holds a non-zero value that cell `j`, another
   * cell of its row, column or box, also holds.
   */
  predicate Clash(vals: seq<int>, i: int, j: int)
    requires 0 <= i < |vals| && 0 <= j < |vals|
  {
    i != j && SameGroup(i, j) && vals[i] != 0 && vals[i] == vals[j]
  }

  predicate CellValid(vals: seq<int>, i: int)
    requires 0 <= i < |vals|
  {
    forall j :: 0 <= j < |vals| ==> !Clash(vals, i, j)
  }

  // ---- validation group by group ----

  const GroupCount := 27

  /** Group `k` is row `k` for k < 9, column `k - 9` for k < 18, and box `k - 18` otherwise. */
  predicate InGroup(k: int, i: int) {
    if k < 9 then Row(i) == k
    else if k < 18 then Col(i) == k - 9
    else Box(i) == k - 18
  }

  /** How many of the first `n` cells lie in group `k` and hold `v`. */
  function Occupancy(vals: seq<int>, k: int, v: int, n: nat): nat
    requires n <= |vals|
  {
    if n == 0 then 0
    else Occupancy(vals, k, v, n - 1) + (if InGroup(k, n - 1) && vals[n - 1] == v then 1 else 0)
  }

  /** Group `k` marks cell `i`: the cell is in the group and its non-zero value occupies two or more of its cells. */
  predicate MarkedBy(vals: seq<int>, k: int, i: int)
    requires 0 <= i < |vals|
  {
    InGroup(k, i) && vals[i] != 0 && Occupancy(vals, k, vals[i], |vals|) >= 2
  }

  /**
   * The collection after `validate()`: every `valid` flag recomputed from the
   * values alone; a cell is valid iff none of the 27 groups marks it.
   */
  function Validated(g: seq<Cell>): (r: seq<Cell>)
    ensures SameContent(g, r)
  {
    seq(|g|, i requires 0 <= i < |g| =>
      g[i].(valid := forall k :: 0 <= k < GroupCount ==> !MarkedBy(Values(g), k, i)))
  }

  /** `isCompleted()`: every cell filled and marked valid. */
  predicate Completed(g: seq<Cell>) {
    forall i :: 0 <= i < |g| ==> g[i].value != 0 && g[i].valid
  }

  /** Validation reads nothing but values: grids with the same content validate alike. */
  lemma ValidatedFollowsContent(a: seq<Cell>, b: seq<Cell>)
    requires SameContent(a, b)
    ensures Validated(a) == Validated(b)
  {
    assert Values(a) == Values(b);
  }

  /** Validating twice is validating once. */
  lemma ValidatedIdempotent(g: seq<Cell>)
    ensures Validated(Validated(g)) == Validated(g)
  {
    ValidatedFollowsContent(Validated(g), g);
  }

  /** Some of the first `n` cells is in group `k` and holds `v` iff the occupancy is positive. */
  lemma {:induction false} OccupiedIff(vals: seq<int>, k: int, v: int, n: nat)
    requires n <= |vals|
    ensures Occupancy(vals, k, v, n) >= 1 <==>
      exists j :: 0 <= j < n && InGroup(k, j) && vals[j] == v
  {
    if n > 0 {
      OccupiedIff(vals, k, v, n - 1);
      if InGroup(k, n - 1) && vals[n - 1] == v {
        assert 0 <= n - 1 < n && InGroup(k, n - 1) && vals[n - 1] == v;
      } else if exists j :: 0 <= j < n && InGroup(k, j) && vals[j] == v {
        var j :| 0 <= j < n && InGroup(k, j) && vals[j] == v;
        assert j < n - 1;
      }
    }
  }

  /** A cell of group `k` holding `v` shares `v` with another cell of the group iff `v` occupies two or more cells. */
  lemma {:induction false} OccupiedTwiceIff(vals: seq<int>, k: int, i: int, n: nat)
    requires 0 <= i < n <= |vals| && InGroup(k, i)
    ensures Occupancy(vals, k, vals[i], n) >= 2 <==>
      exists j :: 0 <= j < n && j != i && InGroup(k, j) && vals[j] == vals[i]
  {
    var v := vals[i];
    if n - 1 == i {
      OccupiedIff(vals, k, v, n - 1);
      if exists j :: 0 <= j < n && j != i && InGroup(k, j) && vals[j] == v {
        var j :| 0 <= j < n && j != i && InGroup(k, j) && vals[j] == v;
        assert j < n - 1;
      }
    } else {
      OccupiedTwiceIff(vals, k, i, n - 1);
      if InGroup(k, n - 1) && vals[n - 1] == v {
        OccupiedIff(vals, k, v, n - 1);
        assert 0 <= i < n - 1 && InGroup(k, i) && vals[i] == v;
        assert n - 1 != i && InGroup(k, n - 1) && vals[n - 1] == v;
      } else if exists j :: 0 <= j < n && j != i && InGroup(k, j) && vals[j] == v {
        var j :| 0 <= j < n && j != i && InGroup(k, j) && vals[j] == v;
        assert j < n - 1;
      }
    }
  }

  /** Two cells share a row, column or box iff some one of the 27 groups holds both. */
  lemma SameGroupIff(i: int, j: int)
    requires 0 <= i < CellCount && 0 <= j < CellCount
    ensures SameGroup(i, j) <==> exists k :: 0 <= k < GroupCount && InGroup(k, i) && InGroup(k, j)
  {
    if SameGroup(i, j) {
      if Row(i) == Row(j) {
        assert InGroup(Row(i), i) && InGroup(Row(i), j);
      } else if Col(i) == Col(j) {
        assert InGroup(9 + Col(i), i) && InGroup(9 + Col(i), j);
      } else {
        assert InGroup(18 + Box(i), i) && InGroup(18 + Box(i), j);
      }
    }
  }

  /**
   * The group-by-group validator agrees with the pairwise rule: on the 81-cell
   * grid a cell is marked valid iff no other cell of its row, column or box
   * holds its non-zero value.
   */
  lemma {:induction false} ValidatedMarksClashes(g: seq<Cell>, i: int)
    requires |g| == CellCount && 0 <= i < |g|
    ensures Validated(g)[i].valid <==> CellValid(Values(g), i)
    ensures !Validated(g)[i].valid <==>
      (g[i].value != 0 && exists j :: 0 <= j < |g| && j != i && SameGroup(i, j) && g[j].value == g[i].value)
  {
    var vals := Values(g);
    if !Validated(g)[i].valid {
      var k :| 0 <= k < GroupCount && MarkedBy(vals, k, i);
      OccupiedTwiceIff(vals, k, i, |vals|);
      var j :| 0 <= j < |vals| && j != i && InGroup(k, j) && vals[j] == vals[i];
      SameGroupIff(i, j);
      assert Clash(vals, i, j);
      assert g[j].value == vals[j];
    }
    if g[i].value != 0 && exists j :: 0 <= j < |g| && j != i && SameGroup(i, j) && g[j].value == g[i].value {
      var j :| 0 <= j < |g| && j != i && SameGroup(i, j) && g[j].value == g[i].value;
      assert Clash(vals, i, j);
    }
    if !CellValid(vals, i) {
      var j :| 0 <= j < |vals| && Clash(vals, i, j);
      SameGroupIff(i, j);
      var k :| 0 <= k < GroupCount && InGroup(k, i) && InGroup(k, j);
      OccupiedTwiceIff(vals, k, i, |vals|);
      assert MarkedBy(vals, k, i);
      assert g[j].value == vals[j];
    }
  }

  /** Two cells of one group holding the same digit are both marked invalid. */
  lemma DuplicatesBothInvalid(g: seq<Cell>, i: int, j: int)
    requires |g| == CellCount
    requires 0 <= i < |g| && 0 <= j < |g| && i != j && SameGroup(i, j)
    requires g[i].value != 0 && g[i].value == g[j].value
    ensures !Validated(g)[i].valid && !Validated(g)[j].valid
  {
    ValidatedMarksClashes(g, i);
    ValidatedMarksClashes(g, j);
    assert Clash(Values(g), i, j);
    assert Clash(Values(g), j, i);
  }

  /** After validation the grid is completed iff every cell is filled and no two cells of a group clash. */
  lemma {:induction false} CompletedIff(g: seq<Cell>)
    requires |g| == CellCount
    ensures Completed(Validated(g)) <==>
      (forall i :: 0 <= i < |g| ==> g[i].value != 0) &&
      (forall i, j :: 0 <= i < |g| && 0 <= j < |g| ==> !Clash(Values(g), i, j))
  {
    var v := Validated(g);
    if Completed(v) {
      forall i | 0 <= i < |g| ensures g[i].value != 0 {
        assert v[i].value != 0;
      }
      forall i, j | 0 <= i < |g| && 0 <= j < |g| ensures !Clash(Values(g), i, j) {
        assert v[i].valid;
        ValidatedMarksClashes(g, i);
      }
    } else if (forall i :: 0 <= i < |g| ==> g[i].value != 0) &&
              (forall i, j :: 0 <= i < |g| && 0 <= j < |g| ==> !Clash(Values(g), i, j)) {
      var i :| 0 <= i < |g| && !(v[i].value != 0 && v[i].valid);
      ValidatedMarksClashes(g, i);
    }
  }

  // ---- candidate digits ("fill in notes") ----

  function DigitChar(d: int): char
    requires 0 <= d <= 9
  {
    ('0' as int + d) as char
  }

  function DigitValue(c: char): int {
    c as int - '0' as int
  }

  /** Digit `d` already stands in the row, column or box of cell `i`. */
  predicate Excluded(vals: seq<int>, i: int, d: int)
    requires 0 <= i < |vals|
  {
    exists j :: 0 <= j < |vals| && SameGroup(i, j) && vals[j] == d
  }

  /** The candidate digits `d..9` of cell `i`, ascending. */
  function CandidatesFrom(vals: seq<int>, i: int, d: int): (r: seq<int>)
    requires 0 <= i < |vals| && 1 <= d <= 10
    ensures forall k :: 0 <= k < |r| ==> d <= r[k] <= 9 && !Excluded(vals, i, r[k])
    ensures forall e :: d <= e <= 9 && !Excluded(vals, i, e) ==> e in r
    ensures forall k, l :: 0 <= k < l < |r| ==> r[k] < r[l]
    decreases 10 - d
  {
    if d == 10 then []
    else if Excluded(vals, i, d) then CandidatesFrom(vals, i, d + 1)
    else [d] + CandidatesFrom(vals, i, d + 1)
  }

  /** The note "fill in notes" writes into empty cell `i`: its candidate digits 1..9, ascending. */
  function CandidateNote(vals: seq<int>, i: int): (note: string)
    requires 0 <= i < |vals|
  {
    var ds := CandidatesFrom(vals, i, 1);
    seq(|ds|, k requires 0 <= k < |ds| => DigitChar(ds[k]))
  }

  /** A digit is in the filled-in note iff it appears nowhere in the cell's row, column or box. */
  lemma CandidateNoteIff(vals: seq<int>, i: int, d: int)
    requires 0 <= i < |vals| && 1 <= d <= 9
    ensures DigitChar(d) in CandidateNote(vals, i) <==> !Excluded(vals, i, d)
  {
    var ds := CandidatesFrom(vals, i, 1);
    var r := CandidateNote(vals, i);
    if !Excluded(vals, i, d) {
      assert d in ds;
      var k :| 0 <= k < |ds| && ds[k] == d;
      assert r[k] == DigitChar(d);
    } else {
      forall k | 0 <= k < |r| ensures r[k] != DigitChar(d) {
        assert r[k] == DigitChar(ds[k]);
        assert ds[k] != d;
        assert DigitValue(DigitChar(ds[k])) == ds[k];
      }
    }
  }
}
