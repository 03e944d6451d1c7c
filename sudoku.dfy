/** The backtracking Sudoku solver: a board of 81 values, the working state `Cells`
    built from it (a status per cell and the list of holes), the search over the
    holes, and the conversion back to a board. */
module Sudoku {
  import opened Wrappers
  import opened SudokuGrid
  import opened SudokuSearch

  /** Status of one cell during the search. */
  datatype Cell = Fixed(value: int) | Guess(value: int) | Hole {

    /** A given or a guess holds a digit 1..9. */
    predicate InRange() {
      Hole? || 1 <= value <= 9
    }

    /** The value the cell shows: its digit, or 0 for a hole. A cell in range shows
        0 exactly when it is a hole. */
    function AsVal(): (v: int)
      ensures !Hole? ==> v == value
      ensures InRange() ==> 0 <= v <= 9 && (v == 0 <==> Hole?)
    {
      match this
      case Fixed(x) => x
      case Guess(x) => x
      case Hole => 0
    }
  }

  /** The values that a row of cells shows. */
  function Values(cells: seq<Cell>): (g: seq<int>)
    ensures |g| == |cells| && forall p :: 0 <= p < |cells| ==> g[p] == cells[p].AsVal()
  {
    seq(|cells|, p requires 0 <= p < |cells| => cells[p].AsVal())
  }

  /** Changing one cell changes exactly that cell's value. */
  lemma ValuesUpdate(cells: seq<Cell>, p: int, c: Cell)
    requires 0 <= p < |cells|
    ensures Values(cells[p := c]) == Values(cells)[p := c.AsVal()]
  {
  }

  /** The progress vector of a state ranks below the bound of the search. */
  lemma RankBelowBound(board: seq<int>, hs: seq<int>, g: seq<int>, idx: int)
    requires SearchState(board, hs, g, idx)
    ensures Digits(Progress(g, hs, idx)) && Rank(Progress(g, hs, idx)) <= Pow11(|hs|)
  {
    ProgressDigits(g, hs, idx);
    RankBounds(Progress(g, hs, idx));
  }

  /** One step of the search at hole idx of the hole list hs, on the cells cs: the
      next digit above the cell's value that no peer shows is written as a guess and
      the cursor moves forward; without one the cell is emptied and the cursor moves
      back, or the step fails at the first hole. */
  function StepAt(cs: seq<Cell>, hs: seq<int>, idx: int): (r: Result<(seq<Cell>, int), Unit>)
    requires |cs| == Size && AllIn(Values(cs), 0, 9) && 0 <= idx < |hs| && 0 <= hs[idx] < Size
    ensures r.Ok? ==> |r.value.0| == Size && (r.value.1 == idx + 1 || r.value.1 == idx - 1)
  {
    var g, pos := Values(cs), hs[idx];
    var v := NextCandidate(g, pos, g[pos] + 1);
    if v <= 9 then Ok((cs[pos := Guess(v)], idx + 1))
    else if idx == 0 then Err(Unit)
    else Ok((cs[pos := Hole], idx - 1))
  }

  /** A step that writes a guess and moves forward keeps the search state and
      raises the rank of the progress vector. */
  lemma AdvanceCells(board: seq<int>, hs: seq<int>, cs: seq<Cell>, idx: int, cs': seq<Cell>, idx': int)
    requires |cs| == Size && SearchState(board, hs, Values(cs), idx) && idx < |hs|
    requires NextCandidate(Values(cs), hs[idx], Values(cs)[hs[idx]] + 1) <= 9
    requires StepAt(cs, hs, idx) == Ok((cs', idx'))
    ensures SearchState(board, hs, Values(cs'), idx')
    ensures Rank(Progress(Values(cs), hs, idx)) < Rank(Progress(Values(cs'), hs, idx'))
  {
    var g, pos := Values(cs), hs[idx];
    var v := NextCandidate(g, pos, g[pos] + 1);
    assert cs' == cs[pos := Guess(v)] && idx' == idx + 1;
    ValuesUpdate(cs, pos, Guess(v));
    AdvanceStep(board, hs, g, idx, Values(cs'), idx');
    RankBelowBound(board, hs, g, idx);
    RankBelowBound(board, hs, Values(cs'), idx');
    RankLex(Progress(g, hs, idx), Progress(Values(cs'), hs, idx'), idx);
  }

  /** A step that empties the cursor's cell and moves back keeps the search state
      and raises the rank of the progress vector. */
  lemma RetreatCells(board: seq<int>, hs: seq<int>, cs: seq<Cell>, idx: int, cs': seq<Cell>, idx': int)
    requires |cs| == Size && SearchState(board, hs, Values(cs), idx) && idx < |hs|
    requires NextCandidate(Values(cs), hs[idx], Values(cs)[hs[idx]] + 1) == 10
    requires StepAt(cs, hs, idx) == Ok((cs', idx'))
    ensures SearchState(board, hs, Values(cs'), idx')
    ensures Rank(Progress(Values(cs), hs, idx)) < Rank(Progress(Values(cs'), hs, idx'))
  {
    var g, pos := Values(cs), hs[idx];
    assert cs' == cs[pos := Hole] && idx' == idx - 1;
    ValuesUpdate(cs, pos, Hole);
    RetreatStep(board, hs, g, idx, Values(cs'), idx');
    RankBelowBound(board, hs, g, idx);
    RankBelowBound(board, hs, Values(cs'), idx');
    RankLex(Progress(g, hs, idx), Progress(Values(cs'), hs, idx'), idx);
  }

  /** A step that succeeds keeps the search state and raises the rank of the
      progress vector. */
  lemma StepKeepsSearch(board: seq<int>, hs: seq<int>, cs: seq<Cell>, idx: int, cs': seq<Cell>, idx': int)
    requires |cs| == Size && SearchState(board, hs, Values(cs), idx) && idx < |hs|
    requires StepAt(cs, hs, idx) == Ok((cs', idx'))
    ensures SearchState(board, hs, Values(cs'), idx')
    ensures Rank(Progress(Values(cs), hs, idx)) < Rank(Progress(Values(cs'), hs, idx'))
  {
    var g := Values(cs);
    if NextCandidate(g, hs[idx], g[hs[idx]] + 1) <= 9 {
      AdvanceCells(board, hs, cs, idx, cs', idx');
    } else {
      RetreatCells(board, hs, cs, idx, cs', idx');
    }
  }

  /** A step fails only when the board has no completion. */
  lemma StepFails(board: seq<int>, hs: seq<int>, cs: seq<Cell>, idx: int)
    requires |cs| == Size && SearchState(board, hs, Values(cs), idx) && idx < |hs|
    requires StepAt(cs, hs, idx).Err?
    ensures forall s :: !Completion(board, s)
  {
    ExhaustedStep(board, hs, Values(cs));
  }

  /** A board: 81 values in row-major order, 0 for an empty cell. */
  datatype Board = Board(cells: seq<int>)

  /** The cells after a row-major scan has reached position k: every clue before k
      is fixed, every other cell is still a hole. */
  predicate ScannedUpTo(b: seq<int>, cells: seq<Cell>, k: int)
    requires |b| == |cells|
  {
    forall p :: 0 <= p < |b| ==> cells[p] == if p < k && b[p] > 0 then Fixed(b[p]) else Hole
  }

  /** Scanning position p fixes it when it holds a clue and leaves it a hole
      otherwise. */
  lemma ScannedNext(b: seq<int>, cells: seq<Cell>, p: int)
    requires |b| == |cells| && 0 <= p < |b| && ScannedUpTo(b, cells, p)
    ensures ScannedUpTo(b, if b[p] > 0 then cells[p := Fixed(b[p])] else cells, p + 1)
  {
  }

  /** The inner loop of `Cells::new` for row r: each clue of the row is fixed and
      each empty position is appended to the hole list. */
  method ScanRow(b: seq<int>, cells: array<Cell>, hs: array<int>, count: int, r: int) returns (count': int)
    requires WellFormed(b) && cells.Length == Size && hs.Length == Size && 0 <= r < 9
    requires 0 <= count <= 9 * r && hs[..count] == ZerosBelow(b, 9 * r)
    requires ScannedUpTo(b, cells[..], 9 * r)
    modifies cells, hs
    ensures 0 <= count' <= 9 * r + 9 && hs[..count'] == ZerosBelow(b, 9 * r + 9)
    ensures ScannedUpTo(b, cells[..], 9 * r + 9)
  {
    count' := count;
    for c := 0 to 9
      invariant 0 <= count' <= 9 * r + c && hs[..count'] == ZerosBelow(b, 9 * r + c)
      invariant ScannedUpTo(b, cells[..], 9 * r + c)
    {
      var p := 9 * r + c;
      ghost var listed := hs[..count'];
      ghost var before := cells[..];
      ScannedNext(b, before, p);
      if b[p] > 0 {
        cells[p] := Fixed(b[p]);
        assert cells[..] == before[p := Fixed(b[p])];
        assert hs[..count'] == listed;
      } else {
        hs[count'] := p;
        count' := count' + 1;
        assert hs[..count'] == listed + [p];
        assert cells[..] == before;
      }
    }
  }

  /** The outer loop of `Cells::new`: one pass over the board in row-major order
      that fixes every clue and lists every empty position. */
  method Scan(b: seq<int>) returns (cells: array<Cell>, hs: array<int>, count: int)
    requires WellFormed(b)
    ensures fresh(cells) && fresh(hs) && cells.Length == Size && hs.Length == Size
    ensures forall p :: 0 <= p < Size ==> cells[p] == if b[p] > 0 then Fixed(b[p]) else Hole
    ensures 0 <= count <= Size && hs[..count] == Holes(b)
  {
    cells := new Cell[Size](_ => Hole);
    hs := new int[Size](_ => 0);
    count := 0;
    for r := 0 to 9
      invariant 0 <= count <= 9 * r && hs[..count] == ZerosBelow(b, 9 * r)
      invariant ScannedUpTo(b, cells[..], 9 * r)
    {
      count := ScanRow(b, cells, hs, count, r);
    }
    assert ScannedUpTo(b, cells[..], Size);
  }

  /** The working state of one solve: the cells, the hole list and its length. */
  class Cells {
    var inner: array<Cell>
    var holes: array<int>
    var holeCount: int
    /** The board the state was built from. */
    ghost var board: seq<int>

    ghost predicate Valid()
      reads this, inner, holes
    {
      && inner.Length == Size && holes.Length == Size && WellFormed(board)
      && 0 <= holeCount <= Size
      && holes[..holeCount] == Holes(board)
      && (forall p :: 0 <= p < Size && board[p] > 0 ==> inner[p] == Fixed(board[p]))
      && (forall p :: 0 <= p < Size && board[p] == 0 ==> !inner[p].Fixed? && inner[p].InRange())
    }

    /** The values the cells currently show. */
    ghost function Grid(): (g: seq<int>)
      reads this, inner
    {
      Values(inner[..])
    }

    /** Every position holding a nonzero value becomes `Fixed` with that value, every
        other position a `Hole`, and the holes are listed in row-major order. */
    constructor (b: seq<int>)
      requires WellFormed(b)
      ensures Valid() && board == b && fresh(inner) && fresh(holes)
      ensures forall p :: 0 <= p < Size ==> inner[p] == if b[p] > 0 then Fixed(b[p]) else Hole
      ensures holes[..holeCount] == Holes(b) && holeCount == CountZeros(b, |b|)
      ensures Grid() == b
    {
      var cells, hs, count := Scan(b);
      inner := cells;
      holes := hs;
      holeCount := count;
      board := b;
      new;
      assert forall p :: 0 <= p < Size ==> Grid()[p] == b[p];
    }

    /** In a valid state every cell shows a value 0..9. */
    lemma GridInRange()
      requires Valid()
      ensures AllIn(Grid(), 0, 9)
    {
      forall p | 0 <= p < Size ensures 0 <= Grid()[p] <= 9 {
        assert inner[p].InRange();
      }
    }

    /** One step of the search at hole idx: the cursor's cell takes the next digit
        above its current value that no peer shows, and the cursor moves forward;
        when there is none, the cell is emptied and the cursor moves back, or the
        search fails if this was the first hole. */
    method UpdateHole(idx: int) returns (r: Result<int, Unit>)
      requires Valid() && 0 <= idx < holeCount
      modifies inner
      ensures Valid() && unchanged(this) && unchanged(holes)
      ensures AllIn(Values(old(inner[..])), 0, 9) && holes[idx] == holes[..holeCount][idx]
      ensures var step := StepAt(old(inner[..]), holes[..holeCount], idx);
        match r
        case Ok(next) => step == Ok((inner[..], next))
        case Err(_) => step.Err? && inner[..] == old(inner[..])
    {
      var pos := holes[idx];
      assert holes[..holeCount][idx] == pos;
      var cell := inner[pos];
      GridInRange();
      ghost var g := Grid();
      var valid := GetValid(pos);
      var value := cell.AsVal() + 1;
      while value <= 9 && !valid[value]
        invariant g[pos] + 1 <= value <= 10
        invariant NextCandidate(g, pos, value) == NextCandidate(g, pos, g[pos] + 1)
        decreases 10 - value
      {
        value := value + 1;
      }
      if value > 9 {
        if idx == 0 {
          return Err(Unit);
        }
        inner[pos] := Hole;
        r := Ok(idx - 1);
      } else {
        inner[pos] := Guess(value);
        r := Ok(idx + 1);
      }
    }

    /** One round of the search loop: `update_hole` at the cursor, which keeps the
        search state and raises its rank, or fails only when no completion exists. */
    method SearchStep(ghost hs: seq<int>, idx: int, ghost rank: int) returns (next: Result<int, Unit>)
      requires Valid() && holes[..holeCount] == hs && 0 <= idx < holeCount
      requires SearchState(board, hs, Values(inner[..]), idx) && rank == Rank(Progress(Values(inner[..]), hs, idx))
      modifies inner
      ensures Valid() && unchanged(this) && unchanged(holes)
      ensures next.Err? ==> forall s :: !Completion(board, s)
      ensures next.Ok? ==> SearchState(board, hs, Values(inner[..]), next.value)
      ensures next.Ok? ==> rank < Rank(Progress(Values(inner[..]), hs, next.value)) <= Pow11(|hs|)
    {
      ghost var before := inner[..];
      next := UpdateHole(idx);
      if next.Err? {
        StepFails(board, hs, before, idx);
        return;
      }
      StepKeepsSearch(board, hs, before, idx, inner[..], next.value);
      RankBelowBound(board, hs, Values(inner[..]), next.value);
    }

    /** The `while` loop of `Cells::solve`: starting from the board as built, it steps
        through the holes until the cursor passes the last one (success) or the
        first hole runs out of candidates (failure). */
    method Search(ghost hs: seq<int>) returns (r: Result<Unit, Unit>)
      requires Valid() && holes[..holeCount] == hs && SearchState(board, hs, Grid(), 0)
      modifies inner
      ensures Valid() && unchanged(this) && unchanged(holes)
      ensures r.Ok? ==> SearchState(board, hs, Values(inner[..]), |hs|)
      ensures r.Err? ==> forall s :: !Completion(board, s)
      ensures holeCount == 0 ==> r.Ok? && inner[..] == old(inner[..])
    {
      var holeIndex := 0;
      RankBelowBound(board, hs, Grid(), 0);
      ghost var rank := Rank(Progress(Values(inner[..]), hs, holeIndex));
      ghost var bound := Pow11(|hs|);
      while holeIndex < holeCount
        invariant Valid() && unchanged(this) && unchanged(holes)
        invariant holeCount == |hs| && SearchState(board, hs, Values(inner[..]), holeIndex)
        invariant holeCount == 0 ==> inner[..] == old(inner[..])
        invariant rank == Rank(Progress(Values(inner[..]), hs, holeIndex)) <= bound
        decreases bound - rank
      {
        var next := SearchStep(hs, holeIndex, rank);
        if next.Err? {
          return Err(Unit);
        }
        rank := Rank(Progress(Values(inner[..]), hs, next.value));
        holeIndex := next.value;
      }
      assert holeIndex == |hs|;
      r := Ok(Unit);
    }

    /** `Cells::solve`. On success every cell holds a digit, the clues are kept,
        and, when the clues do not conflict, the grid is the first completion in
        hole order; failure means the board has no completion. */
    method Solve() returns (r: Result<Unit, Unit>)
      requires Valid() && Grid() == board
      modifies inner
      ensures Valid() && unchanged(this) && unchanged(holes)
      ensures r.Ok? ==> AllIn(Grid(), 1, 9) && forall p :: 0 <= p < Size && board[p] > 0 ==> Grid()[p] == board[p]
      ensures r.Ok? && CluesConsistent(board) ==> LexFirstCompletion(board, Grid())
      ensures r.Err? ==> forall s :: !Completion(board, s)
      ensures holeCount == 0 ==> r.Ok? && Grid() == board
    {
      ghost var hs := holes[..holeCount];
      InitialState(board);
      r := Search(hs);
      if r.Ok? {
        FinishedState(board, hs, Values(inner[..]));
      }
    }

    /** The board the cells show, read cell by cell in row-major order. */
    method AsBoard() returns (b: Board)
      requires inner.Length == Size
      ensures b.cells == Grid()
    {
      var out := new int[Size](_ => 0);
      for r := 0 to 9
        invariant forall p :: 0 <= p < 9 * r ==> out[p] == inner[p].AsVal()
      {
        for c := 0 to 9
          invariant forall p :: 0 <= p < 9 * r + c ==> out[p] == inner[p].AsVal()
        {
          out[9 * r + c] := inner[9 * r + c].AsVal();
        }
      }
      b := Board(out[..]);
    }

    /** For each value 0..9, whether no peer of pos (pos itself included) shows it:
        slot v is false exactly when v occurs in pos's column, row or box. Only the
        cells' values matter, so only they are required to be in range. */
    method GetValid(pos: int) returns (result: seq<bool>)
      requires inner.Length == Size && AllIn(Grid(), 0, 9) && 0 <= pos < Size
      ensures |result| == 10
      ensures forall v :: 0 <= v <= 9 ==> (result[v] <==> !Used(Grid(), pos, v))
    {
      ghost var g := Grid();
      result := seq(10, _ => true);
      assert result == Flags(Seen(g, pos, 0));
      var rowIdx := pos / 9;
      var colIdx := pos % 9;
      assert 0 <= rowIdx < 9 && 0 <= colIdx < 9;
      var corner := CornerOf(pos);
      ghost var k := 0;
      for x := 0 to 9
        invariant k == 2 * x && result == Flags(Seen(g, pos, k))
      {
        var a := inner[9 * x + colIdx].AsVal();
        assert a == g[9 * x + colIdx];
        SeeColumn(g, pos, x, k, a);
        result := result[a := false];
        k := k + 1;
        var b := inner[9 * rowIdx + x].AsVal();
        assert b == g[9 * rowIdx + x];
        SeeRow(g, pos, x, k, b);
        result := result[b := false];
        k := k + 1;
      }
      for r := 0 to 3
        invariant k == 18 + 3 * r && result == Flags(Seen(g, pos, k))
      {
        for c := 0 to 3
          invariant k == 18 + 3 * r + c && result == Flags(Seen(g, pos, k))
        {
          var a := inner[corner + 9 * r + c].AsVal();
          assert a == g[corner + 9 * r + c];
          SeeBox(g, pos, r, c, k, a);
          result := result[a := false];
          k := k + 1;
        }
      }
      forall v | 0 <= v <= 9 ensures result[v] <==> !Used(g, pos, v) {
        SeenIsUsed(g, pos, v);
      }
    }
  }

  /** A table of ten flags in which exactly the values listed in seen are cleared. */
  function Flags(seen: seq<int>): (flags: seq<bool>)
    ensures |flags| == 10 && forall v :: 0 <= v < 10 ==> (flags[v] <==> v !in seen)
  {
    seq(10, v => v !in seen)
  }

  /** Reading the value a at the next inspected position clears a's flag. */
  lemma SeeNext(g: seq<int>, pos: int, k: int, a: int)
    requires |g| == Size && 0 <= pos < Size && 0 <= k < 27
    requires a == g[Inspected(pos, k)] && 0 <= a < 10
    ensures Flags(Seen(g, pos, k + 1)) == Flags(Seen(g, pos, k))[a := false]
  {
    assert Seen(g, pos, k + 1) == Seen(g, pos, k) + [a];
  }

  /** The column read of round x clears the flag of the value it reads. */
  lemma SeeColumn(g: seq<int>, pos: int, x: int, k: int, a: int)
    requires |g| == Size && AllIn(g, 0, 9) && 0 <= pos < Size && 0 <= x < 9 && k == 2 * x
    requires a == g[9 * x + pos % 9]
    ensures Flags(Seen(g, pos, k + 1)) == Flags(Seen(g, pos, k))[a := false]
  {
    InspectedLine(pos, x);
    SeeNext(g, pos, k, a);
  }

  /** The row read of round x clears the flag of the value it reads. */
  lemma SeeRow(g: seq<int>, pos: int, x: int, k: int, a: int)
    requires |g| == Size && AllIn(g, 0, 9) && 0 <= pos < Size && 0 <= x < 9 && k == 2 * x + 1
    requires a == g[9 * (pos / 9) + x]
    ensures Flags(Seen(g, pos, k + 1)) == Flags(Seen(g, pos, k))[a := false]
  {
    InspectedLine(pos, x);
    SeeNext(g, pos, k, a);
  }

  /** The box read at (r, c) clears the flag of the value it reads. */
  lemma SeeBox(g: seq<int>, pos: int, r: int, c: int, k: int, a: int)
    requires |g| == Size && AllIn(g, 0, 9) && 0 <= pos < Size && 0 <= r < 3 && 0 <= c < 3
    requires k == 18 + 3 * r + c && a == g[CornerOf(pos) + 9 * r + c]
    ensures Flags(Seen(g, pos, k + 1)) == Flags(Seen(g, pos, k))[a := false]
  {
    InspectedBox(pos, r, c);
    SeeNext(g, pos, k, a);
  }

  /** Solve a board: build the working state, run the search and read the cells
      back. Success gives digits everywhere and keeps the clues, and, when the
      clues do not conflict, the first completion in hole order; failure means the
      board has no completion; a board without holes comes back unchanged. */
  method SolveBoard(b: Board) returns (r: Result<Board, Unit>)
    requires WellFormed(b.cells)
    ensures r.Ok? ==> |r.value.cells| == Size && AllIn(r.value.cells, 1, 9)
    ensures r.Ok? ==> forall p :: 0 <= p < Size && b.cells[p] > 0 ==> r.value.cells[p] == b.cells[p]
    ensures r.Ok? && CluesConsistent(b.cells) ==> LexFirstCompletion(b.cells, r.value.cells)
    ensures r.Err? ==> forall s :: !Completion(b.cells, s)
    ensures Holes(b.cells) == [] ==> r == Ok(b)
  {
    var cells := new Cells(b.cells);
    var solved := cells.Solve();
    if solved.Err? {
      return Err(Unit);
    }
    var out := cells.AsBoard();
    return Ok(out);
  }

  /** Cell-wise comparison of two boards: true exactly when they are equal. */
  method Equals(a: Board, b: Board) returns (eq: bool)
    requires |a.cells| == Size && |b.cells| == Size
    ensures eq <==> a == b
  {
    for r := 0 to 9
      invariant forall p :: 0 <= p < 9 * r ==> a.cells[p] == b.cells[p]
    {
      for c := 0 to 9
        invariant forall p :: 0 <= p < 9 * r + c ==> a.cells[p] == b.cells[p]
      {
        if a.cells[9 * r + c] != b.cells[9 * r + c] {
          return false;
        }
      }
    }
    assert a.cells == b.cells;
    return true;
  }

  /** A board of 81 ones: it has no holes, so the solver hands it back as solved,
      yet every row repeats a digit and no completion exists. */
  lemma ClashingFullBoard()
    ensures var b := seq(Size, _ => 1);
      WellFormed(b) && Holes(b) == [] && !CluesConsistent(b) && !Solved(b) && forall s :: !Completion(b, s)
  {
    var b := seq(Size, _ => 1);
    NoZerosBelow(b, Size);
    assert Peer(0, 1) && b[0] == b[1];
    forall s ensures !Completion(b, s) {
      if Completion(b, s) {
        CompletionNeedsConsistentClues(b, s);
      }
    }
  }

  /** The solver as written, run on the board of 81 ones: it answers `Ok` with the
      board unchanged although that board has no completion. */
  method SolveClashing() returns (r: Result<Board, Unit>)
    ensures r == Ok(Board(seq(Size, _ => 1)))
    ensures r.Ok? && |r.value.cells| == Size && forall s :: !Completion(r.value.cells, s)
  {
    ClashingFullBoard();
    r := SolveBoard(Board(seq(Size, _ => 1)));
  }

  /** Solving with a clue check up front: clues that already repeat a
      digit in a row, column or box are reported as unsolvable before the search.
      Success then always gives the first completion, and failure happens exactly
      when the board has no completion. */
  method SolveChecked(b: Board) returns (r: Result<Board, Unit>)
    requires WellFormed(b.cells)
    ensures r.Ok? ==> LexFirstCompletion(b.cells, r.value.cells)
    ensures r.Err? <==> forall s :: !Completion(b.cells, s)
  {
    if !CluesConsistent(b.cells) {
      forall s ensures !Completion(b.cells, s) {
        if Completion(b.cells, s) {
          CompletionNeedsConsistentClues(b.cells, s);
        }
      }
      return Err(Unit);
    }
    r := SolveBoard(b);
  }
}
