/** The value-level theory of the backtracking search: which digits a hole may take,
    the hole list, the state the search keeps between steps, the order in which it
    visits assignments, and the lemmas that one step keeps that state. */
module SudokuSearch {
  import opened SudokuGrid

  /** Digit v is taken when some peer of pos (pos itself included) holds it. */
  predicate Used(g: seq<int>, pos: int, v: int)
    requires |g| == Size && 0 <= pos < Size
  {
    exists q :: 0 <= q < Size && Peer(pos, q) && g[q] == v
  }

  /** The smallest digit from `from` up to 9 that no peer of pos holds, or 10 when
      every such digit is taken. */
  function NextCandidate(g: seq<int>, pos: int, from: int): (v: int)
    requires |g| == Size && 0 <= pos < Size && 1 <= from <= 10
    ensures from <= v <= 10
    ensures v <= 9 ==> !Used(g, pos, v)
    ensures forall w :: from <= w < v ==> Used(g, pos, w)
    decreases 10 - from
  {
    if from > 9 then 10
    else if !Used(g, pos, from) then from
    else NextCandidate(g, pos, from + 1)
  }

  /** The positions below p whose board value is 0, in increasing order: the hole
      list after the construction loop has scanned p positions. */
  function ZerosBelow(board: seq<int>, p: int): (hs: seq<int>)
    requires 0 <= p <= |board|
    ensures |hs| <= p
    ensures forall i :: 0 <= i < |hs| ==> 0 <= hs[i] < p && board[hs[i]] == 0
    ensures forall i, j :: 0 <= i < j < |hs| ==> hs[i] < hs[j]
  {
    if p == 0 then []
    else ZerosBelow(board, p - 1) + (if board[p - 1] == 0 then [p - 1] else [])
  }

  /** Every zero position below p is listed. */
  lemma {:induction false} ZerosBelowComplete(board: seq<int>, p: int)
    requires 0 <= p <= |board|
    ensures forall q :: 0 <= q < p && board[q] == 0 ==> q in ZerosBelow(board, p)
  {
    if p > 0 {
      ZerosBelowComplete(board, p - 1);
    }
  }

  /** A board with no zero below p has an empty hole list there. */
  lemma {:induction false} NoZerosBelow(board: seq<int>, p: int)
    requires 0 <= p <= |board| && forall q :: 0 <= q < p ==> board[q] != 0
    ensures ZerosBelow(board, p) == []
  {
    if p > 0 {
      NoZerosBelow(board, p - 1);
    }
  }

  /** The hole list of a board: every position holding 0, in row-major order. */
  function Holes(board: seq<int>): (hs: seq<int>)
    requires |board| == Size
  {
    ZerosBelow(board, |board|)
  }

  /** The number of zeros below p equals the length of the hole list built so far. */
  function CountZeros(board: seq<int>, p: int): (n: nat)
    requires 0 <= p <= |board|
    ensures n == |ZerosBelow(board, p)|
  {
    if p == 0 then 0 else CountZeros(board, p - 1) + (if board[p - 1] == 0 then 1 else 0)
  }

  /** A board the solver accepts: 81 values, each 0 (empty) or a digit. */
  predicate WellFormed(board: seq<int>) {
    |board| == Size && AllIn(board, 0, 9)
  }

  /** A completion of the board: a solved grid that keeps every clue. */
  predicate Completion(board: seq<int>, s: seq<int>)
    requires |board| == Size
  {
    Solved(s) && forall p :: 0 <= p < Size && board[p] > 0 ==> s[p] == board[p]
  }

  /** The clues do not already repeat a digit within a row, column or box. */
  predicate CluesConsistent(board: seq<int>)
    requires |board| == Size
  {
    forall p, q :: 0 <= p < Size && 0 <= q < Size && p != q && Peer(p, q) && board[p] > 0 && board[q] > 0
      ==> board[p] != board[q]
  }

  /** The values a grid holds at the holes, in hole order. */
  function HoleValues(s: seq<int>, hs: seq<int>): (x: seq<int>)
    requires |s| == Size && forall i :: 0 <= i < |hs| ==> 0 <= hs[i] < Size
    ensures |x| == |hs| && forall i :: 0 <= i < |hs| ==> x[i] == s[hs[i]]
  {
    seq(|hs|, i requires 0 <= i < |hs| => s[hs[i]])
  }

  /** Where the search stands: the values at the holes up to and including the cursor
      (the cursor's value is the last digit tried there), and 10 after it, meaning
      that nothing below the cursor's prefix has been ruled out yet. */
  function Progress(g: seq<int>, hs: seq<int>, idx: int): (w: seq<int>)
    requires |g| == Size && forall i :: 0 <= i < |hs| ==> 0 <= hs[i] < Size
    ensures |w| == |hs|
    ensures forall i :: 0 <= i < |hs| ==> w[i] == if i <= idx then g[hs[i]] else 10
  {
    seq(|hs|, i requires 0 <= i < |hs| => if i <= idx then g[hs[i]] else 10)
  }

  /** a is lexicographically below b, first differing at position k. */
  predicate LexLessAt(a: seq<int>, b: seq<int>, k: int) {
    |a| == |b| && 0 <= k < |a| && (forall j :: 0 <= j < k ==> a[j] == b[j]) && a[k] < b[k]
  }

  /** The hole list of board: exactly its zero positions, strictly increasing. */
  predicate HoleList(board: seq<int>, hs: seq<int>) {
    && WellFormed(board)
    && (forall i :: 0 <= i < |hs| ==> 0 <= hs[i] < Size && board[hs[i]] == 0)
    && (forall i, j :: 0 <= i < j < |hs| ==> hs[i] < hs[j])
    && (forall q :: 0 <= q < Size && board[q] == 0 ==> q in hs)
  }

  /** No completion of the board has hole values lexicographically below w:
      the part of the search space before w holds no solution. */
  ghost predicate NoSolutionBelow(board: seq<int>, hs: seq<int>, w: seq<int>)
    requires HoleList(board, hs)
  {
    forall s, k :: Completion(board, s) ==> !LexLessAt(HoleValues(s, hs), w, k)
  }

  /** A placed guess differs from every other peer's value. */
  predicate GuessesConsistent(g: seq<int>, hs: seq<int>)
    requires |g| == Size && forall i :: 0 <= i < |hs| ==> 0 <= hs[i] < Size
  {
    forall i, q {:trigger Peer(hs[i], q)} :: 0 <= i < |hs| && 0 <= q < Size && q != hs[i] && Peer(hs[i], q) && g[hs[i]] != 0
      ==> g[q] != g[hs[i]]
  }

  /** The invariant of the solve loop, with g the current cell values and idx the cursor. */
  ghost predicate SearchState(board: seq<int>, hs: seq<int>, g: seq<int>, idx: int) {
    && HoleList(board, hs)
    && |g| == Size && AllIn(g, 0, 9)
    && 0 <= idx <= |hs|
    && (forall p :: 0 <= p < Size && board[p] > 0 ==> g[p] == board[p])
    && (forall i :: 0 <= i < idx ==> 1 <= g[hs[i]])
    && (forall i :: idx < i < |hs| ==> g[hs[i]] == 0)
    && (idx < |hs| && g[hs[idx]] > 0 ==> idx + 1 < |hs|)
    && GuessesConsistent(g, hs)
    && NoSolutionBelow(board, hs, Progress(g, hs, idx))
  }

  // ---------------------------------------------------------------------------
  // The rank that makes the search terminate.

  function Pow11(e: nat): (r: nat)
    ensures r >= 1
  {
    if e == 0 then 1 else 11 * Pow11(e - 1)
  }

  /** Every entry is a "digit" 0..10 of the progress vector. */
  predicate Digits(w: seq<int>) {
    forall i :: 0 <= i < |w| ==> 0 <= w[i] <= 10
  }

  /** The progress vector read as a base-11 number, first entry most significant. */
  function Rank(w: seq<int>): int
  {
    if w == [] then 0 else 11 * Rank(w[..|w| - 1]) + w[|w| - 1]
  }

  /** Progress vectors of grids with values 0..9 are base-11 digit vectors. */
  lemma ProgressDigits(g: seq<int>, hs: seq<int>, idx: int)
    requires |g| == Size && AllIn(g, 0, 9) && forall i :: 0 <= i < |hs| ==> 0 <= hs[i] < Size
    ensures Digits(Progress(g, hs, idx))
  {
  }

  /** A vector of base-11 digits ranks below 11 to the power of its length. */
  lemma {:induction false} RankBounds(w: seq<int>)
    requires Digits(w)
    ensures 0 <= Rank(w) < Pow11(|w|)
  {
    if w != [] {
      RankBounds(w[..|w| - 1]);
    }
  }

  /** Rank is monotone in the lexicographic order. */
  lemma {:induction false} RankLex(a: seq<int>, b: seq<int>, k: int)
    requires Digits(a) && Digits(b) && LexLessAt(a, b, k)
    ensures Rank(a) < Rank(b)
    decreases |a|
  {
    var n := |a|;
    if k == n - 1 {
      assert a[..n - 1] == b[..n - 1];
    } else {
      assert LexLessAt(a[..n - 1], b[..n - 1], k);
      RankLex(a[..n - 1], b[..n - 1], k);
    }
  }

  // ---------------------------------------------------------------------------
  // One step of the search keeps SearchState.

  /** The hole list of a well-formed board is a HoleList. */
  lemma HolesAreHoleList(board: seq<int>)
    requires WellFormed(board)
    ensures HoleList(board, Holes(board))
  {
    ZerosBelowComplete(board, |board|);
  }

  /** Before the first step: every hole empty, cursor at hole 0, nothing ruled out. */
  lemma InitialState(board: seq<int>)
    requires WellFormed(board)
    ensures SearchState(board, Holes(board), board, 0)
  {
    var hs := Holes(board);
    HolesAreHoleList(board);
    var w := Progress(board, hs, 0);
    forall s, k | Completion(board, s) ensures !LexLessAt(HoleValues(s, hs), w, k) {
      assert 0 < |hs| ==> HoleValues(s, hs)[0] >= 1;
    }
  }

  /** Two holes with different indices are different positions. */
  lemma HolesDistinct(board: seq<int>, hs: seq<int>, i: int, j: int)
    requires HoleList(board, hs) && 0 <= i < |hs| && 0 <= j < |hs| && i != j
    ensures hs[i] != hs[j]
  {
  }

  /** A digit that some peer of the cursor's hole holds, and that lies above the
      cursor's current value, cannot be what a completion agreeing with the holes
      before the cursor puts at that hole. */
  lemma CandidateBlocked(board: seq<int>, hs: seq<int>, g: seq<int>, idx: int, s: seq<int>)
    requires SearchState(board, hs, g, idx) && idx < |hs| && Completion(board, s)
    requires forall j :: 0 <= j < idx ==> s[hs[j]] == g[hs[j]]
    ensures forall v :: g[hs[idx]] < v && Used(g, hs[idx], v) ==> s[hs[idx]] != v
  {
    var pos := hs[idx];
    forall v | g[pos] < v && Used(g, pos, v) ensures s[pos] != v {
      var q :| 0 <= q < Size && Peer(pos, q) && g[q] == v;
      if board[q] == 0 {
        var j :| 0 <= j < |hs| && hs[j] == q;
      }
    }
  }

  /** Writing a digit that no peer holds keeps the guesses consistent. */
  lemma AdvanceConsistent(board: seq<int>, hs: seq<int>, g: seq<int>, idx: int, v: int)
    requires SearchState(board, hs, g, idx) && idx < |hs| && 1 <= v <= 9 && !Used(g, hs[idx], v)
    ensures GuessesConsistent(g[hs[idx] := v], hs)
  {
    var pos := hs[idx];
    var g' := g[pos := v];
    forall i, q | 0 <= i < |hs| && 0 <= q < Size && q != hs[i] && Peer(hs[i], q) && g'[hs[i]] != 0
      ensures g'[q] != g'[hs[i]]
    {
      if hs[i] == pos {
        assert !Used(g, pos, v);
      } else if q == pos {
        assert Peer(pos, hs[i]) && Used(g, pos, g[hs[i]]);
      }
    }
  }

  /** A completion that agrees with the grid on the holes before the cursor puts at
      the cursor's hole a digit no smaller than the next candidate there: every
      smaller digit was tried already or is held by a peer. */
  lemma CursorBound(board: seq<int>, hs: seq<int>, g: seq<int>, idx: int, s: seq<int>)
    requires SearchState(board, hs, g, idx) && idx < |hs|
    ensures Completion(board, s) && (forall j :: 0 <= j < idx ==> s[hs[j]] == g[hs[j]]) ==>
      s[hs[idx]] >= NextCandidate(g, hs[idx], g[hs[idx]] + 1)
  {
    if Completion(board, s) && forall j :: 0 <= j < idx ==> s[hs[j]] == g[hs[j]] {
      AgreeingBound(board, hs, g, idx, s);
    }
  }

  /** CursorBound for one completion known to agree before the cursor. */
  lemma AgreeingBound(board: seq<int>, hs: seq<int>, g: seq<int>, idx: int, s: seq<int>)
    requires SearchState(board, hs, g, idx) && idx < |hs| && Completion(board, s)
    requires forall j :: 0 <= j < idx ==> s[hs[j]] == g[hs[j]]
    ensures s[hs[idx]] >= NextCandidate(g, hs[idx], g[hs[idx]] + 1)
  {
    var pos := hs[idx];
    var w := Progress(g, hs, idx);
    var x := HoleValues(s, hs);
    assert forall j :: 0 <= j < idx ==> x[j] == w[j];
    assert !LexLessAt(HoleValues(s, hs), w, idx) && !LexLessAt(HoleValues(s, hs), w, idx + 1);
    assert idx + 1 < |hs| ==> x[idx + 1] < w[idx + 1];
    assert x[idx] == s[pos] && w[idx] == g[pos];
    assert g[pos] < s[pos];
    assert g[pos] < s[pos] < NextCandidate(g, pos, g[pos] + 1) ==> Used(g, pos, s[pos]);
    CandidateBlocked(board, hs, g, idx, s);
  }

  /** Moving the cursor forward to the next candidate skips no completion. */
  lemma AdvanceComplete(board: seq<int>, hs: seq<int>, g: seq<int>, idx: int)
    requires SearchState(board, hs, g, idx) && idx < |hs|
    requires NextCandidate(g, hs[idx], g[hs[idx]] + 1) <= 9
    requires forall j :: 0 <= j < |hs| && j != idx ==> hs[j] != hs[idx]
    ensures NoSolutionBelow(board, hs, Progress(g[hs[idx] := NextCandidate(g, hs[idx], g[hs[idx]] + 1)], hs, idx + 1))
  {
    var pos := hs[idx];
    var g' := g[pos := NextCandidate(g, pos, g[pos] + 1)];
    var w, w' := Progress(g, hs, idx), Progress(g', hs, idx + 1);
    forall s, k | Completion(board, s) ensures !LexLessAt(HoleValues(s, hs), w', k) {
      var x := HoleValues(s, hs);
      assert idx + 1 < |hs| ==> x[idx + 1] >= 1 && w'[idx + 1] == 0;
      assert forall j :: 0 <= j < idx ==> w'[j] == w[j];
      assert !LexLessAt(x, w, k);
      CursorBound(board, hs, g, idx, s);
    }
  }

  /** A candidate was found: writing it (giving g') and moving the cursor forward
      (to idx') keeps the search state, and the progress vector grows
      lexicographically. */
  lemma AdvanceStep(board: seq<int>, hs: seq<int>, g: seq<int>, idx: int, g': seq<int>, idx': int)
    requires SearchState(board, hs, g, idx) && idx < |hs|
    requires NextCandidate(g, hs[idx], g[hs[idx]] + 1) <= 9
    requires g' == g[hs[idx] := NextCandidate(g, hs[idx], g[hs[idx]] + 1)] && idx' == idx + 1
    ensures SearchState(board, hs, g', idx')
    ensures LexLessAt(Progress(g, hs, idx), Progress(g', hs, idx'), idx)
  {
    var pos := hs[idx];
    var v := NextCandidate(g, pos, g[pos] + 1);
    forall j | 0 <= j < |hs| && j != idx ensures hs[j] != pos {
      HolesDistinct(board, hs, j, idx);
    }
    AdvanceConsistent(board, hs, g, idx, v);
    AdvanceComplete(board, hs, g, idx);
  }

  /** Moving the cursor back from an exhausted hole skips no completion. */
  lemma RetreatComplete(board: seq<int>, hs: seq<int>, g: seq<int>, idx: int)
    requires SearchState(board, hs, g, idx) && 0 < idx < |hs|
    requires NextCandidate(g, hs[idx], g[hs[idx]] + 1) == 10
    requires forall j :: 0 <= j < |hs| && j != idx ==> hs[j] != hs[idx]
    ensures NoSolutionBelow(board, hs, Progress(g[hs[idx] := 0], hs, idx - 1))
  {
    var g' := g[hs[idx] := 0];
    var w, w' := Progress(g, hs, idx), Progress(g', hs, idx - 1);
    forall s, k | Completion(board, s) ensures !LexLessAt(HoleValues(s, hs), w', k) {
      var x := HoleValues(s, hs);
      assert x[idx] <= 9 && w'[idx] == 10;
      assert forall j :: 0 <= j < idx ==> w'[j] == w[j];
      assert !LexLessAt(x, w, k);
      CursorBound(board, hs, g, idx, s);
    }
  }

  /** No candidate was left at a hole past the first: emptying it (giving g') and
      moving the cursor back (to idx') keeps the search state, and the progress
      vector grows lexicographically. */
  lemma RetreatStep(board: seq<int>, hs: seq<int>, g: seq<int>, idx: int, g': seq<int>, idx': int)
    requires SearchState(board, hs, g, idx) && 0 < idx < |hs|
    requires NextCandidate(g, hs[idx], g[hs[idx]] + 1) == 10
    requires g' == g[hs[idx] := 0] && idx' == idx - 1
    ensures SearchState(board, hs, g', idx')
    ensures LexLessAt(Progress(g, hs, idx), Progress(g', hs, idx'), idx)
  {
    var pos := hs[idx];
    forall j | 0 <= j < |hs| && j != idx ensures hs[j] != pos {
      HolesDistinct(board, hs, j, idx);
    }
    RetreatState(board, hs, g, idx);
    ClearRaises(g, hs, idx);
  }

  /** Emptying an exhausted hole past the first and moving the cursor back keeps
      the search state. */
  lemma RetreatState(board: seq<int>, hs: seq<int>, g: seq<int>, idx: int)
    requires SearchState(board, hs, g, idx) && 0 < idx < |hs|
    requires NextCandidate(g, hs[idx], g[hs[idx]] + 1) == 10
    requires forall j :: 0 <= j < |hs| && j != idx ==> hs[j] != hs[idx]
    ensures SearchState(board, hs, g[hs[idx] := 0], idx - 1)
  {
    ClearConsistent(g, hs, hs[idx]);
    ClearShape(board, hs, g, idx);
    RetreatComplete(board, hs, g, idx);
  }

  /** After emptying the cursor's hole, the holes before the new cursor still hold
      digits, those after it are empty, and the clues are untouched. */
  lemma ClearShape(board: seq<int>, hs: seq<int>, g: seq<int>, idx: int)
    requires SearchState(board, hs, g, idx) && 0 < idx < |hs|
    requires forall j :: 0 <= j < |hs| && j != idx ==> hs[j] != hs[idx]
    ensures forall i :: 0 <= i < idx - 1 ==> 1 <= g[hs[idx] := 0][hs[i]]
    ensures forall i :: idx - 1 < i < |hs| ==> g[hs[idx] := 0][hs[i]] == 0
    ensures forall p :: 0 <= p < Size && board[p] > 0 ==> g[hs[idx] := 0][p] == board[p]
  {
  }

  /** Emptying the cursor's hole and moving back raises the progress vector at the
      old cursor, where the vector now reads 10. */
  lemma ClearRaises(g: seq<int>, hs: seq<int>, idx: int)
    requires |g| == Size && AllIn(g, 0, 9) && forall i :: 0 <= i < |hs| ==> 0 <= hs[i] < Size
    requires 0 < idx < |hs| && forall j :: 0 <= j < |hs| && j != idx ==> hs[j] != hs[idx]
    ensures LexLessAt(Progress(g, hs, idx), Progress(g[hs[idx] := 0], hs, idx - 1), idx)
  {
    var w, w' := Progress(g, hs, idx), Progress(g[hs[idx] := 0], hs, idx - 1);
    assert forall j :: 0 <= j < idx ==> w[j] == w'[j];
  }

  /** Emptying a cell keeps the guesses consistent: an empty cell is not a guess,
      and no other cell changes. */
  lemma ClearConsistent(g: seq<int>, hs: seq<int>, pos: int)
    requires |g| == Size && 0 <= pos < Size && forall i :: 0 <= i < |hs| ==> 0 <= hs[i] < Size
    requires GuessesConsistent(g, hs)
    ensures GuessesConsistent(g[pos := 0], hs)
  {
  }

  /** No candidate was left at the first hole: the board has no completion. */
  lemma ExhaustedStep(board: seq<int>, hs: seq<int>, g: seq<int>)
    requires SearchState(board, hs, g, 0) && 0 < |hs|
    requires NextCandidate(g, hs[0], g[hs[0]] + 1) == 10
    ensures forall s :: !Completion(board, s)
  {
    forall s ensures !Completion(board, s) {
      CursorBound(board, hs, g, 0, s);
    }
  }

  /** The cursor passed the last hole: every cell holds a digit. */
  lemma FinishedDigits(board: seq<int>, hs: seq<int>, g: seq<int>)
    requires SearchState(board, hs, g, |hs|)
    ensures AllIn(g, 1, 9)
  {
    forall p | 0 <= p < Size ensures 1 <= g[p] <= 9 {
      if board[p] == 0 {
        var j :| 0 <= j < |hs| && hs[j] == p;
      }
    }
  }

  /** The cursor passed the last hole and the clues do not conflict: no two peers
      share a value. */
  lemma FinishedNoDuplicates(board: seq<int>, hs: seq<int>, g: seq<int>)
    requires SearchState(board, hs, g, |hs|) && CluesConsistent(board)
    ensures NoDuplicates(g)
  {
    forall p, q | 0 <= p < Size && 0 <= q < Size && p != q && Peer(p, q) ensures g[p] != g[q] {
      if board[p] == 0 {
        var j :| 0 <= j < |hs| && hs[j] == p;
        assert Peer(hs[j], q);
      } else if board[q] == 0 {
        var j :| 0 <= j < |hs| && hs[j] == q;
        assert Peer(hs[j], p);
      }
    }
  }

  /** The cursor passed the last hole: every cell holds a digit, the clues are kept,
      and, when the clues do not conflict, the grid reached is the completion that
      comes first in hole order. */
  lemma FinishedState(board: seq<int>, hs: seq<int>, g: seq<int>)
    requires SearchState(board, hs, g, |hs|) && hs == Holes(board)
    ensures AllIn(g, 1, 9)
    ensures forall p :: 0 <= p < Size && board[p] > 0 ==> g[p] == board[p]
    ensures CluesConsistent(board) ==> LexFirstCompletion(board, g)
  {
    FinishedDigits(board, hs, g);
    if CluesConsistent(board) {
      FinishedNoDuplicates(board, hs, g);
    }
    assert Progress(g, hs, |hs|) == HoleValues(g, hs);
  }

  /** A completion exists only if the clues are consistent. */
  lemma CompletionNeedsConsistentClues(board: seq<int>, s: seq<int>)
    requires |board| == Size && Completion(board, s)
    ensures CluesConsistent(board)
  {
  }

  /** Two different sequences of equal length first differ at some position k. */
  lemma {:induction false} FirstDifference(a: seq<int>, b: seq<int>) returns (k: int)
    requires |a| == |b| && a != b
    ensures 0 <= k < |a| && a[k] != b[k] && forall j :: 0 <= j < k ==> a[j] == b[j]
  {
    if a[0] != b[0] {
      k := 0;
    } else {
      assert a[1..] != b[1..] by {
        assert a == [a[0]] + a[1..] && b == [b[0]] + b[1..];
      }
      var k' := FirstDifference(a[1..], b[1..]);
      k := k' + 1;
    }
  }

  /** g is the completion that comes first in hole order: nothing below it. */
  ghost predicate LexFirstCompletion(board: seq<int>, g: seq<int>)
    requires WellFormed(board)
  {
    Completion(board, g) &&
    forall s, k :: Completion(board, s) ==> !LexLessAt(HoleValues(s, Holes(board)), HoleValues(g, Holes(board)), k)
  }

  /** At most one completion comes first, so the solver's answer is determined by the board. */
  lemma LexFirstUnique(board: seq<int>, g1: seq<int>, g2: seq<int>)
    requires WellFormed(board) && LexFirstCompletion(board, g1) && LexFirstCompletion(board, g2)
    ensures g1 == g2
  {
    var hs := Holes(board);
    HolesAreHoleList(board);
    var x1, x2 := HoleValues(g1, hs), HoleValues(g2, hs);
    if x1 != x2 {
      var k := FirstDifference(x1, x2);
      if x1[k] < x2[k] {
        assert LexLessAt(HoleValues(g1, hs), HoleValues(g2, hs), k);
      } else {
        assert LexLessAt(HoleValues(g2, hs), HoleValues(g1, hs), k);
      }
    }
    forall p | 0 <= p < Size ensures g1[p] == g2[p] {
      if board[p] == 0 {
        var j :| 0 <= j < |hs| && hs[j] == p;
        assert x1[j] == x2[j];
      }
    }
  }

  /** The values the candidate check has read for pos after its first k reads. */
  function Seen(g: seq<int>, pos: int, k: int): (vs: seq<int>)
    requires |g| == Size && 0 <= pos < Size && 0 <= k <= 27
    ensures |vs| == k
  {
    if k == 0 then [] else Seen(g, pos, k - 1) + [g[Inspected(pos, k - 1)]]
  }

  /** A value is among the first k reads exactly when one of the first k inspected
      positions holds it. */
  lemma {:induction false} InSeen(g: seq<int>, pos: int, k: int, v: int)
    requires |g| == Size && 0 <= pos < Size && 0 <= k <= 27
    ensures v in Seen(g, pos, k) <==> exists j :: 0 <= j < k && g[Inspected(pos, j)] == v
  {
    if k > 0 {
      InSeen(g, pos, k - 1, v);
      if v in Seen(g, pos, k - 1) {
        var j :| 0 <= j < k - 1 && g[Inspected(pos, j)] == v;
        assert 0 <= j < k;
      }
    }
  }

  /** After all 27 reads, the values seen for pos are exactly the digits taken at pos. */
  lemma SeenIsUsed(g: seq<int>, pos: int, v: int)
    requires |g| == Size && 0 <= pos < Size
    ensures v in Seen(g, pos, 27) <==> Used(g, pos, v)
  {
    InSeen(g, pos, 27, v);
    if Used(g, pos, v) {
      var q :| 0 <= q < Size && Peer(pos, q) && g[q] == v;
      InspectedArePeers(pos, q);
    }
    if v in Seen(g, pos, 27) {
      var j :| 0 <= j < 27 && g[Inspected(pos, j)] == v;
      InspectedArePeers(pos, Inspected(pos, j));
    }
  }
}
