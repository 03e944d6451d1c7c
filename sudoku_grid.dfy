/** Geometry of the 9x9 board: positions are row-major indices 0..80
    (`9 * row + col`), grouped into rows, columns and 3x3 boxes. */
module SudokuGrid {

  /** Number of cells of a board (`SIZE` in lib.rs). */
  const Size: int := 81

  function Row(p: int): int { p / 9 }

  function Col(p: int): int { p % 9 }

  /** Index 0..8 of the 3x3 box holding position p, counted row-major over boxes. */
  function Box(p: int): int { (Row(p) / 3) * 3 + Col(p) / 3 }

  /** Top-left position of each box, `get_valid`'s `corners` table. */
  const Corners: seq<int> := [0, 3, 6, 27, 30, 33, 54, 57, 60]

  /** Two positions are peers when they share a row, a column or a box
      (a position is its own peer). */
  predicate Peer(p: int, q: int) {
    Row(p) == Row(q) || Col(p) == Col(q) || Box(p) == Box(q)
  }

  /** The nine positions of column c, top to bottom. */
  function ColPositions(c: int): (ps: seq<int>)
    ensures |ps| == 9
    ensures 0 <= c < 9 ==> forall i :: 0 <= i < 9 ==> 0 <= ps[i] < Size
  {
    seq(9, x => 9 * x + c)
  }

  /** The nine positions of row r, left to right. */
  function RowPositions(r: int): (ps: seq<int>)
    ensures |ps| == 9
    ensures 0 <= r < 9 ==> forall i :: 0 <= i < 9 ==> 0 <= ps[i] < Size
  {
    seq(9, x => 9 * r + x)
  }

  /** The nine positions of the box whose top-left position is corner. */
  function BoxPositions(corner: int): (ps: seq<int>)
    ensures |ps| == 9
    ensures 0 <= corner && Row(corner) <= 6 && Col(corner) <= 6 ==> forall i :: 0 <= i < 9 ==> 0 <= ps[i] < Size
  {
    seq(9, i => corner + 9 * (i / 3) + i % 3)
  }

  /** Every grid value lies in lo..hi. */
  predicate AllIn(g: seq<int>, lo: int, hi: int) {
    forall p :: 0 <= p < |g| ==> lo <= g[p] <= hi
  }

  /** No two distinct peers hold the same value: no row, column or box has a duplicate. */
  predicate NoDuplicates(g: seq<int>)
    requires |g| == Size
  {
    forall p, q :: 0 <= p < Size && 0 <= q < Size && p != q && Peer(p, q) ==> g[p] != g[q]
  }

  /** A finished board: every cell holds a digit and no unit repeats one. */
  predicate Solved(g: seq<int>) {
    |g| == Size && AllIn(g, 1, 9) && NoDuplicates(g)
  }

  /** The corner table gives the top-left position of box b: row 3*(b/3), column 3*(b%3). */
  lemma CornerOfBox(b: int)
    requires 0 <= b < 9
    ensures Row(Corners[b]) == 3 * (b / 3) && Col(Corners[b]) == 3 * (b % 3)
    ensures Corners[b] == 27 * (b / 3) + 3 * (b % 3)
  {
  }

  /** Position q lies in the box with index b exactly when it is one of the nine
      positions listed from that box's corner. */
  lemma {:induction false} InBoxPositions(b: int, q: int)
    requires 0 <= b < 9 && 0 <= q < Size
    ensures Box(q) == b <==> q in BoxPositions(Corners[b])
  {
    CornerOfBox(b);
    var ps := BoxPositions(Corners[b]);
    var rq, cq := Row(q), Col(q);
    assert q == 9 * rq + cq;
    if Box(q) == b {
      var i := 3 * (rq % 3) + cq % 3;
      assert i / 3 == rq % 3 && i % 3 == cq % 3;
      assert rq / 3 == b / 3 && cq / 3 == b % 3;
      assert ps[i] == q;
    }
    if q in ps {
      var i :| 0 <= i < 9 && ps[i] == q;
      assert q == 27 * (b / 3) + 9 * (i / 3) + 3 * (b % 3) + i % 3;
      assert rq == 3 * (b / 3) + i / 3;
      assert cq == 3 * (b % 3) + i % 3;
    }
  }

  /** Position q lies in column c exactly when it is listed by ColPositions(c). */
  lemma InColPositions(c: int, q: int)
    requires 0 <= c < 9 && 0 <= q < Size
    ensures Col(q) == c <==> q in ColPositions(c)
  {
    if Col(q) == c {
      assert ColPositions(c)[Row(q)] == q;
    }
  }

  /** Position q lies in row r exactly when it is listed by RowPositions(r). */
  lemma InRowPositions(r: int, q: int)
    requires 0 <= r < 9 && 0 <= q < Size
    ensures Row(q) == r <==> q in RowPositions(r)
  {
    if Row(q) == r {
      assert RowPositions(r)[Col(q)] == q;
    }
  }

  /** The 27 positions that `get_valid` inspects (the column,
      the row and the box through p) are exactly the peers of p. */
  lemma PeerPositions(p: int, q: int)
    requires 0 <= p < Size && 0 <= q < Size
    ensures Peer(p, q) <==>
      q in ColPositions(Col(p)) || q in RowPositions(Row(p)) || q in BoxPositions(Corners[Box(p)])
  {
    InColPositions(Col(p), q);
    InRowPositions(Row(p), q);
    InBoxPositions(Box(p), q);
  }

  /** The top-left position of the box holding pos, looked up in the corner table. */
  function CornerOf(pos: int): (corner: int)
    requires 0 <= pos < Size
    ensures 0 <= corner <= 60 && Row(corner) <= 6 && Col(corner) <= 6
  {
    assert 0 <= Box(pos) < 9;
    CornerOfBox(Box(pos));
    var rowIdx, colIdx := pos / 9, pos % 9;
    Corners[(rowIdx / 3) * 3 + colIdx / 3]
  }

  /** The k-th of the 27 positions (k < 27) that the candidate check reads for pos:
      column and row positions alternately for k < 18, then the box row by row. */
  function Inspected(pos: int, k: int): (q: int)
    requires 0 <= pos < Size && 0 <= k < 27
    ensures 0 <= q < Size
  {
    if k < 18 then
      if k % 2 == 0 then ColPositions(Col(pos))[k / 2] else RowPositions(Row(pos))[k / 2]
    else
      BoxPositions(CornerOf(pos))[k - 18]
  }

  /** The positions the candidate check reads are exactly the peers of pos. */
  lemma InspectedArePeers(pos: int, q: int)
    requires 0 <= pos < Size && 0 <= q < Size
    ensures Peer(pos, q) <==> exists k :: 0 <= k < 27 && Inspected(pos, k) == q
  {
    PeerPositions(pos, q);
    assert CornerOf(pos) == Corners[Box(pos)];
    var cs, rs, bs := ColPositions(Col(pos)), RowPositions(Row(pos)), BoxPositions(CornerOf(pos));
    if q in cs {
      var i :| 0 <= i < 9 && cs[i] == q;
      assert (2 * i) % 2 == 0 && (2 * i) / 2 == i;
      assert Inspected(pos, 2 * i) == q;
    } else if q in rs {
      var i :| 0 <= i < 9 && rs[i] == q;
      assert (2 * i + 1) % 2 == 1 && (2 * i + 1) / 2 == i;
      assert Inspected(pos, 2 * i + 1) == q;
    } else if q in bs {
      var i :| 0 <= i < 9 && bs[i] == q;
      assert Inspected(pos, 18 + i) == q;
    }
    if exists k :: 0 <= k < 27 && Inspected(pos, k) == q {
      var k :| 0 <= k < 27 && Inspected(pos, k) == q;
      if k < 18 && k % 2 == 0 {
        assert cs[k / 2] == q;
      } else if k < 18 {
        assert rs[k / 2] == q;
      } else {
        assert bs[k - 18] == q;
      }
    }
  }

  /** The x-th column read and the x-th row read of the candidate check. */
  lemma InspectedLine(pos: int, x: int)
    requires 0 <= pos < Size && 0 <= x < 9
    ensures Inspected(pos, 2 * x) == 9 * x + Col(pos)
    ensures Inspected(pos, 2 * x + 1) == 9 * Row(pos) + x
  {
    assert (2 * x) % 2 == 0 && (2 * x) / 2 == x;
    assert (2 * x + 1) % 2 == 1 && (2 * x + 1) / 2 == x;
  }

  /** The box read at row r and column c of the box, counted from its corner. */
  lemma InspectedBox(pos: int, r: int, c: int)
    requires 0 <= pos < Size && 0 <= r < 3 && 0 <= c < 3
    ensures Inspected(pos, 18 + 3 * r + c) == CornerOf(pos) + 9 * r + c
  {
    assert (3 * r + c) / 3 == r && (3 * r + c) % 3 == c;
  }
}
