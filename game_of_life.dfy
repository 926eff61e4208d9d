/**
 The simulation engine of Conway's Game of Life (rule B3/S23) on a bounded,
 non-wrapping grid. A board is the set of live cells; cells outside the grid
 are never live, and a neighbour that falls outside the grid is simply never
 on the board.

 A coordinate is a pair whose component `.0` is the source's `X` index and
 whose component `.1` is its `Y` index (the constants `X, Y = 0, 1`); the
 grid dimensions are a pair (width, height) read the same way.
 */
module GameOfLife {

  type Point = (int, int)
  type Dims = (int, int)
  type Board = set<Point>

  /** No element of `s` occurs twice. */
  predicate Distinct<T(==)>(s: seq<T>) {
    forall i, j :: 0 <= i < j < |s| ==> s[i] != s[j]
  }

  /** The set of elements of a sequence (Python's `set(...)` of a list). */
  function Elems(s: seq<Point>): set<Point>
  {
    set x | x in s
  }

  /** `p` lies on the `dims` grid: `0 <= x < width` and `0 <= y < height`. */
  predicate InBounds(p: Point, dims: Dims) {
    0 <= p.0 < dims.0 && 0 <= p.1 < dims.1
  }

  /** Every live cell of `board` lies on the `dims` grid. */
  predicate OnGrid(board: Board, dims: Dims) {
    forall p :: p in board ==> InBounds(p, dims)
  }

  /** `q` is `p` or one of its eight Moore neighbours: at most 1 apart on each axis. */
  predicate Touching(p: Point, q: Point) {
    -1 <= q.0 - p.0 <= 1 && -1 <= q.1 - p.1 <= 1
  }

  /** The length of Python's `range(n)`, which is empty for a negative `n`. */
  function Span(n: int): nat {
    if n <= 0 then 0 else n
  }

  // ---------------------------------------------------------------------
  // Grid enumeration: get_board_points
  // ---------------------------------------------------------------------

  /** Python's `range(n)`: 0, 1, ..., n - 1. */
  function Range(n: int): seq<int>
  {
    if n <= 0 then [] else seq(n, i => i)
  }

  /** `range(n)` holds exactly 0 .. n - 1, each once. */
  lemma RangeFacts(n: int)
    ensures |Range(n)| == Span(n)
    ensures forall k :: k in Range(n) <==> 0 <= k < n
    ensures Distinct(Range(n))
  {
    var r := Range(n);
    forall k | 0 <= k < n ensures k in r {
      assert r[k] == k;
    }
  }

  /** The pairs `(x, y)` for `y` in `ys`, in order. */
  function Row(x: int, ys: seq<int>): seq<Point>
  {
    seq(|ys|, j requires 0 <= j < |ys| => (x, ys[j]))
  }

  /** `itertools.product(xs, ys)`: every pair, the first component varying slowest. */
  function Product(xs: seq<int>, ys: seq<int>): seq<Point>
  {
    if xs == [] then [] else Row(xs[0], ys) + Product(xs[1..], ys)
  }

  /** The product has one pair per choice of first and second component. */
  lemma {:induction false} ProductLength(xs: seq<int>, ys: seq<int>)
    ensures |Product(xs, ys)| == |xs| * |ys|
  {
    if xs != [] {
      ProductLength(xs[1..], ys);
      calc {
        |Product(xs, ys)|;
        |ys| + |Product(xs[1..], ys)|;
        |ys| + (|xs| - 1) * |ys|;
        { assert (|xs| - 1) * |ys| == |xs| * |ys| - |ys|; }
        |xs| * |ys|;
      }
    }
  }

  /** A pair is in the product exactly when each component is in its list. */
  lemma {:induction false} ProductMembers(xs: seq<int>, ys: seq<int>)
    ensures forall p :: p in Product(xs, ys) <==> p.0 in xs && p.1 in ys
  {
    if xs != [] {
      ProductMembers(xs[1..], ys);
      var row := Row(xs[0], ys);
      forall p: Point | p.0 in xs && p.1 in ys ensures p in Product(xs, ys) {
        if p.0 == xs[0] {
          var j :| 0 <= j < |ys| && ys[j] == p.1;
          assert row[j] == p;
        } else {
          var i :| 0 <= i < |xs| && xs[i] == p.0;
          assert xs[1..][i - 1] == p.0;
        }
      }
      forall p: Point | p in Product(xs, ys) ensures p.0 in xs && p.1 in ys {
        if p in row {
          var j :| 0 <= j < |row| && row[j] == p;
        } else {
          assert p in Product(xs[1..], ys);
          var i :| 0 <= i < |xs[1..]| && xs[1..][i] == p.0;
          assert xs[i + 1] == p.0;
        }
      }
    }
  }

  /** The product of two lists without duplicates has no duplicate pair. */
  lemma {:induction false} ProductDistinct(xs: seq<int>, ys: seq<int>)
    requires Distinct(xs) && Distinct(ys)
    ensures Distinct(Product(xs, ys))
  {
    if xs != [] {
      var row, rest := Row(xs[0], ys), Product(xs[1..], ys);
      DistinctTail(xs);
      ProductDistinct(xs[1..], ys);
      ProductMembers(xs[1..], ys);
      var all := row + rest;
      forall i, j | 0 <= i < j < |all| ensures all[i] != all[j] {
        if j < |row| {
          assert all[i] == (xs[0], ys[i]) && all[j] == (xs[0], ys[j]);
        } else if i < |row| {
          assert all[i].0 == xs[0];
          assert all[j] == rest[j - |row|];
          assert all[j] in rest;
        } else {
          assert all[i] == rest[i - |row|] && all[j] == rest[j - |row|];
        }
      }
    }
  }

  /**
   get_board_points: every grid point exactly once, in the order of
   `itertools.product(range(width), range(height))`. A negative dimension
   gives an empty range and hence no points.
   */
  function BoardPoints(dims: Dims): (r: seq<Point>)
    ensures forall p :: p in r <==> InBounds(p, dims)
    ensures |r| == Span(dims.0) * Span(dims.1)
    ensures Distinct(r)
  {
    RangeFacts(dims.0);
    RangeFacts(dims.1);
    ProductMembers(Range(dims.0), Range(dims.1));
    ProductLength(Range(dims.0), Range(dims.1));
    ProductDistinct(Range(dims.0), Range(dims.1));
    Product(Range(dims.0), Range(dims.1))
  }

  /** Dropping the head of a duplicate-free sequence leaves a duplicate-free tail without the head. */
  lemma DistinctTail<T>(s: seq<T>)
    requires Distinct(s) && s != []
    ensures Distinct(s[1..]) && s[0] !in s[1..]
  {
    var t := s[1..];
    forall i, j | 0 <= i < j < |t| ensures t[i] != t[j] {
      assert t[i] == s[i + 1] && t[j] == s[j + 1];
    }
    forall i | 0 <= i < |t| ensures t[i] != s[0] {
      assert t[i] == s[i + 1];
    }
  }

  /** A sequence without duplicates has as many distinct elements as it is long. */
  lemma {:induction false} DistinctElemsCard(s: seq<Point>)
    requires Distinct(s)
    ensures |Elems(s)| == |s|
  {
    if s != [] {
      var t := s[1..];
      DistinctTail(s);
      DistinctElemsCard(t);
      assert Elems(s) == {s[0]} + Elems(t) by {
        assert s == [s[0]] + t;
      }
    }
  }

  // ---------------------------------------------------------------------
  // Initial board: initial_config
  // ---------------------------------------------------------------------

  /**
   The configuration the engine can start from: a sample of `n` points
   needs `0 <= n <= width * height`, counting a negative dimension as an
   empty range, as the grid enumeration does.
   */
  predicate ValidConfig(dims: Dims, n: int) {
    0 <= n <= Span(dims.0) * Span(dims.1)
  }

  /** The sampling precondition is exactly "no more points than the grid has". */
  lemma ValidConfigIsSampleable(dims: Dims, n: int)
    ensures ValidConfig(dims, n) <==> 0 <= n <= |BoardPoints(dims)|
  {
  }

  /**
   The start-up guard of the driver as written: it compares `n` with the
   plain product `width * height`.
   */
  predicate DriverAccepts(dims: Dims, n: int) {
    dims.0 * dims.1 >= n
  }

  /**
   The driver's guard lets through a grid with two negative dimensions: it
   has no points at all, yet the guard accepts one start point, so the
   sample that follows cannot be drawn.
   */
  lemma DriverAcceptsEmptyGrid()
    ensures DriverAccepts((-2, -3), 1)
    ensures |BoardPoints((-2, -3))| == 0
    ensures !ValidConfig((-2, -3), 1)
  {
  }

  /**
   The driver's guard also lets through a negative number of start points,
   which no sample can have, on the default 100 x 30 grid.
   */
  lemma DriverAcceptsNegativeCount()
    ensures DriverAccepts((100, 30), -1)
    ensures !ValidConfig((100, 30), -1)
  {
  }

  /** On non-negative dimensions and counts the driver's guard and ValidConfig agree. */
  lemma DriverAgreesOnNaturalInputs(dims: Dims, n: int)
    requires dims.0 >= 0 && dims.1 >= 0 && n >= 0
    ensures DriverAccepts(dims, n) <==> ValidConfig(dims, n)
  {
  }

  /**
   initial_config: `n` distinct points drawn from the grid. Which points are
   drawn is left open: the choice stands for `random.sample`.
   */
  method InitialConfig(dims: Dims, n: int) returns (board: Board)
    requires ValidConfig(dims, n)
    ensures |board| == n
    ensures OnGrid(board, dims)
  {
    var points := BoardPoints(dims);
    var prefix := points[..n];
    assert Distinct(prefix);
    DistinctElemsCard(prefix);
    assert Elems(prefix) <= Elems(points);
    board :| |board| == n && board <= Elems(points);
  }

  // ---------------------------------------------------------------------
  // Neighbourhood: get_neighbors
  // ---------------------------------------------------------------------

  /** The per-axis shifts that get_neighbors takes the square of. */
  const SHIFT_STEPS: seq<int> := [1, 0, -1]

  /** `itertools.product(SHIFT_STEPS, repeat=2)`: the nine shifts, (0, 0) included. */
  lemma ShiftsMembers()
    ensures forall s :: s in Product(SHIFT_STEPS, SHIFT_STEPS) <==> -1 <= s.0 <= 1 && -1 <= s.1 <= 1
  {
    assert forall d :: d in SHIFT_STEPS <==> -1 <= d <= 1;
    ProductMembers(SHIFT_STEPS, SHIFT_STEPS);
  }

  /** `map(lambda s: (p[X] + s[X], p[Y] + s[Y]), shifts)`, collected into a set. */
  function Shifted(p: Point, shifts: seq<Point>): set<Point> {
    set s | s in shifts :: (p.0 + s.0, p.1 + s.1)
  }

  /** Every shifted point comes from one of the shifts. */
  lemma ShiftedSound(p: Point, shifts: seq<Point>)
    ensures forall q :: q in Shifted(p, shifts) ==> (q.0 - p.0, q.1 - p.1) in shifts
  {
    forall q | q in Shifted(p, shifts) ensures (q.0 - p.0, q.1 - p.1) in shifts {
      var s :| s in shifts && q == (p.0 + s.0, p.1 + s.1);
      assert (q.0 - p.0, q.1 - p.1) == s;
    }
  }

  /** Every shift yields its shifted point. */
  lemma ShiftedComplete(p: Point, shifts: seq<Point>)
    ensures forall q: Point :: (q.0 - p.0, q.1 - p.1) in shifts ==> q in Shifted(p, shifts)
  {
    forall q: Point | (q.0 - p.0, q.1 - p.1) in shifts ensures q in Shifted(p, shifts) {
      var s := (q.0 - p.0, q.1 - p.1);
      assert q == (p.0 + s.0, p.1 + s.1);
    }
  }

  /** Shifting `p` by every offset of the closed unit square reaches exactly the cells touching `p`. */
  lemma ShiftedBySquare(p: Point, shifts: seq<Point>)
    requires forall s :: s in shifts <==> -1 <= s.0 <= 1 && -1 <= s.1 <= 1
    ensures forall q :: q in Shifted(p, shifts) <==> Touching(p, q)
  {
    ShiftedSound(p, shifts);
    ShiftedComplete(p, shifts);
    forall q: Point ensures q in Shifted(p, shifts) <==> Touching(p, q) {
      var s := (q.0 - p.0, q.1 - p.1);
      assert q in Shifted(p, shifts) <==> s in shifts;
    }
  }

  /**
   get_neighbors: the nine shifted copies of `p` with `p` itself removed.
   Nothing is clipped to the grid or wrapped around it.
   */
  function Neighbors(p: Point): (r: set<Point>)
    ensures forall q :: q in r <==> q != p && Touching(p, q)
  {
    ShiftsMembers();
    ShiftedBySquare(p, Product(SHIFT_STEPS, SHIFT_STEPS));
    Shifted(p, Product(SHIFT_STEPS, SHIFT_STEPS)) - {p}
  }

  /** The eight neighbours of `p`, listed in the order of the shifts. */
  function NeighborList(p: Point): seq<Point> {
    var (x, y) := p;
    [(x + 1, y + 1), (x + 1, y), (x + 1, y - 1),
     (x, y + 1), (x, y - 1),
     (x - 1, y + 1), (x - 1, y), (x - 1, y - 1)]
  }

  /** The explicit list holds the cells touching `p`, other than `p`, and nothing else. */
  lemma NeighborListMembers(p: Point)
    ensures forall q :: q in NeighborList(p) <==> q != p && Touching(p, q)
  {
    var l := NeighborList(p);
    var (x, y) := p;
    forall q | q != p && Touching(p, q) ensures q in l {
      var dx, dy := q.0 - x, q.1 - y;
      if dx == 1 && dy == 1 { assert q == l[0]; }
      else if dx == 1 && dy == 0 { assert q == l[1]; }
      else if dx == 1 { assert q == l[2]; }
      else if dx == 0 && dy == 1 { assert q == l[3]; }
      else if dx == 0 { assert q == l[4]; }
      else if dy == 1 { assert q == l[5]; }
      else if dy == 0 { assert q == l[6]; }
      else { assert q == l[7]; }
    }
  }

  /** The explicit list holds each neighbour exactly once. */
  lemma NeighborListIsNeighbors(p: Point)
    ensures Distinct(NeighborList(p))
    ensures Elems(NeighborList(p)) == Neighbors(p)
  {
    NeighborListMembers(p);
  }

  /** The neighbourhood always has exactly eight cells, wherever `p` lies. */
  lemma NeighborsCount(p: Point)
    ensures |Neighbors(p)| == 8
  {
    NeighborListIsNeighbors(p);
    DistinctElemsCard(NeighborList(p));
  }

  // ---------------------------------------------------------------------
  // Counting: num_living_neighbors
  // ---------------------------------------------------------------------

  /** 1 when `q` is live on `board`, 0 otherwise. */
  function Alive(q: Point, board: Board): nat {
    if q in board then 1 else 0
  }

  /** How many entries of `s` are live on `board`, counted one by one. */
  function CountLive(s: seq<Point>, board: Board): (n: nat)
    ensures n <= |s|
  {
    if s == [] then 0 else Alive(s[0], board) + CountLive(s[1..], board)
  }

  /** For a list without duplicates, counting entries is the size of the live part of its set. */
  lemma {:induction false} CountLiveIsCard(s: seq<Point>, board: Board)
    requires Distinct(s)
    ensures CountLive(s, board) == |Elems(s) * board|
  {
    if s != [] {
      var t := s[1..];
      DistinctTail(s);
      CountLiveIsCard(t, board);
      assert Elems(s) == {s[0]} + Elems(t) by {
        assert s == [s[0]] + t;
      }
      var rest := Elems(t) * board;
      assert s[0] !in rest;
      assert CountLive(s, board) == Alive(s[0], board) + CountLive(t, board);
      if s[0] in board {
        assert Elems(s) * board == {s[0]} + rest;
        assert |{s[0]} + rest| == |rest| + 1;
      } else {
        assert Elems(s) * board == rest;
      }
    }
  }

  /** The eight neighbours of `p` that are live, tallied one by one. */
  function NeighborTally(p: Point, board: Board): nat {
    var (x, y) := p;
    Alive((x + 1, y + 1), board) + Alive((x + 1, y), board) + Alive((x + 1, y - 1), board)
    + Alive((x, y + 1), board) + Alive((x, y - 1), board)
    + Alive((x - 1, y + 1), board) + Alive((x - 1, y), board) + Alive((x - 1, y - 1), board)
  }

  /** Counting down the neighbour list gives the tally. */
  lemma CountLiveNeighborList(p: Point, board: Board)
    ensures CountLive(NeighborList(p), board) == NeighborTally(p, board)
  {
    var l := NeighborList(p);
    assert l[1..][1..][1..][1..][1..][1..][1..][1..] == [];
    assert CountLive(l[7..], board) == Alive(l[7], board);
    assert CountLive(l[6..], board) == Alive(l[6], board) + CountLive(l[7..], board);
    assert CountLive(l[5..], board) == Alive(l[5], board) + CountLive(l[6..], board);
    assert CountLive(l[4..], board) == Alive(l[4], board) + CountLive(l[5..], board);
    assert CountLive(l[3..], board) == Alive(l[3], board) + CountLive(l[4..], board);
    assert CountLive(l[2..], board) == Alive(l[2], board) + CountLive(l[3..], board);
    assert CountLive(l[1..], board) == Alive(l[1], board) + CountLive(l[2..], board);
  }

  /**
   num_living_neighbors: the size of the intersection of the neighbourhood
   with the board. It equals the one-by-one tally over the eight neighbours.
   */
  function LivingNeighbors(p: Point, board: Board): (n: nat)
    ensures n == NeighborTally(p, board)
    ensures n <= 8
  {
    NeighborListIsNeighbors(p);
    CountLiveNeighborList(p, board);
    CountLiveIsCard(NeighborList(p), board);
    |Neighbors(p) * board|
  }

  /** Only the cells touching `p` matter to its live-neighbour count. */
  lemma LivingNeighborsIsLocal(p: Point, b1: Board, b2: Board)
    requires forall q :: Touching(p, q) ==> (q in b1 <==> q in b2)
    ensures LivingNeighbors(p, b1) == LivingNeighbors(p, b2)
  {
    assert Neighbors(p) * b1 == Neighbors(p) * b2;
  }

  // ---------------------------------------------------------------------
  // Transition rule: rules
  // ---------------------------------------------------------------------

  /**
   rules: whether `p` is live in the next generation. A live cell survives
   with 2 or 3 live neighbours; a dead cell is born with exactly 3.
   */
  function Rules(p: Point, board: Board): (alive: bool)
    ensures p in board ==> (alive <==> NeighborTally(p, board) in {2, 3})
    ensures p !in board ==> (alive <==> NeighborTally(p, board) == 3)
  {
    if p in board then LivingNeighbors(p, board) in {2, 3}
    else LivingNeighbors(p, board) == 3
  }

  /** A live cell with fewer than two or more than three live neighbours dies. */
  lemma LiveCellDies(p: Point, board: Board)
    requires p in board
    requires LivingNeighbors(p, board) < 2 || LivingNeighbors(p, board) > 3
    ensures !Rules(p, board)
  {
  }

  /** A dead cell stays dead unless it has exactly three live neighbours. */
  lemma DeadCellStaysDead(p: Point, board: Board)
    requires p !in board && LivingNeighbors(p, board) != 3
    ensures !Rules(p, board)
  {
  }

  /** The rule looks only at `p` and the eight cells around it. */
  lemma RulesIsLocal(p: Point, b1: Board, b2: Board)
    requires forall q :: Touching(p, q) ==> (q in b1 <==> q in b2)
    ensures Rules(p, b1) == Rules(p, b2)
  {
    assert Touching(p, p);
    LivingNeighborsIsLocal(p, b1, b2);
  }

  // ---------------------------------------------------------------------
  // Generation step: step
  // ---------------------------------------------------------------------

  /** `filter(lambda p: rules(p, board), points)`, order kept. */
  function Survivors(points: seq<Point>, board: Board): seq<Point>
  {
    if points == [] then []
    else (if Rules(points[0], board) then [points[0]] else []) + Survivors(points[1..], board)
  }

  /** The filter keeps exactly the points of the list that the rule keeps alive. */
  lemma {:induction false} SurvivorsMembers(points: seq<Point>, board: Board)
    ensures forall q :: q in Survivors(points, board) <==> q in points && Rules(q, board)
  {
    if points != [] {
      SurvivorsMembers(points[1..], board);
      assert points == [points[0]] + points[1..];
    }
  }

  /**
   step: the next generation, re-evaluating the rule on every grid point.
   It holds exactly the grid points the rule keeps or brings to life, and so
   never a point off the grid.
   */
  function Step(board: Board, dims: Dims): (next: Board)
    ensures forall q :: q in next <==> InBounds(q, dims) && Rules(q, board)
    ensures OnGrid(next, dims)
  {
    SurvivorsMembers(BoardPoints(dims), board);
    Elems(Survivors(BoardPoints(dims), board))
  }

  /** A subset of a finite set is no larger than it. */
  lemma SubsetCard<T>(a: set<T>, b: set<T>)
    requires a <= b
    ensures |a| <= |b|
  {
    assert b == a + (b - a);
    assert a * (b - a) == {};
  }

  /** The next generation never has more live cells than the grid has points. */
  lemma StepSize(board: Board, dims: Dims)
    ensures |Step(board, dims)| <= Span(dims.0) * Span(dims.1)
  {
    var grid := BoardPoints(dims);
    DistinctElemsCard(grid);
    assert Step(board, dims) <= Elems(grid);
    SubsetCard(Step(board, dims), Elems(grid));
  }
}
