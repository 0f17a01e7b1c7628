/**
 * util/draw_Sudoku.py: the board of a SudokuBoard, the puzzle generator that
 * shuffles a base pattern, the blanking of cells and the click-to-cell arithmetic.
 * The results of `random.sample` are inputs: arbitrary permutations and an
 * arbitrary choice of distinct cells.
 */
module Sudoku {
  import opened Wrappers

  const Base := 3
  const Side := Base * Base
  const Squares := Side * Side
  /** `squares * 3 // 4`: the number of cells blanked. */
  const Empties := Squares * 3 / 4

  lemma EmptiesIsSixty()
    ensures Empties == 60
  {
  }

  predicate Distinct(s: seq<int>)
  {
    forall k, l :: 0 <= k < l < |s| ==> s[k] != s[l]
  }

  /** s is a permutation of lo .. lo + n - 1, as `sample(range(lo, lo + n), n)` returns. */
  predicate IsPerm(s: seq<int>, lo: int, n: nat)
  {
    |s| == n && (forall k :: 0 <= k < n ==> lo <= s[k] < lo + n) && Distinct(s)
  }

  /** Holds each of 1..9 exactly once. */
  predicate AllOnce(s: seq<int>)
  {
    IsPerm(s, 1, 9) && forall v :: 1 <= v <= 9 ==> v in s
  }

  /** `pattern(r, c)` of the baseline solution. */
  function Pattern(r: int, c: int): (v: int)
    ensures 0 <= v < Side
  {
    (Base * (r % Base) + r / Base + c) % Side
  }

  /**
   * `[g*base + r for g in shuffle(rBase) for r in shuffle(rBase)]`: the inner
   * shuffle is evaluated again for every band, so each band g = bands[a] has its own
   * order inner[a].
   */
  function Order(bands: seq<int>, inner: seq<seq<int>>): (o: seq<int>)
    requires IsPerm(bands, 0, 3) && |inner| == 3
    requires forall a :: 0 <= a < 3 ==> IsPerm(inner[a], 0, 3)
    ensures |o| == 9
  {
    seq(9, k requires 0 <= k < 9 =>
      assert IsPerm(inner[k / 3], 0, 3);
      Base * bands[k / 3] + inner[k / 3][k % 3])
  }

  /** `[[nums[pattern(r,c)] for c in cols] for r in rows]`: line i is row rows[i]. */
  function Solved(rows: seq<int>, cols: seq<int>, nums: seq<int>): (grid: seq<seq<int>>)
    requires |rows| == 9 && |cols| == 9 && |nums| == 9
    ensures |grid| == 9 && forall i :: 0 <= i < 9 ==> |grid[i]| == 9
  {
    seq(9, i requires 0 <= i < 9 =>
      seq(9, j requires 0 <= j < 9 => nums[Pattern(rows[i], cols[j])]))
  }

  predicate IsGrid(grid: seq<seq<int>>)
  {
    |grid| == 9 && forall i :: 0 <= i < 9 ==> |grid[i]| == 9
  }

  function Column(grid: seq<seq<int>>, j: int): seq<int>
    requires IsGrid(grid) && 0 <= j < 9
  {
    seq(9, i requires 0 <= i < 9 => grid[i][j])
  }

  /** Box b: rows 3*(b/3) .. +2, columns 3*(b%3) .. +2, read row by row. */
  function Box(grid: seq<seq<int>>, b: int): seq<int>
    requires IsGrid(grid) && 0 <= b < 9
  {
    seq(9, k requires 0 <= k < 9 => grid[3 * (b / 3) + k / 3][3 * (b % 3) + k % 3])
  }

  /** The shuffled orders keep bands together: position 3a + b lies in band bands[a]. */
  lemma OrderIsPerm(bands: seq<int>, inner: seq<seq<int>>)
    requires IsPerm(bands, 0, 3) && |inner| == 3
    requires forall a :: 0 <= a < 3 ==> IsPerm(inner[a], 0, 3)
    ensures IsPerm(Order(bands, inner), 0, 9)
    ensures forall a, b :: 0 <= a < 3 && 0 <= b < 3 ==>
      Order(bands, inner)[3 * a + b] / 3 == bands[a] && Order(bands, inner)[3 * a + b] % 3 == inner[a][b]
  {
    var o := Order(bands, inner);
    forall a, b | 0 <= a < 3 && 0 <= b < 3
      ensures o[3 * a + b] / 3 == bands[a] && o[3 * a + b] % 3 == inner[a][b]
    {
      OrderEntry(bands, inner, a, b);
    }
    forall k | 0 <= k < 9 ensures 0 <= o[k] < 9 {
      OrderRange(bands, inner, k);
    }
    forall k, l | 0 <= k < l < 9 ensures o[k] != o[l] {
      OrderDistinct(bands, inner, k, l);
    }
  }

  lemma OrderRange(bands: seq<int>, inner: seq<seq<int>>, k: int)
    requires IsPerm(bands, 0, 3) && |inner| == 3
    requires forall a :: 0 <= a < 3 ==> IsPerm(inner[a], 0, 3)
    requires 0 <= k < 9
    ensures 0 <= Order(bands, inner)[k] < 9
  {
    var a, b := k / 3, k % 3;
    assert k == 3 * a + b;
    OrderEntry(bands, inner, a, b);
  }

  lemma OrderDistinct(bands: seq<int>, inner: seq<seq<int>>, k: int, l: int)
    requires IsPerm(bands, 0, 3) && |inner| == 3
    requires forall a :: 0 <= a < 3 ==> IsPerm(inner[a], 0, 3)
    requires 0 <= k < l < 9
    ensures Order(bands, inner)[k] != Order(bands, inner)[l]
  {
    var a, b, a', b' := k / 3, k % 3, l / 3, l % 3;
    assert k == 3 * a + b && l == 3 * a' + b';
    OrderEntry(bands, inner, a, b);
    OrderEntry(bands, inner, a', b');
    if a == a' {
      assert inner[a][b] != inner[a][b'];
    } else {
      assert bands[a] != bands[a'];
    }
  }

  /** Position 3a + b of the order is band bands[a], row inner[a][b] within it. */
  lemma OrderEntry(bands: seq<int>, inner: seq<seq<int>>, a: int, b: int)
    requires IsPerm(bands, 0, 3) && |inner| == 3
    requires forall a :: 0 <= a < 3 ==> IsPerm(inner[a], 0, 3)
    requires 0 <= a < 3 && 0 <= b < 3
    ensures var v := Order(bands, inner)[3 * a + b]; v / 3 == bands[a] && v % 3 == inner[a][b]
  {
    assert (3 * a + b) / 3 == a && (3 * a + b) % 3 == b;
    assert 0 <= inner[a][b] < 3;
  }

  lemma OrderAt(bands: seq<int>, inner: seq<seq<int>>, a: int, b: int)
    requires IsPerm(bands, 0, 3) && |inner| == 3
    requires forall a :: 0 <= a < 3 ==> IsPerm(inner[a], 0, 3)
    requires 0 <= a < 3 && 0 <= b < 3
    ensures Order(bands, inner)[3 * a + b] == 3 * bands[a] + inner[a][b]
  {
    assert (3 * a + b) / 3 == a && (3 * a + b) % 3 == b;
  }

  lemma {:induction false} DistinctCard(s: seq<int>)
    requires Distinct(s)
    ensures |set x | x in s| == |s|
  {
    if s != [] {
      var init := s[..|s| - 1];
      DistinctCard(init);
      assert (set x | x in s) == (set x | x in init) + {s[|s| - 1]};
      assert s[|s| - 1] !in init;
    }
  }

  /** The set {lo, .., lo + n - 1}, of n elements. */
  function RangeSet(lo: int, n: nat): (r: set<int>)
    ensures |r| == n
    ensures forall v :: v in r <==> lo <= v < lo + n
  {
    if n == 0 then {} else RangeSet(lo, n - 1) + {lo + n - 1}
  }

  /** n distinct values out of n possible ones take every value. */
  lemma Pigeonhole(s: seq<int>, lo: int, n: nat)
    requires IsPerm(s, lo, n)
    ensures forall v :: lo <= v < lo + n ==> v in s
  {
    var have := set x | x in s;
    var all := RangeSet(lo, n);
    DistinctCard(s);
    assert have <= all;
    if have != all {
      var v :| v in all && v !in have;
      SubsetCard(have, all - {v});
      assert false;
    }
    forall v | lo <= v < lo + n ensures v in s {
      assert v in all;
    }
  }

  lemma SubsetCard(a: set<int>, b: set<int>)
    requires a <= b
    ensures |a| <= |b|
  {
    assert b == a + (b - a);
    assert a * (b - a) == {};
  }

  /** Nine distinct picks from a permutation of 1..9 hold each of 1..9 once. */
  lemma PickAllOnce(s: seq<int>, nums: seq<int>, idx: seq<int>)
    requires IsPerm(nums, 1, 9) && IsPerm(idx, 0, 9)
    requires |s| == 9 && forall k :: 0 <= k < 9 ==> s[k] == nums[idx[k]]
    ensures AllOnce(s)
  {
    forall k, l | 0 <= k < l < 9 ensures s[k] != s[l] {
      assert idx[k] != idx[l];
    }
    Pigeonhole(s, 1, 9);
  }

  /** For a fixed row, distinct columns in 0..8 give distinct pattern values. */
  lemma PatternRow(r: int, c1: int, c2: int)
    requires 0 <= c1 < 9 && 0 <= c2 < 9 && c1 != c2
    ensures Pattern(r, c1) != Pattern(r, c2)
  {
    var k := Base * (r % Base) + r / Base;
    assert (k + c1) % 9 != (k + c2) % 9 by {
      if (k + c1) % 9 == (k + c2) % 9 {
        ModDiff(k + c1, k + c2);
      }
    }
  }

  /** For a fixed column, distinct rows in 0..8 give distinct pattern values. */
  lemma PatternColumn(r1: int, r2: int, c: int)
    requires 0 <= r1 < 9 && 0 <= r2 < 9 && r1 != r2
    ensures Pattern(r1, c) != Pattern(r2, c)
  {
    var k1 := 3 * (r1 % 3) + r1 / 3;
    var k2 := 3 * (r2 % 3) + r2 / 3;
    assert k1 != k2;
    if (k1 + c) % 9 == (k2 + c) % 9 {
      ModDiff(k1 + c, k2 + c);
    }
  }

  /**
   * Inside a box, rows share band and columns share stack: the pattern values differ
   * once the in-band or in-stack offsets differ.
   */
  lemma PatternBox(g: int, rb1: int, rb2: int, h: int, cs1: int, cs2: int)
    requires 0 <= g < 3 && 0 <= h < 3
    requires 0 <= rb1 < 3 && 0 <= rb2 < 3 && 0 <= cs1 < 3 && 0 <= cs2 < 3
    requires rb1 != rb2 || cs1 != cs2
    ensures Pattern(3 * g + rb1, 3 * h + cs1) != Pattern(3 * g + rb2, 3 * h + cs2)
  {
    assert (3 * g + rb1) % 3 == rb1 && (3 * g + rb1) / 3 == g;
    assert (3 * g + rb2) % 3 == rb2 && (3 * g + rb2) / 3 == g;
    var m1 := 3 * rb1 + g + 3 * h + cs1;
    var m2 := 3 * rb2 + g + 3 * h + cs2;
    assert m1 != m2;
    if m1 % 9 == m2 % 9 {
      ModDiff(m1, m2);
    }
  }

  /** Two values less than 9 apart are equal modulo 9 only if equal. */
  lemma ModDiff(a: int, b: int)
    requires -9 < a - b < 9 && a % 9 == b % 9
    ensures a == b
  {
    assert a == 9 * (a / 9) + a % 9;
    assert b == 9 * (b / 9) + b % 9;
    assert 9 * (a / 9 - b / 9) == a - b;
  }

  predicate Orders(g: seq<int>, rs: seq<seq<int>>, h: seq<int>, cs: seq<seq<int>>, nums: seq<int>)
  {
    IsPerm(g, 0, 3) && |rs| == 3 && (forall a :: 0 <= a < 3 ==> IsPerm(rs[a], 0, 3)) &&
    IsPerm(h, 0, 3) && |cs| == 3 && (forall a :: 0 <= a < 3 ==> IsPerm(cs[a], 0, 3)) &&
    IsPerm(nums, 1, 9)
  }

  /** The solution generateNew builds from its shuffled orders and numbering. */
  function Solution(g: seq<int>, rs: seq<seq<int>>, h: seq<int>, cs: seq<seq<int>>, nums: seq<int>): (grid: seq<seq<int>>)
    requires Orders(g, rs, h, cs, nums)
    ensures IsGrid(grid)
  {
    Solved(Order(g, rs), Order(h, cs), nums)
  }

  /**
   * generateNew's solution: with band- and stack-preserving row and column orders and
   * any numbering of 1..9, every row, column and 3x3 box holds each of 1..9 once.
   */
  lemma SolutionIsSudoku(g: seq<int>, rs: seq<seq<int>>, h: seq<int>, cs: seq<seq<int>>, nums: seq<int>)
    requires Orders(g, rs, h, cs, nums)
    ensures var grid := Solution(g, rs, h, cs, nums);
      (forall i :: 0 <= i < 9 ==> AllOnce(grid[i])) &&
      (forall j :: 0 <= j < 9 ==> AllOnce(Column(grid, j))) &&
      (forall b :: 0 <= b < 9 ==> AllOnce(Box(grid, b)))
  {
    RowsAllOnce(g, rs, h, cs, nums);
    ColumnsAllOnce(g, rs, h, cs, nums);
    BoxesAllOnce(g, rs, h, cs, nums);
  }

  lemma RowsAllOnce(g: seq<int>, rs: seq<seq<int>>, h: seq<int>, cs: seq<seq<int>>, nums: seq<int>)
    requires Orders(g, rs, h, cs, nums)
    ensures forall i :: 0 <= i < 9 ==> AllOnce(Solution(g, rs, h, cs, nums)[i])
  {
    var rows, cols := Order(g, rs), Order(h, cs);
    var grid := Solution(g, rs, h, cs, nums);
    OrderIsPerm(h, cs);
    forall i | 0 <= i < 9 ensures AllOnce(grid[i]) {
      var idx := seq(9, j requires 0 <= j < 9 => Pattern(rows[i], cols[j]));
      forall j1, j2 | 0 <= j1 < j2 < 9 ensures idx[j1] != idx[j2] {
        PatternRow(rows[i], cols[j1], cols[j2]);
      }
      PickAllOnce(grid[i], nums, idx);
    }
  }

  lemma ColumnsAllOnce(g: seq<int>, rs: seq<seq<int>>, h: seq<int>, cs: seq<seq<int>>, nums: seq<int>)
    requires Orders(g, rs, h, cs, nums)
    ensures forall j :: 0 <= j < 9 ==> AllOnce(Column(Solution(g, rs, h, cs, nums), j))
  {
    var rows, cols := Order(g, rs), Order(h, cs);
    var grid := Solution(g, rs, h, cs, nums);
    OrderIsPerm(g, rs);
    forall j | 0 <= j < 9 ensures AllOnce(Column(grid, j)) {
      var idx := seq(9, i requires 0 <= i < 9 => Pattern(rows[i], cols[j]));
      forall i1, i2 | 0 <= i1 < i2 < 9 ensures idx[i1] != idx[i2] {
        PatternColumn(rows[i1], rows[i2], cols[j]);
      }
      PickAllOnce(Column(grid, j), nums, idx);
    }
  }

  lemma BoxesAllOnce(g: seq<int>, rs: seq<seq<int>>, h: seq<int>, cs: seq<seq<int>>, nums: seq<int>)
    requires Orders(g, rs, h, cs, nums)
    ensures forall b :: 0 <= b < 9 ==> AllOnce(Box(Solution(g, rs, h, cs, nums), b))
  {
    var grid := Solution(g, rs, h, cs, nums);
    forall b | 0 <= b < 9 ensures AllOnce(Box(grid, b)) {
      BoxAllOnce(g, rs, h, cs, nums, b);
    }
  }

  lemma BoxAllOnce(g: seq<int>, rs: seq<seq<int>>, h: seq<int>, cs: seq<seq<int>>, nums: seq<int>, b: int)
    requires Orders(g, rs, h, cs, nums) && 0 <= b < 9
    ensures AllOnce(Box(Solution(g, rs, h, cs, nums), b))
  {
    var ba, bb := b / 3, b % 3;
    var rows, cols := Order(g, rs), Order(h, cs);
    var box := Box(Solution(g, rs, h, cs, nums), b);
    var idx := seq(9, k requires 0 <= k < 9 => BoxPattern(rows, cols, ba, bb, k / 3, k % 3));
    forall k1, k2 | 0 <= k1 < k2 < 9 ensures idx[k1] != idx[k2] {
      assert k1 / 3 != k2 / 3 || k1 % 3 != k2 % 3;
      BoxCellsDiffer(g, rs, h, cs, ba, bb, k1 / 3, k1 % 3, k2 / 3, k2 % 3);
    }
    PickAllOnce(box, nums, idx);
  }

  /** The pattern index of the cell in row q, column m of box (ba, bb). */
  function BoxPattern(rows: seq<int>, cols: seq<int>, ba: int, bb: int, q: int, m: int): int
    requires |rows| == 9 && |cols| == 9 && 0 <= ba < 3 && 0 <= bb < 3 && 0 <= q < 3 && 0 <= m < 3
  {
    Pattern(rows[3 * ba + q], cols[3 * bb + m])
  }

  lemma BoxCellsDiffer(g: seq<int>, rs: seq<seq<int>>, h: seq<int>, cs: seq<seq<int>>,
                       ba: int, bb: int, q1: int, m1: int, q2: int, m2: int)
    requires IsPerm(g, 0, 3) && |rs| == 3 && forall a :: 0 <= a < 3 ==> IsPerm(rs[a], 0, 3)
    requires IsPerm(h, 0, 3) && |cs| == 3 && forall a :: 0 <= a < 3 ==> IsPerm(cs[a], 0, 3)
    requires 0 <= ba < 3 && 0 <= bb < 3
    requires 0 <= q1 < 3 && 0 <= m1 < 3 && 0 <= q2 < 3 && 0 <= m2 < 3 && (q1 != q2 || m1 != m2)
    ensures BoxPattern(Order(g, rs), Order(h, cs), ba, bb, q1, m1) != BoxPattern(Order(g, rs), Order(h, cs), ba, bb, q2, m2)
  {
    OrderAt(g, rs, ba, q1);
    OrderAt(g, rs, ba, q2);
    OrderAt(h, cs, bb, m1);
    OrderAt(h, cs, bb, m2);
    assert IsPerm(rs[ba], 0, 3) && IsPerm(cs[bb], 0, 3);
    PatternBox(g[ba], rs[ba][q1], rs[ba][q2], h[bb], cs[bb][m1], cs[bb][m2]);
  }

  /** The grid after `board[p//side][p%side] = 0` for every p in blanks. */
  function Blanked(full: seq<seq<int>>, blanks: seq<int>): (grid: seq<seq<int>>)
    requires IsGrid(full)
    ensures IsGrid(grid)
  {
    seq(9, r requires 0 <= r < 9 =>
      seq(9, c requires 0 <= c < 9 => if 9 * r + c in blanks then 0 else full[r][c]))
  }

  /**
   * Exactly |blanks| (= Empties = 60) cells of the puzzle are 0 when the solution has
   * no 0 and blanks are distinct cells: the zero cells are precisely the blanks.
   */
  lemma BlankCount(full: seq<seq<int>>, blanks: seq<int>)
    requires IsGrid(full) && forall r, c :: 0 <= r < 9 && 0 <= c < 9 ==> full[r][c] != 0
    requires Distinct(blanks) && forall k :: 0 <= k < |blanks| ==> 0 <= blanks[k] < Squares
    ensures var grid := Blanked(full, blanks);
      (set p | 0 <= p < Squares && grid[p / 9][p % 9] == 0) == (set p | p in blanks)
    ensures |set p | 0 <= p < Squares && Blanked(full, blanks)[p / 9][p % 9] == 0| == |blanks|
  {
    var grid := Blanked(full, blanks);
    var zeros := set p | 0 <= p < Squares && grid[p / 9][p % 9] == 0;
    forall p | 0 <= p < Squares ensures p in zeros <==> p in blanks {
      BlankedAt(full, blanks, p);
    }
    forall p | p in blanks ensures p in zeros {
      var k :| 0 <= k < |blanks| && blanks[k] == p;
    }
    assert zeros == (set p | p in blanks);
    DistinctCard(blanks);
  }

  lemma BlankedAt(full: seq<seq<int>>, blanks: seq<int>, p: int)
    requires IsGrid(full) && forall r, c :: 0 <= r < 9 && 0 <= c < 9 ==> full[r][c] != 0
    requires 0 <= p < Squares
    ensures Blanked(full, blanks)[p / 9][p % 9] == 0 <==> p in blanks
  {
    assert 9 * (p / 9) + p % 9 == p;
  }

  lemma BlankedNone(full: seq<seq<int>>)
    requires IsGrid(full)
    ensures Blanked(full, []) == full
  {
    forall r | 0 <= r < 9 ensures Blanked(full, [])[r] == full[r] {
    }
  }

  /** One step of the blanking loop: zeroing cell p of the grid blanked by `done`. */
  lemma BlankedStep(full: seq<seq<int>>, done: seq<int>, p: int)
    requires IsGrid(full) && 0 <= p < Squares
    ensures var grid := Blanked(full, done);
      Blanked(full, done + [p]) == grid[p / 9 := grid[p / 9][p % 9 := 0]]
  {
    var grid := Blanked(full, done);
    var next := grid[p / 9 := grid[p / 9][p % 9 := 0]];
    var after := Blanked(full, done + [p]);
    forall r | 0 <= r < 9 ensures after[r] == next[r] {
      forall c | 0 <= c < 9 ensures after[r][c] == next[r][c] {
        assert 9 * r + c == p <==> r == p / 9 && c == p % 9;
        assert 9 * r + c in done + [p] <==> 9 * r + c in done || 9 * r + c == p;
      }
    }
  }

  type Cell = (int, int)
  type Rect = (int, int, int, int)

  /** A cell (x, y) of the 9x9 board: column x, row y. */
  predicate OnBoard(c: Cell)
  {
    0 <= c.0 < 9 && 0 <= c.1 < 9
  }

  function Cells(): (r: set<Cell>)
    ensures forall c :: c in r <==> OnBoard(c)
  {
    set x, y | 0 <= x < 9 && 0 <= y < 9 :: (x, y)
  }

  /** `random.sample(range(squares), empties)`: Empties distinct cell numbers. */
  predicate IsBlanks(blanks: seq<int>)
  {
    |blanks| == Empties && Distinct(blanks) && forall k :: 0 <= k < |blanks| ==> 0 <= blanks[k] < Squares
  }

  /**
   * The board cell a click lands on, one coordinate at a time: `(pos - start) // blockSize`
   * for a click between start and start + 9 * blockSize, both ends included. Index 9 is
   * reached only on the far edge.
   */
  function CellIndex(d: int, blockSize: int): (r: int)
    requires blockSize > 0 && 0 <= d <= 9 * blockSize
    ensures 0 <= r <= 9
    ensures r * blockSize <= d < (r + 1) * blockSize
    ensures r == 9 <==> d == 9 * blockSize
  {
    d / blockSize
  }

  /** The all-zero grid `blankBoard` writes. */
  function ZeroGrid(): (grid: seq<seq<int>>)
    ensures IsGrid(grid) && forall r, c :: 0 <= r < 9 && 0 <= c < 9 ==> grid[r][c] == 0
  {
    seq(9, _ => seq(9, _ => 0))
  }

  /** m after the cells before (x, y) in row-major order, (0, 0), (1, 0), .., have been set from grid. */
  ghost function Overlay(m: map<Cell, int>, grid: seq<seq<int>>, y: nat, x: nat): map<Cell, int>
    requires IsGrid(grid) && x <= 9 && (y < 9 || (y == 9 && x == 0))
    decreases y, x
  {
    if x > 0 then Overlay(m, grid, y, x - 1)[(x - 1, y) := grid[y][x - 1]]
    else if y > 0 then Overlay(m, grid, y - 1, 9)
    else m
  }

  /** Cell c comes before (x, y) in row-major order. */
  predicate Before(c: Cell, y: int, x: int)
  {
    OnBoard(c) && (c.1 < y || (c.1 == y && c.0 < x))
  }

  lemma {:induction false} OverlayPrefix(m: map<Cell, int>, grid: seq<seq<int>>, y: nat, x: nat)
    requires IsGrid(grid) && x <= 9 && (y < 9 || (y == 9 && x == 0))
    ensures forall c :: c in Overlay(m, grid, y, x) <==> c in m || Before(c, y, x)
    ensures forall c :: Before(c, y, x) ==> Overlay(m, grid, y, x)[c] == grid[c.1][c.0]
    ensures forall c :: c in m && !Before(c, y, x) ==> Overlay(m, grid, y, x)[c] == m[c]
    decreases y, x
  {
    if x > 0 {
      OverlayPrefix(m, grid, y, x - 1);
    } else if y > 0 {
      OverlayPrefix(m, grid, y - 1, 9);
    }
  }

  /**
   * r is m with every board cell (x, y) set to grid[y][x]: the keys gain the 81 cells
   * and every other key keeps its value.
   */
  ghost predicate FilledFrom(r: map<Cell, int>, m: map<Cell, int>, grid: seq<seq<int>>)
    requires IsGrid(grid)
  {
    r.Keys == m.Keys + Cells() &&
    (forall c :: OnBoard(c) ==> r[c] == grid[c.1][c.0]) &&
    (forall c :: c in m && !OnBoard(c) ==> r[c] == m[c])
  }

  lemma OverlayAll(m: map<Cell, int>, grid: seq<seq<int>>)
    requires IsGrid(grid)
    ensures FilledFrom(Overlay(m, grid, 9, 0), m, grid)
  {
    OverlayPrefix(m, grid, 9, 0);
    OverlayKeys(m, grid);
  }

  lemma OverlayKeys(m: map<Cell, int>, grid: seq<seq<int>>)
    requires IsGrid(grid)
    ensures Overlay(m, grid, 9, 0).Keys == m.Keys + Cells()
  {
    var r := Overlay(m, grid, 9, 0);
    OverlayPrefix(m, grid, 9, 0);
    forall c ensures c in r.Keys <==> c in m.Keys + Cells() {
      assert Before(c, 9, 0) <==> OnBoard(c);
    }
  }

  class SudokuBoard {
    const startX: int
    const startY: int
    const blockSize: int
    const shiftWidth: int
    const shiftHeight: int
    var selected: Cell
    var board: map<Cell, int>
    var solution: map<Cell, int>

    ghost predicate Valid()
      reads this
    {
      shiftWidth == blockSize * 9 + startX && shiftHeight == blockSize * 9 + startY &&
      (forall c :: OnBoard(c) ==> c in board && c in solution)
    }

    /**
     * __init__: nothing selected ((9, 9) is off the board), a blank board, then a new
     * puzzle from the given shuffles and blanked cells.
     */
    constructor (startX: int, startY: int, blockSize: int,
                 g: seq<int>, rs: seq<seq<int>>, h: seq<int>, cs: seq<seq<int>>, nums: seq<int>,
                 blanks: seq<int>)
      requires Orders(g, rs, h, cs, nums) && IsBlanks(blanks)
      ensures Valid()
      ensures this.startX == startX && this.startY == startY && this.blockSize == blockSize
      ensures selected == (9, 9)
      ensures board.Keys == Cells() && solution.Keys == Cells()
      ensures forall c :: OnBoard(c) ==>
        solution[c] == Solution(g, rs, h, cs, nums)[c.1][c.0] &&
        board[c] == Blanked(Solution(g, rs, h, cs, nums), blanks)[c.1][c.0]
    {
      this.startX := startX;
      this.startY := startY;
      this.shiftWidth := blockSize * 9 + startX;
      this.shiftHeight := blockSize * 9 + startY;
      this.blockSize := blockSize;
      this.selected := (9, 9);
      this.board := map[];
      this.solution := map[];
      new;
      BlankBoard();
      GenerateNew(g, rs, h, cs, nums, blanks);
    }

    /** blankBoard: every cell of the board and of the solution becomes 0; nothing else changes. */
    method BlankBoard()
      modifies this
      ensures FilledFrom(board, old(board), ZeroGrid()) && FilledFrom(solution, old(solution), ZeroGrid())
      ensures selected == old(selected)
    {
      for y := 0 to 9
        invariant board == Overlay(old(board), ZeroGrid(), y, 0)
        invariant solution == Overlay(old(solution), ZeroGrid(), y, 0)
        invariant selected == old(selected)
      {
        for x := 0 to 9
          invariant board == Overlay(old(board), ZeroGrid(), y, x)
          invariant solution == Overlay(old(solution), ZeroGrid(), y, x)
          invariant selected == old(selected)
        {
          board := board[(x, y) := 0];
          solution := solution[(x, y) := 0];
        }
      }
      OverlayAll(old(board), ZeroGrid());
      OverlayAll(old(solution), ZeroGrid());
    }

    /**
     * generateNew: the solution of the shuffled pattern goes into `solution`; the same
     * grid with the cells numbered in `blanks` zeroed goes into `board`.
     */
    method GenerateNew(g: seq<int>, rs: seq<seq<int>>, h: seq<int>, cs: seq<seq<int>>, nums: seq<int>,
                       blanks: seq<int>)
      requires Orders(g, rs, h, cs, nums) && IsBlanks(blanks)
      modifies this
      ensures FilledFrom(solution, old(solution), Solution(g, rs, h, cs, nums))
      ensures FilledFrom(board, old(board), Blanked(Solution(g, rs, h, cs, nums), blanks))
      ensures selected == old(selected)
    {
      var full := Solution(g, rs, h, cs, nums);
      solution := Fill(solution, full);
      ghost var filled := solution;
      var grid := full;
      BlankedNone(full);
      assert blanks[..0] == [];
      for i := 0 to |blanks|
        invariant grid == Blanked(full, blanks[..i])
        invariant board == old(board) && solution == filled && selected == old(selected)
      {
        var p := blanks[i];
        BlankedStep(full, blanks[..i], p);
        assert blanks[..i + 1] == blanks[..i] + [p];
        grid := grid[p / 9 := grid[p / 9][p % 9 := 0]];
      }
      assert blanks[..|blanks|] == blanks;
      board := Fill(board, grid);
    }

    /**
     * onSelect: a click inside the board (edges included) selects the cell under it;
     * a click elsewhere goes to the number pad and leaves the board alone. ok is false
     * where Python raises ZeroDivisionError (a zero blockSize and a click on the corner).
     */
    method OnSelect(px: int, py: int) returns (ok: bool)
      requires Valid()
      modifies this
      ensures Valid()
      ensures board == old(board) && solution == old(solution)
      ensures var inside := startX <= px <= shiftWidth && startY <= py <= shiftHeight;
        (!ok <==> inside && blockSize == 0) &&
        (ok && inside ==>
           blockSize > 0 &&
           selected == (CellIndex(px - startX, blockSize), CellIndex(py - startY, blockSize))) &&
        (!(ok && inside) ==> selected == old(selected))
    {
      if startX <= px <= shiftWidth && startY <= py <= shiftHeight {
        if blockSize == 0 {
          return false;
        }
        // in range with shiftWidth == 9 * blockSize + startX forces blockSize > 0,
        // where Dafny's division agrees with Python's floor division
        selected := ((px - startX) / blockSize, (py - startY) / blockSize);
      }
      ok := true;
    }

    /**
     * The guard of drawSelected: the outline rect of the selected cell, drawn only when
     * both indices are in 0..8 and the cell is blank (0).
     */
    function SelectedRect(): (r: Option<Rect>)
      requires Valid()
      reads this
      ensures r.Some? <==> OnBoard(selected) && board[selected] == 0
      ensures r.Some? && blockSize >= 0 ==>
        startX <= r.value.0 && r.value.0 + r.value.2 <= shiftWidth &&
        startY <= r.value.1 && r.value.1 + r.value.3 <= shiftHeight
    {
      if 0 <= selected.0 < 9 && 0 <= selected.1 < 9 && board[selected] == 0 then
        CellBound(selected.0, blockSize);
        CellBound(selected.1, blockSize);
        Some((startX + selected.0 * blockSize, startY + selected.1 * blockSize, blockSize, blockSize))
      else
        None
    }
  }

  lemma CellBound(i: int, blockSize: int)
    requires 0 <= i < 9
    ensures blockSize >= 0 ==> 0 <= i * blockSize && i * blockSize + blockSize <= blockSize * 9
  {
    if blockSize >= 0 {
      assert blockSize * 9 - (i * blockSize + blockSize) == (8 - i) * blockSize;
    }
  }

  /** A new board has (9, 9) selected, so drawSelected draws nothing until a click. */
  lemma FreshBoardSelectsNothing(b: SudokuBoard)
    requires b.Valid() && b.selected == (9, 9)
    ensures b.SelectedRect() == None
  {
  }

  /**
   * The puzzle generateNew leaves on the board: each cell is 0 or its solution value,
   * and exactly Empties (60) cells are 0, namely the cells numbered in blanks.
   */
  lemma PuzzleOfSolution(g: seq<int>, rs: seq<seq<int>>, h: seq<int>, cs: seq<seq<int>>, nums: seq<int>,
                         blanks: seq<int>)
    requires Orders(g, rs, h, cs, nums) && IsBlanks(blanks)
    ensures var full := Solution(g, rs, h, cs, nums);
      var puzzle := Blanked(full, blanks);
      (forall r, c :: 0 <= r < 9 && 0 <= c < 9 ==> puzzle[r][c] == 0 || puzzle[r][c] == full[r][c]) &&
      (set p | 0 <= p < Squares && puzzle[p / 9][p % 9] == 0) == (set p | p in blanks) &&
      |set p | 0 <= p < Squares && puzzle[p / 9][p % 9] == 0| == Empties
  {
    var full := Solution(g, rs, h, cs, nums);
    RowsAllOnce(g, rs, h, cs, nums);
    forall r, c | 0 <= r < 9 && 0 <= c < 9 ensures full[r][c] != 0 {
      assert IsPerm(full[r], 1, 9);
    }
    BlankCount(full, blanks);
  }

  /** `y = 0; for line in grid: for x in range(9): m[x, y] = line[x]; y += 1`. */
  method Fill(m: map<Cell, int>, grid: seq<seq<int>>) returns (r: map<Cell, int>)
    requires IsGrid(grid)
    ensures FilledFrom(r, m, grid)
  {
    r := m;
    var y := 0;
    for i := 0 to 9
      invariant y == i
      invariant r == Overlay(m, grid, y, 0)
    {
      var line := grid[i];
      for x := 0 to 9
        invariant r == Overlay(m, grid, y, x)
      {
        r := r[(x, y) := line[x]];
      }
      y := y + 1;
    }
    OverlayAll(m, grid);
  }
}
