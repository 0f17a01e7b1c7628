/**
 * The neighbour count and the birth/survival rules that game/gameoflife.py and
 * game/gameoflife2.py both implement, stated once as specification functions
 * over a grid of `width` x `height` cells held in a map from (x, y) to 0 or 1.
 */
module LifeRules {

  type Cell = (int, int)
  type Grid = map<Cell, int>

  predicate InBounds(c: Cell, width: int, height: int)
  {
    0 <= c.0 < width && 0 <= c.1 < height
  }

  /** Every in-bounds cell has an entry (the map may hold other keys too). */
  ghost predicate Covers(life: Grid, width: int, height: int)
  {
    forall c: Cell :: InBounds(c, width, height) ==> c in life
  }

  /** The keys are exactly the in-bounds cells and every value is 0 or 1. */
  ghost predicate IsBoard(life: Grid, width: int, height: int)
  {
    (forall c: Cell :: c in life <==> InBounds(c, width, height)) &&
    (forall c :: c in life ==> life[c] == 0 || life[c] == 1)
  }

  /** The k-th of the nine cells examined around `c`, k = 3 * (dx + 1) + (dy + 1). */
  function Around(c: Cell, k: int): Cell
  {
    (c.0 + (k / 3 - 1), c.1 + (k % 3 - 1))
  }

  /** 1 when the k-th examined cell counts as a live neighbour: in bounds, live, and not `c` itself. */
  function Term(c: Cell, life: Grid, width: int, height: int, k: int): int
  {
    var d := Around(c, k);
    if k != 4 && InBounds(d, width, height) && d in life && life[d] == 1 then 1 else 0
  }

  /** The count after examining the first k of the nine cells. */
  function Counted(c: Cell, life: Grid, width: int, height: int, k: nat): int
    decreases k
  {
    if k == 0 then 0 else Counted(c, life, width, height, k - 1) + Term(c, life, width, height, k - 1)
  }

  /**
   * The neighbour count lies in 0..8 and is the number of live in-bounds cells
   * among the eight around `c`; the cell itself (offset 4) is never counted.
   */
  function Neighbours(c: Cell, life: Grid, width: int, height: int): (n: int)
    ensures 0 <= n <= 8
    ensures n == |LiveAround(c, life, width, height, 9)|
    ensures 4 !in LiveAround(c, life, width, height, 9)
  {
    CountedBounds(c, life, width, height, 9);
    CountedIsCardinality(c, life, width, height, 9);
    Counted(c, life, width, height, 9)
  }

  /** The cells the count is made of: in-bounds live cells at distance at most 1, other than c. */
  ghost function LiveAround(c: Cell, life: Grid, width: int, height: int, k: nat): set<int>
  {
    set m | 0 <= m < k && m != 4 && InBounds(Around(c, m), width, height) &&
            Around(c, m) in life && life[Around(c, m)] == 1
  }

  lemma {:induction false} CountedIsCardinality(c: Cell, life: Grid, width: int, height: int, k: nat)
    ensures Counted(c, life, width, height, k) == |LiveAround(c, life, width, height, k)|
  {
    if k > 0 {
      CountedIsCardinality(c, life, width, height, k - 1);
      LiveAroundStep(c, life, width, height, k);
    }
  }

  /** Examining cell k - 1 adds it to the set exactly when its term is 1. */
  lemma LiveAroundStep(c: Cell, life: Grid, width: int, height: int, k: nat)
    requires k > 0
    ensures var prev := LiveAround(c, life, width, height, k - 1);
      k - 1 !in prev &&
      LiveAround(c, life, width, height, k) ==
        if Term(c, life, width, height, k - 1) == 1 then prev + {k - 1} else prev
  {
  }

  /** The cell at offset (x, y) is the one examined at step 3 (x + 1) + (y + 1) of the count. */
  lemma CountedAt(c: Cell, life: Grid, width: int, height: int, x: int, y: int)
    requires -1 <= x <= 1 && -1 <= y <= 1
    ensures var k, d := 3 * (x + 1) + (y + 1), (c.0 + x, c.1 + y);
      Counted(c, life, width, height, k + 1) == Counted(c, life, width, height, k) +
        (if (x != 0 || y != 0) && InBounds(d, width, height) && d in life && life[d] == 1 then 1 else 0)
  {
    assert Around(c, 3 * (x + 1) + (y + 1)) == (c.0 + x, c.1 + y);
  }

  lemma {:induction false} CountedBounds(c: Cell, life: Grid, width: int, height: int, k: nat)
    requires k <= 9
    ensures 0 <= Counted(c, life, width, height, k) <= (if k <= 4 then k else k - 1)
  {
    if k > 0 {
      CountedBounds(c, life, width, height, k - 1);
    }
  }

  lemma {:induction false} NoLiveNoCount(c: Cell, life: Grid, width: int, height: int, k: nat)
    requires forall d :: d in life ==> life[d] != 1
    ensures Counted(c, life, width, height, k) == 0
  {
    if k > 0 {
      NoLiveNoCount(c, life, width, height, k - 1);
    }
  }

  /**
   * The four rules: a live cell survives on 2 or 3 neighbours and dies otherwise;
   * a dead cell is born on exactly 3 neighbours and stays dead otherwise.
   */
  function NextState(state: int, n: int): (r: int)
    requires state == 0 || state == 1
    ensures r == 0 || r == 1
    ensures state == 1 ==> (r == 1 <==> n == 2 || n == 3)
    ensures state == 0 ==> (r == 1 <==> n == 3)
  {
    if state == 1 then
      if n < 2 then 0
      else if n > 3 then 0
      else 1
    else
      if n == 3 then 1 else 0
  }

  /**
   * One generation. A cell whose value is neither 0 nor 1 gets no entry, as in the
   * source, where neither branch of the rule fires for it.
   */
  ghost function Step(life: Grid, width: int, height: int): (r: Grid)
    ensures forall c :: c in r <==> c in life && (life[c] == 0 || life[c] == 1)
    ensures forall c :: c in r ==>
      var n := Neighbours(c, life, width, height);
      (r[c] == 0 || r[c] == 1) &&
      (r[c] == 1 <==> (life[c] == 1 && (n == 2 || n == 3)) || (life[c] == 0 && n == 3))
  {
    map c | c in life && (life[c] == 0 || life[c] == 1) :: NextState(life[c], Neighbours(c, life, width, height))
  }

  /** A 0/1 board with exactly the in-bounds keys stays one after a generation. */
  lemma StepKeepsBoard(life: Grid, width: int, height: int)
    requires IsBoard(life, width, height)
    ensures IsBoard(Step(life, width, height), width, height)
    ensures Step(life, width, height).Keys == life.Keys
  {
  }

  /** An all-dead grid maps to an all-dead grid. */
  lemma AllDeadStaysDead(life: Grid, width: int, height: int)
    requires forall c :: c in life ==> life[c] == 0
    ensures forall c :: c in Step(life, width, height) ==> Step(life, width, height)[c] == 0
    ensures Step(life, width, height).Keys == life.Keys
  {
    forall c | c in life ensures Neighbours(c, life, width, height) == 0 {
      NoLiveNoCount(c, life, width, height, 9);
    }
  }
}
