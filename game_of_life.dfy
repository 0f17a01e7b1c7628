/**
 * game/gameoflife.py: the module-level functions over the global 80 x 80 grid.
 * The dictionary passed between them is a value here; `initLife` updates it in
 * place and also returns it, which the model renders as returning the new map.
 */
module GameOfLife {
  import opened LifeRules

  const ScreenWidth := 800
  const ScreenHeight := 800
  const CellSize := 10
  /** Number of cells wide and high (Python `//`, which agrees with Dafny `/` for a positive divisor). */
  const CellWidth := ScreenWidth / CellSize
  const CellHeight := ScreenHeight / CellSize

  /** blankGrid: every cell of the global grid, and nothing else, set to 0. */
  method BlankGrid() returns (grid: Grid)
    ensures forall c: Cell :: c in grid <==> InBounds(c, CellWidth, CellHeight)
    ensures forall c :: c in grid ==> grid[c] == 0
  {
    grid := map[];
    var y := 0;
    while y < CellHeight
      invariant 0 <= y <= CellHeight
      invariant forall c: Cell :: c in grid <==> InBounds(c, CellWidth, y)
      invariant forall c :: c in grid ==> grid[c] == 0
    {
      var x := 0;
      while x < CellWidth
        invariant 0 <= x <= CellWidth
        invariant forall c: Cell :: c in grid <==> InBounds(c, CellWidth, y) || (c.1 == y && 0 <= c.0 < x)
        invariant forall c :: c in grid ==> grid[c] == 0
      {
        grid := grid[(x, y) := 0];
        x := x + 1;
      }
      y := y + 1;
    }
  }

  /**
   * initLife: each cell gets a fresh random 0 or 1. The random draw for a cell is
   * the input `coin`; the key set does not change.
   */
  method InitLife(life: Grid, coin: Cell -> bool) returns (r: Grid)
    ensures r.Keys == life.Keys
    ensures forall c :: c in r ==> r[c] == (if coin(c) then 1 else 0)
  {
    r := life;
    var todo := life.Keys;
    while todo != {}
      invariant todo <= life.Keys && r.Keys == life.Keys
      invariant forall c :: c in r && c !in todo ==> r[c] == (if coin(c) then 1 else 0)
      decreases todo
    {
      var c :| c in todo;
      r := r[c := if coin(c) then 1 else 0];
      todo := todo - {c};
    }
  }

  /**
   * getNeighbours: the 3 x 3 scan around `item`, clipped to the grid; the source
   * looks up every in-bounds cell it scans, so those must be keys.
   */
  method GetNeighbours(item: Cell, life: Grid) returns (neighbours: int)
    requires Covers(life, CellWidth, CellHeight)
    ensures neighbours == Neighbours(item, life, CellWidth, CellHeight)
    ensures 0 <= neighbours <= 8
    ensures neighbours == |LiveAround(item, life, CellWidth, CellHeight, 9)|
  {
    neighbours := 0;
    for x := -1 to 2
      invariant neighbours == Counted(item, life, CellWidth, CellHeight, 3 * (x + 1))
    {
      for y := -1 to 2
        invariant neighbours == Counted(item, life, CellWidth, CellHeight, 3 * (x + 1) + (y + 1))
      {
        var checkCell := (item.0 + x, item.1 + y);
        CountedAt(item, life, CellWidth, CellHeight, x, y);
        if checkCell.0 < CellWidth && checkCell.0 >= 0 {
          if checkCell.1 < CellHeight && checkCell.1 >= 0 {
            if life[checkCell] == 1 {
              if x == 0 && y == 0 {
              } else {
                neighbours := neighbours + 1;
              }
            }
          }
        }
      }
    }
  }

  /**
   * NextGeneration: a new map built cell by cell; the argument is left as it is.
   * A live cell stays live iff it has 2 or 3 live neighbours; a dead one becomes
   * live iff it has exactly 3; a cell holding any other value gets no entry.
   */
  method NextGeneration(life: Grid) returns (newlife: Grid)
    requires Covers(life, CellWidth, CellHeight)
    ensures newlife == Step(life, CellWidth, CellHeight)
    ensures forall c :: c in newlife <==> c in life && (life[c] == 0 || life[c] == 1)
    ensures forall c :: c in life && life[c] == 1 ==>
      (newlife[c] == 1 <==> Neighbours(c, life, CellWidth, CellHeight) in {2, 3}) &&
      (newlife[c] == 0 <==> Neighbours(c, life, CellWidth, CellHeight) !in {2, 3})
    ensures forall c :: c in life && life[c] == 0 ==>
      (newlife[c] == 1 <==> Neighbours(c, life, CellWidth, CellHeight) == 3) &&
      (newlife[c] == 0 <==> Neighbours(c, life, CellWidth, CellHeight) != 3)
  {
    newlife := map[];
    var todo := life.Keys;
    while todo != {}
      invariant todo <= life.Keys
      invariant forall c :: c in newlife <==> c in life && c !in todo && (life[c] == 0 || life[c] == 1)
      invariant forall c :: c in newlife ==> newlife[c] == NextState(life[c], Neighbours(c, life, CellWidth, CellHeight))
      decreases todo
    {
      var item :| item in todo;
      var numberNeighbours := GetNeighbours(item, life);
      if life[item] == 1 {
        if numberNeighbours < 2 {
          newlife := newlife[item := 0];
        } else if numberNeighbours > 3 {
          newlife := newlife[item := 0];
        } else {
          newlife := newlife[item := 1];
        }
      } else if life[item] == 0 {
        if numberNeighbours == 3 {
          newlife := newlife[item := 1];
        } else {
          newlife := newlife[item := 0];
        }
      }
      todo := todo - {item};
    }
  }
}
