/**
 * game/gameoflife2.py: the class `game_of_life`, whose `life` field holds the grid
 * and is filled, re-randomised and replaced by its methods. Surface and colours
 * only serve drawing and are left out.
 */
module GameOfLifeObject {
  import opened LifeRules

  class GameOfLife {
    const width: int
    const height: int
    const cellSize: int
    const cellWidth: int
    const cellHeight: int
    var life: Grid

    /** The state every public method keeps: a 0/1 value for exactly the grid's cells. */
    ghost predicate Valid()
      reads this
    {
      IsBoard(life, cellWidth, cellHeight)
    }

    /**
     * __init__: grid sizes by floor division, then blankGrid and initLife; `coin`
     * stands for the random draws. A zero cell size raises in the source.
     */
    constructor (width: int, height: int, cellSize: int, coin: Cell -> bool)
      requires cellSize > 0
      ensures this.width == width && this.height == height && this.cellSize == cellSize
      ensures cellWidth == width / cellSize && cellHeight == height / cellSize
      ensures Valid()
      ensures forall c: Cell :: c in life <==> InBounds(c, cellWidth, cellHeight)
      ensures forall c :: c in life ==> life[c] == (if coin(c) then 1 else 0)
    {
      this.width := width;
      this.height := height;
      this.cellSize := cellSize;
      this.cellWidth := width / cellSize;
      this.cellHeight := height / cellSize;
      this.life := map[];
      new;
      BlankGrid();
      InitLife(coin);
    }

    /** blankGrid: adds a 0 for every grid cell; any other key keeps its value. */
    method BlankGrid()
      modifies this
      ensures forall c: Cell :: c in life <==> c in old(life) || InBounds(c, cellWidth, cellHeight)
      ensures forall c :: c in life ==> life[c] == (if InBounds(c, cellWidth, cellHeight) then 0 else old(life)[c])
    {
      var y := 0;
      while y < cellHeight
        invariant 0 <= y <= cellHeight || (cellHeight < 0 && y == 0)
        invariant forall c: Cell :: c in life <==> c in old(life) || InBounds(c, cellWidth, y)
        invariant forall c :: c in life ==> life[c] == (if InBounds(c, cellWidth, y) then 0 else old(life)[c])
      {
        var x := 0;
        while x < cellWidth
          invariant 0 <= x <= cellWidth || (cellWidth < 0 && x == 0)
          invariant forall c: Cell :: c in life <==>
            c in old(life) || InBounds(c, cellWidth, y) || (c.1 == y && 0 <= c.0 < x)
          invariant forall c :: c in life ==>
            life[c] == (if InBounds(c, cellWidth, y) || (c.1 == y && 0 <= c.0 < x) then 0 else old(life)[c])
        {
          life := life[(x, y) := 0];
          x := x + 1;
        }
        y := y + 1;
      }
    }

    /** initLife: every cell present gets its random 0 or 1; the key set does not change. */
    method InitLife(coin: Cell -> bool)
      modifies this
      ensures life.Keys == old(life).Keys
      ensures forall c :: c in life ==> life[c] == (if coin(c) then 1 else 0)
    {
      var todo := life.Keys;
      while todo != {}
        invariant todo <= life.Keys && life.Keys == old(life).Keys
        invariant forall c :: c in life && c !in todo ==> life[c] == (if coin(c) then 1 else 0)
        decreases todo
      {
        var cell :| cell in todo;
        life := life[cell := if coin(cell) then 1 else 0];
        todo := todo - {cell};
      }
    }

    /** getNeighbours: live in-bounds cells among the eight around `cell`, never `cell` itself. */
    method GetNeighbours(cell: Cell) returns (neighbours: int)
      requires Covers(life, cellWidth, cellHeight)
      ensures neighbours == Neighbours(cell, life, cellWidth, cellHeight)
      ensures 0 <= neighbours <= 8
      ensures neighbours == |LiveAround(cell, life, cellWidth, cellHeight, 9)|
    {
      neighbours := 0;
      for x := -1 to 2
        invariant neighbours == Counted(cell, life, cellWidth, cellHeight, 3 * (x + 1))
      {
        for y := -1 to 2
          invariant neighbours == Counted(cell, life, cellWidth, cellHeight, 3 * (x + 1) + (y + 1))
        {
          var checkCell := (cell.0 + x, cell.1 + y);
          CountedAt(cell, life, cellWidth, cellHeight, x, y);
          if checkCell.0 < cellWidth && checkCell.0 >= 0 {
            if checkCell.1 < cellHeight && checkCell.1 >= 0 {
              if life[checkCell] == 1 {
                if x == 0 && y == 0 {
                } else {
                  neighbours := neighbours + 1;
                }
              }
            }
          }
        }
      }
    }

    /**
     * NextGeneration: `life` is replaced by the rule-applied grid, computed from the
     * old grid throughout. A valid board stays valid with the same cells.
     */
    method NextGeneration()
      requires Covers(life, cellWidth, cellHeight)
      modifies this
      ensures life == Step(old(life), cellWidth, cellHeight)
      ensures old(Valid()) ==> Valid() && life.Keys == old(life).Keys
    {
      var newlife: Grid := map[];
      var todo := life.Keys;
      while todo != {}
        invariant life == old(life) && todo <= life.Keys
        invariant forall c :: c in newlife <==> c in life && c !in todo && (life[c] == 0 || life[c] == 1)
        invariant forall c :: c in newlife ==> newlife[c] == NextState(life[c], Neighbours(c, life, cellWidth, cellHeight))
        decreases todo
      {
        var cell :| cell in todo;
        var numberNeighbours := GetNeighbours(cell);
        if life[cell] == 1 {
          if numberNeighbours < 2 {
            newlife := newlife[cell := 0];
          } else if numberNeighbours > 3 {
            newlife := newlife[cell := 0];
          } else {
            newlife := newlife[cell := 1];
          }
        } else if life[cell] == 0 {
          if numberNeighbours == 3 {
            newlife := newlife[cell := 1];
          } else {
            newlife := newlife[cell := 0];
          }
        }
        todo := todo - {cell};
      }
      if Valid() {
        StepKeepsBoard(life, cellWidth, cellHeight);
      }
      life := newlife;
    }
  }
}
