/**
 * util/draw_cube.py: the facelet colours of a cube, read from and written back to
 * a 54-letter string, and the screen layout of the six unfolded faces.
 */
module Cube {

  /** The six face colours, numbered as the IntEnum `Color` numbers them. */
  datatype Color = U | R | F | D | L | B

  function Ordinal(c: Color): (n: int)
    ensures 0 <= n < 6
  {
    match c
    case U => 0
    case R => 1
    case F => 2
    case D => 3
    case L => 4
    case B => 5
  }

  /** `Color(n)`: the member numbered n (the source raises for any other n). */
  function FromOrdinal(n: int): (c: Color)
    requires 0 <= n < 6
    ensures Ordinal(c) == n
  {
    if n == 0 then U else if n == 1 then R else if n == 2 then F
    else if n == 3 then D else if n == 4 then L else B
  }

  /** `Color(n).name`, a one-letter name: the letter at the member's position in "URFDLB". */
  function Name(c: Color): (ch: char)
    ensures IsName(ch) && ch == "URFDLB"[Ordinal(c)]
  {
    match c
    case U => 'U'
    case R => 'R'
    case F => 'F'
    case D => 'D'
    case L => 'L'
    case B => 'B'
  }

  predicate IsName(ch: char)
  {
    ch in "URFDLB"
  }

  /** `Color[ch]`: the member called ch (the source raises KeyError for any other letter). */
  function Named(ch: char): (c: Color)
    requires IsName(ch)
    ensures Name(c) == ch
  {
    if ch == 'U' then U else if ch == 'R' then R else if ch == 'F' then F
    else if ch == 'D' then D else if ch == 'L' then L else B
  }

  /** A string the constructor accepts: at least 54 letters, the first 54 colour names. */
  predicate IsCubeString(s: string)
  {
    |s| >= 54 && forall i :: 0 <= i < 54 ==> IsName(s[i])
  }

  /** The facelet numbers a cube string stands for (the specification of the constructor's loop). */
  function Decode(s: string): (f: seq<int>)
    requires IsCubeString(s)
    ensures |f| == 54
  {
    seq(54, i requires 0 <= i < 54 => Ordinal(Named(s[i])))
  }

  /** The string `to_string` joins from the facelet numbers. */
  function Encode(f: seq<int>): (s: string)
    requires forall i :: 0 <= i < |f| ==> 0 <= f[i] < 6
    ensures |s| == |f|
  {
    seq(|f|, i requires 0 <= i < |f| => Name(FromOrdinal(f[i])))
  }

  /** The default argument: nine of each letter in the order U, R, F, D, L, B. */
  function SolvedString(): string
  {
    seq(9, _ => 'U') + seq(9, _ => 'R') + seq(9, _ => 'F') +
    seq(9, _ => 'D') + seq(9, _ => 'L') + seq(9, _ => 'B')
  }

  /** `FaceCube()` with no argument holds nine 0s, nine 1s, ..., nine 5s. */
  lemma SolvedFacelets()
    ensures IsCubeString(SolvedString())
    ensures forall i :: 0 <= i < 54 ==> Decode(SolvedString())[i] == i / 9
  {
    var s := SolvedString();
    forall i | 0 <= i < 54 ensures IsName(s[i]) && Ordinal(Named(s[i])) == i / 9 {
      if i < 9 { assert s[i] == 'U'; }
      else if i < 18 { assert s[i] == 'R'; }
      else if i < 27 { assert s[i] == 'F'; }
      else if i < 36 { assert s[i] == 'D'; }
      else if i < 45 { assert s[i] == 'L'; }
      else { assert s[i] == 'B'; }
    }
  }

  /** to_string(FaceCube(s)) gives back the first 54 letters of s. */
  lemma EncodeDecode(s: string)
    requires IsCubeString(s)
    ensures Encode(Decode(s)) == s[..54]
  {
    var f := Decode(s);
    forall i | 0 <= i < 54 ensures Encode(f)[i] == s[i] {
      assert Name(FromOrdinal(f[i])) == Name(Named(s[i]));
    }
  }

  /** Reading back what to_string wrote gives the same facelets. */
  lemma DecodeEncode(f: seq<int>)
    requires |f| == 54 && forall i :: 0 <= i < 54 ==> 0 <= f[i] < 6
    ensures IsCubeString(Encode(f)) && Decode(Encode(f)) == f
  {
    var s := Encode(f);
    forall i | 0 <= i < 54 ensures IsName(s[i]) && Ordinal(Named(s[i])) == f[i] {
      var c := FromOrdinal(f[i]);
      assert s[i] == Name(c);
      assert Named(Name(c)) == c by {
        match c
        case U => case R => case F => case D => case L => case B =>
      }
    }
  }

  class FaceCube {
    var f: seq<int>

    ghost predicate Valid()
      reads this
    {
      |f| == 54 && forall i :: 0 <= i < 54 ==> 0 <= f[i] < 6
    }

    /** __init__: a list of 54 zeros, overwritten facelet by facelet from the string. */
    constructor (cubeString: string)
      requires IsCubeString(cubeString)
      ensures Valid()
      ensures f == Decode(cubeString)
    {
      f := seq(54, _ => 0);
      new;
      for i := 0 to 54
        invariant |f| == 54
        invariant forall k :: 0 <= k < i ==> f[k] == Ordinal(Named(cubeString[k]))
        invariant forall k :: i <= k < 54 ==> f[k] == 0
      {
        f := f[i := Ordinal(Named(cubeString[i]))];
      }
    }

    /** to_string: the name of each facelet's colour, joined; the inverse of the constructor. */
    function ToString(): (s: string)
      requires Valid()
      reads this
      ensures |s| == 54 && IsCubeString(s)
      ensures Decode(s) == f
    {
      DecodeEncode(f);
      Encode(f)
    }
  }

  type Rect = (int, int, int, int)

  /** The unfolded layout: face g (in U, R, F, D, L, B order) sits at column Grid[g].0, row Grid[g].1. */
  const Grid: seq<(int, int)> := [(1, 0), (2, 1), (1, 1), (1, 2), (0, 1), (3, 1)]

  class DrawCubeFace {
    const startX: int
    const startY: int
    const gap: int
    const cellsize: int
    const facesize: int
    const shiftWidth: int
    const shiftHeight: int
    const cellSize: int
    var faces: seq<Rect>

    /** The square of cell (xx, yy) of face g: the rect appended at index 9g + 3yy + xx. */
    function CellRect(g: int, xx: int, yy: int): Rect
      requires 0 <= g < 6
    {
      (startX + Grid[g].0 * facesize + xx * cellsize, startY + Grid[g].1 * facesize + yy * cellsize, cellSize, cellSize)
    }

    /** The first n rects of the layout, in the order the loops append them. */
    function Layout(n: nat): (r: seq<Rect>)
      requires n <= 54
      ensures |r| == n
    {
      seq(n, k requires 0 <= k < n => CellRect(k / 9, k % 3, k % 9 / 3))
    }

    /** __init__: a cell pitch of cell_size + 2 and 54 rects, face by face, row by row. */
    constructor (startX: int, startY: int, cellSize: int)
      ensures this.startX == startX && this.startY == startY && this.cellSize == cellSize
      ensures gap == 2 && cellsize == cellSize + 2 && facesize == 3 * cellsize
      ensures shiftWidth == startX + 4 * facesize && shiftHeight == startY + 2 * facesize
      ensures faces == Layout(54)
      ensures forall g, yy, xx :: 0 <= g < 6 && 0 <= yy < 3 && 0 <= xx < 3 ==>
        faces[9 * g + 3 * yy + xx] == CellRect(g, xx, yy)
    {
      this.startX := startX;
      this.startY := startY;
      this.gap := 2;
      this.cellsize := cellSize + 2;
      this.facesize := (cellSize + 2) * 3;
      this.shiftWidth := startX + (cellSize + 2) * 3 * 4;
      this.shiftHeight := startY + (cellSize + 2) * 3 * 2;
      this.cellSize := cellSize;
      this.faces := [];
      new;
      for g := 0 to 6
        invariant faces == Layout(9 * g)
      {
        var (x, y) := Grid[g];
        var faceStartX := startX + x * facesize;
        var faceStartY := startY + y * facesize;
        for yy := 0 to 3
          invariant faces == Layout(9 * g + 3 * yy)
        {
          for xx := 0 to 3
            invariant faces == Layout(9 * g + 3 * yy + xx)
          {
            IndexParts(g, yy, xx);
            LayoutAppend(9 * g + 3 * yy + xx);
            faces := faces + [(faceStartX + xx * cellsize, faceStartY + yy * cellsize, cellSize, cellSize)];
          }
        }
      }
      forall g, yy, xx | 0 <= g < 6 && 0 <= yy < 3 && 0 <= xx < 3
        ensures faces[9 * g + 3 * yy + xx] == CellRect(g, xx, yy)
      {
        IndexParts(g, yy, xx);
      }
    }

    /**
     * draw: the fill colour index of each rect is the facelet with the same index,
     * so `f` must cover every rect.
     */
    function Paint(f: seq<int>): (r: seq<(Rect, int)>)
      requires |f| >= |faces|
      reads this
      ensures |r| == |faces|
      ensures forall idx :: 0 <= idx < |r| ==> r[idx].0 == faces[idx] && r[idx].1 == f[idx]
    {
      var rects := faces;
      seq(|rects|, idx requires 0 <= idx < |rects| => (rects[idx], f[idx]))
    }

    /**
     * On the layout built by the constructor, draw fills cell (xx, yy) of face g, placed
     * on the cross at Grid[g], with facelet 9g + 3yy + xx of f.
     */
    lemma PaintCells(f: seq<int>)
      requires faces == Layout(54) && |f| == 54
      ensures |Paint(f)| == 54
      ensures forall g, yy, xx :: 0 <= g < 6 && 0 <= yy < 3 && 0 <= xx < 3 ==>
        Paint(f)[9 * g + 3 * yy + xx] == (CellRect(g, xx, yy), f[9 * g + 3 * yy + xx])
    {
      forall g, yy, xx | 0 <= g < 6 && 0 <= yy < 3 && 0 <= xx < 3
        ensures Paint(f)[9 * g + 3 * yy + xx] == (CellRect(g, xx, yy), f[9 * g + 3 * yy + xx])
      {
        IndexParts(g, yy, xx);
      }
    }

    /** Drawing the solved cube fills all nine cells of face g with colour g. */
    lemma PaintSolved()
      requires faces == Layout(54)
      ensures forall g, yy, xx :: 0 <= g < 6 && 0 <= yy < 3 && 0 <= xx < 3 ==>
        Paint(Decode(SolvedString()))[9 * g + 3 * yy + xx] == (CellRect(g, xx, yy), g)
    {
      SolvedFacelets();
      PaintCells(Decode(SolvedString()));
      forall g, yy, xx | 0 <= g < 6 && 0 <= yy < 3 && 0 <= xx < 3
        ensures Paint(Decode(SolvedString()))[9 * g + 3 * yy + xx] == (CellRect(g, xx, yy), g)
      {
        IndexParts(g, yy, xx);
      }
    }

    lemma LayoutAppend(n: nat)
      requires n < 54
      ensures Layout(n + 1) == Layout(n) + [CellRect(n / 9, n % 3, n % 9 / 3)]
    {
    }
  }

  /** Index 9g + 3yy + xx names face g, row yy, column xx. */
  lemma IndexParts(g: int, yy: int, xx: int)
    requires 0 <= g < 6 && 0 <= yy < 3 && 0 <= xx < 3
    ensures var k := 9 * g + 3 * yy + xx; k / 9 == g && k % 3 == xx && k % 9 / 3 == yy
  {
  }
}
