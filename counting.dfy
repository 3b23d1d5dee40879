/** The bomb layout of a minefield and the neighbour counts the minefield
    stores for it, as pure definitions. The class in field.dfy is proved
    against these. */
module Counting {

  /** A grid coordinate (x, y): x is the column, y the row. */
  type Cell = (int, int)

  /** A bomb layout of w columns and h rows; bomb[x][y] holds at a bomb. */
  datatype Layout = Layout(w: nat, h: nat, bomb: seq<seq<bool>>) {

    predicate WellFormed() {
      |bomb| == w && forall x :: 0 <= x < w ==> |bomb[x]| == h
    }

    predicate InBounds(x: int, y: int) {
      0 <= x < w && 0 <= y < h
    }
  }

  function Max(a: int, b: int): int { if a >= b then a else b }
  function Min(a: int, b: int): int { if a <= b then a else b }

  /** Number of bombs among the cells (lo, y) .. (hi - 1, y): at most as
      many as the stretch has cells. */
  function CountRow(l: Layout, y: int, lo: int, hi: int): (r: nat)
    requires l.WellFormed() && 0 <= y < l.h && 0 <= lo && hi <= l.w
    ensures r <= Max(hi - lo, 0)
    decreases hi - lo
  {
    if hi <= lo then 0
    else CountRow(l, y, lo, hi - 1) + (if l.bomb[hi - 1][y] then 1 else 0)
  }

  /** Number of bombs in the block of columns xlo .. xhi - 1 and rows
      ylo .. yhi - 1: a block at most three wide, such as the window around
      a cell, counts at most three bombs per row. */
  function CountBlock(l: Layout, xlo: int, xhi: int, ylo: int, yhi: int): (r: nat)
    requires l.WellFormed() && 0 <= xlo && xhi <= l.w && 0 <= ylo && yhi <= l.h
    ensures xhi - xlo <= 3 ==> r <= 3 * Max(yhi - ylo, 0)
    decreases yhi - ylo
  {
    if yhi <= ylo then 0
    else CountBlock(l, xlo, xhi, ylo, yhi - 1) + CountRow(l, yhi - 1, xlo, xhi)
  }

  /** The 3x3 window around (x, y), clamped to the grid: columns
      MinX .. MaxX and rows MinY .. MaxY, both ends included. */
  function MinX(x: int): int { Max(x - 1, 0) }
  function MaxX(l: Layout, x: int): int { Min(x + 1, l.w - 1) }
  function MinY(y: int): int { Max(y - 1, 0) }
  function MaxY(l: Layout, y: int): int { Min(y + 1, l.h - 1) }

  /** Bombs in the clamped 3x3 window around (x, y), (x, y) itself included;
      the window holds at most nine cells. */
  function NeighborCount(l: Layout, x: int, y: int): (r: nat)
    requires l.WellFormed() && l.InBounds(x, y)
    ensures r <= 9
  {
    CountBlock(l, MinX(x), MaxX(l, x) + 1, MinY(y), MaxY(l, y) + 1)
  }

  /** The value the counting pass stores for (x, y): -1 at a bomb, else the
      count, which then lies in 0 .. 8. So it fits a byte and keeps the bomb
      test of (x, y) intact. */
  function Stored(l: Layout, x: int, y: int): (r: int)
    requires l.WellFormed() && l.InBounds(x, y)
    ensures r == -1 <==> l.bomb[x][y]
    ensures -1 <= r <= 8
  {
    if l.bomb[x][y] then -1
    else NeighborCountAtMostEight(l, x, y); NeighborCount(l, x, y)
  }

  /** What a count query answers for (x, y): 0 at a bomb, else the count;
      never more than 8. */
  function Count(l: Layout, x: int, y: int): (r: nat)
    requires l.WellFormed() && l.InBounds(x, y)
    ensures r <= 8
  {
    if l.bomb[x][y] then 0
    else NeighborCountAtMostEight(l, x, y); NeighborCount(l, x, y)
  }

  /** Every cell of the grid. */
  function AllCells(l: Layout): set<Cell> {
    set x, y | 0 <= x < l.w && 0 <= y < l.h :: (x, y)
  }

  /** Reference definition of the neighbourhood: the bomb cells at most one
      step away from (x, y) in each direction that lie on the grid. */
  function BombsAround(l: Layout, x: int, y: int): set<Cell>
    requires l.WellFormed()
  {
    set i, j | 0 <= i < l.w && 0 <= j < l.h && x - 1 <= i <= x + 1 && y - 1 <= j <= y + 1
                 && l.bomb[i][j] :: (i, j)
  }

  // ---------------------------------------------------------------------
  // The count equals the size of the reference neighbourhood.

  function RowBombs(l: Layout, y: int, lo: int, hi: int): set<Cell>
    requires l.WellFormed() && 0 <= y < l.h
  {
    set i | lo <= i < hi && 0 <= i < l.w && l.bomb[i][y] :: (i, y)
  }

  function BlockBombs(l: Layout, xlo: int, xhi: int, ylo: int, yhi: int): set<Cell>
    requires l.WellFormed()
  {
    set i, j | xlo <= i < xhi && ylo <= j < yhi && 0 <= i < l.w && 0 <= j < l.h
                 && l.bomb[i][j] :: (i, j)
  }

  lemma {:induction false} CountRowIsSize(l: Layout, y: int, lo: int, hi: int)
    requires l.WellFormed() && 0 <= y < l.h && 0 <= lo && hi <= l.w
    ensures CountRow(l, y, lo, hi) == |RowBombs(l, y, lo, hi)|
    decreases hi - lo
  {
    if hi <= lo {
      assert RowBombs(l, y, lo, hi) == {};
    } else {
      CountRowIsSize(l, y, lo, hi - 1);
      var last := if l.bomb[hi - 1][y] then {(hi - 1, y)} else {};
      assert RowBombs(l, y, lo, hi) == RowBombs(l, y, lo, hi - 1) + last;
      assert (hi - 1, y) !in RowBombs(l, y, lo, hi - 1);
    }
  }

  lemma {:induction false} CountBlockIsSize(l: Layout, xlo: int, xhi: int, ylo: int, yhi: int)
    requires l.WellFormed() && 0 <= xlo && xhi <= l.w && 0 <= ylo && yhi <= l.h
    ensures CountBlock(l, xlo, xhi, ylo, yhi) == |BlockBombs(l, xlo, xhi, ylo, yhi)|
    decreases yhi - ylo
  {
    if yhi <= ylo {
      assert BlockBombs(l, xlo, xhi, ylo, yhi) == {};
    } else {
      CountBlockIsSize(l, xlo, xhi, ylo, yhi - 1);
      CountRowIsSize(l, yhi - 1, xlo, xhi);
      var above := BlockBombs(l, xlo, xhi, ylo, yhi - 1);
      var row := RowBombs(l, yhi - 1, xlo, xhi);
      assert BlockBombs(l, xlo, xhi, ylo, yhi) == above + row;
      assert above * row == {};
    }
  }

  /** The stored count is the number of bombs in the reference neighbourhood:
      the window is clamped to the grid and never wraps around. */
  lemma NeighborCountIsBombsAround(l: Layout, x: int, y: int)
    requires l.WellFormed() && l.InBounds(x, y)
    ensures NeighborCount(l, x, y) == |BombsAround(l, x, y)|
  {
    CountBlockIsSize(l, MinX(x), MaxX(l, x) + 1, MinY(y), MaxY(l, y) + 1);
    assert BlockBombs(l, MinX(x), MaxX(l, x) + 1, MinY(y), MaxY(l, y) + 1) == BombsAround(l, x, y);
  }

  /** A zero count means no bomb in the window. */
  lemma ZeroCountMeansNoBombAround(l: Layout, x: int, y: int, i: int, j: int)
    requires l.WellFormed() && l.InBounds(x, y) && l.InBounds(i, j)
    requires x - 1 <= i <= x + 1 && y - 1 <= j <= y + 1
    requires NeighborCount(l, x, y) == 0
    ensures !l.bomb[i][j]
  {
    NeighborCountIsBombsAround(l, x, y);
    assert (i, j) !in BombsAround(l, x, y);
  }

  // ---------------------------------------------------------------------
  // Bounds: a non-bomb cell has at most 8 bombs around it.

  lemma {:induction false} RowWithSafeCell(l: Layout, y: int, lo: int, hi: int, x: int)
    requires l.WellFormed() && 0 <= y < l.h && 0 <= lo && hi <= l.w
    requires lo <= x < hi && !l.bomb[x][y]
    ensures CountRow(l, y, lo, hi) <= hi - lo - 1
    decreases hi - lo
  {
    if x < hi - 1 {
      RowWithSafeCell(l, y, lo, hi - 1, x);
    }
  }

  lemma {:induction false} BlockWithSafeCell(l: Layout, xlo: int, xhi: int, ylo: int, yhi: int,
                                             x: int, y: int)
    requires l.WellFormed() && 0 <= xlo && xhi <= l.w && 0 <= ylo && yhi <= l.h
    requires xhi - xlo <= 3
    requires xlo <= x < xhi && ylo <= y < yhi && !l.bomb[x][y]
    ensures CountBlock(l, xlo, xhi, ylo, yhi) <= 3 * (yhi - ylo) - 1
    decreases yhi - ylo
  {
    if y == yhi - 1 {
      RowWithSafeCell(l, yhi - 1, xlo, xhi, x);
    } else {
      BlockWithSafeCell(l, xlo, xhi, ylo, yhi - 1, x, y);
    }
  }

  /** The window holds at most nine cells and its centre is not a bomb. */
  lemma NeighborCountAtMostEight(l: Layout, x: int, y: int)
    requires l.WellFormed() && l.InBounds(x, y) && !l.bomb[x][y]
    ensures NeighborCount(l, x, y) <= 8
  {
    BlockWithSafeCell(l, MinX(x), MaxX(l, x) + 1, MinY(y), MaxY(l, y) + 1, x, y);
  }

  /** What a count query answers: 0 at a bomb, and in 0 .. 8 everywhere. */
  lemma CountInRange(l: Layout, x: int, y: int)
    requires l.WellFormed() && l.InBounds(x, y)
    ensures l.bomb[x][y] ==> Count(l, x, y) == 0
    ensures Count(l, x, y) <= 8
    ensures !l.bomb[x][y] ==> Count(l, x, y) == |BombsAround(l, x, y)|
  {
    if !l.bomb[x][y] {
      NeighborCountAtMostEight(l, x, y);
      NeighborCountIsBombsAround(l, x, y);
    }
  }

  /** Every grid cell is in AllCells and nothing else is. */
  lemma InAllCells(l: Layout, x: int, y: int)
    ensures (x, y) in AllCells(l) <==> l.InBounds(x, y)
  {
    if l.InBounds(x, y) {
      assert (x, y) in AllCells(l);
    }
  }
}
