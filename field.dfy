/** The minefield (rwt.game.minesweeper.MineField): a byte grid written by a
    placement pass and then rewritten in place by a counting pass. */
module Field {
  import opened Counting

  /** Java's byte. */
  newtype int8 = x: int | -128 <= x < 128

  /** The random draws, one per cell, indexed [x][y]. */
  predicate DrawsFit(w: nat, h: nat, draws: seq<seq<real>>) {
    |draws| == w && forall x :: 0 <= x < w ==> |draws[x]| == h
  }

  /** The layout the placement pass produces: a w x h grid with a bomb
      exactly where the draw is below pct. */
  function Placement(w: nat, h: nat, pct: real, draws: seq<seq<real>>): (l: Layout)
    requires DrawsFit(w, h, draws)
    ensures l.WellFormed() && l.w == w && l.h == h
    ensures forall x, y :: 0 <= x < w && 0 <= y < h ==> (l.bomb[x][y] <==> draws[x][y] < pct)
  {
    Layout(w, h, seq(w, x requires 0 <= x < w => seq(h, y requires 0 <= y < h => draws[x][y] < pct)))
  }

  lemma PlacementMarks(w: nat, h: nat, pct: real, draws: seq<seq<real>>, x: int, y: int)
    requires DrawsFit(w, h, draws) && 0 <= x < w && 0 <= y < h
    ensures Placement(w, h, pct, draws).WellFormed()
    ensures Placement(w, h, pct, draws).bomb[x][y] <==> draws[x][y] < pct
  {
  }

  class MineField {
    const field: array2<int8>
    /** The bomb layout the placement pass drew. */
    ghost const layout: Layout

    ghost predicate Shape()
      reads this
    {
      layout.WellFormed() && field.Length0 == layout.w && field.Length1 == layout.h
    }

    /** The bomb test of every cell agrees with the layout. This is what the
        counting pass relies on while it rewrites the grid it reads. */
    ghost predicate BombsMarked()
      reads this, field
      requires Shape()
    {
      forall x, y :: 0 <= x < layout.w && 0 <= y < layout.h ==>
        (field[x, y] == -1) == layout.bomb[x][y]
    }

    /** The constructed minefield: every cell holds what the counting pass stores. */
    ghost predicate Valid()
      reads this, field
    {
      Shape() && BombsMarked() &&
      forall x, y :: 0 <= x < layout.w && 0 <= y < layout.h ==>
        field[x, y] as int == Stored(layout, x, y)
    }

    /** Runs the placement pass and then the in-place counting pass. */
    constructor (w: nat, h: nat, pct: real, draws: seq<seq<real>>)
      requires DrawsFit(w, h, draws)
      ensures Valid() && fresh(field)
      ensures layout == Placement(w, h, pct, draws)
    {
      field := new int8[w, h];
      layout := Placement(w, h, pct, draws);
      new;
      // first place the bombs (-1 is a bomb)
      var y := 0;
      while y < h
        invariant 0 <= y <= h
        invariant forall i, j :: 0 <= i < w && 0 <= j < y ==> field[i, j] == if layout.bomb[i][j] then -1 else 0
      {
        var x := 0;
        while x < w
          invariant 0 <= x <= w
          invariant forall i, j :: 0 <= i < w && 0 <= j < y ==> field[i, j] == if layout.bomb[i][j] then -1 else 0
          invariant forall i :: 0 <= i < x ==> field[i, y] == if layout.bomb[i][y] then -1 else 0
        {
          field[x, y] := if draws[x][y] < pct then -1 else 0;
          x := x + 1;
        }
        y := y + 1;
      }
      // then overwrite every cell with its count
      StoreCounts();
    }

    /** The constructor's second pass: overwrite every cell, row by row,
        with what SlowNeighborCount reports for it. */
    method StoreCounts()
      requires Shape() && BombsMarked()
      modifies field
      ensures Valid()
    {
      var y := 0;
      while y < field.Length1
        invariant 0 <= y <= layout.h
        invariant BombsMarked()
        invariant forall i, j :: 0 <= i < layout.w && 0 <= j < y ==> field[i, j] as int == Stored(layout, i, j)
      {
        var x := 0;
        while x < field.Length0
          invariant 0 <= x <= layout.w
          invariant BombsMarked()
          invariant forall i, j :: 0 <= i < layout.w && 0 <= j < y ==> field[i, j] as int == Stored(layout, i, j)
          invariant forall i :: 0 <= i < x ==> field[i, y] as int == Stored(layout, i, y)
        {
          var count := SlowNeighborCount(x, y);
          field[x, y] := count as int8;
          x := x + 1;
        }
        y := y + 1;
      }
    }

    /** The bomb test: the cell holds -1. */
    function HasBomb(x: int, y: int): (r: bool)
      reads this, field
      requires Shape() && BombsMarked() && layout.InBounds(x, y)
      ensures r == layout.bomb[x][y]
    {
      field[x, y] == -1
    }

    /** The count shown on (x, y): 0 for a bomb, otherwise the stored count. */
    function CountNeighbors(x: int, y: int): (r: int)
      reads this, field
      requires Valid() && layout.InBounds(x, y)
      ensures r == Count(layout, x, y)
      ensures 0 <= r <= 8
    {
      CountInRange(layout, x, y);
      if HasBomb(x, y) then 0 else field[x, y] as int
    }

    /** Counts the bombs in the clamped 3x3 window around (x, y), or answers
        -1 at a bomb. It reads the grid while the counting pass is rewriting
        it, so it needs only that the bomb tests are intact. */
    method SlowNeighborCount(x: int, y: int) returns (count: int)
      requires Shape() && BombsMarked() && layout.InBounds(x, y)
      ensures count == Stored(layout, x, y)
    {
      if HasBomb(x, y) {
        return -1;
      }
      count := 0;
      var minx := Max(x - 1, 0);
      var maxx := Min(x + 1, field.Length0 - 1);
      var miny := Max(y - 1, 0);
      var maxy := Min(y + 1, field.Length1 - 1);
      var j := miny;
      while j <= maxy
        invariant miny <= j <= maxy + 1
        invariant count == CountBlock(layout, minx, maxx + 1, miny, j)
      {
        var i := minx;
        while i <= maxx
          invariant minx <= i <= maxx + 1
          invariant count == CountBlock(layout, minx, maxx + 1, miny, j) + CountRow(layout, j, minx, i)
        {
          count := count + if HasBomb(i, j) then 1 else 0;
          i := i + 1;
        }
        j := j + 1;
      }
    }
  }
}
