/** The game logic of the board controllers as pure definitions: the
    recursive flood fill, a left click, a right click and the win test, on
    the overlay of flipped and flagged cells. The Controller class in
    controller.dfy is proved against these. */
module Flood {
  import opened Counting

  /** One entry of the transitions list: a tile turned face up, with its
      squared distance from the clicked tile. The presentation turns the
      distance into a start delay. */
  datatype Transition = Transition(x: int, y: int, distSq: int)

  function TransitionAt(x: int, y: int, ox: int, oy: int): Transition {
    Transition(x, y, (x - ox) * (x - ox) + (y - oy) * (y - oy))
  }

  /** The state a fill works on: the flipped cells and the transitions so far. */
  datatype Progress = Progress(flipped: set<Cell>, flips: seq<Transition>)

  /** The recursive flip of (x, y) for a click at (ox, oy): nothing if the
      tile is already flipped; otherwise flip it and log it, and unless its
      count is positive go on into its clamped 3x3 window, rows in
      increasing y, each row in increasing x. Flags play no part. */
  function Fill(l: Layout, ox: int, oy: int, x: int, y: int, p: Progress): (r: Progress)
    requires l.WellFormed() && l.InBounds(x, y)
    ensures p.flipped <= r.flipped && p.flips <= r.flips
    ensures (x, y) in r.flipped
    decreases AllCells(l) - p.flipped, 0, 0
  {
    if (x, y) in p.flipped then p
    else
      InAllCells(l, x, y);
      var p1 := Progress(p.flipped + {(x, y)}, p.flips + [TransitionAt(x, y, ox, oy)]);
      if Count(l, x, y) > 0 then p1
      else FillRows(l, ox, oy, MinY(y), MaxY(l, y), MinX(x), MaxX(l, x), p1)
  }

  /** Rows j .. maxy of a window, columns minx .. maxx. */
  function FillRows(l: Layout, ox: int, oy: int, j: int, maxy: int, minx: int, maxx: int,
                    p: Progress): (r: Progress)
    requires l.WellFormed() && 0 <= j && maxy < l.h && 0 <= minx && maxx < l.w
    ensures p.flipped <= r.flipped && p.flips <= r.flips
    decreases AllCells(l) - p.flipped, 2, maxy + 1 - j
  {
    if j > maxy then p
    else FillRows(l, ox, oy, j + 1, maxy, minx, maxx, FillCols(l, ox, oy, minx, maxx, j, p))
  }

  /** Columns i .. maxx of row j of a window. */
  function FillCols(l: Layout, ox: int, oy: int, i: int, maxx: int, j: int,
                    p: Progress): (r: Progress)
    requires l.WellFormed() && 0 <= i && maxx < l.w && 0 <= j < l.h
    ensures p.flipped <= r.flipped && p.flips <= r.flips
    decreases AllCells(l) - p.flipped, 1, maxx + 1 - i
  {
    if i > maxx then p
    else FillCols(l, ox, oy, i + 1, maxx, j, Fill(l, ox, oy, i, j, p))
  }

  /** The two places the fill stops: a face-up tile changes nothing and
      logs nothing; a face-down tile with a positive count is flipped and
      logged, with its squared distance from the click, and does not expand. */
  lemma FillStops(l: Layout, ox: int, oy: int, x: int, y: int, p: Progress)
    requires l.WellFormed() && l.InBounds(x, y)
    ensures (x, y) in p.flipped ==> Fill(l, ox, oy, x, y, p) == p
    ensures (x, y) !in p.flipped && Count(l, x, y) > 0 ==>
            Fill(l, ox, oy, x, y, p) ==
            Progress(p.flipped + {(x, y)}, p.flips + [Transition(x, y, (x - ox) * (x - ox) + (y - oy) * (y - oy))])
  {
  }

  // ---------------------------------------------------------------------
  // Each newly flipped tile is logged exactly once.

  /** The cells a list of transitions names. */
  function Cells(s: seq<Transition>): set<Cell> {
    set k | 0 <= k < |s| :: (s[k].x, s[k].y)
  }

  predicate Distinct(s: seq<Transition>) {
    forall a, b :: 0 <= a < b < |s| ==> (s[a].x, s[a].y) != (s[b].x, s[b].y)
  }

  /** Going from p to r only adds, and the transitions appended name each
      newly flipped cell exactly once. */
  ghost predicate LogsNewOnce(p: Progress, r: Progress) {
    p.flipped <= r.flipped && p.flips <= r.flips &&
    Cells(r.flips[|p.flips|..]) == r.flipped - p.flipped &&
    Distinct(r.flips[|p.flips|..])
  }

  lemma LogsNewOnceTrans(p: Progress, q: Progress, r: Progress)
    requires LogsNewOnce(p, q) && LogsNewOnce(q, r)
    ensures LogsNewOnce(p, r)
  {
    var a := q.flips[|p.flips|..];
    var b := r.flips[|q.flips|..];
    assert r.flips[|p.flips|..] == a + b;
    assert Cells(a + b) == Cells(a) + Cells(b) by {
      forall c | c in Cells(a + b) ensures c in Cells(a) + Cells(b) {
        var k :| 0 <= k < |a + b| && c == ((a + b)[k].x, (a + b)[k].y);
        if k < |a| { assert (a + b)[k] == a[k]; } else { assert (a + b)[k] == b[k - |a|]; }
      }
      forall c | c in Cells(a) ensures c in Cells(a + b) {
        var k :| 0 <= k < |a| && c == (a[k].x, a[k].y);
        assert (a + b)[k] == a[k];
      }
      forall c | c in Cells(b) ensures c in Cells(a + b) {
        var k :| 0 <= k < |b| && c == (b[k].x, b[k].y);
        assert (a + b)[|a| + k] == b[k];
      }
    }
    forall i, k | 0 <= i < k < |a + b|
      ensures ((a + b)[i].x, (a + b)[i].y) != ((a + b)[k].x, (a + b)[k].y)
    {
      if k < |a| {
        assert (a + b)[i] == a[i] && (a + b)[k] == a[k];
      } else if i >= |a| {
        assert (a + b)[i] == b[i - |a|] && (a + b)[k] == b[k - |a|];
      } else {
        assert (a + b)[i] == a[i] && (a + b)[k] == b[k - |a|];
        assert (a[i].x, a[i].y) in Cells(a);
        assert (b[k - |a|].x, b[k - |a|].y) in Cells(b);
      }
    }
  }

  lemma FirstFlipLogsOnce(p: Progress, e: Transition)
    requires (e.x, e.y) !in p.flipped
    ensures LogsNewOnce(p, Progress(p.flipped + {(e.x, e.y)}, p.flips + [e]))
  {
    var r := Progress(p.flipped + {(e.x, e.y)}, p.flips + [e]);
    assert r.flips[|p.flips|..] == [e];
    assert Cells([e]) == {(e.x, e.y)} by {
      assert ([e][0].x, [e][0].y) in Cells([e]);
    }
    assert r.flipped - p.flipped == {(e.x, e.y)};
  }

  /** Each tile a fill newly flips is appended to the transitions exactly
      once, and nothing else is appended. */
  lemma {:induction false} FillLogsOnce(l: Layout, ox: int, oy: int, x: int, y: int, p: Progress)
    requires l.WellFormed() && l.InBounds(x, y)
    ensures LogsNewOnce(p, Fill(l, ox, oy, x, y, p))
    decreases AllCells(l) - p.flipped, 0, 0
  {
    if (x, y) in p.flipped {
      assert p.flips[|p.flips|..] == [];
    } else {
      InAllCells(l, x, y);
      var p1 := Progress(p.flipped + {(x, y)}, p.flips + [TransitionAt(x, y, ox, oy)]);
      FirstFlipLogsOnce(p, TransitionAt(x, y, ox, oy));
      if Count(l, x, y) == 0 {
        FillRowsLogsOnce(l, ox, oy, MinY(y), MaxY(l, y), MinX(x), MaxX(l, x), p1);
        LogsNewOnceTrans(p, p1, Fill(l, ox, oy, x, y, p));
      }
    }
  }

  lemma {:induction false} FillRowsLogsOnce(l: Layout, ox: int, oy: int, j: int, maxy: int,
                                            minx: int, maxx: int, p: Progress)
    requires l.WellFormed() && 0 <= j && maxy < l.h && 0 <= minx && maxx < l.w
    ensures LogsNewOnce(p, FillRows(l, ox, oy, j, maxy, minx, maxx, p))
    decreases AllCells(l) - p.flipped, 2, maxy + 1 - j
  {
    if j > maxy {
      assert p.flips[|p.flips|..] == [];
    } else {
      var q := FillCols(l, ox, oy, minx, maxx, j, p);
      FillColsLogsOnce(l, ox, oy, minx, maxx, j, p);
      FillRowsLogsOnce(l, ox, oy, j + 1, maxy, minx, maxx, q);
      LogsNewOnceTrans(p, q, FillRows(l, ox, oy, j + 1, maxy, minx, maxx, q));
    }
  }

  lemma {:induction false} FillColsLogsOnce(l: Layout, ox: int, oy: int, i: int, maxx: int,
                                            j: int, p: Progress)
    requires l.WellFormed() && 0 <= i && maxx < l.w && 0 <= j < l.h
    ensures LogsNewOnce(p, FillCols(l, ox, oy, i, maxx, j, p))
    decreases AllCells(l) - p.flipped, 1, maxx + 1 - i
  {
    if i > maxx {
      assert p.flips[|p.flips|..] == [];
    } else {
      var q := Fill(l, ox, oy, i, j, p);
      FillLogsOnce(l, ox, oy, i, j, p);
      FillColsLogsOnce(l, ox, oy, i + 1, maxx, j, q);
      LogsNewOnceTrans(p, q, FillCols(l, ox, oy, i + 1, maxx, j, q));
    }
  }

  /** A list whose entries name distinct cells is as long as the set of
      cells it names. */
  lemma {:induction false} DistinctSize(s: seq<Transition>)
    requires Distinct(s)
    ensures |Cells(s)| == |s|
  {
    if s != [] {
      var t := s[..|s| - 1];
      assert Distinct(t) by {
        forall a, b | 0 <= a < b < |t| ensures (t[a].x, t[a].y) != (t[b].x, t[b].y) {
          assert t[a] == s[a] && t[b] == s[b];
        }
      }
      DistinctSize(t);
      var last := (s[|s| - 1].x, s[|s| - 1].y);
      assert Cells(s) == Cells(t) + {last} by {
        forall c | c in Cells(s) ensures c in Cells(t) + {last} {
          var k :| 0 <= k < |s| && c == (s[k].x, s[k].y);
          if k < |t| { assert s[k] == t[k]; }
        }
        forall c | c in Cells(t) ensures c in Cells(s) {
          var k :| 0 <= k < |t| && c == (t[k].x, t[k].y);
          assert s[k] == t[k];
        }
      }
      assert last !in Cells(t) by {
        forall k | 0 <= k < |t| ensures (t[k].x, t[k].y) != last {
          assert t[k] == s[k];
        }
      }
    }
  }

  /** The transitions a fill appends are exactly as many as the tiles it
      newly flips. */
  lemma FillLogLength(l: Layout, ox: int, oy: int, x: int, y: int, p: Progress)
    requires l.WellFormed() && l.InBounds(x, y)
    ensures var r := Fill(l, ox, oy, x, y, p);
            |r.flips| - |p.flips| == |r.flipped - p.flipped|
  {
    var r := Fill(l, ox, oy, x, y, p);
    FillLogsOnce(l, ox, oy, x, y, p);
    DistinctSize(r.flips[|p.flips|..]);
  }

  // ---------------------------------------------------------------------
  // A fill rooted at a safe tile never flips a bomb.

  ghost predicate SafeCells(l: Layout, s: set<Cell>)
    requires l.WellFormed()
  {
    forall c :: c in s ==> l.InBounds(c.0, c.1) && !l.bomb[c.0][c.1]
  }

  /** Only zero-count tiles expand, and a safe zero-count tile has no bomb
      in its window, so everything the fill reaches is safe. */
  lemma {:induction false} FillNeverFlipsBomb(l: Layout, ox: int, oy: int, x: int, y: int, p: Progress)
    requires l.WellFormed() && l.InBounds(x, y) && !l.bomb[x][y]
    ensures SafeCells(l, Fill(l, ox, oy, x, y, p).flipped - p.flipped)
    decreases AllCells(l) - p.flipped, 0, 0
  {
    if (x, y) !in p.flipped {
      InAllCells(l, x, y);
      var p1 := Progress(p.flipped + {(x, y)}, p.flips + [TransitionAt(x, y, ox, oy)]);
      if Count(l, x, y) == 0 {
        forall i, j | MinX(x) <= i <= MaxX(l, x) && MinY(y) <= j <= MaxY(l, y)
          ensures !l.bomb[i][j]
        {
          ZeroCountMeansNoBombAround(l, x, y, i, j);
        }
        FillRowsNeverFlipsBomb(l, ox, oy, MinY(y), MaxY(l, y), MinX(x), MaxX(l, x), p1);
      }
    }
  }

  lemma {:induction false} FillRowsNeverFlipsBomb(l: Layout, ox: int, oy: int, j: int, maxy: int,
                                                  minx: int, maxx: int, p: Progress)
    requires l.WellFormed() && 0 <= j && maxy < l.h && 0 <= minx && maxx < l.w
    requires forall i, k :: minx <= i <= maxx && j <= k <= maxy ==> !l.bomb[i][k]
    ensures SafeCells(l, FillRows(l, ox, oy, j, maxy, minx, maxx, p).flipped - p.flipped)
    decreases AllCells(l) - p.flipped, 2, maxy + 1 - j
  {
    if j <= maxy {
      var q := FillCols(l, ox, oy, minx, maxx, j, p);
      FillColsNeverFlipsBomb(l, ox, oy, minx, maxx, j, p);
      FillRowsNeverFlipsBomb(l, ox, oy, j + 1, maxy, minx, maxx, q);
    }
  }

  lemma {:induction false} FillColsNeverFlipsBomb(l: Layout, ox: int, oy: int, i: int, maxx: int,
                                                  j: int, p: Progress)
    requires l.WellFormed() && 0 <= i && maxx < l.w && 0 <= j < l.h
    requires forall k :: i <= k <= maxx ==> !l.bomb[k][j]
    ensures SafeCells(l, FillCols(l, ox, oy, i, maxx, j, p).flipped - p.flipped)
    decreases AllCells(l) - p.flipped, 1, maxx + 1 - i
  {
    if i <= maxx {
      var q := Fill(l, ox, oy, i, j, p);
      FillNeverFlipsBomb(l, ox, oy, i, j, p);
      FillColsNeverFlipsBomb(l, ox, oy, i + 1, maxx, j, q);
    }
  }

  // ---------------------------------------------------------------------
  // Closure: a newly flipped zero-count tile has all its neighbours flipped.

  /** Reference definition: the grid cells at most one step away from (x, y)
      in each direction, (x, y) included. */
  function Neighbours(l: Layout, x: int, y: int): set<Cell> {
    set i, j | 0 <= i < l.w && 0 <= j < l.h && x - 1 <= i <= x + 1 && y - 1 <= j <= y + 1 :: (i, j)
  }

  ghost predicate IsZero(l: Layout, c: Cell)
    requires l.WellFormed()
  {
    l.InBounds(c.0, c.1) && Count(l, c.0, c.1) == 0
  }

  /** Every zero-count cell of s has all its neighbours in t. */
  ghost predicate ZeroClosed(l: Layout, s: set<Cell>, t: set<Cell>)
    requires l.WellFormed()
  {
    forall c :: c in s && IsZero(l, c) ==> Neighbours(l, c.0, c.1) <= t
  }

  lemma {:induction false} FillRowsCovers(l: Layout, ox: int, oy: int, j: int, maxy: int,
                                          minx: int, maxx: int, p: Progress)
    requires l.WellFormed() && 0 <= j && maxy < l.h && 0 <= minx && maxx < l.w
    ensures forall i, k :: minx <= i <= maxx && j <= k <= maxy ==>
              (i, k) in FillRows(l, ox, oy, j, maxy, minx, maxx, p).flipped
    decreases maxy + 1 - j
  {
    if j <= maxy {
      var q := FillCols(l, ox, oy, minx, maxx, j, p);
      FillColsCovers(l, ox, oy, minx, maxx, j, p);
      FillRowsCovers(l, ox, oy, j + 1, maxy, minx, maxx, q);
    }
  }

  lemma {:induction false} FillColsCovers(l: Layout, ox: int, oy: int, i: int, maxx: int,
                                          j: int, p: Progress)
    requires l.WellFormed() && 0 <= i && maxx < l.w && 0 <= j < l.h
    ensures forall k :: i <= k <= maxx ==> (k, j) in FillCols(l, ox, oy, i, maxx, j, p).flipped
    decreases maxx + 1 - i
  {
    if i <= maxx {
      var q := Fill(l, ox, oy, i, j, p);
      FillColsCovers(l, ox, oy, i + 1, maxx, j, q);
    }
  }

  /** After a fill every newly flipped tile with count 0 has every in-bounds
      neighbour flipped. */
  lemma {:induction false} FillClosed(l: Layout, ox: int, oy: int, x: int, y: int, p: Progress)
    requires l.WellFormed() && l.InBounds(x, y)
    ensures var r := Fill(l, ox, oy, x, y, p);
            ZeroClosed(l, r.flipped - p.flipped, r.flipped)
    decreases AllCells(l) - p.flipped, 0, 0
  {
    if (x, y) !in p.flipped {
      InAllCells(l, x, y);
      var p1 := Progress(p.flipped + {(x, y)}, p.flips + [TransitionAt(x, y, ox, oy)]);
      if Count(l, x, y) == 0 {
        var r := Fill(l, ox, oy, x, y, p);
        FillRowsClosed(l, ox, oy, MinY(y), MaxY(l, y), MinX(x), MaxX(l, x), p1);
        FillRowsCovers(l, ox, oy, MinY(y), MaxY(l, y), MinX(x), MaxX(l, x), p1);
        assert Neighbours(l, x, y) <= r.flipped;
      }
    }
  }

  lemma {:induction false} FillRowsClosed(l: Layout, ox: int, oy: int, j: int, maxy: int,
                                          minx: int, maxx: int, p: Progress)
    requires l.WellFormed() && 0 <= j && maxy < l.h && 0 <= minx && maxx < l.w
    ensures var r := FillRows(l, ox, oy, j, maxy, minx, maxx, p);
            ZeroClosed(l, r.flipped - p.flipped, r.flipped)
    decreases AllCells(l) - p.flipped, 2, maxy + 1 - j
  {
    if j <= maxy {
      var q := FillCols(l, ox, oy, minx, maxx, j, p);
      FillColsClosed(l, ox, oy, minx, maxx, j, p);
      FillRowsClosed(l, ox, oy, j + 1, maxy, minx, maxx, q);
    }
  }

  lemma {:induction false} FillColsClosed(l: Layout, ox: int, oy: int, i: int, maxx: int,
                                          j: int, p: Progress)
    requires l.WellFormed() && 0 <= i && maxx < l.w && 0 <= j < l.h
    ensures var r := FillCols(l, ox, oy, i, maxx, j, p);
            ZeroClosed(l, r.flipped - p.flipped, r.flipped)
    decreases AllCells(l) - p.flipped, 1, maxx + 1 - i
  {
    if i <= maxx {
      var q := Fill(l, ox, oy, i, j, p);
      FillClosed(l, ox, oy, i, j, p);
      FillColsClosed(l, ox, oy, i + 1, maxx, j, q);
    }
  }

  // ---------------------------------------------------------------------
  // Soundness: the fill spreads only through zero-count tiles.

  /** d is at most one step from c in each direction (d may be c itself):
      the arithmetic form of Neighbours, as the next lemma shows. */
  predicate Adjacent(c: Cell, d: Cell) {
    c.0 - 1 <= d.0 <= c.0 + 1 && c.1 - 1 <= d.1 <= c.1 + 1
  }

  lemma NeighboursAreAdjacent(l: Layout, x: int, y: int, c: Cell)
    ensures c in Neighbours(l, x, y) <==> l.InBounds(c.0, c.1) && Adjacent((x, y), c)
  {
    if l.InBounds(c.0, c.1) && Adjacent((x, y), c) {
      assert (c.0, c.1) in Neighbours(l, x, y);
    }
  }

  /** Every entry of the log s names a cell of w or a cell adjacent to one
      logged earlier in s whose count is 0. */
  ghost predicate Chained(l: Layout, s: seq<Transition>, w: set<Cell>)
    requires l.WellFormed()
  {
    forall k :: 0 <= k < |s| ==>
      (s[k].x, s[k].y) in w ||
      exists i :: 0 <= i < k && IsZero(l, (s[i].x, s[i].y)) && Adjacent((s[i].x, s[i].y), (s[k].x, s[k].y))
  }

  /** The log s spreads from c through zero-count tiles only: its first
      entry is c, and every later entry is adjacent to a zero-count entry
      logged before it. */
  ghost predicate SpreadsFrom(l: Layout, s: seq<Transition>, c: Cell)
    requires l.WellFormed()
  {
    (s != [] ==> (s[0].x, s[0].y) == c) &&
    forall k :: 0 < k < |s| ==>
      exists i :: 0 <= i < k && IsZero(l, (s[i].x, s[i].y)) && Adjacent((s[i].x, s[i].y), (s[k].x, s[k].y))
  }

  lemma ChainedAppend(l: Layout, a: seq<Transition>, b: seq<Transition>, w: set<Cell>)
    requires l.WellFormed() && Chained(l, a, w) && Chained(l, b, w)
    ensures Chained(l, a + b, w)
  {
    var s := a + b;
    forall k | 0 <= k < |s| && (s[k].x, s[k].y) !in w
      ensures exists i :: 0 <= i < k && IsZero(l, (s[i].x, s[i].y)) && Adjacent((s[i].x, s[i].y), (s[k].x, s[k].y))
    {
      if k < |a| {
        assert s[k] == a[k];
        var i :| 0 <= i < k && IsZero(l, (a[i].x, a[i].y)) && Adjacent((a[i].x, a[i].y), (a[k].x, a[k].y));
        assert s[i] == a[i];
      } else {
        var k' := k - |a|;
        assert s[k] == b[k'];
        var i :| 0 <= i < k' && IsZero(l, (b[i].x, b[i].y)) && Adjacent((b[i].x, b[i].y), (b[k'].x, b[k'].y));
        assert s[|a| + i] == b[i];
      }
    }
  }

  /** Entry k of a log s whose first entry has count 0 and whose rest is
      chained from the first entry's window is adjacent to an earlier
      zero-count entry. */
  lemma ChainedStep(l: Layout, s: seq<Transition>, k: int)
    requires l.WellFormed() && 0 < k < |s| && IsZero(l, (s[0].x, s[0].y))
    requires Chained(l, s[1..], Neighbours(l, s[0].x, s[0].y))
    ensures exists i :: 0 <= i < k && IsZero(l, (s[i].x, s[i].y)) && Adjacent((s[i].x, s[i].y), (s[k].x, s[k].y))
  {
    var b := s[1..];
    assert s[k] == b[k - 1];
    if (b[k - 1].x, b[k - 1].y) !in Neighbours(l, s[0].x, s[0].y) {
      var i :| 0 <= i < k - 1 && IsZero(l, (b[i].x, b[i].y)) && Adjacent((b[i].x, b[i].y), (b[k - 1].x, b[k - 1].y));
      assert s[i + 1] == b[i];
    }
  }

  /** A log whose first entry has count 0 and whose rest is chained from
      that entry's window: every later entry is adjacent to an earlier
      zero-count one. */
  lemma ChainedFromZero(l: Layout, s: seq<Transition>)
    requires l.WellFormed() && |s| > 0 && IsZero(l, (s[0].x, s[0].y))
    requires Chained(l, s[1..], Neighbours(l, s[0].x, s[0].y))
    ensures SpreadsFrom(l, s, (s[0].x, s[0].y))
  {
    forall k | 0 < k < |s|
      ensures exists i :: 0 <= i < k && IsZero(l, (s[i].x, s[i].y)) && Adjacent((s[i].x, s[i].y), (s[k].x, s[k].y))
    {
      ChainedStep(l, s, k);
    }
  }

  /** The fill spreads only through zero-count tiles: the first tile it logs
      is (x, y), and every later one is a neighbour of a tile with count 0
      logged before it. A numbered tile is never stepped past. */
  lemma {:induction false} FillBoundedByNumbers(l: Layout, ox: int, oy: int, x: int, y: int, p: Progress)
    requires l.WellFormed() && l.InBounds(x, y)
    ensures SpreadsFrom(l, Fill(l, ox, oy, x, y, p).flips[|p.flips|..], (x, y))
    decreases AllCells(l) - p.flipped, 0, 0
  {
    var r := Fill(l, ox, oy, x, y, p);
    var s := r.flips[|p.flips|..];
    if (x, y) in p.flipped {
      assert s == [];
    } else {
      InAllCells(l, x, y);
      var e := TransitionAt(x, y, ox, oy);
      var p1 := Progress(p.flipped + {(x, y)}, p.flips + [e]);
      if Count(l, x, y) == 0 {
        var w := Neighbours(l, x, y);
        assert r == FillRows(l, ox, oy, MinY(y), MaxY(l, y), MinX(x), MaxX(l, x), p1);
        FillRowsBoundedByNumbers(l, ox, oy, MinY(y), MaxY(l, y), MinX(x), MaxX(l, x), p1, w);
        var b := r.flips[|p1.flips|..];
        AppendedSplit(p.flips, p1.flips, r.flips);
        assert p1.flips[|p.flips|..] == [e];
        assert s[0] == e && s[1..] == b;
        ChainedFromZero(l, s);
      } else {
        assert s == [e];
      }
    }
  }

  /** The entries appended after a, when b extends a and c extends b, are
      those appended up to b followed by those appended after b. */
  lemma AppendedSplit(a: seq<Transition>, b: seq<Transition>, c: seq<Transition>)
    requires a <= b <= c
    ensures c[|a|..] == b[|a|..] + c[|b|..]
  {
  }

  /** A log that starts at a cell of w and spreads through zero-count
      tiles from there is chained from w. */
  lemma RootedIsChained(l: Layout, s: seq<Transition>, c: Cell, w: set<Cell>)
    requires l.WellFormed() && c in w
    requires SpreadsFrom(l, s, c)
    ensures Chained(l, s, w)
  {
  }

  lemma RootedThenChained(l: Layout, a: seq<Transition>, b: seq<Transition>, c: Cell, w: set<Cell>)
    requires l.WellFormed() && c in w && SpreadsFrom(l, a, c) && Chained(l, b, w)
    ensures Chained(l, a + b, w)
  {
    RootedIsChained(l, a, c, w);
    ChainedAppend(l, a, b, w);
  }

  /** The window loop: every tile it logs is a window cell or a neighbour
      of a zero-count tile it logged earlier. */
  lemma {:induction false} FillRowsBoundedByNumbers(l: Layout, ox: int, oy: int, j: int, maxy: int,
                                                    minx: int, maxx: int, p: Progress, w: set<Cell>)
    requires l.WellFormed() && 0 <= j && maxy < l.h && 0 <= minx && maxx < l.w
    requires forall i, k :: minx <= i <= maxx && j <= k <= maxy ==> (i, k) in w
    ensures Chained(l, FillRows(l, ox, oy, j, maxy, minx, maxx, p).flips[|p.flips|..], w)
    decreases AllCells(l) - p.flipped, 2, maxy + 1 - j
  {
    var r := FillRows(l, ox, oy, j, maxy, minx, maxx, p);
    if j > maxy {
      assert r.flips[|p.flips|..] == [];
    } else {
      var q := FillCols(l, ox, oy, minx, maxx, j, p);
      FillColsBoundedByNumbers(l, ox, oy, minx, maxx, j, p, w);
      FillRowsBoundedByNumbers(l, ox, oy, j + 1, maxy, minx, maxx, q, w);
      AppendedSplit(p.flips, q.flips, r.flips);
      ChainedAppend(l, q.flips[|p.flips|..], r.flips[|q.flips|..], w);
    }
  }

  /** The row loop: the same, for one row of the window. */
  lemma {:induction false} FillColsBoundedByNumbers(l: Layout, ox: int, oy: int, i: int, maxx: int,
                                                    j: int, p: Progress, w: set<Cell>)
    requires l.WellFormed() && 0 <= i && maxx < l.w && 0 <= j < l.h
    requires forall k :: i <= k <= maxx ==> (k, j) in w
    ensures Chained(l, FillCols(l, ox, oy, i, maxx, j, p).flips[|p.flips|..], w)
    decreases AllCells(l) - p.flipped, 1, maxx + 1 - i
  {
    var r := FillCols(l, ox, oy, i, maxx, j, p);
    if i > maxx {
      assert r.flips[|p.flips|..] == [];
    } else {
      var q := Fill(l, ox, oy, i, j, p);
      var a := q.flips[|p.flips|..];
      var b := r.flips[|q.flips|..];
      FillBoundedByNumbers(l, ox, oy, i, j, p);
      FillColsBoundedByNumbers(l, ox, oy, i + 1, maxx, j, q, w);
      AppendedSplit(p.flips, q.flips, r.flips);
      RootedThenChained(l, a, b, (i, j), w);
    }
  }
}
