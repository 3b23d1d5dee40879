/** The board controller of both FXMLController classes, with the rendering
    taken out: a minefield, a grid of tiles over it, and the click handlers
    that flip and flag those tiles. The two classes run the same logic; the
    Config they are built from holds what differs between them. */
module Controllers {
  import opened Counting
  import opened Field
  import opened Tiles
  import opened Flood
  import opened Game

  /** Board dimensions, bomb density, the flip delay in hundredths of a
      second per tile of distance from the click, and the label palette. */
  datatype Config = Config(colTiles: nat, rowTiles: nat, pctBombs: real,
                           delayHundredths: nat, palette: Palette)

  // The two configurations below record the constants of the two
  // controllers; every member takes its Config as a parameter instead.

  /** rwt.minesweeper: the options dialog picks the dimensions and the
      density (20 x 20 and 0.1 at start); flips are staggered by 0.04 s per
      tile of distance and labels are colour graded. */
  function ResizableConfig(colTiles: nat, rowTiles: nat, pctBombs: real): Config {
    Config(colTiles, rowTiles, pctBombs, 4, Graded)
  }

  /** rwt.game.minesweeper: a fixed TILES x TILES board with density
      PCTBOMBS; flips are staggered by 0.02 s per tile and labels are blue. */
  const TILES: nat := 20
  const PCTBOMBS: real := 0.1
  const FixedConfig: Config := Config(TILES, TILES, PCTBOMBS, 2, AllBlue)

  class Controller {
    const config: Config
    const mineField: MineField
    const mineFieldView: array2<TileBox?>
    /** Where each tile sits: the inverse of mineFieldView, which makes the
        tiles pairwise distinct. */
    ghost var tiles: map<TileBox, Cell>

    ghost function Layout(): Layout
      reads this
    {
      mineField.layout
    }

    /** Every grid cell holds its own tile. */
    ghost predicate ViewOk()
      reads this, mineFieldView
    {
      mineFieldView.Length0 == config.colTiles && mineFieldView.Length1 == config.rowTiles &&
      (forall x, y :: 0 <= x < config.colTiles && 0 <= y < config.rowTiles ==>
         mineFieldView[x, y] != null && mineFieldView[x, y] in tiles && tiles[mineFieldView[x, y]] == (x, y)) &&
      (forall t :: t in tiles ==>
         0 <= tiles[t].0 < config.colTiles && 0 <= tiles[t].1 < config.rowTiles &&
         mineFieldView[tiles[t].0, tiles[t].1] == t)
    }

    ghost predicate Valid()
      reads this, mineField, mineField.field, mineFieldView
    {
      mineField.Valid() && mineField.layout.w == config.colTiles && mineField.layout.h == config.rowTiles &&
      ViewOk()
    }

    /** The flipped tiles. */
    ghost function Flipped(): set<Cell>
      reads this, mineFieldView, tiles.Keys
      requires ViewOk()
    {
      set x, y | 0 <= x < config.colTiles && 0 <= y < config.rowTiles && mineFieldView[x, y].flipped :: (x, y)
    }

    /** The flagged tiles. */
    ghost function Flagged(): set<Cell>
      reads this, mineFieldView, tiles.Keys
      requires ViewOk()
    {
      set x, y | 0 <= x < config.colTiles && 0 <= y < config.rowTiles && mineFieldView[x, y].flagged :: (x, y)
    }

    ghost function Overlay(): Overlay
      reads this, mineFieldView, tiles.Keys
      requires ViewOk()
    {
      Game.Overlay(Flipped(), Flagged())
    }

    /** Cell (i, j) holds a new tile, registered at (i, j), with the label of
        the cell's count. */
    ghost predicate Placed(i: int, j: int)
      reads this, mineFieldView, tiles.Keys
      requires mineField.layout.WellFormed() && mineField.layout.InBounds(i, j)
      requires mineFieldView.Length0 == mineField.layout.w && mineFieldView.Length1 == mineField.layout.h
    {
      var t := mineFieldView[i, j];
      t != null && t in tiles && tiles[t] == (i, j) && !t.flipped && !t.flagged &&
      t.legend == LabelFor(config.palette, Count(mineField.layout, i, j))
    }

    /** setupBoard: a new minefield from the random draws and a fresh tile
        for every cell, labelled with the cell's count. */
    constructor (config: Config, draws: seq<seq<real>>)
      requires DrawsFit(config.colTiles, config.rowTiles, draws)
      ensures Valid() && fresh(mineFieldView)
      ensures forall t :: t in tiles ==> fresh(t)
      ensures this.config == config
      ensures Layout() == Placement(config.colTiles, config.rowTiles, config.pctBombs, draws)
      ensures Overlay() == Game.Overlay({}, {})
      ensures forall x, y :: 0 <= x < config.colTiles && 0 <= y < config.rowTiles ==>
                mineFieldView[x, y].legend == LabelFor(config.palette, Count(Layout(), x, y))
    {
      this.config := config;
      mineField := new MineField(config.colTiles, config.rowTiles, config.pctBombs, draws);
      mineFieldView := new TileBox?[config.colTiles, config.rowTiles];
      tiles := map[];
      new;
      var y := 0;
      while y < config.rowTiles
        invariant 0 <= y <= config.rowTiles
        invariant Built(y)
        invariant forall t :: t in tiles ==> fresh(t)
      {
        PlaceRow(y);
        y := y + 1;
      }
      forall i, j | 0 <= i < config.colTiles && 0 <= j < config.rowTiles
        ensures mineFieldView[i, j] != null && mineFieldView[i, j] in tiles && tiles[mineFieldView[i, j]] == (i, j)
        ensures !mineFieldView[i, j].flipped && !mineFieldView[i, j].flagged
        ensures mineFieldView[i, j].legend == LabelFor(config.palette, Count(Layout(), i, j))
      {
        assert Placed(i, j);
      }
    }

    /** Rows 0 .. y - 1 of the board hold their tiles and nothing else is registered. */
    ghost predicate Built(y: int)
      reads this, mineField, mineField.field, mineFieldView, tiles.Keys
    {
      mineField.Valid() && Layout().w == config.colTiles && Layout().h == config.rowTiles &&
      mineFieldView.Length0 == config.colTiles && mineFieldView.Length1 == config.rowTiles &&
      (forall i, j :: 0 <= i < config.colTiles && 0 <= j < config.rowTiles && j < y ==> Placed(i, j)) &&
      (forall t :: t in tiles ==>
         0 <= tiles[t].0 < config.colTiles && 0 <= tiles[t].1 < config.rowTiles && tiles[t].1 < y &&
         mineFieldView[tiles[t].0, tiles[t].1] == t)
    }

    /** One row of setupBoard's loop: a new tile for every cell of row y. */
    method PlaceRow(y: int)
      requires 0 <= y < config.rowTiles && Built(y)
      modifies this, mineFieldView
      ensures Built(y + 1)
      ensures forall t :: t in tiles && t !in old(tiles) ==> fresh(t)
    {
      var x := 0;
      while x < config.colTiles
        invariant 0 <= x <= config.colTiles
        invariant mineField.Valid() && Layout().w == config.colTiles && Layout().h == config.rowTiles
        invariant forall i, j ::
                    (0 <= i < config.colTiles && 0 <= j < config.rowTiles && (j < y || (j == y && i < x))) ==>
                    Placed(i, j)
        invariant forall t :: t in tiles ==>
                    0 <= tiles[t].0 < config.colTiles && 0 <= tiles[t].1 <= y &&
                    (tiles[t].1 == y ==> tiles[t].0 < x) &&
                    mineFieldView[tiles[t].0, tiles[t].1] == t
        invariant forall t :: t in tiles && t !in old(tiles) ==> fresh(t)
      {
        label before:
        var b := new TileBox(mineField.CountNeighbors(x, y), config.palette);
        assert b !in tiles;
        mineFieldView[x, y] := b;
        tiles := tiles[b := (x, y)];
        forall i, j | 0 <= i < config.colTiles && 0 <= j < config.rowTiles && (j < y || (j == y && i <= x))
          ensures Placed(i, j)
        {
          if (i, j) != (x, y) {
            assert old@before(Placed(i, j));
            assert mineFieldView[i, j] == old@before(mineFieldView[i, j]);
          }
        }
        x := x + 1;
      }
    }

    /** Turns tile (x, y) face up; the overlay changes at (x, y) alone. */
    method FlipTile(x: int, y: int)
      requires ViewOk() && 0 <= x < config.colTiles && 0 <= y < config.rowTiles
      modifies mineFieldView[x, y]
      ensures ViewOk()
      ensures Flipped() == old(Flipped()) + {(x, y)}
      ensures Flagged() == old(Flagged())
      ensures forall i, j :: 0 <= i < config.colTiles && 0 <= j < config.rowTiles ==>
                mineFieldView[i, j].flipped == ((i, j) == (x, y) || old(mineFieldView[i, j].flipped)) &&
                mineFieldView[i, j].flagged == old(mineFieldView[i, j].flagged)
    {
      ghost var flipped := Flipped();
      ghost var flagged := Flagged();
      mineFieldView[x, y].Flip();
      forall i, j | 0 <= i < config.colTiles && 0 <= j < config.rowTiles && (i, j) != (x, y)
        ensures mineFieldView[i, j].flipped == ((i, j) in flipped)
        ensures mineFieldView[i, j].flagged == ((i, j) in flagged)
      {
        assert tiles[mineFieldView[i, j]] == (i, j);
      }
    }

    /** recursiveFlip: flip (x, y) unless it is face up already, append its
        transition, and unless its count is positive go on into its clamped
        3x3 window. The transitions list is passed in and handed back. */
    method RecursiveFlip(x: int, y: int, ox: int, oy: int, flips: seq<Transition>) returns (out: seq<Transition>)
      requires Valid() && Layout().InBounds(x, y)
      modifies tiles.Keys
      ensures Valid()
      ensures Progress(Flipped(), out) == Fill(Layout(), ox, oy, x, y, Progress(old(Flipped()), flips))
      ensures Flagged() == old(Flagged())
      decreases AllCells(Layout()) - Flipped(), 0
    {
      if mineFieldView[x, y].flipped {
        return flips;
      }
      FlipTile(x, y);
      out := flips + [TransitionAt(x, y, ox, oy)];
      InAllCells(Layout(), x, y);
      if mineField.CountNeighbors(x, y) > 0 {
        return;
      }
      out := FlipWindow(x, y, ox, oy, out);
    }

    /** The outer loop of recursiveFlip over the clamped 3x3 window around
        a freshly flipped (x, y) whose count is 0: rows in increasing y. */
    method FlipWindow(x: int, y: int, ox: int, oy: int, flips: seq<Transition>)
      returns (out: seq<Transition>)
      requires Valid() && Layout().InBounds(x, y)
      modifies tiles.Keys
      ensures Valid()
      ensures Progress(Flipped(), out) ==
              FillRows(Layout(), ox, oy, MinY(y), MaxY(Layout(), y), MinX(x), MaxX(Layout(), x), Progress(old(Flipped()), flips))
      ensures Flagged() == old(Flagged())
      decreases AllCells(Layout()) - Flipped(), 2
    {
      ghost var l := Layout();
      ghost var target := FillRows(l, ox, oy, MinY(y), MaxY(l, y), MinX(x), MaxX(l, x), Progress(Flipped(), flips));
      out := flips;
      var minx := Max(x - 1, 0);
      var maxx := Min(x + 1, mineFieldView.Length0 - 1);
      var miny := Max(y - 1, 0);
      var maxy := Min(y + 1, mineFieldView.Length1 - 1);
      assert minx == MinX(x) && maxx == MaxX(l, x) && miny == MinY(y) && maxy == MaxY(l, y);
      var j := miny;
      while j <= maxy
        invariant miny <= j <= maxy + 1
        invariant Valid()
        invariant old(Flipped()) <= Flipped()
        invariant FillRows(l, ox, oy, j, maxy, minx, maxx, Progress(Flipped(), out)) == target
        invariant Flagged() == old(Flagged())
      {
        ghost var p := Progress(Flipped(), out);
        out := FlipWindowRow(minx, maxx, j, ox, oy, out);
        assert FillRows(l, ox, oy, j, maxy, minx, maxx, p) ==
               FillRows(l, ox, oy, j + 1, maxy, minx, maxx, Progress(Flipped(), out));
        j := j + 1;
      }
    }

    /** The inner loop of recursiveFlip: row j of the window, columns minx
        .. maxx in increasing x. */
    method FlipWindowRow(minx: int, maxx: int, j: int, ox: int, oy: int, flips: seq<Transition>)
      returns (out: seq<Transition>)
      requires Valid() && 0 <= minx <= maxx < Layout().w && 0 <= j < Layout().h
      modifies tiles.Keys
      ensures Valid()
      ensures Progress(Flipped(), out) == FillCols(Layout(), ox, oy, minx, maxx, j, Progress(old(Flipped()), flips))
      ensures Flagged() == old(Flagged())
      decreases AllCells(Layout()) - Flipped(), 1
    {
      ghost var l := Layout();
      ghost var target := FillCols(l, ox, oy, minx, maxx, j, Progress(Flipped(), flips));
      out := flips;
      var i := minx;
      while i <= maxx
        invariant minx <= i <= maxx + 1
        invariant Valid()
        invariant old(Flipped()) <= Flipped()
        invariant FillCols(l, ox, oy, i, maxx, j, Progress(Flipped(), out)) == target
        invariant Flagged() == old(Flagged())
      {
        ghost var p := Progress(Flipped(), out);
        out := RecursiveFlip(i, j, ox, oy, out);
        ghost var q := Progress(Flipped(), out);
        assert q == Fill(l, ox, oy, i, j, p);
        assert FillCols(l, ox, oy, i, maxx, j, p) == FillCols(l, ox, oy, i + 1, maxx, j, q);
        i := i + 1;
      }
    }

    /** Sets off tile (x, y), which turns it face up; only that tile changes. */
    method ExplodeTile(x: int, y: int, diffX: int, diffY: int)
      requires ViewOk() && 0 <= x < config.colTiles && 0 <= y < config.rowTiles
      modifies mineFieldView[x, y]
      ensures ViewOk()
      ensures forall i, j :: 0 <= i < config.colTiles && 0 <= j < config.rowTiles ==>
                mineFieldView[i, j].flipped == ((i, j) == (x, y) || old(mineFieldView[i, j].flipped)) &&
                mineFieldView[i, j].flagged == old(mineFieldView[i, j].flagged)
    {
      mineFieldView[x, y].Explode(diffX, diffY);
      forall i, j | 0 <= i < config.colTiles && 0 <= j < config.rowTiles && (i, j) != (x, y)
        ensures mineFieldView[i, j] != mineFieldView[x, y]
      {
        assert tiles[mineFieldView[i, j]] == (i, j);
      }
    }

    /** Every tile is face up. */
    lemma AllFlipped()
      requires Valid()
      requires forall i, j :: 0 <= i < config.colTiles && 0 <= j < config.rowTiles ==> mineFieldView[i, j].flipped
      ensures Flipped() == AllCells(Layout())
    {
      forall c | c in AllCells(Layout()) ensures c in Flipped() {
        InAllCells(Layout(), c.0, c.1);
      }
      forall c | c in Flipped() ensures c in AllCells(Layout()) {
        InAllCells(Layout(), c.0, c.1);
      }
    }

    /** handleExplosion: every tile explodes, each with its offset from the
        bomb at (x, y); afterwards every tile is face up and no flag changed. */
    method HandleExplosion(x: int, y: int)
      requires Valid() && Layout().InBounds(x, y)
      modifies tiles.Keys
      ensures Valid()
      ensures Flipped() == AllCells(Layout())
      ensures Flagged() == old(Flagged())
    {
      ghost var flags := Flagged();
      var mfy := 0;
      while mfy < config.rowTiles
        invariant 0 <= mfy <= config.rowTiles
        invariant Valid()
        invariant forall i, j :: 0 <= i < config.colTiles && 0 <= j < config.rowTiles ==>
                    (j < mfy ==> mineFieldView[i, j].flipped) &&
                    mineFieldView[i, j].flagged == old(mineFieldView[i, j].flagged)
      {
        var mfx := 0;
        while mfx < config.colTiles
          invariant 0 <= mfx <= config.colTiles
          invariant Valid()
          invariant forall i, j :: 0 <= i < config.colTiles && 0 <= j < config.rowTiles ==>
                      (j < mfy || (j == mfy && i < mfx) ==> mineFieldView[i, j].flipped) &&
                      mineFieldView[i, j].flagged == old(mineFieldView[i, j].flagged)
        {
          ExplodeTile(mfx, mfy, mfx - x, mfy - y);
          mfx := mfx + 1;
        }
        mfy := mfy + 1;
      }
      AllFlipped();
      assert Flagged() == flags;
    }

    /** checkForWin: if some face-down tile holds no bomb nothing happens;
        otherwise every tile is turned face up and the win is announced. */
    method CheckForWin() returns (won: bool)
      requires Valid()
      modifies tiles.Keys
      ensures Valid()
      ensures won == Won(Layout(), old(Flipped()))
      ensures Flipped() == if won then AllCells(Layout()) else old(Flipped())
      ensures Flagged() == old(Flagged())
    {
      ghost var f := Flipped();
      var y := 0;
      while y < config.rowTiles
        invariant 0 <= y <= config.rowTiles
        invariant forall i, j :: 0 <= i < config.colTiles && 0 <= j < y ==> (i, j) in f || Layout().bomb[i][j]
      {
        var x := 0;
        while x < config.colTiles
          invariant 0 <= x <= config.colTiles
          invariant forall i, j :: 0 <= i < config.colTiles && 0 <= j < config.rowTiles && (j < y || (j == y && i < x)) ==>
                      (i, j) in f || Layout().bomb[i][j]
        {
          if !mineFieldView[x, y].flipped && !mineField.HasBomb(x, y) {
            assert (x, y) !in f;
            return false;
          }
          assert (x, y) in f || Layout().bomb[x][y];
          x := x + 1;
        }
        y := y + 1;
      }
      assert Won(Layout(), f);
      FlipAll();
      won := true;
    }

    /** The second loop of checkForWin: every tile is turned face up. */
    method FlipAll()
      requires Valid()
      modifies tiles.Keys
      ensures Valid()
      ensures Flipped() == AllCells(Layout())
      ensures Flagged() == old(Flagged())
    {
      ghost var flags := Flagged();
      var y := 0;
      while y < config.rowTiles
        invariant 0 <= y <= config.rowTiles
        invariant Valid()
        invariant forall i, j :: 0 <= i < config.colTiles && 0 <= j < config.rowTiles ==>
                    (j < y ==> mineFieldView[i, j].flipped) &&
                    mineFieldView[i, j].flagged == old(mineFieldView[i, j].flagged)
      {
        var x := 0;
        while x < config.colTiles
          invariant 0 <= x <= config.colTiles
          invariant Valid()
          invariant forall i, j :: 0 <= i < config.colTiles && 0 <= j < config.rowTiles ==>
                      (j < y || (j == y && i < x) ==> mineFieldView[i, j].flipped) &&
                      mineFieldView[i, j].flagged == old(mineFieldView[i, j].flagged)
        {
          FlipTile(x, y);
          x := x + 1;
        }
        y := y + 1;
      }
      AllFlipped();
      assert Flagged() == flags;
    }

    /** handleNormalClick: the recursive flip from (x, y) with a fresh list. */
    method HandleNormalClick(x: int, y: int) returns (transitions: seq<Transition>)
      requires Valid() && Layout().InBounds(x, y)
      modifies tiles.Keys
      ensures Valid()
      ensures Progress(Flipped(), transitions) == Fill(Layout(), x, y, x, y, Progress(old(Flipped()), []))
      ensures Flagged() == old(Flagged())
    {
      transitions := RecursiveFlip(x, y, x, y, []);
    }

    /** handleClick: a flagged tile ignores the click; a bomb sets off the
        explosion; otherwise the flood flip runs and the board is checked for
        a win. Answers the transitions played, whether the board exploded
        and whether the win was announced. */
    method HandleClick(x: int, y: int) returns (flips: seq<Transition>, exploded: bool, won: bool)
      requires Valid() && Layout().InBounds(x, y)
      modifies tiles.Keys
      ensures Valid()
      ensures Outcome(Overlay(), flips, exploded, won) == Click(Layout(), old(Overlay()), x, y)
    {
      flips, exploded, won := [], false, false;
      if mineFieldView[x, y].flagged {
        assert (x, y) in Flagged();
        return;
      }
      assert (x, y) !in Flagged();
      if mineField.HasBomb(x, y) {
        HandleExplosion(x, y);
        exploded := true;
      } else {
        flips := HandleNormalClick(x, y);
        won := CheckForWin();
      }
    }

    /** handleRightClick: toggles the flag of tile (x, y). */
    method HandleRightClick(x: int, y: int)
      requires Valid() && Layout().InBounds(x, y)
      modifies mineFieldView[x, y]
      ensures Valid()
      ensures Overlay() == RightClick(old(Overlay()), x, y)
    {
      ghost var flipped := Flipped();
      ghost var flagged := Flagged();
      mineFieldView[x, y].Flag();
      forall i, j | 0 <= i < config.colTiles && 0 <= j < config.rowTiles && (i, j) != (x, y)
        ensures mineFieldView[i, j].flipped == ((i, j) in flipped)
        ensures mineFieldView[i, j].flagged == ((i, j) in flagged)
      {
        assert tiles[mineFieldView[i, j]] == (i, j);
      }
      assert Flipped() == flipped;
    }
  }
}
