/** The moves of both board controllers on the overlay of flipped and
    flagged tiles: a left click, a right click and the win check. */
module Game {
  import opened Counting
  import opened Flood

  datatype Overlay = Overlay(flipped: set<Cell>, flagged: set<Cell>)

  /** What a left click leaves behind: the new overlay, the transitions it
      plays, whether it set off the explosion and whether it announced a win. */
  datatype Outcome = Outcome(overlay: Overlay, flips: seq<Transition>, exploded: bool, won: bool)

  /** Every tile is flipped or holds a bomb; flags play no part. A board
      whose every tile is flipped is won. */
  predicate Won(l: Layout, flipped: set<Cell>): (r: bool)
    requires l.WellFormed()
    ensures AllCells(l) <= flipped ==> r
  {
    forall x, y :: 0 <= x < l.w && 0 <= y < l.h ==> (x, y) in flipped || l.bomb[x][y]
  }

  /** A left click at (x, y). A flagged tile ignores it. On a bomb every tile
      explodes, which flips it. Otherwise the tile is flood-flipped and the
      board is checked for a win, which flips every tile. No state of the
      game stops the click. */
  function Click(l: Layout, ov: Overlay, x: int, y: int): (o: Outcome)
    requires l.WellFormed() && l.InBounds(x, y)
    ensures o.exploded <==> (x, y) !in ov.flagged && l.bomb[x][y]
    ensures o.exploded ==> !o.won
    ensures o.overlay.flagged == ov.flagged
    ensures (x, y) !in ov.flagged ==> (x, y) in o.overlay.flipped
  {
    if (x, y) in ov.flagged then Outcome(ov, [], false, false)
    else if l.bomb[x][y] then Outcome(Overlay(AllCells(l), ov.flagged), [], true, false)
    else
      var p := Fill(l, x, y, x, y, Progress(ov.flipped, []));
      var won := Won(l, p.flipped);
      Outcome(Overlay(if won then AllCells(l) else p.flipped, ov.flagged), p.flips, false, won)
  }

  /** A right click toggles the flag of (x, y), flipped or not. */
  function RightClick(ov: Overlay, x: int, y: int): (r: Overlay)
    ensures r.flipped == ov.flipped
    ensures (x, y) in r.flagged <==> (x, y) !in ov.flagged
    ensures forall c :: c != (x, y) ==> (c in r.flagged <==> c in ov.flagged)
  {
    Overlay(ov.flipped, if (x, y) in ov.flagged then ov.flagged - {(x, y)} else ov.flagged + {(x, y)})
  }

  /** No bomb tile is flipped and nothing off the grid is. */
  ghost predicate BombsHidden(l: Layout, flipped: set<Cell>)
    requires l.WellFormed()
  {
    forall c :: c in flipped ==> l.InBounds(c.0, c.1) && !l.bomb[c.0][c.1]
  }

  /** A flagged tile is immune to a left click. */
  lemma FlaggedTileIgnoresClick(l: Layout, ov: Overlay, x: int, y: int)
    requires l.WellFormed() && l.InBounds(x, y) && (x, y) in ov.flagged
    ensures Click(l, ov, x, y) == Outcome(ov, [], false, false)
  {
  }

  /** A left click on an unflagged bomb flips every tile and changes no flag. */
  lemma BombClickFlipsAll(l: Layout, ov: Overlay, x: int, y: int)
    requires l.WellFormed() && l.InBounds(x, y) && (x, y) !in ov.flagged && l.bomb[x][y]
    ensures var o := Click(l, ov, x, y);
            o.exploded && o.overlay.flipped == AllCells(l) && o.overlay.flagged == ov.flagged
  {
  }

  /** A left click never turns a tile back over, never touches a flag and
      keeps the flipped tiles on the grid. */
  lemma ClickOnlyFlips(l: Layout, ov: Overlay, x: int, y: int)
    requires l.WellFormed() && l.InBounds(x, y) && ov.flipped <= AllCells(l)
    ensures var o := Click(l, ov, x, y);
            ov.flipped <= o.overlay.flipped <= AllCells(l) && o.overlay.flagged == ov.flagged
  {
    if (x, y) !in ov.flagged && !l.bomb[x][y] {
      var p := Fill(l, x, y, x, y, Progress(ov.flipped, []));
      FillNeverFlipsBomb(l, x, y, x, y, Progress(ov.flipped, []));
      forall c | c in p.flipped ensures c in AllCells(l) {
        if c !in ov.flipped {
          InAllCells(l, c.0, c.1);
        }
      }
    }
  }

  /** A winning click leaves every tile flipped; a click that does not win
      leaves some safe tile face down. */
  lemma ClickWinsIffAllSafeFlipped(l: Layout, ov: Overlay, x: int, y: int)
    requires l.WellFormed() && l.InBounds(x, y) && (x, y) !in ov.flagged && !l.bomb[x][y]
    ensures var o := Click(l, ov, x, y);
            o.won <==> Won(l, Fill(l, x, y, x, y, Progress(ov.flipped, [])).flipped)
    ensures var o := Click(l, ov, x, y);
            o.won ==> o.overlay.flipped == AllCells(l)
    ensures var o := Click(l, ov, x, y);
            !o.won ==> exists i, j :: l.InBounds(i, j) && !l.bomb[i][j] && (i, j) !in o.overlay.flipped
  {
  }

  /** While no bomb is showing, a click on a safe tile either wins or still
      shows no bomb. */
  lemma SafeClickKeepsBombsHidden(l: Layout, ov: Overlay, x: int, y: int)
    requires l.WellFormed() && l.InBounds(x, y) && !l.bomb[x][y]
    requires BombsHidden(l, ov.flipped)
    ensures var o := Click(l, ov, x, y);
            !o.exploded && (o.won || BombsHidden(l, o.overlay.flipped))
  {
    FillNeverFlipsBomb(l, x, y, x, y, Progress(ov.flipped, []));
  }

  /** The transitions of a click name every newly flipped tile once, the
      clicked tile first, and the click leaves that tile flipped. */
  lemma SafeClickTransitions(l: Layout, ov: Overlay, x: int, y: int)
    requires l.WellFormed() && l.InBounds(x, y) && (x, y) !in ov.flagged && !l.bomb[x][y]
    ensures var o := Click(l, ov, x, y);
            var p := Fill(l, x, y, x, y, Progress(ov.flipped, []));
            (x, y) in o.overlay.flipped &&
            Cells(o.flips) == p.flipped - ov.flipped && Distinct(o.flips) &&
            ((x, y) !in ov.flipped ==> |o.flips| > 0 && o.flips[0] == Transition(x, y, 0))
  {
    var p0 := Progress(ov.flipped, []);
    var p := Fill(l, x, y, x, y, p0);
    var o := Click(l, ov, x, y);
    assert o.flips == p.flips;
    assert o.overlay.flipped == if Won(l, p.flipped) then AllCells(l) else p.flipped;
    FillLogsOnce(l, x, y, x, y, p0);
    assert p.flips[|p0.flips|..] == p.flips;
    InAllCells(l, x, y);
    if (x, y) !in ov.flipped {
      FirstTransition(l, x, y, ov.flipped);
    }
  }

  lemma FirstTransition(l: Layout, x: int, y: int, flipped: set<Cell>)
    requires l.WellFormed() && l.InBounds(x, y) && (x, y) !in flipped
    ensures var p := Fill(l, x, y, x, y, Progress(flipped, []));
            |p.flips| > 0 && p.flips[0] == Transition(x, y, 0)
  {
    var p1 := Progress(flipped + {(x, y)}, [TransitionAt(x, y, x, y)]);
    var p := Fill(l, x, y, x, y, Progress(flipped, []));
    assert p1.flips <= p.flips;
  }

  /** Nothing ends the game: after an explosion every tile is flipped, so a
      later click on an unflagged safe tile flips nothing and announces a win. */
  lemma ClickAfterExplosionAnnouncesWin(l: Layout, ov: Overlay, x: int, y: int, i: int, j: int)
    requires l.WellFormed() && l.InBounds(x, y) && l.InBounds(i, j)
    requires (x, y) !in ov.flagged && l.bomb[x][y]
    requires (i, j) !in ov.flagged && !l.bomb[i][j]
    ensures var o := Click(l, Click(l, ov, x, y).overlay, i, j);
            o.won && o.flips == []
  {
    InAllCells(l, i, j);
  }

  /** Right clicks: only the flag of (x, y) changes, flipped or not, and two
      in a row cancel out. */
  lemma RightClickToggles(ov: Overlay, x: int, y: int)
    ensures RightClick(ov, x, y).flipped == ov.flipped
    ensures ((x, y) in RightClick(ov, x, y).flagged) == ((x, y) !in ov.flagged)
    ensures forall c :: c != (x, y) ==> (c in RightClick(ov, x, y).flagged <==> c in ov.flagged)
    ensures RightClick(RightClick(ov, x, y), x, y) == ov
  {
  }

  /** A click on a face-down numbered tile flips that tile alone and logs
      it alone, with distance 0; the board is then checked for a win. */
  lemma NumberedClickFlipsOneTile(l: Layout, ov: Overlay, x: int, y: int)
    requires l.WellFormed() && l.InBounds(x, y)
    requires (x, y) !in ov.flagged && (x, y) !in ov.flipped && !l.bomb[x][y] && Count(l, x, y) > 0
    ensures var o := Click(l, ov, x, y);
            var won := Won(l, ov.flipped + {(x, y)});
            o == Outcome(Overlay(if won then AllCells(l) else ov.flipped + {(x, y)}, ov.flagged),
                         [Transition(x, y, 0)], false, won)
  {
    FillStops(l, x, y, x, y, Progress(ov.flipped, []));
  }

  /** A click spreads only through zero-count tiles: its transitions start
      at the clicked tile, and every later one is adjacent to an earlier
      tile whose count is 0. */
  lemma ClickSpreadsThroughZeros(l: Layout, ov: Overlay, x: int, y: int)
    requires l.WellFormed() && l.InBounds(x, y)
    ensures SpreadsFrom(l, Click(l, ov, x, y).flips, (x, y))
  {
    if (x, y) !in ov.flagged && !l.bomb[x][y] {
      var p := Fill(l, x, y, x, y, Progress(ov.flipped, []));
      FillBoundedByNumbers(l, x, y, x, y, Progress(ov.flipped, []));
      assert p.flips[0..] == p.flips;
    }
  }
}
