/** The per-tile state of the board overlay (both TileBox classes), reduced
    to the two booleans the game logic reads and the label a tile shows. */
module Tiles {

  datatype Option<T> = None | Some(value: T)

  datatype Colour = Blue | Green | Red | Navy | Crimson | DarkGreen | DarkOrange | Black

  /** How a board colours its labels: rwt.minesweeper grades the colour by
      the count, rwt.game.minesweeper paints every label blue. */
  datatype Palette = Graded | AllBlue

  /** The text a tile shows (its neighbour count) and the text's colour. */
  datatype Label = Label(count: int, colour: Colour)

  /** The colour switch of rwt.minesweeper's TileBox; Black is the fallback
      for every count outside 1 .. 7. */
  function GradedColour(n: int): (c: Colour)
    ensures c == Black <==> !(1 <= n <= 7)
  {
    match n
    case 1 => Blue
    case 2 => Green
    case 3 => Red
    case 4 => Navy
    case 5 => Crimson
    case 6 => DarkGreen
    case 7 => DarkOrange
    case _ => Black
  }

  function LabelColour(p: Palette, n: int): Colour {
    match p
    case Graded => GradedColour(n)
    case AllBlue => Blue
  }

  /** The label a tile constructed for count n carries: none for a count of
      zero or less, otherwise the count in the palette's colour for it. */
  function LabelFor(p: Palette, n: int): (r: Option<Label>)
    ensures r.Some? <==> n > 0
    ensures r.Some? ==> r.value.count == n && r.value.colour == LabelColour(p, n)
  {
    if n > 0 then Some(Label(n, LabelColour(p, n))) else None
  }

  /** A tile gets a label exactly when its count is positive, the label shows
      that count, and under AllBlue it is always blue. */
  lemma LabelPresentIffPositive(p: Palette, n: int)
    ensures LabelFor(p, n).Some? <==> n > 0
    ensures LabelFor(p, n).Some? ==> LabelFor(p, n).value.count == n
    ensures p == AllBlue && n > 0 ==> LabelFor(p, n).value.colour == Blue
  {
  }

  /** Graded colours: 1 .. 7 each get their own colour and everything else,
      8 included, is black; so the eight counts a tile can show are told
      apart by colour. */
  lemma GradedColoursDistinct(a: int, b: int)
    requires 1 <= a <= 8 && 1 <= b <= 8
    ensures GradedColour(a) == GradedColour(b) ==> a == b
    ensures GradedColour(a) == Black <==> a == 8
  {
  }

  class TileBox {
    var flipped: bool
    var flagged: bool
    /** Present only on a tile whose count is positive. */
    const legend: Option<Label>

    /** A new tile is neither flipped nor flagged. */
    constructor (n: int, palette: Palette)
      ensures !flipped && !flagged
      ensures legend == LabelFor(palette, n)
    {
      flipped := false;
      flagged := false;
      legend := LabelFor(palette, n);
    }

    /** Turns the tile face up; the rotation it returns is not modelled. */
    method Flip()
      modifies this
      ensures flipped
      ensures flagged == old(flagged)
    {
      flipped := true;
    }

    /** Sets or clears the flag, whether or not the tile is face up. */
    method Flag()
      modifies this
      ensures flagged == !old(flagged)
      ensures flipped == old(flipped)
    {
      flagged := !flagged;
    }

    /** The explosion animation's effect on the game state: the tile is face
        up afterwards. The offsets only shape the animation. */
    method Explode(diffX: int, diffY: int)
      modifies this
      ensures flipped
      ensures flagged == old(flagged)
    {
      flipped := true;
    }
  }

  /** Flagging twice restores the flag and leaves flipped as it was. */
  method FlagTwice(t: TileBox)
    modifies t
    ensures t.flagged == old(t.flagged)
    ensures t.flipped == old(t.flipped)
  {
    t.Flag();
    t.Flag();
  }
}
