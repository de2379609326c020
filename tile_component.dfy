/** Assets/script/Tile.cs: the tile component. It stores the tile's grid
    coordinates and whether it may be swapped, and tints its renderer cyan
    while it is selected, restoring the colour the renderer had at Start. */
module TileComponent {
  import opened Colors

  /** What the highlight logic sees of a tile: whether Start found a
      renderer, the colour that renderer's material shows now, and the
      colour Start saved from it. */
  datatype Look = Look(hasRenderer: bool, color: Color, originalColor: Color)

  /** Start: look the renderer up; when there is one, save its current colour. */
  function StartLook(l: Look, rendererFound: bool): (r: Look)
    ensures r.hasRenderer == rendererFound && r.color == l.color
    ensures r.originalColor == (if rendererFound then l.color else l.originalColor)
  {
    if rendererFound then Look(true, l.color, l.color) else l.(hasRenderer := false)
  }

  /** Highlight(on): cyan when on, the saved colour when off, and nothing
      at all when there is no renderer. */
  function HighlightLook(l: Look, on: bool): (r: Look)
    ensures r.hasRenderer == l.hasRenderer && r.originalColor == l.originalColor
    ensures l.hasRenderer ==> r.color == (if on then Cyan else l.originalColor)
    ensures !l.hasRenderer ==> r == l
  {
    if l.hasRenderer then l.(color := if on then Cyan else l.originalColor) else l
  }

  /** Highlighting twice with the same flag is the same as highlighting once. */
  lemma HighlightIdempotent(l: Look, on: bool)
    ensures HighlightLook(HighlightLook(l, on), on) == HighlightLook(l, on)
  {
  }

  /** Select-then-deselect gives back the colour the material had at Start,
      whatever the tile showed in between. */
  lemma UnhighlightRestoresStartColor(l: Look, on: bool)
    ensures HighlightLook(HighlightLook(StartLook(l, true), on), false).color == l.color
  {
  }

  /** The colour shown after Highlight depends only on the flag and the saved
      colour, never on what the material showed before. */
  lemma HighlightForgetsCurrentColor(l: Look, c: Color, on: bool)
    requires l.hasRenderer
    ensures HighlightLook(l.(color := c), on) == HighlightLook(l, on)
  {
  }

  class Tile {
    var gridX: int
    var gridY: int
    var isSwappable: bool
    var originalColor: Color
    var hasRenderer: bool  // the cached renderer reference is set
    var color: Color       // the colour of the GameObject's renderer material

    function LookOf(): Look
      reads this
    {
      Look(hasRenderer, color, originalColor)
    }

    /** The component as it sits on its GameObject before Start: inspector
        values for the public fields, no cached renderer, originalColor at
        its default. */
    constructor (x: int, y: int, swappable: bool, materialColor: Color)
      ensures gridX == x && gridY == y && isSwappable == swappable
      ensures LookOf() == Look(false, materialColor, Clear)
    {
      gridX, gridY, isSwappable := x, y, swappable;
      hasRenderer, color, originalColor := false, materialColor, Clear;
    }

    method Start(rendererFound: bool)
      modifies this`hasRenderer, this`originalColor
      ensures LookOf() == StartLook(old(LookOf()), rendererFound)
    {
      hasRenderer := rendererFound;
      if hasRenderer {
        originalColor := color;
      }
    }

    method SetPosition(x: int, y: int)
      modifies this`gridX, this`gridY
      ensures gridX == x && gridY == y
      ensures isSwappable == old(isSwappable) && LookOf() == old(LookOf())
    {
      gridX := x;
      gridY := y;
    }

    method Highlight(isHighlighted: bool)
      modifies this`color
      ensures LookOf() == HighlightLook(old(LookOf()), isHighlighted)
      ensures gridX == old(gridX) && gridY == old(gridY) && isSwappable == old(isSwappable)
    {
      if hasRenderer {
        color := if isHighlighted then Cyan else originalColor;
      }
    }
  }
}
