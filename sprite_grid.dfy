/** Assets/script/NewMonoBehaviourScript.cs: the earlier GridManager and
    its Tile. Start allocates a gridWidth x gridHeight array of tile
    GameObjects and fills it column by column; a Tile component, when the
    prefab has one, is told its cell. SelectTile keeps at most one
    selection between clicks: a second, different tile is swapped with the
    first at once (there is no animation and no swappability test). */
module SpriteGrid {
  import opened Colors
  import opened Options
  import opened Board

  /** The tile prefab: whether its GameObject carries a Tile component,
      whether that GameObject has a SpriteRenderer, and the sprite's colour. */
  datatype TilePrefab = TilePrefab(hasTile: bool, hasSpriteRenderer: bool, color: Color)

  /** What a slot of the GameObject array holds: nothing yet, a GameObject
      without a Tile component, or the GameObject of the given Tile. */
  datatype Slot = Empty | Plain | Holds(tile: Tile)

  /** How Start ended. */
  datatype StartOutcome =
    | Built
    | NegativeSize    // the array allocation throws
    | MissingPrefab   // Instantiate(null) throws on the first slot

  // ---------------------------------------------------------------------
  // The selection state machine as a value

  /** selectedTile1 between two clicks; selectedTile2 is only ever set
      inside SelectTile and cleared again before it returns. */
  datatype Pick<T> = NoPick | Picked(first: T)

  /** The selection after a click, and the pair of tiles swapped by it. */
  datatype Clicked<T> = Clicked(pick: Pick<T>, swapped: Option<(T, T)>)

  /** SelectTile(t): select t when nothing is selected; deselect it when it
      is clicked again; swap it with the selected tile otherwise. */
  function SelectStep<T(==)>(s: Pick<T>, t: T): (r: Clicked<T>)
    ensures s.NoPick? ==> r.pick == Picked(t) && r.swapped == None
    ensures s.Picked? ==> r.pick == NoPick
    ensures r.swapped.Some? <==> s.Picked? && s.first != t
    ensures r.swapped.Some? ==> r.swapped.value == (s.first, t)
  {
    match s
    case NoPick => Clicked(Picked(t), None)
    case Picked(first) => Clicked(NoPick, if first == t then None else Some((first, t)))
  }

  /** The selection after a sequence of clicks. */
  function Run<T(==)>(s: Pick<T>, clicks: seq<T>): Pick<T>
    decreases |clicks|
  {
    if clicks == [] then s else Run(SelectStep(s, clicks[0]).pick, clicks[1..])
  }

  /** The swaps a sequence of clicks performs, in order. */
  function Swaps<T(==)>(s: Pick<T>, clicks: seq<T>): seq<(T, T)>
    decreases |clicks|
  {
    if clicks == [] then []
    else
      var r := SelectStep(s, clicks[0]);
      (if r.swapped.Some? then [r.swapped.value] else []) + Swaps(r.pick, clicks[1..])
  }

  /** From an empty selection, every second click empties it again: the
      selection is empty exactly after an even number of clicks. */
  lemma {:induction false} EvenClicksEmptySelection<T>(clicks: seq<T>)
    ensures Run(NoPick, clicks).NoPick? <==> |clicks| % 2 == 0
    decreases |clicks|
  {
    if |clicks| >= 2 {
      var mid := SelectStep(NoPick, clicks[0]).pick;
      assert SelectStep(mid, clicks[1]).pick == NoPick;
      assert clicks[1..][1..] == clicks[2..];
      EvenClicksEmptySelection(clicks[2..]);
    } else if |clicks| == 1 {
      assert clicks[1..] == [];
    }
  }

  /** Every swap pairs two distinct tiles, both of them clicked, and there
      is at most one swap per two clicks. */
  lemma {:induction false} SwapsPairDistinctClickedTiles<T>(s: Pick<T>, clicks: seq<T>)
    ensures |Swaps(s, clicks)| <= (|clicks| + (if s.Picked? then 1 else 0)) / 2
    ensures forall i :: 0 <= i < |Swaps(s, clicks)| ==>
      Swaps(s, clicks)[i].0 != Swaps(s, clicks)[i].1 &&
      (Swaps(s, clicks)[i].0 in clicks || s == Picked(Swaps(s, clicks)[i].0)) &&
      Swaps(s, clicks)[i].1 in clicks
    decreases |clicks|
  {
    if clicks != [] {
      var r := SelectStep(s, clicks[0]);
      var rest := clicks[1..];
      SwapsPairDistinctClickedTiles(r.pick, rest);
      var head := if r.swapped.Some? then [r.swapped.value] else [];
      assert Swaps(s, clicks) == head + Swaps(r.pick, rest);
      forall i | 0 <= i < |Swaps(s, clicks)|
        ensures Swaps(s, clicks)[i].0 != Swaps(s, clicks)[i].1
        ensures Swaps(s, clicks)[i].0 in clicks || s == Picked(Swaps(s, clicks)[i].0)
        ensures Swaps(s, clicks)[i].1 in clicks
      {
        if i >= |head| {
          var j := i - |head|;
          assert Swaps(s, clicks)[i] == Swaps(r.pick, rest)[j];
          assert forall t :: t in rest ==> t in clicks;
          if r.pick.Picked? {
            assert r.pick.first == clicks[0];
          }
        }
      }
    }
  }

  // ---------------------------------------------------------------------
  // Tiles and the board

  /** The Tile component, together with the SpriteRenderer it caches in
      Awake. */
  class Tile {
    var gridX: int
    var gridY: int
    var hasSpriteRenderer: bool
    var color: Color

    /** Instantiate(prefab) for a prefab with a Tile component; Awake runs
        during instantiation and caches the SpriteRenderer. */
    constructor Instantiate(prefab: TilePrefab)
      ensures hasSpriteRenderer == prefab.hasSpriteRenderer && color == prefab.color
    {
      hasSpriteRenderer, color := prefab.hasSpriteRenderer, prefab.color;
    }

    method SetPosition(x: int, y: int)
      modifies this`gridX, this`gridY
      ensures gridX == x && gridY == y
    {
      gridX := x;
      gridY := y;
    }

    /** Cyan when highlighted, white otherwise; without a SpriteRenderer
        nothing changes. */
    method Highlight(isHighlighted: bool)
      modifies this`color
      ensures color == if hasSpriteRenderer then (if isHighlighted then Cyan else White) else old(color)
    {
      if hasSpriteRenderer {
        color := if isHighlighted then Cyan else White;
      }
    }
  }

  /** The tiles held by the slots of g. */
  ghost function OccupantsOf(g: array2<Slot>): set<Tile>
    reads g
  {
    set x, y | 0 <= x < g.Length0 && 0 <= y < g.Length1 && g[x, y].Holds? :: g[x, y].tile
  }

  /** Every tile in g records the slot that holds it. */
  ghost predicate CoherentGrid(g: array2<Slot>)
    reads g, OccupantsOf(g)`gridX, OccupantsOf(g)`gridY
  {
    forall x, y :: 0 <= x < g.Length0 && 0 <= y < g.Length1 && g[x, y].Holds? ==>
      g[x, y].tile.gridX == x && g[x, y].tile.gridY == y
  }

  class GridManager {
    var gridWidth: int
    var gridHeight: int
    var tilePrefab: Option<TilePrefab>
    var grid: array2?<Slot>
    var selectedTile1: Tile?
    var selectedTile2: Tile?

    /** The component with its inspector settings, before Start. */
    constructor (width: int, height: int, prefab: Option<TilePrefab>)
      ensures gridWidth == width && gridHeight == height && tilePrefab == prefab
      ensures grid == null && selectedTile1 == null && selectedTile2 == null
    {
      gridWidth, gridHeight, tilePrefab := width, height, prefab;
      grid := null;
      selectedTile1, selectedTile2 := null, null;
    }

    /** The tiles on the board. */
    ghost function Occupants(): set<Tile>
      reads this, grid
    {
      if grid == null then {} else OccupantsOf(grid)
    }

    /** Every tile on the board records its own slot. */
    ghost predicate Coherent()
      reads this, grid, Occupants()
    {
      grid != null && CoherentGrid(grid)
    }

    function PickOf(): Pick<Tile>
      reads this
    {
      if selectedTile1 == null then NoPick else Picked(selectedTile1 as Tile)
    }

    /** Coherent board; between clicks at most the first selection is set,
        and it is a tile of the board. */
    ghost predicate Valid()
      reads this, grid, Occupants()
    {
      && Coherent()
      && selectedTile2 == null
      && (selectedTile1 != null ==> selectedTile1 in Occupants())
    }

    /** On a coherent board each tile sits in the slot it records, so no
        tile occupies two slots. */
    lemma OccupantAtOwnSlot(t: Tile)
      requires Coherent() && t in Occupants()
      ensures 0 <= t.gridX < grid.Length0 && 0 <= t.gridY < grid.Length1 && grid[t.gridX, t.gridY] == Holds(t)
    {
      var x, y :| 0 <= x < grid.Length0 && 0 <= y < grid.Length1 && grid[x, y].Holds? && grid[x, y].tile == t;
    }

    /** Tile t sits in the slot it records. */
    ghost predicate OnBoard(t: Tile)
      reads this, grid, t
    {
      grid != null && 0 <= t.gridX < grid.Length0 && 0 <= t.gridY < grid.Length1 && grid[t.gridX, t.gridY] == Holds(t)
    }

    /** Start: allocate the array, then CreateGrid. */
    method Start() returns (outcome: StartOutcome)
      requires selectedTile1 == null && selectedTile2 == null
      modifies this`grid
      ensures gridWidth < 0 || gridHeight < 0 ==> outcome == NegativeSize && grid == old(grid)
      ensures gridWidth >= 0 && gridHeight >= 0 ==>
        && fresh(grid) && grid.Length0 == gridWidth && grid.Length1 == gridHeight
        && Valid()
        && (outcome == MissingPrefab <==> tilePrefab.None? && gridWidth > 0 && gridHeight > 0)
        && (outcome == MissingPrefab ==> forall x, y :: 0 <= x < gridWidth && 0 <= y < gridHeight ==> grid[x, y] == Empty)
        && (outcome == Built ==> forall x, y :: 0 <= x < gridWidth && 0 <= y < gridHeight ==>
              SlotFromPrefab(grid[x, y], tilePrefab.value, x, y) && (grid[x, y].Holds? ==> fresh(grid[x, y].tile)))
      ensures outcome == NegativeSize <==> gridWidth < 0 || gridHeight < 0
    {
      if gridWidth < 0 || gridHeight < 0 {
        return NegativeSize;
      }
      grid := new Slot[gridWidth, gridHeight]((_, _) => Empty);
      outcome := CreateGrid();
    }

    /** CreateGrid: fill every slot, column by column, with a fresh instance
        of the prefab, telling its Tile component (if any) its cell. A
        missing prefab makes the first Instantiate throw. */
    method CreateGrid() returns (outcome: StartOutcome)
      requires grid != null && grid.Length0 == gridWidth && grid.Length1 == gridHeight
      requires forall x, y :: 0 <= x < gridWidth && 0 <= y < gridHeight ==> grid[x, y] == Empty
      requires selectedTile1 == null && selectedTile2 == null
      modifies grid
      ensures Valid()
      ensures outcome == MissingPrefab <==> tilePrefab.None? && gridWidth > 0 && gridHeight > 0
      ensures outcome == MissingPrefab ==> unchanged(grid)
      ensures outcome != MissingPrefab ==> outcome == Built
      ensures outcome == Built ==> forall x, y :: 0 <= x < gridWidth && 0 <= y < gridHeight ==>
        SlotFromPrefab(grid[x, y], tilePrefab.value, x, y) && (grid[x, y].Holds? ==> fresh(grid[x, y].tile))
    {
      if tilePrefab.None? && gridWidth > 0 && gridHeight > 0 {
        return MissingPrefab;
      }
      if gridWidth == 0 || gridHeight == 0 {
        assert Occupants() == {};
        return Built;
      }
      var prefab := tilePrefab.value;
      for x := 0 to gridWidth
        invariant forall i, j :: 0 <= i < x && 0 <= j < gridHeight ==>
          SlotFromPrefab(grid[i, j], prefab, i, j) && (grid[i, j].Holds? ==> fresh(grid[i, j].tile))
        invariant forall i, j :: x <= i < gridWidth && 0 <= j < gridHeight ==> grid[i, j] == Empty
      {
        for y := 0 to gridHeight
          invariant forall i, j :: 0 <= i < x && 0 <= j < gridHeight ==>
            SlotFromPrefab(grid[i, j], prefab, i, j) && (grid[i, j].Holds? ==> fresh(grid[i, j].tile))
          invariant forall j :: 0 <= j < y ==>
            SlotFromPrefab(grid[x, j], prefab, x, j) && (grid[x, j].Holds? ==> fresh(grid[x, j].tile))
          invariant forall i, j :: 0 <= i < gridWidth && 0 <= j < gridHeight && (i > x || (i == x && j >= y)) ==>
            grid[i, j] == Empty
        {
          var newTile: Slot;
          if prefab.hasTile {
            var tileComponent := new Tile.Instantiate(prefab);
            tileComponent.SetPosition(x, y);
            newTile := Holds(tileComponent);
          } else {
            newTile := Plain;
          }
          grid[x, y] := newTile;
        }
      }
      outcome := Built;
    }

    /** Update: every click that hits a Tile reaches SelectTile; there is no
        guard, since the swap completes within the click. */
    method Update(mouseDown: bool, clicked: Tile?)
      requires Valid() && (clicked != null ==> clicked in Occupants())
      modifies this`selectedTile1, this`selectedTile2, grid, Selected()`gridX, Selected()`gridY, Selected()`color
      modifies (if clicked == null then {} else {clicked as Tile})`gridX
      modifies (if clicked == null then {} else {clicked as Tile})`gridY
      modifies (if clicked == null then {} else {clicked as Tile})`color
      ensures Valid()
      ensures mouseDown && clicked != null ==> PickOf() == SelectStep(old(PickOf()), clicked).pick
      ensures !mouseDown || clicked == null ==>
        unchanged(this) && unchanged(grid) && unchanged(old(Selected())) && (clicked != null ==> unchanged(clicked))
      ensures mouseDown && clicked != null && old(selectedTile1) == null ==>
        unchanged(grid) && clicked.color == (if clicked.hasSpriteRenderer then Cyan else old(clicked.color))
      ensures mouseDown && clicked != null && old(selectedTile1) == clicked ==>
        unchanged(grid) && clicked.color == (if clicked.hasSpriteRenderer then White else old(clicked.color))
      ensures mouseDown && clicked != null && old(selectedTile1) != null && old(selectedTile1) != clicked ==>
        var first := old(selectedTile1);
        var p1 := old(Pos(first.gridX, first.gridY));
        var p2 := old(Pos(clicked.gridX, clicked.gridY));
        && p1 in old(Cells(grid)) && p2 in old(Cells(grid))
        && Cells(grid) == Swap(old(Cells(grid)), p1, p2)
        && first.gridX == p2.x && first.gridY == p2.y && clicked.gridX == p1.x && clicked.gridY == p1.y
        && first.color == (if first.hasSpriteRenderer then White else old(first.color))
        && clicked.color == (if clicked.hasSpriteRenderer then White else old(clicked.color))
    {
      if mouseDown && clicked != null {
        SelectTile(clicked);
      }
    }

    /** The selected tiles. */
    function Selected(): set<Tile>
      reads this
    {
      (if selectedTile1 == null then {} else {selectedTile1 as Tile}) +
      (if selectedTile2 == null then {} else {selectedTile2 as Tile})
    }

    /** SelectTile: first click selects and highlights; clicking the same
        tile again deselects it; a different tile is highlighted and the two
        are swapped at once. */
    method SelectTile(tile: Tile)
      requires Valid() && tile in Occupants()
      modifies this`selectedTile1, this`selectedTile2, grid, tile`gridX, tile`gridY, tile`color
      modifies Selected()`gridX, Selected()`gridY, Selected()`color
      ensures Valid()
      ensures PickOf() == SelectStep(old(PickOf()), tile).pick
      ensures old(selectedTile1) == null ==>
        unchanged(grid) && tile.color == (if tile.hasSpriteRenderer then Cyan else old(tile.color))
      ensures old(selectedTile1) == tile ==>
        unchanged(grid) && tile.color == (if tile.hasSpriteRenderer then White else old(tile.color))
      ensures old(selectedTile1) != null && old(selectedTile1) != tile ==>
        var first := old(selectedTile1);
        var p1 := old(Pos(first.gridX, first.gridY));
        var p2 := old(Pos(tile.gridX, tile.gridY));
        && p1 in old(Cells(grid)) && p2 in old(Cells(grid))
        && Cells(grid) == Swap(old(Cells(grid)), p1, p2)
        && first.gridX == p2.x && first.gridY == p2.y && tile.gridX == p1.x && tile.gridY == p1.y
        && first.color == (if first.hasSpriteRenderer then White else old(first.color))
        && tile.color == (if tile.hasSpriteRenderer then White else old(tile.color))
    {
      if selectedTile1 == null {
        selectedTile1 := tile;
        selectedTile1.Highlight(true);
      } else {
        if selectedTile1 == tile {
          selectedTile1.Highlight(false);
          selectedTile1 := null;
          return;
        }
        selectedTile2 := tile;
        selectedTile2.Highlight(true);
        OccupantAtOwnSlot(selectedTile1);
        OccupantAtOwnSlot(selectedTile2);
        SwapTiles();
      }
    }

    /** SwapTiles: each selected tile takes the other's slot and
        coordinates; both are un-highlighted and the selection cleared. */
    method SwapTiles()
      requires Coherent() && selectedTile1 != null && selectedTile2 != null
      requires OnBoard(selectedTile1) && OnBoard(selectedTile2)
      modifies this`selectedTile1, this`selectedTile2, grid
      modifies Selected()`gridX, Selected()`gridY, Selected()`color
      ensures CoherentGrid(grid) && selectedTile1 == null && selectedTile2 == null && grid == old(grid)
      ensures
        var t1, t2 := old(selectedTile1), old(selectedTile2);
        var p1 := old(Pos(t1.gridX, t1.gridY));
        var p2 := old(Pos(t2.gridX, t2.gridY));
        && p1 in old(Cells(grid)) && p2 in old(Cells(grid))
        && Cells(grid) == Swap(old(Cells(grid)), p1, p2)
        && t1.gridX == p2.x && t1.gridY == p2.y && t2.gridX == p1.x && t2.gridY == p1.y
        && t1.color == (if t1.hasSpriteRenderer then White else old(t1.color))
        && t2.color == (if t2.hasSpriteRenderer then White else old(t2.color))
    {
      ExchangeSlots(selectedTile1, selectedTile2);
      selectedTile1.Highlight(false);
      selectedTile2.Highlight(false);
      selectedTile1 := null;
      selectedTile2 := null;
    }

    /** The first two steps of SwapTiles: t1 and t2 trade array slots, then
        trade their recorded coordinates. */
    method ExchangeSlots(t1: Tile, t2: Tile)
      requires Coherent() && OnBoard(t1) && OnBoard(t2)
      modifies grid, t1`gridX, t1`gridY, t2`gridX, t2`gridY
      ensures CoherentGrid(grid)
      ensures
        var p1 := old(Pos(t1.gridX, t1.gridY));
        var p2 := old(Pos(t2.gridX, t2.gridY));
        && p1 in old(Cells(grid)) && p2 in old(Cells(grid))
        && Cells(grid) == Swap(old(Cells(grid)), p1, p2)
        && t1.gridX == p2.x && t1.gridY == p2.y && t2.gridX == p1.x && t2.gridY == p1.y
    {
      var x1, y1 := t1.gridX, t1.gridY;
      var x2, y2 := t2.gridX, t2.gridY;
      StoreTwo(grid, Pos(x1, y1), Holds(t2), Pos(x2, y2), Holds(t1));
      t1.SetPosition(x2, y2);
      t2.SetPosition(x1, y1);
      forall x, y | 0 <= x < grid.Length0 && 0 <= y < grid.Length1 && grid[x, y].Holds?
        ensures grid[x, y].tile.gridX == x && grid[x, y].tile.gridY == y
      {
        if (x, y) != (x1, y1) && (x, y) != (x2, y2) {
          assert grid[x, y] == old(grid[x, y]);
        }
      }
    }
  }

  /** Slot s at (x, y) is what CreateGrid puts there for prefab: the
      GameObject of a Tile that records (x, y) when the prefab has a Tile
      component, a plain GameObject otherwise. */
  ghost predicate SlotFromPrefab(s: Slot, prefab: TilePrefab, x: int, y: int)
    reads if s.Holds? then {s.tile} else {}
  {
    if prefab.hasTile then
      s.Holds? && s.tile.gridX == x && s.tile.gridY == y &&
      s.tile.hasSpriteRenderer == prefab.hasSpriteRenderer && s.tile.color == prefab.color
    else
      s == Plain
  }
}
