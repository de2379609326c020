/** Assets/script/GridManager.cs: the board of Tile_Container cells.
    CreateGrid fills a gridWidth x gridHeight array with containers that
    know their own cell and hands them per-tile blueprints in row-major
    order; SelectTile runs the 0/1/2-selection state machine; the swap
    animation ends by exchanging two array slots and the two containers'
    stored coordinates. The animation itself is one abstract in-flight
    phase between StartSwapAnimation and FinishSwapAnimation. */
module ContainerGrid {
  import opened Colors
  import opened Options
  import opened Board
  import opened TileComponent

  /** One per-tile blueprint; its text rows are handed on, never read here. */
  datatype MapLayoutData = MapLayoutData(layout: seq<string>)

  /** The Tile_Container prefab as CreateGrid sees it: whether it carries a
      BoxCollider, and the serialized values every instance starts with. */
  datatype ContainerPrefab = ContainerPrefab(
    hasBoxCollider: bool,
    isSwappable: bool,
    color: Color,
    mapLayout: seq<string>)

  /** How CreateGrid ended: the board was built, or one of its early exits. */
  datatype BuildOutcome =
    | Built
    | MissingPrefab        // logged, returns before allocating
    | MissingBoxCollider   // logged, returns before allocating
    | NegativeSize         // the array allocation throws

  // ---------------------------------------------------------------------
  // Row-major blueprint order

  /** The blueprint index of cell (x, y). */
  function TileIndex(width: int, x: int, y: int): (i: int)
    ensures 0 <= x < width ==> i / width == y && i % width == x
  {
    DivModOfRowMajor(width, x, y);
    y * width + x
  }

  /** Dividing y * width + x by width gives back the row y and column x. */
  lemma DivModOfRowMajor(width: int, x: int, y: int)
    ensures 0 <= x < width ==> (y * width + x) / width == y && (y * width + x) % width == x
  {
    if 0 <= x < width {
      var i := y * width + x;
      var q, r := i / width, i % width;
      assert i == q * width + r && 0 <= r < width;
      assert (q - y) * width == x - r;
      if q - y > 0 {
        MulMonotone(1, q - y, width);
        assert false;
      } else if q - y < 0 {
        MulMonotone(1, y - q, width);
        assert false;
      }
    }
  }

  /** Every cell of the board gets an index inside [0, width * height). */
  lemma TileIndexInRange(width: int, height: int, x: int, y: int)
    requires 0 <= x < width && 0 <= y < height
    ensures 0 <= TileIndex(width, x, y) < width * height
  {
    assert y * width <= (height - 1) * width by {
      MulMonotone(y, height - 1, width);
    }
    assert (height - 1) * width + width == height * width;
  }

  /** Two cells of the board never share an index. */
  lemma TileIndexInjective(width: int, x1: int, y1: int, x2: int, y2: int)
    requires 0 <= x1 < width && 0 <= x2 < width
    requires TileIndex(width, x1, y1) == TileIndex(width, x2, y2)
    ensures x1 == x2 && y1 == y2
  {
    // TileIndex's own contract recovers (x, y) from the index.
  }

  lemma MulMonotone(a: int, b: int, w: int)
    requires a <= b && 0 <= w
    ensures a * w <= b * w
  {
    assert b * w - a * w == (b - a) * w;
  }

  /** The cell that receives blueprint i: TileIndex is onto [0, width * height). */
  function CellOfIndex(width: int, height: int, i: int): (p: Pos)
    requires 0 <= width && 0 <= height && 0 <= i < width * height
    ensures InBounds(p, width, height) && TileIndex(width, p.x, p.y) == i
  {
    assert width != 0;
    var p := Pos(i % width, i / width);
    assert p.y * width <= i;
    assert p.y < height by {
      if p.y >= height {
        MulMonotone(height, p.y, width);
        assert false;
      }
    }
    p
  }

  /** The blueprint CreateGrid hands the container at (x, y), if any: entry
      y * width + x of the list, when there is a list that long. */
  function BlueprintFor(tileLayouts: Option<seq<MapLayoutData>>, width: int, x: int, y: int): (r: Option<MapLayoutData>)
    ensures r.Some? ==> tileLayouts.Some? && r.value in tileLayouts.value
    ensures 0 <= x < width && 0 <= y ==>
      (r.None? <==> tileLayouts.None? || |tileLayouts.value| <= TileIndex(width, x, y))
  {
    var i := TileIndex(width, x, y);
    if tileLayouts.Some? && 0 <= i < |tileLayouts.value| then Some(tileLayouts.value[i]) else None
  }

  /** Blueprint i reaches exactly one container when i < width * height
      (the one at CellOfIndex), and none at all otherwise. */
  lemma BlueprintReachesOneCell(tileLayouts: seq<MapLayoutData>, width: int, height: int, i: int)
    requires 0 <= width && 0 <= height && 0 <= i < |tileLayouts|
    ensures i < width * height ==>
      var p := CellOfIndex(width, height, i);
      BlueprintFor(Some(tileLayouts), width, p.x, p.y) == Some(tileLayouts[i])
    ensures forall x, y :: 0 <= x < width && 0 <= y < height && TileIndex(width, x, y) == i ==>
      i < width * height && Pos(x, y) == CellOfIndex(width, height, i)
  {
    forall x, y | 0 <= x < width && 0 <= y < height && TileIndex(width, x, y) == i
      ensures i < width * height && Pos(x, y) == CellOfIndex(width, height, i)
    {
      TileIndexInRange(width, height, x, y);
      var p := CellOfIndex(width, height, i);
      TileIndexInjective(width, x, y, p.x, p.y);
    }
  }

  /** Distinct cells never receive the same blueprint entry. */
  lemma BlueprintsNotShared(width: int, x1: int, y1: int, x2: int, y2: int)
    requires 0 <= x1 < width && 0 <= x2 < width && 0 <= y1 && 0 <= y2
    requires (x1, y1) != (x2, y2)
    ensures TileIndex(width, x1, y1) != TileIndex(width, x2, y2)
  {
    if TileIndex(width, x1, y1) == TileIndex(width, x2, y2) {
      TileIndexInjective(width, x1, y1, x2, y2);
    }
  }

  // ---------------------------------------------------------------------
  // The selection state machine as a value

  /** selectedTile1 / selectedTile2 / isSwapping, read as one state:
      nothing selected, one tile selected, or two tiles whose swap is in flight. */
  datatype Selection<T> = Idle | Picked(first: T) | Swapping(first: T, second: T)

  /** SelectTile(c) while no swap is in flight. */
  function SelectStep<T(==)>(s: Selection<T>, c: T, swappable: bool): (r: Selection<T>)
    requires !s.Swapping?
    ensures !swappable ==> r == s
    ensures swappable && s.Idle? ==> r == Picked(c)
    ensures swappable && s.Picked? && s.first == c ==> r == Idle
    ensures swappable && s.Picked? && s.first != c ==> r == Swapping(s.first, c)
    ensures r.Picked? ==> r == s || (s.Idle? && r.first == c)
    ensures r.Idle? ==> s.Idle? || (swappable && s.first == c)
    ensures r.Swapping? ==> swappable && s.Picked? && r.first == s.first && r.second == c && c != s.first
  {
    if !swappable then s
    else match s
      case Idle => Picked(c)
      case Picked(first) => if first == c then Idle else Swapping(first, c)
  }

  /** What reaches the board in one frame: a click that the hit-test
      resolved to a container (with its isSwappable flag), or the end of
      the running swap animation. */
  datatype Event<T> = Click(tile: T, swappable: bool) | SwapDone

  /** Update ignores clicks while a swap is in flight; the animation's end
      clears the selection. There is no animation to end outside a swap. */
  function Step<T(==)>(s: Selection<T>, e: Event<T>): (r: Selection<T>)
    ensures e.Click? && s.Swapping? ==> r == s
    ensures e.Click? && !s.Swapping? ==> r == SelectStep(s, e.tile, e.swappable)
    ensures e.SwapDone? ==> !r.Swapping? && (s.Swapping? || r == s)
    ensures e.SwapDone? && s.Swapping? ==> r == Idle
    ensures s.Swapping? && r.Swapping? ==> r == s
  {
    match e
    case Click(t, swappable) => if s.Swapping? then s else SelectStep(s, t, swappable)
    case SwapDone => if s.Swapping? then Idle else s
  }

  function Run<T(==)>(s: Selection<T>, events: seq<Event<T>>): Selection<T>
    decreases |events|
  {
    if events == [] then s else Run(Step(s, events[0]), events[1..])
  }

  /** Every click on tile t reports the same swappability, sw(t). */
  ghost predicate ClicksAgree<T>(events: seq<Event<T>>, sw: T -> bool) {
    forall i :: 0 <= i < |events| && events[i].Click? ==> events[i].swappable == sw(events[i].tile)
  }

  /** Selected tiles are swappable, and the two tiles of a swap are distinct. */
  ghost predicate WellFormed<T>(s: Selection<T>, sw: T -> bool) {
    match s
    case Idle => true
    case Picked(first) => sw(first)
    case Swapping(first, second) => first != second && sw(first) && sw(second)
  }

  /** Whatever the clicks, a non-swappable tile is never selected and a swap
      never pairs a tile with itself. */
  lemma {:induction false} RunKeepsWellFormed<T>(s: Selection<T>, events: seq<Event<T>>, sw: T -> bool)
    requires WellFormed(s, sw) && ClicksAgree(events, sw)
    ensures WellFormed(Run(s, events), sw)
    decreases |events|
  {
    if events != [] {
      assert ClicksAgree(events[1..], sw) by {
        forall i | 0 <= i < |events[1..]| && events[1..][i].Click?
          ensures events[1..][i].swappable == sw(events[1..][i].tile)
        {
          assert events[1..][i] == events[i + 1];
        }
      }
      RunKeepsWellFormed(Step(s, events[0]), events[1..], sw);
    }
  }

  /** While a swap is in flight, any number of clicks changes nothing. */
  lemma {:induction false} ClicksDuringSwapIgnored<T>(s: Selection<T>, events: seq<Event<T>>)
    requires s.Swapping?
    requires forall i :: 0 <= i < |events| ==> events[i].Click?
    ensures Run(s, events) == s
    decreases |events|
  {
    if events != [] {
      assert Step(s, events[0]) == s;
      ClicksDuringSwapIgnored(s, events[1..]);
    }
  }

  /** Clicking a swappable tile twice from an empty selection cancels it;
      clicking two distinct swappable tiles starts their swap, and its end
      returns to an empty selection. */
  lemma ClickSequences<T>(a: T, b: T)
    requires a != b
    ensures Run(Idle, [Click(a, true), Click(a, true)]) == Idle
    ensures Run(Idle, [Click(a, true), Click(b, true)]) == Swapping(a, b)
    ensures Run(Idle, [Click(a, true), Click(b, true), SwapDone]) == Idle
  {
    var ca, cb: Event<T> := Click(a, true), Click(b, true);
    assert [ca, ca][1..] == [ca] && [ca, cb][1..] == [cb];
    assert [ca, cb, SwapDone][1..] == [cb, SwapDone] && [cb, SwapDone][1..] == [SwapDone];
    assert Run(Picked(a), [ca]) == Run(Idle, []) == Idle;
    assert Run(Picked(a), [cb]) == Run(Swapping(a, b), []) == Swapping(a, b);
    assert Run(Swapping(a, b), [SwapDone]) == Run(Idle, []) == Idle;
    assert Run(Picked(a), [cb, SwapDone]) == Run(Swapping(a, b), [SwapDone]);
  }

  // ---------------------------------------------------------------------
  // The containers and the board

  /** A Tile_Container instance: the fields of Assets/script/Tile.cs plus
      the blueprint rows it is handed and the rows its structures were last
      generated from. */
  class TileContainer {
    var gridX: int
    var gridY: int
    var isSwappable: bool
    var originalColor: Color
    var hasRenderer: bool
    var color: Color
    var mapLayout: seq<string>
    var generatedFrom: Option<seq<string>>

    function LookOf(): Look
      reads this
    {
      Look(hasRenderer, color, originalColor)
    }

    /** Instantiate(prefab): a fresh copy of the prefab's serialized fields;
        Start has not run, so no renderer is cached yet. */
    constructor Instantiate(prefab: ContainerPrefab)
      ensures isSwappable == prefab.isSwappable && mapLayout == prefab.mapLayout
      ensures LookOf() == Look(false, prefab.color, Clear) && generatedFrom == None
    {
      isSwappable, mapLayout := prefab.isSwappable, prefab.mapLayout;
      hasRenderer, color, originalColor := false, prefab.color, Clear;
      generatedFrom := None;
    }

    method Start(rendererFound: bool)
      modifies this`hasRenderer, this`originalColor
      ensures LookOf() == StartLook(old(LookOf()), rendererFound)
    {
      hasRenderer := rendererFound;
      if hasRenderer {
        originalColor := color;
      }
    }

    method SetPosition(x: int, y: int)
      modifies this`gridX, this`gridY
      ensures gridX == x && gridY == y
    {
      gridX := x;
      gridY := y;
    }

    method Highlight(isHighlighted: bool)
      modifies this`color
      ensures LookOf() == HighlightLook(old(LookOf()), isHighlighted)
    {
      if hasRenderer {
        color := if isHighlighted then Cyan else originalColor;
      }
    }

    /** Builds this container's structures from mapLayout. What it builds is
        not part of this model; it records which rows it was run on. */
    method GenerateStructures()
      modifies this`generatedFrom
      ensures generatedFrom == Some(mapLayout)
    {
      generatedFrom := Some(mapLayout);
    }
  }

  /** What CreateGrid leaves in a container: the prefab's values, and the
      blueprint it was handed (if any) both stored and generated from. */
  ghost predicate Prepared(c: TileContainer, prefab: ContainerPrefab, blueprint: Option<MapLayoutData>)
    reads c
  {
    && c.isSwappable == prefab.isSwappable
    && c.LookOf() == Look(false, prefab.color, Clear)
    && match blueprint
       case None => c.mapLayout == prefab.mapLayout && c.generatedFrom == None
       case Some(b) => c.mapLayout == b.layout && c.generatedFrom == Some(b.layout)
  }

  /** c is the container CreateGrid leaves in slot (x, y): it records that
      slot and was prepared from prefab and from the blueprint for (x, y). */
  ghost predicate Filled(c: TileContainer?, x: int, y: int, prefab: ContainerPrefab,
                         tileLayouts: Option<seq<MapLayoutData>>, width: int)
    reads c
  {
    && c != null
    && c.gridX == x && c.gridY == y
    && Prepared(c, prefab, BlueprintFor(tileLayouts, width, x, y))
  }

  /** The containers in array g. */
  ghost function OccupantsOf(g: array2<TileContainer?>): set<TileContainer>
    reads g
  {
    set x, y | 0 <= x < g.Length0 && 0 <= y < g.Length1 && g[x, y] != null :: g[x, y]
  }

  /** Every slot of g holds a container that records that slot. */
  ghost predicate CoherentGrid(g: array2<TileContainer?>)
    reads g, OccupantsOf(g)`gridX, OccupantsOf(g)`gridY
  {
    forall x, y :: 0 <= x < g.Length0 && 0 <= y < g.Length1 ==>
      g[x, y] != null && g[x, y].gridX == x && g[x, y].gridY == y
  }

  class GridManager {
    var gridWidth: int
    var gridHeight: int
    var tileContainerPrefab: Option<ContainerPrefab>
    var tileLayouts: Option<seq<MapLayoutData>>
    var grid: array2?<TileContainer?>
    var selectedTile1: TileContainer?
    var selectedTile2: TileContainer?
    var isSwapping: bool

    /** The component with its inspector settings, before Start. */
    constructor (width: int, height: int, prefab: Option<ContainerPrefab>, layouts: Option<seq<MapLayoutData>>)
      ensures gridWidth == width && gridHeight == height
      ensures tileContainerPrefab == prefab && tileLayouts == layouts
      ensures grid == null && selectedTile1 == null && selectedTile2 == null && !isSwapping
    {
      gridWidth, gridHeight := width, height;
      tileContainerPrefab, tileLayouts := prefab, layouts;
      grid := null;
      selectedTile1, selectedTile2, isSwapping := null, null, false;
    }

    /** The containers on the board. */
    ghost function Occupants(): set<TileContainer>
      reads this, grid
    {
      if grid == null then {} else OccupantsOf(grid)
    }

    /** Every slot holds a container, and every container records its own
        slot: grid[t.gridX, t.gridY] == t for each t on the board. */
    ghost predicate Coherent()
      reads this, grid, Occupants()
    {
      grid != null && CoherentGrid(grid)
    }

    function SelectionOf(): Selection<TileContainer>
      reads this
    {
      if selectedTile1 == null then Idle
      else if selectedTile2 == null then Picked(selectedTile1 as TileContainer)
      else Swapping(selectedTile1 as TileContainer, selectedTile2 as TileContainer)
    }

    /** The board is coherent; the selection fields and the isSwapping flag
        describe one of the three selection states; selected containers are
        swappable containers of the board. */
    ghost predicate Valid()
      reads this, grid, Occupants()
    {
      && Coherent()
      && (selectedTile1 == null ==> selectedTile2 == null)
      && (isSwapping <==> selectedTile2 != null)
      && (selectedTile1 != null ==> selectedTile1 in Occupants() && selectedTile1.isSwappable)
      && (selectedTile2 != null ==> selectedTile2 in Occupants() && selectedTile2.isSwappable && selectedTile2 != selectedTile1)
    }

    /** On a coherent board each container sits in the slot it records, so
        no container occupies two slots. */
    lemma OccupantsAtOwnSlot()
      requires Coherent()
      ensures forall t :: t in Occupants() ==>
        0 <= t.gridX < grid.Length0 && 0 <= t.gridY < grid.Length1 && grid[t.gridX, t.gridY] == t
    {
      forall t | t in Occupants()
        ensures 0 <= t.gridX < grid.Length0 && 0 <= t.gridY < grid.Length1 && grid[t.gridX, t.gridY] == t
      {
        var x, y :| 0 <= x < grid.Length0 && 0 <= y < grid.Length1 && grid[x, y] == t;
      }
    }

    /** CreateGrid: refuse without a prefab or without a BoxCollider on it;
        otherwise allocate the array and fill it row by row, each container
        told its own cell and handed blueprint y * gridWidth + x when the
        list is that long. */
    method CreateGrid() returns (outcome: BuildOutcome)
      modifies this`grid
      ensures tileContainerPrefab.None? ==> outcome == MissingPrefab
      ensures tileContainerPrefab.Some? && !tileContainerPrefab.value.hasBoxCollider ==> outcome == MissingBoxCollider
      ensures tileContainerPrefab.Some? && tileContainerPrefab.value.hasBoxCollider ==>
        outcome == (if gridWidth < 0 || gridHeight < 0 then NegativeSize else Built)
      ensures outcome != Built ==> grid == old(grid)
      ensures outcome == Built ==>
        && fresh(grid) && grid.Length0 == gridWidth && grid.Length1 == gridHeight
        && Coherent()
        && forall x, y :: 0 <= x < gridWidth && 0 <= y < gridHeight ==>
             grid[x, y] != null && fresh(grid[x, y]) &&
             Prepared(grid[x, y], tileContainerPrefab.value, BlueprintFor(tileLayouts, gridWidth, x, y))
      ensures outcome == Built && selectedTile1 == null && selectedTile2 == null && !isSwapping ==> Valid()
    {
      if tileContainerPrefab.None? {
        return MissingPrefab;
      }
      var prefab := tileContainerPrefab.value;
      if !prefab.hasBoxCollider {
        return MissingBoxCollider;
      }
      if gridWidth < 0 || gridHeight < 0 {
        return NegativeSize;
      }
      grid := new TileContainer?[gridWidth, gridHeight];
      for y := 0 to gridHeight
        invariant fresh(grid) && grid.Length0 == gridWidth && grid.Length1 == gridHeight
        invariant forall i, j :: 0 <= i < gridWidth && 0 <= j < y ==>
          Filled(grid[i, j], i, j, prefab, tileLayouts, gridWidth) && fresh(grid[i, j])
      {
        for x := 0 to gridWidth
          invariant fresh(grid) && grid.Length0 == gridWidth && grid.Length1 == gridHeight
          invariant forall i, j :: 0 <= i < gridWidth && 0 <= j < y ==>
            Filled(grid[i, j], i, j, prefab, tileLayouts, gridWidth) && fresh(grid[i, j])
          invariant forall i :: 0 <= i < x ==>
            Filled(grid[i, y], i, y, prefab, tileLayouts, gridWidth) && fresh(grid[i, y])
        {
          var newContainer := NewContainer(prefab, x, y);
          grid[x, y] := newContainer;
        }
      }
      outcome := Built;
    }


    /** The body of CreateGrid's loops for cell (x, y): instantiate the
        prefab, tell the container its cell and hand it its blueprint, if
        the list has one at the row-major index. */
    method NewContainer(prefab: ContainerPrefab, x: int, y: int) returns (newContainer: TileContainer)
      requires 0 <= x < gridWidth && 0 <= y < gridHeight
      ensures fresh(newContainer) && Filled(newContainer, x, y, prefab, tileLayouts, gridWidth)
    {
      newContainer := new TileContainer.Instantiate(prefab);
      newContainer.SetPosition(x, y);
      var tileIndex := y * gridWidth + x;
      if tileLayouts.Some? && tileIndex < |tileLayouts.value| {
        TileIndexInRange(gridWidth, gridHeight, x, y);
        newContainer.mapLayout := tileLayouts.value[tileIndex].layout;
        newContainer.GenerateStructures();
      }
    }

    /** The containers the selection fields point at. */
    function Selected(): set<TileContainer>
      reads this
    {
      (if selectedTile1 == null then {} else {selectedTile1 as TileContainer}) +
      (if selectedTile2 == null then {} else {selectedTile2 as TileContainer})
    }

    /** Update: a click reaches SelectTile only when it hit a container and
        no swap is in flight; any other frame changes nothing. */
    method Update(mouseDown: bool, clicked: TileContainer?)
      requires Valid() && (clicked != null ==> clicked in Occupants())
      modifies this`selectedTile1, this`selectedTile2, this`isSwapping, Selected()`color
      modifies (if clicked == null then {} else {clicked as TileContainer})`color
      ensures Valid()
      ensures mouseDown && clicked != null ==>
        SelectionOf() == Step(old(SelectionOf()), Click(clicked, clicked.isSwappable))
      ensures !mouseDown || clicked == null || old(isSwapping) ==>
        unchanged(this) && unchanged(old(Selected())) && (clicked != null ==> unchanged(clicked))
      ensures mouseDown && clicked != null && !old(isSwapping) ==>
        && (!clicked.isSwappable ==> unchanged(this) && unchanged(clicked) && unchanged(old(Selected())))
        && (clicked.isSwappable && old(selectedTile1) == null ==>
              clicked.LookOf() == HighlightLook(old(clicked.LookOf()), true))
        && (clicked.isSwappable && old(selectedTile1) == clicked ==>
              clicked.LookOf() == HighlightLook(old(clicked.LookOf()), false))
        && (isSwapping ==>
              && selectedTile2 == clicked
              && clicked.LookOf() == HighlightLook(old(clicked.LookOf()), false)
              && selectedTile1.LookOf() == HighlightLook(old(selectedTile1.LookOf()), false))
    {
      if mouseDown && !isSwapping && clicked != null {
        SelectTile(clicked);
      }
    }

    /** SelectTile: ignore a container that may not be swapped; select it
        when nothing is selected; deselect it when it is clicked again;
        otherwise make it the second selection and start the swap. */
    method SelectTile(container: TileContainer)
      requires Valid() && !isSwapping && container in Occupants()
      modifies this`selectedTile1, this`selectedTile2, this`isSwapping, container`color, Selected()`color
      ensures Valid()
      ensures SelectionOf() == SelectStep(old(SelectionOf()), container, container.isSwappable)
      ensures !container.isSwappable ==> unchanged(this) && unchanged(container) && unchanged(old(Selected()))
      ensures container.isSwappable && old(selectedTile1) == null ==>
        container.LookOf() == HighlightLook(old(container.LookOf()), true)
      ensures container.isSwappable && old(selectedTile1) == container ==>
        container.LookOf() == HighlightLook(old(container.LookOf()), false)
      ensures isSwapping ==>
        && selectedTile2 == container
        && container.LookOf() == HighlightLook(old(container.LookOf()), false)
        && selectedTile1.LookOf() == HighlightLook(old(selectedTile1.LookOf()), false)
    {
      if !container.isSwappable {
        return;
      }
      if selectedTile1 == null {
        selectedTile1 := container;
        selectedTile1.Highlight(true);
      } else {
        if selectedTile1 == container {
          selectedTile1.Highlight(false);
          selectedTile1 := null;
          return;
        }
        selectedTile2 := container;
        if selectedTile2.isSwappable {
          StartSwapAnimation();
        }
      }
    }

    /** The part of the swap coroutine that runs before its first frame
        ends: raise isSwapping and un-highlight both selections. */
    method StartSwapAnimation()
      requires selectedTile1 != null && selectedTile2 != null
      modifies this`isSwapping, Selected()`color
      ensures isSwapping
      ensures selectedTile1.LookOf() == HighlightLook(old(selectedTile1.LookOf()), false)
      ensures selectedTile2.LookOf() == HighlightLook(old(selectedTile2.LookOf()), false)
    {
      isSwapping := true;
      selectedTile1.Highlight(false);
      selectedTile2.Highlight(false);
    }

    /** The end of the swap coroutine, once the animation has run: each
        selected container takes the other's slot and coordinates, the
        selection is cleared and isSwapping drops. */
    method FinishSwapAnimation()
      requires Valid() && isSwapping
      modifies this`selectedTile1, this`selectedTile2, this`isSwapping, grid
      modifies Selected()`gridX, Selected()`gridY
      ensures Valid() && grid == old(grid)
      ensures SelectionOf() == Step(old(SelectionOf()), SwapDone) && !isSwapping
      ensures
        var p1 := old(Pos(selectedTile1.gridX, selectedTile1.gridY));
        var p2 := old(Pos(selectedTile2.gridX, selectedTile2.gridY));
        && p1 in old(Cells(grid)) && p2 in old(Cells(grid))
        && Cells(grid) == Swap(old(Cells(grid)), p1, p2)
        && old(selectedTile1).gridX == p2.x && old(selectedTile1).gridY == p2.y
        && old(selectedTile2).gridX == p1.x && old(selectedTile2).gridY == p1.y
    {
      OccupantsAtOwnSlot();
      var x1, y1 := selectedTile1.gridX, selectedTile1.gridY;
      var x2, y2 := selectedTile2.gridX, selectedTile2.gridY;
      StoreTwo(grid, Pos(x1, y1), selectedTile2, Pos(x2, y2), selectedTile1);

      selectedTile1.SetPosition(x2, y2);
      selectedTile2.SetPosition(x1, y1);

      forall x, y | 0 <= x < grid.Length0 && 0 <= y < grid.Length1
        ensures grid[x, y] != null && grid[x, y].gridX == x && grid[x, y].gridY == y
      {
        if (x, y) != (x1, y1) && (x, y) != (x2, y2) {
          var c := old(grid[x, y]);
          assert c != null && old(c.gridX) == x && old(c.gridY) == y;
          assert grid[x, y] == c && c != old(selectedTile1) && c != old(selectedTile2);
        }
      }
      selectedTile1 := null;
      selectedTile2 := null;
      isSwapping := false;
    }
  }
}
