# Tile-swap puzzle board, modelled in Dafny

The Unity project is a puzzle. Its board is a `gridWidth x gridHeight` grid of tiles, and the player swaps two tiles by clicking them one after the other. This project models the board bookkeeping behind that, with one Dafny module per C# file:

- `TileComponent` (`tile_component.dfy`) models `Assets/script/Tile.cs`. A tile stores its grid coordinates and whether it may be swapped. While selected it tints its renderer cyan. When deselected it restores the colour its renderer had at `Start`.
- `ContainerGrid` (`container_grid.dfy`) models `Assets/script/GridManager.cs`, the current grid manager. Its cells are `Tile_Container` objects.
  - `CreateGrid` refuses to build without a prefab or without a BoxCollider on it. Otherwise it fills the array row by row. Each container is told its own cell, and container `(x, y)` is handed per-tile blueprint `y * gridWidth + x` when the list is that long.
  - `SelectTile` runs a three-state selection machine: nothing selected, one tile selected, or two tiles swapping. It ignores tiles that may not be swapped, and clicking the selected tile again cancels the selection.
  - The swap animation is one abstract in-flight phase. During that phase `isSwapping` is true and `Update` drops every click. The phase ends by exchanging the two array slots and the two containers' stored coordinates.
  - The `Tile_Container` class itself is not among the modelled files. It is modelled with the fields of `Tile.cs`, plus the blueprint rows it is handed.
- `SpriteGrid` (`sprite_grid.dfy`) models `Assets/script/NewMonoBehaviourScript.cs`, the earlier grid manager and its `Tile`.
  - The array holds GameObjects, and a Tile component, if the prefab has one, is told its cell.
  - There is no swappability test. A second, different tile is swapped with the first at once, and both are un-highlighted.
- `Board` (`board.dfy`) states the exchange of two cells once, as a function on maps from cells to occupants. It proves that the exchange is an involution, is symmetric and is a permutation. It also states what writing two array slots does to the board, which is how both grid managers perform the exchange.
- `Colors` and `Options` hold the colour enumeration (`Clear` is C#'s `default(Color)`) and an option type, which stands for a nullable reference.

The central invariant, `Coherent()` in both grid managers, is that every tile on the board records its own slot: `grid[t.gridX, t.gridY] == t`. `CreateGrid` establishes it, and every swap preserves it. Each swap's effect on the board is `Board.Swap` of the old board, so every other slot is unchanged.

Inputs from the engine are parameters:

- whether a mouse button went down this frame;
- which tile the hit-test resolved;
- whether `GetComponent<Renderer>()` found a renderer;
- the prefab's components and serialized values.

In `GridManager.cs`, the `isSwappable` test at line 115 is always true. Line 100 has already returned for a container that may not be swapped. The model keeps the test, and `SelectTile`'s postcondition (through `Valid()`) shows that the second selection is swappable.

## Model

| member | source | states |
|---|---|---|
| Board.Swap | Assets/script/GridManager.cs:139-146 | exchanging the occupants of the two selected cells: same cells, each of the two holds the other's former occupant, every other cell keeps its occupant |
| Board.SwapInvolutive | Assets/script/GridManager.cs:139-146 | swapping the same two cells twice restores the board |
| Board.SwapSymmetric | Assets/script/GridManager.cs:139-146 | which of the two tiles was selected first does not change the resulting board |
| Board.SwapPermutes | Assets/script/GridManager.cs:142-143 | a swap keeps the same set of occupants on the board, and a board with no occupant in two cells stays so |
| Board.StoreTwo | Assets/script/NewMonoBehaviourScript.cs:133-134 | writing two array slots changes the array's board exactly at those two cells, the second write winning, and leaves every other slot as it was |
| TileComponent.StartLook | Assets/script/Tile.cs:13-20 | Start records whether a renderer was found and leaves the shown colour alone; with a renderer the saved original becomes the colour shown now, without one the saved original stays as it was |
| TileComponent.HighlightLook | Assets/script/Tile.cs:28-34 | Highlight keeps the renderer and the saved colour; with a renderer the tile shows cyan when highlighted and its saved colour otherwise; without a renderer the look does not change at all |
| TileComponent.HighlightIdempotent | Assets/script/Tile.cs:32 | calling Highlight twice with the same flag equals calling it once |
| TileComponent.UnhighlightRestoresStartColor | Assets/script/Tile.cs:16-32 | after Start with a renderer, Highlight(false) shows the colour the material had at Start, whatever was highlighted before |
| TileComponent.HighlightForgetsCurrentColor | Assets/script/Tile.cs:32 | with a renderer, the colour after Highlight does not depend on the colour shown before |
| TileComponent.Tile.constructor | Assets/script/Tile.cs:6-11 | a tile before Start has its inspector coordinates and swappability, no cached renderer and a default original colour |
| TileComponent.Tile.Start | Assets/script/Tile.cs:13-20 | Start changes the tile's look as StartLook says |
| TileComponent.Tile.SetPosition | Assets/script/Tile.cs:22-26 | the tile records (x, y) and keeps its swappability and colours |
| TileComponent.Tile.Highlight | Assets/script/Tile.cs:28-34 | the tile's look changes as HighlightLook says, and its coordinates and swappability stay |
| ContainerGrid.TileIndex | Assets/script/GridManager.cs:70 | for a column inside the grid, dividing the blueprint index by gridWidth gives back the row, and the remainder is the column, so the index determines the cell |
| ContainerGrid.DivModOfRowMajor | Assets/script/GridManager.cs:70 | y * width + x divided by width is y with remainder x whenever 0 <= x < width |
| ContainerGrid.TileIndexInRange | Assets/script/GridManager.cs:70-71 | every cell of the board has a blueprint index in [0, gridWidth * gridHeight) |
| ContainerGrid.TileIndexInjective | Assets/script/GridManager.cs:70 | two cells with columns inside the grid and the same blueprint index are the same cell |
| ContainerGrid.CellOfIndex | Assets/script/GridManager.cs:59-70 | every index in [0, gridWidth * gridHeight) is the blueprint index of a cell of the board, so row-major order is onto |
| ContainerGrid.BlueprintReachesOneCell | Assets/script/GridManager.cs:70-75 | blueprint i reaches the container at CellOfIndex(i) when i < gridWidth * gridHeight, and no other container of the board |
| ContainerGrid.BlueprintFor | Assets/script/GridManager.cs:70-73 | a container's blueprint is an entry of the list, and a container inside the grid gets none exactly when there is no list or the list is not longer than its row-major index |
| ContainerGrid.BlueprintsNotShared | Assets/script/GridManager.cs:70-75 | two distinct cells never receive the same blueprint entry |
| ContainerGrid.SelectStep | Assets/script/GridManager.cs:98-117 | a click on a tile that may not be swapped changes nothing; a swappable click on an empty selection selects it, on the selected tile clears the selection, and on another tile starts the swap of the two; conversely, a single selection is a newly clicked tile, a cleared selection means the selected tile was clicked again, and a swap pairs the first selection with a different, swappable second tile |
| ContainerGrid.Step | Assets/script/GridManager.cs:83-86 | a click while a swap is in flight leaves the selection as it is, and any other click is one SelectStep; the animation's end (lines 148-150) empties the selection of a swap in flight and changes nothing when none was; a swap in flight is only ever left, never replaced by another |
| ContainerGrid.RunKeepsWellFormed | Assets/script/GridManager.cs:100-115 | over any sequence of clicks and animation ends, a tile that may not be swapped is never selected and a swap never pairs a tile with itself |
| ContainerGrid.ClicksDuringSwapIgnored | Assets/script/GridManager.cs:85 | while a swap is in flight, any number of clicks leaves the selection as it is |
| ContainerGrid.ClickSequences | Assets/script/GridManager.cs:101-150 | clicking a swappable tile twice cancels it; clicking two distinct swappable tiles starts their swap, and the animation's end empties the selection |
| ContainerGrid.TileContainer.Instantiate | Assets/script/GridManager.cs:66 | a fresh container carries the prefab's swappability, colour and layout, and has generated nothing yet |
| ContainerGrid.TileContainer.Start | Assets/script/Tile.cs:13-20 | the container's Start changes its look as StartLook says |
| ContainerGrid.TileContainer.SetPosition | Assets/script/GridManager.cs:68 | the container records (x, y) |
| ContainerGrid.TileContainer.Highlight | Assets/script/GridManager.cs:104 | the container's look changes as HighlightLook says |
| ContainerGrid.TileContainer.GenerateStructures | Assets/script/GridManager.cs:73-74 | structures are generated from the container's current layout rows |
| ContainerGrid.GridManager.constructor | Assets/script/GridManager.cs:9-28 | the component starts with its inspector settings, no grid, both selection fields null and no swap in flight |
| ContainerGrid.GridManager.OccupantsAtOwnSlot | Assets/script/GridManager.cs:139-143 | on a coherent board each container on it sits in the slot it records, so none sits in two slots |
| ContainerGrid.GridManager.CreateGrid | Assets/script/GridManager.cs:37-80 | without a prefab, or without its BoxCollider, the grid is left as it was; a negative size aborts; otherwise a fresh array of the configured size holds a fresh container in every slot, each recording its own slot, with the prefab's values and its row-major blueprint exactly when the list is long enough |
| ContainerGrid.GridManager.NewContainer | Assets/script/GridManager.cs:66-75 | a fresh container from the prefab records cell (x, y) and holds its row-major blueprint exactly when the list is long enough |
| ContainerGrid.GridManager.Update | Assets/script/GridManager.cs:83-117 | a click on a container is one Step of the selection machine; without a click, or while swapping, nothing changes; a processed click has SelectTile's effects: a container that may not be swapped is left untouched, the first click highlights, the repeated click un-highlights, and a second tile starts the swap with both un-highlighted |
| ContainerGrid.GridManager.SelectTile | Assets/script/GridManager.cs:98-117 | the selection moves as SelectStep says; a container that may not be swapped is left untouched; the first click highlights, the repeated click un-highlights, and a second tile starts the swap with both un-highlighted; the board stays valid |
| ContainerGrid.GridManager.StartSwapAnimation | Assets/script/GridManager.cs:121-123 | isSwapping is raised and both selected containers are un-highlighted |
| ContainerGrid.GridManager.FinishSwapAnimation | Assets/script/GridManager.cs:139-150 | the board becomes Swap of the old board at the two containers' cells, each container records the other's old cell, the selection is cleared, isSwapping drops and the board stays coherent |
| SpriteGrid.SelectStep | Assets/script/NewMonoBehaviourScript.cs:92-117 | the first click selects the tile; the next click always empties the selection, and it swaps exactly when it hits a different tile, pairing the first tile with the clicked one |
| SpriteGrid.EvenClicksEmptySelection | Assets/script/NewMonoBehaviourScript.cs:94-115 | from an empty selection, the selection is empty exactly after an even number of clicks |
| SpriteGrid.SwapsPairDistinctClickedTiles | Assets/script/NewMonoBehaviourScript.cs:104-115 | every swap pairs two distinct tiles, both of them clicked or already selected, and there is at most one swap per two clicks |
| SpriteGrid.Tile.Instantiate | Assets/script/NewMonoBehaviourScript.cs:164-167 | Awake caches whether the GameObject has a SpriteRenderer, and the sprite keeps the prefab's colour |
| SpriteGrid.Tile.SetPosition | Assets/script/NewMonoBehaviourScript.cs:170-174 | the tile records (x, y) |
| SpriteGrid.Tile.Highlight | Assets/script/NewMonoBehaviourScript.cs:177-183 | cyan when highlighted, white otherwise, and no change without a SpriteRenderer |
| SpriteGrid.GridManager.constructor | Assets/script/NewMonoBehaviourScript.cs:15-25 | the component starts with its inspector settings, no grid and no selection |
| SpriteGrid.GridManager.OccupantAtOwnSlot | Assets/script/NewMonoBehaviourScript.cs:128-134 | on a coherent board a tile on it sits in the slot it records |
| SpriteGrid.GridManager.Start | Assets/script/NewMonoBehaviourScript.cs:27-31 | the allocation aborts exactly when a size is negative; otherwise the array has the configured size, the board is valid, and it is filled as CreateGrid says: built unless a missing prefab makes the first instantiation fail |
| SpriteGrid.GridManager.CreateGrid | Assets/script/NewMonoBehaviourScript.cs:34-58 | without a prefab on a non-empty grid the first instantiation fails and nothing is stored; otherwise every slot holds a fresh instance of the prefab, and a Tile component, when present, records its slot |
| SpriteGrid.GridManager.Update | Assets/script/NewMonoBehaviourScript.cs:60-145 | a click on a tile moves the selection as SelectStep says and has SelectTile's effects: the first click highlights and the repeated click un-highlights with the board unchanged, and a different tile is swapped with the first, the board becoming Swap of the old board, both coordinates exchanged and both un-highlighted; any other frame changes nothing |
| SpriteGrid.GridManager.SelectTile | Assets/script/NewMonoBehaviourScript.cs:92-117 | the selection moves as SelectStep says; the first click highlights and the repeated click un-highlights, with the board unchanged; a different tile is swapped with the first, both coordinates exchanged and both un-highlighted |
| SpriteGrid.GridManager.SwapTiles | Assets/script/NewMonoBehaviourScript.cs:120-145 | the board becomes Swap of the old board at the two tiles' cells, each tile records the other's old cell, both are un-highlighted, the selection is cleared and the board stays coherent |
| SpriteGrid.GridManager.ExchangeSlots | Assets/script/NewMonoBehaviourScript.cs:127-138 | two tiles that sit in their recorded slots trade slots and coordinates: the board becomes Swap of the old board at their cells and stays coherent |

## Left out

- World positions, tile spacing from collider size and scale, the centring offset and the frame-by-frame `Vector3.Lerp` swap animation are floating point and frame timing. The animation is the abstract phase between `StartSwapAnimation` and `FinishSwapAnimation`. Whether it ends is up to the caller of `FinishSwapAnimation`.
- Hit-testing (`ScreenPointToRay`, `Physics.Raycast`, `Physics2D.Raycast`, `GetComponentInParent`) is engine physics. `Update` and `SelectTile` receive the tile the hit-test resolved.
- ContainerGrid.GridManager.SelectTile: requires the clicked container to be on the board. A click on a container outside the grid is not modelled.
- SpriteGrid.GridManager.SelectTile: requires the clicked tile to be on the board. A click on a tile outside the grid is not modelled.
- ContainerGrid.GridManager.Update: requires a valid board, so frames after an aborted `CreateGrid`, when `grid` is null, are not modelled.
- SpriteGrid.GridManager.Update: requires a valid board, so frames after an aborted `Start` are not modelled.
- `Instantiate` is modelled only as a fresh object that carries the prefab's values. `transform.parent`, the object's name, `ClearAllContainers`, `Destroy`/`DestroyImmediate` and the editor context menus are Unity object lifecycle calls.
- Colours are an abstract enumeration. An RGBA value read from a material is one opaque `Paint` colour.
- `Tile_Container.GenerateStructures` and the text of the map layouts are not part of this model. `GenerateStructures` only records the rows it was run on. It is assumed to leave the coordinates and `isSwappable` alone.
- A null element of `tileLayouts` is not modelled; the source would throw at line 73.
- `Instantiate` does not run `Start`, so `CreateGrid` returns before any container has cached a renderer: every container it builds has no cached renderer.
- SpriteGrid keeps a GameObject without a Tile component as `Plain`. The identity of such GameObjects is not tracked.
- C# `int` is 32 bits, but the model uses unbounded integers. The blueprint index `y * gridWidth + x` cannot overflow for arrays Unity can allocate.
- `Assets/script/Adventurer.cs` (character movement by raycasts and floats), `Assets/script/Tile_Container.cs` (another grid manager that only places prefabs) and `Assets/script/Structure_Holder.cs` (child-object replacement in the scene graph) are not part of this model.
