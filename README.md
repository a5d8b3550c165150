# Mahjong solitaire level engine, modelled in Dafny

This project models the core of a Unity Mahjong-solitaire game (KOTik92/Mahjong)
and proves properties of that model. The core covers four parts:

- **Tile**: a tile's neighbour flags, layer, type and activity, and the
  "darkened" rule that marks a tile the player may not take.
- **LevelGenerator**: loads a level's placements and stacks the layers. It
  computes each tile's left, right and up neighbours, then deals the shown
  tiles in pairs. Each pair shares one icon, and tiles are grouped by how many
  sides are blocked. The generator also clears, restarts and replaces levels,
  and runs the "auto" solver.
- **InteractionLevel**: the click handling that holds a tile, lowers it,
  refuses blocked tiles, drops mismatches and removes matched pairs.
- **LevelExporter**: turns a scene's layers into level data. Each layer is
  sorted by `x + 1000 * z` with a stable sort, and only levels with an even
  tile count are written.

Modules, one per concept:

| file | module | contents |
|---|---|---|
| `tile.dfy` | `Tiles` | class `Tile`, `TileView` snapshots, `BlockedSides`, `Darkened` |
| `adjacency.dfy` | `Adjacency` | the neighbour relation over snapshots; `Recompute` is one CheckNeighbors pass |
| `buckets.dfy` | `Buckets` | `CountBlockedSides`, the LINQ `Where` filters, the three accessibility buckets |
| `sequences.dfy` | `Sequences` | duplicate-free sequences and multiset facts |
| `pair_table.dfy` | `PairTable` | the pair table `_tilePairs` as a map from ids to pairs |
| `randomness.dfy` | `Randomness` | `UnityEngine.Random.Range` as a threaded random state |
| `level_exporter.dfy` | `LevelExport` | level data, the stable sort, `Export` |
| `stacking.dfy` | `Stacking` | how loading assigns layers and heights |
| `level_generator.dfy` | `LevelGeneration` | class `LevelGenerator` |
| `interaction.dfy` | `Interaction` | the click decision and class `InteractionLevel` |

`Tile`, `LevelGenerator` and `InteractionLevel` are classes. Their methods
update fields in place, as the C# does. Each method is specified against pure
functions over `TileView` snapshots (`Views(allTiles)`), and the properties the
game relies on are proved about those functions:

- one CheckNeighbors pass makes every flag agree with the geometry;
- a second pass changes nothing;
- the three buckets split the shown tiles;
- a deal pairs every shown tile but at most one;
- completion draws and deals a fresh level.

## Model

| member | source | states |
|---|---|---|
| Tiles.BlockedSides | Assets/Scripts/Level/Tile.cs:79-84 | the count is at most 3; it is 0 iff no side is blocked, 3 iff all three are, and at least 2 iff two of the three flags are set |
| Tiles.Darkened | Assets/Scripts/Level/Tile.cs:79-89 | a tile is drawn darkened iff a tile lies on top of it or it is blocked on both the left and the right |
| Tiles.Tile.constructor | Assets/Scripts/Level/Tile.cs:44-50 | a new tile has no type, layer 0, no neighbour flags, is not activated and is hidden |
| Tiles.Tile.SetHasRight | Assets/Scripts/Level/Tile.cs:9-17 | sets the right-neighbour flag and nothing else |
| Tiles.Tile.SetHasLeft | Assets/Scripts/Level/Tile.cs:19-27 | sets the left-neighbour flag and nothing else |
| Tiles.Tile.SetHasUp | Assets/Scripts/Level/Tile.cs:29-37 | sets the up-neighbour flag and nothing else |
| Tiles.Tile.Init | Assets/Scripts/Level/Tile.cs:52-58 | sets the layer and activates the tile, cancelling a pending hide |
| Tiles.Tile.Deactivate | Assets/Scripts/Level/Tile.cs:60-68 | the tile leaves play at once; it stays shown, with its hide pending until the scale-out tween ends |
| Tiles.Tile.FinishHiding | Assets/Scripts/Level/Tile.cs:64-67 | the tween's completion: a tile whose hide is pending becomes hidden |
| Tiles.Tile.SetActive | Assets/Scripts/Level/LevelGenerator.cs:68 | `gameObject.SetActive`: sets whether the tile is shown and nothing else |
| Tiles.Tile.SetIcon | Assets/Scripts/Level/Tile.cs:70-77 | sets the tile's type and nothing else |
| Buckets.CountBlockedSides | Assets/Scripts/Level/LevelGenerator.cs:214-221 | the number of blocked sides, at most 3 |
| Buckets.Where | Assets/Scripts/Level/LevelGenerator.cs:161-163 | the filter keeps exactly the selected tiles of the list, and is no longer than the list |
| Buckets.WhereDistinct | Assets/Scripts/Level/LevelGenerator.cs:161-163 | a filter of a duplicate-free list is duplicate-free |
| Buckets.BucketsPartitionShown | Assets/Scripts/Level/LevelGenerator.cs:161-163 | the open, semi-open and closed buckets together hold exactly the shown tiles, each once |
| Buckets.BucketsOfList | Assets/Scripts/Level/LevelGenerator.cs:159-172 | the buckets split the shown tiles, which are duplicate-free, and lie within the tile list |
| Buckets.BucketsDisjoint | Assets/Scripts/Level/LevelGenerator.cs:161-163 | no tile falls into two different buckets |
| Adjacency.RecomputeMakesCurrent | Assets/Scripts/Level/LevelGenerator.cs:76-157 | after one pass every active tile's left, right and up flags agree with the geometry of the other active tiles |
| Adjacency.RecomputeChangesOnlyFlags | Assets/Scripts/Level/LevelGenerator.cs:76-85 | a pass changes only neighbour flags, and only of active tiles; inactive tiles are skipped |
| Adjacency.CurrentIffFixedPoint | Assets/Scripts/Level/LevelGenerator.cs:76-85 | the flags are current exactly when a pass changes nothing |
| Adjacency.RecomputeIdempotent | Assets/Scripts/Level/LevelGenerator.cs:76-85 | running CheckNeighbors twice gives the same flags as running it once |
| Adjacency.CurrentIgnoresTypes | Assets/Scripts/Level/LevelGenerator.cs:159-203 | dealing types does not make current flags stale |
| Adjacency.RightLeftMirror | Assets/Scripts/Level/LevelGenerator.cs:112-120 | `a` meets `b` on its right exactly when `b` meets `a` on its left |
| Adjacency.TouchingTilesSeeEachOther | Assets/Scripts/Level/LevelGenerator.cs:87-124 | two active tiles of one layer that touch edge to edge each get the flag for that side |
| Adjacency.CoveredTileHasUp | Assets/Scripts/Level/LevelGenerator.cs:126-157 | an active tile with an active tile of the next layer resting on it gets the up flag |
| Adjacency.UncoveredTileHasNoUp | Assets/Scripts/Level/LevelGenerator.cs:126-157 | an active tile with no active tile in the next layer has no up flag |
| Adjacency.NeighborAmongStep | Assets/Scripts/Level/LevelGenerator.cs:99-123 | scanning one more tile finds a neighbour iff one was found already or the new tile is one |
| LevelGeneration.LevelGenerator.constructor | Assets/Scripts/Level/LevelGenerator.cs:18-35 | an empty board at height 0 with an empty pair table and a zero pair-id counter |
| LevelGeneration.LevelGenerator.CheckHorizontalNeighbors | Assets/Scripts/Level/LevelGenerator.cs:87-124 | the tile's right and left flags say whether some other active tile of its layer, in its row, meets that edge |
| LevelGeneration.LevelGenerator.CheckVerticalNeighbors | Assets/Scripts/Level/LevelGenerator.cs:126-157 | the tile's up flag says whether some other active tile of the next layer rests on it |
| LevelGeneration.LevelGenerator.CheckNeighbors | Assets/Scripts/Level/LevelGenerator.cs:76-85 | the tile list after the pass is `Recompute` of the list before it, and no tile is shown or hidden by it |
| Adjacency.Recompute | Assets/Scripts/Level/LevelGenerator.cs:76-157 | one CheckNeighbors pass over snapshots, defined by `Refresh` per tile: an active tile's left, right and up flags are set from the neighbour scans, and an inactive tile is kept. The contract states one snapshot per tile; what the pass achieves is stated by the lemmas below |
| LevelGeneration.LevelGenerator.Placed | Assets/Scripts/Level/LevelGenerator.cs:66-71 | a placed tile is active and shown, untyped and unflagged, at the placement's x and z and the slot's height and layer |
| LevelGeneration.LevelGenerator.PlaceTile | Assets/Scripts/Level/LevelGenerator.cs:66-71 | a fresh tile in the placed state |
| LevelGeneration.LevelGenerator.LoadLevelFromJson | Assets/Scripts/Level/LevelGenerator.cs:53-74 | appends one fresh placed tile per placement, in file order, at the slot `LoadSlots` gives; the height ends at `FinalHeight`; the list stays duplicate-free |
| Stacking.LoadSlots | Assets/Scripts/Level/LevelGenerator.cs:56-64 | the layer and height the load loop gives each placement. The contract states one slot per placement; `LayerIsRunningMax` and `HeightStepsWithLayer` state the layer and height rules |
| Randomness.Range | Assets/Scripts/Level/LevelGenerator.cs:39 | `Random.Range(lo, hi)` on integers: the draw lies in `[lo, hi)` and consumes exactly one number of the stream |
| Stacking.LayerIsRunningMax | Assets/Scripts/Level/LevelGenerator.cs:56-64 | the layer a tile is loaded on is the running maximum of 0 and the placement layers so far |
| Stacking.HeightStepsWithLayer | Assets/Scripts/Level/LevelGenerator.cs:60-64 | the height rises by exactly one layer height when the layer rises, however far it jumps, and never otherwise |
| Stacking.LoadSlotsPrefix | Assets/Scripts/Level/LevelGenerator.cs:58-73 | loading a prefix of the placements gives a prefix of the slots |
| Stacking.SortedPlacementsKeepLayers | Assets/Scripts/Level/LevelGenerator.cs:56-64 | placements in non-decreasing layer order from 0 up load every tile on its own layer |
| Stacking.ExportedLevelKeepsLayers | Assets/Scripts/Level/LevelExporter.cs:35-66 | a level written by the exporter loads every tile on the layer it was exported from |
| LevelGeneration.LevelGenerator.Shuffle | Assets/Scripts/Level/LevelGenerator.cs:205-212 | the result is a permutation of the list; one random draw per element |
| LevelGeneration.LevelGenerator.MakePair | Assets/Scripts/Level/LevelGenerator.cs:195-200 | records the pair under the next id, bumps the counter, and gives both tiles one type from the icon set |
| LevelGeneration.LevelGenerator.CreatePairsForTileGroup | Assets/Scripts/Level/LevelGenerator.cs:179-203 | deals the group into `len / 2` new pairs with consecutive ids, each sharing one icon; the new pairs and the one odd tile left over make up the group exactly; every tile outside the new pairs keeps its type |
| LevelGeneration.LevelGenerator.DealGroups | Assets/Scripts/Level/LevelGenerator.cs:165-172 | the three buckets' pairs and leftovers together make up the shown tiles exactly; every tile outside the new pairs keeps its type |
| LevelGeneration.LevelGenerator.DealShown | Assets/Scripts/Level/LevelGenerator.cs:165-174 | the new pairs hold `shown / 2` pairs of distinct shown tiles sharing icons; earlier pairs stay; every tile outside the new pairs keeps its type |
| LevelGeneration.LevelGenerator.AssignTileIcons | Assets/Scripts/Level/LevelGenerator.cs:159-177 | appends `shown / 2` pairs of distinct shown tiles to the table, which is not cleared; each pair shares an icon; only tile types change, and only those of the tiles in the new pairs |
| LevelGeneration.LevelGenerator.ClearingLevel | Assets/Scripts/Level/LevelGenerator.cs:231-242 | hides every listed tile, then empties the list and the pair table and zeroes the height and counter |
| LevelGeneration.LevelGenerator.LoadAndCheck | Assets/Scripts/Level/LevelGenerator.cs:226-227 | on an empty board: one fresh, untyped, active and shown tile per placement, in file order, each at its placement's x and z and on its slot's layer and height, with the height where the load leaves it and every flag current |
| LevelGeneration.LevelGenerator.BuildLevel | Assets/Scripts/Level/LevelGenerator.cs:226-228 | load, flags and deal give a newly dealt level: the tiles laid out one per placement on their slots' layers and heights, all active and shown, flags current, paired but one when odd, pairs sharing icons; the one unpaired tile keeps no type |
| LevelGeneration.LevelGenerator.DealLoaded | Assets/Scripts/Level/LevelGenerator.cs:228 | the deal on a freshly loaded board pairs it; the tiles outside the pairs keep their types, and no field but the type changes on any tile |
| LevelGeneration.LevelGenerator.DealChecked | Assets/Scripts/Level/LevelGenerator.cs:227-228 | dealing a checked board keeps every flag current, and the tile no pair takes stays untyped |
| LevelGeneration.LevelGenerator.Start | Assets/Scripts/Level/LevelGenerator.cs:37-44 | draws the level from the random state, then leaves it newly dealt and laid out by that level's placements |
| LevelGeneration.LevelGenerator.RestartLevel | Assets/Scripts/Level/LevelGenerator.cs:223-229 | the same level, newly dealt and laid out again by its placements; every old tile is hidden |
| LevelGeneration.LevelGenerator.CheckCompletionLevel | Assets/Scripts/Level/LevelGenerator.cs:244-257 | with no active tile left, draws a level and deals it afresh, hiding the old tiles; otherwise the level, table, random state and every tile stay as they were, each tile shown exactly when it was |
| LevelGeneration.LevelGenerator.RefreshAfterMatch | Assets/Scripts/Level/InteractionLevel.cs:53-54 | after a match the flags are current and, when nothing is left in play, a newly drawn level is dealt; otherwise the tile list, level and table are kept and every tile is shown exactly when it was; a completed level's old tiles are all hidden; no tile enters or leaves play or gains or loses a pending hide, so every list keeps its number of tiles in play |
| LevelGeneration.LevelGenerator.DeactivatePairs | Assets/Scripts/Level/LevelGenerator.cs:270-279 | every tile in some pair of the table leaves play with its hide pending; no other tile changes |
| LevelGeneration.LevelGenerator.Auto | Assets/Scripts/Level/LevelGenerator.cs:264-285 | a new level is drawn and dealt exactly when the pairs held every active tile; otherwise only the paired tiles leave play, with their hides pending; every other tile keeps its activity and pending hide, and every tile is shown exactly when it was |
| LevelGeneration.LevelGenerator.DealtCoverage | Assets/Scripts/Level/LevelGenerator.cs:159-203 | right after a deal the pairs hold every tile iff the tile count is even, so Auto completes an odd level never |
| LevelGeneration.LevelGenerator.ShareIconAppend | Assets/Scripts/Level/LevelGenerator.cs:165-174 | two runs of icon-sharing pairs share icons together |
| PairTable.EvenDealCovers | Assets/Scripts/Level/LevelGenerator.cs:159-177 | when distinct pairs of shown tiles number half of them, every shown tile is paired |
| PairTable.PairsCover | Assets/Scripts/Level/LevelGenerator.cs:183-202 | the pairs taken two at a time from the front of a shuffled group, plus what remains, make up the group |
| PairTable.LeftoversDealt | Assets/Scripts/Level/LevelGenerator.cs:169-174 | dealing the leftovers after the buckets pairs distinct tiles, `shown / 2` pairs in all |
| LevelExport.OrderByKey | Assets/Scripts/Level/LevelExporter.cs:48 | `OrderBy(x + 1000 * z)` as an insertion sort that puts a point before the first point whose key is not smaller. The contract states that no point is lost or added in number; `OrderByKeySorted` and `OrderByKeyStable` state order, permutation and stability |
| LevelExport.InsertPermutes | Assets/Scripts/Level/LevelExporter.cs:48 | insertion adds exactly the inserted point |
| LevelExport.OrderByKeySorted | Assets/Scripts/Level/LevelExporter.cs:48 | the sort orders points by `x + 1000 * z` and is a permutation |
| LevelExport.OrderByKeyStable | Assets/Scripts/Level/LevelExporter.cs:48 | the sort is stable: points with equal keys keep their relative order |
| LevelExport.Flatten | Assets/Scripts/Level/LevelExporter.cs:35-53 | the export loop over layers, each layer's children sorted and tagged with the layer's index. The contract states one entry per child; `FlattenShape` and `FlattenLayer` state the layer order and contents |
| LevelExport.FlattenShape | Assets/Scripts/Level/LevelExporter.cs:35-53 | the collected list holds every child once, layer indices are in range and never decrease |
| LevelExport.FlattenLayer | Assets/Scripts/Level/LevelExporter.cs:35-53 | the entries of layer `i` are that layer's children, sorted |
| LevelExport.Export | Assets/Scripts/Level/LevelExporter.cs:28-75 | level data is produced iff the tile count is even; it carries the level name and the flattened, sorted placements |
| Interaction.Decide | Assets/Scripts/Level/InteractionLevel.cs:33-58 | a click is refused iff the tile is darkened; otherwise it holds the tile when nothing is held, keeps the held tile when it is clicked again, drops on a type mismatch, and matches two different tiles of one type |
| Interaction.Deactivated | Assets/Scripts/Level/Tile.cs:60-68 | the snapshot of a deactivated tile: out of play, hide pending, all else kept |
| Interaction.InPlayUpdate | Assets/Scripts/Level/LevelGenerator.cs:246 | replacing one tile changes the in-play count by the two versions' difference |
| Interaction.TwoLeavePlay | Assets/Scripts/Level/InteractionLevel.cs:50-51 | deactivating two different in-play tiles takes exactly two out of play |
| Interaction.OutOfPlayMatch | Assets/Scripts/Level/InteractionLevel.cs:44-51 | a tile already out of play but still shown is matched with the held tile, and only one tile leaves play |
| Interaction.DecideInPlay | Assets/Scripts/Level/InteractionLevel.cs:44-51 | the corrected decision: a match needs both tiles in play; any other outcome is the original one or a mismatch |
| Interaction.InPlayMatchTakesTwo | Assets/Scripts/Level/InteractionLevel.cs:50-51 | with the corrected decision, every match takes exactly two tiles out of play |
| Interaction.InteractionLevel.constructor | Assets/Scripts/Level/InteractionLevel.cs:9 | nothing held, nothing lifted |
| Interaction.StaleHeldMatch | Assets/Scripts/Level/InteractionLevel.cs:40-55 | as written, a tile held across a restart is hidden but still active, and matching it with a new tile of its type takes only one of the level's tiles out of play |
| Interaction.InPlaySetCount | Assets/Scripts/Level/LevelGenerator.cs:246 | the tiles in play of a duplicate-free list are exactly as many as its snapshots in play |
| Interaction.TakeOut | Assets/Scripts/Level/InteractionLevel.cs:50-51 | two different listed tiles in play both leave play with their hides pending; every other listed tile keeps its activity, pending hide and visibility; the list's tiles in play drop by exactly two, and the level is then complete iff no other tile was in play |
| Interaction.MatchAndRefresh | Assets/Scripts/Level/InteractionLevel.cs:50-54 | a match of two listed tiles in play, stated against the generator's state at the call (`KeptAfterMatch`): both leave play with their hides pending; no other listed tile changes activity or pending hide; when the pair was all that was left, every old tile is hidden and a new level is drawn, and otherwise the same tiles stay, each shown exactly when it was; the old list's tiles in play drop by exactly two |
| Interaction.InteractionLevel.Lower | Assets/Scripts/Level/InteractionLevel.cs:24-31 | a held tile other than the clicked one comes down one step; no other lift changes |
| Interaction.InteractionLevel.Click | Assets/Scripts/Level/InteractionLevel.cs:20-63 | the held tile other than the clicked one is lowered first, before the blocked check, so it comes down even when the click is then refused; the outcome is `DecideInPlay` on the state before the click, so a match needs a held tile that the level lists and both tiles in play; holding or re-clicking leaves the clicked tile held and raised, any other outcome drops the selection; only a match changes tiles or the level; a match takes both tiles out of play with their hides pending, changes no other tile's activity or pending hide, recomputes flags, and either draws a new level and hides every old tile, when nothing else was in play, or keeps every tile shown exactly when it was, so the next click on a shown tile composes |
| Interaction.InteractionLevel.TakePair | Assets/Scripts/Level/InteractionLevel.cs:50-55 | the selection is dropped and lowered, and the generator's side of the match holds as `MatchAndRefresh` states it: the pair leaves play with hides pending, no other tile changes activity or pending hide, and the old tiles are all hidden after a completed level or each shown as before |
| Interaction.InteractionLevel.Release | Assets/Scripts/Level/InteractionLevel.cs:24-31 | the held tile, raised by one step, comes back down to its place and nothing is held any more (the `_tile = null` of line 52) |

## Left out

- Pooling: `Pool.GetTile` reuses hidden tiles. The model places a fresh tile
  per placement, so stale flags or types on a reused tile are not modelled.
  Pool.cs is not part of this model.
- JSON parsing and file I/O: levels are given as `LevelData` values, and
  `Export` returns the level data instead of writing a file.
- Input and ray casting: `Click` receives the hit tile.
- LevelGeneration.LevelGenerator.constructor: requires `levels` and
  `tileIcons` to be non-empty. The inspector arrays `jsonFiles` and
  `tileIcons` are never checked in the C#. When they are empty it throws
  IndexOutOfRangeException at LevelGenerator.cs:39 and 250 (`jsonFiles`) and
  at LevelGenerator.cs:198 (`tileIcons`). The model does not model that
  exception.
- Interaction.InteractionLevel.Click: requires the clicked tile to be a shown tile of the generator's list.
  A collider hit is only possible on a shown tile, and every tile in the scene
  comes from the list.
- Rendering: materials, colours, sprites and gizmos are left out. The darkened
  colour is the predicate `Darkened`, and an icon is only its `TileType`.
- DOTween timing: the half-unit raise and lower moves are recorded as a lift
  count per tile, not as positions. The end of the 0.3 s scale-out is a
  separate `FinishHiding` step.
- Auto's per-pair `WaitForSeconds` and the buttons' `interactable` toggling are
  left out. Nothing else can run between Auto's steps in the model.
- Start's button listener wiring is left out. The shuffle button's
  `AssignTileIcons` is modelled as the method itself.
- Floating point: positions and thresholds are real numbers.
  `float.Epsilon` in the horizontal test is dropped, and rounding is not
  modelled.
- Randomness: `Random.Range` draws from an explicit stream of numbers. Every
  sequence of results the engine could produce is one such stream; the
  distribution is not modelled.
- LevelGeneration.LevelGenerator.Shuffle: promises only that the result is a
  permutation and that one number is drawn per element. Which permutation
  comes out depends on the stream.
- `Debug.Log` calls are left out.
- A held tile that the pool hands out again for the new level after a
  restart is outside the model, since the model places fresh tiles. In the
  C# such a tile is listed again with a new type, `_tile` still points at
  it, and the next click lowers it below its slot. Clearing `_tile` on a
  restart would remove both this case and the stale held tile of the
  Findings.

## Findings

| source | as written | input that shows it | evidently intended | confidence | as-written member | corrected member |
|---|---|---|---|---|---|---|
| Assets/Scripts/Level/InteractionLevel.cs:44-51 | a match checks only the two types, never whether the clicked tile is still in play | hold a tile, then click a tile of the same type that was just matched: it is out of play but still shown during its 0.3 s scale-out | a match takes two tiles that are both in play, so exactly two leave play | medium, not executed | Interaction.OutOfPlayMatch | Interaction.InPlayMatchTakesTwo |
| Assets/Scripts/Level/InteractionLevel.cs:40-55 | `_tile` survives a restart: ClearingLevel hides and unlists the old tiles but leaves the held tile held and still active | hold a tile, restart the level while the pool builds the new level from tiles other than the held one, then click a new tile of the held tile's type: both are deactivated, but only one listed tile leaves play and its partner is stranded | a held tile that is no longer listed counts as no selection, so every match takes exactly two listed tiles out of play | medium, not executed | Interaction.StaleHeldMatch | Interaction.MatchAndRefresh |

`Interaction.Decide` is the decision as written. `Interaction.DecideInPlay`
is the corrected decision, and `Interaction.InteractionLevel.Click` uses it.
Clicking a tile already out of play, with the held tile's type, therefore drops
the selection as a mismatch does. A held tile that the level no longer lists
counts as no selection, so the click holds the new tile. `Click` reaches a
match only with a listed held tile and both tiles in play, which is what
`Interaction.MatchAndRefresh` requires. That method then proves that exactly
two listed tiles leave play. Every other branch of `Click` follows the code.
