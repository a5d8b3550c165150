/** LevelGenerator: loads a level's placements into tiles, recomputes every
    tile's neighbour flags, deals matching types out in pairs, and restarts,
    reloads or auto-solves the level. */
module LevelGeneration {
  import opened Tiles
  import opened Adjacency
  import opened Randomness
  import opened Sequences
  import opened LevelExport
  import opened Stacking
  import opened Buckets
  import opened PairTable

  class LevelGenerator {
    /** The level files (jsonFiles), each already read as its LevelData. */
    const levels: seq<LevelData>
    /** The types of tileIcons, in inspector order. */
    const tileIcons: seq<TileType>
    const layerHeight: real
    /** overlapThreshold and zAlignmentThreshold. */
    const thresholds: Thresholds
    /** The tile prefab's mesh scale: every tile's width, height and depth. */
    const tileWidth: real
    const tileHeight: real
    const tileDepth: real

    var allTiles: seq<Tile>
    var height: real
    var tilePairs: map<int, TilePair>
    var pairIdCounter: int
    /** Index of _currentLevel in `levels`. */
    var currentLevel: nat
    /** The state of UnityEngine.Random. */
    var random: RandomState

    /** Pair ids run from 0 up to the counter, with no gaps. */
    ghost predicate PairIds()
      reads this
    {
      pairIdCounter >= 0 && forall k :: k in tilePairs <==> 0 <= k < pairIdCounter
    }

    /** All pairs in id order (Dictionary order: ids are inserted ascending). */
    ghost function Pairs(): seq<TilePair>
      reads this
      requires PairIds()
    {
      Entries(tilePairs, 0, pairIdCounter)
    }

    ghost predicate Valid()
      reads this
    {
      && |levels| > 0 && |tileIcons| > 0 && currentLevel < |levels|
      && Distinct(allTiles)
      && PairIds()
      && forall t :: t in Flat(Pairs()) ==> t in allTiles
    }

    constructor (levels: seq<LevelData>, tileIcons: seq<TileType>, layerHeight: real, thresholds: Thresholds,
                 tileWidth: real, tileHeight: real, tileDepth: real, random: RandomState)
      requires |levels| > 0 && |tileIcons| > 0
      ensures Valid()
      ensures this.levels == levels && this.tileIcons == tileIcons && this.layerHeight == layerHeight
      ensures this.thresholds == thresholds && this.random == random
      ensures this.tileWidth == tileWidth && this.tileHeight == tileHeight && this.tileDepth == tileDepth
      ensures allTiles == [] && height == 0.0 && tilePairs == map[] && pairIdCounter == 0
    {
      this.levels := levels;
      this.tileIcons := tileIcons;
      this.layerHeight := layerHeight;
      this.thresholds := thresholds;
      this.tileWidth, this.tileHeight, this.tileDepth := tileWidth, tileHeight, tileDepth;
      this.random := random;
      allTiles := [];
      height := 0.0;
      tilePairs := map[];
      pairIdCounter := 0;
      currentLevel := 0;
    }

    /** Sets tile i's right and left flags from the active tiles of its layer
        that touch it; stops scanning once both are set. */
    method CheckHorizontalNeighbors(tile: Tile, ghost i: nat)
      requires Distinct(allTiles) && i < |allTiles| && allTiles[i] == tile
      modifies tile`hasRight, tile`hasLeft
      ensures tile.hasRight == RightNeighborIn(old(Views(allTiles)), i, thresholds)
      ensures tile.hasLeft == LeftNeighborIn(old(Views(allTiles)), i, thresholds)
    {
      ghost var vs := Views(allTiles);
      tile.SetHasRight(false);
      tile.SetHasLeft(false);
      var n := 0;
      while n < |allTiles|
        invariant 0 <= n <= |allTiles|
        invariant tile.hasRight == RightNeighborAmong(vs, i, n, thresholds)
        invariant tile.hasLeft == LeftNeighborAmong(vs, i, n, thresholds)
      {
        var other := allTiles[n];
        assert n != i ==> other != tile;
        assert other.layer == vs[n].layer && other.isActivate == vs[n].active && other.box == vs[n].box;
        assert tile.layer == vs[i].layer && tile.box == vs[i].box;
        NeighborAmongStep(vs, i, n, thresholds);
        if other.layer == tile.layer && other != tile && other.isActivate
          && ZAligned(tile.box, other.box, thresholds)
        {
          if MeetsOnRight(tile.box, other.box, thresholds) {
            tile.SetHasRight(true);
          }
          if MeetsOnLeft(tile.box, other.box, thresholds) {
            tile.SetHasLeft(true);
          }
          if tile.hasRight && tile.hasLeft {
            assert RightNeighborAmong(vs, i, n + 1, thresholds) && LeftNeighborAmong(vs, i, n + 1, thresholds);
            break;
          }
        }
        n := n + 1;
      }
    }

    /** Sets tile i's up flag: some active tile of the next layer rests on it. */
    method CheckVerticalNeighbors(tile: Tile, ghost i: nat)
      requires Distinct(allTiles) && i < |allTiles| && allTiles[i] == tile
      modifies tile`hasUp
      ensures tile.hasUp == UpNeighborIn(old(Views(allTiles)), i, thresholds)
    {
      ghost var vs := Views(allTiles);
      tile.SetHasUp(false);
      var n := 0;
      while n < |allTiles|
        invariant 0 <= n <= |allTiles|
        invariant !tile.hasUp
        invariant forall k :: 0 <= k < n && k != i && vs[k].active && vs[k].layer == vs[i].layer + 1
                    ==> !RestsOn(vs[i].box, vs[k].box, thresholds)
      {
        var other := allTiles[n];
        assert n != i ==> other != tile;
        if other != tile && other.isActivate && other.layer == tile.layer + 1
          && RestsOn(tile.box, other.box, thresholds)
        {
          tile.SetHasUp(true);
          break;
        }
        n := n + 1;
      }
    }

    /** One pass over all tiles: every active tile's flags are recomputed from
        the positions, layers and activity of the others; inactive tiles are
        left as they are. */
    method CheckNeighbors()
      requires Distinct(allTiles)
      modifies allTiles`hasLeft, allTiles`hasRight, allTiles`hasUp
      ensures Views(allTiles) == Recompute(old(Views(allTiles)), thresholds)
      ensures forall t :: t in allTiles ==> t.activeSelf == old(t.activeSelf)
    {
      ghost var vs := Views(allTiles);
      for n := 0 to |allTiles|
        invariant forall k :: 0 <= k < |allTiles| ==>
          allTiles[k].View() == if k < n then Refresh(vs, k, thresholds) else vs[k]
      {
        var tile := allTiles[n];
        ghost var cur := Views(allTiles);
        if tile.isActivate {
          PartialFootprint(cur, vs, n, thresholds);
          FootprintDecides(cur, vs, n, thresholds);
          CheckHorizontalNeighbors(tile, n);
          ghost var mid := Views(allTiles);
          forall k | 0 <= k < |allTiles| && k != n ensures mid[k] == cur[k] {
            assert allTiles[k] != tile;
          }
          PartialFootprint(mid, vs, n, thresholds);
          FootprintDecides(mid, vs, n, thresholds);
          CheckVerticalNeighbors(tile, n);
        }
        assert tile.View() == Refresh(vs, n, thresholds);
        forall k | 0 <= k < |allTiles| && k != n
          ensures allTiles[k].View() == cur[k]
        {
          assert allTiles[k] != tile;
        }
      }
    }

    /** What a tile looks like right after it is placed: at the placement's
        x and z, at the slot's height and on the slot's layer, active, shown,
        no type and no neighbours yet. */
    function Placed(td: TileData, slot: Slot): (v: TileView)
      ensures v.active && v.shown && !v.hidePending && v.tileType == TileType.None
      ensures !v.hasLeft && !v.hasRight && !v.hasUp
      ensures v.box.x == td.x && v.box.z == td.z && v.box.y == slot.height && v.layer == slot.layer
    {
      TileView(Box(td.x, slot.height, td.z, tileWidth, tileHeight, tileDepth), slot.layer,
               true, true, false, TileType.None, false, false, false)
    }

    /** Instantiating the prefab at a placement, then Init: a fresh tile,
        shown and active, at the given height and layer. */
    method PlaceTile(tileData: TileData, height: real, layer: int) returns (tile: Tile)
      ensures fresh(tile) && tile.View() == Placed(tileData, Slot(layer, height))
    {
      tile := new Tile(Box(tileData.x, height, tileData.z, tileWidth, tileHeight, tileDepth));
      tile.SetActive(true);
      tile.Init(layer);
    }

    /** Appends one fresh, shown and active tile per placement of the current
        level, in file order, stacking heights as the layers rise. */
    method LoadLevelFromJson()
      requires Distinct(allTiles) && currentLevel < |levels|
      modifies this`allTiles, this`height
      ensures Distinct(allTiles)
      ensures var ps := levels[currentLevel].tiles;
        var slots := LoadSlots(ps, old(height), layerHeight);
        && |allTiles| == |old(allTiles)| + |ps|
        && allTiles[..|old(allTiles)|] == old(allTiles)
        && (forall k :: |old(allTiles)| <= k < |allTiles| ==> fresh(allTiles[k]))
        && (forall k :: |old(allTiles)| <= k < |allTiles| ==>
              allTiles[k].View() == Placed(ps[k - |old(allTiles)|], slots[k - |old(allTiles)|]))
        && height == FinalHeight(ps, old(height), layerHeight)
    {
      var ps := levels[currentLevel].tiles;
      ghost var o := |allTiles|;
      ghost var slots := LoadSlots(ps, height, layerHeight);
      var layer := 0;
      for n := 0 to |ps|
        invariant |allTiles| == o + n && allTiles[..o] == old(allTiles)
        invariant n == 0 ==> layer == 0 && height == old(height)
        invariant n > 0 ==> layer == slots[n - 1].layer && height == slots[n - 1].height
        invariant forall k :: o <= k < |allTiles| ==> fresh(allTiles[k])
        invariant forall k :: o <= k < |allTiles| ==> allTiles[k].View() == Placed(ps[k - o], slots[k - o])
        invariant Distinct(allTiles)
      {
        var tileData := ps[n];
        HeightStepsWithLayer(ps, n, old(height), layerHeight);
        if layer < tileData.layer {
          height := height + layerHeight;
          layer := tileData.layer;
        }
        var tile := PlaceTile(tileData, height, layer);
        DistinctSnoc(allTiles, tile);
        allTiles := allTiles + [tile];
      }
    }

    /** Fisher-Yates: position i is swapped with a position drawn from i up to
        the end. One draw per element. */
    method Shuffle<T>(list: seq<T>) returns (shuffled: seq<T>)
      modifies this`random
      ensures multiset(shuffled) == multiset(list) && |shuffled| == |list|
      ensures random == old(random).(next := old(random.next) + |list|)
    {
      shuffled := list;
      for i := 0 to |shuffled|
        invariant multiset(shuffled) == multiset(list) && |shuffled| == |list|
        invariant random == old(random).(next := old(random.next) + i)
      {
        var (randomIndex, next) := Range(random, i, |shuffled|);
        random := next;
        shuffled := shuffled[i := shuffled[randomIndex]][randomIndex := shuffled[i]];
      }
    }

    /** Both tiles of every listed pair carry the same type, one of tileIcons. */
    ghost predicate PairsShareIcon(ps: seq<TilePair>)
      reads Flat(ps)`tileType
    {
      FlatHasMembers(ps);
      forall p :: p in ps ==> p.first.tileType == p.second.tileType && p.first.tileType in tileIcons
    }

    /** Two runs of pairs that each share icons share them together. */
    lemma ShareIconAppend(a: seq<TilePair>, b: seq<TilePair>)
      requires PairsShareIcon(a) && PairsShareIcon(b)
      ensures PairsShareIcon(a + b)
    {
      FlatConcat(a, b);
    }

    /** The pairs with ids from `lo` on, in id order. */
    ghost function PairsFrom(lo: int): seq<TilePair>
      reads this
      requires PairIds() && 0 <= lo <= pairIdCounter
    {
      Entries(tilePairs, lo, pairIdCounter)
    }

    /** The pair with the next id: recorded in the table, then both tiles get
        one type drawn from tileIcons. */
    method MakePair(firstTile: Tile, secondTile: Tile)
      requires |tileIcons| > 0
      modifies this`tilePairs, this`pairIdCounter, this`random, firstTile`tileType, secondTile`tileType
      ensures pairIdCounter == old(pairIdCounter) + 1
      ensures tilePairs == old(tilePairs)[old(pairIdCounter) := TilePair(firstTile, secondTile)]
      ensures firstTile.tileType == secondTile.tileType && firstTile.tileType in tileIcons
      ensures random == old(random).(next := old(random.next) + 1)
    {
      var pairId := pairIdCounter;
      pairIdCounter := pairIdCounter + 1;
      tilePairs := tilePairs[pairId := TilePair(firstTile, secondTile)];
      var (index, next) := Range(random, 0, |tileIcons|);
      random := next;
      firstTile.SetIcon(tileIcons[index]);
      secondTile.SetIcon(tileIcons[index]);
    }

    /** Shuffles the group, then takes its tiles two at a time from the front:
        each two become the pair with the next id and share one type drawn
        from tileIcons. Returns what is left of the group: its odd tile, if
        any. Every caller passes a filter of the duplicate-free tile list. */
    method CreatePairsForTileGroup(tileGroup: seq<Tile>) returns (rest: seq<Tile>)
      requires PairIds() && |tileIcons| > 0 && Distinct(tileGroup)
      modifies this`tilePairs, this`pairIdCounter, this`random, tileGroup`tileType
      ensures PairIds()
      ensures pairIdCounter == old(pairIdCounter) + |tileGroup| / 2
      ensures |rest| == |tileGroup| % 2
      ensures Pairs() == old(Pairs()) + PairsFrom(old(pairIdCounter))
      ensures multiset(Flat(PairsFrom(old(pairIdCounter)))) + multiset(rest) == multiset(tileGroup)
      ensures PairsShareIcon(PairsFrom(old(pairIdCounter)))
      ensures forall t :: old(allocated(t)) && t !in Flat(PairsFrom(old(pairIdCounter))) ==>
        t.tileType == old(t.tileType)
    {
      var list := Shuffle(tileGroup);
      ghost var shuffled := list;
      ghost var c0 := pairIdCounter;
      ghost var made: seq<TilePair> := [];
      while |list| > 1
        invariant PairIds() && pairIdCounter == c0 + |made|
        invariant Pairs() == old(Pairs()) + made
        invariant PairsOf(made, shuffled) && list == shuffled[2 * |made|..]
        invariant forall p :: p in made ==>
                    p.first.tileType == p.second.tileType && p.first.tileType in tileIcons
        invariant forall t :: old(allocated(t)) && t !in Flat(made) ==> t.tileType == old(t.tileType)
      {
        var firstTile, secondTile := list[0], list[1];
        assert firstTile == shuffled[2 * |made|] && secondTile == shuffled[2 * |made| + 1];
        NextPairApart(made, shuffled, tileGroup);
        PairsOfSnoc(made, shuffled);
        list := list[2..];
        EntriesExtend(tilePairs, 0, pairIdCounter, TilePair(firstTile, secondTile));
        MakePair(firstTile, secondTile);
        AppendTwo(old(Pairs()), made, [TilePair(firstTile, secondTile)]);
        FlatSnoc(made, TilePair(firstTile, secondTile));
        made := made + [TilePair(firstTile, secondTile)];
      }
      rest := list;
      EntriesAfter(tilePairs, c0, pairIdCounter, old(Pairs()), made);
      PairsCover(made, shuffled, tileGroup);
      FlatHasMembers(made);
    }

    /** The first three CreatePairsForTileGroup calls of AssignTileIcons:
        the open, semi-open and closed groups dealt in turn. Returns what the
        three groups have left, in that order. */
    method DealGroups(openTiles: seq<Tile>, semiOpenTiles: seq<Tile>, closedTiles: seq<Tile>,
                      ghost shown: seq<Tile>) returns (remainingTiles: seq<Tile>)
      requires PairIds() && |tileIcons| > 0 && Distinct(shown)
      requires multiset(openTiles) + multiset(semiOpenTiles) + multiset(closedTiles) == multiset(shown)
      modifies this`tilePairs, this`pairIdCounter, this`random
      modifies openTiles`tileType, semiOpenTiles`tileType, closedTiles`tileType
      ensures PairIds() && pairIdCounter >= old(pairIdCounter)
      ensures Pairs() == old(Pairs()) + PairsFrom(old(pairIdCounter))
      ensures multiset(Flat(PairsFrom(old(pairIdCounter)))) + multiset(remainingTiles) == multiset(shown)
      ensures PairsShareIcon(PairsFrom(old(pairIdCounter)))
      ensures forall t :: old(allocated(t)) && t !in Flat(PairsFrom(old(pairIdCounter))) ==>
        t.tileType == old(t.tileType)
    {
      ThreeApart(shown, openTiles, semiOpenTiles, closedTiles);
      ghost var c0, p0 := pairIdCounter, Pairs();
      var restOpen := CreatePairsForTileGroup(openTiles);
      ghost var po, c1 := PairsFrom(c0), pairIdCounter;
      SplitApart(openTiles, Flat(po), restOpen);
      FlatHasMembers(po);
      label DealtOpen:
      var restSemiOpen := CreatePairsForTileGroup(semiOpenTiles);
      forall t | t in Flat(po) ensures t.tileType == old@DealtOpen(t.tileType) {
        assert t in openTiles;
      }
      assert PairsShareIcon(po);
      ghost var ps, c2 := PairsFrom(c1), pairIdCounter;
      SplitApart(semiOpenTiles, Flat(ps), restSemiOpen);
      FlatHasMembers(ps);
      label DealtSemiOpen:
      var restClosed := CreatePairsForTileGroup(closedTiles);
      forall t | t in Flat(po) || t in Flat(ps) ensures t.tileType == old@DealtSemiOpen(t.tileType) {
        assert t in openTiles || t in semiOpenTiles;
      }
      assert PairsShareIcon(po) && PairsShareIcon(ps);
      ghost var pc := PairsFrom(c2);
      remainingTiles := restOpen + restSemiOpen + restClosed;
      ThreeGroupsDealt(shown, openTiles, semiOpenTiles, closedTiles, po, ps, pc,
                       restOpen, restSemiOpen, restClosed);
      AppendThree(p0, po, ps, pc);
      EntriesAfter(tilePairs, c0, pairIdCounter, p0, po + ps + pc);
      ShareIconAppend(po, ps);
      ShareIconAppend(po + ps, pc);
      FlatThree(po, ps, pc);
      forall t | old(allocated(t)) && t !in Flat(po + ps + pc) ensures t.tileType == old(t.tileType) {
        assert t !in Flat(po) && t !in Flat(ps) && t !in Flat(pc);
      }
    }

    /** The dealing part of AssignTileIcons, after the filters: the three
        groups in turn, then what they have left, together. The tiles dealt
        are the shown ones, split among the groups; `tiles` holds them and
        every tile of the table. */
    method DealShown(tiles: seq<Tile>, openTiles: seq<Tile>, semiOpenTiles: seq<Tile>, closedTiles: seq<Tile>,
                     ghost shown: seq<Tile>)
      requires PairIds() && |tileIcons| > 0 && Distinct(shown)
      requires forall t :: t in shown ==> t in tiles
      requires forall t :: t in Flat(Pairs()) ==> t in tiles
      requires multiset(openTiles) + multiset(semiOpenTiles) + multiset(closedTiles) == multiset(shown)
      requires forall i :: 0 <= i < |openTiles| ==> openTiles[i] in tiles
      requires forall i :: 0 <= i < |semiOpenTiles| ==> semiOpenTiles[i] in tiles
      requires forall i :: 0 <= i < |closedTiles| ==> closedTiles[i] in tiles
      modifies this`tilePairs, this`pairIdCounter, this`random, tiles`tileType
      ensures PairIds() && pairIdCounter == old(pairIdCounter) + |shown| / 2
      ensures Pairs() == old(Pairs()) + PairsFrom(old(pairIdCounter))
      ensures Distinct(Flat(PairsFrom(old(pairIdCounter))))
      ensures forall t :: t in Flat(PairsFrom(old(pairIdCounter))) ==> t in shown
      ensures forall t :: t in Flat(Pairs()) ==> t in tiles
      ensures PairsShareIcon(PairsFrom(old(pairIdCounter)))
      ensures forall t :: old(allocated(t)) && t !in Flat(PairsFrom(old(pairIdCounter))) ==>
        t.tileType == old(t.tileType)
    {
      ghost var c0, p0 := pairIdCounter, Pairs();
      var remainingTiles := DealGroups(openTiles, semiOpenTiles, closedTiles, shown);
      ghost var pg, c1 := PairsFrom(c0), pairIdCounter;
      LeftoversWithin(shown, tiles, pg, remainingTiles);
      label DealtGroups:
      var restAll := CreatePairsForTileGroup(remainingTiles);
      forall t | t in Flat(pg) ensures t.tileType == old@DealtGroups(t.tileType) {
        assert t in tiles && t !in remainingTiles;
      }
      ghost var pr := PairsFrom(c1);
      AllDealt(tiles, shown, p0, pg, remainingTiles, pr, restAll);
      AppendTwo(p0, pg, pr);
      EntriesAfter(tilePairs, c0, pairIdCounter, p0, pg + pr);
      ShareIconAppend(pg, pr);
      FlatConcat(pg, pr);
    }

    /** Splits the shown tiles by how many sides are blocked (at most one,
        two, three), deals each group out in pairs, then deals what is left
        of the three groups together. The earlier pairs stay in the table;
        the new pairs pair up every shown tile but one when their number is
        odd, each pair sharing a type from tileIcons. */
    method AssignTileIcons()
      requires Valid()
      modifies this`tilePairs, this`pairIdCounter, this`random, allTiles`tileType
      ensures Valid()
      ensures pairIdCounter == old(pairIdCounter) + |old(Where(allTiles, ActiveSelf))| / 2
      ensures Pairs() == old(Pairs()) + PairsFrom(old(pairIdCounter))
      ensures Distinct(Flat(PairsFrom(old(pairIdCounter))))
      ensures forall t :: t in Flat(PairsFrom(old(pairIdCounter))) ==> t in old(Where(allTiles, ActiveSelf))
      ensures PairsShareIcon(PairsFrom(old(pairIdCounter)))
      ensures forall t :: t in allTiles && t !in Flat(PairsFrom(old(pairIdCounter))) ==>
        t.tileType == old(t.tileType)
      ensures Footprints(allTiles) == old(Footprints(allTiles))
    {
      var tiles := allTiles;
      var openTiles := Where(tiles, Bucket(Open));
      var semiOpenTiles := Where(tiles, Bucket(SemiOpen));
      var closedTiles := Where(tiles, Bucket(Closed));
      BucketsOfList(tiles);
      ghost var footprints := Footprints(tiles);
      DealShown(tiles, openTiles, semiOpenTiles, closedTiles, Where(tiles, ActiveSelf));
      assert Footprints(tiles) == footprints;
      assert allTiles == tiles && currentLevel < |levels|;
    }

    /** Hides every listed tile, then empties the tile list and the pair
        table and zeroes the height and the pair-id counter. */
    method ClearingLevel()
      requires Valid()
      modifies this`allTiles, this`height, this`pairIdCounter, this`tilePairs, allTiles`activeSelf
      ensures Valid()
      ensures allTiles == [] && height == 0.0 && pairIdCounter == 0 && tilePairs == map[]
      ensures forall t :: t in old(allTiles) ==> !t.activeSelf
    {
      var tiles := allTiles;
      for i := 0 to |tiles|
        invariant forall k :: 0 <= k < i ==> !tiles[k].activeSelf
      {
        tiles[i].SetActive(false);
      }
      allTiles := [];
      height := 0.0;
      pairIdCounter := 0;
      tilePairs := map[];
    }

    /** No listed tile takes part in the game any more. */
    predicate LevelComplete()
      reads this, allTiles`isActivate
    {
      forall t :: t in allTiles ==> !t.isActivate
    }

    /** The state right after a level is loaded and dealt from scratch: one
        shown, active tile per placement of the current level, every flag
        current, and a pair table holding only this deal, which pairs all
        the tiles but one when their number is odd, both tiles of each pair
        sharing a type. */
    ghost predicate NewlyDealt()
      reads this, allTiles, if PairIds() then Flat(Pairs()) else []
    {
      Dealt() && FlagsCurrent(Views(allTiles), thresholds)
    }

    /** `tiles` stand where loading level `level` onto an empty board puts
        them: one per placement, in file order, at the placement's x and z and
        on its slot's layer and height; `h` is where that load leaves the
        height accumulator. */
    ghost predicate LaidOut(tiles: seq<Tile>, h: real, level: nat)
      reads tiles`layer
    {
      && level < |levels|
      && var ps := levels[level].tiles;
         var slots := LoadSlots(ps, 0.0, layerHeight);
         && |tiles| == |ps|
         && (forall k :: 0 <= k < |tiles| ==>
               tiles[k].box == Placed(ps[k], slots[k]).box && tiles[k].layer == slots[k].layer)
         && h == FinalHeight(ps, 0.0, layerHeight)
    }

    /** NewlyDealt without the flags. */
    ghost predicate Dealt()
      reads this, allTiles, if PairIds() then Flat(Pairs()) else []
    {
      Paired() && LaidOut(allTiles, height, currentLevel)
    }

    /** Every listed tile is active and shown, and the pair table holds only
        one deal of them: half as many pairs as tiles, no tile twice, both
        tiles of each pair sharing a type. */
    ghost predicate Paired()
      reads this, allTiles, if PairIds() then Flat(Pairs()) else []
    {
      && Valid()
      && (forall t :: t in allTiles ==> t.isActivate && t.activeSelf)
      && pairIdCounter == |allTiles| / 2
      && Distinct(Flat(Pairs()))
      && PairsShareIcon(Pairs())
    }

    /** Load, then flags, on an empty board: one shown, active tile per
        placement, every flag current. */
    method LoadAndCheck()
      requires Valid() && allTiles == [] && height == 0.0
      modifies this`allTiles, this`height
      ensures Valid() && LaidOut(allTiles, height, currentLevel)
      ensures forall t :: t in allTiles ==> fresh(t) && t.isActivate && t.activeSelf && t.tileType == TileType.None
      ensures FlagsCurrent(Views(allTiles), thresholds)
    {
      LoadLevelFromJson();
      ghost var loaded := Views(allTiles);
      CheckNeighbors();
      RecomputeMakesCurrent(loaded, thresholds);
      RecomputeChangesOnlyFlags(loaded, thresholds);
    }

    /** Load, flags, deal: the sequence that starts, restarts and replaces
        a level, run on an empty board. */
    method BuildLevel()
      requires Valid() && allTiles == [] && pairIdCounter == 0 && height == 0.0
      modifies this`allTiles, this`height, this`pairIdCounter, this`tilePairs, this`random
      ensures NewlyDealt() && currentLevel == old(currentLevel)
      ensures forall t :: t in allTiles && t !in Flat(Pairs()) ==> t.tileType == TileType.None
    {
      LoadAndCheck();
      DealChecked();
    }

    /** Start, without the button wiring: draws the level to play from
        `levels`, then loads it, sets the flags and deals. */
    method Start()
      requires Valid() && allTiles == [] && pairIdCounter == 0 && height == 0.0
      modifies this`allTiles, this`height, this`pairIdCounter, this`tilePairs, this`random, this`currentLevel
      ensures currentLevel == Range(old(random), 0, |levels|).0 && NewlyDealt()
    {
      var (index, next) := Range(random, 0, |levels|);
      random := next;
      currentLevel := index;
      BuildLevel();
    }

    /** The deal on a freshly loaded board of shown, active tiles and no
        pairs; only tile types change. */
    method DealLoaded()
      requires Valid() && pairIdCounter == 0
      requires forall k :: 0 <= k < |allTiles| ==> allTiles[k].isActivate && allTiles[k].activeSelf
      modifies this`pairIdCounter, this`tilePairs, this`random, allTiles`tileType
      ensures Paired()
      ensures forall t :: t in allTiles && t !in Flat(Pairs()) ==> t.tileType == old(t.tileType)
      ensures Footprints(allTiles) == old(Footprints(allTiles))
    {
      ghost var checked := Footprints(allTiles);
      WhereAll(allTiles, ActiveSelf);
      assert forall k :: 0 <= k < |checked| ==> checked[k].active && checked[k].shown;
      AssignTileIcons();
      assert forall k :: 0 <= k < |allTiles| ==> allTiles[k].isActivate && allTiles[k].activeSelf;
      assert Pairs() == PairsFrom(0);
    }

    /** The deal on a freshly loaded and checked board: the flags stay
        current, since dealing changes types only, and the tiles no pair
        takes keep the type they were created with. */
    method DealChecked()
      requires Valid() && pairIdCounter == 0
      requires forall t :: t in allTiles ==> t.isActivate && t.activeSelf && t.tileType == TileType.None
      requires FlagsCurrent(Views(allTiles), thresholds)
      modifies this`pairIdCounter, this`tilePairs, this`random, allTiles`tileType
      ensures Paired() && FlagsCurrent(Views(allTiles), thresholds)
      ensures forall t :: t in allTiles && t !in Flat(Pairs()) ==> t.tileType == TileType.None
    {
      ghost var checked := Footprints(allTiles);
      CurrentIgnoresTypes(Views(allTiles), checked, thresholds);
      DealLoaded();
      CurrentIgnoresTypes(checked, Views(allTiles), thresholds);
    }

    /** Clears the level and builds the current level again. */
    method RestartLevel()
      requires Valid()
      modifies this`allTiles, this`height, this`pairIdCounter, this`tilePairs, this`random, allTiles`activeSelf
      ensures NewlyDealt() && currentLevel == old(currentLevel)
      ensures forall t :: t in old(allTiles) ==> !t.activeSelf
    {
      ClearingLevel();
      BuildLevel();
    }

    /** When no listed tile is active any more, draws another level from
        `levels` and builds it afresh (the four calls of RestartLevel's
        body); otherwise nothing changes. */
    method CheckCompletionLevel()
      requires Valid()
      modifies this`allTiles, this`height, this`pairIdCounter, this`tilePairs, this`random, this`currentLevel
      modifies allTiles`activeSelf
      ensures Valid()
      ensures old(LevelComplete()) ==>
        && currentLevel == Range(old(random), 0, |levels|).0
        && NewlyDealt()
        && forall t :: t in old(allTiles) ==> !t.activeSelf
      ensures !old(LevelComplete()) ==>
        && allTiles == old(allTiles) && height == old(height) && currentLevel == old(currentLevel)
        && pairIdCounter == old(pairIdCounter) && tilePairs == old(tilePairs) && random == old(random)
        && Views(allTiles) == old(Views(allTiles))
        && forall t :: t in allTiles ==> t.activeSelf == old(t.activeSelf)
    {
      var activeTiles := Where(allTiles, IsActivate);
      if |activeTiles| == 0 {
        var (index, next) := Range(random, 0, |levels|);
        random := next;
        currentLevel := index;
        RestartLevel();
      } else {
        assert activeTiles[0] in allTiles && activeTiles[0].isActivate;
      }
    }

    /** The state after a match's refresh, given whether the level was
        complete and the generator state before it: a completed level is
        replaced by a freshly dealt one drawn with the old random state;
        otherwise the same tiles and pairs stay, with every flag current. */
    ghost predicate Refreshed(complete: bool, random0: RandomState, tiles0: seq<Tile>, level0: nat,
                              pairs0: map<int, TilePair>)
      reads this, allTiles, if PairIds() then Flat(Pairs()) else []
    {
      && Valid()
      && if complete then
           && currentLevel == Range(random0, 0, |levels|).0
           && NewlyDealt()
         else
           && allTiles == tiles0 && currentLevel == level0 && tilePairs == pairs0
           && FlagsCurrent(Views(allTiles), thresholds)
    }

    /** No listed tile other than `a` and `b` is in play. */
    predicate OnlyInPlay(a: Tile?, b: Tile)
      reads this, allTiles`isActivate
    {
      forall t :: t in allTiles && t.isActivate ==> t == a || t == b
    }

    /** What the generator does after the player matches a pair: the flags
        are recomputed, then the completion check runs. */
    method RefreshAfterMatch(ghost kept: seq<Tile>)
      requires Valid()
      modifies this`allTiles, this`height, this`pairIdCounter, this`tilePairs, this`random, this`currentLevel
      modifies allTiles`hasLeft, allTiles`hasRight, allTiles`hasUp, allTiles`activeSelf
      ensures Refreshed(old(LevelComplete()), old(random), old(allTiles), old(currentLevel), old(tilePairs))
      ensures old(LevelComplete()) ==> forall t :: t in old(allTiles) ==> !t.activeSelf
      ensures !old(LevelComplete()) ==>
        && allTiles == old(allTiles)
        && forall t :: t in old(allTiles) ==> t.activeSelf == old(t.activeSelf)
      ensures forall t :: t in kept ==> t.isActivate == old(t.isActivate) && t.hidePending == old(t.hidePending)
      ensures |InPlaySet(kept)| == old(|InPlaySet(kept)|)
    {
      ghost var before := Views(allTiles);
      ghost var complete := LevelComplete();
      CheckNeighbors();
      RecomputeMakesCurrent(before, thresholds);
      ghost var checked := Views(allTiles);
      assert LevelComplete() == complete;
      CheckCompletionLevel();
    }

    /** Every active listed tile belongs to some pair of the table. */
    ghost predicate PairsCoverActive()
      reads this, allTiles
    {
      PairIds() && forall t :: t in allTiles && t.isActivate ==> t in Flat(Pairs())
    }

    /** The loop of Auto: both tiles of every pair in the table are
        deactivated, in id order, pairs left over from earlier deals
        included; no other tile changes. */
    method DeactivatePairs()
      requires Valid()
      modifies allTiles`isActivate, allTiles`hidePending
      ensures forall t :: t in allTiles ==>
        if t in Flat(Pairs()) then !t.isActivate && t.hidePending
        else t.isActivate == old(t.isActivate) && t.hidePending == old(t.hidePending)
    {
      FlatHasMembers(Pairs());
      for id := 0 to pairIdCounter
        invariant forall t :: t in allTiles ==>
          if t in Flat(Entries(tilePairs, 0, id)) then !t.isActivate && t.hidePending
          else t.isActivate == old(t.isActivate) && t.hidePending == old(t.hidePending)
      {
        var pair := tilePairs[id];
        assert pair == Pairs()[id];
        pair.first.Deactivate();
        pair.second.Deactivate();
        FlatEntriesSnoc(tilePairs, 0, id);
      }
    }

    /** StartAuto's coroutine: removes every paired tile from the game,
        then checks for completion, which builds a new level exactly when
        the pairs held every active tile. */
    method Auto()
      requires Valid()
      modifies this`allTiles, this`height, this`pairIdCounter, this`tilePairs, this`random, this`currentLevel
      modifies allTiles`activeSelf, allTiles`isActivate, allTiles`hidePending
      ensures Valid()
      ensures old(PairsCoverActive()) ==>
        && currentLevel == Range(old(random), 0, |levels|).0
        && NewlyDealt()
        && forall t :: t in old(allTiles) ==> !t.activeSelf && !t.isActivate
      ensures !old(PairsCoverActive()) ==>
        && allTiles == old(allTiles) && pairIdCounter == old(pairIdCounter) && tilePairs == old(tilePairs)
        && currentLevel == old(currentLevel) && random == old(random)
        && (forall t :: t in allTiles ==> t.isActivate == (old(t.isActivate) && t !in Flat(Pairs())))
        && (forall t :: t in allTiles ==>
              t.activeSelf == old(t.activeSelf) && t.hidePending == (old(t.hidePending) || t in Flat(Pairs())))
    {
      DeactivatePairs();
      assert LevelComplete() <==> old(PairsCoverActive());
      CheckCompletionLevel();
    }

    /** Right after a deal the pairs hold every tile exactly when the level
        has an even number of tiles; with an odd number one tile has no
        partner, so Auto leaves it in play and the level is not completed. */
    lemma DealtCoverage()
      requires NewlyDealt()
      ensures PairsCoverActive() <==> |allTiles| % 2 == 0
    {
      if |allTiles| % 2 == 0 {
        SameSizeCovers(Flat(Pairs()), allTiles);
      } else {
        ShorterMisses(Flat(Pairs()), allTiles);
      }
    }
  }
}
