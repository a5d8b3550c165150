/** A single puzzle tile (Tile.cs): neighbour flags, layer, activity and
    matching type, plus the colour rule that darkens blocked tiles. */
module Tiles {

  /** The matching label of a tile. `None` until an icon is assigned; the
      other labels are opaque and told apart only by equality. */
  datatype TileType = None | Kind(id: nat)

  /** A tile's centre (transform.position) and extent (the mesh's localScale). */
  datatype Box = Box(x: real, y: real, z: real, width: real, height: real, depth: real)

  /** How many of the three neighbour flags are set: the count shared by
      Tile.Blackout and LevelGenerator.CountBlockedSides. */
  function BlockedSides(left: bool, right: bool, up: bool): (n: nat)
    ensures n <= 3
    ensures n == 0 <==> !left && !right && !up
    ensures n == 3 <==> left && right && up
    ensures n >= 2 <==> (left && right) || (left && up) || (right && up)
  {
    (if left then 1 else 0) + (if right then 1 else 0) + (if up then 1 else 0)
  }

  /** The colour decision of Blackout: the darkened colour is used when at
      least two sides are blocked or a tile lies on top. */
  function Darkened(left: bool, right: bool, up: bool): (d: bool)
    ensures d <==> up || (left && right)
  {
    BlockedSides(left, right, up) >= 2 || up
  }

  /** Everything the model tracks about one tile, as a value. */
  datatype TileView = TileView(
    box: Box, layer: int, active: bool, shown: bool, hidePending: bool,
    tileType: TileType, hasLeft: bool, hasRight: bool, hasUp: bool)

  class Tile {
    /** Position and size; fixed once the tile is placed. */
    const box: Box
    var hasRight: bool
    var hasLeft: bool
    var hasUp: bool
    var layer: int
    var tileType: TileType
    /** IsActivate: the tile takes part in the game. */
    var isActivate: bool
    /** gameObject.activeSelf: the tile's object is shown. */
    var activeSelf: bool
    /** A scale-out tween started by Deactivate has not completed yet. */
    var hidePending: bool

    /** A tile taken from the pool and placed at `box`. */
    constructor (box: Box)
      ensures this.box == box
      ensures tileType == None && !isActivate && layer == 0
      ensures !hasLeft && !hasRight && !hasUp
      ensures !activeSelf && !hidePending
    {
      this.box := box;
      tileType := None;
      isActivate := false;
      layer := 0;
      hasLeft, hasRight, hasUp := false, false, false;
      activeSelf, hidePending := false, false;
    }

    function View(): TileView
      reads this
    {
      TileView(box, layer, isActivate, activeSelf, hidePending, tileType, hasLeft, hasRight, hasUp)
    }

    method SetHasRight(value: bool)
      modifies this`hasRight
      ensures hasRight == value
    {
      hasRight := value;
    }

    method SetHasLeft(value: bool)
      modifies this`hasLeft
      ensures hasLeft == value
    {
      hasLeft := value;
    }

    method SetHasUp(value: bool)
      modifies this`hasUp
      ensures hasUp == value
    {
      hasUp := value;
    }

    /** Activates the tile on `layer`; kills any running tween, so a pending
        hide never completes. Type and neighbour flags are kept. */
    method Init(layer: int)
      modifies this`layer, this`isActivate, this`hidePending
      ensures this.layer == layer && isActivate && !hidePending
    {
      this.layer := layer;
      isActivate := true;
      hidePending := false;
    }

    /** Takes the tile out of the game at once; its object is hidden only
        when the scale-out tween completes (FinishHiding). */
    method Deactivate()
      modifies this`isActivate, this`hidePending
      ensures !isActivate && hidePending
    {
      isActivate := false;
      hidePending := true;
    }

    /** The completion callback of the scale-out tween started by Deactivate. */
    method FinishHiding()
      requires hidePending
      modifies this`activeSelf, this`hidePending
      ensures !activeSelf && !hidePending
    {
      activeSelf := false;
      hidePending := false;
    }

    /** gameObject.SetActive(value). */
    method SetActive(value: bool)
      modifies this`activeSelf
      ensures activeSelf == value
    {
      activeSelf := value;
    }

    /** Assigns the matching type (the sprite is not modelled). */
    method SetIcon(tileType: TileType)
      modifies this`tileType
      ensures this.tileType == tileType
    {
      this.tileType := tileType;
    }
  }

  /** The tiles of a list that are shown. */
  ghost function ShownSet(ts: seq<Tile>): set<Tile>
    reads ts`activeSelf
  {
    set t | t in ts && t.activeSelf
  }

  /** The tiles of a list whose hide is pending. */
  ghost function PendingSet(ts: seq<Tile>): set<Tile>
    reads ts`hidePending
  {
    set t | t in ts && t.hidePending
  }

  /** The tiles of a list that are in play. */
  ghost function InPlaySet(ts: seq<Tile>): set<Tile>
    reads ts`isActivate
  {
    set t | t in ts && t.isActivate
  }

  /** The state of each tile of a list, as values. */
  function Views(ts: seq<Tile>): (vs: seq<TileView>)
    reads ts
    ensures |vs| == |ts|
    ensures forall i :: 0 <= i < |ts| ==> vs[i] == ts[i].View()
  {
    seq(|ts|, i requires 0 <= i < |ts| reads ts => ts[i].View())
  }

  /** The state of each tile of a list with its type left out: what the
      neighbour checks see, and all that icon assignment leaves alone. */
  function Footprints(ts: seq<Tile>): (vs: seq<TileView>)
    reads ts`layer, ts`isActivate, ts`activeSelf, ts`hidePending, ts`hasLeft, ts`hasRight, ts`hasUp
    ensures |vs| == |ts|
    ensures forall i :: 0 <= i < |ts| ==> vs[i] == ts[i].View().(tileType := None)
  {
    if ts == [] then []
    else
      var t := ts[0];
      [TileView(t.box, t.layer, t.isActivate, t.activeSelf, t.hidePending, None, t.hasLeft, t.hasRight, t.hasUp)]
        + Footprints(ts[1..])
  }
}
