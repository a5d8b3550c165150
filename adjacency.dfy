/** The occlusion analysis of LevelGenerator.CheckNeighbors, stated over
    snapshots of the tile list: which tiles touch a tile on its left and right
    in the same layer, and which tile lies on top of it in the layer above. */
module Adjacency {
  import opened Tiles

  function Abs(r: real): (a: real)
    ensures a >= 0.0 && (a == r || a == -r)
  {
    if r < 0.0 then -r else r
  }

  /** overlapThreshold and zAlignmentThreshold of the level generator. */
  datatype Thresholds = Thresholds(overlap: real, zAlignment: real)

  /** The two tiles stand in the same row. */
  predicate ZAligned(a: Box, b: Box, th: Thresholds) {
    Abs(a.z - b.z) <= th.zAlignment
  }

  /** In the same row, the right edge of `a` meets the left edge of `b`. */
  predicate MeetsOnRight(a: Box, b: Box, th: Thresholds) {
    ZAligned(a, b, th) && Abs((a.x + a.width * 0.5) - (b.x - b.width * 0.5)) <= th.overlap
  }

  /** In the same row, the left edge of `a` meets the right edge of `b`. */
  predicate MeetsOnLeft(a: Box, b: Box, th: Thresholds) {
    ZAligned(a, b, th) && Abs((a.x - a.width * 0.5) - (b.x + b.width * 0.5)) <= th.overlap
  }

  /** The bottom of `above` is within the threshold of the top of `below`, and
      the two boxes overlap strictly in x and in z. */
  predicate RestsOn(below: Box, above: Box, th: Thresholds) {
    && Abs((below.y + below.height / 2.0) - (above.y - above.height / 2.0)) <= th.overlap
    && Abs(below.x - above.x) < below.width / 2.0 + above.width / 2.0
    && Abs(below.z - above.z) < below.depth / 2.0 + above.depth / 2.0
  }

  /** Some other active tile of the same layer touches tile i on the right. */
  predicate RightNeighborIn(vs: seq<TileView>, i: nat, th: Thresholds)
    requires i < |vs|
  {
    exists j :: 0 <= j < |vs| && j != i && vs[j].active && vs[j].layer == vs[i].layer
      && MeetsOnRight(vs[i].box, vs[j].box, th)
  }

  /** Some other active tile of the same layer touches tile i on the left. */
  predicate LeftNeighborIn(vs: seq<TileView>, i: nat, th: Thresholds)
    requires i < |vs|
  {
    exists j :: 0 <= j < |vs| && j != i && vs[j].active && vs[j].layer == vs[i].layer
      && MeetsOnLeft(vs[i].box, vs[j].box, th)
  }

  /** Some other active tile of the next layer up rests on tile i. */
  predicate UpNeighborIn(vs: seq<TileView>, i: nat, th: Thresholds)
    requires i < |vs|
  {
    exists j :: 0 <= j < |vs| && j != i && vs[j].active && vs[j].layer == vs[i].layer + 1
      && RestsOn(vs[i].box, vs[j].box, th)
  }

  /** Some tile among the first n, other than tile i, active and of its
      layer, touches tile i on the right; over the whole list, RightNeighborIn. */
  predicate RightNeighborAmong(vs: seq<TileView>, i: nat, n: nat, th: Thresholds)
    requires i < |vs| && n <= |vs|
  {
    exists j :: 0 <= j < n && j != i && vs[j].active && vs[j].layer == vs[i].layer
      && MeetsOnRight(vs[i].box, vs[j].box, th)
  }

  /** The same, on the left; over the whole list, LeftNeighborIn. */
  predicate LeftNeighborAmong(vs: seq<TileView>, i: nat, n: nat, th: Thresholds)
    requires i < |vs| && n <= |vs|
  {
    exists j :: 0 <= j < n && j != i && vs[j].active && vs[j].layer == vs[i].layer
      && MeetsOnLeft(vs[i].box, vs[j].box, th)
  }

  /** Looking at one more tile: a neighbour among the first n + 1 is one among
      the first n or tile n itself. */
  lemma NeighborAmongStep(vs: seq<TileView>, i: nat, n: nat, th: Thresholds)
    requires i < |vs| && n < |vs|
    ensures RightNeighborAmong(vs, i, n + 1, th) <==>
              RightNeighborAmong(vs, i, n, th) ||
              (n != i && vs[n].active && vs[n].layer == vs[i].layer && MeetsOnRight(vs[i].box, vs[n].box, th))
    ensures LeftNeighborAmong(vs, i, n + 1, th) <==>
              LeftNeighborAmong(vs, i, n, th) ||
              (n != i && vs[n].active && vs[n].layer == vs[i].layer && MeetsOnLeft(vs[i].box, vs[n].box, th))
  {
  }

  /** Tile i after its flags are recomputed; an inactive tile is skipped. */
  function Refresh(vs: seq<TileView>, i: nat, th: Thresholds): TileView
    requires i < |vs|
  {
    if vs[i].active then
      vs[i].(hasLeft := LeftNeighborIn(vs, i, th),
             hasRight := RightNeighborIn(vs, i, th),
             hasUp := UpNeighborIn(vs, i, th))
    else vs[i]
  }

  /** The tile list after one CheckNeighbors pass. */
  function Recompute(vs: seq<TileView>, th: Thresholds): (r: seq<TileView>)
    ensures |r| == |vs|
  {
    seq(|vs|, i requires 0 <= i < |vs| => Refresh(vs, i, th))
  }

  /** Every active tile's flags agree with the geometry. */
  predicate FlagsCurrent(vs: seq<TileView>, th: Thresholds) {
    forall i :: 0 <= i < |vs| && vs[i].active ==>
      && vs[i].hasLeft == LeftNeighborIn(vs, i, th)
      && vs[i].hasRight == RightNeighborIn(vs, i, th)
      && vs[i].hasUp == UpNeighborIn(vs, i, th)
  }

  /** The two lists agree on position, size, layer and activity of every tile. */
  predicate SameFootprint(vs: seq<TileView>, ws: seq<TileView>) {
    |vs| == |ws| &&
    forall i :: 0 <= i < |vs| ==>
      vs[i].box == ws[i].box && vs[i].layer == ws[i].layer && vs[i].active == ws[i].active
  }

  /** A pass stopped after the first n tiles, and perhaps part way through
      tile n's flags, leaves every footprint as it was. */
  lemma PartialFootprint(cur: seq<TileView>, vs: seq<TileView>, n: nat, th: Thresholds)
    requires |cur| == |vs| && n < |vs|
    requires forall k :: 0 <= k < |vs| && k != n ==> cur[k] == if k < n then Refresh(vs, k, th) else vs[k]
    requires cur[n].box == vs[n].box && cur[n].layer == vs[n].layer && cur[n].active == vs[n].active
    ensures SameFootprint(cur, vs)
  {
  }

  /** The neighbour relations read nothing but positions, sizes, layers and activity. */
  lemma FootprintDecides(vs: seq<TileView>, ws: seq<TileView>, i: nat, th: Thresholds)
    requires SameFootprint(vs, ws) && i < |vs|
    ensures LeftNeighborIn(vs, i, th) == LeftNeighborIn(ws, i, th)
    ensures RightNeighborIn(vs, i, th) == RightNeighborIn(ws, i, th)
    ensures UpNeighborIn(vs, i, th) == UpNeighborIn(ws, i, th)
  {
    if LeftNeighborIn(vs, i, th) {
      var j :| 0 <= j < |vs| && j != i && vs[j].active && vs[j].layer == vs[i].layer
        && MeetsOnLeft(vs[i].box, vs[j].box, th);
      assert ws[j].active && ws[j].layer == ws[i].layer;
    }
    if LeftNeighborIn(ws, i, th) {
      var j :| 0 <= j < |ws| && j != i && ws[j].active && ws[j].layer == ws[i].layer
        && MeetsOnLeft(ws[i].box, ws[j].box, th);
      assert vs[j].active && vs[j].layer == vs[i].layer;
    }
    if RightNeighborIn(vs, i, th) {
      var j :| 0 <= j < |vs| && j != i && vs[j].active && vs[j].layer == vs[i].layer
        && MeetsOnRight(vs[i].box, vs[j].box, th);
      assert ws[j].active && ws[j].layer == ws[i].layer;
    }
    if RightNeighborIn(ws, i, th) {
      var j :| 0 <= j < |ws| && j != i && ws[j].active && ws[j].layer == ws[i].layer
        && MeetsOnRight(ws[i].box, ws[j].box, th);
      assert vs[j].active && vs[j].layer == vs[i].layer;
    }
    if UpNeighborIn(vs, i, th) {
      var j :| 0 <= j < |vs| && j != i && vs[j].active && vs[j].layer == vs[i].layer + 1
        && RestsOn(vs[i].box, vs[j].box, th);
      assert ws[j].active && ws[j].layer == ws[i].layer + 1;
    }
    if UpNeighborIn(ws, i, th) {
      var j :| 0 <= j < |ws| && j != i && ws[j].active && ws[j].layer == ws[i].layer + 1
        && RestsOn(ws[i].box, ws[j].box, th);
      assert vs[j].active && vs[j].layer == vs[i].layer + 1;
    }
  }

  /** A pass changes only the three neighbour flags, and only those of active tiles. */
  lemma RecomputeChangesOnlyFlags(vs: seq<TileView>, th: Thresholds)
    ensures |Recompute(vs, th)| == |vs|
    ensures forall i :: 0 <= i < |vs| ==>
      Recompute(vs, th)[i].(hasLeft := vs[i].hasLeft, hasRight := vs[i].hasRight, hasUp := vs[i].hasUp) == vs[i]
    ensures forall i :: 0 <= i < |vs| && !vs[i].active ==> Recompute(vs, th)[i] == vs[i]
  {
  }

  /** After a pass, every active tile's flags agree with the geometry. */
  lemma {:induction false} RecomputeMakesCurrent(vs: seq<TileView>, th: Thresholds)
    ensures FlagsCurrent(Recompute(vs, th), th)
  {
    var ws := Recompute(vs, th);
    assert SameFootprint(vs, ws);
    forall i | 0 <= i < |ws| && ws[i].active
      ensures ws[i].hasLeft == LeftNeighborIn(ws, i, th)
      ensures ws[i].hasRight == RightNeighborIn(ws, i, th)
      ensures ws[i].hasUp == UpNeighborIn(ws, i, th)
    {
      FootprintDecides(vs, ws, i, th);
    }
  }

  /** Flags that agree with the geometry are exactly the ones a pass leaves alone. */
  lemma {:induction false} CurrentIffFixedPoint(vs: seq<TileView>, th: Thresholds)
    ensures FlagsCurrent(vs, th) <==> Recompute(vs, th) == vs
  {
    var ws := Recompute(vs, th);
    if FlagsCurrent(vs, th) {
      forall i | 0 <= i < |vs| ensures ws[i] == vs[i] {
        if vs[i].active {
          assert ws[i] == vs[i].(hasLeft := LeftNeighborIn(vs, i, th),
            hasRight := RightNeighborIn(vs, i, th), hasUp := UpNeighborIn(vs, i, th));
        }
      }
    }
    if ws == vs {
      RecomputeMakesCurrent(vs, th);
    }
  }

  /** Types play no part in the neighbour relations: changing nothing but
      types keeps current flags current. */
  lemma CurrentIgnoresTypes(vs: seq<TileView>, ws: seq<TileView>, th: Thresholds)
    requires FlagsCurrent(vs, th) && |ws| == |vs|
    requires forall k :: 0 <= k < |vs| ==> ws[k] == vs[k].(tileType := ws[k].tileType)
    ensures FlagsCurrent(ws, th)
  {
    assert SameFootprint(vs, ws);
    forall i | 0 <= i < |ws| && ws[i].active
      ensures ws[i].hasLeft == LeftNeighborIn(ws, i, th)
      ensures ws[i].hasRight == RightNeighborIn(ws, i, th)
      ensures ws[i].hasUp == UpNeighborIn(ws, i, th)
    {
      FootprintDecides(vs, ws, i, th);
    }
  }

  /** Running CheckNeighbors twice in succession gives the same flags as once. */
  lemma {:induction false} RecomputeIdempotent(vs: seq<TileView>, th: Thresholds)
    ensures Recompute(Recompute(vs, th), th) == Recompute(vs, th)
  {
    RecomputeMakesCurrent(vs, th);
    CurrentIffFixedPoint(Recompute(vs, th), th);
  }

  /** Meeting on the right is meeting on the left seen from the other tile. */
  lemma RightLeftMirror(a: Box, b: Box, th: Thresholds)
    ensures MeetsOnRight(a, b, th) <==> MeetsOnLeft(b, a, th)
  {
    assert Abs(a.z - b.z) == Abs(b.z - a.z);
    assert Abs((b.x - b.width * 0.5) - (a.x + a.width * 0.5))
        == Abs((a.x + a.width * 0.5) - (b.x - b.width * 0.5));
  }

  /** Two active, row-aligned tiles of one layer whose right and left edges meet
      both gain the opposing flag in the same pass. */
  lemma {:induction false} TouchingTilesSeeEachOther(vs: seq<TileView>, i: nat, j: nat, th: Thresholds)
    requires i < |vs| && j < |vs| && i != j
    requires vs[i].active && vs[j].active && vs[i].layer == vs[j].layer
    requires MeetsOnRight(vs[i].box, vs[j].box, th)
    ensures Recompute(vs, th)[i].hasRight
    ensures Recompute(vs, th)[j].hasLeft
  {
    RightLeftMirror(vs[i].box, vs[j].box, th);
    assert RightNeighborIn(vs, i, th);
    assert LeftNeighborIn(vs, j, th);
  }

  /** An active tile with an active tile resting on it from the next layer is
      flagged as covered. */
  lemma {:induction false} CoveredTileHasUp(vs: seq<TileView>, i: nat, j: nat, th: Thresholds)
    requires i < |vs| && j < |vs|
    requires vs[i].active && vs[j].active && vs[j].layer == vs[i].layer + 1
    requires RestsOn(vs[i].box, vs[j].box, th)
    ensures Recompute(vs, th)[i].hasUp
  {
    assert UpNeighborIn(vs, i, th);
  }

  /** An active tile with nothing active in the next layer up is not covered:
      once the tiles above it are deactivated, the next pass clears its flag. */
  lemma {:induction false} UncoveredTileHasNoUp(vs: seq<TileView>, i: nat, th: Thresholds)
    requires i < |vs| && vs[i].active
    requires forall j :: 0 <= j < |vs| && vs[j].layer == vs[i].layer + 1 ==> !vs[j].active
    ensures !Recompute(vs, th)[i].hasUp
  {
  }
}
