/** How LevelGenerator.LoadLevelFromJson assigns layers and heights: a running
    layer, raised to a placement's layer when that is larger, and a height
    accumulator that grows by one layer height at each such raise. */
module Stacking {
  import opened LevelExport

  /** The running layer and the accumulated height in force for one placement. */
  datatype Slot = Slot(layer: int, height: real)

  /** The slot of each placement, starting from layer 0 and height `height0`. */
  function LoadSlots(ps: seq<TileData>, height0: real, step: real): (r: seq<Slot>)
    ensures |r| == |ps|
  {
    if ps == [] then []
    else
      var prev := LoadSlots(ps[..|ps| - 1], height0, step);
      var cur := if prev == [] then Slot(0, height0) else prev[|prev| - 1];
      var p := ps[|ps| - 1];
      prev + [if cur.layer < p.layer then Slot(p.layer, cur.height + step) else cur]
  }

  /** The height accumulator after the whole list. */
  function FinalHeight(ps: seq<TileData>, height0: real, step: real): real {
    if ps == [] then height0 else LoadSlots(ps, height0, step)[|ps| - 1].height
  }

  /** Loading one more placement extends the slots of the earlier ones. */
  lemma {:induction false} LoadSlotsPrefix(ps: seq<TileData>, n: nat, height0: real, step: real)
    requires n <= |ps|
    ensures LoadSlots(ps[..n], height0, step) == LoadSlots(ps, height0, step)[..n]
    decreases |ps| - n
  {
    if n < |ps| {
      LoadSlotsPrefix(ps, n + 1, height0, step);
      assert ps[..n + 1][..n] == ps[..n];
      assert LoadSlots(ps[..n + 1], height0, step)[..n] == LoadSlots(ps[..n], height0, step);
    } else {
      assert ps[..n] == ps;
    }
  }

  /** A slot's layer is the running maximum of 0 and the placement layers so far. */
  lemma {:induction false} LayerIsRunningMax(ps: seq<TileData>, i: nat, height0: real, step: real)
    requires i < |ps|
    ensures var l := LoadSlots(ps, height0, step)[i].layer;
      && l >= 0
      && (forall k :: 0 <= k <= i ==> ps[k].layer <= l)
      && (l == 0 || exists k :: 0 <= k <= i && ps[k].layer == l)
    decreases |ps|
  {
    var r := LoadSlots(ps, height0, step);
    var init := ps[..|ps| - 1];
    var prev := LoadSlots(init, height0, step);
    assert r[..|ps| - 1] == prev;
    if i < |ps| - 1 {
      LayerIsRunningMax(init, i, height0, step);
      assert r[i] == prev[i];
      assert forall k :: 0 <= k <= i ==> init[k] == ps[k];
    } else if i > 0 {
      LayerIsRunningMax(init, i - 1, height0, step);
      assert r[i - 1] == prev[i - 1];
      assert forall k :: 0 <= k <= i - 1 ==> init[k] == ps[k];
    }
  }

  /** The height rises by exactly one step whenever the running layer rises,
      however far it jumps, and stays put otherwise; the layer never drops. */
  lemma {:induction false} HeightStepsWithLayer(ps: seq<TileData>, i: nat, height0: real, step: real)
    requires i < |ps|
    ensures var r := LoadSlots(ps, height0, step);
      var before := if i == 0 then Slot(0, height0) else r[i - 1];
      && r[i].layer >= before.layer
      && r[i].layer == (if before.layer < ps[i].layer then ps[i].layer else before.layer)
      && r[i].height == before.height + (if r[i].layer > before.layer then step else 0.0)
  {
    LoadSlotsPrefix(ps, i + 1, height0, step);
    LoadSlotsPrefix(ps, i, height0, step);
    assert ps[..i + 1][..i] == ps[..i];
    assert ps[..i + 1][i] == ps[i];
  }

  /** Placements whose layers never decrease and start at 0 or above (the order
      the exporter writes) load every tile on its own layer. */
  lemma {:induction false} SortedPlacementsKeepLayers(ps: seq<TileData>, height0: real, step: real)
    requires forall i, j :: 0 <= i < j < |ps| ==> ps[i].layer <= ps[j].layer
    requires forall i :: 0 <= i < |ps| ==> ps[i].layer >= 0
    ensures forall i :: 0 <= i < |ps| ==> LoadSlots(ps, height0, step)[i].layer == ps[i].layer
  {
    forall i | 0 <= i < |ps| ensures LoadSlots(ps, height0, step)[i].layer == ps[i].layer {
      LayerIsRunningMax(ps, i, height0, step);
    }
  }

  /** A level written by Export loads every tile on the layer it was exported from. */
  lemma ExportedLevelKeepsLayers(layers: seq<seq<Point>>, height0: real, step: real)
    ensures var ps := Placements(Flatten(layers));
      forall i :: 0 <= i < |ps| ==> LoadSlots(ps, height0, step)[i].layer == Flatten(layers)[i].layer
  {
    FlattenShape(layers);
    SortedPlacementsKeepLayers(Placements(Flatten(layers)), height0, step);
  }
}
