/** The level schema and the editor-side export (LevelExporter.cs): child
    positions of each layer are flattened, layer by layer, each layer stably
    sorted by x + z * 1000, and a level is produced only for an even count. */
module LevelExport {

  /** One placement of the level schema: a layer index and a planar position. */
  datatype TileData = TileData(layer: int, x: real, z: real)

  /** A named level: its placements in load order. */
  datatype LevelData = LevelData(levelName: string, tiles: seq<TileData>)

  /** A child's local (x, z) position. */
  type Point = (real, real)

  datatype Option<T> = None | Some(value: T)

  /** The OrderBy key: rows by z, then left to right by x. */
  function SortKey(p: Point): real {
    p.0 + p.1 * 1000.0
  }

  predicate SortedByKey(s: seq<Point>) {
    forall i, j :: 0 <= i < j < |s| ==> SortKey(s[i]) <= SortKey(s[j])
  }

  /** The elements of `s` whose key is `k`, in their order in `s`. */
  function WithKey(s: seq<Point>, k: real): seq<Point> {
    if s == [] then []
    else (if SortKey(s[0]) == k then [s[0]] else []) + WithKey(s[1..], k)
  }

  /** Filtering by key a list with one element in front. */
  lemma WithKeyCons(q: Point, s: seq<Point>, k: real)
    ensures WithKey([q] + s, k) == (if SortKey(q) == k then [q] else []) + WithKey(s, k)
  {
    assert ([q] + s)[1..] == s;
  }

  /** Of two lists at least one of which is empty, either can go first. */
  lemma SwapEmpty(a: seq<Point>, b: seq<Point>, c: seq<Point>)
    requires a == [] || b == []
    ensures a + (b + c) == b + (a + c)
  {
    if a == [] {
      assert a + (b + c) == b + c;
    } else {
      assert a + c == a + (b + c);
    }
  }

  /** Puts `p` in front of the first element whose key is not smaller. */
  function Insert(p: Point, s: seq<Point>): seq<Point> {
    if s == [] || SortKey(p) <= SortKey(s[0]) then [p] + s
    else [s[0]] + Insert(p, s[1..])
  }

  /** OrderBy(b => b.x + b.y * 1000): an ascending, stable sort. */
  function OrderByKey(s: seq<Point>): (r: seq<Point>)
    ensures |r| == |s|
  {
    if s == [] then []
    else
      var sorted := OrderByKey(s[1..]);
      InsertPermutes(s[0], sorted);
      Insert(s[0], sorted)
  }

  lemma {:induction false} InsertPermutes(p: Point, s: seq<Point>)
    ensures multiset(Insert(p, s)) == multiset{p} + multiset(s)
    ensures |Insert(p, s)| == |s| + 1
  {
    if s != [] && SortKey(p) > SortKey(s[0]) {
      InsertPermutes(p, s[1..]);
      assert s == [s[0]] + s[1..];
    }
  }

  /** The tail of a sorted list is sorted, and its head's key bounds it below. */
  lemma TailSorted(s: seq<Point>)
    requires SortedByKey(s) && s != []
    ensures SortedByKey(s[1..])
    ensures forall q :: q in s[1..] ==> SortKey(s[0]) <= SortKey(q)
  {
    forall i, j | 0 <= i < j < |s[1..]| ensures SortKey(s[1..][i]) <= SortKey(s[1..][j]) {
      assert s[1..][i] == s[i + 1] && s[1..][j] == s[j + 1];
    }
  }

  /** A key at most that of everything in a sorted list can go in front. */
  lemma ConsSorted(q: Point, s: seq<Point>)
    requires SortedByKey(s)
    requires forall x :: x in s ==> SortKey(q) <= SortKey(x)
    ensures SortedByKey([q] + s)
  {
    var r := [q] + s;
    forall i, j | 0 <= i < j < |r| ensures SortKey(r[i]) <= SortKey(r[j]) {
      assert r[j] == s[j - 1] && r[j] in s;
      if i > 0 {
        assert r[i] == s[i - 1];
      }
    }
  }

  /** Inserting keeps a lower bound on the keys. */
  lemma {:induction false} InsertBound(p: Point, s: seq<Point>, b: real)
    requires b <= SortKey(p)
    requires forall x :: x in s ==> b <= SortKey(x)
    ensures forall x :: x in Insert(p, s) ==> b <= SortKey(x)
  {
    if s != [] && SortKey(p) > SortKey(s[0]) {
      assert forall x :: x in s[1..] ==> x in s;
      InsertBound(p, s[1..], b);
    }
  }

  lemma {:induction false} InsertSorted(p: Point, s: seq<Point>)
    requires SortedByKey(s)
    ensures SortedByKey(Insert(p, s))
  {
    if s == [] || SortKey(p) <= SortKey(s[0]) {
      ConsSorted(p, s);
    } else {
      TailSorted(s);
      InsertSorted(p, s[1..]);
      InsertBound(p, s[1..], SortKey(s[0]));
      ConsSorted(s[0], Insert(p, s[1..]));
    }
  }

  lemma {:induction false} InsertKeepsKeyOrder(p: Point, s: seq<Point>, k: real)
    requires SortedByKey(s)
    ensures WithKey(Insert(p, s), k) == WithKey([p], k) + WithKey(s, k)
  {
    WithKeyCons(p, [], k);
    if s == [] || SortKey(p) <= SortKey(s[0]) {
      WithKeyCons(p, s, k);
    } else {
      TailSorted(s);
      InsertKeepsKeyOrder(p, s[1..], k);
      WithKeyCons(s[0], Insert(p, s[1..]), k);
      WithKeyCons(s[0], s[1..], k);
      assert s == [s[0]] + s[1..];
      SwapEmpty(if SortKey(s[0]) == k then [s[0]] else [], WithKey([p], k), WithKey(s[1..], k));
    }
  }

  /** OrderByKey returns its input in ascending key order. */
  lemma {:induction false} OrderByKeySorted(s: seq<Point>)
    ensures SortedByKey(OrderByKey(s))
    ensures multiset(OrderByKey(s)) == multiset(s)
    ensures |OrderByKey(s)| == |s|
  {
    if s != [] {
      OrderByKeySorted(s[1..]);
      InsertSorted(s[0], OrderByKey(s[1..]));
      InsertPermutes(s[0], OrderByKey(s[1..]));
      assert s == [s[0]] + s[1..];
    }
  }

  /** OrderByKey is stable: the elements sharing one key keep their relative order. */
  lemma {:induction false} OrderByKeyStable(s: seq<Point>, k: real)
    ensures WithKey(OrderByKey(s), k) == WithKey(s, k)
  {
    if s != [] {
      OrderByKeyStable(s[1..], k);
      OrderByKeySorted(s[1..]);
      InsertKeepsKeyOrder(s[0], OrderByKey(s[1..]), k);
      assert WithKey([s[0]], k) == (if SortKey(s[0]) == k then [s[0]] else []) + WithKey([], k);
    }
  }

  /** One flattened entry: the index of its layer and its position. */
  datatype Entry = Entry(layer: nat, pos: Point)

  /** Layer i's children, sorted, each tagged with i. */
  function LayerEntries(i: nat, children: seq<Point>): (r: seq<Entry>)
    ensures |r| == |children|
  {
    var sorted := OrderByKey(children);
    OrderByKeySorted(children);
    seq(|sorted|, j requires 0 <= j < |sorted| => Entry(i, sorted[j]))
  }

  /** The flattened list of the first |layers| layers, in layer order. */
  function Flatten(layers: seq<seq<Point>>): (r: seq<Entry>)
    ensures |r| == ChildCount(layers)
  {
    if layers == [] then []
    else Flatten(layers[..|layers| - 1]) + LayerEntries(|layers| - 1, layers[|layers| - 1])
  }

  /** Total number of children over all layers. */
  function ChildCount(layers: seq<seq<Point>>): nat {
    if layers == [] then 0 else ChildCount(layers[..|layers| - 1]) + |layers[|layers| - 1]|
  }

  /** Every flattened entry comes from a layer of the input; the list is as
      long as the total child count; layer indices never decrease. */
  lemma {:induction false} FlattenShape(layers: seq<seq<Point>>)
    ensures |Flatten(layers)| == ChildCount(layers)
    ensures forall e :: e in Flatten(layers) ==> e.layer < |layers|
    ensures forall a, b :: 0 <= a < b < |Flatten(layers)| ==> Flatten(layers)[a].layer <= Flatten(layers)[b].layer
  {
    if layers != [] {
      var init := layers[..|layers| - 1];
      FlattenShape(init);
      var last := LayerEntries(|layers| - 1, layers[|layers| - 1]);
      assert forall e :: e in last ==> e.layer == |layers| - 1;
      var f := Flatten(layers);
      assert f == Flatten(init) + last;
      forall a, b | 0 <= a < b < |f| ensures f[a].layer <= f[b].layer {
        if b >= |Flatten(init)| {
          assert f[b] in last;
          if a < |Flatten(init)| {
            assert f[a] in Flatten(init);
          } else {
            assert f[a] in last;
          }
        }
      }
    }
  }

  /** The entries of layer i in the flattened list are exactly layer i's
      children, in stable ascending key order. */
  lemma {:induction false} FlattenLayer(layers: seq<seq<Point>>, i: nat)
    requires i < |layers|
    ensures LayerOf(Flatten(layers), i) == OrderByKey(layers[i])
  {
    var init := layers[..|layers| - 1];
    var last := LayerEntries(|layers| - 1, layers[|layers| - 1]);
    LayerOfConcat(Flatten(init), last, i);
    if i == |layers| - 1 {
      FlattenShape(init);
      LayerOfOther(Flatten(init), i);
      LayerOfAll(last, i);
    } else {
      FlattenLayer(init, i);
      LayerOfOther(last, i);
    }
  }

  /** The positions of the entries that carry layer index i, in list order. */
  function LayerOf(es: seq<Entry>, i: nat): seq<Point> {
    if es == [] then []
    else (if es[0].layer == i then [es[0].pos] else []) + LayerOf(es[1..], i)
  }

  lemma {:induction false} LayerOfConcat(a: seq<Entry>, b: seq<Entry>, i: nat)
    ensures LayerOf(a + b, i) == LayerOf(a, i) + LayerOf(b, i)
  {
    if a != [] {
      LayerOfConcat(a[1..], b, i);
      assert (a + b)[1..] == a[1..] + b;
    } else {
      assert a + b == b;
    }
  }

  lemma {:induction false} LayerOfOther(es: seq<Entry>, i: nat)
    requires forall e :: e in es ==> e.layer != i
    ensures LayerOf(es, i) == []
  {
    if es != [] {
      assert forall e :: e in es[1..] ==> e in es;
      LayerOfOther(es[1..], i);
    }
  }

  lemma {:induction false} LayerOfAll(es: seq<Entry>, i: nat)
    requires forall e :: e in es ==> e.layer == i
    ensures LayerOf(es, i) == seq(|es|, j requires 0 <= j < |es| => es[j].pos)
  {
    if es != [] {
      assert forall e :: e in es[1..] ==> e in es;
      LayerOfAll(es[1..], i);
    }
  }

  /** The placements written for a flattened list, entry by entry. */
  function Placements(es: seq<Entry>): (ps: seq<TileData>)
    ensures |ps| == |es|
    ensures forall i :: 0 <= i < |es| ==> ps[i] == TileData(es[i].layer, es[i].pos.0, es[i].pos.1)
  {
    seq(|es|, i requires 0 <= i < |es| => TileData(es[i].layer, es[i].pos.0, es[i].pos.1))
  }

  /** LevelExporter.Export, without the JSON write. Each layer's children are
      collected, sorted and appended; the level is produced only when the
      count is even (an odd count yields only an error log). */
  method Export(levelName: string, layers: seq<seq<Point>>) returns (level: Option<LevelData>)
    ensures level.Some? <==> ChildCount(layers) % 2 == 0
    ensures level.Some? ==> level.value.levelName == levelName
    ensures level.Some? ==> level.value.tiles == Placements(Flatten(layers))
  {
    var tiles: seq<Entry> := [];
    for i := 0 to |layers|
      invariant tiles == Flatten(layers[..i])
    {
      var tempTiles: seq<Point> := [];
      for j := 0 to |layers[i]|
        invariant tempTiles == layers[i][..j]
      {
        tempTiles := tempTiles + [layers[i][j]];
      }
      assert tempTiles == layers[i];
      var sortedTempTiles := OrderByKey(tempTiles);
      ghost var before := tiles;
      for j := 0 to |sortedTempTiles|
        invariant tiles == before + LayerEntries(i, layers[i])[..j]
      {
        tiles := tiles + [Entry(i, sortedTempTiles[j])];
        assert LayerEntries(i, layers[i])[..j + 1] == LayerEntries(i, layers[i])[..j] + [Entry(i, sortedTempTiles[j])];
      }
      assert LayerEntries(i, layers[i])[..|sortedTempTiles|] == LayerEntries(i, layers[i]);
      assert layers[..i + 1][..i] == layers[..i];
    }
    assert layers[..|layers|] == layers;
    FlattenShape(layers);

    if |tiles| % 2 == 0 {
      var data := new TileData[|tiles|];
      for i := 0 to |tiles|
        invariant forall k :: 0 <= k < i ==> data[k] == TileData(tiles[k].layer, tiles[k].pos.0, tiles[k].pos.1)
      {
        data[i] := TileData(tiles[i].layer, tiles[i].pos.0, tiles[i].pos.1);
      }
      level := Some(LevelData(levelName, data[..]));
    } else {
      level := None;
    }
  }
}
