/** The pure queries of LevelGenerator: the blocked-side count, the LINQ
    `Where` filters that select active, shown and per-accessibility tiles, and
    the pair table's entries. */
module Buckets {
  import opened Tiles
  import opened Sequences

  /** LevelGenerator.CountBlockedSides. */
  function CountBlockedSides(tile: Tile): (n: nat)
    reads tile`hasLeft, tile`hasRight, tile`hasUp
    ensures n <= 3
  {
    BlockedSides(tile.hasLeft, tile.hasRight, tile.hasUp)
  }

  /** The three accessibility buckets of AssignTileIcons. */
  datatype Accessibility = Open | SemiOpen | Closed

  /** Which bucket a blocked-side count falls into (<= 1, == 2, == 3). */
  predicate InAccessibility(n: nat, kind: Accessibility) {
    match kind
    case Open => n <= 1
    case SemiOpen => n == 2
    case Closed => n == 3
  }

  /** The conditions the generator filters its tile list on. */
  datatype Selector = IsActivate | ActiveSelf | Bucket(kind: Accessibility)

  predicate Selects(sel: Selector, t: Tile)
    reads t`isActivate, t`activeSelf, t`hasLeft, t`hasRight, t`hasUp
  {
    match sel
    case IsActivate => t.isActivate
    case ActiveSelf => t.activeSelf
    case Bucket(kind) => InAccessibility(CountBlockedSides(t), kind) && t.activeSelf
  }

  /** `ts.Where(...).ToList()`: the selected tiles, in list order. */
  function Where(ts: seq<Tile>, sel: Selector): (r: seq<Tile>)
    reads ts`isActivate, ts`activeSelf, ts`hasLeft, ts`hasRight, ts`hasUp
    ensures |r| <= |ts|
    ensures forall t :: t in r ==> t in ts && Selects(sel, t)
    ensures forall t :: t in ts && Selects(sel, t) ==> t in r
  {
    if ts == [] then []
    else
      assert ts == [ts[0]] + ts[1..];
      (if Selects(sel, ts[0]) then [ts[0]] else []) + Where(ts[1..], sel)
  }

  /** A filter of a list with every element selected is the list itself. */
  lemma {:induction false} WhereAll(ts: seq<Tile>, sel: Selector)
    requires forall t :: t in ts ==> Selects(sel, t)
    ensures Where(ts, sel) == ts
  {
    if ts != [] {
      WhereAll(ts[1..], sel);
      assert ts == [ts[0]] + ts[1..];
    }
  }

  /** A filter of a duplicate-free list is duplicate-free. */
  lemma WhereDistinct(ts: seq<Tile>, sel: Selector)
    requires Distinct(ts)
    ensures Distinct(Where(ts, sel))
  {
    WhereSubmultiset(ts, sel);
    SubmultisetKeepsDistinct(ts, Where(ts, sel));
  }

  /** A filter keeps no tile more often than the list holds it. */
  lemma {:induction false} WhereSubmultiset(ts: seq<Tile>, sel: Selector)
    ensures multiset(Where(ts, sel)) <= multiset(ts)
  {
    if ts != [] {
      WhereSubmultiset(ts[1..], sel);
      WhereCons(ts, sel);
    }
  }

  /** Filtering a non-empty list: its first tile, if selected, then the
      filtered rest. */
  lemma WhereCons(ts: seq<Tile>, sel: Selector)
    requires ts != []
    ensures multiset(Where(ts, sel)) ==
      (if Selects(sel, ts[0]) then multiset{ts[0]} else multiset{}) + multiset(Where(ts[1..], sel))
    ensures multiset(ts) == multiset{ts[0]} + multiset(ts[1..])
  {
    assert ts == [ts[0]] + ts[1..];
  }

  /** Counted tile by tile, the three buckets together hold each tile as
      often as the shown tiles do. */
  lemma {:induction false} BucketsCountShown(ts: seq<Tile>, x: Tile)
    ensures multiset(Where(ts, Bucket(Open)))[x] + multiset(Where(ts, Bucket(SemiOpen)))[x]
      + multiset(Where(ts, Bucket(Closed)))[x] == multiset(Where(ts, ActiveSelf))[x]
  {
    if ts != [] {
      BucketsCountShown(ts[1..], x);
      WhereConsAt(ts, Bucket(Open), x);
      WhereConsAt(ts, Bucket(SemiOpen), x);
      WhereConsAt(ts, Bucket(Closed), x);
      WhereConsAt(ts, ActiveSelf, x);
    }
  }

  /** Multisets that add up element by element add up. */
  lemma SumPointwise<T>(a: multiset<T>, b: multiset<T>, c: multiset<T>, d: multiset<T>)
    requires forall x :: a[x] + b[x] + c[x] == d[x]
    ensures a + b + c == d
  {
  }

  /** Filtering a non-empty list, counted for one tile: its first tile, if
      selected and that tile, then the filtered rest. */
  lemma WhereConsAt(ts: seq<Tile>, sel: Selector, x: Tile)
    requires ts != []
    ensures multiset(Where(ts, sel))[x] ==
      (if Selects(sel, ts[0]) && ts[0] == x then 1 else 0) + multiset(Where(ts[1..], sel))[x]
  {
  }

  /** The three buckets split the shown tiles: every shown tile falls into
      exactly one of them, and no other tile into any. */
  lemma BucketsPartitionShown(ts: seq<Tile>)
    ensures multiset(Where(ts, Bucket(Open))) + multiset(Where(ts, Bucket(SemiOpen)))
      + multiset(Where(ts, Bucket(Closed))) == multiset(Where(ts, ActiveSelf))
  {
    var open, semiOpen := multiset(Where(ts, Bucket(Open))), multiset(Where(ts, Bucket(SemiOpen)));
    var closed, shown := multiset(Where(ts, Bucket(Closed))), multiset(Where(ts, ActiveSelf));
    forall x
      ensures open[x] + semiOpen[x] + closed[x] == shown[x]
    {
      BucketsCountShown(ts, x);
    }
    SumPointwise(open, semiOpen, closed, shown);
  }

  /** What AssignTileIcons needs of its filters of a duplicate-free list: the
      shown tiles hold no tile twice, the buckets split them, and each bucket
      lies within the list. */
  lemma BucketsOfList(ts: seq<Tile>)
    requires Distinct(ts)
    ensures Distinct(Where(ts, ActiveSelf))
    ensures multiset(Where(ts, Bucket(Open))) + multiset(Where(ts, Bucket(SemiOpen)))
      + multiset(Where(ts, Bucket(Closed))) == multiset(Where(ts, ActiveSelf))
    ensures forall i :: 0 <= i < |Where(ts, Bucket(Open))| ==> Where(ts, Bucket(Open))[i] in ts
    ensures forall i :: 0 <= i < |Where(ts, Bucket(SemiOpen))| ==> Where(ts, Bucket(SemiOpen))[i] in ts
    ensures forall i :: 0 <= i < |Where(ts, Bucket(Closed))| ==> Where(ts, Bucket(Closed))[i] in ts
  {
    WhereDistinct(ts, ActiveSelf);
    BucketsPartitionShown(ts);
  }

  /** Two different buckets never share a tile. */
  lemma BucketsDisjoint(ts: seq<Tile>, a: Accessibility, b: Accessibility, t: Tile)
    requires a != b
    requires t in Where(ts, Bucket(a))
    ensures t !in Where(ts, Bucket(b))
  {
  }
}
