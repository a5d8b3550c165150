/** The pair table `_tilePairs`: pair id -> the two tiles of the pair. */
module PairTable {
  import opened Tiles
  import opened Sequences

  datatype TilePair = TilePair(first: Tile, second: Tile)

  /** The tiles of a list of pairs, pair by pair. */
  function Flat(ps: seq<TilePair>): (r: seq<Tile>)
    ensures |r| == 2 * |ps|
  {
    if ps == [] then [] else Flat(ps[..|ps| - 1]) + [ps[|ps| - 1].first, ps[|ps| - 1].second]
  }

  lemma {:induction false} FlatConcat(a: seq<TilePair>, b: seq<TilePair>)
    ensures Flat(a + b) == Flat(a) + Flat(b)
    decreases |b|
  {
    if b == [] {
      assert a + b == a;
    } else {
      FlatConcat(a, b[..|b| - 1]);
      assert (a + b)[..|a + b| - 1] == a + b[..|b| - 1];
    }
  }

  /** Both tiles of every listed pair appear in the flattened list. */
  lemma {:induction false} FlatHasMembers(ps: seq<TilePair>)
    ensures forall p :: p in ps ==> p.first in Flat(ps) && p.second in Flat(ps)
  {
    if ps != [] {
      FlatHasMembers(ps[..|ps| - 1]);
      forall p | p in ps ensures p.first in Flat(ps) && p.second in Flat(ps) {
        if p != ps[|ps| - 1] {
          assert p in ps[..|ps| - 1];
        }
      }
    }
  }

  /** Every tile of the flattened list belongs to a listed pair. */
  lemma {:induction false} FlatMembersFromPairs(ps: seq<TilePair>, t: Tile)
    requires t in Flat(ps)
    ensures exists p :: p in ps && (p.first == t || p.second == t)
  {
    if ps != [] && t !in [ps[|ps| - 1].first, ps[|ps| - 1].second] {
      FlatMembersFromPairs(ps[..|ps| - 1], t);
      var p :| p in ps[..|ps| - 1] && (p.first == t || p.second == t);
      assert p in ps;
    }
  }

  /** The pairs with ids lo .. hi-1, in id order. */
  function Entries(m: map<int, TilePair>, lo: int, hi: int): (r: seq<TilePair>)
    requires lo <= hi
    requires forall k :: lo <= k < hi ==> k in m
    ensures |r| == hi - lo
    ensures forall j :: 0 <= j < hi - lo ==> r[j] == m[lo + j]
  {
    seq(hi - lo, j requires 0 <= j < hi - lo => m[lo + j])
  }

  /** Consecutive id ranges give consecutive runs of pairs. */
  lemma EntriesSplit(m: map<int, TilePair>, lo: int, mid: int, hi: int)
    requires lo <= mid <= hi
    requires forall k :: lo <= k < hi ==> k in m
    ensures Entries(m, lo, hi) == Entries(m, lo, mid) + Entries(m, mid, hi)
  {
  }

  /** The tiles of the pairs up to one more id: those before it, then the
      two of that id. */
  lemma FlatEntriesSnoc(m: map<int, TilePair>, lo: int, hi: int)
    requires lo <= hi
    requires forall k :: lo <= k <= hi ==> k in m
    ensures Flat(Entries(m, lo, hi + 1)) == Flat(Entries(m, lo, hi)) + [m[hi].first, m[hi].second]
  {
    assert Entries(m, lo, hi + 1) == Entries(m, lo, hi) + [m[hi]];
    FlatSnoc(Entries(m, lo, hi), m[hi]);
  }

  /** A pair with the next id extends the run of pairs by one. */
  lemma EntriesExtend(m: map<int, TilePair>, lo: int, hi: int, p: TilePair)
    requires lo <= hi
    requires forall k :: lo <= k < hi ==> k in m
    ensures Entries(m[hi := p], lo, hi + 1) == Entries(m, lo, hi) + [p]
  {
    var a := Entries(m[hi := p], lo, hi + 1);
    var b := Entries(m, lo, hi) + [p];
    assert forall j :: 0 <= j < |a| ==> a[j] == b[j];
  }

  /** The tiles of one more pair come last. */
  lemma FlatSnoc(ps: seq<TilePair>, p: TilePair)
    ensures Flat(ps + [p]) == Flat(ps) + [p.first, p.second]
  {
    assert (ps + [p])[..|ps|] == ps;
  }

  /** `made` pairs up the front of `s` two by two, in order. */
  predicate PairsOf(made: seq<TilePair>, s: seq<Tile>) {
    2 * |made| <= |s| &&
    forall j :: 0 <= j < |made| ==> made[j] == TilePair(s[2 * j], s[2 * j + 1])
  }

  /** Pairing the front of a list two by two and flattening the pairs gives
      that front back. */
  lemma {:induction false} PairsOfFlat(made: seq<TilePair>, s: seq<Tile>)
    requires PairsOf(made, s)
    ensures Flat(made) == s[..2 * |made|]
  {
    if made != [] {
      var init := made[..|made| - 1];
      assert PairsOf(init, s) by {
        forall j | 0 <= j < |init| ensures init[j] == TilePair(s[2 * j], s[2 * j + 1]) {
          assert init[j] == made[j];
        }
      }
      PairsOfFlat(init, s);
      assert made == init + [made[|made| - 1]];
      FlatSnoc(init, made[|made| - 1]);
      assert s[..2 * |made|] == s[..2 * |init|] + [s[2 * |init|], s[2 * |init| + 1]];
    }
  }

  /** When a duplicate-free group is being paired in some order, the next two
      tiles come from the group, belong to no pair made so far and do not
      occur again further on. */
  lemma NextPairApart(made: seq<TilePair>, s: seq<Tile>, group: seq<Tile>)
    requires Distinct(group) && multiset(s) == multiset(group)
    requires PairsOf(made, s) && 2 * |made| + 2 <= |s|
    ensures s[2 * |made|] in group && s[2 * |made| + 1] in group
    ensures forall p :: p in made ==>
              p.first != s[2 * |made|] && p.second != s[2 * |made|] &&
              p.first != s[2 * |made| + 1] && p.second != s[2 * |made| + 1]
  {
    SubmultisetKeepsDistinct(group, s);
    PairsOfFlat(made, s);
    FlatHasMembers(made);
  }

  /** Pairing the next two tiles extends the pairing by one pair. */
  lemma PairsOfSnoc(made: seq<TilePair>, s: seq<Tile>)
    requires PairsOf(made, s) && 2 * |made| + 2 <= |s|
    ensures PairsOf(made + [TilePair(s[2 * |made|], s[2 * |made| + 1])], s)
    ensures s[2 * |made| + 2..] == s[2 * |made|..][2..]
  {
  }

  /** Pairing the front of a list two by two uses up every tile but the rest. */
  lemma PairsCover(made: seq<TilePair>, s: seq<Tile>, group: seq<Tile>)
    requires PairsOf(made, s) && multiset(s) == multiset(group)
    ensures multiset(Flat(made)) + multiset(s[2 * |made|..]) == multiset(group)
  {
    PairsOfFlat(made, s);
    MultisetSplit(s, 2 * |made|);
  }

  /** When the first `lo` entries are `before`, the entries from `lo` on are
      the rest. */
  lemma EntriesAfter(m: map<int, TilePair>, lo: int, hi: int, before: seq<TilePair>, after: seq<TilePair>)
    requires 0 <= lo <= hi && |before| == lo
    requires forall k :: 0 <= k < hi ==> k in m
    requires Entries(m, 0, hi) == before + after
    ensures Entries(m, lo, hi) == after
  {
    EntriesSplit(m, 0, lo, hi);
    var whole := Entries(m, 0, hi);
    assert whole[lo..] == after;
    assert whole[lo..] == Entries(m, lo, hi);
  }

  /** Flattening three runs of pairs flattens each in turn. */
  lemma FlatThree(a: seq<TilePair>, b: seq<TilePair>, c: seq<TilePair>)
    ensures Flat(a + b + c) == Flat(a) + Flat(b) + Flat(c)
  {
    FlatConcat(a, b);
    FlatConcat(a + b, c);
  }

  /** Dealing three groups that together hold a list's tiles: the pairs
      dealt and the groups' leftovers together hold the list's tiles. */
  lemma ThreeGroupsDealt(whole: seq<Tile>, o: seq<Tile>, s: seq<Tile>, c: seq<Tile>,
                         po: seq<TilePair>, ps: seq<TilePair>, pc: seq<TilePair>,
                         ro: seq<Tile>, rs: seq<Tile>, rc: seq<Tile>)
    requires multiset(o) + multiset(s) + multiset(c) == multiset(whole)
    requires multiset(Flat(po)) + multiset(ro) == multiset(o)
    requires multiset(Flat(ps)) + multiset(rs) == multiset(s)
    requires multiset(Flat(pc)) + multiset(rc) == multiset(c)
    ensures multiset(Flat(po + ps + pc)) + multiset(ro + rs + rc) == multiset(whole)
  {
    FlatThree(po, ps, pc);
    assert multiset(Flat(po + ps + pc)) == multiset(Flat(po)) + multiset(Flat(ps)) + multiset(Flat(pc));
    assert multiset(ro + rs + rc) == multiset(ro) + multiset(rs) + multiset(rc);
  }

  /** Then dealing the leftovers until at most one is left: all the pairs
      dealt hold distinct tiles of the list, and there are half as many of
      them as tiles, rounded down. */
  lemma LeftoversDealt(whole: seq<Tile>, before: seq<TilePair>, rem: seq<Tile>,
                       after: seq<TilePair>, rest: seq<Tile>)
    requires Distinct(whole)
    requires multiset(Flat(before)) + multiset(rem) == multiset(whole)
    requires multiset(Flat(after)) + multiset(rest) == multiset(rem)
    requires |rest| <= 1
    ensures Distinct(Flat(before + after))
    ensures forall t :: t in Flat(before + after) ==> t in whole
    ensures |before + after| == |whole| / 2
  {
    FlatConcat(before, after);
    var dealt := Flat(before + after);
    assert multiset(dealt) + multiset(rest) == multiset(whole);
    SplitApart(whole, dealt, rest);
    assert |multiset(dealt) + multiset(rest)| == |multiset(whole)|;
    DealtHalf(before + after, rest, whole);
  }

  /** Dealing some pairs from a duplicate-free list: what is left lies within
      any list holding that list and holds no tile twice, and the dealt tiles
      lie within it too but are not left. */
  lemma LeftoversWithin(whole: seq<Tile>, tiles: seq<Tile>, dealt: seq<TilePair>, rem: seq<Tile>)
    requires Distinct(whole) && forall t :: t in whole ==> t in tiles
    requires multiset(Flat(dealt)) + multiset(rem) == multiset(whole)
    ensures Distinct(rem)
    ensures forall i :: 0 <= i < |rem| ==> rem[i] in tiles
    ensures forall t :: t in Flat(dealt) ==> t in tiles && t !in rem
  {
    SplitApart(whole, Flat(dealt), rem);
  }

  /** The whole deal: earlier pairs `earlier` within `tiles`, then `before` dealt
      from `whole` (a part of `tiles`) leaving `rem`, then `after` dealt from
      `rem` leaving at most one tile. The new pairs hold distinct tiles of
      `whole`, half as many pairs as tiles rounded down, and the table stays
      within `tiles`. */
  lemma AllDealt(tiles: seq<Tile>, whole: seq<Tile>, earlier: seq<TilePair>, before: seq<TilePair>,
                 rem: seq<Tile>, after: seq<TilePair>, rest: seq<Tile>)
    requires Distinct(whole) && forall t :: t in whole ==> t in tiles
    requires forall t :: t in Flat(earlier) ==> t in tiles
    requires multiset(Flat(before)) + multiset(rem) == multiset(whole)
    requires multiset(Flat(after)) + multiset(rest) == multiset(rem)
    requires |rest| <= 1
    ensures Distinct(Flat(before + after))
    ensures forall t :: t in Flat(before + after) ==> t in whole
    ensures |before + after| == |whole| / 2
    ensures forall t :: t in Flat(earlier + (before + after)) ==> t in tiles
  {
    LeftoversDealt(whole, before, rem, after, rest);
    FlatAppendWithin(earlier, before + after, whole, tiles);
  }

  /** Pairs dealt from a list until at most one tile is left number half the
      list, rounded down. */
  lemma DealtHalf(dealt: seq<TilePair>, rest: seq<Tile>, dealtFrom: seq<Tile>)
    requires |Flat(dealt)| + |rest| == |dealtFrom| && |rest| <= 1
    ensures |dealt| == |dealtFrom| / 2
  {
  }

  /** Appending pairs drawn from a part of a tile list keeps every paired
      tile in that list. */
  lemma FlatAppendWithin(before: seq<TilePair>, after: seq<TilePair>, part: seq<Tile>, tiles: seq<Tile>)
    requires forall t :: t in Flat(before) ==> t in tiles
    requires forall t :: t in Flat(after) ==> t in part
    requires forall t :: t in part ==> t in tiles
    ensures forall t :: t in Flat(before + after) ==> t in tiles
  {
    FlatConcat(before, after);
  }

  /** A deal of n/2 pairs of distinct tiles drawn from n distinct tiles,
      n even, puts every one of those tiles into exactly one pair. */
  lemma EvenDealCovers(shown: seq<Tile>, ps: seq<TilePair>)
    requires Distinct(shown) && Distinct(Flat(ps))
    requires forall i :: 0 <= i < |Flat(ps)| ==> Flat(ps)[i] in shown
    requires 2 * |ps| == |shown|
    ensures forall t :: t in shown ==> t in Flat(ps)
  {
    var f := Flat(ps);
    assert forall t :: t in f ==> t in shown;
    SameSizeCovers(f, shown);
  }
}
