/** InteractionLevel.Update from the raycast hit on: the tile the player
    holds (_tile), the half-unit lift that marks it, and what a click on a
    shown tile does to the selection and to the level. */
module Interaction {
  import opened Tiles
  import opened Buckets
  import opened Sequences
  import opened Adjacency
  import opened Randomness
  import opened PairTable
  import opened LevelGeneration

  /** The branch a click takes. */
  datatype Decision =
    | Blocked    // the clicked tile lies under another or is blocked on two sides
    | Reclicked  // the held tile was clicked again
    | Mismatch   // the two tiles differ in type
    | Match      // the two tiles leave play
    | Hold       // nothing was held: the clicked tile is now held

  /** The decision of Update for a click on `clicked` while `held` is held
      (when `holding`); `same` says the two are one tile. A click is refused
      exactly on a tile drawn in the darkened colour; otherwise it takes the
      tile up, keeps the held tile, drops a tile of another type, or matches
      two different tiles of one type. */
  function Decide(holding: bool, held: TileView, same: bool, clicked: TileView): (d: Decision)
    ensures d == Blocked <==> Darkened(clicked.hasLeft, clicked.hasRight, clicked.hasUp)
    ensures d == Hold <==> !holding && !Darkened(clicked.hasLeft, clicked.hasRight, clicked.hasUp)
    ensures d == Reclicked <==> holding && same && !Darkened(clicked.hasLeft, clicked.hasRight, clicked.hasUp)
    ensures d == Mismatch <==>
      holding && !same && held.tileType != clicked.tileType && !Darkened(clicked.hasLeft, clicked.hasRight, clicked.hasUp)
    ensures d == Match <==>
      holding && !same && held.tileType == clicked.tileType && !Darkened(clicked.hasLeft, clicked.hasRight, clicked.hasUp)
  {
    if clicked.hasUp || BlockedSides(clicked.hasLeft, clicked.hasRight, clicked.hasUp) >= 2 then Blocked
    else if !holding then Hold
    else if same then Reclicked
    else if held.tileType != clicked.tileType then Mismatch
    else Match
  }

  /** A tile's state after Tile.Deactivate. */
  function Deactivated(v: TileView): (w: TileView)
    ensures !w.active && w.hidePending
    ensures w.(active := v.active, hidePending := v.hidePending) == v
  {
    v.(active := false, hidePending := true)
  }

  /** How many of the tiles are in play. */
  function InPlay(vs: seq<TileView>): (n: nat)
    ensures n <= |vs|
  {
    if vs == [] then 0 else InPlay(vs[..|vs| - 1]) + (if vs[|vs| - 1].active then 1 else 0)
  }

  /** Replacing one tile changes the count of tiles in play by what the two
      versions of that tile contribute. */
  lemma {:induction false} InPlayUpdate(vs: seq<TileView>, i: nat, v: TileView)
    requires i < |vs|
    ensures InPlay(vs[i := v]) == InPlay(vs) - (if vs[i].active then 1 else 0) + (if v.active then 1 else 0)
  {
    var n := |vs| - 1;
    if i < n {
      InPlayUpdate(vs[..n], i, v);
      assert vs[i := v][..n] == vs[..n][i := v];
    } else {
      assert vs[i := v][..n] == vs[..n];
    }
  }

  /** Deactivating two different tiles that are both in play takes exactly
      two tiles out of play. */
  lemma TwoLeavePlay(vs: seq<TileView>, i: nat, j: nat)
    requires i < |vs| && j < |vs| && i != j
    requires vs[i].active && vs[j].active
    ensures InPlay(vs[i := Deactivated(vs[i])][j := Deactivated(vs[j])]) == InPlay(vs) - 2
  {
    InPlayUpdate(vs, i, Deactivated(vs[i]));
    InPlayUpdate(vs[i := Deactivated(vs[i])], j, Deactivated(vs[j]));
  }

  /** As written, a match does not look at IsActivate: a tile that has
      just been matched keeps its collider until its scale-out tween ends,
      and clicking it then matches it with the held tile, so only the held
      tile leaves play and its own partner is stranded. */
  lemma OutOfPlayMatch()
    ensures
      var held := TileView(Box(0.0, 0.0, 0.0, 1.0, 1.0, 1.0), 0, true, true, false, Kind(0), false, false, false);
      var clicked := TileView(Box(4.0, 0.0, 0.0, 1.0, 1.0, 1.0), 0, false, true, true, Kind(0), false, false, false);
      var vs := [held, clicked];
      && Decide(true, held, false, clicked) == Match
      && InPlay(vs[0 := Deactivated(held)][1 := Deactivated(clicked)]) == InPlay(vs) - 1
  {
  }

  /** The decision with the match limited to two tiles still in play: a
      click that would pair a tile that has left play drops the selection
      as a type mismatch does. */
  function DecideInPlay(holding: bool, held: TileView, same: bool, clicked: TileView): (d: Decision)
    ensures d == Match ==>
      holding && !same && held.active && clicked.active && held.tileType == clicked.tileType
      && !Darkened(clicked.hasLeft, clicked.hasRight, clicked.hasUp)
    ensures d != Match ==> d == Decide(holding, held, same, clicked) || d == Mismatch
    ensures d == Match <==> Decide(holding, held, same, clicked) == Match && held.active && clicked.active
  {
    var d := Decide(holding, held, same, clicked);
    if d == Match && !(held.active && clicked.active) then Mismatch else d
  }

  /** With the fix, every match takes exactly two tiles out of play. */
  lemma InPlayMatchTakesTwo(vs: seq<TileView>, i: nat, j: nat)
    requires i < |vs| && j < |vs| && i != j
    requires DecideInPlay(true, vs[i], false, vs[j]) == Match
    ensures InPlay(vs[i := Deactivated(vs[i])][j := Deactivated(vs[j])]) == InPlay(vs) - 2
  {
    TwoLeavePlay(vs, i, j);
  }

  /** As written, a tile held when the level is restarted stays held: the
      restart hides it and builds new tiles but leaves _tile alone, and a
      click on a new tile of its type is a match. Both tiles are
      deactivated, but only the clicked one is a tile of the level, so the
      level loses one tile from play and the clicked tile's partner is
      stranded. This needs the new level to be built from other tiles than
      the held one; a pool that hands the held tile out again is outside
      this model, which places fresh tiles. */
  lemma StaleHeldMatch()
    ensures
      var held := TileView(Box(0.0, 0.0, 0.0, 1.0, 1.0, 1.0), 0, true, false, false, Kind(0), false, false, false);
      var clicked := TileView(Box(4.0, 0.0, 0.0, 1.0, 1.0, 1.0), 0, true, true, false, Kind(0), false, false, false);
      var partner := TileView(Box(8.0, 0.0, 0.0, 1.0, 1.0, 1.0), 0, true, true, false, Kind(0), false, false, false);
      var listed := [clicked, partner];
      && DecideInPlay(true, held, false, clicked) == Match
      && InPlay(listed[0 := Deactivated(clicked)]) == InPlay(listed) - 1
  {
  }

  /** The tiles in play of a duplicate-free list are as many as its
      states in play. */
  lemma {:induction false} InPlaySetCount(ts: seq<Tile>)
    requires Distinct(ts)
    ensures |InPlaySet(ts)| == InPlay(Views(ts))
  {
    if ts != [] {
      var n := |ts| - 1;
      InPlaySetCount(ts[..n]);
      assert Views(ts)[..n] == Views(ts[..n]);
      assert ts[n] !in ts[..n];
      if ts[n].isActivate {
        assert InPlaySet(ts) == InPlaySet(ts[..n]) + {ts[n]};
      } else {
        assert InPlaySet(ts) == InPlaySet(ts[..n]);
      }
    }
  }

  /** The two deactivations of a match, on tiles of the level: exactly
      those two leave play, and the level is then complete exactly when no
      other tile was in play. */
  method TakeOut(levelGenerator: LevelGenerator, a: Tile, b: Tile, ghost listed: seq<Tile>,
                 ghost active: set<Tile>, ghost shown: set<Tile>, ghost pending: set<Tile>)
    requires levelGenerator.Valid() && a in levelGenerator.allTiles && b in levelGenerator.allTiles
    requires a != b && a.isActivate && b.isActivate
    requires listed == levelGenerator.allTiles && active == InPlaySet(listed)
    requires shown == ShownSet(listed) && pending == PendingSet(listed)
    modifies a`isActivate, a`hidePending, b`isActivate, b`hidePending
    ensures !a.isActivate && a.hidePending && !b.isActivate && b.hidePending
    ensures forall t :: t in listed && t != a && t != b ==>
      (t.isActivate <==> t in active) && (t.hidePending <==> t in pending)
    ensures forall t :: t in listed ==> (t.activeSelf <==> t in shown)
    ensures |InPlaySet(listed)| == |active| - 2
    ensures levelGenerator.LevelComplete() <==> old(levelGenerator.OnlyInPlay(a, b))
  {
    a.Deactivate();
    b.Deactivate();
    assert InPlaySet(listed) == active - {a, b};
  }

  /** What a match of `a` and `b` leaves of the tiles `listed` before it,
      given which of them were in play, shown, and hiding: both tiles of
      the pair are out of play with their hides pending; no other tile
      enters or leaves play or gains or loses a pending hide; when the pair
      completed the level, every listed tile is hidden, and otherwise every
      listed tile is still shown exactly when it was. */
  ghost predicate KeptAfterMatch(a: Tile, b: Tile, complete: bool, listed: seq<Tile>, active: set<Tile>,
                                 shown: set<Tile>, pending: set<Tile>)
    reads a`isActivate, a`hidePending, b`isActivate, b`hidePending
    reads listed`isActivate, listed`activeSelf, listed`hidePending
  {
    && !a.isActivate && a.hidePending && !b.isActivate && b.hidePending
    && (forall t :: t in listed && t != a && t != b ==>
          (t.isActivate <==> t in active) && (t.hidePending <==> t in pending))
    && (complete ==> forall t :: t in listed ==> !t.activeSelf)
    && (!complete ==> forall t :: t in listed ==> (t.activeSelf <==> t in shown))
  }

  /** A match on the generator's side: both tiles leave play, then the
      flags are recomputed and the completion check runs. The ghost
      parameters name the generator's state at the call. */
  method MatchAndRefresh(levelGenerator: LevelGenerator, a: Tile, b: Tile, ghost listed: seq<Tile>,
                         ghost complete: bool, ghost active: set<Tile>, ghost shown: set<Tile>,
                         ghost pending: set<Tile>, ghost random0: RandomState, ghost level0: nat,
                         ghost pairs0: map<int, TilePair>)
    requires levelGenerator.Valid() && a in levelGenerator.allTiles && b in levelGenerator.allTiles
    requires a != b && a.isActivate && b.isActivate
    requires listed == levelGenerator.allTiles && complete == levelGenerator.OnlyInPlay(a, b)
    requires active == InPlaySet(listed) && shown == ShownSet(listed) && pending == PendingSet(listed)
    requires random0 == levelGenerator.random && level0 == levelGenerator.currentLevel
    requires pairs0 == levelGenerator.tilePairs
    modifies levelGenerator`allTiles, levelGenerator`height, levelGenerator`pairIdCounter
    modifies levelGenerator`tilePairs, levelGenerator`random, levelGenerator`currentLevel
    modifies levelGenerator.allTiles`hasLeft, levelGenerator.allTiles`hasRight, levelGenerator.allTiles`hasUp
    modifies levelGenerator.allTiles`activeSelf, levelGenerator.allTiles`isActivate
    modifies levelGenerator.allTiles`hidePending
    ensures KeptAfterMatch(a, b, complete, listed, active, shown, pending)
    ensures |InPlaySet(listed)| == |active| - 2
    ensures levelGenerator.Refreshed(complete, random0, listed, level0, pairs0)
  {
    TakeOut(levelGenerator, a, b, listed, active, shown, pending);
    levelGenerator.RefreshAfterMatch(listed);
  }

  class InteractionLevel {
    const levelGenerator: LevelGenerator
    /** _tile: the tile the player holds, if any. */
    var held: Tile?
    /** How far each tile the selection has moved sits above its place, in
        steps of 0.5 units (DOLocalMove up when taken, down when let go). */
    var lift: map<Tile, int>

    /** Only the held tile is raised, by one step, and it is selectable. */
    ghost predicate Valid()
      reads this, held
    {
      && (held != null ==> held in lift && !Darkened(held.hasLeft, held.hasRight, held.hasUp))
      && forall t :: t in lift ==> lift[t] == if t == held then 1 else 0
    }

    constructor (levelGenerator: LevelGenerator)
      ensures this.levelGenerator == levelGenerator
      ensures held == null && lift == map[] && Valid()
    {
      this.levelGenerator := levelGenerator;
      held := null;
      lift := map[];
    }

    /** The held tile, as a set. */
    function Held(): set<Tile>
      reads this
    {
      if held != null then {held} else {}
    }

    /** The current lift of a tile (0 for a tile never moved). */
    function LiftOf(t: Tile): int
      reads this
    {
      if t in lift then lift[t] else 0
    }

    /** A click on a shown tile of the level: a held tile other than the
        clicked one is lowered first; then the click is refused, keeps the
        held tile, drops a tile of another type, takes the clicked tile up,
        or matches the pair, after which the flags are recomputed and the
        completion check runs. A match takes two tiles of the level still in
        play (DecideInPlay): a pair with a tile already out of play is
        dropped as a mismatch, and a held tile the level no longer lists (it
        was held across a restart) counts as no selection. */
    method Click(tile: Tile) returns (d: Decision)
      requires Valid() && levelGenerator.Valid()
      requires tile in levelGenerator.allTiles && tile.activeSelf
      modifies this`held, this`lift, Held()`isActivate, Held()`hidePending
      modifies levelGenerator`allTiles, levelGenerator`height, levelGenerator`pairIdCounter
      modifies levelGenerator`tilePairs, levelGenerator`random, levelGenerator`currentLevel
      modifies levelGenerator.allTiles`hasLeft, levelGenerator.allTiles`hasRight, levelGenerator.allTiles`hasUp
      modifies levelGenerator.allTiles`activeSelf, levelGenerator.allTiles`isActivate
      modifies levelGenerator.allTiles`hidePending
      ensures Valid() && levelGenerator.Valid()
      ensures d == old(DecideInPlay(held != null && held in levelGenerator.allTiles,
                                    if held != null then held.View() else tile.View(), held == tile, tile.View()))
      ensures forall t :: t in old(lift) ==> t in lift
      ensures d == Hold || d == Reclicked ==> held == tile
      ensures d == Blocked || d == Mismatch || d == Match ==> held == null
      ensures d != Match ==>
        && unchanged(levelGenerator)
        && forall t :: t in levelGenerator.allTiles || t == old(held) ==> unchanged(t)
      ensures d == Match ==> old(held != null && held in levelGenerator.allTiles && held.isActivate && tile.isActivate)
      ensures d == Match ==>
        KeptAfterMatch(old(held), tile, old(levelGenerator.OnlyInPlay(held, tile)), old(levelGenerator.allTiles),
          old(InPlaySet(levelGenerator.allTiles)), old(ShownSet(levelGenerator.allTiles)),
          old(PendingSet(levelGenerator.allTiles)))
      ensures forall t :: t in old(levelGenerator.allTiles) && t != old(held) && t != tile ==>
        t.isActivate == old(t.isActivate)
      ensures d == Match ==>
        levelGenerator.Refreshed(old(levelGenerator.OnlyInPlay(held, tile)), old(levelGenerator.random),
          old(levelGenerator.allTiles), old(levelGenerator.currentLevel), old(levelGenerator.tilePairs))
    {
      var holding := held != null && held in levelGenerator.allTiles;
      d := DecideInPlay(holding, if held != null then held.View() else tile.View(), held == tile, tile.View());
      if d == Match {
        var listed := levelGenerator.allTiles;
        TakePair(tile, listed, levelGenerator.OnlyInPlay(held, tile), InPlaySet(listed), ShownSet(listed),
                 PendingSet(listed), levelGenerator.random, levelGenerator.currentLevel, levelGenerator.tilePairs);
      } else {
        Lower(tile);
        if d == Blocked || d == Mismatch {
          held := null;
        } else if d == Hold {
          held := tile;
          lift := lift[tile := LiftOf(tile) + 1];
        }
      }
    }

    /** A held tile other than the clicked one goes back down one step. */
    method Lower(tile: Tile)
      modifies this`lift
      ensures lift == if held != null && held != tile then old(lift)[held := old(LiftOf(held)) - 1] else old(lift)
    {
      if held != null && held != tile {
        lift := lift[held := LiftOf(held) - 1];
      }
    }

    /** The match branch: both tiles leave play, the selection is dropped,
        the flags are recomputed and the completion check runs. The ghost
        parameters name the generator's state at the call. */
    method TakePair(tile: Tile, ghost listed: seq<Tile>, ghost complete: bool, ghost active: set<Tile>,
                    ghost shown: set<Tile>, ghost pending: set<Tile>, ghost random0: RandomState,
                    ghost level0: nat, ghost pairs0: map<int, TilePair>)
      requires Valid() && held != null && held != tile && levelGenerator.Valid()
      requires held in levelGenerator.allTiles && tile in levelGenerator.allTiles
      requires held.isActivate && tile.isActivate
      requires listed == levelGenerator.allTiles && complete == levelGenerator.OnlyInPlay(held, tile)
      requires active == InPlaySet(listed) && shown == ShownSet(listed) && pending == PendingSet(listed)
      requires random0 == levelGenerator.random && level0 == levelGenerator.currentLevel
      requires pairs0 == levelGenerator.tilePairs
      modifies this`held, this`lift, Held()`isActivate, Held()`hidePending
      modifies levelGenerator`allTiles, levelGenerator`height, levelGenerator`pairIdCounter
      modifies levelGenerator`tilePairs, levelGenerator`random, levelGenerator`currentLevel
      modifies levelGenerator.allTiles`hasLeft, levelGenerator.allTiles`hasRight, levelGenerator.allTiles`hasUp
      modifies levelGenerator.allTiles`activeSelf, levelGenerator.allTiles`isActivate
      modifies levelGenerator.allTiles`hidePending
      ensures held == null && lift == old(lift)[old(held) := 0]
      ensures Valid()
      ensures levelGenerator.Valid()
      ensures KeptAfterMatch(old(held), tile, complete, listed, active, shown, pending)
      ensures levelGenerator.Refreshed(complete, random0, listed, level0, pairs0)
    {
      var first := held;
      Release();
      MatchAndRefresh(levelGenerator, first, tile, listed, complete, active, shown, pending, random0, level0, pairs0);
    }

    /** The held tile goes back down one step and the selection is dropped. */
    method Release()
      requires Valid() && held != null
      modifies this`held, this`lift
      ensures held == null && lift == old(lift)[old(held) := 0] && Valid()
    {
      lift := lift[held := LiftOf(held) - 1];
      held := null;
    }
  }
}
