/**
  The tile-grid game of scripts/lostpixel.js: a 10x15 grid of tiles and a player
  who steps one tile at a time, is stopped by walls, picks up colour fragments
  and escapes through the portal once four fragments are collected. The dialogs
  the step shows are returned as an Outcome.
 */
module LostPixel {
  import Wrappers

  const Rows: int := 10
  const Cols: int := 15
  const LastRow: int := Rows - 1
  const LastCol: int := Cols - 1

  const EmptyTile: int := 0
  const Wall: int := 1
  const Collectible: int := 2
  const Portal: int := 3

  /** Fragments needed to open the portal, and the number the level holds. */
  const GemsNeeded: int := 4

  /** Which dialog a step shows: none, "found a fragment", "portal sealed", or "won". */
  datatype Outcome = None | Collected | Sealed | Won

  /** The rows of the level as the game starts it, row 0 at the top. */
  const Row0: seq<int> := [1, 1, 1, 1, 1, 1, 1, 1, 1, 1, 1, 1, 1, 1, 1]
  const Row1: seq<int> := [1, 0, 0, 0, 0, 0, 0, 2, 0, 0, 0, 0, 0, 3, 1]
  const Row2: seq<int> := [1, 0, 1, 1, 0, 0, 0, 0, 0, 1, 1, 0, 0, 0, 1]
  const Row3: seq<int> := [1, 0, 0, 0, 0, 0, 2, 0, 0, 0, 0, 0, 1, 0, 1]
  const Row4: seq<int> := [1, 0, 0, 1, 0, 1, 0, 0, 0, 1, 0, 0, 0, 0, 1]
  const Row5: seq<int> := [1, 0, 0, 0, 0, 0, 0, 0, 2, 0, 0, 1, 0, 0, 1]
  const Row6: seq<int> := [1, 0, 0, 0, 1, 0, 0, 0, 0, 0, 0, 0, 0, 0, 1]
  const Row7: seq<int> := [1, 0, 2, 0, 0, 0, 0, 1, 0, 0, 1, 0, 0, 0, 1]
  const Row8: seq<int> := [1, 0, 0, 0, 0, 0, 0, 0, 0, 0, 0, 0, 0, 0, 1]
  const Row9: seq<int> := [1, 1, 1, 1, 1, 1, 1, 1, 1, 1, 1, 1, 1, 1, 1]

  /** The level as the game starts it. */
  const InitialMap: seq<seq<int>> := [Row0, Row1, Row2, Row3, Row4, Row5, Row6, Row7, Row8, Row9]

  /** The number of tiles equal to `t` in a row. */
  function CountRow(row: seq<int>, t: int): nat {
    if |row| == 0 then 0
    else CountRow(row[..|row| - 1], t) + (if row[|row| - 1] == t then 1 else 0)
  }

  /** Overwriting one tile equal to `t` with another value lowers the row's count of `t` by one. */
  lemma {:induction false} CountRowCollect(row: seq<int>, c: int, t: int, e: int)
    requires 0 <= c < |row| && row[c] == t && e != t
    ensures CountRow(row[c := e], t) + 1 == CountRow(row, t)
  {
    var n := |row| - 1;
    if c < n {
      assert row[c := e][..n] == row[..n][c := e];
      CountRowCollect(row[..n], c, t, e);
    } else {
      assert row[c := e][..n] == row[..n];
    }
  }

  /** The number of tiles equal to `t` in a map, row by row. */
  function CountTiles(g: seq<seq<int>>, t: int): nat {
    if |g| == 0 then 0
    else CountTiles(g[..|g| - 1], t) + CountRow(g[|g| - 1], t)
  }

  /** Clearing one collectible lowers the map's collectible count by exactly one. */
  lemma {:induction false} CountTilesCollect(g: seq<seq<int>>, r: int, c: int)
    requires 0 <= r < |g| && 0 <= c < |g[r]| && g[r][c] == Collectible
    ensures CountTiles(g[r := g[r][c := EmptyTile]], Collectible) + 1 == CountTiles(g, Collectible)
  {
    var n := |g| - 1;
    var g' := g[r := g[r][c := EmptyTile]];
    if r < n {
      assert g'[..n] == g[..n][r := g[r][c := EmptyTile]];
      CountTilesCollect(g[..n], r, c);
    } else {
      assert g'[..n] == g[..n];
      CountRowCollect(g[r], c, Collectible, EmptyTile);
    }
  }

  /** The count over the first `k + 1` rows adds row `k` to the count over the first `k`. */
  lemma CountTilesPrefix(g: seq<seq<int>>, k: int, t: int)
    requires 0 <= k < |g|
    ensures CountTiles(g[..k + 1], t) == CountTiles(g[..k], t) + CountRow(g[k], t)
  {
    assert g[..k + 1][..k] == g[..k];
  }

  /** A row without a tile equal to `t` counts none. */
  lemma {:induction false} CountRowNone(row: seq<int>, t: int)
    requires forall i :: 0 <= i < |row| ==> row[i] != t
    ensures CountRow(row, t) == 0
  {
    if |row| > 0 {
      CountRowNone(row[..|row| - 1], t);
    }
  }

  /** A row whose only tile equal to `t` is at `j` counts one. */
  lemma {:induction false} CountRowOne(row: seq<int>, j: int, t: int)
    requires 0 <= j < |row| && row[j] == t
    requires forall i :: 0 <= i < |row| && i != j ==> row[i] != t
    ensures CountRow(row, t) == 1
  {
    var n := |row| - 1;
    if j == n {
      CountRowNone(row[..n], t);
    } else {
      CountRowOne(row[..n], j, t);
    }
  }

  // The fragments of the level row by row: one each in rows 1, 3, 5 and 7.
  lemma Row0Gems() ensures CountRow(Row0, Collectible) == 0 { CountRowNone(Row0, Collectible); }
  lemma Row1Gems() ensures CountRow(Row1, Collectible) == 1 { CountRowOne(Row1, 7, Collectible); }
  lemma Row2Gems() ensures CountRow(Row2, Collectible) == 0 { CountRowNone(Row2, Collectible); }
  lemma Row3Gems() ensures CountRow(Row3, Collectible) == 1 { CountRowOne(Row3, 6, Collectible); }
  lemma Row4Gems() ensures CountRow(Row4, Collectible) == 0 { CountRowNone(Row4, Collectible); }
  lemma Row5Gems() ensures CountRow(Row5, Collectible) == 1 { CountRowOne(Row5, 8, Collectible); }
  lemma Row6Gems() ensures CountRow(Row6, Collectible) == 0 { CountRowNone(Row6, Collectible); }
  lemma Row7Gems() ensures CountRow(Row7, Collectible) == 1 { CountRowOne(Row7, 2, Collectible); }
  lemma Row8Gems() ensures CountRow(Row8, Collectible) == 0 { CountRowNone(Row8, Collectible); }
  lemma Row9Gems() ensures CountRow(Row9, Collectible) == 0 { CountRowNone(Row9, Collectible); }

  /** The count over a map of ten rows, written out row by row. */
  lemma CountTenRows(g: seq<seq<int>>, t: int)
    requires |g| == Rows
    ensures CountTiles(g, t)
         == CountRow(g[0], t) + CountRow(g[1], t) + CountRow(g[2], t) + CountRow(g[3], t) + CountRow(g[4], t)
          + CountRow(g[5], t) + CountRow(g[6], t) + CountRow(g[7], t) + CountRow(g[8], t) + CountRow(g[9], t)
  {
    assert g[..0] == [];
    CountTilesPrefix(g, 0, t);
    CountTilesPrefix(g, 1, t);
    CountTilesPrefix(g, 2, t);
    CountTilesPrefix(g, 3, t);
    CountTilesPrefix(g, 4, t);
    CountTilesPrefix(g, 5, t);
    CountTilesPrefix(g, 6, t);
    CountTilesPrefix(g, 7, t);
    CountTilesPrefix(g, 8, t);
    CountTilesPrefix(g, 9, t);
    assert g[..10] == g;
  }

  /** The level holds exactly four fragments, one each in rows 1, 3, 5 and 7. */
  lemma InitialMapGems()
    ensures CountTiles(InitialMap, Collectible) == GemsNeeded
  {
    CountTenRows(InitialMap, Collectible);
    Row0Gems(); Row1Gems(); Row2Gems(); Row3Gems(); Row4Gems();
    Row5Gems(); Row6Gems(); Row7Gems(); Row8Gems(); Row9Gems();
  }

  /** A step of one tile up, down, left or right, the only steps the arrow keys and the lowercase w, a, s, d keys make. */
  predicate IsUnitStep(dx: int, dy: int) {
    (dx == 0 && (dy == -1 || dy == 1)) || (dy == 0 && (dx == -1 || dx == 1))
  }

  /**
    The step a key press asks for: the arrow keys and the lowercase keys w, a, s, d
    move one tile up, left, down or right (y grows downwards); any other key,
    an uppercase letter included, asks for none.
   */
  function KeyStep(key: string): (step: Wrappers.Option<(int, int)>)
    ensures step.Some? <==> key in ["ArrowUp", "w", "ArrowDown", "s", "ArrowLeft", "a", "ArrowRight", "d"]
    ensures step.Some? ==> IsUnitStep(step.value.0, step.value.1)
    ensures step.Some? && step.value.1 < 0 <==> key == "ArrowUp" || key == "w"
    ensures step.Some? && step.value.0 < 0 <==> key == "ArrowLeft" || key == "a"
    ensures step.Some? && step.value.1 > 0 <==> key == "ArrowDown" || key == "s"
    ensures step.Some? && step.value.0 > 0 <==> key == "ArrowRight" || key == "d"
  {
    if key == "ArrowUp" || key == "w" then Wrappers.Some((0, -1))
    else if key == "ArrowDown" || key == "s" then Wrappers.Some((0, 1))
    else if key == "ArrowLeft" || key == "a" then Wrappers.Some((-1, 0))
    else if key == "ArrowRight" || key == "d" then Wrappers.Some((1, 0))
    else Wrappers.None
  }

  /** A 10x15 map whose outer rows and columns are walls. */
  ghost predicate Walled(g: seq<seq<int>>) {
    && |g| == Rows
    && (forall r :: 0 <= r < Rows ==> |g[r]| == Cols)
    && (forall r :: 0 <= r < Rows ==> g[r][0] == Wall)
    && (forall r :: 0 <= r < Rows ==> g[r][LastCol] == Wall)
    && (forall c :: 0 <= c < Cols ==> g[0][c] == Wall)
    && (forall c :: 0 <= c < Cols ==> g[LastRow][c] == Wall)
  }

  /** The initial level is walled all round. */
  lemma InitialMapWalled()
    ensures Walled(InitialMap)
  {
    assert |Row0| == Cols && |Row9| == Cols;
  }

  /**
    On a walled map, a tile that is not a wall lies strictly inside the border,
    so a unit step from it stays on the map.
   */
  lemma InsideBorder(g: seq<seq<int>>, x: int, y: int)
    requires Walled(g) && 0 <= y < Rows && 0 <= x < Cols && g[y][x] != Wall
    ensures 0 < y < LastRow && 0 < x < LastCol
  {
  }

  /** Clearing a tile strictly inside the border keeps the map walled. */
  lemma WalledCollect(g: seq<seq<int>>, r: int, c: int)
    requires Walled(g) && 0 < r < LastRow && 0 < c < LastCol
    ensures Walled(g[r := g[r][c := EmptyTile]])
  {
  }

  // ---- The game as values ----

  /** The map and the player's position and fragment count. */
  datatype State = State(tiles: seq<seq<int>>, x: int, y: int, gems: int)

  /**
    What holds throughout a game: the map is walled all round, the player stands
    strictly inside on a tile that is not a wall, and the fragments held plus
    those still on the map are the four the level started with.
   */
  ghost predicate Inv(s: State) {
    && Walled(s.tiles)
    && 0 < s.y < LastRow && 0 < s.x < LastCol
    && s.tiles[s.y][s.x] != Wall
    && s.gems >= 0
    && s.gems + CountTiles(s.tiles, Collectible) == GemsNeeded
  }

  /** The tile a unit step from the player's position leads to. */
  function Target(s: State, dx: int, dy: int): int
    requires Inv(s) && IsUnitStep(dx, dy)
  {
    s.tiles[s.y + dy][s.x + dx]
  }

  /**
    A level the game can be played on: walled all round, the player's start
    (1, 1) free of walls, and exactly four fragments to collect.
   */
  ghost predicate Playable(level: seq<seq<int>>) {
    Walled(level) && level[1][1] != Wall && CountTiles(level, Collectible) == GemsNeeded
  }

  /**
    One `move(dx, dy)`. A wall leaves everything as it was. Otherwise the player
    steps onto the target tile; a fragment there is picked up (the tile becomes
    empty and the count goes up by one); then the tile now under the player is
    checked for the portal, which wins with four fragments and is sealed before.
   */
  function Step(s: State, dx: int, dy: int): (r: (State, Outcome))
    requires Inv(s) && IsUnitStep(dx, dy)
    ensures Target(s, dx, dy) == Wall <==> r.0.x == s.x && r.0.y == s.y
    ensures Target(s, dx, dy) == Wall ==> r == (s, None)
    ensures Target(s, dx, dy) != Wall ==> r.0.x == s.x + dx && r.0.y == s.y + dy
    ensures r.0.gems == if Target(s, dx, dy) == Collectible then s.gems + 1 else s.gems
    ensures r.1 == Collected <==> Target(s, dx, dy) == Collectible
    ensures r.1 == Won <==> Target(s, dx, dy) == Portal && s.gems >= GemsNeeded
    ensures r.1 == Sealed <==> Target(s, dx, dy) == Portal && s.gems < GemsNeeded
  {
    var newX, newY := s.x + dx, s.y + dy;
    if s.tiles[newY][newX] == Wall then (s, None)
    else
      var found := s.tiles[newY][newX] == Collectible;
      var tiles := if found then s.tiles[newY := s.tiles[newY][newX := EmptyTile]] else s.tiles;
      var gems := if found then s.gems + 1 else s.gems;
      var outcome :=
        if tiles[newY][newX] == Portal && gems >= GemsNeeded then Won
        else if tiles[newY][newX] == Portal then Sealed
        else if found then Collected
        else None;
      (State(tiles, newX, newY, gems), outcome)
  }

  /** The script's level is playable. */
  lemma InitialMapPlayable()
    ensures Playable(InitialMap)
  {
    InitialMapWalled();
    InitialMapGems();
  }

  /** A game that starts on a playable level, at (1, 1) with no fragment, satisfies the invariant. */
  lemma StartInv(level: seq<seq<int>>)
    requires Playable(level)
    ensures Inv(State(level, 1, 1, 0))
  {
  }

  /** The state after stepping onto the non-wall tile (newX, newY), picking up a fragment if it holds one. */
  lemma EnterInv(s: State, newX: int, newY: int)
    requires Inv(s) && 0 <= newY < Rows && 0 <= newX < Cols && s.tiles[newY][newX] != Wall
    ensures s.tiles[newY][newX] == Collectible ==>
      Inv(State(s.tiles[newY := s.tiles[newY][newX := EmptyTile]], newX, newY, s.gems + 1))
    ensures s.tiles[newY][newX] != Collectible ==> Inv(State(s.tiles, newX, newY, s.gems))
  {
    InsideBorder(s.tiles, newX, newY);
    if s.tiles[newY][newX] == Collectible {
      WalledCollect(s.tiles, newY, newX);
      CountTilesCollect(s.tiles, newY, newX);
    }
  }

  /**
    Every step keeps the invariant: the player never stands on a wall nor leaves
    the map, and a fragment leaves the map exactly when it is added to the count.
   */
  lemma StepInv(s: State, dx: int, dy: int)
    requires Inv(s) && IsUnitStep(dx, dy)
    ensures Inv(Step(s, dx, dy).0)
  {
    if Target(s, dx, dy) != Wall {
      EnterInv(s, s.x + dx, s.y + dy);
    }
  }

  /** The only tile a step can change is the target, and only by clearing a fragment from it. */
  lemma StepTiles(s: State, dx: int, dy: int)
    requires Inv(s) && IsUnitStep(dx, dy)
    ensures Walled(Step(s, dx, dy).0.tiles)
    ensures forall r, c :: 0 <= r < Rows && 0 <= c < Cols && (r, c) != (s.y + dy, s.x + dx) ==>
      Step(s, dx, dy).0.tiles[r][c] == s.tiles[r][c]
    ensures Step(s, dx, dy).0.tiles[s.y + dy][s.x + dx] ==
      if Target(s, dx, dy) == Collectible then EmptyTile else Target(s, dx, dy)
  {
    StepInv(s, dx, dy);
  }

  /** Winning needs every fragment: after a winning step none is left on the map. */
  lemma WonClearsMap(s: State, dx: int, dy: int)
    requires Inv(s) && IsUnitStep(dx, dy) && Step(s, dx, dy).1 == Won
    ensures CountTiles(Step(s, dx, dy).0.tiles, Collectible) == 0
  {
    StepInv(s, dx, dy);
  }

  /** A fresh 10x15 array holding the tiles of `level`. */
  method NewGrid(level: seq<seq<int>>) returns (grid: array2<int>)
    requires |level| == Rows && forall r :: 0 <= r < Rows ==> |level[r]| == Cols
    ensures fresh(grid) && grid.Length0 == Rows && grid.Length1 == Cols
    ensures forall r, c :: 0 <= r < Rows && 0 <= c < Cols ==> grid[r, c] == level[r][c]
  {
    grid := new int[Rows, Cols]((r, c) requires 0 <= r < Rows && 0 <= c < Cols => level[r][c]);
  }

  // ---- The game as the script runs it ----

  /** The `map` array the script updates in place, and the `player` object. */
  class World {
    const grid: array2<int>
    var x: int
    var y: int
    var gems: int

    /** The contents of `grid` as rows of tiles. */
    ghost var tiles: seq<seq<int>>

    ghost function Snapshot(): State
      reads this
    {
      State(tiles, x, y, gems)
    }

    /** `grid` is 10x15 and holds `tiles`, and the game invariant holds. */
    ghost predicate Valid()
      reads this, grid
    {
      && grid.Length0 == Rows && grid.Length1 == Cols
      && Inv(Snapshot())
      && (forall r, c :: 0 <= r < Rows && 0 <= c < Cols ==> grid[r, c] == tiles[r][c])
    }

    /**
      The script's start: `level` loaded into the map (the script's own level
      is InitialMap, which InitialMapPlayable shows to be playable) and the
      player at (1, 1) with no fragment.
     */
    constructor (level: seq<seq<int>>)
      requires Playable(level)
      ensures Valid() && fresh(grid) && Snapshot() == State(level, 1, 1, 0)
    {
      StartInv(level);
      var g := NewGrid(level);
      grid := g;
      x, y, gems := 1, 1, 0;
      tiles := level;
    }

    /**
      `move(dx, dy)`: updates the map and the player in place exactly as Step
      does on values, returning the dialog it shows.
     */
    method Move(dx: int, dy: int) returns (outcome: Outcome)
      requires Valid() && IsUnitStep(dx, dy)
      modifies this, grid
      ensures Valid()
      ensures (Snapshot(), outcome) == Step(old(Snapshot()), dx, dy)
    {
      ghost var before := Snapshot();
      StepInv(before, dx, dy);
      var newX := x + dx;
      var newY := y + dy;
      outcome := None;
      if grid[newY, newX] != Wall {
        x, y := newX, newY;
        if grid[newY, newX] == Collectible {
          PickUp();
          outcome := Collected;
        }
        if grid[newY, newX] == Portal && gems >= GemsNeeded {
          outcome := Won;
        } else if grid[newY, newX] == Portal {
          outcome := Sealed;
        }
      }
      assert (Snapshot(), outcome) == Step(before, dx, dy);
    }

    /** The fragment under the player is taken: its tile becomes empty and `gems` goes up by one. */
    method PickUp()
      requires grid.Length0 == Rows && grid.Length1 == Cols && 0 <= y < Rows && 0 <= x < Cols
      requires Walled(tiles) && (forall r, c :: 0 <= r < Rows && 0 <= c < Cols ==> grid[r, c] == tiles[r][c])
      modifies this, grid
      ensures x == old(x) && y == old(y) && gems == old(gems) + 1
      ensures tiles == old(tiles)[y := old(tiles)[y][x := EmptyTile]]
      ensures forall r, c :: 0 <= r < Rows && 0 <= c < Cols ==> grid[r, c] == tiles[r][c]
    {
      grid[y, x] := EmptyTile;
      tiles := tiles[y := tiles[y][x := EmptyTile]];
      gems := gems + 1;
    }
  }
}
