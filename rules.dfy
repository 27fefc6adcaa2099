// The rules of the game as functions over board values: which cells are
// legal placements, which tiles a placement flips, and what one `select`
// does to a game state. The class Game.State runs the same rules in place.
module Rules {
  import opened Board

  // ---------------------------------------------------------------------------
  // Legality

  /** The cell one step from (x, y) in direction (dx, dy) is on the board and holds `c`. */
  predicate NeighbourIs(b: Grid, x: int, y: int, dx: int, dy: int, c: Cell)
  {
    InBounds(x + dx, y + dy) && At(b, x + dx, y + dy) == c
  }

  /** The four orthogonal steps, as (dy, dx) pairs: up, down, right, left. */
  const Directions: seq<(int, int)> := [(-1, 0), (1, 0), (0, 1), (0, -1)]

  /**
   * `mover` may place a tile at (x, y): the cell is empty and one of its
   * four orthogonal neighbours holds an opponent tile. Diagonal neighbours
   * do not count, and nothing is required to flip.
   */
  predicate ValidPlacement(b: Grid, x: int, y: int, mover: Player)
    requires InBounds(x, y)
  {
    var o := Tile(Other(mover));
    At(b, x, y) == Empty &&
    (NeighbourIs(b, x, y, 0, -1, o) || NeighbourIs(b, x, y, 0, 1, o) ||
     NeighbourIs(b, x, y, 1, 0, o) || NeighbourIs(b, x, y, -1, 0, o))
  }

  /** The valid placements in row y among columns 0 .. n-1, left to right. */
  function RowPlacements(b: Grid, mover: Player, y: int, n: int): seq<Coord>
    requires 0 <= y < 8 && 0 <= n <= 8
  {
    if n == 0 then []
    else RowPlacements(b, mover, y, n - 1) + (if ValidPlacement(b, n - 1, y, mover) then [(n - 1, y)] else [])
  }

  /** The valid placements in rows 0 .. rows-1, row by row. */
  function PlacementsUpTo(b: Grid, mover: Player, rows: int): seq<Coord>
    requires 0 <= rows <= 8
  {
    if rows == 0 then [] else PlacementsUpTo(b, mover, rows - 1) + RowPlacements(b, mover, rows - 1, 8)
  }

  /** Every valid placement of `mover`, rows outer and columns inner. */
  function Placements(b: Grid, mover: Player): seq<Coord>
  {
    PlacementsUpTo(b, mover, 8)
  }

  /** Cell `a` comes strictly before cell `c` in a row-by-row scan. */
  predicate ScanBefore(a: Coord, c: Coord)
  {
    a.1 < c.1 || (a.1 == c.1 && a.0 < c.0)
  }

  predicate Distinct<T(==)>(s: seq<T>)
  {
    forall i, j :: 0 <= i < j < |s| ==> s[i] != s[j]
  }

  lemma {:induction false} RowPlacementsSpec(b: Grid, mover: Player, y: int, n: int)
    requires 0 <= y < 8 && 0 <= n <= 8
    ensures forall c :: c in RowPlacements(b, mover, y, n) <==>
              c.1 == y && 0 <= c.0 < n && ValidPlacement(b, c.0, c.1, mover)
    ensures forall i, j :: 0 <= i < j < |RowPlacements(b, mover, y, n)| ==>
              RowPlacements(b, mover, y, n)[i].0 < RowPlacements(b, mover, y, n)[j].0
  {
    if n > 0 {
      RowPlacementsSpec(b, mover, y, n - 1);
    }
  }

  lemma {:induction false} PlacementsUpToSpec(b: Grid, mover: Player, rows: int)
    requires 0 <= rows <= 8
    ensures forall c :: c in PlacementsUpTo(b, mover, rows) <==>
              InBounds(c.0, c.1) && c.1 < rows && ValidPlacement(b, c.0, c.1, mover)
    ensures forall i, j :: 0 <= i < j < |PlacementsUpTo(b, mover, rows)| ==>
              ScanBefore(PlacementsUpTo(b, mover, rows)[i], PlacementsUpTo(b, mover, rows)[j])
  {
    if rows > 0 {
      PlacementsUpToSpec(b, mover, rows - 1);
      RowPlacementsSpec(b, mover, rows - 1, 8);
      var prev, row := PlacementsUpTo(b, mover, rows - 1), RowPlacements(b, mover, rows - 1, 8);
      forall i, j | 0 <= i < j < |prev + row|
        ensures ScanBefore((prev + row)[i], (prev + row)[j])
      {
        if j >= |prev| && i < |prev| {
          assert prev[i] in prev && row[j - |prev|] in row;
        }
      }
    }
  }

  /**
   * The placements list holds exactly the valid placements, each once, in
   * row-by-row scan order.
   */
  lemma PlacementsSpec(b: Grid, mover: Player)
    ensures forall x, y :: (x, y) in Placements(b, mover) <==> InBounds(x, y) && ValidPlacement(b, x, y, mover)
    ensures forall i, j :: 0 <= i < j < |Placements(b, mover)| ==>
              ScanBefore(Placements(b, mover)[i], Placements(b, mover)[j])
    ensures Distinct(Placements(b, mover))
  {
    PlacementsUpToSpec(b, mover, 8);
  }

  /** Every listed placement is a valid placement on the board. */
  lemma PlacementsSound(b: Grid, mover: Player)
    ensures forall m :: m in Placements(b, mover) ==> InBounds(m.0, m.1) && ValidPlacement(b, m.0, m.1, mover)
  {
    PlacementsSpec(b, mover);
    forall m | m in Placements(b, mover)
      ensures InBounds(m.0, m.1) && ValidPlacement(b, m.0, m.1, mover)
    {
      assert (m.0, m.1) == m;
    }
  }

  /** Every valid placement is listed. */
  lemma PlacementsComplete(b: Grid, mover: Player, x: int, y: int)
    requires InBounds(x, y) && ValidPlacement(b, x, y, mover)
    ensures (x, y) in Placements(b, mover)
  {
    PlacementsSpec(b, mover);
  }

  /** The placements list is empty exactly when no cell is a valid placement. */
  lemma PlacementsEmpty(b: Grid, mover: Player)
    ensures Placements(b, mover) == [] <==> forall x, y :: InBounds(x, y) ==> !ValidPlacement(b, x, y, mover)
  {
    PlacementsSpec(b, mover);
    var ps := Placements(b, mover);
    if ps != [] {
      var c := ps[0];
      assert (c.0, c.1) == c && c in ps;
      assert InBounds(c.0, c.1) && ValidPlacement(b, c.0, c.1, mover);
    }
  }

  // ---------------------------------------------------------------------------
  // Flipping

  /** The cells scanned leftwards, rightwards, upwards and downwards from (x, y), nearest first. */
  function LeftRay(x: int, y: int): seq<Coord>
    requires InBounds(x, y)
  {
    seq(x, k => (x - 1 - k, y))
  }

  function RightRay(x: int, y: int): seq<Coord>
    requires InBounds(x, y)
  {
    seq(7 - x, k => (x + 1 + k, y))
  }

  function UpRay(x: int, y: int): seq<Coord>
    requires InBounds(x, y)
  {
    seq(y, k => (x, y - 1 - k))
  }

  function DownRay(x: int, y: int): seq<Coord>
    requires InBounds(x, y)
  {
    seq(7 - y, k => (x, y + 1 + k))
  }

  predicate OnBoard(ray: seq<Coord>)
  {
    forall k :: 0 <= k < |ray| ==> InBounds(ray[k].0, ray[k].1)
  }

  /** A cell that is neither empty nor `color`'s: in this game, an opponent's tile. */
  predicate Foreign(c: Cell, color: Player)
  {
    c != Empty && c != Tile(color)
  }

  lemma ForeignIsOpponent(c: Cell, color: Player)
    ensures Foreign(c, color) <==> c == Tile(Other(color))
  {
    if c.Tile? {
      assert c.owner == Red || c.owner == Blue;
    }
  }

  /** The length of the run of foreign tiles at the start of `ray`. */
  function RunLength(b: Grid, ray: seq<Coord>, color: Player): (n: nat)
    requires OnBoard(ray)
    ensures n <= |ray|
    ensures forall i :: 0 <= i < n ==> Foreign(At(b, ray[i].0, ray[i].1), color)
    ensures n < |ray| ==> !Foreign(At(b, ray[n].0, ray[n].1), color)
  {
    if ray == [] || !Foreign(At(b, ray[0].0, ray[0].1), color) then 0
    else 1 + RunLength(b, ray[1..], color)
  }

  /**
   * The tiles a `color` placement flips along one ray: the leading run of
   * foreign tiles, provided a `color` tile closes it. An empty cell or the
   * board's edge before such a tile flips nothing.
   */
  function LineSwaps(b: Grid, ray: seq<Coord>, color: Player): seq<Coord>
    requires OnBoard(ray)
  {
    var n := RunLength(b, ray, color);
    if n < |ray| && At(b, ray[n].0, ray[n].1) == Tile(color) then ray[..n] else []
  }

  /** The first k cells of `ray` are opponent tiles and a `color` tile follows them. */
  predicate Bracketed(b: Grid, ray: seq<Coord>, color: Player, k: nat)
    requires OnBoard(ray)
  {
    k < |ray| &&
    (forall i :: 0 <= i < k ==> At(b, ray[i].0, ray[i].1) == Tile(Other(color))) &&
    At(b, ray[k].0, ray[k].1) == Tile(color)
  }

  /**
   * A ray flips a non-empty run exactly when that run is a bracketed
   * prefix of the ray, and every bracketed prefix is what the ray flips.
   */
  lemma LineSwapsSpec(b: Grid, ray: seq<Coord>, color: Player)
    requires OnBoard(ray)
    ensures LineSwaps(b, ray, color) != [] ==>
              Bracketed(b, ray, color, |LineSwaps(b, ray, color)|) &&
              LineSwaps(b, ray, color) == ray[..|LineSwaps(b, ray, color)|]
    ensures forall k: nat :: Bracketed(b, ray, color, k) ==> LineSwaps(b, ray, color) == ray[..k]
  {
    var n := RunLength(b, ray, color);
    forall i | 0 <= i < n {
      ForeignIsOpponent(At(b, ray[i].0, ray[i].1), color);
    }
    forall k: nat | Bracketed(b, ray, color, k)
      ensures LineSwaps(b, ray, color) == ray[..k]
    {
      if n < k {
        ForeignIsOpponent(At(b, ray[n].0, ray[n].1), color);
      }
    }
  }

  /** Along any ray, the flipped tiles are opponent tiles of that ray. */
  lemma LineSwapsCells(b: Grid, ray: seq<Coord>, color: Player)
    requires OnBoard(ray)
    ensures forall t :: t in LineSwaps(b, ray, color) ==>
              t in ray && InBounds(t.0, t.1) && At(b, t.0, t.1) == Tile(Other(color))
    ensures Distinct(ray) ==> Distinct(LineSwaps(b, ray, color))
  {
    var r := LineSwaps(b, ray, color);
    forall t | t in r
      ensures t in ray && InBounds(t.0, t.1) && At(b, t.0, t.1) == Tile(Other(color))
    {
      var i :| 0 <= i < |r| && r[i] == t;
      assert r[i] == ray[i];
      ForeignIsOpponent(At(b, t.0, t.1), color);
    }
  }

  /** Two boards that agree on a ray flip the same tiles along it. */
  lemma {:induction false} LineSwapsFrame(b1: Grid, b2: Grid, ray: seq<Coord>, color: Player)
    requires OnBoard(ray)
    requires forall k :: 0 <= k < |ray| ==> At(b1, ray[k].0, ray[k].1) == At(b2, ray[k].0, ray[k].1)
    ensures RunLength(b1, ray, color) == RunLength(b2, ray, color)
    ensures LineSwaps(b1, ray, color) == LineSwaps(b2, ray, color)
  {
    if ray != [] {
      LineSwapsFrame(b1, b2, ray[1..], color);
    }
  }

  /** All tiles a `color` placement at (x, y) flips: left, right, up and down rays in that order. */
  function Swaps(b: Grid, x: int, y: int, color: Player): seq<Coord>
    requires InBounds(x, y)
  {
    LineSwaps(b, LeftRay(x, y), color) + LineSwaps(b, RightRay(x, y), color) +
    LineSwaps(b, UpRay(x, y), color) + LineSwaps(b, DownRay(x, y), color)
  }

  lemma DistinctConcat<T>(a: seq<T>, c: seq<T>)
    requires Distinct(a) && Distinct(c)
    requires forall t :: t in a ==> t !in c
    ensures Distinct(a + c)
  {
    forall i, j | 0 <= i < j < |a + c|
      ensures (a + c)[i] != (a + c)[j]
    {
      if i < |a| && j >= |a| {
        assert (a + c)[i] in a && (a + c)[j] in c;
      }
    }
  }

  lemma LeftRaySpec(x: int, y: int)
    requires InBounds(x, y)
    ensures OnBoard(LeftRay(x, y)) && Distinct(LeftRay(x, y))
    ensures forall t :: t in LeftRay(x, y) ==> t.1 == y && t.0 < x
  {
  }

  lemma RightRaySpec(x: int, y: int)
    requires InBounds(x, y)
    ensures OnBoard(RightRay(x, y)) && Distinct(RightRay(x, y))
    ensures forall t :: t in RightRay(x, y) ==> t.1 == y && t.0 > x
  {
  }

  lemma UpRaySpec(x: int, y: int)
    requires InBounds(x, y)
    ensures OnBoard(UpRay(x, y)) && Distinct(UpRay(x, y))
    ensures forall t :: t in UpRay(x, y) ==> t.0 == x && t.1 < y
  {
  }

  lemma DownRaySpec(x: int, y: int)
    requires InBounds(x, y)
    ensures OnBoard(DownRay(x, y)) && Distinct(DownRay(x, y))
    ensures forall t :: t in DownRay(x, y) ==> t.0 == x && t.1 > y
  {
  }

  /**
   * The flipped tiles are distinct, on the board, held by the opponent, and
   * each lies in the row or the column of (x, y) (never on a diagonal).
   */
  lemma SwapsSpec(b: Grid, x: int, y: int, color: Player)
    requires InBounds(x, y)
    ensures Distinct(Swaps(b, x, y, color))
    ensures forall t :: t in Swaps(b, x, y, color) ==>
              InBounds(t.0, t.1) && At(b, t.0, t.1) == Tile(Other(color)) &&
              t != (x, y) && (t.0 == x || t.1 == y)
  {
    LeftRaySpec(x, y);
    RightRaySpec(x, y);
    UpRaySpec(x, y);
    DownRaySpec(x, y);
    var l, r, u, d := LeftRay(x, y), RightRay(x, y), UpRay(x, y), DownRay(x, y);
    LineSwapsCells(b, l, color);
    LineSwapsCells(b, r, color);
    LineSwapsCells(b, u, color);
    LineSwapsCells(b, d, color);
    var sl, sr, su, sd := LineSwaps(b, l, color), LineSwaps(b, r, color), LineSwaps(b, u, color), LineSwaps(b, d, color);
    DistinctConcat(sl, sr);
    DistinctConcat(sl + sr, su);
    DistinctConcat(sl + sr + su, sd);
  }

  /**
   * Only the row and the column through (x, y) decide legality and flips
   * there: boards that agree on that cross agree on both.
   */
  lemma CrossOnly(b1: Grid, b2: Grid, x: int, y: int, color: Player)
    requires InBounds(x, y)
    requires forall i, j :: InBounds(i, j) && (i == x || j == y) ==> At(b1, i, j) == At(b2, i, j)
    ensures ValidPlacement(b1, x, y, color) == ValidPlacement(b2, x, y, color)
    ensures Swaps(b1, x, y, color) == Swaps(b2, x, y, color)
  {
    LeftRaySpec(x, y);
    RightRaySpec(x, y);
    UpRaySpec(x, y);
    DownRaySpec(x, y);
    var o := Tile(Other(color));
    assert At(b1, x, y) == At(b2, x, y);
    assert NeighbourIs(b1, x, y, 0, -1, o) == NeighbourIs(b2, x, y, 0, -1, o) by {
      if InBounds(x, y - 1) { assert At(b1, x, y - 1) == At(b2, x, y - 1); }
    }
    assert NeighbourIs(b1, x, y, 0, 1, o) == NeighbourIs(b2, x, y, 0, 1, o) by {
      if InBounds(x, y + 1) { assert At(b1, x, y + 1) == At(b2, x, y + 1); }
    }
    assert NeighbourIs(b1, x, y, 1, 0, o) == NeighbourIs(b2, x, y, 1, 0, o) by {
      if InBounds(x + 1, y) { assert At(b1, x + 1, y) == At(b2, x + 1, y); }
    }
    assert NeighbourIs(b1, x, y, -1, 0, o) == NeighbourIs(b2, x, y, -1, 0, o) by {
      if InBounds(x - 1, y) { assert At(b1, x - 1, y) == At(b2, x - 1, y); }
    }
    RayFrame(b1, b2, LeftRay(x, y), x, y, color);
    RayFrame(b1, b2, RightRay(x, y), x, y, color);
    RayFrame(b1, b2, UpRay(x, y), x, y, color);
    RayFrame(b1, b2, DownRay(x, y), x, y, color);
  }

  /** A ray inside the cross through (x, y) sees the same cells on boards that agree on that cross. */
  lemma RayFrame(b1: Grid, b2: Grid, ray: seq<Coord>, x: int, y: int, color: Player)
    requires OnBoard(ray)
    requires forall t :: t in ray ==> t.0 == x || t.1 == y
    requires forall i, j :: InBounds(i, j) && (i == x || j == y) ==> At(b1, i, j) == At(b2, i, j)
    ensures LineSwaps(b1, ray, color) == LineSwaps(b2, ray, color)
  {
    forall k | 0 <= k < |ray|
      ensures At(b1, ray[k].0, ray[k].1) == At(b2, ray[k].0, ray[k].1)
    {
      assert ray[k] in ray;
    }
    LineSwapsFrame(b1, b2, ray, color);
  }

  /** The board after turning every listed tile to `color`, in list order. */
  function SwapTiles(b: Grid, tiles: seq<Coord>, color: Player): Grid
    requires forall t :: t in tiles ==> InBounds(t.0, t.1)
    decreases |tiles|
  {
    if tiles == [] then b
    else SwapTiles(Set(b, tiles[0].0, tiles[0].1, Tile(color)), tiles[1..], color)
  }

  /** Listed cells become `color`; every other cell keeps its value. */
  lemma {:induction false} SwapTilesEffect(b: Grid, tiles: seq<Coord>, color: Player)
    requires forall t :: t in tiles ==> InBounds(t.0, t.1)
    ensures forall i, j :: InBounds(i, j) ==>
              At(SwapTiles(b, tiles, color), i, j) == if (i, j) in tiles then Tile(color) else At(b, i, j)
    decreases |tiles|
  {
    if tiles != [] {
      var b1 := Set(b, tiles[0].0, tiles[0].1, Tile(color));
      SwapTilesEffect(b1, tiles[1..], color);
      assert forall t :: t in tiles <==> t == tiles[0] || t in tiles[1..];
    }
  }

  /** Turning k distinct opponent tiles moves exactly k from the opponent's count to `color`'s. */
  lemma {:induction false} SwapTilesCount(b: Grid, tiles: seq<Coord>, color: Player)
    requires forall t :: t in tiles ==> InBounds(t.0, t.1) && At(b, t.0, t.1) == Tile(Other(color))
    requires Distinct(tiles)
    ensures Count(SwapTiles(b, tiles, color), Tile(color)) == Count(b, Tile(color)) + |tiles|
    ensures Count(SwapTiles(b, tiles, color), Tile(Other(color))) == Count(b, Tile(Other(color))) - |tiles|
    ensures Count(SwapTiles(b, tiles, color), Empty) == Count(b, Empty)
    decreases |tiles|
  {
    if tiles != [] {
      var t := tiles[0];
      var b1 := Set(b, t.0, t.1, Tile(color));
      forall u | u in tiles[1..]
        ensures InBounds(u.0, u.1) && At(b1, u.0, u.1) == Tile(Other(color))
      {
        var k :| 0 <= k < |tiles[1..]| && tiles[1..][k] == u;
        assert tiles[k + 1] == u;
      }
      assert Distinct(tiles[1..]) by {
        forall i, j | 0 <= i < j < |tiles[1..]| ensures tiles[1..][i] != tiles[1..][j] {
          assert tiles[i + 1] != tiles[j + 1];
        }
      }
      SetCount(b, t.0, t.1, Tile(color), Tile(color));
      SetCount(b, t.0, t.1, Tile(color), Tile(Other(color)));
      SetCount(b, t.0, t.1, Tile(color), Empty);
      SwapTilesCount(b1, tiles[1..], color);
    }
  }

  // ---------------------------------------------------------------------------
  // Game state and the select transition

  /** The board, the half-move counter and the player to move. */
  datatype GameState = GameState(board: Grid, turnNum: nat, curPlayer: Player)

  /** A fresh game: the four centre tiles, turn 0, `player1` to move. */
  function Initial(player1: Player): (s: GameState)
    ensures s.turnNum == 0 && s.curPlayer == player1
    ensures Count(s.board, Empty) == 60
    ensures Count(s.board, Tile(Red)) == 2 && Count(s.board, Tile(Blue)) == 2
  {
    InitialGridLayout();
    GameState(InitialGrid(), 0, player1)
  }

  /**
   * What `select` reports: the statistics of a completed move, the
   * GameOver exception (raised after the move took effect) or the
   * SpotNotEmpty exception (raised before anything changed).
   */
  datatype Outcome = Selected(turn: nat, x: int, y: int, swapCount: nat) | GameOver | SpotNotEmpty

  datatype Transition = Transition(after: GameState, outcome: Outcome)

  /**
   * `end_turn`: the other player moves next and the half-move counter goes
   * up by one; the second component says the new mover has no placement.
   */
  function EndTurn(s: GameState): (r: (GameState, bool))
    ensures r.0.board == s.board && r.0.turnNum == s.turnNum + 1 && r.0.curPlayer == Other(s.curPlayer)
    ensures r.1 <==> forall x, y :: InBounds(x, y) ==> !ValidPlacement(s.board, x, y, Other(s.curPlayer))
  {
    var next := GameState(s.board, s.turnNum + 1, Other(s.curPlayer));
    PlacementsEmpty(next.board, next.curPlayer);
    (next, Placements(next.board, next.curPlayer) == [])
  }

  /**
   * `select(x, y)`: place the mover's tile, flip the tiles its four rays
   * bracket, then end the turn.
   */
  function Select(s: GameState, x: int, y: int): (t: Transition)
    requires InBounds(x, y)
    ensures t.outcome == SpotNotEmpty <==> !ValidPlacement(s.board, x, y, s.curPlayer)
    ensures t.outcome == SpotNotEmpty ==> t.after == s
    ensures t.outcome != SpotNotEmpty ==>
              t.after.turnNum == s.turnNum + 1 && t.after.curPlayer == Other(s.curPlayer) &&
              At(t.after.board, x, y) == Tile(s.curPlayer) &&
              (t.outcome == GameOver <==> Placements(t.after.board, t.after.curPlayer) == [])
    ensures t.outcome.Selected? ==> t.outcome.turn == s.turnNum && t.outcome.x == x && t.outcome.y == y
  {
    if !ValidPlacement(s.board, x, y, s.curPlayer) then Transition(s, SpotNotEmpty)
    else
      var placed := Set(s.board, x, y, Tile(s.curPlayer));
      var swaps := Swaps(placed, x, y, s.curPlayer);
      SwapsSpec(placed, x, y, s.curPlayer);
      SwapTilesEffect(placed, swaps, s.curPlayer);
      var (next, over) := EndTurn(GameState(SwapTiles(placed, swaps, s.curPlayer), s.turnNum, s.curPlayer));
      Transition(next, if over then GameOver else Selected(s.turnNum, x, y, |swaps|))
  }

  /** The tiles a legal placement at (x, y) flips (computed once the tile is down). */
  function SelectSwaps(s: GameState, x: int, y: int): seq<Coord>
    requires InBounds(x, y)
  {
    Swaps(Set(s.board, x, y, Tile(s.curPlayer)), x, y, s.curPlayer)
  }

  /**
   * A legal select with k flips adds 1 + k tiles for the mover, takes k
   * from the opponent and fills one empty cell; a completed one reports k.
   */
  lemma SelectCounts(s: GameState, x: int, y: int)
    requires InBounds(x, y) && ValidPlacement(s.board, x, y, s.curPlayer)
    ensures var p, k, b := s.curPlayer, |SelectSwaps(s, x, y)|, Select(s, x, y).after.board;
      Count(b, Tile(p)) == Count(s.board, Tile(p)) + 1 + k &&
      Count(b, Tile(Other(p))) == Count(s.board, Tile(Other(p))) - k &&
      Count(b, Empty) == Count(s.board, Empty) - 1
    ensures Select(s, x, y).outcome.Selected? ==> Select(s, x, y).outcome.swapCount == |SelectSwaps(s, x, y)|
  {
    var p := s.curPlayer;
    var placed := Set(s.board, x, y, Tile(p));
    SetCount(s.board, x, y, Tile(p), Tile(p));
    SetCount(s.board, x, y, Tile(p), Tile(Other(p)));
    SetCount(s.board, x, y, Tile(p), Empty);
    SwapsSpec(placed, x, y, p);
    SwapTilesCount(placed, Swaps(placed, x, y, p), p);
  }

  /**
   * A legal select changes only the placed cell (now the mover's) and the
   * flipped tiles (now the mover's); every other cell keeps its value.
   */
  lemma SelectFrame(s: GameState, x: int, y: int)
    requires InBounds(x, y) && ValidPlacement(s.board, x, y, s.curPlayer)
    ensures forall i, j :: InBounds(i, j) ==>
              At(Select(s, x, y).after.board, i, j) ==
                if (i, j) == (x, y) || (i, j) in SelectSwaps(s, x, y) then Tile(s.curPlayer) else At(s.board, i, j)
  {
    var placed := Set(s.board, x, y, Tile(s.curPlayer));
    SwapsSpec(placed, x, y, s.curPlayer);
    SwapTilesEffect(placed, Swaps(placed, x, y, s.curPlayer), s.curPlayer);
  }

  /** The flips are the ones the board before the placement already brackets. */
  lemma SelectSwapsBeforePlacement(s: GameState, x: int, y: int)
    requires InBounds(x, y)
    ensures SelectSwaps(s, x, y) == Swaps(s.board, x, y, s.curPlayer)
  {
    var placed := Set(s.board, x, y, Tile(s.curPlayer));
    forall k | 0 <= k < |LeftRay(x, y)| ensures LeftRay(x, y)[k] != (x, y) { }
    forall k | 0 <= k < |RightRay(x, y)| ensures RightRay(x, y)[k] != (x, y) { }
    forall k | 0 <= k < |UpRay(x, y)| ensures UpRay(x, y)[k] != (x, y) { }
    forall k | 0 <= k < |DownRay(x, y)| ensures DownRay(x, y)[k] != (x, y) { }
    LineSwapsFrame(placed, s.board, LeftRay(x, y), s.curPlayer);
    LineSwapsFrame(placed, s.board, RightRay(x, y), s.curPlayer);
    LineSwapsFrame(placed, s.board, UpRay(x, y), s.curPlayer);
    LineSwapsFrame(placed, s.board, DownRay(x, y), s.curPlayer);
  }

  /**
   * The opening: Red to move placing at (5, 3) brackets Blue's (4, 3)
   * against its own (3, 3); the move completes on turn 0 with one flip,
   * and Blue then has a placement at (4, 2).
   */
  lemma OpeningMove()
    ensures Select(Initial(Red), 5, 3).outcome == Selected(0, 5, 3, 1)
    ensures At(Select(Initial(Red), 5, 3).after.board, 4, 3) == Tile(Red)
  {
    var s := Initial(Red);
    InitialGridLayout();
    assert ValidPlacement(s.board, 5, 3, Red) by {
      assert NeighbourIs(s.board, 5, 3, -1, 0, Tile(Blue));
    }
    OpeningSwaps();
    var after := SwapTiles(Set(s.board, 5, 3, Tile(Red)), [(4, 3)], Red);
    assert ValidPlacement(after, 4, 2, Blue) by {
      assert NeighbourIs(after, 4, 2, 0, 1, Tile(Red));
    }
    PlacementsComplete(after, Blue, 4, 2);
  }

  lemma OpeningSwaps()
    ensures Swaps(Set(InitialGrid(), 5, 3, Tile(Red)), 5, 3, Red) == [(4, 3)]
  {
    InitialGridLayout();
    var placed := Set(InitialGrid(), 5, 3, Tile(Red));
    assert LineSwaps(placed, LeftRay(5, 3), Red) == [(4, 3)] by {
      assert LeftRay(5, 3)[0] == (4, 3) && LeftRay(5, 3)[1] == (3, 3);
      assert RunLength(placed, LeftRay(5, 3), Red) == 1;
    }
    assert LineSwaps(placed, RightRay(5, 3), Red) == [] by {
      assert RunLength(placed, RightRay(5, 3), Red) == 0;
    }
    assert LineSwaps(placed, UpRay(5, 3), Red) == [] by {
      assert RunLength(placed, UpRay(5, 3), Red) == 0;
    }
    assert LineSwaps(placed, DownRay(5, 3), Red) == [] by {
      assert RunLength(placed, DownRay(5, 3), Red) == 0;
    }
  }
}
