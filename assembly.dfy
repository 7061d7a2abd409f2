/**
  The greedy grid builder: turns the image pool into numbered tiles, then fills a
  frame_height x frame_width grid in row-major order, each cell with some tile
  whose TOP and LEFT edges fit the tiles already placed above it and to its left.
  A cell that no tile fits holds the sentinel -1, which constrains nothing.
 */
module Assembly {
  import opened Wrappers
  import opened Images
  import opened Tiles

  /** A grid of tile ids, row by row; row i is the i-th row of tiles from the top. */
  type Grid = seq<seq<int>>

  /** The sentinel of a cell for which no tile was viable; it is rendered black. */
  const Failed: int := -1

  /** The value of a cell not filled yet (the source's None); never read. */
  const Unset: int := -2

  /** The expected boundary per direction; None leaves that direction unconstrained. */
  datatype Expected = Expected(top: Option<Edge>, right: Option<Edge>, bot: Option<Edge>, left: Option<Edge>)
  {
    function Get(d: Direction): Option<Edge> {
      match d
      case Top => top
      case Right => right
      case Bot => bot
      case Left => left
    }
  }

  /** The expectation with all four directions None. */
  const Unconstrained: Expected := Expected(None, None, None, None)

  ghost predicate TilesValid(tiles: seq<Tile>) {
    forall t :: 0 <= t < |tiles| ==> tiles[t].Valid()
  }

  /** Tile `t` fits `exp` in every direction. */
  ghost predicate Matches(t: Tile, exp: Expected)
    requires t.Valid()
  {
    forall d: Direction :: t.CompareBoundaries(d, exp.Get(d))
  }

  /**
    Numbers the images 0, 1, ... in list order and builds one tile per image
    (CreatePictureFromTiles.py:183-184).
   */
  method GetTilesFromImages(ims: seq<Image>) returns (tiles: seq<Tile>)
    requires forall k :: 0 <= k < |ims| ==> ims[k].Valid()
    ensures |tiles| == |ims| && TilesValid(tiles)
    ensures forall k :: 0 <= k < |tiles| ==> tiles[k].im == ims[k]
  {
    tiles := [];
    for k := 0 to |ims|
      invariant |tiles| == k && TilesValid(tiles)
      invariant forall m :: 0 <= m < k ==> tiles[m].im == ims[m]
    {
      var t := new Tile(ims[k]);
      tiles := tiles + [t];
    }
  }

  /**
    The ids of the tiles that fit `exp` in every direction, in tile order
    (CreatePictureFromTiles.py:169-181).
   */
  method GetViableTiles(tiles: seq<Tile>, exp: Expected) returns (cands: seq<nat>)
    requires TilesValid(tiles)
    ensures forall k :: 0 <= k < |cands| ==> cands[k] < |tiles|
    ensures Increasing(cands)
    ensures forall i :: 0 <= i < |tiles| ==> (i in cands <==> Matches(tiles[i], exp))
    ensures exp == Unconstrained ==> cands == seq(|tiles|, i => i)
  {
    cands := [];
    for i := 0 to |tiles|
      invariant forall k :: 0 <= k < |cands| ==> cands[k] < i
      invariant Increasing(cands)
      invariant forall m :: 0 <= m < i ==> (m in cands <==> Matches(tiles[m], exp))
      invariant exp == Unconstrained ==> cands == seq(i, m => m)
    {
      var tile := tiles[i];
      var isViable := true;
      for k := 0 to |Directions|
        invariant isViable <==> forall m :: 0 <= m < k ==> tile.CompareBoundaries(Directions[m], exp.Get(Directions[m]))
      {
        var d := Directions[k];
        isViable := isViable && (exp.Get(d).None? || tile.GetBoundary(d) == exp.Get(d).value);
      }
      MatchesAllFour(tile, exp);
      if exp == Unconstrained {
        assert Matches(tile, exp);
      }
      if isViable {
        if exp == Unconstrained {
          assert seq(i, m => m) + [i] == seq(i + 1, m => m);
        }
        cands := cands + [i];
      }
    }
  }

  /** A tile fits an expectation when it fits it in each of the four directions. */
  lemma MatchesAllFour(t: Tile, exp: Expected)
    requires t.Valid()
    ensures Matches(t, exp) <==> forall m :: 0 <= m < |Directions| ==> t.CompareBoundaries(Directions[m], exp.Get(Directions[m]))
  {
    if forall m :: 0 <= m < |Directions| ==> t.CompareBoundaries(Directions[m], exp.Get(Directions[m])) {
      forall d: Direction
        ensures t.CompareBoundaries(d, exp.Get(d))
      {
        match d
        case Top => assert d == Directions[0];
        case Right => assert d == Directions[1];
        case Bot => assert d == Directions[2];
        case Left => assert d == Directions[3];
      }
    }
  }

  /** The grid has h rows of w cells each. */
  ghost predicate Shaped(grid: Grid, w: nat, h: nat) {
    |grid| == h && forall i :: 0 <= i < h ==> |grid[i]| == w
  }

  /** Every cell holds a tile id or the failure sentinel. */
  ghost predicate IdsInRange(grid: Grid, n: nat) {
    forall i, j :: 0 <= i < |grid| && 0 <= j < |grid[i]| ==> Failed <= grid[i][j] < n
  }

  /** The neighbours of cell (i, j) that constrain it exist and hold ids or the sentinel. */
  ghost predicate NeighboursReadable(tiles: seq<Tile>, grid: Grid, i: nat, j: nat) {
    && i < |grid| && j < |grid[i]|
    && (i > 0 ==> j < |grid[i - 1]| && Failed <= grid[i - 1][j] < |tiles|)
    && (j > 0 ==> Failed <= grid[i][j - 1] < |tiles|)
  }

  /**
    What cell (i, j) must fit (CreatePictureFromTiles.py:154-158): the BOT edge of
    the tile above and the RIGHT edge of the tile to the left, when those cells
    exist and did not fail; RIGHT and BOT are never constrained.
   */
  function CellConstraint(tiles: seq<Tile>, grid: Grid, i: nat, j: nat): (exp: Expected)
    requires TilesValid(tiles) && NeighboursReadable(tiles, grid, i, j)
    ensures exp.right == None && exp.bot == None
    ensures exp.top.Some? <==> i > 0 && grid[i - 1][j] != Failed
    ensures exp.left.Some? <==> j > 0 && grid[i][j - 1] != Failed
    ensures exp.top.Some? ==> exp.top.value == EdgeOf(tiles[grid[i - 1][j]].im, Bot)
    ensures exp.left.Some? ==> exp.left.value == EdgeOf(tiles[grid[i][j - 1]].im, Right)
  {
    Expected(
      if i > 0 && grid[i - 1][j] != Failed then Some(tiles[grid[i - 1][j]].GetBoundary(Bot)) else None,
      None,
      None,
      if j > 0 && grid[i][j - 1] != Failed then Some(tiles[grid[i][j - 1]].GetBoundary(Right)) else None)
  }

  /** No tile of the pool fits `exp`. */
  ghost predicate NoneFits(tiles: seq<Tile>, exp: Expected)
    requires TilesValid(tiles)
  {
    forall t :: 0 <= t < |tiles| ==> !Matches(tiles[t], exp)
  }

  /**
    The rule by which the builder chooses `c` for a cell with constraint `exp`:
    the first cell gets some tile; any other cell fails exactly when no tile fits
    its constraint, and otherwise gets a tile that fits it.
   */
  ghost predicate RuleFor(tiles: seq<Tile>, exp: Expected, first: bool, c: int)
    requires TilesValid(tiles)
  {
    && Failed <= c < |tiles|
    && if first then c != Failed
       else
         && (c == Failed <==> NoneFits(tiles, exp))
         && (c != Failed ==> Matches(tiles[c], exp))
  }

  /** Cell (i, j) holds what the rule allows given its placed neighbours. */
  ghost predicate FollowsRule(tiles: seq<Tile>, grid: Grid, i: nat, j: nat)
    requires TilesValid(tiles) && NeighboursReadable(tiles, grid, i, j)
  {
    RuleFor(tiles, CellConstraint(tiles, grid, i, j), i == 0 && j == 0, grid[i][j])
  }

  /**
    Picks one of the viable tiles for a cell other than the first, or the
    sentinel -1 when there is none (CreatePictureFromTiles.py:160-165).
   */
  method ChooseViable(tiles: seq<Tile>, exp: Expected) returns (c: int)
    requires TilesValid(tiles)
    ensures RuleFor(tiles, exp, false, c)
  {
    var cands := GetViableTiles(tiles, exp);
    var choices: seq<int> := cands;
    if cands == [] {
      choices := [Failed];
    }
    assert choices[0] in choices;
    c :| c in choices;
    if c != Failed {
      assert c in cands;
    }
  }

  /** Cell (a, b) is filled before cell (i, j) in row-major order. */
  predicate FilledBefore(a: nat, b: nat, i: nat, j: nat) {
    a < i || (a == i && b < j)
  }

  /** Every cell filled before (i, j) follows the rule. */
  ghost predicate RulesHoldUpTo(tiles: seq<Tile>, grid: Grid, w: nat, h: nat, i: nat, j: nat)
    requires TilesValid(tiles)
  {
    && Shaped(grid, w, h)
    && forall a, b :: 0 <= a < h && 0 <= b < w && FilledBefore(a, b, i, j) ==>
         NeighboursReadable(tiles, grid, a, b) && FollowsRule(tiles, grid, a, b)
  }

  /** A grid the builder can return for a non-empty pool: every cell filled by the rule. */
  ghost predicate Assembled(tiles: seq<Tile>, grid: Grid, w: nat, h: nat) {
    && TilesValid(tiles)
    && Shaped(grid, w, h)
    && IdsInRange(grid, |tiles|)
    && forall i, j :: 0 <= i < h && 0 <= j < w ==> NeighboursReadable(tiles, grid, i, j) && FollowsRule(tiles, grid, i, j)
  }

  /** Position (x, y) comes before position (x', y') in row-major order. */
  predicate ScanBefore(p: (nat, nat), q: (nat, nat)) {
    FilledBefore(p.1, p.0, q.1, q.0)
  }

  /** The rule for cell (a, b) reads only that cell and its upper and left neighbours. */
  lemma RuleFrame(tiles: seq<Tile>, g1: Grid, g2: Grid, a: nat, b: nat)
    requires TilesValid(tiles) && NeighboursReadable(tiles, g1, a, b) && NeighboursReadable(tiles, g2, a, b)
    requires g1[a][b] == g2[a][b]
    requires a > 0 ==> g1[a - 1][b] == g2[a - 1][b]
    requires b > 0 ==> g1[a][b - 1] == g2[a][b - 1]
    ensures FollowsRule(tiles, g1, a, b) <==> FollowsRule(tiles, g2, a, b)
  {
    assert CellConstraint(tiles, g1, a, b) == CellConstraint(tiles, g2, a, b);
  }

  /** The neighbours of the next cell to fill are already filled. */
  lemma NextCellReadable(tiles: seq<Tile>, grid: Grid, w: nat, h: nat, i: nat, j: nat)
    requires TilesValid(tiles) && RulesHoldUpTo(tiles, grid, w, h, i, j) && i < h && j < w
    ensures NeighboursReadable(tiles, grid, i, j)
  {
    if i > 0 {
      assert FollowsRule(tiles, grid, i - 1, j);
    }
    if j > 0 {
      assert FollowsRule(tiles, grid, i, j - 1);
    }
  }

  /** Writing a value the rule allows into the next cell extends the filled region by one cell. */
  lemma FillStep(tiles: seq<Tile>, grid: Grid, w: nat, h: nat, i: nat, j: nat, c: int)
    requires TilesValid(tiles) && RulesHoldUpTo(tiles, grid, w, h, i, j) && i < h && j < w
    requires NeighboursReadable(tiles, grid, i, j)
    requires RuleFor(tiles, CellConstraint(tiles, grid, i, j), i == 0 && j == 0, c)
    ensures RulesHoldUpTo(tiles, grid[i := grid[i][j := c]], w, h, i, j + 1)
  {
    var next := grid[i := grid[i][j := c]];
    forall a, b | 0 <= a < h && 0 <= b < w && FilledBefore(a, b, i, j + 1)
      ensures NeighboursReadable(tiles, next, a, b) && FollowsRule(tiles, next, a, b)
    {
      if a == i && b == j {
        NewCellFollowsRule(tiles, grid, w, h, i, j, c);
      } else {
        assert FilledBefore(a, b, i, j);
        OldCellFollowsRule(tiles, grid, w, h, i, j, c, a, b);
      }
    }
  }

  /** The cell just written follows the rule in the updated grid. */
  lemma NewCellFollowsRule(tiles: seq<Tile>, grid: Grid, w: nat, h: nat, i: nat, j: nat, c: int)
    requires TilesValid(tiles) && Shaped(grid, w, h) && i < h && j < w
    requires NeighboursReadable(tiles, grid, i, j)
    requires RuleFor(tiles, CellConstraint(tiles, grid, i, j), i == 0 && j == 0, c)
    ensures NeighboursReadable(tiles, grid[i := grid[i][j := c]], i, j)
    ensures FollowsRule(tiles, grid[i := grid[i][j := c]], i, j)
  {
    var next := grid[i := grid[i][j := c]];
    assert CellConstraint(tiles, next, i, j) == CellConstraint(tiles, grid, i, j);
  }

  /** A cell filled before the one being written still follows the rule after the write. */
  lemma OldCellFollowsRule(tiles: seq<Tile>, grid: Grid, w: nat, h: nat, i: nat, j: nat, c: int, a: nat, b: nat)
    requires TilesValid(tiles) && Shaped(grid, w, h) && i < h && j < w && a < h && b < w
    requires FilledBefore(a, b, i, j)
    requires NeighboursReadable(tiles, grid, a, b) && FollowsRule(tiles, grid, a, b)
    ensures NeighboursReadable(tiles, grid[i := grid[i][j := c]], a, b)
    ensures FollowsRule(tiles, grid[i := grid[i][j := c]], a, b)
  {
    RuleFrame(tiles, grid, grid[i := grid[i][j := c]], a, b);
  }

  /** Finishing row i is the same as having filled everything before row i + 1. */
  lemma RowDone(tiles: seq<Tile>, grid: Grid, w: nat, h: nat, i: nat)
    requires TilesValid(tiles) && RulesHoldUpTo(tiles, grid, w, h, i, w)
    ensures RulesHoldUpTo(tiles, grid, w, h, i + 1, 0)
  {
    forall a, b | 0 <= a < h && 0 <= b < w && FilledBefore(a, b, i + 1, 0)
      ensures NeighboursReadable(tiles, grid, a, b) && FollowsRule(tiles, grid, a, b)
    {
      assert FilledBefore(a, b, i, w);
    }
  }

  /** With every row filled, the grid is assembled. */
  lemma AllRowsDone(tiles: seq<Tile>, grid: Grid, w: nat, h: nat)
    requires TilesValid(tiles) && RulesHoldUpTo(tiles, grid, w, h, h, 0)
    ensures Assembled(tiles, grid, w, h)
  {
    forall i, j | 0 <= i < h && 0 <= j < w
      ensures NeighboursReadable(tiles, grid, i, j) && FollowsRule(tiles, grid, i, j)
      ensures Failed <= grid[i][j] < |tiles|
    {
      assert FilledBefore(i, j, h, 0);
    }
  }

  /**
    `failures` lists, in scan order, the position (x, y) of every failed cell
    filled before (i, j), and nothing else.
   */
  ghost predicate FailuresListed(grid: Grid, w: nat, failures: seq<(nat, nat)>, i: nat, j: nat)
    requires forall a :: 0 <= a < i && a < |grid| ==> |grid[a]| == w
    requires i < |grid| ==> j <= |grid[i]|
  {
    && (forall p :: p in failures <==>
          FilledBefore(p.1, p.0, i, j) && p.1 < |grid| && p.0 < w && grid[p.1][p.0] == Failed)
    && (forall a :: 0 <= a < |failures| ==> ScanBefore(failures[a], (j, i)))
    && (forall a, b :: 0 <= a < b < |failures| ==> ScanBefore(failures[a], failures[b]))
  }

  /** Recording the position of cell (i, j) when it fails keeps the list complete and in order. */
  lemma FailureStep(grid: Grid, w: nat, h: nat, failures: seq<(nat, nat)>, i: nat, j: nat, c: int)
    requires Shaped(grid, w, h) && i < h && j < w
    requires FailuresListed(grid, w, failures, i, j)
    ensures var next := grid[i := grid[i][j := c]];
            FailuresListed(next, w, if c == Failed then failures + [(j, i)] else failures, i, j + 1)
  {
  }

  /** Finishing row i of the failure list is the same as having listed every row above row i + 1. */
  lemma FailureRowDone(grid: Grid, w: nat, h: nat, failures: seq<(nat, nat)>, i: nat)
    requires Shaped(grid, w, h) && i < h
    requires FailuresListed(grid, w, failures, i, w)
    ensures FailuresListed(grid, w, failures, i + 1, 0)
  {
  }

  /** Once every row is done, the failure list holds exactly the failed cells, in scan order. */
  lemma FailuresComplete(grid: Grid, w: nat, h: nat, failures: seq<(nat, nat)>)
    requires Shaped(grid, w, h) && FailuresListed(grid, w, failures, h, 0)
    ensures forall p :: p in failures <==> p.1 < |grid| && p.0 < |grid[p.1]| && grid[p.1][p.0] == Failed
    ensures forall a, b :: 0 <= a < b < |failures| ==> ScanBefore(failures[a], failures[b])
  {
  }

  /**
    Fills row i of the grid left to right (CreatePictureFromTiles.py:149-165),
    appending the position of every cell of the row that fails.
   */
  method FillRow(tiles: seq<Tile>, grid: Grid, w: nat, h: nat, i: nat, failures: seq<(nat, nat)>)
    returns (grid': Grid, failures': seq<(nat, nat)>)
    requires TilesValid(tiles) && tiles != [] && i < h
    requires RulesHoldUpTo(tiles, grid, w, h, i, 0) && FailuresListed(grid, w, failures, i, 0)
    ensures RulesHoldUpTo(tiles, grid', w, h, i + 1, 0) && FailuresListed(grid', w, failures', i + 1, 0)
    ensures forall a :: 0 <= a < h && a != i ==> grid'[a] == grid[a]
    ensures failures <= failures'
  {
    grid', failures' := grid, failures;
    for j := 0 to w
      invariant RulesHoldUpTo(tiles, grid', w, h, i, j)
      invariant FailuresListed(grid', w, failures', i, j)
      invariant forall a :: 0 <= a < h && a != i ==> grid'[a] == grid[a]
      invariant failures <= failures'
    {
      NextCellReadable(tiles, grid', w, h, i, j);
      var c: int;
      if i == 0 && j == 0 {
        c :| 0 <= c < |tiles|;
      } else {
        var exp := CellConstraint(tiles, grid', i, j);
        c := ChooseViable(tiles, exp);
      }
      FillStep(tiles, grid', w, h, i, j, c);
      FailureStep(grid', w, h, failures', i, j, c);
      if c == Failed {
        failures' := failures' + [(j, i)];
      }
      grid' := grid'[i := grid'[i][j := c]];
    }
    RowDone(tiles, grid', w, h, i);
    FailureRowDone(grid', w, h, failures', i);
  }

  /**
    Fills the grid left to right, top to bottom (CreatePictureFromTiles.py:140-167).
    Cell (0, 0) gets any tile; every other cell gets any tile viable against its
    placed top and left neighbours, or the sentinel -1 when there is none, in
    which case its position (x, y) is reported in `failures`.
   */
  method ConstructTileGrid(tiles: seq<Tile>, frameWidth: nat, frameHeight: nat)
    returns (grid: Grid, failures: seq<(nat, nat)>)
    requires TilesValid(tiles)
    ensures tiles == [] ==> grid == [] && failures == []
    ensures tiles != [] ==> Assembled(tiles, grid, frameWidth, frameHeight)
    ensures tiles != [] && frameWidth > 0 && frameHeight > 0 ==> 0 <= grid[0][0] < |tiles|
    ensures tiles != [] ==>
              forall i, j :: (0 < i < frameHeight && 0 <= j < frameWidth &&
                              grid[i][j] != Failed && grid[i - 1][j] != Failed) ==>
              EdgeOf(tiles[grid[i][j]].im, Top) == EdgeOf(tiles[grid[i - 1][j]].im, Bot)
    ensures tiles != [] ==>
              forall i, j :: (0 <= i < frameHeight && 0 < j < frameWidth &&
                              grid[i][j] != Failed && grid[i][j - 1] != Failed) ==>
              EdgeOf(tiles[grid[i][j]].im, Left) == EdgeOf(tiles[grid[i][j - 1]].im, Right)
    ensures forall p :: p in failures <==> p.1 < |grid| && p.0 < |grid[p.1]| && grid[p.1][p.0] == Failed
    ensures forall a, b :: 0 <= a < b < |failures| ==> ScanBefore(failures[a], failures[b])
  {
    failures := [];
    if tiles == [] {
      return [], failures;
    }
    grid := seq(frameHeight, _ => seq(frameWidth, _ => Unset));
    for i := 0 to frameHeight
      invariant RulesHoldUpTo(tiles, grid, frameWidth, frameHeight, i, 0)
      invariant FailuresListed(grid, frameWidth, failures, i, 0)
    {
      grid, failures := FillRow(tiles, grid, frameWidth, frameHeight, i, failures);
    }
    AllRowsDone(tiles, grid, frameWidth, frameHeight);
    FailuresComplete(grid, frameWidth, frameHeight, failures);
    if frameWidth > 0 && frameHeight > 0 {
      assert FollowsRule(tiles, grid, 0, 0);
    }
    SeamsAgree(tiles, grid, frameWidth, frameHeight);
  }

  /**
    In an assembled grid every placed tile agrees with its placed neighbours: its
    TOP edge is the BOT edge of the tile above, its LEFT edge the RIGHT edge of
    the tile to its left.
   */
  lemma SeamsAgree(tiles: seq<Tile>, grid: Grid, w: nat, h: nat)
    requires Assembled(tiles, grid, w, h)
    ensures forall i, j :: 0 < i < h && 0 <= j < w && grid[i][j] != Failed && grid[i - 1][j] != Failed ==>
              EdgeOf(tiles[grid[i][j]].im, Top) == EdgeOf(tiles[grid[i - 1][j]].im, Bot)
    ensures forall i, j :: 0 <= i < h && 0 < j < w && grid[i][j] != Failed && grid[i][j - 1] != Failed ==>
              EdgeOf(tiles[grid[i][j]].im, Left) == EdgeOf(tiles[grid[i][j - 1]].im, Right)
  {
    forall i, j | 0 < i < h && 0 <= j < w && grid[i][j] != Failed && grid[i - 1][j] != Failed
      ensures EdgeOf(tiles[grid[i][j]].im, Top) == EdgeOf(tiles[grid[i - 1][j]].im, Bot)
    {
      TopSeam(tiles, grid, w, h, i, j);
    }
    forall i, j | 0 <= i < h && 0 < j < w && grid[i][j] != Failed && grid[i][j - 1] != Failed
      ensures EdgeOf(tiles[grid[i][j]].im, Left) == EdgeOf(tiles[grid[i][j - 1]].im, Right)
    {
      LeftSeam(tiles, grid, w, h, i, j);
    }
  }

  /** A placed tile below a placed tile has as its TOP edge the BOT edge of the tile above. */
  lemma TopSeam(tiles: seq<Tile>, grid: Grid, w: nat, h: nat, i: nat, j: nat)
    requires Assembled(tiles, grid, w, h)
    requires 0 < i < h && j < w && grid[i][j] != Failed && grid[i - 1][j] != Failed
    ensures EdgeOf(tiles[grid[i][j]].im, Top) == EdgeOf(tiles[grid[i - 1][j]].im, Bot)
  {
    assert FollowsRule(tiles, grid, i, j);
    assert tiles[grid[i][j]].CompareBoundaries(Top, CellConstraint(tiles, grid, i, j).Get(Top));
  }

  /** A placed tile right of a placed tile has as its LEFT edge the RIGHT edge of the tile to its left. */
  lemma LeftSeam(tiles: seq<Tile>, grid: Grid, w: nat, h: nat, i: nat, j: nat)
    requires Assembled(tiles, grid, w, h)
    requires i < h && 0 < j < w && grid[i][j] != Failed && grid[i][j - 1] != Failed
    ensures EdgeOf(tiles[grid[i][j]].im, Left) == EdgeOf(tiles[grid[i][j - 1]].im, Right)
  {
    assert FollowsRule(tiles, grid, i, j);
    assert tiles[grid[i][j]].CompareBoundaries(Left, CellConstraint(tiles, grid, i, j).Get(Left));
  }

  /**
    A cell whose upper and left neighbours are missing or failed is
    unconstrained, so it always gets a tile: a failure never cascades.
   */
  lemma FailureDoesNotCascade(tiles: seq<Tile>, grid: Grid, w: nat, h: nat, i: nat, j: nat)
    requires Assembled(tiles, grid, w, h) && tiles != []
    requires i < h && j < w
    requires i == 0 || grid[i - 1][j] == Failed
    requires j == 0 || grid[i][j - 1] == Failed
    ensures grid[i][j] != Failed
  {
    assert FollowsRule(tiles, grid, i, j);
    if !(i == 0 && j == 0) {
      assert CellConstraint(tiles, grid, i, j) == Unconstrained;
      assert Matches(tiles[0], Unconstrained);
    }
  }

  /**
    If some tile's TOP edge is the BOT edge of every tile and its LEFT edge the
    RIGHT edge of every tile, it fits every cell, so no cell fails.
   */
  lemma UniversalTileMeansNoFailure(tiles: seq<Tile>, grid: Grid, w: nat, h: nat, s: nat)
    requires Assembled(tiles, grid, w, h) && s < |tiles|
    requires forall u :: 0 <= u < |tiles| ==>
               EdgeOf(tiles[s].im, Top) == EdgeOf(tiles[u].im, Bot) &&
               EdgeOf(tiles[s].im, Left) == EdgeOf(tiles[u].im, Right)
    ensures forall i, j :: 0 <= i < h && 0 <= j < w ==> grid[i][j] != Failed
  {
    forall i, j | 0 <= i < h && 0 <= j < w
      ensures grid[i][j] != Failed
    {
      assert FollowsRule(tiles, grid, i, j);
      if !(i == 0 && j == 0) {
        var exp := CellConstraint(tiles, grid, i, j);
        forall d: Direction
          ensures tiles[s].CompareBoundaries(d, exp.Get(d))
        {
        }
        assert Matches(tiles[s], exp);
      }
    }
  }

  /** A pool of one tile whose TOP equals its BOT and whose LEFT equals its RIGHT fills any frame. */
  lemma SeamlessTileFillsFrame(tiles: seq<Tile>, grid: Grid, w: nat, h: nat)
    requires Assembled(tiles, grid, w, h) && |tiles| == 1
    requires EdgeOf(tiles[0].im, Top) == EdgeOf(tiles[0].im, Bot)
    requires EdgeOf(tiles[0].im, Left) == EdgeOf(tiles[0].im, Right)
    ensures forall i, j :: 0 <= i < h && 0 <= j < w ==> grid[i][j] == 0
  {
    UniversalTileMeansNoFailure(tiles, grid, w, h, 0);
    assert IdsInRange(grid, 1);
  }

  /**
    In a one-row frame over a pool in which no LEFT edge equals any RIGHT edge,
    every second cell fails: each failure frees the next cell, which gets a tile
    that the cell after it cannot fit.
   */
  lemma {:induction false} IncompatibleRowAlternates(tiles: seq<Tile>, grid: Grid, w: nat, j: nat)
    requires Assembled(tiles, grid, w, 1) && j < w
    requires forall t, u :: 0 <= t < |tiles| && 0 <= u < |tiles| ==>
               EdgeOf(tiles[t].im, Left) != EdgeOf(tiles[u].im, Right)
    ensures grid[0][j] == Failed <==> j % 2 == 1
  {
    assert FollowsRule(tiles, grid, 0, 0);
    if j > 0 {
      IncompatibleRowAlternates(tiles, grid, w, j - 1);
      assert j % 2 == 1 <==> (j - 1) % 2 == 0;
      if grid[0][j - 1] == Failed {
        FailureDoesNotCascade(tiles, grid, w, 1, 0, j);
      } else {
        var left := grid[0][j - 1];
        assert 0 <= left < |tiles|;
        assert forall t :: 0 <= t < |tiles| ==> EdgeOf(tiles[t].im, Left) != EdgeOf(tiles[left].im, Right);
        LeftMismatchFails(tiles, grid, w, 1, 0, j);
      }
    }
  }

  /** A cell right of a placed tile whose RIGHT edge no tile's LEFT edge equals fails. */
  lemma LeftMismatchFails(tiles: seq<Tile>, grid: Grid, w: nat, h: nat, i: nat, j: nat)
    requires Assembled(tiles, grid, w, h) && i < h && 0 < j < w && grid[i][j - 1] != Failed
    requires forall t :: 0 <= t < |tiles| ==> EdgeOf(tiles[t].im, Left) != EdgeOf(tiles[grid[i][j - 1]].im, Right)
    ensures grid[i][j] == Failed
  {
    assert FollowsRule(tiles, grid, i, j);
    var exp := CellConstraint(tiles, grid, i, j);
    forall t | 0 <= t < |tiles|
      ensures !Matches(tiles[t], exp)
    {
      assert !tiles[t].CompareBoundaries(Left, exp.Get(Left));
    }
  }
}
