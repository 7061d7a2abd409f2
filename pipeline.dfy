/**
  The program's run from a loaded image pool to the rendered canvas, without
  its file and console I/O: reject a non-positive frame, drop duplicate images,
  number the tiles, fill the grid and render it.
 */
module Pipeline {
  import opened Images
  import opened Tiles
  import opened Assembly
  import opened Picture
  import Dedup

  /**
    A grid the builder produced from a pool of equally sized images, for a
    frame of positive size, is one the renderer accepts.
   */
  lemma BuiltGridIsRenderable(tiles: seq<Tile>, grid: Grid, w: nat, h: nat)
    requires Assembled(tiles, grid, w, h) && w > 0 && h > 0
    requires forall a, b :: 0 <= a < |tiles| && 0 <= b < |tiles| ==>
               tiles[a].im.width == tiles[b].im.width && tiles[a].im.height == tiles[b].im.height
    ensures Renderable(tiles, grid, w, h)
  {
    assert FollowsRule(tiles, grid, 0, 0);
  }

  /**
    Main without the argument parsing, logging, file loading and saving
    (CreatePictureFromTiles.py:271-278): a frame with a non-positive side or an
    empty pool gives no picture; otherwise the duplicate-free pool is assembled
    into `grid` and `canvas` is its rendering.
   */
  method RunFrame(ims: seq<Image>, frameWidth: int, frameHeight: int)
    returns (grid: Grid, canvas: array2?<Pixel>)
    requires Dedup.Uniform(ims)
    ensures frameWidth <= 0 || frameHeight <= 0 || ims == [] ==> canvas == null
    ensures frameWidth > 0 && frameHeight > 0 && ims != [] ==>
              exists tiles: seq<Tile> ::
                && |tiles| == |Dedup.Drop(ims, Dedup.DuplicateIndices(ims))|
                && (forall k :: 0 <= k < |tiles| ==> tiles[k].im == Dedup.Drop(ims, Dedup.DuplicateIndices(ims))[k])
                && Assembled(tiles, grid, frameWidth, frameHeight)
                && Renderable(tiles, grid, frameWidth, frameHeight)
                && canvas != null
                && canvas.Length1 == tiles[grid[0][0]].im.width * frameWidth
                && canvas.Length0 == tiles[grid[0][0]].im.height * frameHeight
                && forall y, x :: 0 <= y < canvas.Length0 && 0 <= x < canvas.Length1 ==>
                     canvas[y, x] == PictureAt(tiles, grid, frameWidth, frameHeight, x, y)
  {
    if frameWidth <= 0 || frameHeight <= 0 {
      return [], null;
    }
    var kept := Dedup.DeleteDuplicateImages(ims);
    if ims != [] {
      var _ := Dedup.EveryImageKeptUpToIdentity(ims, 0);
    }
    var tiles := GetTilesFromImages(kept);
    var failures;
    grid, failures := ConstructTileGrid(tiles, frameWidth, frameHeight);
    if tiles != [] {
      BuiltGridIsRenderable(tiles, grid, frameWidth, frameHeight);
    }
    canvas := CreatePicture(grid, tiles, frameWidth, frameHeight);
  }
}
