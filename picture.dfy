/**
  Rendering a tile grid: a canvas of frame_width x frame_height tile boxes,
  each holding the tile placed in that cell, or black where the cell failed.
  The canvas is indexed [y, x], row first; a box is PIL's (left, upper, right,
  lower) with the right and lower bounds excluded.
 */
module Picture {
  import opened Images
  import opened Tiles
  import opened Assembly

  datatype Box = Box(left: nat, upper: nat, right: nat, lower: nat)

  /** Pixel (x, y) lies inside `b`. */
  predicate InBox(b: Box, x: nat, y: nat) {
    b.left <= x < b.right && b.upper <= y < b.lower
  }

  /** The box of cell (i, j), row i and column j, for tiles of size tw x th. */
  function CellBox(i: nat, j: nat, tw: nat, th: nat): (b: Box)
    ensures b.right - b.left == tw && b.lower - b.upper == th
  {
    Box(j * tw, i * th, (j + 1) * tw, (i + 1) * th)
  }

  /** Writing x as q * t + r with 0 <= r < t determines the quotient and the remainder. */
  lemma DivModUnique(x: nat, t: nat, q: nat, r: nat)
    requires t > 0 && r < t && x == q * t + r
    ensures x / t == q && x % t == r
  {
    var q', r' := x / t, x % t;
    assert x == q' * t + r';
    assert (q' + 1) * t == q' * t + t;
    assert (q + 1) * t == q * t + t;
    if q' < q {
      MulMonotone(q' + 1, q, t);
    } else if q' > q {
      MulMonotone(q + 1, q', t);
    }
  }

  /**
    Pixel (x, y) lies in the box of cell (i, j) exactly when i and j are y and x
    divided by the tile size; its offset in the box is then the remainder.
   */
  lemma CellOfPixel(x: nat, y: nat, i: nat, j: nat, tw: nat, th: nat)
    requires tw > 0 && th > 0
    ensures InBox(CellBox(i, j, tw, th), x, y) <==> y / th == i && x / tw == j
    ensures InBox(CellBox(i, j, tw, th), x, y) ==> x % tw == x - j * tw && y % th == y - i * th
  {
    assert (j + 1) * tw == j * tw + tw;
    assert (i + 1) * th == i * th + th;
    if InBox(CellBox(i, j, tw, th), x, y) {
      DivModUnique(x, tw, j, x - j * tw);
      DivModUnique(y, th, i, y - i * th);
    }
    if y / th == i && x / tw == j {
      assert x == j * tw + x % tw;
      assert y == i * th + y % th;
    }
  }

  /** The boxes of two different cells share no pixel. */
  lemma BoxesDisjoint(i: nat, j: nat, i': nat, j': nat, tw: nat, th: nat, x: nat, y: nat)
    requires tw > 0 && th > 0 && (i, j) != (i', j')
    ensures !(InBox(CellBox(i, j, tw, th), x, y) && InBox(CellBox(i', j', tw, th), x, y))
  {
    CellOfPixel(x, y, i, j, tw, th);
    CellOfPixel(x, y, i', j', tw, th);
  }

  /** Every canvas pixel lies in the box of a cell of the frame: the boxes cover the canvas. */
  lemma BoxesCover(w: nat, h: nat, tw: nat, th: nat, x: nat, y: nat)
    requires tw > 0 && th > 0 && x < w * tw && y < h * th
    ensures y / th < h && x / tw < w
    ensures InBox(CellBox(y / th, x / tw, tw, th), x, y)
  {
    CellOfPixel(x, y, y / th, x / tw, tw, th);
    if x / tw >= w {
      MulMonotone(w, x / tw, tw);
    }
    if y / th >= h {
      MulMonotone(h, y / th, th);
    }
  }

  /**
    A grid the renderer accepts: a non-empty frame whose cells hold tile ids or
    the sentinel, whose first cell holds a tile, and whose tiles all have the
    size of that first tile (the pool loader admits images of one size only).
   */
  ghost predicate Renderable(tiles: seq<Tile>, grid: Grid, w: nat, h: nat) {
    && TilesValid(tiles)
    && w > 0 && h > 0
    && Shaped(grid, w, h)
    && IdsInRange(grid, |tiles|)
    && grid[0][0] != Failed
    && forall t :: 0 <= t < |tiles| ==>
         tiles[t].im.width == tiles[grid[0][0]].im.width && tiles[t].im.height == tiles[grid[0][0]].im.height
  }

  /** The image pasted into cell (i, j): its tile, or a black tile-sized block. */
  function CellImage(tiles: seq<Tile>, grid: Grid, w: nat, h: nat, i: nat, j: nat): (im: Image)
    requires Renderable(tiles, grid, w, h) && i < h && j < w
    ensures im.Valid()
    ensures im.width == tiles[grid[0][0]].im.width && im.height == tiles[grid[0][0]].im.height
  {
    var first := tiles[grid[0][0]].im;
    if grid[i][j] == Failed then Solid(Black, first.width, first.height) else tiles[grid[i][j]].im
  }

  /**
    The rendered picture at pixel (x, y): the pixel at offset (x mod tw, y mod th)
    of the image of the cell (y div th, x div tw), which lies in the frame; black
    when that cell failed, and otherwise the pixel of the tile placed there.
   */
  function PictureAt(tiles: seq<Tile>, grid: Grid, w: nat, h: nat, x: nat, y: nat): (p: Pixel)
    requires Renderable(tiles, grid, w, h)
    requires x < w * tiles[grid[0][0]].im.width && y < h * tiles[grid[0][0]].im.height
    ensures var tw, th := tiles[grid[0][0]].im.width, tiles[grid[0][0]].im.height;
            y / th < h && x / tw < w
    ensures var tw, th := tiles[grid[0][0]].im.width, tiles[grid[0][0]].im.height;
            grid[y / th][x / tw] == Failed ==> p == Black
    ensures var tw, th := tiles[grid[0][0]].im.width, tiles[grid[0][0]].im.height;
            grid[y / th][x / tw] != Failed ==> p == PixelAt(tiles[grid[y / th][x / tw]].im, x % tw, y % th)
  {
    var tw, th := tiles[grid[0][0]].im.width, tiles[grid[0][0]].im.height;
    BoxesCover(w, h, tw, th, x, y);
    SolidAt(Black, tw, th, x % tw, y % th);
    PixelAt(CellImage(tiles, grid, w, h, y / th, x / tw), x % tw, y % th)
  }

  /**
    Inside the box of cell (i, j) the picture shows that cell's tile at the
    offset within the box, and a failed cell shows black throughout its box.
   */
  lemma PictureShowsCell(tiles: seq<Tile>, grid: Grid, w: nat, h: nat, i: nat, j: nat, u: nat, v: nat)
    requires Renderable(tiles, grid, w, h) && i < h && j < w
    requires u < tiles[grid[0][0]].im.width && v < tiles[grid[0][0]].im.height
    ensures var tw, th := tiles[grid[0][0]].im.width, tiles[grid[0][0]].im.height;
            && j * tw + u < w * tw && i * th + v < h * th
            && (grid[i][j] != Failed ==> PictureAt(tiles, grid, w, h, j * tw + u, i * th + v) == PixelAt(tiles[grid[i][j]].im, u, v))
            && (grid[i][j] == Failed ==> PictureAt(tiles, grid, w, h, j * tw + u, i * th + v) == Black)
  {
    var tw, th := tiles[grid[0][0]].im.width, tiles[grid[0][0]].im.height;
    MulMonotone(j + 1, w, tw);
    MulMonotone(i + 1, h, th);
    assert (j + 1) * tw == j * tw + tw;
    assert (i + 1) * th == i * th + th;
    DivModUnique(j * tw + u, tw, j, u);
    DivModUnique(i * th + v, th, i, v);
    if grid[i][j] == Failed {
      SolidAt(Black, tw, th, u, v);
    }
  }

  /** The last pixel of box k - 1 is the one just before the first pixel of box k. */
  lemma LastBeforeNext(k: nat, t: nat)
    requires k > 0 && t > 0
    ensures (k - 1) * t + (t - 1) == k * t - 1
  {
    assert k * t == (k - 1) * t + t;
  }

  /**
    Where two vertically adjacent cells both hold tiles, the picture continues
    across their seam: the last pixel row of the upper box equals the first
    pixel row of the lower box.
   */
  lemma HorizontalSeamContinues(tiles: seq<Tile>, grid: Grid, w: nat, h: nat, i: nat, j: nat, u: nat)
    requires Renderable(tiles, grid, w, h) && Assembled(tiles, grid, w, h)
    requires 0 < i < h && j < w && grid[i][j] != Failed && grid[i - 1][j] != Failed
    requires u < tiles[grid[0][0]].im.width
    ensures var tw, th := tiles[grid[0][0]].im.width, tiles[grid[0][0]].im.height;
            && j * tw + u < w * tw && i * th < h * th
            && PictureAt(tiles, grid, w, h, j * tw + u, i * th - 1) == PictureAt(tiles, grid, w, h, j * tw + u, i * th)
  {
    var tw, th := tiles[grid[0][0]].im.width, tiles[grid[0][0]].im.height;
    TopSeam(tiles, grid, w, h, i, j);
    TopMeetsBot(tiles[grid[i - 1][j]].im, tiles[grid[i][j]].im);
    LastBeforeNext(i, th);
    PictureShowsCell(tiles, grid, w, h, i - 1, j, u, th - 1);
    PictureShowsCell(tiles, grid, w, h, i, j, u, 0);
  }

  /**
    Where two horizontally adjacent cells both hold tiles, the last pixel
    column of the left box equals the first pixel column of the right box.
   */
  lemma VerticalSeamContinues(tiles: seq<Tile>, grid: Grid, w: nat, h: nat, i: nat, j: nat, v: nat)
    requires Renderable(tiles, grid, w, h) && Assembled(tiles, grid, w, h)
    requires i < h && 0 < j < w && grid[i][j] != Failed && grid[i][j - 1] != Failed
    requires v < tiles[grid[0][0]].im.height
    ensures var tw, th := tiles[grid[0][0]].im.width, tiles[grid[0][0]].im.height;
            && j * tw < w * tw && i * th + v < h * th
            && PictureAt(tiles, grid, w, h, j * tw - 1, i * th + v) == PictureAt(tiles, grid, w, h, j * tw, i * th + v)
  {
    var tw, th := tiles[grid[0][0]].im.width, tiles[grid[0][0]].im.height;
    LeftSeam(tiles, grid, w, h, i, j);
    LeftMeetsRight(tiles[grid[i][j - 1]].im, tiles[grid[i][j]].im);
    LastBeforeNext(j, tw);
    PictureShowsCell(tiles, grid, w, h, i, j - 1, tw - 1, v);
    PictureShowsCell(tiles, grid, w, h, i, j, 0, v);
  }

  /** The canvas after the cells before (i, j) in row-major order are pasted onto the black canvas. */
  ghost function Painted(tiles: seq<Tile>, grid: Grid, w: nat, h: nat, i: nat, j: nat, x: nat, y: nat): Pixel
    requires Renderable(tiles, grid, w, h)
    requires x < w * tiles[grid[0][0]].im.width && y < h * tiles[grid[0][0]].im.height
  {
    var tw, th := tiles[grid[0][0]].im.width, tiles[grid[0][0]].im.height;
    if FilledBefore(y / th, x / tw, i, j) then PictureAt(tiles, grid, w, h, x, y) else Black
  }

  /** Pasting the image of cell (i, j) into its box paints exactly that box. */
  lemma PaintStep(tiles: seq<Tile>, grid: Grid, w: nat, h: nat, i: nat, j: nat, x: nat, y: nat)
    requires Renderable(tiles, grid, w, h) && i < h && j < w
    requires x < w * tiles[grid[0][0]].im.width && y < h * tiles[grid[0][0]].im.height
    ensures var tw, th := tiles[grid[0][0]].im.width, tiles[grid[0][0]].im.height;
            Painted(tiles, grid, w, h, i, j + 1, x, y) ==
              if InBox(CellBox(i, j, tw, th), x, y)
              then PixelAt(CellImage(tiles, grid, w, h, i, j), x - j * tw, y - i * th)
              else Painted(tiles, grid, w, h, i, j, x, y)
  {
    var tw, th := tiles[grid[0][0]].im.width, tiles[grid[0][0]].im.height;
    CellOfPixel(x, y, i, j, tw, th);
  }

  /** Finishing row i of cells is the same as having pasted every row above row i + 1. */
  lemma RowPainted(tiles: seq<Tile>, grid: Grid, w: nat, h: nat, i: nat, x: nat, y: nat)
    requires Renderable(tiles, grid, w, h)
    requires x < w * tiles[grid[0][0]].im.width && y < h * tiles[grid[0][0]].im.height
    ensures Painted(tiles, grid, w, h, i, w, x, y) == Painted(tiles, grid, w, h, i + 1, 0, x, y)
    ensures Painted(tiles, grid, w, h, 0, 0, x, y) == Black
    ensures Painted(tiles, grid, w, h, h, 0, x, y) == PictureAt(tiles, grid, w, h, x, y)
  {
    BoxesCover(w, h, tiles[grid[0][0]].im.width, tiles[grid[0][0]].im.height, x, y);
  }

  /** Copies `src` into `box` of the canvas and leaves every other canvas pixel as it was. */
  method Paste(canvas: array2<Pixel>, src: Image, box: Box)
    requires src.Valid() && box.right - box.left == src.width && box.lower - box.upper == src.height
    requires box.right <= canvas.Length1 && box.lower <= canvas.Length0
    modifies canvas
    ensures forall y, x :: 0 <= y < canvas.Length0 && 0 <= x < canvas.Length1 ==>
              canvas[y, x] == if InBox(box, x, y) then PixelAt(src, x - box.left, y - box.upper) else old(canvas[y, x])
  {
    for v := 0 to src.height
      invariant forall y, x :: 0 <= y < canvas.Length0 && 0 <= x < canvas.Length1 ==>
                  canvas[y, x] == if InBox(box, x, y) && y < box.upper + v then PixelAt(src, x - box.left, y - box.upper) else old(canvas[y, x])
    {
      for u := 0 to src.width
        invariant forall y, x :: 0 <= y < canvas.Length0 && 0 <= x < canvas.Length1 ==>
                    canvas[y, x] == if InBox(box, x, y) && (y < box.upper + v || (y == box.upper + v && x < box.left + u))
                                    then PixelAt(src, x - box.left, y - box.upper) else old(canvas[y, x])
      {
        canvas[box.upper + v, box.left + u] := PixelAt(src, u, v);
      }
    }
  }

  /**
    Renders the grid (CreatePictureFromTiles.py:121-138): nothing for an empty
    grid; otherwise a black canvas of tw * frame_width by th * frame_height
    pixels, the size of the first cell's tile, into which every cell's image is
    pasted at its box, row by row.
   */
  method CreatePicture(grid: Grid, tiles: seq<Tile>, frameWidth: nat, frameHeight: nat)
    returns (canvas: array2?<Pixel>)
    requires grid != [] ==> Renderable(tiles, grid, frameWidth, frameHeight)
    ensures grid == [] ==> canvas == null
    ensures grid != [] ==> canvas != null && fresh(canvas)
    ensures grid != [] ==> (canvas != null &&
              canvas.Length1 == tiles[grid[0][0]].im.width * frameWidth &&
              canvas.Length0 == tiles[grid[0][0]].im.height * frameHeight)
    ensures grid != [] ==> (canvas != null &&
              forall y, x :: 0 <= y < canvas.Length0 && 0 <= x < canvas.Length1 ==>
                canvas[y, x] == PictureAt(tiles, grid, frameWidth, frameHeight, x, y))
  {
    if grid == [] {
      return null;
    }
    var tw, th := tiles[grid[0][0]].im.width, tiles[grid[0][0]].im.height;
    var c := new Pixel[th * frameHeight, tw * frameWidth]((_, _) => Black);
    forall y, x | 0 <= y < c.Length0 && 0 <= x < c.Length1
      ensures c[y, x] == Painted(tiles, grid, frameWidth, frameHeight, 0, 0, x, y)
    {
      RowPainted(tiles, grid, frameWidth, frameHeight, 0, x, y);
    }
    for i := 0 to frameHeight
      invariant forall y, x :: 0 <= y < c.Length0 && 0 <= x < c.Length1 ==>
                  c[y, x] == Painted(tiles, grid, frameWidth, frameHeight, i, 0, x, y)
    {
      for j := 0 to frameWidth
        invariant forall y, x :: 0 <= y < c.Length0 && 0 <= x < c.Length1 ==>
                    c[y, x] == Painted(tiles, grid, frameWidth, frameHeight, i, j, x, y)
      {
        var box := CellBox(i, j, tw, th);
        var src: Image;
        if grid[i][j] != Failed {
          src := tiles[grid[i][j]].im;
        } else {
          src := Solid(Black, tw, th);
        }
        assert src == CellImage(tiles, grid, frameWidth, frameHeight, i, j);
        MulMonotone(j + 1, frameWidth, tw);
        MulMonotone(i + 1, frameHeight, th);
        Paste(c, src, box);
        forall y, x | 0 <= y < c.Length0 && 0 <= x < c.Length1
          ensures c[y, x] == Painted(tiles, grid, frameWidth, frameHeight, i, j + 1, x, y)
        {
          PaintStep(tiles, grid, frameWidth, frameHeight, i, j, x, y);
        }
      }
      forall y, x | 0 <= y < c.Length0 && 0 <= x < c.Length1
        ensures c[y, x] == Painted(tiles, grid, frameWidth, frameHeight, i + 1, 0, x, y)
      {
        RowPainted(tiles, grid, frameWidth, frameHeight, i, x, y);
      }
    }
    forall y, x | 0 <= y < c.Length0 && 0 <= x < c.Length1
      ensures c[y, x] == PictureAt(tiles, grid, frameWidth, frameHeight, x, y)
    {
      RowPainted(tiles, grid, frameWidth, frameHeight, 0, x, y);
    }
    return c;
  }
}
