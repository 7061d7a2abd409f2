/**
  A tile: one pool image together with the four edges it exposes to its
  neighbours. The edges are kept as the exact pixel sequences; the source keeps
  a hash of each, which stands for the edge itself.
 */
module Tiles {
  import opened Wrappers
  import opened Images

  /** The four edge directions TOP = 0, RIGHT = 1, BOT = 2, LEFT = 3. */
  datatype Direction = Top | Right | Bot | Left

  /** The order in which the candidate filter visits the directions. */
  const Directions: seq<Direction> := [Top, Right, Bot, Left]

  /** The pixels along one edge of a tile. */
  type Edge = seq<Pixel>

  /**
    The edge of `im` in direction `d`: TOP is row 0 and BOT row height-1, read
    left to right; LEFT is column 0 and RIGHT column width-1, read top to bottom.
   */
  function EdgeOf(im: Image, d: Direction): (e: Edge)
    requires im.Valid()
    ensures |e| == if d == Top || d == Bot then im.width else im.height
  {
    match d
    case Top => seq(im.width, x requires 0 <= x < im.width => PixelAt(im, x, 0))
    case Right => seq(im.height, y requires 0 <= y < im.height => PixelAt(im, im.width - 1, y))
    case Bot => seq(im.width, x requires 0 <= x < im.width => PixelAt(im, x, im.height - 1))
    case Left => seq(im.height, y requires 0 <= y < im.height => PixelAt(im, 0, y))
  }

  /** A tile never changes after construction, so its fields are constants. */
  class Tile {
    const im: Image
    const boundaries: map<Direction, Edge>

    /** Every direction has a stored boundary, and it is that edge of the image. */
    ghost predicate Valid() {
      && im.Valid()
      && forall d: Direction :: d in boundaries && boundaries[d] == EdgeOf(im, d)
    }

    /** Reshapes the image data into rows and stores the four edges read from them. */
    constructor (im: Image)
      requires im.Valid()
      ensures this.im == im && Valid()
    {
      var width, height := im.width, im.height;
      var pixels := Rows(im);
      RowsAt(im, 0, 0);
      RowsAt(im, 0, height - 1);
      var top := pixels[0];
      var right := seq(height, r requires 0 <= r < height => pixels[r][width - 1]);
      var bot := pixels[height - 1];
      var left := seq(height, r requires 0 <= r < height => pixels[r][0]);
      forall x | 0 <= x < width
        ensures top[x] == PixelAt(im, x, 0) && bot[x] == PixelAt(im, x, height - 1)
      {
        RowsAt(im, x, 0);
        RowsAt(im, x, height - 1);
      }
      assert top == EdgeOf(im, Top);
      assert bot == EdgeOf(im, Bot);
      forall r | 0 <= r < height
        ensures right[r] == PixelAt(im, width - 1, r) && left[r] == PixelAt(im, 0, r)
      {
        RowsAt(im, width - 1, r);
        RowsAt(im, 0, r);
      }
      assert right == EdgeOf(im, Right);
      assert left == EdgeOf(im, Left);
      this.im := im;
      var b := map[Top := top, Right := right, Bot := bot, Left := left];
      forall d: Direction
        ensures d in b && b[d] == EdgeOf(im, d)
      {
        match d
        case Top =>
        case Right =>
        case Bot =>
        case Left =>
      }
      boundaries := b;
    }

    /** The stored boundary in direction `d` is that edge of the tile's image. */
    function GetBoundary(d: Direction): (e: Edge)
      requires Valid()
      ensures e == EdgeOf(im, d)
    {
      boundaries[d]
    }

    /**
      An absent expectation accepts any edge; a present one accepts exactly the
      tile's own edge in that direction.
     */
    function CompareBoundaries(d: Direction, boundary: Option<Edge>): (ok: bool)
      requires Valid()
      ensures ok <==> (boundary.None? || boundary.value == EdgeOf(im, d))
    {
      if boundary != None then boundaries[d] == boundary.value else true
    }
  }

  /** Equal edges have the same pixels, position by position: a TOP edge equal to a BOT edge joins row 0 to the last row. */
  lemma TopMeetsBot(upper: Image, lower: Image)
    requires upper.Valid() && lower.Valid()
    requires EdgeOf(lower, Top) == EdgeOf(upper, Bot)
    ensures lower.width == upper.width
    ensures forall x :: 0 <= x < lower.width ==> PixelAt(lower, x, 0) == PixelAt(upper, x, upper.height - 1)
  {
    forall x | 0 <= x < lower.width
      ensures PixelAt(lower, x, 0) == PixelAt(upper, x, upper.height - 1)
    {
      assert EdgeOf(lower, Top)[x] == EdgeOf(upper, Bot)[x];
    }
  }

  /** A LEFT edge equal to a RIGHT edge joins column 0 to the last column. */
  lemma LeftMeetsRight(left: Image, right: Image)
    requires left.Valid() && right.Valid()
    requires EdgeOf(right, Left) == EdgeOf(left, Right)
    ensures right.height == left.height
    ensures forall y :: 0 <= y < right.height ==> PixelAt(right, 0, y) == PixelAt(left, left.width - 1, y)
  {
    forall y | 0 <= y < right.height
      ensures PixelAt(right, 0, y) == PixelAt(left, left.width - 1, y)
    {
      assert EdgeOf(right, Left)[y] == EdgeOf(left, Right)[y];
    }
  }
}
