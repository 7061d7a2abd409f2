/**
  Images as the tile assembler sees them through PIL: a size, a number of bands
  (channels) fixed by the image mode, and the flat row-major pixel data that
  `getdata()` yields. The module also holds the pixel-difference test that the
  duplicate filter uses to decide that two images are identical.
 */
module Images {

  /** A pixel is the tuple of its channel values. */
  type Pixel = seq<int>

  /** The black fill colour (0,0,0) pasted where no tile could be placed. */
  const Black: Pixel := [0, 0, 0]

  /** `data[y * width + x]` is the pixel in column x of row y. */
  datatype Image = Image(width: nat, height: nat, bands: nat, data: seq<Pixel>)
  {
    /** A non-empty image whose data holds one pixel of `bands` channels per position. */
    predicate Valid() {
      && width > 0
      && height > 0
      && |data| == width * height
      && forall k :: 0 <= k < |data| ==> |data[k]| == bands
    }
  }

  lemma MulMonotone(a: nat, b: nat, c: nat)
    requires a <= b
    ensures a * c <= b * c
  {
    assert b * c == a * c + (b - a) * c;
  }

  /** Row y of a w-wide image ends at (y+1)*w, which stays inside the data. */
  lemma RowEnd(w: nat, h: nat, y: nat)
    requires y < h
    ensures y * w + w == (y + 1) * w <= w * h
  {
    MulMonotone(y + 1, h, w);
  }

  /** The pixel in column x of row y. */
  function PixelAt(im: Image, x: nat, y: nat): (p: Pixel)
    requires im.Valid() && x < im.width && y < im.height
    ensures |p| == im.bands
  {
    RowEnd(im.width, im.height, y);
    im.data[y * im.width + x]
  }

  /** Row y of the flat data: `getdata()[y * width:(y + 1) * width]`. */
  function RowSlice(im: Image, y: nat): (row: seq<Pixel>)
    requires im.Valid() && y < im.height
    ensures |row| == im.width
  {
    RowEnd(im.width, im.height, y);
    im.data[y * im.width .. (y + 1) * im.width]
  }

  /** The flat data cut into `height` rows of `width` pixels (CreatePictureFromTiles.py:27). */
  function Rows(im: Image): (rows: seq<seq<Pixel>>)
    requires im.Valid()
    ensures |rows| == im.height
  {
    seq(im.height, y requires 0 <= y < im.height => RowSlice(im, y))
  }

  /** Reshaping keeps every pixel in place: row y, entry x of the rows is pixel (x, y). */
  lemma RowsAt(im: Image, x: nat, y: nat)
    requires im.Valid() && x < im.width && y < im.height
    ensures |Rows(im)[y]| == im.width
    ensures Rows(im)[y][x] == PixelAt(im, x, y)
  {
    RowEnd(im.width, im.height, y);
    assert Rows(im)[y] == RowSlice(im, y);
  }

  /** A w x h image every pixel of which is `color` (what pasting a colour into a box paints). */
  function Solid(color: Pixel, w: nat, h: nat): (im: Image)
    requires w > 0 && h > 0
    ensures im.Valid() && im.width == w && im.height == h
  {
    MulMonotone(1, h, w);
    Image(w, h, |color|, seq(w * h, _ => color))
  }

  /** Every pixel of a solid image is its colour. */
  lemma SolidAt(color: Pixel, w: nat, h: nat, x: nat, y: nat)
    requires w > 0 && h > 0 && x < w && y < h
    ensures PixelAt(Solid(color, w, h), x, y) == color
  {
    RowEnd(w, h, y);
  }

  /** Two images the difference operation is modelled for: same size and same number of bands. */
  predicate SameShape(a: Image, b: Image) {
    && a.Valid() && b.Valid()
    && a.width == b.width && a.height == b.height && a.bands == b.bands
  }

  function Abs(v: int): nat {
    if v < 0 then -v else v
  }

  /** The data of `ImageChops.difference(a, b)`: the channel-wise absolute difference. */
  function Difference(a: Image, b: Image): (d: seq<Pixel>)
    requires SameShape(a, b)
    ensures |d| == |a.data| > 0
    ensures forall k :: 0 <= k < |d| ==> |d[k]| == a.bands
    ensures forall k, c :: 0 <= k < |d| && 0 <= c < a.bands ==>
              (d[k][c] == 0 <==> a.data[k][c] == b.data[k][c])
  {
    MulMonotone(1, a.height, a.width);
    seq(|a.data|, k requires 0 <= k < |a.data| =>
      seq(a.bands, c requires 0 <= c < a.bands => Abs(a.data[k][c] - b.data[k][c])))
  }

  /** The zero difference pixel of an image with `bands` channels. */
  function NoDiff(bands: nat): (z: Pixel)
    ensures |z| == bands && forall c :: 0 <= c < bands ==> z[c] == 0
  {
    seq(bands, _ => 0)
  }

  /**
    `ImagesAreIdentical` as written (CreatePictureFromTiles.py:257-260): every
    difference pixel equals the first one, and the first one is the 4-tuple
    (0,0,0,0), whatever the number of bands of the images. It can therefore
    only succeed on four-band (RGBA) images.
   */
  predicate ImagesAreIdenticalAsWritten(a: Image, b: Image): (r: bool)
    requires SameShape(a, b)
    ensures r ==> a.bands == 4
  {
    var pixels := Difference(a, b);
    (forall k :: 0 <= k < |pixels| ==> pixels[k] == pixels[0]) && pixels[0] == [0, 0, 0, 0]
  }

  /** Every difference pixel is zero exactly when the two images hold the same pixel data. */
  lemma ZeroDifferenceIffSameData(a: Image, b: Image)
    requires SameShape(a, b)
    ensures var pixels := Difference(a, b);
            (forall k :: 0 <= k < |pixels| ==> pixels[k] == NoDiff(a.bands)) <==> a.data == b.data
  {
    var pixels := Difference(a, b);
    if forall k :: 0 <= k < |pixels| ==> pixels[k] == NoDiff(a.bands) {
      forall k | 0 <= k < |a.data| ensures a.data[k] == b.data[k] {
        assert pixels[k] == NoDiff(a.bands);
        forall c | 0 <= c < a.bands ensures a.data[k][c] == b.data[k][c] {
          assert pixels[k][c] == 0;
        }
      }
    }
    if a.data == b.data {
      forall k | 0 <= k < |pixels| ensures pixels[k] == NoDiff(a.bands) {
        forall c | 0 <= c < a.bands ensures pixels[k][c] == 0 {
          assert a.data[k][c] == b.data[k][c];
        }
      }
    }
  }

  /**
    `ImagesAreIdentical` as intended: every difference pixel is the zero pixel
    of the images' band count, which holds exactly when the two images hold the
    same pixel data. This is the test the duplicate filter uses.
   */
  predicate ImagesAreIdentical(a: Image, b: Image): (r: bool)
    requires SameShape(a, b)
    ensures r <==> a.data == b.data
  {
    ZeroDifferenceIffSameData(a, b);
    var pixels := Difference(a, b);
    forall k :: 0 <= k < |pixels| ==> pixels[k] == NoDiff(a.bands)
  }

  /** On four-band images the written test and the intended one agree. */
  lemma AsWrittenAgreesOnFourBands(a: Image, b: Image)
    requires SameShape(a, b) && a.bands == 4
    ensures ImagesAreIdenticalAsWritten(a, b) <==> ImagesAreIdentical(a, b)
  {
    var pixels := Difference(a, b);
    assert NoDiff(4) == [0, 0, 0, 0];
    if ImagesAreIdentical(a, b) {
      assert pixels[0] == NoDiff(4);
    }
  }

  /** A one-pixel RGB image is not judged identical to itself by the written test. */
  lemma RgbImageNotIdenticalToItself()
    ensures var im := Image(1, 1, 3, [[7, 7, 7]]);
            SameShape(im, im) && ImagesAreIdentical(im, im) && !ImagesAreIdenticalAsWritten(im, im)
  {
    var im := Image(1, 1, 3, [[7, 7, 7]]);
    assert SameShape(im, im);
  }
}
