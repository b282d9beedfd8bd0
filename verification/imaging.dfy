/**
 Raster images as the comparison sees them: a width, a height and a grid of
 colours addressed as (x, y), read through GetPixel. Only the R, G and B
 channels take part in the comparison; alpha is not modelled.
 */
module Imaging {

  /** One 8-bit colour channel. */
  type Channel = c: int | 0 <= c <= 255

  datatype Color = Color(r: Channel, g: Channel, b: Channel)

  /** `rows[y][x]` is the pixel at column x of row y. */
  datatype Bitmap = Bitmap(width: nat, height: nat, rows: seq<seq<Color>>) {
    predicate Valid() {
      |rows| == height && forall y :: 0 <= y < |rows| ==> |rows[y]| == width
    }
  }

  /** A bitmap whose grid has the declared dimensions. */
  type Image = b: Bitmap | b.Valid() witness Bitmap(0, 0, [])

  predicate InBounds(img: Image, x: int, y: int) {
    0 <= x < img.width && 0 <= y < img.height
  }

  function GetPixel(img: Image, x: int, y: int): Color
    requires InBounds(img, x, y)
  {
    img.rows[y][x]
  }

  function Abs(n: int): nat {
    if n < 0 then -n else n
  }

  /** Manhattan distance between two colours over R, G and B. */
  function ColorDiff(c1: Color, c2: Color): (d: nat)
    ensures d <= 3 * 255
    ensures d == 0 <==> c1 == c2
  {
    Abs(c1.r - c2.r) + Abs(c1.g - c2.g) + Abs(c1.b - c2.b)
  }
}
