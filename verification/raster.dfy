/** Android's `ARGB_8888` colours and `Bitmap.createBitmap(colors, …)`, the
    target every image decoder of the reader fills. */
module Raster {
  import opened Runtime

  /** One `ARGB_8888` pixel as its 32-bit pattern read unsigned: alpha in the
      top byte, then red, green, blue. (Kotlin holds the same bits in a
      signed `Int`.) */
  type Argb = x: int | 0 <= x < TWO_POW_32

  /** A decoded picture: its dimensions and its pixels in row-major order. */
  datatype Bitmap = Bitmap(width: int, height: int, pixels: seq<Argb>)

  function Alpha(c: Argb): int { c / 0x100_0000 }
  function Red(c: Argb): int { (c / 0x1_0000) % 256 }
  function Green(c: Argb): int { (c / 0x100) % 256 }
  function Blue(c: Argb): int { c % 256 }

  /** `Color.rgb(r, g, b)`, i.e. `0xFF000000 | r << 16 | g << 8 | b`; the
      four fields do not overlap, so the `or`s are sums. */
  function Rgb(r: int, g: int, b: int): (c: Argb)
    requires 0 <= r < 256 && 0 <= g < 256 && 0 <= b < 256
    ensures Alpha(c) == 255 && Red(c) == r && Green(c) == g && Blue(c) == b
  {
    RgbFields(r, g, b);
    0xFF00_0000 + r * 0x1_0000 + g * 0x100 + b
  }

  lemma RgbFields(r: int, g: int, b: int)
    requires 0 <= r < 256 && 0 <= g < 256 && 0 <= b < 256
    ensures var c := 0xFF00_0000 + r * 0x1_0000 + g * 0x100 + b;
            && c / 0x100_0000 == 255 && (c / 0x1_0000) % 256 == r
            && (c / 0x100) % 256 == g && c % 256 == b
  {
    var c := 0xFF00_0000 + r * 0x1_0000 + g * 0x100 + b;
    assert c / 0x100 == 0xFF_0000 + r * 0x100 + g;
    assert c / 0x1_0000 == 0xFF00 + r;
  }

  /** `Bitmap.createBitmap(colors, width, height, ARGB_8888)` (and the
      stride-`width` overload): the first `width * height` colours become the
      picture; non-positive dimensions raise `IllegalArgumentException` and a
      too-short array `ArrayIndexOutOfBoundsException`. */
  function CreateBitmap(colors: seq<Argb>, width: int, height: int): (r: Try<Bitmap>)
    ensures r.Ok? <==> width > 0 && height > 0 && width * height <= |colors|
    ensures r.Ok? ==> r.value.width == width && r.value.height == height
    ensures r.Ok? ==> |r.value.pixels| == width * height
    ensures r.Ok? ==> forall k :: 0 <= k < width * height ==> r.value.pixels[k] == colors[k]
  {
    if width <= 0 || height <= 0 then
      Threw(OtherException(IllegalArgument, "width and height must be > 0"))
    else if |colors| < width * height then
      Threw(OtherException(IndexOutOfBounds, "colors too short"))
    else
      Ok(Bitmap(width, height, colors[..width * height]))
  }
}
