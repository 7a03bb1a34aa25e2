/** The hand-written reader of the binary PPM ("P6") file that the
    JPEG 2000 decoder leaves behind (BitmapUtil.kt, `decodeImage`): header
    tokens, the 255 gate, and the RGB packing loop with its signed-byte
    channel mapping. */
module Ppm {
  import opened Runtime
  import opened Raster
  import Decimal

  /** `InputStream.read()` at position `pos`: the byte there, or -1 at the
      end of the stream (and at every later read). */
  function ReadAt(s: seq<byte>, pos: nat): int {
    if pos < |s| then s[pos] else -1
  }

  /** The bytes from `pos` on; empty once the stream is exhausted. */
  function From(s: seq<byte>, pos: nat): seq<byte> {
    if pos <= |s| then s[pos..] else []
  }

  /** The characters `read().toChar()` yields for the bytes `bs`. */
  function Latin1(bs: seq<byte>): (r: string)
    ensures |r| == |bs|
    ensures forall i :: 0 <= i < |bs| ==> r[i] as int == bs[i]
  {
    seq(|bs|, i requires 0 <= i < |bs| => bs[i] as char)
  }

  /** The bytes of a text whose characters are all below 256. */
  function Bytes(t: string): (r: seq<byte>)
    requires forall i :: 0 <= i < |t| ==> t[i] as int < 256
    ensures |r| == |t|
    ensures forall i :: 0 <= i < |t| ==> r[i] == t[i] as int
  {
    seq(|t|, i requires 0 <= i < |t| => t[i] as int)
  }

  const SPACE: int := ' ' as int

  predicate IsDigitByte(b: int) {
    '0' as int <= b <= '9' as int
  }

  /** The index of the first space at or after `i`, if any. */
  function FirstSpaceFrom(s: seq<byte>, i: nat): (r: Option<nat>)
    ensures r.Some? ==> i <= r.value < |s| && s[r.value] == SPACE
    ensures r.Some? ==> forall k :: i <= k < r.value ==> s[k] != SPACE
    ensures r.None? ==> forall k :: i <= k < |s| ==> s[k] != SPACE
    decreases |s| - i
  {
    if i >= |s| then None
    else if s[i] == SPACE then Some(i)
    else FirstSpaceFrom(s, i + 1)
  }

  /** The end of the run of digits starting at `i`. */
  function DigitRunEnd(s: seq<byte>, i: nat): (r: nat)
    requires i <= |s|
    ensures i <= r <= |s|
    ensures forall k :: i <= k < r ==> IsDigitByte(s[k])
    ensures r < |s| ==> !IsDigitByte(s[r])
    decreases |s| - i
  {
    if i == |s| || !IsDigitByte(s[i]) then i
    else DigitRunEnd(s, i + 1)
  }

  /** The header tokens as the reader collects them, and where the pixel
      bytes start. */
  datatype Header = Header(widthToken: string, heightToken: string, pixelStart: nat)

  /** How reading the header ends: `NotPpm` for either `return null`,
      `Runaway` when the width loop never meets a space (at the end of the
      stream `read()` keeps returning -1, which is not a space, and the
      builder grows until memory runs out), or the scanned header. */
  datatype HeaderScan = NotPpm | Runaway | Scanned(header: Header)

  /** BitmapUtil.kt lines 82-92: `P`, `6`, one skipped byte, the width token up to the
      first space, the height token as the run of digits (its terminator is
      read and dropped), the bytes `2`, `5`, `5`, and one skipped byte. */
  function ScanHeader(s: seq<byte>): (r: HeaderScan)
    ensures ReadAt(s, 0) != 'P' as int || ReadAt(s, 1) != '6' as int ==> r == NotPpm
    ensures r.Runaway? <==> ReadAt(s, 0) == 'P' as int && ReadAt(s, 1) == '6' as int &&
                            forall k :: 3 <= k < |s| ==> s[k] != SPACE
    ensures r.Scanned? ==> |s| >= 2 && s[0] == 'P' as int && s[1] == '6' as int
    ensures r.Scanned? ==> forall k :: 0 <= k < |r.header.widthToken| ==> r.header.widthToken[k] != ' '
    ensures r.Scanned? ==> Decimal.AllDigits(r.header.heightToken)
    ensures r.Scanned? ==> var p := r.header.pixelStart;
              4 <= p <= |s| + 1 && s[p - 4] == '2' as int && s[p - 3] == '5' as int && s[p - 2] == '5' as int
  {
    if ReadAt(s, 0) != 'P' as int || ReadAt(s, 1) != '6' as int then NotPpm
    else match FirstSpaceFrom(s, 3)
      case None => Runaway
      case Some(i) =>
        var j := DigitRunEnd(s, i + 1);
        if ReadAt(s, j + 1) != '2' as int || ReadAt(s, j + 2) != '5' as int
           || ReadAt(s, j + 3) != '5' as int then NotPpm
        else
          var w := Latin1(s[3..i]);
          var h := Latin1(s[i + 1..j]);
          assert forall k :: 0 <= k < |w| ==> w[k] as int == s[3 + k];
          assert forall k :: 0 <= k < |h| ==> h[k] as int == s[i + 1 + k] && Decimal.IsDigit(h[k]);
          Scanned(Header(w, h, j + 5))
  }

  /** BitmapUtil.kt line 103: a byte read into a Kotlin `Byte` is kept when non-negative and
      otherwise has 255 added, so bytes 0x80-0xFF land on 127-254. */
  function Channel(b: byte): (c: int)
    ensures 0 <= c <= 254
    ensures b < 128 ==> c == b
    ensures b >= 128 ==> c == b - 1
  {
    var v := Signed(b);
    if v >= 0 then v else v + 255
  }

  /** Two different bytes give the same channel value, 0x7F and 0x80 for one;
      the mapping loses information and 255 is never produced. */
  lemma ChannelNotInjective()
    ensures Channel(0x7F) == Channel(0x80) == 127
    ensures Channel(0xFF) == 254
    ensures forall b: byte :: Channel(b) != 255
  {
  }

  /** Pixel `k` of a pixel stream: the channels of bytes 3k, 3k+1, 3k+2. */
  function Pixel(data: seq<byte>, k: nat): Argb
    requires 3 * k + 2 < |data|
  {
    Rgb(Channel(data[3 * k]), Channel(data[3 * k + 1]), Channel(data[3 * k + 2]))
  }

  /** The colour array after the packing loop, given the array's `size`:
      complete triples fill pixels 0, 1, …, a trailing one or two bytes are
      dropped, unfilled pixels stay 0, and more triples than pixels ends in
      `ArrayIndexOutOfBoundsException`. */
  function PackSpec(data: seq<byte>, size: nat): (r: Try<seq<Argb>>)
    ensures r.Threw? <==> |data| / 3 > size
    ensures r.Ok? ==> |r.value| == size
    ensures r.Ok? ==> forall k :: 0 <= k < size && 3 * k + 2 < |data| ==> r.value[k] == Pixel(data, k)
    ensures r.Ok? ==> forall k :: 0 <= k < size && 3 * k + 2 >= |data| ==> r.value[k] == 0
  {
    var triples := |data| / 3;
    if triples > size then Threw(OtherException(IndexOutOfBounds, "colors"))
    else Ok(seq(size, k requires 0 <= k < size => if k < triples then Pixel(data, k) else 0))
  }

  function Sum(xs: seq<nat>): nat {
    if |xs| == 0 then 0 else xs[0] + Sum(xs[1..])
  }

  /** The packing loop's state: the colour array, the pending channels
      `rgb`, how many of them are filled (`cnt`), and the pixels stored so
      far (`total`). */
  datatype Packing = Packing(colors: seq<Argb>, rgb: seq<int>, cnt: nat, total: nat)

  /** The loop's invariant after `pos` bytes of `data`: whole triples are
      stored in order, the rest of the array is still 0, and the pending
      channels are those of the trailing partial triple. */
  predicate Packed(data: seq<byte>, size: nat, pos: nat, p: Packing) {
    && pos == 3 * p.total + p.cnt && p.cnt < 3 && pos <= |data|
    && p.total <= size && |p.colors| == size && |p.rgb| == 3
    && (forall k :: 0 <= k < p.total ==> p.colors[k] == Pixel(data, k))
    && (forall k :: p.total <= k < size ==> p.colors[k] == 0)
    && forall m :: 0 <= m < p.cnt ==> p.rgb[m] == Channel(data[pos - p.cnt + m])
  }

  /** BitmapUtil.kt lines 103-107 for the byte at `pos`: its channel goes to `rgb[cnt]`,
      and the third one of a triple stores `Color.rgb` at `colors[total++]`,
      which throws once the array is full. */
  function Feed(data: seq<byte>, size: nat, pos: nat, p: Packing): (r: Try<Packing>)
    requires pos < |data| && Packed(data, size, pos, p)
    ensures r.Threw? <==> p.cnt == 2 && p.total == size
    ensures r.Threw? ==> r.error == OtherException(IndexOutOfBounds, "colors")
    ensures r.Ok? ==> Packed(data, size, pos + 1, r.value)
  {
    var rgb := p.rgb[p.cnt := Channel(data[pos])];
    assert forall m :: 0 <= m < p.cnt ==> rgb[m] == Channel(data[pos - p.cnt + m]);
    if p.cnt < 2 then Ok(Packing(p.colors, rgb, p.cnt + 1, p.total))
    else if p.total == size then Threw(OtherException(IndexOutOfBounds, "colors"))
    else
      var base := 3 * p.total;
      assert rgb[0] == Channel(data[base]) && rgb[1] == Channel(data[base + 1]) && rgb[2] == Channel(data[base + 2]);
      var color := Rgb(rgb[0], rgb[1], rgb[2]);
      assert color == Pixel(data, p.total);
      Ok(Packing(p.colors[p.total := color], rgb, 0, p.total + 1))
  }

  /** BitmapUtil.kt lines 95-109 as written: `reader.read(pixel)` returns between one and
      three bytes per call (the lengths in `chunks`), and a partly filled
      triple is carried over to the next call in `rgb` and `cnt`. Whatever
      the chunking, the result is `PackSpec`'s. */
  method PackPixels(data: seq<byte>, chunks: seq<nat>, size: nat) returns (r: Try<seq<Argb>>)
    requires forall i :: 0 <= i < |chunks| ==> 1 <= chunks[i] <= 3
    requires Sum(chunks) == |data|
    ensures r == PackSpec(data, size)
  {
    var st := Packing(seq(size, _ => 0), [0, 0, 0], 0, 0);
    var pos := 0;
    var c := 0;
    while c < |chunks|
      invariant 0 <= c <= |chunks|
      invariant pos + Sum(chunks[c..]) == |data|
      invariant Packed(data, size, pos, st)
    {
      var len := chunks[c];
      assert chunks[c..][1..] == chunks[c + 1..];
      var i := 0;
      while i < len
        invariant 0 <= i <= len
        invariant pos + (len - i) + Sum(chunks[c + 1..]) == |data|
        invariant Packed(data, size, pos, st)
      {
        var next := Feed(data, size, pos, st);
        if next.Threw? {
          assert |data| / 3 > size;
          return Threw(next.error);
        }
        st := next.value;
        pos := pos + 1;
        i := i + 1;
      }
      c := c + 1;
    }
    assert |data| / 3 == st.total;
    assert st.colors == PackSpec(data, size).value;
    r := Ok(st.colors);
  }

  /** BitmapUtil.kt lines 82-110: the whole PPM read. `Ok(None)` is the method's `null`. */
  function DecodePpm(s: seq<byte>): (r: Try<Option<Bitmap>>)
    ensures ScanHeader(s).NotPpm? ==> r == Ok(None)
    ensures ScanHeader(s).Runaway? ==> r == Threw(OutOfMemoryError)
    ensures ScanHeader(s).Scanned? && Decimal.ParseInt(ScanHeader(s).header.widthToken).None? ==>
              r.Threw? && r.error.OtherException? && r.error.kind == NumberFormat
  {
    match ScanHeader(s)
    case NotPpm => Ok(None)
    case Runaway => Threw(OutOfMemoryError)
    case Scanned(h) => DecodeRaster(h, From(s, h.pixelStart))
  }

  /** What a bitmap coming out of the read promises: its dimensions are the
      parsed header tokens, both positive, the pixel count is their product,
      and the stream held no more triples than that. */
  lemma DecodedShape(s: seq<byte>)
    ensures var r := DecodePpm(s);
            r.Ok? && r.value.Some? ==>
              var h := ScanHeader(s).header;
              var b := r.value.value;
              && ScanHeader(s).Scanned?
              && Decimal.ParseInt(h.widthToken) == Some(b.width)
              && Decimal.ParseInt(h.heightToken) == Some(b.height)
              && b.width > 0 && b.height > 0 && |b.pixels| == b.width * b.height
              && |From(s, h.pixelStart)| / 3 <= b.width * b.height
  {
  }

  /** BitmapUtil.kt lines 93-110, once the header is read: both tokens through `toInt()`,
      the colour array of `width * height` (a 32-bit product), the packing
      loop over the remaining bytes, and `createBitmap`. */
  function DecodeRaster(h: Header, data: seq<byte>): (r: Try<Option<Bitmap>>)
    ensures r.Ok? ==> r.value.Some?
  {
    match (Decimal.ParseInt(h.widthToken), Decimal.ParseInt(h.heightToken))
    case (None, _) => Threw(OtherException(NumberFormat, "width"))
    case (Some(_), None) => Threw(OtherException(NumberFormat, "height"))
    case (Some(width), Some(height)) =>
      var size := Wrap32(width * height);
      if size < 0 then Threw(OtherException(NegativeArraySize, "colors"))
      else
        match PackSpec(data, size)
        case Threw(e) => Threw(e)
        case Ok(colors) =>
          match CreateBitmap(colors, width, height)
          case Threw(e) => Threw(e)
          case Ok(bitmap) => Ok(Some(bitmap))
  }

  /** A text every character of which fits in a byte. */
  predicate IsLatin1(t: string) {
    forall i :: 0 <= i < |t| ==> t[i] as int < 256
  }

  /** Byte `i` of the header of a P6 file laid out as the JPEG 2000 decoder
      writes it: `P6`, newline, width, space, height, newline, maxval,
      newline. */
  function HeaderByte(wt: string, ht: string, m: string, i: nat): byte
    requires IsLatin1(wt) && IsLatin1(ht) && IsLatin1(m)
    requires i < 6 + |wt| + |ht| + |m|
  {
    var a := 3 + |wt|;
    var b := a + 1 + |ht|;
    if i == 0 then 'P' as int
    else if i == 1 then '6' as int
    else if i == 2 then '\n' as int
    else if i < a then wt[i - 3] as int
    else if i == a then SPACE
    else if i < b then ht[i - a - 1] as int
    else if i == b then '\n' as int
    else if i < b + 1 + |m| then m[i - b - 1] as int
    else '\n' as int
  }

  /** The whole file: header, then the pixel bytes. */
  function PpmFile(wt: string, ht: string, m: string, pixels: seq<byte>): seq<byte>
    requires IsLatin1(wt) && IsLatin1(ht) && IsLatin1(m)
  {
    var n := 6 + |wt| + |ht| + |m|;
    seq(n, i requires 0 <= i < n => HeaderByte(wt, ht, m, i)) + pixels
  }

  /** `s` holds, at the offsets `PpmFile` puts them, the given tokens. */
  predicate LaidOut(s: seq<byte>, wt: string, ht: string, m: string, pixels: seq<byte>) {
    var a := 3 + |wt|;
    var b := a + 1 + |ht|;
    var c := b + 1 + |m|;
    && |s| == c + 1 + |pixels|
    && s[0] == 'P' as int && s[1] == '6' as int && s[2] == '\n' as int
    && (forall k :: 0 <= k < |wt| ==> s[3 + k] == wt[k] as int)
    && s[a] == SPACE
    && (forall k :: 0 <= k < |ht| ==> s[a + 1 + k] == ht[k] as int)
    && s[b] == '\n' as int
    && (forall k :: 0 <= k < |m| ==> s[b + 1 + k] == m[k] as int)
    && s[c] == '\n' as int
    && s[c + 1..] == pixels
  }

  lemma PpmFileLayout(wt: string, ht: string, m: string, pixels: seq<byte>)
    requires IsLatin1(wt) && IsLatin1(ht) && IsLatin1(m)
    ensures LaidOut(PpmFile(wt, ht, m, pixels), wt, ht, m, pixels)
  {
    var s := PpmFile(wt, ht, m, pixels);
    var n := 6 + |wt| + |ht| + |m|;
    assert forall i :: 0 <= i < n ==> s[i] == HeaderByte(wt, ht, m, i);
    assert s[0] == HeaderByte(wt, ht, m, 0) == 'P' as int;
    assert s[1] == HeaderByte(wt, ht, m, 1) == '6' as int;
    assert s[2] == HeaderByte(wt, ht, m, 2) == '\n' as int;
    assert s[n..] == pixels;
  }

  lemma DigitsAreLatin1(t: string)
    requires Decimal.AllDigits(t)
    ensures IsLatin1(t)
    ensures forall i :: 0 <= i < |t| ==> t[i] != ' '
  {
  }

  /** The header of a file with a digit-only width and height is scanned up
      to the maxval; when the maxval is 255 the scan reads those tokens back
      and the pixel bytes follow, otherwise the read returns null. */
  lemma ScanPpmFile(wt: string, ht: string, m: string, pixels: seq<byte>)
    requires Decimal.AllDigits(wt) && Decimal.AllDigits(ht) && |m| == 3 && IsLatin1(m)
    ensures m == "255" ==>
              var s := PpmFile(wt, ht, m, pixels);
              && ScanHeader(s) == Scanned(Header(wt, ht, |s| - |pixels|))
              && DecodePpm(s) == DecodeRaster(Header(wt, ht, |s| - |pixels|), pixels)
    ensures m != "255" ==> ScanHeader(PpmFile(wt, ht, m, pixels)) == NotPpm
    ensures m != "255" ==> DecodePpm(PpmFile(wt, ht, m, pixels)) == Ok(None)
  {
    DigitsAreLatin1(wt);
    DigitsAreLatin1(ht);
    var s := PpmFile(wt, ht, m, pixels);
    PpmFileLayout(wt, ht, m, pixels);
    ScanLaidOut(s, wt, ht, m, pixels);
  }

  /** The same for any stream holding the tokens at those offsets. */
  lemma ScanLaidOut(s: seq<byte>, wt: string, ht: string, m: string, pixels: seq<byte>)
    requires Decimal.AllDigits(wt) && Decimal.AllDigits(ht) && |m| == 3
    requires LaidOut(s, wt, ht, m, pixels)
    ensures m == "255" ==> ScanHeader(s) == Scanned(Header(wt, ht, |s| - |pixels|))
    ensures m == "255" ==> From(s, |s| - |pixels|) == pixels
    ensures m != "255" ==> ScanHeader(s) == NotPpm
  {
    var i := 3 + |wt|;
    var j := i + 1 + |ht|;
    DigitsAreLatin1(wt);
    TokenUpToSpace(s, 3, wt);
    TokenUpToNonDigit(s, i + 1, ht);
    assert s[j + 1] == m[0] as int && s[j + 2] == m[1] as int && s[j + 3] == m[2] as int;
    if m != "255" {
      assert m[0] != '2' || m[1] != '5' || m[2] != '5';
    }
  }

  /** A space-free token followed by a space is what the width loop reads. */
  lemma TokenUpToSpace(s: seq<byte>, from: nat, t: string)
    requires from + |t| < |s| && s[from + |t|] == SPACE
    requires forall k :: 0 <= k < |t| ==> s[from + k] == t[k] as int && t[k] != ' '
    ensures FirstSpaceFrom(s, from) == Some(from + |t|)
    ensures Latin1(s[from..from + |t|]) == t
  {
    forall k | from <= k < from + |t| ensures s[k] != SPACE {
      assert s[from + (k - from)] == t[k - from] as int;
    }
    FirstSpaceUpTo(s, from, from + |t|);
  }

  /** A digit token followed by a non-digit is what the height loop reads. */
  lemma TokenUpToNonDigit(s: seq<byte>, from: nat, t: string)
    requires Decimal.AllDigits(t)
    requires from + |t| < |s| && !IsDigitByte(s[from + |t|])
    requires forall k :: 0 <= k < |t| ==> s[from + k] == t[k] as int
    ensures DigitRunEnd(s, from) == from + |t|
    ensures Latin1(s[from..from + |t|]) == t
  {
    forall k | from <= k < from + |t| ensures IsDigitByte(s[k]) {
      assert s[from + (k - from)] == t[k - from] as int;
    }
    DigitRunUpTo(s, from, from + |t|);
  }

  lemma {:induction false} FirstSpaceUpTo(s: seq<byte>, from: nat, i: nat)
    requires from <= i < |s| && s[i] == SPACE
    requires forall k :: from <= k < i ==> s[k] != SPACE
    ensures FirstSpaceFrom(s, from) == Some(i)
    decreases i - from
  {
    if from < i {
      FirstSpaceUpTo(s, from + 1, i);
    }
  }

  lemma {:induction false} DigitRunUpTo(s: seq<byte>, from: nat, j: nat)
    requires from <= j < |s| && !IsDigitByte(s[j])
    requires forall k :: from <= k < j ==> IsDigitByte(s[k])
    ensures DigitRunEnd(s, from) == j
    decreases j - from
  {
    if from < j {
      DigitRunUpTo(s, from + 1, j);
    }
  }

  /** The colours of all complete triples of `data`, in order. */
  function Pixels(data: seq<byte>): (r: seq<Argb>)
    ensures 3 * |r| <= |data| < 3 * |r| + 3
  {
    seq(|data| / 3, k requires 0 <= k < |data| / 3 => Pixel(data, k))
  }

  /** The P6 file written for a `width` × `height` image from its pixel
      triples, with the decimal renderings of the dimensions and maxval 255.
      Round trip: the read gives back the bitmap of those dimensions whose
      pixel k holds the channels of bytes 3k, 3k+1, 3k+2 under the `Channel`
      mapping. */
  function EncodePpm(width: nat, height: nat, pixels: seq<byte>): (s: seq<byte>)
    requires width > 0 && height > 0 && width * height <= INT_MAX
    requires |pixels| == 3 * (width * height)
    ensures DecodePpm(s) == Ok(Some(Bitmap(width, height, Pixels(pixels))))
  {
    var wt := Decimal.ShowNat(width);
    var ht := Decimal.ShowNat(height);
    DigitsAreLatin1(wt);
    DigitsAreLatin1(ht);
    assert IsLatin1("255");
    ScanPpmFile(wt, ht, "255", pixels);
    var s := PpmFile(wt, ht, "255", pixels);
    var h := Header(wt, ht, |s| - |pixels|);
    assert DecodePpm(s) == DecodeRaster(h, pixels);
    RasterOfDimensions(h, width, height, pixels);
    s
  }

  /** Once the header tokens are the renderings of `width` and `height`, the
      rest of the read packs exactly the given pixels. */
  lemma RasterOfDimensions(h: Header, width: nat, height: nat, pixels: seq<byte>)
    requires width > 0 && height > 0 && width * height <= INT_MAX
    requires |pixels| == 3 * (width * height)
    requires h.widthToken == Decimal.ShowNat(width) && h.heightToken == Decimal.ShowNat(height)
    ensures DecodeRaster(h, pixels) == Ok(Some(Bitmap(width, height, Pixels(pixels))))
  {
    var size := width * height;
    FactorsBelowProduct(width, height);
    ParseShowNat(width);
    ParseShowNat(height);
    assert Wrap32(size) == size;
    PackExact(pixels, size);
    var colors := Pixels(pixels);
    var made := CreateBitmap(colors, width, height);
    assert made == Ok(Bitmap(width, height, colors)) by {
      assert colors[..size] == colors;
    }
    DecodeRasterOk(h, width, height, pixels, colors);
  }

  lemma FactorsBelowProduct(a: nat, b: nat)
    requires a > 0 && b > 0
    ensures a <= a * b && b <= a * b
  {
  }

  lemma ParseShowNat(n: nat)
    requires n <= INT_MAX
    ensures Decimal.ParseInt(Decimal.ShowNat(n)) == Some(n)
  {
    Decimal.ParseShow(n);
    assert Decimal.Show(n) == Decimal.ShowNat(n);
  }

  lemma DecodeRasterOk(h: Header, width: int, height: int, data: seq<byte>, colors: seq<Argb>)
    requires Decimal.ParseInt(h.widthToken) == Some(width)
    requires Decimal.ParseInt(h.heightToken) == Some(height)
    requires Wrap32(width * height) >= 0
    requires PackSpec(data, Wrap32(width * height)) == Ok(colors)
    requires CreateBitmap(colors, width, height).Ok?
    ensures DecodeRaster(h, data) == Ok(Some(CreateBitmap(colors, width, height).value))
  {
  }

  /** With exactly `size` triples every pixel is filled from the stream. */
  lemma PackExact(pixels: seq<byte>, size: nat)
    requires |pixels| == 3 * size
    ensures PackSpec(pixels, size) == Ok(Pixels(pixels))
  {
    assert |pixels| / 3 == size;
    var packed := PackSpec(pixels, size).value;
    assert |Pixels(pixels)| == size;
    assert forall k :: 0 <= k < size ==> packed[k] == Pixels(pixels)[k];
    assert packed == Pixels(pixels);
  }
}
