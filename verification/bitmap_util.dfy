/** BitmapUtil.kt: `getImage` and `decodeImage`. The JPEG 2000 and WSQ codecs
    and Android's generic decoder are external; they are passed in as
    `Codecs`, and only the byte handling around them is modelled. */
module BitmapUtil {
  import opened Runtime
  import opened Raster
  import Ppm

  /** Collapses the characters that Kotlin's `equals(…, ignoreCase = true)`
      treats as equal to an ASCII character onto one representative: ASCII
      upper-case letters onto lower-case ones, and the four non-ASCII
      characters whose upper- or lower-case mapping is an ASCII letter
      (dotted capital I and dotless small i onto `i`, long s onto `s`, the
      Kelvin sign onto `k`). */
  function Fold(c: char): char {
    if 'A' <= c <= 'Z' then (c as int + 32) as char
    else if c == '\U{130}' || c == '\U{131}' then 'i'
    else if c == '\U{17F}' then 's'
    else if c == '\U{212A}' then 'k'
    else c
  }

  predicate IsAscii(s: string) {
    forall i :: 0 <= i < |s| ==> s[i] as int < 128
  }

  /** `s.equals(literal, ignoreCase = true)` for an ASCII `literal`. */
  predicate EqualsIgnoreCase(s: string, literal: string) {
    |s| == |literal| && forall i :: 0 <= i < |s| ==> Fold(s[i]) == Fold(literal[i])
  }

  /** The three branches of `decodeImage`. */
  datatype Decoder = Jpeg2000 | Wsq | Generic

  /** BitmapUtil.kt lines 46-49, 111 and 128: which branch a MIME type takes. */
  function DecoderFor(mimeType: string): (d: Decoder)
    ensures d == Jpeg2000 <==>
              EqualsIgnoreCase(mimeType, "image/jp2") || EqualsIgnoreCase(mimeType, "image/jpeg2000")
    ensures d == Wsq <==>
              !EqualsIgnoreCase(mimeType, "image/jp2") && !EqualsIgnoreCase(mimeType, "image/jpeg2000")
              && EqualsIgnoreCase(mimeType, "image/x-wsq")
  {
    if EqualsIgnoreCase(mimeType, "image/jp2") || EqualsIgnoreCase(mimeType, "image/jpeg2000") then Jpeg2000
    else if EqualsIgnoreCase(mimeType, "image/x-wsq") then Wsq
    else Generic
  }

  function AsciiUpper(s: string): (r: string)
    ensures |r| == |s|
  {
    seq(|s|, i requires 0 <= i < |s| => if 'a' <= s[i] <= 'z' then (s[i] as int - 32) as char else s[i])
  }

  /** The dispatch does not depend on ASCII case: upper-casing a MIME type
      never changes the branch it takes. */
  lemma DispatchIgnoresCase(mimeType: string)
    ensures DecoderFor(AsciiUpper(mimeType)) == DecoderFor(mimeType)
  {
    var u := AsciiUpper(mimeType);
    assert forall i :: 0 <= i < |u| ==> Fold(u[i]) == Fold(mimeType[i]);
  }

  /** Kotlin's case folding reaches beyond ASCII: a dotless small i still
      selects the JPEG 2000 branch. */
  lemma DispatchDotlessI()
    ensures DecoderFor("\U{131}mage/jp2") == Jpeg2000
  {
    assert EqualsIgnoreCase("\U{131}mage/jp2", "image/jp2");
  }

  /** Upper-case spellings select the same branches as the lower-case ones. */
  lemma DispatchUpperCase()
    ensures DecoderFor("IMAGE/JP2") == Jpeg2000
    ensures DecoderFor("image/X-WSQ") == Wsq
  {
    assert EqualsIgnoreCase("IMAGE/JP2", "image/jp2");
    assert EqualsIgnoreCase("image/X-WSQ", "image/x-wsq");
  }

  /** Plain JPEG, and a JPEG 2000 type with trailing blank, go to the
      generic decoder. */
  lemma DispatchGeneric()
    ensures DecoderFor("image/jpeg") == Generic
    ensures DecoderFor("image/jp2 ") == Generic
  {
    assert !EqualsIgnoreCase("image/jp2 ", "image/x-wsq") by {
      assert Fold("image/jp2 "[6]) != Fold("image/x-wsq"[6]);
    }
  }

  /** What the WSQ decoder hands back: a single-channel image. */
  datatype GreyImage = GreyImage(width: int, height: int, pixels: seq<byte>)

  /** The external decoders, each applied to the image bytes. `jpeg2000`
      stands for writing `temp.jp2`, running the JJ2000 decoder and opening
      `temp.ppm`: it yields that file's bytes or the exception thrown on the
      way. `generic` is `BitmapFactory.decodeStream`, `None` for its null. */
  datatype Codecs = Codecs(
    jpeg2000: seq<byte> -> Try<seq<byte>>,
    wsq: seq<byte> -> Try<GreyImage>,
    generic: seq<byte> -> Option<Bitmap>)

  /** BitmapUtil.kt lines 114-119: each grey byte, taken unsigned (`and 0xFF`), becomes an
      opaque pixel with that value in red, green and blue. */
  function GreyToArgb(grey: seq<byte>): (argb: seq<Argb>)
    ensures |argb| == |grey|
    ensures forall j :: 0 <= j < |grey| ==>
              Alpha(argb[j]) == 255 && Red(argb[j]) == grey[j]
              && Green(argb[j]) == grey[j] && Blue(argb[j]) == grey[j]
  {
    seq(|grey|, j requires 0 <= j < |grey| => Rgb(grey[j], grey[j], grey[j]))
  }

  /** `decodeImage(mimeType, stream)`: `Ok(None)` is its `null`. */
  function DecodeImage(mimeType: string, bytes: seq<byte>, codecs: Codecs): (r: Try<Option<Bitmap>>)
    ensures DecoderFor(mimeType) == Generic ==> r == Ok(codecs.generic(bytes))
    ensures DecoderFor(mimeType) == Jpeg2000 && codecs.jpeg2000(bytes).Ok? ==>
              r == Ppm.DecodePpm(codecs.jpeg2000(bytes).value)
    ensures DecoderFor(mimeType) == Jpeg2000 && codecs.jpeg2000(bytes).Threw? ==>
              r == Threw(codecs.jpeg2000(bytes).error)
    ensures DecoderFor(mimeType) == Wsq && codecs.wsq(bytes).Threw? ==>
              r == Threw(codecs.wsq(bytes).error)
    ensures DecoderFor(mimeType) == Wsq && codecs.wsq(bytes).Ok? ==>
              var g := codecs.wsq(bytes).value;
              (r.Ok? <==> g.width > 0 && g.height > 0 && g.width * g.height <= |g.pixels|)
    ensures DecoderFor(mimeType) != Generic && r.Ok? && r.value.Some? ==>
              r.value.value.width > 0 && r.value.value.height > 0
              && |r.value.value.pixels| == r.value.value.width * r.value.value.height
    ensures DecoderFor(mimeType) == Wsq && r.Ok? ==>
              var g := codecs.wsq(bytes);
              && g.Ok? && r.value.Some?
              && var b := r.value.value;
              && b.width == g.value.width && b.height == g.value.height
              && |b.pixels| <= |g.value.pixels|
              && forall j :: 0 <= j < |b.pixels| ==>
                   Red(b.pixels[j]) == Green(b.pixels[j]) == Blue(b.pixels[j]) == g.value.pixels[j]
  {
    var decoder := DecoderFor(mimeType);
    if decoder.Jpeg2000? then
      match codecs.jpeg2000(bytes)
      case Threw(e) => Threw(e)
      case Ok(ppm) => Ppm.DecodePpm(ppm)
    else if decoder.Wsq? then
      match codecs.wsq(bytes)
      case Threw(e) => Threw(e)
      case Ok(g) =>
        match CreateBitmap(GreyToArgb(g.pixels), g.width, g.height)
        case Threw(e) => Threw(e)
        case Ok(b) => Ok(Some(b))
    else Ok(codecs.generic(bytes))
  }

  /** What a face image record offers: the MIME type, the declared length and
      the bytes its input stream will deliver. */
  datatype ImageInfo = ImageInfo(mimeType: string, imageLength: int, stream: seq<byte>)

  /** `Base64.encodeToString(raw, Base64.DEFAULT)`, kept symbolic: the text
      is determined by the bytes it encodes. */
  datatype Base64 = Base64Of(raw: seq<byte>)

  /** dto/NfcImage.kt. */
  datatype NfcImage = NfcImage(bitmap: Option<Bitmap>, base64: Option<Base64>)

  /** BitmapUtil.kt lines 25-40. `new ByteArray(imageLength)` sits outside the `try`; a
      short stream makes `readFully` throw `EOFException`, an `IOException`;
      only `IOException`s are caught, and both fields are then left null. */
  function GetImage(info: ImageInfo, codecs: Codecs): (r: Try<NfcImage>)
    ensures info.imageLength < 0 ==> r.Threw? && r.error == OtherException(NegativeArraySize, "imageLength")
    ensures r.Threw? ==> !r.error.IOException?
    ensures 0 <= info.imageLength && |info.stream| < info.imageLength ==> r == Ok(NfcImage(None, None))
    ensures 0 <= info.imageLength <= |info.stream| ==>
              var d := DecodeImage(info.mimeType, info.stream[..info.imageLength], codecs);
              && (d.Ok? ==> r == Ok(NfcImage(d.value, Some(Base64Of(info.stream[..info.imageLength])))))
              && (d.Threw? && d.error.IOException? ==> r == Ok(NfcImage(None, None)))
              && (d.Threw? && !d.error.IOException? ==> r == Threw(d.error))
    ensures r.Ok? && r.value.base64.Some? ==> |r.value.base64.value.raw| == info.imageLength
    ensures r.Ok? && r.value.bitmap.Some? ==> r.value.base64.Some?
  {
    if info.imageLength < 0 then Threw(OtherException(NegativeArraySize, "imageLength"))
    else if |info.stream| < info.imageLength then Ok(NfcImage(None, None))
    else
      var buffer := info.stream[..info.imageLength];
      match DecodeImage(info.mimeType, buffer, codecs)
      case Threw(e) => if e.IOException? then Ok(NfcImage(None, None)) else Threw(e)
      case Ok(bitmap) => Ok(NfcImage(bitmap, Some(Base64Of(buffer))))
  }

  /** End to end for a JPEG 2000 record: when the decoder writes the P6 file
      of a `width` × `height` image, `getImage` returns exactly that bitmap
      together with the Base64 of the `imageLength` raw bytes. */
  lemma GetImageOfPpm(info: ImageInfo, codecs: Codecs, width: nat, height: nat, pixels: seq<byte>)
    requires 0 <= info.imageLength <= |info.stream|
    requires DecoderFor(info.mimeType) == Jpeg2000
    requires width > 0 && height > 0 && width * height <= INT_MAX
    requires |pixels| == 3 * (width * height)
    requires codecs.jpeg2000(info.stream[..info.imageLength]) == Ok(Ppm.EncodePpm(width, height, pixels))
    ensures GetImage(info, codecs) ==
              Ok(NfcImage(Some(Bitmap(width, height, Ppm.Pixels(pixels))),
                          Some(Base64Of(info.stream[..info.imageLength]))))
  {
  }

  /** End to end for a WSQ record: a grey image with positive dimensions and
      enough pixels comes back as the grey bitmap of its first
      `width * height` pixels, with the raw bytes encoded. */
  lemma GetImageOfWsq(info: ImageInfo, codecs: Codecs, g: GreyImage)
    requires 0 <= info.imageLength <= |info.stream|
    requires DecoderFor(info.mimeType) == Wsq
    requires g.width > 0 && g.height > 0 && g.width * g.height <= |g.pixels|
    requires codecs.wsq(info.stream[..info.imageLength]) == Ok(g)
    ensures var r := GetImage(info, codecs);
            && r.Ok? && r.value.base64 == Some(Base64Of(info.stream[..info.imageLength]))
            && r.value.bitmap.Some?
            && var b := r.value.bitmap.value;
            && b.width == g.width && b.height == g.height
            && |b.pixels| == g.width * g.height
            && forall j :: 0 <= j < |b.pixels| ==>
                 Alpha(b.pixels[j]) == 255 && Red(b.pixels[j]) == g.pixels[j]
                 && Green(b.pixels[j]) == g.pixels[j] && Blue(b.pixels[j]) == g.pixels[j]
  {
  }

  /** A JPEG 2000 image whose decoder output is not a P6 file still comes
      back with its raw bytes encoded, but without a bitmap. */
  lemma NullDecodeKeepsRawBytes(info: ImageInfo, codecs: Codecs)
    requires 0 <= info.imageLength <= |info.stream|
    requires DecoderFor(info.mimeType) == Jpeg2000
    requires var out := codecs.jpeg2000(info.stream[..info.imageLength]);
             out.Ok? && Ppm.ScanHeader(out.value).NotPpm?
    ensures GetImage(info, codecs) == Ok(NfcImage(None, Some(Base64Of(info.stream[..info.imageLength]))))
  {
  }

  /** A PPM whose width line never reaches a space exhausts memory; the
      resulting `Error` is not an `IOException` and leaves `getImage`. */
  lemma RunawayHeaderEscapes(info: ImageInfo, codecs: Codecs)
    requires 0 <= info.imageLength <= |info.stream|
    requires DecoderFor(info.mimeType) == Jpeg2000
    requires var out := codecs.jpeg2000(info.stream[..info.imageLength]);
             out.Ok? && Ppm.ScanHeader(out.value).Runaway?
    ensures GetImage(info, codecs) == Threw(OutOfMemoryError)
  {
  }
}
