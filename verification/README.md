# NFC passport reader, modelled in Dafny

This project models the logic of a React Native library that reads
electronic passports and ID cards over NFC. It covers both the Android
implementation (Kotlin, on top of jmrtd) and the request shaping in the iOS
bridge (Swift). It models five parts.

- **`readPassport`** (module `PassportReader`, `passport_reader.dfy`):
  - the chip access sequence: PACE over every `PACEInfo` of `EF.CardSecurity`, `SELECT` of the applet, and the BAC fallback decided by a plain `EF.COM` read. The code departs from the access procedure of ICAO Doc 9303 Part 11, section 4.2. It reads `EF.CardSecurity` rather than `EF.CardAccess`, it runs `doPACE` for every `PACEInfo` instead of one chosen entry, and it decides on BAC by probing `EF.COM`, which the standard does not do. The model follows the code;
  - the data-group reads DG1, DG11 and optionally DG2;
  - the `NfcResult` fields derived from them;
  - the final DG11 length check.
  - Every jmrtd call is an oracle in a `Chip` record. Each returns a value or throws. The model produces the trace of calls made and the outcome.
- **`BitmapUtil`** (`bitmap_util.dfy`, `ppm.dfy`, `raster.dfy`):
  - the case-insensitive MIME dispatch;
  - the hand-written Netpbm P6 reader applied to the JPEG 2000 decoder's output: header scan, chunk-independent RGB packer with its signed-byte `+255` channel, the `IntArray(width * height)` size with 32-bit wrap-around, and `createBitmap` (two edge cases of very large images are listed under "Left out");
  - the WSQ grey-to-ARGB expansion;
  - `getImage`'s error semantics, where only `IOException` is caught.
- **The reading gate** of `NfcPassportReaderModule` (module `ReaderModule`, `reader_module.dfy`):
  - the fields `isReading`, `bacKey`, `includeImages` and `_promise` as a record;
  - `startReading`, `stopReading`, `reject`, `onNewIntent` and the body of the launched read as functions from one record to the next, together with the effects on the JavaScript side.
- **`JsonToReactMap`** (module `JsonToReact`, `json_to_react.dfy`): the four recursive conversions between org.json trees and React Native maps and arrays.
- **The iOS bridge** (module `IosReader`, `ios_reader.dfy`):
  - `startReading`'s validation, including the `reject` calls that do not return;
  - the requested data-group list;
  - the resolved photo;
  - `handleProgress`'s progress bar.

`runtime.dfy`, `text.dfy` and `decimal.dfy` hold the language-runtime pieces these use:
- nullable values, thrown exceptions, Kotlin `Int` wrap-around;
- `substringAfterLast`/`substringBeforeLast`/`replace`/`joinToString`;
- `Integer.parseInt` and decimal rendering.

Behaviours of the code that a caller may not expect, all modelled as
written:
- Without `<<` in the holder's name, both name fields are derived from the whole name. The given name has its `<`s replaced by spaces.
- A date that the date utility cannot parse makes `readPassport` throw a `ParseException`. It does not leave the field empty.
- A missing or undecodable DG2, and a `getImage` failure other than an `IOException`, abort the whole read. They are not a soft "no photo".
- A missing DG11 aborts the read as well, because its stream cannot be opened.
- After a successful read the Android gate stays armed. A second tag calls `resolve` again on the promise that is already settled.

## Model

| member | source | states |
|---|---|---|
| `PassportReader.PaceLoop` | android/src/main/java/com/nfcpassportreader/NfcPassportReader.kt:42-55 | once set, the PACE flag stays set; `doPACE` is called only for `PACEInfo` entries, by index within the collection |
| `PassportReader.PaceDecidedByFirst` | android/src/main/java/com/nfcpassportreader/NfcPassportReader.kt:36-55 | `paceSucceeded` holds iff the first `PACEInfo`'s `doPACE` returns: the loop does not stop on success, and the first exception ends it |
| `PassportReader.PaceEscape` | android/src/main/java/com/nfcpassportreader/NfcPassportReader.kt:37-55 | only an `Error` from the first failing `doPACE` leaves the PACE stage, and it is that very `Error`; exceptions are swallowed |
| `PassportReader.PaceCalls` | android/src/main/java/com/nfcpassportreader/NfcPassportReader.kt:42-52 | `doPACE` runs on entry k iff it is a `PACEInfo` and no earlier `doPACE` threw |
| `PassportReader.PaceStage` | android/src/main/java/com/nfcpassportreader/NfcPassportReader.kt:36-55 | the card security file is read first; if reading it throws an exception, the flag stays false and nothing else runs |
| `PassportReader.Fallback` | android/src/main/java/com/nfcpassportreader/NfcPassportReader.kt:59-67 | `doBAC` runs iff the plain `EF.COM` read throws an exception; a `doBAC` failure propagates; success leaves the flag false |
| `PassportReader.Authenticate` | android/src/main/java/com/nfcpassportreader/NfcPassportReader.kt:21-67 | a failing open ends the run after `Connect`; after a successful PACE only the `SELECT` outcome matters; a completed handshake selected the applet with its final flag |
| `PassportReader.PaceFlagFromFirstInfo` | android/src/main/java/com/nfcpassportreader/NfcPassportReader.kt:36-57 | unless an `Error` escapes the PACE loop, the applet is selected with `true` iff the first `PACEInfo`'s `doPACE` returns, even when a later one throws; an unreadable card security file leads to `sendSelectApplet(false)` |
| `PassportReader.BacOnlyAsFallback` | android/src/main/java/com/nfcpassportreader/NfcPassportReader.kt:57-67 | `doBAC` is attempted iff PACE did not succeed, `SELECT` returned, and `EF.COM` threw; the handshake then ends as `doBAC` does; `EF.COM` is read iff the applet was selected with `false` and `SELECT` returned |
| `PassportReader.SelectedWithPaceFlag` | android/src/main/java/com/nfcpassportreader/NfcPassportReader.kt:36-57 | `sendSelectApplet(b)` is called iff the services opened, no `Error` left the PACE stage, and b is that stage's final `paceSucceeded` |
| `PassportReader.PaceSkipsFallback` | android/src/main/java/com/nfcpassportreader/NfcPassportReader.kt:57-67 | after a selection with `true`, neither `EF.COM` is read nor `doBAC` run |
| `PassportReader.PaceStageCalls` | android/src/main/java/com/nfcpassportreader/NfcPassportReader.kt:37-52 | the PACE stage makes no calls other than the card security read and `doPACE` |
| `PassportReader.NameSplit` | android/src/main/java/com/nfcpassportreader/NfcPassportReader.kt:78-79 | surname + `<<` + given names rebuilds the name; the given names hold no `<` and no further `<<`; without `<<` both come from the whole name |
| `PassportReader.ConvertDate` | android/src/main/java/com/nfcpassportreader/NfcPassportReader.kt:89-90 | a null date throws `NullPointerException`; one the converter cannot parse throws `ParseException`; otherwise the field is the converted text |
| `PassportReader.Fields` | android/src/main/java/com/nfcpassportreader/NfcPassportReader.kt:69-94 | the result exists iff name, place, gender and both dates are usable; every field equals its source: split name, space-joined place, MRZ values, converted dates |
| `PassportReader.AllFaceImagesEmpty` | android/src/main/java/com/nfcpassportreader/NfcPassportReader.kt:100-104 | the concatenated image list is empty iff every `FaceInfo` has no image |
| `PassportReader.FirstFaceImage` | android/src/main/java/com/nfcpassportreader/NfcPassportReader.kt:100-105 | the photo source is the first image of the first `FaceInfo` that has one |
| `PassportReader.Photo` | android/src/main/java/com/nfcpassportreader/NfcPassportReader.kt:96-109 | without `includeImages` there is no photo and no DG2 read; a DG2 failure propagates; a photo is `getImage` of the first face image |
| `PassportReader.ReadGroups` | android/src/main/java/com/nfcpassportreader/NfcPassportReader.kt:69-112 | success needs a DG11 with positive length, and then the calls are DG1, DG11 and, only with `includeImages`, DG2 |
| `PassportReader.ReadPassport` | android/src/main/java/com/nfcpassportreader/NfcPassportReader.kt:21-113 | a returned result implies DG11 was read with positive length; DG2 is read only when images were asked for |
| `PassportReader.OrderedAppend` | android/src/main/java/com/nfcpassportreader/NfcPassportReader.kt:21-112 | two ordered traces, the first entirely before the second, form an ordered trace |
| `PassportReader.PaceLoopOrdered` | android/src/main/java/com/nfcpassportreader/NfcPassportReader.kt:42-52 | the `doPACE` calls go in collection order, each at most once |
| `PassportReader.PaceStageOrdered` | android/src/main/java/com/nfcpassportreader/NfcPassportReader.kt:37-52 | the card security read precedes every `doPACE` |
| `PassportReader.AuthenticateOrdered` | android/src/main/java/com/nfcpassportreader/NfcPassportReader.kt:24-67 | connect, card security, PACE, `SELECT`, `EF.COM`, BAC occur in this order, none twice |
| `PassportReader.AuthenticateRanks` | android/src/main/java/com/nfcpassportreader/NfcPassportReader.kt:24-67 | the handshake reads no data group |
| `PassportReader.TraceOrdered` | android/src/main/java/com/nfcpassportreader/NfcPassportReader.kt:21-112 | the whole trace follows the order of the code with no call repeated, whatever the chip answers |
| `PassportReader.ReadGroupsOrdered` | android/src/main/java/com/nfcpassportreader/NfcPassportReader.kt:71-98 | data groups are read in the order DG1, DG11, DG2 |
| `PassportReader.DataGroupCallsOrdered` | android/src/main/java/com/nfcpassportreader/NfcPassportReader.kt:71-97 | each possible data-group trace is ordered and reads only data groups |
| `PassportReader.ReadGroupsCalls` | android/src/main/java/com/nfcpassportreader/NfcPassportReader.kt:71-98 | the data-group trace is a prefix of DG1, DG11, DG2 that starts with DG1 |
| `PassportReader.SuccessfulReading` | android/src/main/java/com/nfcpassportreader/NfcPassportReader.kt:69-112 | a returned result is the derived fields plus the photo stage's image, and DG2 was read iff `includeImages` |
| `PassportReader.SuccessfulCalls` | android/src/main/java/com/nfcpassportreader/NfcPassportReader.kt:57-98 | a successful run is the handshake followed by exactly DG1, DG11 and, with images, DG2 |
| `PassportReader.EmptyDg11CheckedLast` | android/src/main/java/com/nfcpassportreader/NfcPassportReader.kt:96-112 | with a DG11 of length ≤ 0 the run makes the same calls, DG2 included, and only then throws "DG11 file is empty" |
| `Text.SplitAtLastDelimiter` | android/src/main/java/com/nfcpassportreader/NfcPassportReader.kt:78-79 | `substringBeforeLast` + delimiter + `substringAfterLast` rebuilds the text, and the tail holds no delimiter; without the delimiter both give the whole text |
| `Text.ReplaceChar` | android/src/main/java/com/nfcpassportreader/NfcPassportReader.kt:78 | `replace("<", " ")` changes every `<` to a space and nothing else, keeping the length |
| `Text.SplitJoin` | android/src/main/java/com/nfcpassportreader/NfcPassportReader.kt:84 | joining place components that contain no space loses nothing: splitting at spaces gives them back |
| `Text.JoinLength` | android/src/main/java/com/nfcpassportreader/NfcPassportReader.kt:84 | the joined place is the components plus one separator between neighbours |
| `BitmapUtil.DecoderFor` | android/src/main/java/com/nfcpassportreader/utils/BitmapUtil.kt:46-49 | JPEG 2000 iff the type equals `image/jp2` or `image/jpeg2000` ignoring case; otherwise WSQ iff it equals `image/x-wsq`; otherwise the generic decoder |
| `BitmapUtil.DispatchIgnoresCase` | android/src/main/java/com/nfcpassportreader/utils/BitmapUtil.kt:46-49 | upper-casing a MIME type never changes the branch taken |
| `BitmapUtil.DispatchDotlessI` | android/src/main/java/com/nfcpassportreader/utils/BitmapUtil.kt:46-49 | Kotlin's case folding lets a dotless small i select JPEG 2000 |
| `BitmapUtil.DispatchUpperCase` | android/src/main/java/com/nfcpassportreader/utils/BitmapUtil.kt:111 | `IMAGE/JP2` and `image/X-WSQ` select the JPEG 2000 and WSQ branches |
| `BitmapUtil.DispatchGeneric` | android/src/main/java/com/nfcpassportreader/utils/BitmapUtil.kt:128-129 | plain JPEG and a JPEG 2000 type with a trailing blank go to the generic decoder |
| `BitmapUtil.GreyToArgb` | android/src/main/java/com/nfcpassportreader/utils/BitmapUtil.kt:114-119 | one opaque pixel per grey byte, with that unsigned byte in red, green and blue |
| `BitmapUtil.DecodeImage` | android/src/main/java/com/nfcpassportreader/utils/BitmapUtil.kt:45-131 | the generic branch is `decodeStream`; JPEG 2000 decodes the PPM output; a codec's exception propagates unchanged; WSQ succeeds iff its grey image has positive dimensions and enough pixels, and keeps its dimensions with grey pixels; decoded bitmaps are w×h |
| `BitmapUtil.GetImage` | android/src/main/java/com/nfcpassportreader/utils/BitmapUtil.kt:25-40 | a negative length throws before the `try`; a short stream or an `IOException` leaves both fields null; other failures escape; base64 is of exactly `imageLength` bytes |
| `BitmapUtil.NullDecodeKeepsRawBytes` | android/src/main/java/com/nfcpassportreader/utils/BitmapUtil.kt:25-40 | a null decode still yields the Base64 of the raw bytes, without a bitmap |
| `BitmapUtil.GetImageOfPpm` | android/src/main/java/com/nfcpassportreader/utils/BitmapUtil.kt:25-49 | a JPEG 2000 record whose decoder writes the P6 file of a w×h image gives exactly that bitmap and the Base64 of the `imageLength` raw bytes |
| `BitmapUtil.GetImageOfWsq` | android/src/main/java/com/nfcpassportreader/utils/BitmapUtil.kt:25-40 | a WSQ record decoding to a w×h grey image gives the grey bitmap of its first w×h pixels and the Base64 of the raw bytes |
| `BitmapUtil.RunawayHeaderEscapes` | android/src/main/java/com/nfcpassportreader/utils/BitmapUtil.kt:87 | a PPM whose width never meets a space exhausts memory, and the `Error` escapes `getImage` |
| `Ppm.ScanHeader` | android/src/main/java/com/nfcpassportreader/utils/BitmapUtil.kt:82-92 | not `P6` gives null; the width loop runs away iff no space follows byte 2; a scanned header has a space-free width, a digit-only height, and `255` before the pixel data |
| `Ppm.Channel` | android/src/main/java/com/nfcpassportreader/utils/BitmapUtil.kt:103 | bytes below 128 keep their value, the others lose one (b − 256 + 255) |
| `Ppm.ChannelNotInjective` | android/src/main/java/com/nfcpassportreader/utils/BitmapUtil.kt:103 | 0x7F and 0x80 both give 127, 0xFF gives 254, and no byte gives 255 |
| `Ppm.PackSpec` | android/src/main/java/com/nfcpassportreader/utils/BitmapUtil.kt:95-109 | overflow iff the stream holds more whole triples than the array; pixel k packs bytes 3k..3k+2, and unfilled pixels stay 0 |
| `Ppm.Feed` | android/src/main/java/com/nfcpassportreader/utils/BitmapUtil.kt:102-107 | one byte extends the packing invariant, and throws only when it completes a triple with the array full |
| `Ppm.PackPixels` | android/src/main/java/com/nfcpassportreader/utils/BitmapUtil.kt:101-109 | the read loop, fed in chunks of one to three bytes as `read(pixel)` delivers them, computes the same array whatever the chunking, a trailing partial triple ignored |
| `Ppm.DecodePpm` | android/src/main/java/com/nfcpassportreader/utils/BitmapUtil.kt:79-110 | not-P6 or wrong maxval gives null; a runaway width gives `OutOfMemoryError`; a non-numeric width gives `NumberFormatException` |
| `Ppm.DecodedShape` | android/src/main/java/com/nfcpassportreader/utils/BitmapUtil.kt:93-110 | a decoded bitmap has the parsed, positive dimensions, w×h pixels, and at most w×h triples in the stream |
| `Ppm.DecodeRaster` | android/src/main/java/com/nfcpassportreader/utils/BitmapUtil.kt:93-110 | after the header, a result is always a bitmap, never null |
| `Ppm.ScanPpmFile` | android/src/main/java/com/nfcpassportreader/utils/BitmapUtil.kt:82-92 | a well-formed P6 file with maxval 255 scans to its own tokens and pixel offset; any other 3-byte maxval, even `256` or `254`, makes the decoder return null |
| `Ppm.ScanLaidOut` | android/src/main/java/com/nfcpassportreader/utils/BitmapUtil.kt:82-92 | the same for any byte sequence laid out as such a file |
| `Ppm.EncodePpm` | android/src/main/java/com/nfcpassportreader/utils/BitmapUtil.kt:79-110 | round trip: the P6 file written from a width, a height and exactly w×h triples decodes to that w×h bitmap of those pixels |
| `Ppm.RasterOfDimensions` | android/src/main/java/com/nfcpassportreader/utils/BitmapUtil.kt:93-110 | decimal tokens of w and h with w×h triples give the w×h bitmap of those pixels |
| `Ppm.PackExact` | android/src/main/java/com/nfcpassportreader/utils/BitmapUtil.kt:101-109 | exactly `size` triples fill the array with their pixels, in order |
| `Raster.Rgb` | android/src/main/java/com/nfcpassportreader/utils/BitmapUtil.kt:106 | `Color.rgb` is opaque and carries r, g, b in its channels |
| `Raster.CreateBitmap` | android/src/main/java/com/nfcpassportreader/utils/BitmapUtil.kt:110 | success iff both dimensions are positive and the array holds w×h colours; the bitmap is the first w×h of them |
| `Runtime.Signed` | android/src/main/java/com/nfcpassportreader/utils/BitmapUtil.kt:103 | a Kotlin `Byte` is the unsigned byte read in two's complement |
| `Runtime.Wrap32` | android/src/main/java/com/nfcpassportreader/utils/BitmapUtil.kt:95 | `width * height` is reduced to a 32-bit `Int`, unchanged when it fits |
| `Decimal.ParseInt` | android/src/main/java/com/nfcpassportreader/utils/BitmapUtil.kt:93-94 | `toInt()` yields only 32-bit values; an unsigned or `+`/`-`-signed digit string within range parses to its signed decimal value; the empty string, a lone sign, a stray non-digit and an out-of-range value throw `NumberFormatException` |
| `Decimal.ParseShow` | android/src/main/java/com/nfcpassportreader/utils/BitmapUtil.kt:93-94 | every 32-bit value parses back from its decimal text |
| `ReaderModule.Reject` | android/src/main/java/com/nfcpassportreader/NfcPassportReaderModule.kt:174-178 | disarms and forgets the key, keeps promise and image flag, rejects the current promise if any |
| `ReaderModule.StartReading` | android/src/main/java/com/nfcpassportreader/NfcPassportReaderModule.kt:181-222 | a null map rejects the old promise; otherwise promise and `includeImages` are set before validation; armed iff all key parts exist and both dates convert, with `BACKey(doc, birth, expiry)`; when not armed the key is cleared |
| `ReaderModule.StopReading` | android/src/main/java/com/nfcpassportreader/NfcPassportReaderModule.kt:225-228 | disarms and forgets the key, never touching the promise |
| `ReaderModule.OnNewIntent` | android/src/main/java/com/nfcpassportreader/NfcPassportReaderModule.kt:140-167 | no effect unless reading; else `onTagDiscovered` first; a read launches iff the tag offers IsoDep; the only state change is the non-IsoDep `reject` |
| `ReaderModule.FinishRead` | android/src/main/java/com/nfcpassportreader/NfcPassportReaderModule.kt:150-161 | a missing key rejects with a `NullPointerException`; success resolves the converted map and leaves the state alone; exceptions reject; `Error`s escape |
| `ReaderModule.Apply` | android/src/main/java/com/nfcpassportreader/NfcPassportReaderModule.kt:140-228 | every callback keeps "reading implies a key" |
| `ReaderModule.Run` | android/src/main/java/com/nfcpassportreader/NfcPassportReaderModule.kt:140-228 | any sequence of callbacks keeps "reading implies a key" |
| `ReaderModule.RunAppend` | android/src/main/java/com/nfcpassportreader/NfcPassportReaderModule.kt:140-228 | running two event sequences in turn is running their concatenation |
| `ReaderModule.TagThenSuccess` | android/src/main/java/com/nfcpassportreader/NfcPassportReaderModule.kt:146-157 | an IsoDep tag and a successful read emit, launch and resolve, and leave the gate armed with the same key |
| `ReaderModule.ResolvesTwice` | android/src/main/java/com/nfcpassportreader/NfcPassportReaderModule.kt:152-157 | since a resolve does not disarm, the same tag again calls `resolve` on the already-settled promise |
| `ReaderModule.StopThenTagIgnored` | android/src/main/java/com/nfcpassportreader/NfcPassportReaderModule.kt:140-144 | after `stopReading` a tag causes nothing at all |
| `ReaderModule.StopBeforeReadRejects` | android/src/main/java/com/nfcpassportreader/NfcPassportReaderModule.kt:150-159 | a read that starts after `stopReading` rejects with the `NullPointerException` of `bacKey!!` |
| `ReaderModule.AlwaysValid` | android/src/main/java/com/nfcpassportreader/NfcPassportReaderModule.kt:42-46 | from the initial fields the module never reads without a key |
| `JsonToReact.ToReact` | android/src/main/java/com/nfcpassportreader/utils/JsonToReactMap.kt:21-29 | objects and arrays convert recursively with the same keys and length; Boolean, Int, Double and String keep their type; `JSONObject.NULL` becomes "null", a Long its decimal text and any other value its `toString()`; no null is ever put |
| `JsonToReact.LongAsText` | android/src/main/java/com/nfcpassportreader/utils/JsonToReactMap.kt:28 | a Long reaches JavaScript as text that parses back to the same number when it fits in an `Int` |
| `JsonToReact.JsonToMap` | android/src/main/java/com/nfcpassportreader/utils/JsonToReactMap.kt:16-32 | every key kept, each value converted, none null |
| `JsonToReact.JsonToArray` | android/src/main/java/com/nfcpassportreader/utils/JsonToReactMap.kt:35-49 | same length and order, each element converted, none null |
| `JsonToReact.PutDouble` | android/src/main/java/com/nfcpassportreader/utils/JsonToReactMap.kt:60 | org.json stores a finite double and refuses NaN and the infinities with `JSONException` |
| `JsonToReact.FromReact` | android/src/main/java/com/nfcpassportreader/utils/JsonToReactMap.kt:52-70 | succeeds iff every number is finite; null maps to `JSONObject.NULL` and nothing else does; maps keep their keys |
| `JsonToReact.ElementsFrom` | android/src/main/java/com/nfcpassportreader/utils/JsonToReactMap.kt:75-84 | the array loop fails iff a remaining element holds a non-finite number, and never grows the array |
| `JsonToReact.MapToJson` | android/src/main/java/com/nfcpassportreader/utils/JsonToReactMap.kt:52-70 | a null map throws `NullPointerException`; the key set is preserved; the conversion fails iff a number is not finite |
| `JsonToReact.ArrayToJson` | android/src/main/java/com/nfcpassportreader/utils/JsonToReactMap.kt:73-86 | a null array throws `NullPointerException`; the output is no longer than the input |
| `JsonToReact.ElementsKeepNonNull` | android/src/main/java/com/nfcpassportreader/utils/JsonToReactMap.kt:75-84 | the output is exactly the non-null elements, in order, each converted |
| `JsonToReact.RoundTrip` | android/src/main/java/com/nfcpassportreader/utils/JsonToReactMap.kt:16-86 | to JSON and back gives the normal form: nulls in maps become "null", nulls in arrays vanish, numbers become doubles |
| `JsonToReact.MapRoundTrip` | android/src/main/java/com/nfcpassportreader/utils/JsonToReactMap.kt:16-70 | `convertJsonToMap(convertMapToJson(m))` is `m` with every value normalised |
| `JsonToReact.ArrayRoundTrip` | android/src/main/java/com/nfcpassportreader/utils/JsonToReactMap.kt:35-86 | `convertJsonToArray(convertArrayToJson(a))` is the normalised non-null elements of `a`, in order |
| `JsonToReact.NormalizeIdempotent` | android/src/main/java/com/nfcpassportreader/utils/JsonToReactMap.kt:55-68 | normal forms are null-free and already normal, so a second trip through JSON gives back the first trip's result |
| `IosReader.Tags` | ios/NfcPassportReader.swift:55-59 | COM, DG1, DG11 first; DG2 appended last iff `includeImages` is true, nil counting as false |
| `IosReader.StartReading` | ios/NfcPassportReader.swift:31-114 | a read starts iff all three key fields exist, else `ERROR_INVALID_BACK_KEY`; bad dates reject yet the read starts with the previous value |
| `IosReader.AgreesWithAndroid` | ios/NfcPassportReader.swift:31-61 | with the same date conversion, Android arms its reader iff iOS starts a read without rejections, and then both use the same key and the same DG2 choice; iOS reads even where it rejects a date |
| `IosReader.RejectedButRead` | ios/NfcPassportReader.swift:38-53 | an invalid birth date is rejected and the read proceeds with a stale birth date |
| `IosReader.Complete` | ios/NfcPassportReader.swift:80-111 | a throwing read rejects `ERROR_READ_PASSPORT`; a photo is added iff images were requested and image and JPEG data exist |
| `IosReader.PhotoOnlyWithDg2` | ios/NfcPassportReader.swift:57-103 | a resolved photo implies that DG2 was among the requested tags, and without DG2 there is none |
| `IosReader.TruncatedDiv` | ios/NfcPassportReader.swift:119 | `Int(Double)` truncates the quotient toward zero |
| `IosReader.HandleProgress` | ios/NfcPassportReader.swift:117-126 | the bar exists iff −10 < p < 110 (outside, a negative repeat count traps), and then 0 ≤ completed ≤ 10 |
| `IosReader.ProgressWidth` | ios/NfcPassportReader.swift:119 | for 0 ≤ p ≤ 100 the completed width is p/10 and grows with p |
| `IosReader.ProgressReadsBack` | ios/NfcPassportReader.swift:117-126 | the bar is 24 − c Unicode scalars longer than the number shown (each white circle is two scalars), and the number before `%` parses back to p |
| `IosReader.ProgressCircles` | ios/NfcPassportReader.swift:119-125 | the bar starts, after `[`, with exactly `completedWidth` blue circles |
| `IosReader.ProgressLayout` | ios/NfcPassportReader.swift:117-126 | the bar is `[`, c blue circles, 10 − c white circles, `] `, the progress number and `%` |
| `IosReader.SameGroupsAsAndroid` | ios/NfcPassportReader.swift:55-59 | a successful Android read reads the same data groups, in the same order, that iOS requests after COM |

## Left out

- jmrtd and scuba are not modelled: the card service, APDU transport, PACE/BAC cryptography and the `CardSecurityFile`/`DG1File`/`DG11File`/`DG2File` parsers. Each call is an oracle in `PassportReader.Chip`. Setting the timeout and opening both services form the single oracle `open`.
- `DateUtil` and `SimpleDateFormat` are uninterpreted date conversions, passed in as parameters. They are lenient library parsing with a clock-dependent two-digit-year pivot.
- The JJ2000 and JNBIS codecs, the temp files in `cacheDir`, `BitmapFactory`, and the JPEG compression of `toBase64` are the external `BitmapUtil.Codecs`. Base64 text is kept symbolic as the bytes it encodes.
- `JsonHelper.serializeToMap` (Gson) and `JSONObject(map)` are not modelled. They are folded into the read oracle `ReaderModule.Read`, which yields the JSON object the module converts.
- Android lifecycle is left out, because it is platform I/O:
  - foreground dispatch and `onHostResume`;
  - the adapter broadcast receiver;
  - `isNfcEnabled`, `isNfcSupported` and `openNfcSettings`.
  - Event emission appears only as the `Emitted` effect.
- `ReaderModule.FinishRead`: the coroutine body is taken as one atomic step that reads the fields as they are when it runs. Interleavings inside the read itself are not modelled.
- `ReaderModule.StartReading`: a request entry of the wrong type, which makes `getMap`, `getString` or `getBoolean` throw on the bridge, is not modelled. An absent entry reads as null.
- `JsonToReact.MapToJson`: map iteration order is not modelled. The model keeps only the exception's class, `JSONException`, with a fixed message. org.json's message names the refused value (NaN, Infinity or -Infinity), so when several different values are refused, which one is reported depends on the iteration order. That choice is not modelled.
- `JsonToReact.FromReact`: doubles are exact reals. Only their finiteness matters here, so rounding is not modelled.
- `IosReader.HandleProgress`: the `Double` arithmetic is modelled as exact truncated division. This is exact for |p| < 2^53 / 10; larger `Int` values, where the double product rounds, are not modelled.
- `IosReader.Complete`: the ten text entries copied from the passport object are taken as given. Their date conversion `convertToYYYYMMDD` and the library's `PassportReader` are not modelled.
- The iOS NFC session, its display messages, `Task`, the MRZ key construction of `PassportUtil` and `isNfcSupported` are left out. `PassportUtil` is not part of this model.
- `Ppm.DecodePpm`: the ensures cover only the null and error outcomes. What a successful decode contains is stated by `Ppm.DecodedShape` and `Ppm.EncodePpm`.
- `Ppm.DecodeRaster`: its own ensures say only that a result is a bitmap. `Ppm.RasterOfDimensions` gives the full result for well-formed input.
- `Ppm.DecodeRaster`: allocating `IntArray(width * height)` always succeeds in the model. On a device a size near 2^31 (a `46340 46340` header, say) throws `OutOfMemoryError`, which nothing catches. Whether an allocation fails depends on the device heap, which the model does not know. `Ppm.DecodedShape` inherits this.
- `Raster.CreateBitmap`: the colour-array length check is done in unbounded integers. Android computes `(height - 1) * width` in 32 bits, so when width × height exceeds 2^31 the check can wrap and pass (a `65536 65537` header). What the platform then does is not modelled, since its native allocation is not part of this model.
- `BitmapUtil.GetImage`: a stream that throws an `IOException` of its own, rather than merely being short, is not modelled. The stream is a byte sequence whose shortness stands for the `EOFException`.
