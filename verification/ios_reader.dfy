/** ios/NfcPassportReader.swift: how the iOS bridge shapes a read request
    from the JavaScript options (`startReading`), what it resolves with, and
    the progress bar text it shows while data groups are read
    (`handleProgress`). The NFC session and the passport library are
    external; their outcome is an input. */
module IosReader {
  import opened Runtime
  import Text
  import Decimal
  import BitmapUtil
  import PassportReader
  import ReaderModule

  /** The data groups the library can be asked for (`DataGroupId`). */
  datatype DataGroupId = COM | DG1 | DG11 | DG2

  /** NfcPassportReader.swift lines 55-59: `[.COM, .DG1, .DG11]`, and `.DG2` appended when
      `includeImages ?? false` holds. */
  function Tags(includeImages: Option<bool>): (tags: seq<DataGroupId>)
    ensures |tags| >= 3 && tags[..3] == [COM, DG1, DG11]
    ensures DG2 in tags <==> includeImages == Some(true)
    ensures DG2 in tags ==> |tags| == 4 && tags[3] == DG2
    ensures DG2 !in tags ==> |tags| == 3
  {
    var tags := [COM, DG1, DG11];
    if includeImages == Some(true) then tags + [DG2] else tags
  }

  /** The `bacKey` dictionary, each entry `nil` when absent or not a string. */
  datatype KeyDict = KeyDict(documentNo: Option<string>, expiryDate: Option<string>, birthDate: Option<string>)

  /** The `options` dictionary, entries `nil` when absent or of another type. */
  datatype Options = Options(bacKey: Option<KeyDict>, includeImages: Option<bool>)

  /** The three fields of the long-lived `passportUtil` from which the MRZ
      key is built; they keep their values from one call to the next. */
  datatype KeyFields = KeyFields(passportNumber: string, dateOfBirth: string, expiryDate: string)

  /** A `reject(code, message, nil)` call. */
  datatype Rejection = Rejection(code: string, message: string)

  /** What `startReading` does before the asynchronous read: the rejections
      it issues, the key fields afterwards, and the read it starts, if any,
      with the key fields and data groups it asks for. */
  datatype ReadRequest = ReadRequest(key: KeyFields, tags: seq<DataGroupId>)
  datatype Start = Start(rejections: seq<Rejection>, util: KeyFields, read: Option<ReadRequest>)

  const INVALID_BAC_KEY: Rejection := Rejection("ERROR_INVALID_BACK_KEY", "Invalid bac key")
  const INVALID_BIRTH_DATE: Rejection := Rejection("ERROR_INVALID_BIRTH_DATE", "Invalid birth date")
  const INVALID_EXPIRY_DATE: Rejection := Rejection("ERROR_INVALID_EXPIRY_DATE", "Invalid expiry date")

  /** NfcPassportReader.swift lines 31-61 and 112-114. `convertToYYMMDD` is a parameter (`None` for
      its `nil`). A bad date is rejected, but the code does not return: the
      read starts anyway, with the previous value of that key field. */
  function StartReading(util: KeyFields, options: Options, convertToYYMMDD: string -> Option<string>): (s: Start)
    ensures s.read.Some? <==>
              options.bacKey.Some? && options.bacKey.value.documentNo.Some?
              && options.bacKey.value.expiryDate.Some? && options.bacKey.value.birthDate.Some?
    ensures s.read.None? ==> s.rejections == [INVALID_BAC_KEY] && s.util == util
    ensures s.read.Some? ==>
              var key := options.bacKey.value;
              var birth := convertToYYMMDD(key.birthDate.value);
              var expiry := convertToYYMMDD(key.expiryDate.value);
              && s.read.value == ReadRequest(s.util, Tags(options.includeImages))
              && s.util.passportNumber == key.documentNo.value
              && s.util.dateOfBirth == (if birth.Some? then birth.value else util.dateOfBirth)
              && s.util.expiryDate == (if expiry.Some? then expiry.value else util.expiryDate)
              && (INVALID_BIRTH_DATE in s.rejections <==> birth.None?)
              && (INVALID_EXPIRY_DATE in s.rejections <==> expiry.None?)
              && INVALID_BAC_KEY !in s.rejections
  {
    match options.bacKey
    case None => Start([INVALID_BAC_KEY], util, None)
    case Some(key) =>
      if key.documentNo.None? || key.expiryDate.None? || key.birthDate.None? then
        Start([INVALID_BAC_KEY], util, None)
      else
        var birth := convertToYYMMDD(key.birthDate.value);
        var expiry := convertToYYMMDD(key.expiryDate.value);
        var birthRejections := if birth.Some? then [] else [INVALID_BIRTH_DATE];
        var expiryRejections := if expiry.Some? then [] else [INVALID_EXPIRY_DATE];
        var util' := KeyFields(
          key.documentNo.value,
          if birth.Some? then birth.value else util.dateOfBirth,
          if expiry.Some? then expiry.value else util.expiryDate);
        Start(birthRejections + expiryRejections, util', Some(ReadRequest(util', Tags(options.includeImages))))
  }

  /** A birth date that does not convert is rejected, and the read still
      starts, with the birth date of an earlier call in its key. */
  lemma RejectedButRead(util: KeyFields, options: Options, convertToYYMMDD: string -> Option<string>)
    requires options.bacKey.Some?
    requires var key := options.bacKey.value;
             key.documentNo.Some? && key.expiryDate.Some? && key.birthDate.Some?
             && convertToYYMMDD(key.birthDate.value).None?
    ensures var s := StartReading(util, options, convertToYYMMDD);
            && s.rejections[0] == INVALID_BIRTH_DATE
            && s.read.Some? && s.read.value.key.dateOfBirth == util.dateOfBirth
  {
  }

  /** The same JavaScript options as the Android bridge receives them: the
      key entries and `includeImages` carry over one to one. */
  function OptionsOf(request: ReaderModule.Request): (o: Options)
    ensures o.bacKey.Some? <==> request.bacKey.Some?
    ensures o.includeImages == request.includeImages
  {
    Options(
      match request.bacKey
      case None => None
      case Some(k) => Some(KeyDict(k.documentNo, k.expiryDate, k.birthDate)),
      request.includeImages)
  }

  /** Both bridges agree on the requests Android accepts: with the same date
      conversion, Android arms its reader exactly when iOS starts a read
      without any rejection, and then both hold the same key and the same
      choice of DG2. Where Android rejects a date, iOS rejects it too but
      reads anyway. */
  lemma AgreesWithAndroid(m: ReaderModule.Module, util: KeyFields, request: ReaderModule.Request,
                          promise: ReaderModule.PromiseId, convert: string -> Option<string>)
    ensures var a := ReaderModule.StartReading(m, Some(request), promise, convert);
            var s := StartReading(util, OptionsOf(request), convert);
            && (a.after.isReading <==> s.read.Some? && s.rejections == [])
            && (a.after.isReading ==>
                  var k := a.after.bacKey.value;
                  && s.read.value.key == KeyFields(k.documentNumber, k.dateOfBirth, k.dateOfExpiry)
                  && (DG2 in s.read.value.tags <==> a.after.includeImages))
            && (s.read.Some? && !a.after.isReading ==> s.rejections != [])
  {
    var s := StartReading(util, OptionsOf(request), convert);
    if s.read.Some? {
      var key := OptionsOf(request).bacKey.value;
      var birth := convert(key.birthDate.value);
      var expiry := convert(key.expiryDate.value);
      if birth.None? {
        assert INVALID_BIRTH_DATE in s.rejections;
      } else if expiry.None? {
        assert INVALID_EXPIRY_DATE in s.rejections;
      }
    }
  }

  // ---------------------------------------------------------------------
  // Completion of the read (NfcPassportReader.swift lines 80-111)

  /** A `UIImage`, by identity. */
  type Image = nat

  /** What the passport library returns, reduced to what the bridge uses:
      the ten text entries it copies into the result, and the face image. */
  datatype Passport = Passport(entries: map<string, string>, passportImage: Option<Image>)

  /** How the JavaScript promise is settled at the end of the read. */
  datatype Settlement =
    | Resolved(entries: map<string, string>, photo: Option<BitmapUtil.Base64>)
    | Rejected(rejection: Rejection)

  const READ_FAILED: Rejection := Rejection("ERROR_READ_PASSPORT", "Error reading passport")

  /** NfcPassportReader.swift lines 80-111. `passport` is `None` when `readPassport` throws;
      `jpegData` stands for `jpegData(compressionQuality: 0.8)`. The photo is
      added only when images were asked for and both the image and its JPEG
      data exist. */
  function Complete(includeImages: Option<bool>, passport: Option<Passport>,
                    jpegData: Image -> Option<seq<byte>>): (r: Settlement)
    ensures passport.None? <==> r == Rejected(READ_FAILED)
    ensures r.Resolved? ==> r.entries == passport.value.entries
    ensures r.Resolved? ==>
              (r.photo.Some? <==>
                 includeImages == Some(true) && passport.value.passportImage.Some?
                 && jpegData(passport.value.passportImage.value).Some?)
    ensures r.Resolved? && r.photo.Some? ==>
              r.photo.value == BitmapUtil.Base64Of(jpegData(passport.value.passportImage.value).value)
  {
    match passport
    case None => Rejected(READ_FAILED)
    case Some(p) =>
      var photo :=
        if includeImages == Some(true) && p.passportImage.Some? && jpegData(p.passportImage.value).Some?
        then Some(BitmapUtil.Base64Of(jpegData(p.passportImage.value).value))
        else None;
      Resolved(p.entries, photo)
  }

  /** A photo comes back only from a read that asked the chip for DG2. */
  lemma PhotoOnlyWithDg2(includeImages: Option<bool>, passport: Option<Passport>,
                         jpegData: Image -> Option<seq<byte>>)
    ensures var r := Complete(includeImages, passport, jpegData);
            r.Resolved? && r.photo.Some? ==> DG2 in Tags(includeImages)
    ensures var r := Complete(includeImages, passport, jpegData);
            DG2 !in Tags(includeImages) && r.Resolved? ==> r.photo.None?
  {
  }

  // ---------------------------------------------------------------------
  // The progress bar (NfcPassportReader.swift lines 117-126)

  const BAR_WIDTH: int := 10
  const COMPLETED: string := "\U{1F535}"          // blue circle
  const REMAINING: string := "\U{26AA}\U{FE0F}"   // white circle, emoji style

  /** Swift's `Int(Double(x))` for the exact quotient `n / 100`: truncation
      toward zero. (For the progress values here the double quotient is
      never an integer unless the true one is, so no rounding intervenes.) */
  function TruncatedDiv(n: int, d: int): (q: int)
    requires d > 0
    ensures n >= 0 ==> q * d <= n < (q + 1) * d
    ensures n < 0 ==> (q - 1) * d < n <= q * d
  {
    if n >= 0 then n / d else -((-n) / d)
  }

  /** `completedWidth`: how many of the ten circles are filled. */
  function CompletedWidth(percentualProgress: int): int {
    TruncatedDiv(BAR_WIDTH * percentualProgress, 100)
  }

  /** `handleProgress(percentualProgress:)`; `None` stands for the runtime
      trap `String(repeating:count:)` raises on a negative count, which
      happens unless the progress lies strictly between -10 and 110. */
  function HandleProgress(percentualProgress: int): (r: Option<string>)
    ensures r.Some? <==> -10 < percentualProgress < 110
    ensures r.Some? ==> 0 <= CompletedWidth(percentualProgress) <= BAR_WIDTH
  {
    var completedWidth := CompletedWidth(percentualProgress);
    var remainingWidth := BAR_WIDTH - completedWidth;
    if completedWidth < 0 || remainingWidth < 0 then None
    else
      Some("[" + Text.Repeat(COMPLETED, completedWidth) + Text.Repeat(REMAINING, remainingWidth)
           + "] " + Decimal.Show(percentualProgress) + "%")
  }

  /** The number of copies of `c` that `s` starts with. */
  function CountLeading(s: string, c: char): (n: nat)
    ensures n <= |s|
    ensures forall i | 0 <= i < n :: s[i] == c
    ensures n < |s| ==> s[n] != c
  {
    if |s| == 0 || s[0] != c then 0 else 1 + CountLeading(s[1..], c)
  }

  lemma {:induction false} RepeatChar(c: char, n: nat)
    ensures forall i | 0 <= i < n :: Text.Repeat([c], n)[i] == c
    decreases n
  {
    if n > 0 {
      RepeatChar(c, n - 1);
    }
  }

  /** Between -10 and 110 the filled width is the tenth of the progress,
      truncated toward zero; within 0-100 it grows with the progress. */
  lemma ProgressWidth(p: int, q: int)
    requires 0 <= p <= q <= 100
    ensures CompletedWidth(p) == p / 10 && CompletedWidth(q) == q / 10
    ensures CompletedWidth(p) <= CompletedWidth(q)
  {
    assert (10 * p) / 100 == p / 10;
    assert (10 * q) / 100 == q / 10;
  }

  /** The bar can be read back: the number between the circles and the `%`
      is the progress itself. */
  lemma ProgressReadsBack(p: int)
    requires -10 < p < 110
    ensures var r := HandleProgress(p).value;
            var c := CompletedWidth(p);
            && |r| == 24 - c + |Decimal.Show(p)|
            && Decimal.ParseInt(r[23 - c..|r| - 1]) == Some(p)
  {
    var c := CompletedWidth(p);
    var blue := Text.Repeat(COMPLETED, c);
    var white := Text.Repeat(REMAINING, BAR_WIDTH - c);
    var shown := Decimal.Show(p);
    var r := HandleProgress(p).value;
    assert r == "[" + blue + white + "] " + shown + "%";
    BarParts(blue, white, shown);
    Decimal.ParseShow(p);
  }

  /** After the `[` come exactly `completedWidth` blue circles. */
  lemma ProgressCircles(p: int)
    requires -10 < p < 110
    ensures CountLeading(HandleProgress(p).value[1..], COMPLETED[0]) == CompletedWidth(p)
  {
    var c := CompletedWidth(p);
    var blue := Text.Repeat(COMPLETED, c);
    var white := Text.Repeat(REMAINING, BAR_WIDTH - c);
    var shown := Decimal.Show(p);
    var r := HandleProgress(p).value;
    assert r == "[" + blue + white + "] " + shown + "%";
    BarParts(blue, white, shown);
    LeadingBlue(c, white, "] " + shown + "%");
  }

  /** The whole bar, in Unicode scalars: `[`, `completedWidth` blue
      circles, the remaining white circles (two scalars each, the circle and
      its emoji selector), `] `, the number and `%`; blue and white make ten
      circles in all. */
  lemma ProgressLayout(p: int)
    requires -10 < p < 110
    ensures var r := HandleProgress(p).value;
            var c := CompletedWidth(p);
            && |r| == 24 - c + |Decimal.Show(p)|
            && r[0] == '['
            && r[1..1 + c] == Text.Repeat(COMPLETED, c)
            && r[1 + c..21 - c] == Text.Repeat(REMAINING, BAR_WIDTH - c)
            && r[21 - c..23 - c] == "] "
            && r[23 - c..|r| - 1] == Decimal.Show(p)
            && r[|r| - 1] == '%'
  {
    var c := CompletedWidth(p);
    var blue := Text.Repeat(COMPLETED, c);
    var white := Text.Repeat(REMAINING, BAR_WIDTH - c);
    var shown := Decimal.Show(p);
    var r := HandleProgress(p).value;
    assert r == "[" + blue + white + "] " + shown + "%";
    BarSlices(blue, white, shown);
  }

  lemma BarSlices(blue: string, white: string, shown: string)
    ensures var r := "[" + blue + white + "] " + shown + "%";
            var a := 1 + |blue|;
            var b := a + |white|;
            && r[0] == '['
            && r[1..a] == blue
            && r[a..b] == white
            && r[b..b + 2] == "] "
            && r[b + 2..|r| - 1] == shown
            && r[|r| - 1] == '%'
  {
  }

  lemma BarParts(blue: string, white: string, shown: string)
    ensures var r := "[" + blue + white + "] " + shown + "%";
            && r[1..] == blue + white + ("] " + shown + "%")
            && r[|blue| + |white| + 3..|r| - 1] == shown
  {
  }

  lemma LeadingBlue(c: nat, white: string, tail: string)
    requires c <= BAR_WIDTH
    requires white == Text.Repeat(REMAINING, BAR_WIDTH - c)
    requires |tail| > 0 && tail[0] == ']'
    ensures CountLeading(Text.Repeat(COMPLETED, c) + white + tail, COMPLETED[0]) == c
  {
    var blue := Text.Repeat(COMPLETED, c);
    assert COMPLETED == [COMPLETED[0]];
    RepeatChar(COMPLETED[0], c);
    var s := blue + white + tail;
    assert forall i | 0 <= i < c :: s[i] == COMPLETED[0];
    if BAR_WIDTH - c > 0 {
      assert white[0] == REMAINING[0];
    }
    assert s[c] != COMPLETED[0];
  }

  // ---------------------------------------------------------------------
  // Agreement with the Android read

  /** The data group an Android chip call reads, if any. */
  function GroupOf(c: PassportReader.Call): Option<DataGroupId> {
    match c
    case ReadDg1 => Some(DG1)
    case ReadDg11 => Some(DG11)
    case ReadDg2 => Some(DG2)
    case _ => None
  }

  /** The data groups a trace of Android calls reads, in order. */
  function GroupsRead(calls: seq<PassportReader.Call>): (r: seq<DataGroupId>)
    ensures |r| <= |calls|
  {
    if |calls| == 0 then []
    else
      var g := GroupOf(calls[0]);
      (if g.Some? then [g.value] else []) + GroupsRead(calls[1..])
  }

  lemma {:induction false} GroupsReadAppend(a: seq<PassportReader.Call>, b: seq<PassportReader.Call>)
    ensures GroupsRead(a + b) == GroupsRead(a) + GroupsRead(b)
    decreases |a|
  {
    if |a| == 0 {
      assert a + b == b;
    } else {
      assert (a + b)[0] == a[0];
      assert (a + b)[1..] == a[1..] + b;
      GroupsReadAppend(a[1..], b);
      var g := GroupOf(a[0]);
      var head: seq<DataGroupId> := if g.Some? then [g.value] else [];
      assert GroupsRead(a + b) == head + (GroupsRead(a[1..]) + GroupsRead(b));
    }
  }

  lemma {:induction false} NoGroupsInHandshake(calls: seq<PassportReader.Call>)
    requires forall c | c in calls :: PassportReader.Rank(c) <= 5
    ensures GroupsRead(calls) == []
    decreases |calls|
  {
    if |calls| > 0 {
      assert calls[0] in calls;
      assert forall c | c in calls[1..] :: c in calls;
      NoGroupsInHandshake(calls[1..]);
    }
  }

  /** A successful Android read goes through the same data groups, in the
      same order, that the iOS bridge asks for, `EF.COM` aside. */
  lemma SameGroupsAsAndroid(chip: PassportReader.Chip, includeImages: bool, host: PassportReader.Host)
    requires PassportReader.ReadPassport(chip, includeImages, host).outcome.Ok?
    ensures GroupsRead(PassportReader.ReadPassport(chip, includeImages, host).calls) == Tags(Some(includeImages))[1..]
  {
    var h := PassportReader.Authenticate(chip);
    PassportReader.SuccessfulCalls(chip, includeImages, host);
    PassportReader.AuthenticateRanks(chip);
    NoGroupsInHandshake(h.calls);
    var tail := [PassportReader.ReadDg1, PassportReader.ReadDg11]
                + (if includeImages then [PassportReader.ReadDg2] else []);
    GroupsReadAppend(h.calls, tail);
    GroupsOfDataGroupReads(includeImages);
  }

  lemma GroupsOfDataGroupReads(includeImages: bool)
    ensures GroupsRead([PassportReader.ReadDg1, PassportReader.ReadDg11]
                       + (if includeImages then [PassportReader.ReadDg2] else []))
            == Tags(Some(includeImages))[1..]
  {
    var tail := [PassportReader.ReadDg1, PassportReader.ReadDg11]
                + (if includeImages then [PassportReader.ReadDg2] else []);
    var rest := tail[1..];
    assert rest[1..] == (if includeImages then [PassportReader.ReadDg2] else []);
    if includeImages {
      var last := rest[1..];
      assert last == [PassportReader.ReadDg2] && last[1..] == [];
      assert GroupsRead(last) == [DG2];
      assert GroupsRead(rest) == [DG11, DG2];
    } else {
      assert GroupsRead(rest) == [DG11];
    }
    assert Tags(Some(includeImages))[1..] == [DG1] + GroupsRead(rest);
  }
}
