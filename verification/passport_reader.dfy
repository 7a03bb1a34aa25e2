/** NfcPassportReader.kt, `readPassport`: the access-control handshake
    (PACE, falling back to BAC), the reads of DG1, DG11 and optionally DG2,
    and how the result fields are derived from them. Every jmrtd call is a
    scripted answer of the `Chip`; the code around those calls is modelled
    as written. */
module PassportReader {
  import opened Runtime
  import opened Text
  import BitmapUtil

  /** One entry of the card security file: a `PACEInfo`, carrying how
      `doPACE` with that entry's parameters answers, or anything else. */
  datatype SecurityInfo = PaceInfo(outcome: Try<()>) | OtherInfo

  /** What jmrtd's `MRZInfo` offers the reader. Java getters may hand back
      null, hence the options; `text` is `mrzInfo.toString()`. */
  datatype MrzInfo = MrzInfo(
    documentNumber: Option<string>,
    nationality: Option<string>,
    personalNumber: Option<string>,
    gender: Option<string>,        // `gender.toString()` of a non-null gender
    dateOfExpiry: Option<string>,
    text: string)

  /** What jmrtd's `DG11File` offers the reader. */
  datatype Dg11 = Dg11(
    nameOfHolder: Option<string>,
    placeOfBirth: Option<seq<string>>,
    fullDateOfBirth: Option<string>,
    length: int)

  /** One `FaceInfo` of DG2 with its face image records. */
  datatype FaceInfo = FaceInfo(images: seq<BitmapUtil.ImageInfo>)

  /** The chip as it answers this session's BAC key: for each call the reader
      makes, the value jmrtd returns or the exception it throws. `open`
      covers setting the timeout and opening the card and passport
      services. */
  datatype Chip = Chip(
    open: Try<()>,
    cardSecurity: Try<seq<SecurityInfo>>,
    selectApplet: Try<()>,
    com: Try<()>,
    bac: Try<()>,
    dg1: Try<MrzInfo>,
    dg11: Try<Dg11>,
    dg2: Try<seq<FaceInfo>>)

  /** The host side: `DateUtil`'s `yyMMdd` to `yyyy-MM-dd` conversion
      (`None` for the `ParseException` a lenient `SimpleDateFormat` throws on
      text it cannot parse) and the image decoders. */
  datatype Host = Host(convertDate: string -> Option<string>, codecs: BitmapUtil.Codecs)

  /** dto/NfcResult.kt: every field starts out null. */
  datatype NfcResult = NfcResult(
    birthDate: Option<string>,
    placeOfBirth: Option<string>,
    documentNo: Option<string>,
    expiryDate: Option<string>,
    firstName: Option<string>,
    gender: Option<string>,
    identityNo: Option<string>,
    lastName: Option<string>,
    mrz: Option<string>,
    nationality: Option<string>,
    originalFacePhoto: Option<BitmapUtil.NfcImage>)

  /** The calls `readPassport` makes on the chip, in the order it makes
      them. `DoPace(i)` runs PACE with security info number `i`. */
  datatype Call =
    | Connect
    | ReadCardSecurity
    | DoPace(index: nat)
    | SelectApplet(paceSucceeded: bool)
    | ReadCom
    | DoBac
    | ReadDg1
    | ReadDg11
    | ReadDg2

  /** A run: the calls made and how `readPassport` ended. */
  datatype Reading = Reading(calls: seq<Call>, outcome: Try<NfcResult>)

  // ---------------------------------------------------------------------
  // PACE

  /** `securityInfos[i]` is a `PACEInfo` whose `doPACE` threw. */
  predicate PaceFailed(infos: seq<SecurityInfo>, i: nat)
    requires i < |infos|
  {
    infos[i].PaceInfo? && infos[i].outcome.Threw?
  }

  /** The loop of NfcPassportReader.kt lines 42-52 from entry `i` on, `succeeded` being the flag
      so far: every `PACEInfo` is tried, the flag is set after each that
      succeeds and the loop goes on; the first exception ends the loop (and
      the `try`), keeping the flag; an `Error` leaves `readPassport`. */
  datatype PaceRun = PaceRun(calls: seq<Call>, succeeded: bool, escaped: Option<Throwable>)

  function PaceLoop(infos: seq<SecurityInfo>, i: nat, succeeded: bool): (r: PaceRun)
    requires i <= |infos|
    ensures succeeded ==> r.succeeded
    ensures forall c :: c in r.calls ==> c.DoPace? && i <= c.index < |infos| && infos[c.index].PaceInfo?
    decreases |infos| - i
  {
    if i == |infos| then PaceRun([], succeeded, None)
    else match infos[i]
      case OtherInfo => PaceLoop(infos, i + 1, succeeded)
      case PaceInfo(outcome) =>
        var rest :=
          match outcome
          case Ok(_) => PaceLoop(infos, i + 1, true)
          case Threw(e) => PaceRun([], succeeded, if e.IsException() then None else Some(e));
        PaceRun([DoPace(i)] + rest.calls, rest.succeeded, rest.escaped)
  }

  /** The first `PACEInfo` at or after `i`. */
  function FirstPaceFrom(infos: seq<SecurityInfo>, i: nat): (r: Option<nat>)
    requires i <= |infos|
    ensures r.Some? ==> i <= r.value < |infos| && infos[r.value].PaceInfo?
    ensures r.Some? ==> forall k :: i <= k < r.value ==> !infos[k].PaceInfo?
    ensures r.None? ==> forall k :: i <= k < |infos| ==> !infos[k].PaceInfo?
    decreases |infos| - i
  {
    if i == |infos| then None
    else if infos[i].PaceInfo? then Some(i)
    else FirstPaceFrom(infos, i + 1)
  }

  /** The first `PACEInfo` at or after `i` whose `doPACE` throws. */
  function FirstPaceFailureFrom(infos: seq<SecurityInfo>, i: nat): (r: Option<nat>)
    requires i <= |infos|
    ensures r.Some? ==> i <= r.value < |infos| && PaceFailed(infos, r.value)
    ensures r.Some? ==> forall k :: i <= k < r.value ==> !PaceFailed(infos, k)
    ensures r.None? ==> forall k :: i <= k < |infos| ==> !PaceFailed(infos, k)
    decreases |infos| - i
  {
    if i == |infos| then None
    else if PaceFailed(infos, i) then Some(i)
    else FirstPaceFailureFrom(infos, i + 1)
  }

  /** PACE counts as established exactly when the FIRST `PACEInfo` of the
      card succeeds: later entries are tried as well, but a later success
      cannot make up for an earlier failure (which ends the loop), and a
      later failure does not undo an earlier success. */
  lemma {:induction false} PaceDecidedByFirst(infos: seq<SecurityInfo>, i: nat, succeeded: bool)
    requires i <= |infos|
    ensures PaceLoop(infos, i, succeeded).succeeded <==>
              succeeded || (FirstPaceFrom(infos, i).Some? && infos[FirstPaceFrom(infos, i).value].outcome.Ok?)
    decreases |infos| - i
  {
    if i < |infos| {
      match infos[i]
      case OtherInfo => PaceDecidedByFirst(infos, i + 1, succeeded);
      case PaceInfo(outcome) =>
        if outcome.Ok? {
          PaceDecidedByFirst(infos, i + 1, true);
        }
    }
  }

  /** Only an `Error` from the first failing `doPACE` escapes the loop, and
      it is that error; any exception before it would have ended the loop. */
  lemma {:induction false} PaceEscape(infos: seq<SecurityInfo>, i: nat, succeeded: bool)
    requires i <= |infos|
    ensures var r := PaceLoop(infos, i, succeeded);
            var f := FirstPaceFailureFrom(infos, i);
            && (r.escaped.Some? <==> f.Some? && !infos[f.value].outcome.error.IsException())
            && (r.escaped.Some? ==> r.escaped.value == infos[f.value].outcome.error)
    decreases |infos| - i
  {
    if i < |infos| && !PaceFailed(infos, i) {
      if infos[i].PaceInfo? {
        PaceEscape(infos, i + 1, true);
      } else {
        PaceEscape(infos, i + 1, succeeded);
      }
    }
  }

  /** `doPACE` is run with entry `k` exactly when it is a `PACEInfo` and no
      earlier entry's `doPACE` threw. */
  lemma {:induction false} PaceCalls(infos: seq<SecurityInfo>, i: nat, succeeded: bool, k: nat)
    requires i <= |infos|
    ensures DoPace(k) in PaceLoop(infos, i, succeeded).calls <==>
              i <= k < |infos| && infos[k].PaceInfo? && forall j :: i <= j < k ==> !PaceFailed(infos, j)
    decreases |infos| - i
  {
    if i < |infos| {
      var r := PaceLoop(infos, i, succeeded);
      match infos[i]
      case OtherInfo =>
        PaceCalls(infos, i + 1, succeeded, k);
      case PaceInfo(outcome) =>
        if outcome.Ok? {
          PaceCalls(infos, i + 1, true, k);
          assert r.calls == [DoPace(i)] + PaceLoop(infos, i + 1, true).calls;
        } else {
          assert r.calls == [DoPace(i)];
          assert PaceFailed(infos, i);
        }
    }
  }

  // ---------------------------------------------------------------------
  // Access control

  /** How the handshake ends: with the PACE flag, or with a throwable that
      leaves `readPassport`. */
  datatype Handshake = Handshake(calls: seq<Call>, outcome: Try<bool>)

  /** NfcPassportReader.kt lines 36-55: read the card security file and run the PACE loop;
      any exception, from the file or from `doPACE`, is caught and printed,
      an `Error` is not. */
  function PaceStage(chip: Chip): (r: PaceRun)
    ensures |r.calls| >= 1 && r.calls[0] == ReadCardSecurity
    ensures chip.cardSecurity.Threw? ==> r == PaceRun([ReadCardSecurity], false,
              if chip.cardSecurity.error.IsException() then None else Some(chip.cardSecurity.error))
  {
    match chip.cardSecurity
    case Ok(infos) =>
      var loop := PaceLoop(infos, 0, false);
      PaceRun([ReadCardSecurity] + loop.calls, loop.succeeded, loop.escaped)
    case Threw(e) => PaceRun([ReadCardSecurity], false, if e.IsException() then None else Some(e))
  }

  /** NfcPassportReader.kt lines 59-67 when PACE did not succeed: read EF.COM; if that throws an
      exception, run BAC, whose own failure is not caught. */
  function Fallback(chip: Chip): (h: Handshake)
    ensures DoBac in h.calls <==> chip.com.Threw? && chip.com.error.IsException()
    ensures DoBac in h.calls ==> h.outcome == if chip.bac.Ok? then Ok(false) else Threw(chip.bac.error)
    ensures h.outcome.Ok? ==> !h.outcome.value
  {
    match chip.com
    case Ok(_) => Handshake([ReadCom], Ok(false))
    case Threw(e) =>
      if !e.IsException() then Handshake([ReadCom], Threw(e))
      else Handshake([ReadCom, DoBac], if chip.bac.Ok? then Ok(false) else Threw(chip.bac.error))
  }

  /** NfcPassportReader.kt lines 22-67: open the services, the PACE stage, the applet selection
      with the PACE flag, and without PACE the EF.COM/BAC fallback. */
  function Authenticate(chip: Chip): (h: Handshake)
    ensures chip.open.Threw? ==> h == Handshake([Connect], Threw(chip.open.error))
    ensures SelectApplet(true) in h.calls ==>
              h.outcome == if chip.selectApplet.Ok? then Ok(true) else Threw(chip.selectApplet.error)
    ensures h.outcome.Ok? ==> SelectApplet(h.outcome.value) in h.calls
  {
    if chip.open.Threw? then Handshake([Connect], Threw(chip.open.error))
    else
      var pace := PaceStage(chip);
      var before := [Connect] + pace.calls;
      if pace.escaped.Some? then Handshake(before, Threw(pace.escaped.value))
      else
        var selected := before + [SelectApplet(pace.succeeded)];
        if chip.selectApplet.Threw? then Handshake(selected, Threw(chip.selectApplet.error))
        else if pace.succeeded then Handshake(selected, Ok(true))
        else
          var f := Fallback(chip);
          Handshake(selected + f.calls, f.outcome)
  }

  /** `sendSelectApplet` is called exactly once PACE's stage has let no
      `Error` through, and with the stage's final flag, whatever happened to
      the `PACEInfo` entries after the first. */
  lemma SelectedWithPaceFlag(chip: Chip, b: bool)
    ensures SelectApplet(b) in Authenticate(chip).calls <==>
              chip.open.Ok? && PaceStage(chip).escaped.None? && b == PaceStage(chip).succeeded
  {
    if chip.open.Ok? {
      var pace := PaceStage(chip);
      PaceStageCalls(chip);
      var before := [Connect] + pace.calls;
      assert SelectApplet(true) !in before && SelectApplet(false) !in before;
      if pace.escaped.None? {
        var selected := before + [SelectApplet(pace.succeeded)];
        assert selected[|before|] == SelectApplet(pace.succeeded);
        assert SelectApplet(!pace.succeeded) !in selected;
      }
    }
  }

  /** The flag handed to `sendSelectApplet` is the PACE flag, which the first
      `PACEInfo` of a readable card security file decides as long as no
      `Error` escapes the loop (a later `doPACE` throwing an exception does
      not undo it); an unreadable file means no PACE. */
  lemma PaceFlagFromFirstInfo(chip: Chip)
    requires chip.open.Ok?
    ensures chip.cardSecurity.Ok? ==>
              var infos := chip.cardSecurity.value;
              var first := FirstPaceFrom(infos, 0);
              var failure := FirstPaceFailureFrom(infos, 0);
              (failure.None? || infos[failure.value].outcome.error.IsException()) ==>
                (SelectApplet(true) in Authenticate(chip).calls <==>
                   first.Some? && infos[first.value].outcome.Ok?)
    ensures chip.cardSecurity.Threw? && chip.cardSecurity.error.IsException() ==>
              SelectApplet(false) in Authenticate(chip).calls
  {
    if chip.cardSecurity.Ok? {
      var infos := chip.cardSecurity.value;
      PaceDecidedByFirst(infos, 0, false);
      PaceEscape(infos, 0, false);
    }
    SelectedWithPaceFlag(chip, true);
    SelectedWithPaceFlag(chip, false);
  }

  /** BAC is run only when PACE was not established, the applet selection
      worked and reading EF.COM threw an exception; then its outcome is the
      handshake's. */
  lemma BacOnlyAsFallback(chip: Chip)
    ensures DoBac in Authenticate(chip).calls <==>
              && SelectApplet(false) in Authenticate(chip).calls && chip.selectApplet.Ok?
              && chip.com.Threw? && chip.com.error.IsException()
    ensures DoBac in Authenticate(chip).calls ==>
              Authenticate(chip).outcome == if chip.bac.Ok? then Ok(false) else Threw(chip.bac.error)
    ensures ReadCom in Authenticate(chip).calls <==>
              SelectApplet(false) in Authenticate(chip).calls && chip.selectApplet.Ok?
  {
    if chip.open.Ok? {
      var pace := PaceStage(chip);
      PaceStageCalls(chip);
      var before := [Connect] + pace.calls;
      assert DoBac !in before;
      if pace.escaped.None? {
        var selected := before + [SelectApplet(pace.succeeded)];
        assert DoBac !in selected;
        assert SelectApplet(false) in selected <==> !pace.succeeded by {
          assert SelectApplet(true) !in before && SelectApplet(false) !in before;
        }
      }
    }
  }

  /** Once PACE succeeded and the applet is selected with `true`, neither
      EF.COM is read nor BAC run. */
  lemma PaceSkipsFallback(chip: Chip)
    ensures SelectApplet(true) in Authenticate(chip).calls ==>
              ReadCom !in Authenticate(chip).calls && DoBac !in Authenticate(chip).calls
  {
    BacOnlyAsFallback(chip);
    SelectedWithPaceFlag(chip, true);
    SelectedWithPaceFlag(chip, false);
  }

  /** The PACE stage makes no call but the file read and `doPACE`. */
  lemma PaceStageCalls(chip: Chip)
    ensures forall c :: c in PaceStage(chip).calls ==> c == ReadCardSecurity || c.DoPace?
  {
  }

  // ---------------------------------------------------------------------
  // Result fields

  /** NfcPassportReader.kt line 78: the given names are the text after the last `<<`, with every
      remaining `<` turned into a space; without a `<<` that is the whole
      name. */
  function FirstName(nameOfHolder: string): string {
    ReplaceChar(SubstringAfterLast(nameOfHolder, "<<"), '<', ' ')
  }

  /** NfcPassportReader.kt line 79: the surname is the text before the last `<<`; without a `<<`
      that is the whole name. */
  function LastName(nameOfHolder: string): string {
    SubstringBeforeLast(nameOfHolder, "<<")
  }

  /** The two name fields put the DG11 name back together: surname, `<<`,
      then the given names with spaces where the `<` fillers were; the given
      names never hold a `<` and never contain a further `<<` split. Without
      a `<<` both fields are the whole name, the first one with its `<`s
      turned to spaces. */
  lemma NameSplit(name: string)
    ensures (exists j :: OccursAt(name, "<<", j)) ==>
              var after := SubstringAfterLast(name, "<<");
              && LastName(name) + "<<" + after == name
              && FirstName(name) == ReplaceChar(after, '<', ' ')
              && (forall j :: !OccursAt(after, "<<", j))
    ensures (forall j :: !OccursAt(name, "<<", j)) ==>
              LastName(name) == name && FirstName(name) == ReplaceChar(name, '<', ' ')
    ensures '<' !in FirstName(name)
  {
    SplitAtLastDelimiter(name, "<<");
  }

  /** `DateUtil.convertFrom…Date(text)`: the parameter is a non-null
      `String`, so null fails Kotlin's parameter check; unparseable text
      makes `SimpleDateFormat.parse` throw. */
  function ConvertDate(text: Option<string>, convert: string -> Option<string>, what: string): (r: Try<string>)
    ensures text.None? ==> r == Threw(OtherException(NullPointer, what))
    ensures text.Some? && convert(text.value).None? ==> r.Threw? && r.error.OtherException? && r.error.kind == Parse
    ensures r.Ok? ==> text.Some? && convert(text.value) == Some(r.value)
  {
    match text
    case None => Threw(OtherException(NullPointer, what))
    case Some(t) =>
      match convert(t)
      case None => Threw(OtherException(Parse, "Unparseable date: \"" + t + "\""))
      case Some(d) => Ok(d)
  }

  /** NfcPassportReader.kt lines 78-94: the text fields of the result, in the order the code
      evaluates them. A null name or place list, a null gender and a null or
      unparseable date throw; the document number, nationality and personal
      number are copied as they are, null included. */
  function Fields(mrz: MrzInfo, dg11: Dg11, convert: string -> Option<string>): (r: Try<NfcResult>)
    ensures r.Ok? <==>
              && dg11.nameOfHolder.Some? && dg11.placeOfBirth.Some? && mrz.gender.Some?
              && ConvertDate(dg11.fullDateOfBirth, convert, "fullDateOfBirth").Ok?
              && ConvertDate(mrz.dateOfExpiry, convert, "dateOfExpiry").Ok?
    ensures dg11.nameOfHolder.None? ==> r == Threw(OtherException(NullPointer, "nameOfHolder"))
    ensures r.Ok? ==>
              && r.value.firstName == Some(FirstName(dg11.nameOfHolder.value))
              && r.value.lastName == Some(LastName(dg11.nameOfHolder.value))
              && r.value.placeOfBirth == Some(Join(dg11.placeOfBirth.value, " "))
              && r.value.identityNo == mrz.personalNumber
              && r.value.gender == mrz.gender
              && r.value.birthDate == Some(convert(dg11.fullDateOfBirth.value).value)
              && r.value.expiryDate == Some(convert(mrz.dateOfExpiry.value).value)
              && r.value.documentNo == mrz.documentNumber
              && r.value.nationality == mrz.nationality
              && r.value.mrz == Some(mrz.text)
              && r.value.originalFacePhoto.None?
  {
    match dg11.nameOfHolder
    case None => Threw(OtherException(NullPointer, "nameOfHolder"))
    case Some(name) =>
      match dg11.placeOfBirth
      case None => Threw(OtherException(NullPointer, "placeOfBirth"))
      case Some(places) =>
        match mrz.gender
        case None => Threw(OtherException(NullPointer, "gender"))
        case Some(gender) =>
          match ConvertDate(dg11.fullDateOfBirth, convert, "fullDateOfBirth")
          case Threw(e) => Threw(e)
          case Ok(birth) =>
            match ConvertDate(mrz.dateOfExpiry, convert, "dateOfExpiry")
            case Threw(e) => Threw(e)
            case Ok(expiry) =>
              Ok(NfcResult(
                birthDate := Some(birth),
                placeOfBirth := Some(Join(places, " ")),
                documentNo := mrz.documentNumber,
                expiryDate := Some(expiry),
                firstName := Some(FirstName(name)),
                gender := Some(gender),
                identityNo := mrz.personalNumber,
                lastName := Some(LastName(name)),
                mrz := Some(mrz.text),
                nationality := mrz.nationality,
                originalFacePhoto := None))
  }

  /** NfcPassportReader.kt lines 100-103: the image records of all face infos, in order. */
  function AllFaceImages(faces: seq<FaceInfo>): (r: seq<BitmapUtil.ImageInfo>)
    ensures |faces| == 0 ==> r == []
  {
    if |faces| == 0 then [] else faces[0].images + AllFaceImages(faces[1..])
  }

  /** The flattened list is empty exactly when every face info is. */
  lemma {:induction false} AllFaceImagesEmpty(faces: seq<FaceInfo>)
    ensures |AllFaceImages(faces)| == 0 <==> forall i :: 0 <= i < |faces| ==> |faces[i].images| == 0
    decreases |faces|
  {
    if |faces| > 0 {
      AllFaceImagesEmpty(faces[1..]);
      assert forall i :: 1 <= i < |faces| ==> faces[i] == faces[1..][i - 1];
    }
  }

  /** The first record of the flattened list is the first record of the
      first face info that has any. */
  lemma {:induction false} FirstFaceImage(faces: seq<FaceInfo>, i: nat)
    requires i < |faces| && |faces[i].images| > 0
    requires forall j :: 0 <= j < i ==> |faces[j].images| == 0
    ensures |AllFaceImages(faces)| > 0 && AllFaceImages(faces)[0] == faces[i].images[0]
    decreases i
  {
    if i > 0 {
      FirstFaceImage(faces[1..], i - 1);
      assert AllFaceImages(faces) == AllFaceImages(faces[1..]);
    }
  }

  /** NfcPassportReader.kt lines 96-109: with `includeImages`, read DG2 and decode the first face
      image record, if there is one; a failure of either throws out of
      `readPassport`. */
  function Photo(chip: Chip, includeImages: bool, codecs: BitmapUtil.Codecs): (r: Try<Option<BitmapUtil.NfcImage>>)
    ensures !includeImages ==> r == Ok(None)
    ensures includeImages && chip.dg2.Threw? ==> r == Threw(chip.dg2.error)
    ensures includeImages && chip.dg2.Ok? && |AllFaceImages(chip.dg2.value)| == 0 ==> r == Ok(None)
    ensures r.Ok? && r.value.Some? ==>
              && includeImages && chip.dg2.Ok? && |AllFaceImages(chip.dg2.value)| > 0
              && BitmapUtil.GetImage(AllFaceImages(chip.dg2.value)[0], codecs) == Ok(r.value.value)
  {
    if !includeImages then Ok(None)
    else match chip.dg2
      case Threw(e) => Threw(e)
      case Ok(faces) =>
        var all := AllFaceImages(faces);
        if |all| == 0 then Ok(None)
        else match BitmapUtil.GetImage(all[0], codecs)
          case Threw(e) => Threw(e)
          case Ok(image) => Ok(Some(image))
  }

  // ---------------------------------------------------------------------
  // readPassport

  /** NfcPassportReader.kt lines 69-112, once the handshake is through: DG1, DG11, the fields,
      the photo, and last the DG11 length check. */
  function ReadGroups(chip: Chip, includeImages: bool, host: Host): (r: Reading)
    ensures r.outcome.Ok? ==> chip.dg11.Ok? && chip.dg11.value.length > 0
    ensures r.outcome.Ok? ==> r.calls == [ReadDg1, ReadDg11] + (if includeImages then [ReadDg2] else [])
    ensures ReadDg2 in r.calls ==> includeImages
  {
    match chip.dg1
    case Threw(e) => Reading([ReadDg1], Threw(e))
    case Ok(mrz) =>
      match chip.dg11
      case Threw(e) => Reading([ReadDg1, ReadDg11], Threw(e))
      case Ok(dg11) =>
        match Fields(mrz, dg11, host.convertDate)
        case Threw(e) => Reading([ReadDg1, ReadDg11], Threw(e))
        case Ok(fields) =>
          var calls := [ReadDg1, ReadDg11] + (if includeImages then [ReadDg2] else []);
          match Photo(chip, includeImages, host.codecs)
          case Threw(e) => Reading(calls, Threw(e))
          case Ok(photo) =>
            if dg11.length > 0 then Reading(calls, Ok(fields.(originalFacePhoto := photo)))
            else Reading(calls, Threw(OtherException(Plain, "DG11 file is empty")))
  }

  /** `readPassport(isoDep, bacKey, includeImages)` against `chip`. */
  function ReadPassport(chip: Chip, includeImages: bool, host: Host): (r: Reading)
    ensures r.outcome.Ok? ==> chip.dg11.Ok? && chip.dg11.value.length > 0
    ensures ReadDg2 in r.calls ==> includeImages
  {
    var h := Authenticate(chip);
    match h.outcome
    case Threw(e) => Reading(h.calls, Threw(e))
    case Ok(_) =>
      var g := ReadGroups(chip, includeImages, host);
      Reading(h.calls + g.calls, g.outcome)
  }

  // ---------------------------------------------------------------------
  // Properties of a whole run

  /** The position of each kind of call in the code. */
  function Rank(c: Call): nat {
    match c
    case Connect => 0
    case ReadCardSecurity => 1
    case DoPace(_) => 2
    case SelectApplet(_) => 3
    case ReadCom => 4
    case DoBac => 5
    case ReadDg1 => 6
    case ReadDg11 => 7
    case ReadDg2 => 8
  }

  predicate Before(a: Call, b: Call) {
    Rank(a) < Rank(b) || (a.DoPace? && b.DoPace? && a.index < b.index)
  }

  /** Every call comes strictly before the ones after it: no call repeats,
      and they follow the order of the code. */
  predicate Ordered(calls: seq<Call>) {
    forall i, j :: 0 <= i < j < |calls| ==> Before(calls[i], calls[j])
  }

  lemma OrderedAppend(a: seq<Call>, b: seq<Call>)
    requires Ordered(a) && Ordered(b)
    requires forall x, y :: x in a && y in b ==> Before(x, y)
    ensures Ordered(a + b)
  {
    var ab := a + b;
    forall i, j | 0 <= i < j < |ab| ensures Before(ab[i], ab[j]) {
      if j < |a| {
        assert ab[i] == a[i] && ab[j] == a[j];
      } else if i >= |a| {
        assert ab[i] == b[i - |a|] && ab[j] == b[j - |a|];
      } else {
        assert ab[i] in a && ab[j] in b;
      }
    }
  }

  lemma {:induction false} PaceLoopOrdered(infos: seq<SecurityInfo>, i: nat, succeeded: bool)
    requires i <= |infos|
    ensures Ordered(PaceLoop(infos, i, succeeded).calls)
    decreases |infos| - i
  {
    if i < |infos| {
      match infos[i]
      case OtherInfo => PaceLoopOrdered(infos, i + 1, succeeded);
      case PaceInfo(outcome) =>
        if outcome.Ok? {
          PaceLoopOrdered(infos, i + 1, true);
          OrderedAppend([DoPace(i)], PaceLoop(infos, i + 1, true).calls);
        }
    }
  }

  lemma PaceStageOrdered(chip: Chip)
    ensures Ordered(PaceStage(chip).calls)
  {
    if chip.cardSecurity.Ok? {
      var loop := PaceLoop(chip.cardSecurity.value, 0, false);
      PaceLoopOrdered(chip.cardSecurity.value, 0, false);
      OrderedAppend([ReadCardSecurity], loop.calls);
    }
  }

  /** The handshake's calls are in code order and all come before the data
      group reads. */
  lemma AuthenticateOrdered(chip: Chip)
    ensures Ordered(Authenticate(chip).calls)
  {
    if chip.open.Ok? {
      var pace := PaceStage(chip);
      PaceStageOrdered(chip);
      PaceStageCalls(chip);
      var before := [Connect] + pace.calls;
      OrderedAppend([Connect], pace.calls);
      var selected := before + [SelectApplet(pace.succeeded)];
      OrderedAppend(before, [SelectApplet(pace.succeeded)]);
      var f := Fallback(chip);
      assert f.calls == [ReadCom] || f.calls == [ReadCom, DoBac];
      OrderedAppend(selected, f.calls);
    }
  }

  lemma AuthenticateRanks(chip: Chip)
    ensures forall c :: c in Authenticate(chip).calls ==> Rank(c) <= 5
  {
    PaceStageCalls(chip);
  }

  /** The calls of a whole run follow the order of the code, each at most
      once: open, card security file, PACE attempts in entry order, applet
      selection, EF.COM and BAC, DG1, DG11, DG2. */
  lemma TraceOrdered(chip: Chip, includeImages: bool, host: Host)
    ensures Ordered(ReadPassport(chip, includeImages, host).calls)
  {
    AuthenticateOrdered(chip);
    AuthenticateRanks(chip);
    var h := Authenticate(chip);
    if h.outcome.Ok? {
      var g := ReadGroups(chip, includeImages, host);
      ReadGroupsOrdered(chip, includeImages, host);
      OrderedAppend(h.calls, g.calls);
    }
  }

  lemma ReadGroupsOrdered(chip: Chip, includeImages: bool, host: Host)
    ensures Ordered(ReadGroups(chip, includeImages, host).calls)
    ensures forall c :: c in ReadGroups(chip, includeImages, host).calls ==> Rank(c) >= 6
  {
    ReadGroupsCalls(chip, includeImages, host);
    DataGroupCallsOrdered(ReadGroups(chip, includeImages, host).calls);
  }

  lemma DataGroupCallsOrdered(calls: seq<Call>)
    requires calls == [ReadDg1] || calls == [ReadDg1, ReadDg11] || calls == [ReadDg1, ReadDg11, ReadDg2]
    ensures Ordered(calls)
    ensures forall c :: c in calls ==> Rank(c) >= 6
  {
    if calls == [ReadDg1, ReadDg11, ReadDg2] {
      assert forall i, j :: 0 <= i < j < 3 ==> Before(calls[i], calls[j]);
    }
  }

  lemma ReadGroupsCalls(chip: Chip, includeImages: bool, host: Host)
    ensures var calls := ReadGroups(chip, includeImages, host).calls;
            calls == [ReadDg1] || calls == [ReadDg1, ReadDg11] || calls == [ReadDg1, ReadDg11, ReadDg2]
  {
  }

  /** What a successful run returns: the handshake went through, the
      fields as derived from DG1 and DG11, the photo of the DG2 stage, and
      DG2 was read exactly when images were asked for. */
  lemma SuccessfulReading(chip: Chip, includeImages: bool, host: Host)
    requires ReadPassport(chip, includeImages, host).outcome.Ok?
    ensures Authenticate(chip).outcome.Ok?
    ensures chip.dg1.Ok? && chip.dg11.Ok?
    ensures var fields := Fields(chip.dg1.value, chip.dg11.value, host.convertDate);
            var photo := Photo(chip, includeImages, host.codecs);
            && fields.Ok? && photo.Ok?
            && ReadPassport(chip, includeImages, host).outcome.value == fields.value.(originalFacePhoto := photo.value)
    ensures ReadDg2 in ReadPassport(chip, includeImages, host).calls <==> includeImages
  {
    var calls := ReadPassport(chip, includeImages, host).calls;
    var h := Authenticate(chip);
    if includeImages {
      assert calls[|calls| - 1] == ReadDg2;
    }
  }

  /** A successful run is the handshake followed by DG1, DG11 and, when
      images are asked for, DG2. */
  lemma SuccessfulCalls(chip: Chip, includeImages: bool, host: Host)
    requires ReadPassport(chip, includeImages, host).outcome.Ok?
    ensures Authenticate(chip).outcome.Ok?
    ensures ReadPassport(chip, includeImages, host).calls ==
              Authenticate(chip).calls + [ReadDg1, ReadDg11] + (if includeImages then [ReadDg2] else [])
  {
    var g := ReadGroups(chip, includeImages, host);
    assert g.outcome.Ok?;
  }

  /** The DG11 length is checked only at the very end: a card whose DG11
      reports no content goes through the whole run, DG2 and the photo
      decoding included, and then throws. */
  lemma EmptyDg11CheckedLast(chip: Chip, includeImages: bool, host: Host, length: int)
    requires ReadPassport(chip, includeImages, host).outcome.Ok?
    requires length <= 0
    ensures var empty := chip.(dg11 := Ok(chip.dg11.value.(length := length)));
            var r := ReadPassport(empty, includeImages, host);
            && r.calls == ReadPassport(chip, includeImages, host).calls
            && r.outcome == Threw(OtherException(Plain, "DG11 file is empty"))
  {
    var empty := chip.(dg11 := Ok(chip.dg11.value.(length := length)));
    assert Authenticate(empty) == Authenticate(chip);
    var dg11 := chip.dg11.value;
    assert Fields(chip.dg1.value, dg11.(length := length), host.convertDate).Ok?;
    assert Photo(empty, includeImages, host.codecs) == Photo(chip, includeImages, host.codecs);
  }
}
