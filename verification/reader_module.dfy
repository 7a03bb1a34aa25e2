/** NfcPassportReaderModule.kt: the reading gate behind the React Native
    methods `startReading` and `stopReading` and the activity callback
    `onNewIntent`. The module's four fields are a record; each callback is a
    function from the record to the next record and the effects it has on
    the JavaScript side. */
module ReaderModule {
  import opened Runtime
  import JsonToReact

  /** jmrtd's `BACKey(documentNumber, dateOfBirth, dateOfExpiry)`, with both
      dates already in `yyMMdd` form. */
  datatype BacKey = BacKey(documentNumber: string, dateOfBirth: string, dateOfExpiry: string)

  /** A JavaScript promise handed over by `startReading`, by identity. */
  type PromiseId = nat

  /** The fields `isReading`, `bacKey`, `includeImages` and `_promise`. */
  datatype Module = Module(
    isReading: bool,
    bacKey: Option<BacKey>,
    includeImages: bool,
    promise: Option<PromiseId>)

  /** The field initialisers. */
  const Initial: Module := Module(false, None, false, None)

  /** The gate invariant: while the module is reading it holds a key. */
  predicate Valid(m: Module) {
    m.isReading ==> m.bacKey.Some?
  }

  /** What a callback does outside the module's fields. */
  datatype Effect =
    | Emitted(eventName: string)
    | Rejected(promise: PromiseId, error: Throwable)
    | Resolved(promise: PromiseId, value: map<string, JsonToReact.React>)
    | Launched                    // the read coroutine is started
    | Crashed(error: Throwable)   // a throwable left the callback uncaught

  datatype Step = Step(after: Module, effects: seq<Effect>)

  /** The `bacKey` map of a request, each entry `null` when absent. */
  datatype KeyMap = KeyMap(documentNo: Option<string>, expiryDate: Option<string>, birthDate: Option<string>)

  /** The `ReadableMap` passed to `startReading`; `includeImages` is `None`
      when the key is absent. */
  datatype Request = Request(bacKey: Option<KeyMap>, includeImages: Option<bool>)

  /** The pieces of an `Intent` the callback looks at. */
  datatype Tag = Tag(techList: seq<string>)
  datatype Extras = Extras(tag: Option<Tag>)
  datatype Intent = Intent(action: string, extras: Option<Extras>)

  const ACTION_TECH_DISCOVERED: string := "android.nfc.action.TECH_DISCOVERED"
  const ISO_DEP: string := "android.nfc.tech.IsoDep"
  const TAG_DISCOVERED_EVENT: string := "onTagDiscovered"

  /** `Exception(message)`. */
  function Failure(message: string): Throwable {
    OtherException(Plain, message)
  }

  const NullPointer: Throwable := OtherException(ExceptionKind.NullPointer, "")

  /** NfcPassportReaderModule.kt lines 174-178, `reject(e)`: disarm, forget the key, and reject the
      current promise if there is one. */
  function Reject(m: Module, e: Throwable): (s: Step)
    ensures !s.after.isReading && s.after.bacKey.None?
    ensures s.after.includeImages == m.includeImages && s.after.promise == m.promise
    ensures m.promise.Some? ==> s.effects == [Rejected(m.promise.value, e)]
    ensures m.promise.None? ==> s.effects == []
  {
    Step(m.(isReading := false, bacKey := None),
         if m.promise.Some? then [Rejected(m.promise.value, e)] else [])
  }

  /** NfcPassportReaderModule.kt lines 181-222, `startReading(readableMap,
      promise)`. `convertDate` is the module's reformatting of a date from
      its input pattern to its output pattern through `SimpleDateFormat`;
      `None` stands for a parse failure, which the code turns into `null`. */
  function StartReading(m: Module, readableMap: Option<Request>, promise: PromiseId,
                        convertDate: string -> Option<string>): (s: Step)
    ensures readableMap.None? ==>
              s.after.promise == m.promise && s.after.includeImages == m.includeImages
              && s == Reject(m, Failure("ReadableMap is null"))
    ensures readableMap.Some? ==>
              s.after.promise == Some(promise)
              && s.after.includeImages == (readableMap.value.includeImages == Some(true))
    ensures readableMap.Some? && readableMap.value.bacKey.None? ==>
              !s.after.isReading && s.effects == [Rejected(promise, Failure("BAC key is null"))]
    ensures s.after.isReading <==>
              && readableMap.Some? && readableMap.value.bacKey.Some?
              && var key := readableMap.value.bacKey.value;
              && key.documentNo.Some?
              && key.expiryDate.Some? && convertDate(key.expiryDate.value).Some?
              && key.birthDate.Some? && convertDate(key.birthDate.value).Some?
    ensures s.after.isReading ==>
              var key := readableMap.value.bacKey.value;
              && s.after.bacKey == Some(BacKey(key.documentNo.value,
                                               convertDate(key.birthDate.value).value,
                                               convertDate(key.expiryDate.value).value))
              && s.effects == []
    ensures readableMap.Some? && readableMap.value.bacKey.Some? && !s.after.isReading ==>
              s.effects == [Rejected(promise, Failure("BAC key is not valid"))]
    ensures !s.after.isReading ==> s.after.bacKey.None?
  {
    match readableMap
    case None => Reject(m, Failure("ReadableMap is null"))
    case Some(request) =>
      var m1 := m.(promise := Some(promise), includeImages := request.includeImages == Some(true));
      match request.bacKey
      case None => Reject(m1, Failure("BAC key is null"))
      case Some(key) =>
        var expiryDate := if key.expiryDate.Some? then convertDate(key.expiryDate.value) else None;
        var birthDate := if key.birthDate.Some? then convertDate(key.birthDate.value) else None;
        if key.documentNo.None? || expiryDate.None? || birthDate.None? then
          Reject(m1, Failure("BAC key is not valid"))
        else
          Step(m1.(bacKey := Some(BacKey(key.documentNo.value, birthDate.value, expiryDate.value)),
                   isReading := true),
               [])
  }

  /** NfcPassportReaderModule.kt lines 225-228, `stopReading()`: disarm and forget the key; the promise
      and `includeImages` stay as they are. */
  function StopReading(m: Module): (r: Module)
    ensures !r.isReading && r.bacKey.None?
    ensures r.promise == m.promise && r.includeImages == m.includeImages
  {
    m.(isReading := false, bacKey := None)
  }

  /** NfcPassportReaderModule.kt lines 140-167, `onNewIntent(intent)` up to the launch of the read. A
      missing extras bundle or tag makes a `!!` throw out of the callback. */
  function OnNewIntent(m: Module, intent: Option<Intent>): (s: Step)
    ensures intent.None? || !m.isReading ==> s == Step(m, [])
    ensures intent.Some? && m.isReading ==> |s.effects| >= 1 && s.effects[0] == Emitted(TAG_DISCOVERED_EVENT)
    ensures Launched in s.effects <==>
              && intent.Some? && m.isReading && intent.value.action == ACTION_TECH_DISCOVERED
              && intent.value.extras.Some? && intent.value.extras.value.tag.Some?
              && ISO_DEP in intent.value.extras.value.tag.value.techList
    ensures Launched in s.effects ==> s.after == m
    ensures s.after != m ==> !s.after.isReading && s.after == Reject(m, Failure("Tag tech is not IsoDep")).after
  {
    match intent
    case None => Step(m, [])
    case Some(i) =>
      if !m.isReading then Step(m, [])
      else
        var emitted := [Emitted(TAG_DISCOVERED_EVENT)];
        if i.action != ACTION_TECH_DISCOVERED then Step(m, emitted)
        else if i.extras.None? || i.extras.value.tag.None? then
          Step(m, emitted + [Crashed(NullPointer)])
        else if ISO_DEP in i.extras.value.tag.value.techList then
          Step(m, emitted + [Launched])
        else
          var rejected := Reject(m, Failure("Tag tech is not IsoDep"));
          Step(rejected.after, emitted + rejected.effects)
  }

  /** The external read, from the key and the image flag to the JSON object
      built from the result: `readPassport`, `serializeToMap` and
      `JSONObject(map)` together. */
  type Read = (BacKey, bool) -> Try<map<string, JsonToReact.Json>>

  /** NfcPassportReaderModule.kt lines 151-160, the body of the launched coroutine, run against the
      fields as they are when it runs. `bacKey!!` throws inside the `try`;
      every `Exception` rejects, an `Error` escapes the coroutine. A result
      resolves the promise and leaves the gate as it is. */
  function FinishRead(m: Module, read: Read): (s: Step)
    ensures m.bacKey.None? ==> s == Reject(m, NullPointer)
    ensures m.bacKey.Some? && read(m.bacKey.value, m.includeImages).Ok? ==>
              && s.after == m
              && s.effects == (if m.promise.Some?
                               then [Resolved(m.promise.value, JsonToReact.JsonToMap(read(m.bacKey.value, m.includeImages).value))]
                               else [])
    ensures m.bacKey.Some? && read(m.bacKey.value, m.includeImages).Threw? ==>
              var e := read(m.bacKey.value, m.includeImages).error;
              s == if e.IsException() then Reject(m, e) else Step(m, [Crashed(e)])
  {
    match m.bacKey
    case None => Reject(m, NullPointer)
    case Some(key) =>
      match read(key, m.includeImages)
      case Threw(e) => if e.IsException() then Reject(m, e) else Step(m, [Crashed(e)])
      case Ok(json) =>
        var reactMap := JsonToReact.JsonToMap(json);
        Step(m, if m.promise.Some? then [Resolved(m.promise.value, reactMap)] else [])
  }

  // ---------------------------------------------------------------------
  // Runs

  /** What can happen to the module: a JavaScript call, a new intent, or a
      launched read coming to an end. */
  datatype Event =
    | Start(readableMap: Option<Request>, promise: PromiseId)
    | Stop
    | NewIntent(intent: Option<Intent>)
    | ReadDone

  /** The external behaviour the module depends on. */
  datatype Env = Env(convertDate: string -> Option<string>, read: Read)

  function Apply(m: Module, e: Event, env: Env): (s: Step)
    ensures Valid(m) ==> Valid(s.after)
  {
    match e
    case Start(readableMap, promise) => StartReading(m, readableMap, promise, env.convertDate)
    case Stop => Step(StopReading(m), [])
    case NewIntent(intent) => OnNewIntent(m, intent)
    case ReadDone => FinishRead(m, env.read)
  }

  /** The events applied in order; the effects are concatenated. */
  function Run(m: Module, events: seq<Event>, env: Env): (s: Step)
    ensures Valid(m) ==> Valid(s.after)
    ensures |events| == 0 ==> s == Step(m, [])
    decreases |events|
  {
    if |events| == 0 then Step(m, [])
    else
      var first := Apply(m, events[0], env);
      var rest := Run(first.after, events[1..], env);
      Step(rest.after, first.effects + rest.effects)
  }

  /** Running two event sequences one after the other is running their
      concatenation. */
  lemma {:induction false} RunAppend(m: Module, a: seq<Event>, b: seq<Event>, env: Env)
    ensures var first := Run(m, a, env);
            var second := Run(first.after, b, env);
            Run(m, a + b, env) == Step(second.after, first.effects + second.effects)
    decreases |a|
  {
    if |a| == 0 {
      assert a + b == b;
    } else {
      var head := Apply(m, a[0], env);
      assert (a + b)[0] == a[0];
      assert (a + b)[1..] == a[1..] + b;
      RunAppend(head.after, a[1..], b, env);
      var first := Run(head.after, a[1..], env);
      var second := Run(first.after, b, env);
      assert Run(m, a + b, env) == Step(second.after, head.effects + (first.effects + second.effects));
      assert head.effects + (first.effects + second.effects) == (head.effects + first.effects) + second.effects;
    }
  }

  /** An IsoDep tag presented while reading, followed by a successful read,
      resolves the promise and leaves the gate armed with the same key. */
  lemma TagThenSuccess(m: Module, tag: Tag, env: Env)
    requires m.isReading && m.bacKey.Some? && m.promise.Some?
    requires ISO_DEP in tag.techList
    requires env.read(m.bacKey.value, m.includeImages).Ok?
    ensures var s := Run(m, [NewIntent(Some(Intent(ACTION_TECH_DISCOVERED, Some(Extras(Some(tag)))))), ReadDone], env);
            && s.after == m
            && s.effects == [Emitted(TAG_DISCOVERED_EVENT), Launched,
                             Resolved(m.promise.value, JsonToReact.JsonToMap(env.read(m.bacKey.value, m.includeImages).value))]
  {
    var events := [NewIntent(Some(Intent(ACTION_TECH_DISCOVERED, Some(Extras(Some(tag)))))), ReadDone];
    assert events[1..] == [ReadDone];
    assert events[1..][1..] == [];
  }

  /** Because a resolve does not disarm the gate, presenting the same tag
      again calls `resolve` a second time on the promise already settled. */
  lemma ResolvesTwice(m: Module, tag: Tag, env: Env)
    requires m.isReading && m.bacKey.Some? && m.promise.Some?
    requires ISO_DEP in tag.techList
    requires env.read(m.bacKey.value, m.includeImages).Ok?
    ensures var once := [NewIntent(Some(Intent(ACTION_TECH_DISCOVERED, Some(Extras(Some(tag)))))), ReadDone];
            var s := Run(m, once + once, env);
            && s.after == m
            && |s.effects| == 6
            && s.effects[2].Resolved? && s.effects[5].Resolved?
            && s.effects[2].promise == s.effects[5].promise == m.promise.value
  {
    var once := [NewIntent(Some(Intent(ACTION_TECH_DISCOVERED, Some(Extras(Some(tag)))))), ReadDone];
    TagThenSuccess(m, tag, env);
    RunAppend(m, once, once, env);
  }

  /** After `stopReading` a tag is ignored entirely: no event, no change. */
  lemma StopThenTagIgnored(m: Module, intent: Option<Intent>, env: Env)
    ensures Run(m, [Stop, NewIntent(intent)], env) == Step(StopReading(m), [])
  {
    assert [Stop, NewIntent(intent)][1..] == [NewIntent(intent)];
    assert [NewIntent(intent)][1..] == [];
  }

  /** A read that starts after `stopReading` finds no key: `bacKey!!` throws
      and the promise is rejected with the `NullPointerException`. */
  lemma StopBeforeReadRejects(m: Module, env: Env)
    requires m.promise.Some?
    ensures Run(m, [Stop, ReadDone], env) == Step(StopReading(m), [Rejected(m.promise.value, NullPointer)])
  {
    assert [Stop, ReadDone][1..] == [ReadDone];
    assert [ReadDone][1..] == [];
  }

  /** From the initial fields, whatever happens, the module never reads
      without a key. */
  lemma AlwaysValid(events: seq<Event>, env: Env)
    ensures Valid(Run(Initial, events, env).after)
  {
  }
}
