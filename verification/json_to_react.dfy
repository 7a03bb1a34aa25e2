/** JsonToReactMap.kt: the conversions between org.json trees and the
    React Native bridge's readable and writable maps and arrays. */
module JsonToReact {
  import opened Runtime
  import Decimal

  /** A Java `double`: a finite value or one of the three values that
      org.json refuses to store. */
  datatype Double = Finite(value: real) | NaN | PositiveInfinity | NegativeInfinity

  /** A value held by a `JSONObject` or `JSONArray`, by its runtime class. */
  datatype Json =
    | JNull                               // JSONObject.NULL
    | JBool(b: bool)
    | JInt(i: int)                        // java.lang.Integer
    | JLong(l: int)                       // java.lang.Long
    | JDouble(d: Double)
    | JString(s: string)
    | JOther(text: string)                // any other class, by its toString()
    | JObject(fields: map<string, Json>)
    | JArray(elements: seq<Json>)

  /** A value of a React Native `ReadableMap`/`WritableMap` or array, by its
      `ReadableType`; `RInt` and `RDouble` are both of type `Number`. */
  datatype React =
    | RNull
    | RBool(b: bool)
    | RInt(i: int)
    | RDouble(d: Double)
    | RString(s: string)
    | RMap(entries: map<string, React>)
    | RArray(items: seq<React>)

  /** What `JSONObject.put`/`JSONArray.put` throw for a forbidden double,
      kept as its class with a fixed message: org.json's message also names
      the refused value, which is not modelled. */
  const ForbiddenNumber: Throwable := OtherException(Json, "Forbidden numeric value")

  // ---------------------------------------------------------------------
  // JSON to React (JsonToReactMap.kt lines 15-49)

  /** No `RNull` anywhere in the tree. */
  predicate NullFree(v: React) {
    match v
    case RNull => false
    case RMap(entries) => forall k | k in entries :: NullFree(entries[k])
    case RArray(items) => forall j | 0 <= j < |items| :: NullFree(items[j])
    case _ => true
  }

  /** The `when (value)` of both `convertJsonToMap` and `convertJsonToArray`:
      objects and arrays are converted recursively; booleans, integers,
      doubles and strings keep their type; anything else, `JSONObject.NULL`
      and longs included, is put as its `toString()`. */
  function ToReact(v: Json): (r: React)
    ensures NullFree(r)
    ensures v.JObject? <==> r.RMap?
    ensures v.JArray? <==> r.RArray?
    ensures v.JObject? ==> r.entries.Keys == v.fields.Keys
    ensures v.JArray? ==> |r.items| == |v.elements|
    ensures v.JBool? ==> r == RBool(v.b)
    ensures v.JInt? ==> r == RInt(v.i)
    ensures v.JDouble? ==> r == RDouble(v.d)
    ensures v.JString? ==> r == RString(v.s)
    ensures v.JNull? ==> r == RString("null")
    ensures v.JLong? ==> r == RString(Decimal.Show(v.l))
    ensures v.JOther? ==> r == RString(v.text)
  {
    match v
    case JObject(fields) => RMap(map k | k in fields :: ToReact(fields[k]))
    case JArray(elements) => RArray(seq(|elements|, j requires 0 <= j < |elements| => ToReact(elements[j])))
    case JBool(b) => RBool(b)
    case JInt(i) => RInt(i)
    case JDouble(d) => RDouble(d)
    case JString(s) => RString(s)
    case JNull => RString("null")
    case JLong(l) => RString(Decimal.Show(l))
    case JOther(text) => RString(text)
  }

  /** A long reaches JavaScript as its decimal text, which reads back to the
      same number whenever it fits in an `Int`. */
  lemma LongAsText(l: int)
    requires INT_MIN <= l <= INT_MAX
    ensures ToReact(JLong(l)).RString?
    ensures Decimal.ParseInt(ToReact(JLong(l)).s) == Some(l)
  {
    Decimal.ParseShow(l);
  }

  /** `convertJsonToMap(jsonObject)`: every key kept, each value converted. */
  function JsonToMap(jsonObject: map<string, Json>): (r: map<string, React>)
    ensures r.Keys == jsonObject.Keys
    ensures forall k | k in r :: r[k] == ToReact(jsonObject[k]) && NullFree(r[k])
  {
    ToReact(JObject(jsonObject)).entries
  }

  /** `convertJsonToArray(jsonArray)`: same length, same order. */
  function JsonToArray(jsonArray: seq<Json>): (r: seq<React>)
    ensures |r| == |jsonArray|
    ensures forall j | 0 <= j < |r| :: r[j] == ToReact(jsonArray[j]) && NullFree(r[j])
  {
    ToReact(JArray(jsonArray)).items
  }

  // ---------------------------------------------------------------------
  // React to JSON (JsonToReactMap.kt lines 51-86)

  /** Every double in the tree is finite, so org.json accepts it. */
  predicate AllFinite(v: React) {
    match v
    case RDouble(d) => d.Finite?
    case RMap(entries) => forall k | k in entries :: AllFinite(entries[k])
    case RArray(items) => forall j | 0 <= j < |items| :: AllFinite(items[j])
    case _ => true
  }

  /** `put(key, getDouble(key))`: org.json's `checkDouble` refuses NaN and
      the infinities. */
  function PutDouble(d: Double): (r: Try<Json>)
    ensures r.Ok? <==> d.Finite?
    ensures r.Ok? ==> r.value == JDouble(d)
    ensures r.Threw? ==> r.error == ForbiddenNumber
  {
    if d.Finite? then Ok(JDouble(d)) else Threw(ForbiddenNumber)
  }

  /** One `when (getType(key))` branch of `convertMapToJson`: `Null` becomes
      `JSONObject.NULL`, every `Number` is read with `getDouble`, nested maps
      and arrays are converted recursively. The first refused double aborts
      the whole conversion. */
  function FromReact(v: React): (r: Try<Json>)
    ensures r.Ok? <==> AllFinite(v)
    ensures r.Threw? ==> r.error == ForbiddenNumber
    ensures r.Ok? ==> (r.value == JNull <==> v == RNull)
    ensures r.Ok? && v.RMap? ==> r.value.JObject? && r.value.fields.Keys == v.entries.Keys
    ensures r.Ok? && v.RArray? ==> r.value.JArray? && |r.value.elements| <= |v.items|
    decreases v, 1, 0
  {
    match v
    case RNull => Ok(JNull)
    case RBool(b) => Ok(JBool(b))
    case RInt(i) => PutDouble(Finite(i as real))
    case RDouble(d) => PutDouble(d)
    case RString(s) => Ok(JString(s))
    case RMap(entries) =>
      if forall k | k in entries :: FromReact(entries[k]).Ok? then
        Ok(JObject(map k | k in entries :: FromReact(entries[k]).value))
      else
        Threw(ForbiddenNumber)
    case RArray(items) =>
      match ElementsFrom(items, 0)
      case Ok(elements) => Ok(JArray(elements))
      case Threw(e) => Threw(e)
  }

  /** The loop of `convertArrayToJson` from index `i` on: `Null` elements
      are skipped, every other element is converted and appended. */
  function ElementsFrom(items: seq<React>, i: nat): (r: Try<seq<Json>>)
    requires i <= |items|
    ensures r.Ok? <==> forall j | i <= j < |items| :: AllFinite(items[j])
    ensures r.Threw? ==> r.error == ForbiddenNumber
    ensures r.Ok? ==> |r.value| <= |items| - i
    decreases RArray(items), 0, |items| - i
  {
    if i == |items| then Ok([])
    else if items[i].RNull? then ElementsFrom(items, i + 1)
    else
      match FromReact(items[i])
      case Threw(e) => Threw(e)
      case Ok(element) =>
        match ElementsFrom(items, i + 1)
        case Threw(e) => Threw(e)
        case Ok(rest) => Ok([element] + rest)
  }

  /** `convertMapToJson(readableMap)`; the `!!` throws on a null map. */
  function MapToJson(readableMap: Option<map<string, React>>): (r: Try<map<string, Json>>)
    ensures readableMap.None? ==> r.Threw? && r.error.OtherException? && r.error.kind == NullPointer
    ensures readableMap.Some? ==>
              (r.Ok? <==> forall k | k in readableMap.value :: AllFinite(readableMap.value[k]))
    ensures r.Ok? ==> r.value.Keys == readableMap.value.Keys
  {
    match readableMap
    case None => Threw(OtherException(NullPointer, "readableMap"))
    case Some(m) =>
      match FromReact(RMap(m))
      case Ok(o) => Ok(o.fields)
      case Threw(e) => Threw(e)
  }

  /** `convertArrayToJson(readableArray)`; the `!!` throws on a null array. */
  function ArrayToJson(readableArray: Option<seq<React>>): (r: Try<seq<Json>>)
    ensures readableArray.None? ==> r.Threw? && r.error.OtherException? && r.error.kind == NullPointer
    ensures readableArray.Some? ==>
              (r.Ok? <==> forall j | 0 <= j < |readableArray.value| :: AllFinite(readableArray.value[j]))
    ensures r.Ok? ==> |r.value| <= |readableArray.value|
  {
    match readableArray
    case None => Threw(OtherException(NullPointer, "readableArray"))
    case Some(items) => ElementsFrom(items, 0)
  }

  // ---------------------------------------------------------------------
  // Reference definitions and the round trip

  /** The elements of `s` that are not `RNull`, in order. */
  function NonNull(s: seq<React>): (r: seq<React>)
    ensures |r| <= |s|
    ensures forall x | x in r :: x in s && x != RNull
  {
    if |s| == 0 then []
    else if s[0] == RNull then NonNull(s[1..])
    else [s[0]] + NonNull(s[1..])
  }

  /** What a readable value looks like after a trip through JSON and back:
      `Null` map values turn into the string "null", null array elements
      disappear, and every number is a double. */
  function Normalize(v: React): React {
    match v
    case RNull => RString("null")
    case RInt(i) => RDouble(Finite(i as real))
    case RMap(entries) => RMap(map k | k in entries :: Normalize(entries[k]))
    case RArray(items) =>
      var kept := NonNull(items);
      RArray(seq(|kept|, j requires 0 <= j < |kept| => assert kept[j] in items; Normalize(kept[j])))
    case _ => v
  }

  lemma NonNullStep(items: seq<React>, i: nat)
    requires i < |items|
    ensures NonNull(items[i..]) ==
              if items[i] == RNull then NonNull(items[i + 1..]) else [items[i]] + NonNull(items[i + 1..])
  {
    assert items[i..][0] == items[i];
    assert items[i..][1..] == items[i + 1..];
  }

  /** `convertArrayToJson` keeps exactly the non-null elements, in order,
      each converted as a map value would be. */
  lemma {:induction false} ElementsKeepNonNull(items: seq<React>, i: nat)
    requires i <= |items|
    ensures var r := ElementsFrom(items, i);
            var kept := NonNull(items[i..]);
            r.Ok? ==> |r.value| == |kept| && forall j | 0 <= j < |kept| :: FromReact(kept[j]) == Ok(r.value[j])
    decreases |items| - i
  {
    if i < |items| {
      NonNullStep(items, i);
      ElementsKeepNonNull(items, i + 1);
    }
  }

  /** Converting a readable value to JSON and back yields its normal form,
      whenever org.json accepts all of its numbers. */
  lemma {:induction false} RoundTrip(v: React)
    requires AllFinite(v)
    ensures FromReact(v).Ok? && ToReact(FromReact(v).value) == Normalize(v)
    decreases v, 1, 0
  {
    match v
    case RMap(entries) =>
      RoundTripEntries(entries);
    case RArray(items) =>
      RoundTripElements(items, 0);
      assert items[0..] == items;
    case _ =>
  }

  lemma {:induction false} RoundTripEntries(entries: map<string, React>)
    requires forall k | k in entries :: AllFinite(entries[k])
    ensures FromReact(RMap(entries)).Ok?
    ensures ToReact(FromReact(RMap(entries)).value) == Normalize(RMap(entries))
    decreases RMap(entries), 0, 0
  {
    forall k | k in entries
      ensures FromReact(entries[k]).Ok? && ToReact(FromReact(entries[k]).value) == Normalize(entries[k])
    {
      RoundTrip(entries[k]);
    }
    var fields := map k | k in entries :: FromReact(entries[k]).value;
    assert FromReact(RMap(entries)) == Ok(JObject(fields));
    ConvertedEntries(fields, entries);
  }

  lemma ConvertedEntries(fields: map<string, Json>, entries: map<string, React>)
    requires fields.Keys == entries.Keys
    requires forall k | k in entries :: ToReact(fields[k]) == Normalize(entries[k])
    ensures ToReact(JObject(fields)) == Normalize(RMap(entries))
  {
    var n := Normalize(RMap(entries)).entries;
    assert n.Keys == entries.Keys && forall k | k in n :: n[k] == Normalize(entries[k]);
    assert JsonToMap(fields) == n;
  }

  lemma {:induction false} RoundTripElements(items: seq<React>, i: nat)
    requires i <= |items|
    requires forall j | i <= j < |items| :: AllFinite(items[j])
    ensures var r := ElementsFrom(items, i);
            var kept := NonNull(items[i..]);
            && r.Ok? && |r.value| == |kept|
            && forall j | 0 <= j < |kept| :: ToReact(r.value[j]) == Normalize(kept[j])
    decreases RArray(items), 0, |items| - i
  {
    if i < |items| {
      NonNullStep(items, i);
      RoundTripElements(items, i + 1);
      if items[i] != RNull {
        RoundTrip(items[i]);
      }
    }
  }

  /** The whole of a readable map survives `convertMapToJson` followed by
      `convertJsonToMap` up to normal form: same keys, each value normalised. */
  lemma MapRoundTrip(m: map<string, React>)
    requires forall k | k in m :: AllFinite(m[k])
    ensures MapToJson(Some(m)).Ok?
    ensures JsonToMap(MapToJson(Some(m)).value) == Normalize(RMap(m)).entries
  {
    RoundTrip(RMap(m));
    var o := FromReact(RMap(m)).value;
    assert MapToJson(Some(m)) == Ok(o.fields);
  }

  /** The same for arrays: the nulls are gone, the rest is normalised and in
      order. */
  lemma ArrayRoundTrip(s: seq<React>)
    requires forall j | 0 <= j < |s| :: AllFinite(s[j])
    ensures ArrayToJson(Some(s)).Ok?
    ensures JsonToArray(ArrayToJson(Some(s)).value) == Normalize(RArray(s)).items
  {
    RoundTrip(RArray(s));
  }

  lemma {:induction false} NonNullOfNullFree(s: seq<React>)
    requires forall j | 0 <= j < |s| :: s[j] != RNull
    ensures NonNull(s) == s
    decreases |s|
  {
    if |s| > 0 {
      NonNullOfNullFree(s[1..]);
      assert [s[0]] + s[1..] == s;
    }
  }

  /** Normal forms are null-free, and normalising twice changes nothing: a
      second trip through JSON is the identity. */
  lemma {:induction false} NormalizeIdempotent(v: React)
    ensures NullFree(Normalize(v))
    ensures Normalize(Normalize(v)) == Normalize(v)
  {
    match v
    case RMap(entries) =>
      forall k | k in entries
        ensures NullFree(Normalize(entries[k])) && Normalize(Normalize(entries[k])) == Normalize(entries[k])
      {
        NormalizeIdempotent(entries[k]);
      }
    case RArray(items) =>
      var kept := NonNull(items);
      var n := Normalize(v).items;
      forall j | 0 <= j < |kept|
        ensures NullFree(n[j]) && Normalize(n[j]) == n[j]
      {
        assert kept[j] in items;
        NormalizeIdempotent(kept[j]);
      }
      NonNullOfNullFree(n);
    case _ =>
  }
}
