/** JavaScript values as they appear in the JSON files the program reads and
    writes, with the few operations of the language the program applies to
    them: `typeof`, `Array.isArray`, property access and the conversion of a
    value to a property key.
 */
module JsValues {
  import opened Wrappers
  import opened Decimals
  import opened NumberText
  import opened OrderedMap

  /** A value produced by `JSON.parse`. An object's members are kept in
      insertion order. */
  datatype Json =
    | JNull
    | JBool(b: bool)
    | JNum(n: Decimal)
    | JStr(s: string)
    | JArr(items: seq<Json>)
    | JObj(fields: OMap<Json>)

  /** What `JSON.parse` produces: no object has the same key twice (a
      repeated key in the text keeps its last value). */
  ghost predicate WellFormed(v: Json) {
    match v
    case JArr(items) => forall i :: 0 <= i < |items| ==> WellFormed(items[i])
    case JObj(fields) =>
      UniqueKeys(fields) && forall i :: 0 <= i < |fields| ==> WellFormed(fields[i].1)
    case _ => true
  }

  /** An exception: the program's own error class, or a `TypeError` raised
      by the language. */
  datatype Thrown = AppError(message: string) | TypeError(message: string)

  /** `typeof v`, with `None` standing for `undefined`. */
  function TypeOf(v: Option<Json>): string {
    match v
    case None => "undefined"
    case Some(JBool(_)) => "boolean"
    case Some(JNum(_)) => "number"
    case Some(JStr(_)) => "string"
    case Some(_) => "object"
  }

  /** `Array.isArray(v)`. */
  predicate IsArray(v: Option<Json>) {
    v.Some? && v.value.JArr?
  }

  /** `isObject` (`src/cli.ts`, `src/utils.ts`): not `null`, of type
      "object" and not an array; for JSON values, exactly the objects. */
  function IsObject(v: Option<Json>): (r: bool)
    ensures r <==> v.Some? && v.value.JObj?
  {
    v != Some(JNull) && TypeOf(v) == "object" && !IsArray(v)
  }

  /** `key` is a canonical array index: "0", or digits without a leading zero. */
  function ArrayIndex(key: string): (r: Option<nat>)
    ensures r.Some? ==> NatToString(r.value) == key
  {
    if key != [] && AllDigits(key) && (key == "0" || key[0] != '0') then
      PadDigits(key);
      CanonicalDigits(key);
      Some(DigitsValue(key))
    else None
  }

  lemma {:induction false} CanonicalDigits(key: string)
    requires key != [] && AllDigits(key) && (key == "0" || key[0] != '0')
    ensures NatToString(DigitsValue(key)) == key
  {
    if |key| == 1 {
      assert key[..0] == [];
    } else {
      var p := key[..|key| - 1];
      assert p[0] == key[0];
      CanonicalDigits(p);
      var n := DigitsValue(key);
      assert n / 10 == DigitsValue(p) && n % 10 == DigitValue(key[|key| - 1]);
      assert n >= 10 by {
        NonZeroLead(p);
      }
      assert key == p + [key[|key| - 1]];
    }
  }

  lemma {:induction false} NonZeroLead(p: string)
    requires p != [] && AllDigits(p) && p[0] != '0'
    ensures DigitsValue(p) >= 1
  {
    if |p| > 1 {
      NonZeroLead(p[..|p| - 1]);
    }
  }

  /** `v[key]`: reading a property. Reading from `undefined` or `null` throws
      a `TypeError`; a missing property is `undefined`. Arrays and strings
      have their indices and `length`; properties inherited from prototypes
      are not modelled. */
  function Get(v: Option<Json>, key: string): (r: Result<Option<Json>, Thrown>)
    ensures r.Failure? <==> v.None? || v == Some(JNull)
    ensures v.Some? && v.value.JObj? ==> r == Success(Find(v.value.fields, key))
  {
    match v
    case None => Failure(TypeError("Cannot read properties of undefined (reading '" + key + "')"))
    case Some(JNull) => Failure(TypeError("Cannot read properties of null (reading '" + key + "')"))
    case Some(JObj(fields)) => Success(Find(fields, key))
    case Some(JArr(items)) =>
      if key == "length" then Success(Some(JNum(Decimal(|items|, 0))))
      else
        var i := ArrayIndex(key);
        if i.Some? && i.value < |items| then Success(Some(items[i.value])) else Success(None)
    case Some(JStr(s)) =>
      if key == "length" then Success(Some(JNum(Decimal(|s|, 0))))
      else
        var i := ArrayIndex(key);
        if i.Some? && i.value < |s| then Success(Some(JStr([s[i.value]]))) else Success(None)
    case Some(_) => Success(None)
  }

  /** `Array.prototype.join(",")`, which is what an array converts to:
      `null` and `undefined` elements contribute "". */
  function Join(items: seq<Json>): string
    decreases items
  {
    if items == [] then ""
    else
      var part := if items[0].JNull? then "" else KeyOf(items[0]);
      if |items| == 1 then part else part + "," + Join(items[1..])
  }

  /** The property key a defined value converts to. */
  function KeyOf(v: Json): (k: string)
    ensures v.JStr? ==> k == v.s
    decreases v
  {
    match v
    case JNull => "null"
    case JBool(b) => if b then "true" else "false"
    case JNum(d) => NumberToString(d)
    case JStr(s) => s
    case JArr(items) => Join(items)
    case JObj(_) => "[object Object]"
  }

  /** The property key a value is converted to when used in `o[v]`. */
  function PropertyKey(v: Option<Json>): (k: string)
    ensures v.Some? && v.value.JStr? ==> k == v.value.s
    ensures v.None? ==> k == "undefined"
  {
    if v.None? then "undefined" else KeyOf(v.value)
  }
}
