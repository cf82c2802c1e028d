/** Values as the request handlers see them: a parsed JSON body, JavaScript's
    `undefined` for a missing property, and the two JavaScript conversions the
    handlers rely on (truthiness in a condition, and the string a template
    literal produces). */
module JsValues {

  datatype Option<T> = None | Some(value: T)

  /** A parsed JSON value. Numbers are modelled as integers. */
  datatype Json =
    | JNull
    | JBool(b: bool)
    | JNum(n: int)
    | JStr(s: string)
    | JArr(items: seq<Json>)
    | JObj(fields: map<string, Json>)

  /** A request body as the JSON body parser leaves it: the keys present and their values. */
  type Body = map<string, Json>

  /** Property access `obj[key]` on a plain object; `None` stands for `undefined`. */
  function Lookup(obj: map<string, Json>, key: string): Option<Json>
  {
    if key in obj then Some(obj[key]) else None
  }

  /** Property access `v.key` on a JSON value that is not `null` (on `null` it throws).
      Strings, numbers, booleans and arrays have no own property of the names read here. */
  function Property(v: Json, key: string): (r: Option<Json>)
    requires !v.JNull?
    ensures r.Some? ==> v.JObj? && key in v.fields && r.value == v.fields[key]
    ensures v.JObj? && key in v.fields ==> r.Some?
  {
    match v
    case JObj(fields) => Lookup(fields, key)
    case _ => None
  }

  /** JavaScript truthiness of a value in a condition. */
  predicate Truthy(v: Option<Json>)
  {
    match v
    case None => false
    case Some(j) =>
      match j
      case JNull => false
      case JBool(b) => b
      case JNum(n) => n != 0
      case JStr(s) => s != ""
      case JArr(_) => true
      case JObj(_) => true
  }

  /** `s === v` for a string `s`: only the identical string is strictly equal to it. */
  predicate StrictEqualsString(s: string, v: Option<Json>)
  {
    v == Some(JStr(s))
  }

  function DigitChar(d: nat): char
    requires d < 10
  {
    "0123456789"[d]
  }

  /** Decimal notation of a natural number, most significant digit first. */
  function NatToDecimal(n: nat): (r: string)
    ensures |r| >= 1
    ensures forall i :: 0 <= i < |r| ==> '0' <= r[i] <= '9'
    decreases n
  {
    if n < 10 then [DigitChar(n)] else NatToDecimal(n / 10) + [DigitChar(n % 10)]
  }

  function IntToDecimal(n: int): string
  {
    if n < 0 then "-" + NatToDecimal(-n) else NatToDecimal(n)
  }

  /** `Array.prototype.join` with the default separator. */
  function JoinWithCommas(parts: seq<string>): string
  {
    if |parts| == 0 then ""
    else if |parts| == 1 then parts[0]
    else parts[0] + "," + JoinWithCommas(parts[1..])
  }

  /** Whether `String(j)` throws. A parsed object with an own `toString` key holds
      data there rather than a function, so the conversion finds neither a callable
      `toString` nor a `valueOf` that yields a primitive and throws a `TypeError`; an
      array throws when joining one of its elements does. */
  predicate ToStringThrows(j: Json)
    decreases j
  {
    match j
    case JObj(fields) => "toString" in fields
    case JArr(items) => exists i :: 0 <= i < |items| && ToStringThrows(items[i])
    case _ => false
  }

  /** `String(j)` for a JSON value, `None` when the conversion throws: arrays join
      their elements (a `null` element becomes the empty string), and objects
      without an own `toString` key print as `[object Object]`. */
  function JsonToString(j: Json): (r: Option<string>)
    ensures r.None? <==> ToStringThrows(j)
    ensures j.JStr? ==> r == Some(j.s)
    ensures j.JObj? && !ToStringThrows(j) ==> r == Some("[object Object]")
    decreases j
  {
    match j
    case JNull => Some("null")
    case JBool(b) => Some(if b then "true" else "false")
    case JNum(n) => Some(IntToDecimal(n))
    case JStr(s) => Some(s)
    case JArr(items) =>
      var parts := seq(|items|, i requires 0 <= i < |items| =>
        if items[i].JNull? then Some("") else JsonToString(items[i]));
      if exists i :: 0 <= i < |parts| && parts[i].None? then None
      else
        assert forall i :: 0 <= i < |items| ==> !ToStringThrows(items[i]) by {
          forall i | 0 <= i < |items| ensures !ToStringThrows(items[i]) {
            assert parts[i].Some?;
          }
        }
        Some(JoinWithCommas(seq(|parts|, i requires 0 <= i < |parts| => parts[i].value)))
    case JObj(fields) => if "toString" in fields then None else Some("[object Object]")
  }

  /** What `${v}` inserts into a template literal, `undefined` included; `None`
      when the conversion throws. */
  function Interpolate(v: Option<Json>): (r: Option<string>)
    ensures r.None? <==> v.Some? && ToStringThrows(v.value)
    ensures v.Some? && v.value.JStr? ==> r == Some(v.value.s)
    ensures v.None? ==> r == Some("undefined")
  {
    match v
    case None => Some("undefined")
    case Some(j) => JsonToString(j)
  }
}
