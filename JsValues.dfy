// The JavaScript values that flow through the pipeline: what JSON.parse
// returns for the model's reply, with the few language operations the core
// applies to them (property read, truthiness, String(), Array.join, trim)
// and the shapes shared by the extractors and the HTTP handlers.
module JsValues {
  import opened Wrappers
  import opened Decimals

  /** A JavaScript value as JSON.parse can produce it (plus undefined). */
  datatype JsValue =
    | Undefined
    | Null
    | Bool(b: bool)
    | Num(n: Decimal)
    | Str(s: string)
    | Arr(items: seq<JsValue>)
    | Obj(fields: map<string, JsValue>)

  predicate IsNullish(v: JsValue)
  {
    v.Null? || v.Undefined?
  }

  /**
   * v.key (or v[key]) for a v that is neither null nor undefined: an own
   * property of an object, and undefined for every other kind of value
   * (the names read by the core are not properties of strings, numbers,
   * booleans or arrays).
   */
  function Get(v: JsValue, key: string): JsValue
  {
    if v.Obj? && key in v.fields then v.fields[key] else Undefined
  }

  /** v?.key: like Get, and undefined when v is null or undefined. */
  function GetOptional(v: JsValue, key: string): JsValue
  {
    if IsNullish(v) then Undefined else Get(v, key)
  }

  /** The TypeError V8 throws for reading a property of null or undefined. */
  function PropertyReadError(base: JsValue, key: string): string
    requires IsNullish(base)
  {
    "Cannot read properties of " + (if base.Null? then "null" else "undefined")
      + " (reading '" + key + "')"
  }

  /** JavaScript truthiness (ToBoolean); NaN is not modelled. */
  predicate Truthy(v: JsValue)
  {
    match v
    case Undefined => false
    case Null => false
    case Bool(b) => b
    case Num(n) => n.mantissa != 0
    case Str(s) => s != []
    case Arr(_) => true
    case Obj(_) => true
  }

  /** Array.prototype.join: the parts separated by sep. */
  function Join(parts: seq<string>, sep: string): string
  {
    if |parts| == 0 then ""
    else if |parts| == 1 then parts[0]
    else parts[0] + sep + Join(parts[1..], sep)
  }

  /** The TypeError V8 throws when String() finds no callable toString or valueOf on an object. */
  const ToPrimitiveError := "Cannot convert object to primitive value"

  /**
   * String(v) does not throw. JSON.parse makes every key an own property, so
   * an object with a "toString" key hides Object.prototype.toString behind
   * a value that cannot be called, and the valueOf that String() tries next
   * answers the object itself. An array prints through its elements.
   */
  predicate Printable(v: JsValue)
    decreases v
  {
    match v
    case Arr(items) => forall i :: 0 <= i < |items| ==> Printable(items[i])
    case Obj(fields) => "toString" !in fields
    case _ => true
  }

  /**
   * The text String(v) gives when it does not throw. Arrays print as their
   * elements joined by "," with null and undefined elements printed as
   * empty; plain objects print as "[object Object]".
   */
  function Printed(v: JsValue): string
    decreases v
  {
    match v
    case Undefined => "undefined"
    case Null => "null"
    case Bool(b) => if b then "true" else "false"
    case Num(n) => NumberText(n)
    case Str(s) => s
    case Arr(items) =>
      Join(seq(|items|, i requires 0 <= i < |items| =>
                 if IsNullish(items[i]) then "" else Printed(items[i])), ",")
    case Obj(_) => "[object Object]"
  }

  /** JavaScript's String(v): the printed text, or the TypeError it throws. */
  function ToString(v: JsValue): (r: Result<string, string>)
    ensures r.Ok? <==> Printable(v)
    ensures r.Ok? ==> r.value == Printed(v)
    ensures r.Err? ==> r.error == ToPrimitiveError
  {
    if Printable(v) then Ok(Printed(v)) else Err(ToPrimitiveError)
  }

  /** WhiteSpace and LineTerminator code points, as String.prototype.trim strips them. */
  predicate IsJsWhitespace(ch: char)
  {
    var c := ch as int;
    c == 0x09 || c == 0x0A || c == 0x0B || c == 0x0C || c == 0x0D || c == 0x20
    || c == 0xA0 || c == 0x1680 || (0x2000 <= c <= 0x200A) || c == 0x2028 || c == 0x2029
    || c == 0x202F || c == 0x205F || c == 0x3000 || c == 0xFEFF
  }

  /** Number of whitespace characters at the start of s. */
  function LeadingSpace(s: string): (n: nat)
    ensures n <= |s|
    ensures forall i :: 0 <= i < n ==> IsJsWhitespace(s[i])
    ensures n < |s| ==> !IsJsWhitespace(s[n])
  {
    if s != [] && IsJsWhitespace(s[0]) then 1 + LeadingSpace(s[1..]) else 0
  }

  /** Number of whitespace characters at the end of s. */
  function TrailingSpace(s: string): (n: nat)
    ensures n <= |s|
    ensures forall i :: |s| - n <= i < |s| ==> IsJsWhitespace(s[i])
    ensures n < |s| ==> !IsJsWhitespace(s[|s| - 1 - n])
  {
    if s != [] && IsJsWhitespace(s[|s| - 1]) then 1 + TrailingSpace(s[..|s| - 1]) else 0
  }

  /**
   * Where String.prototype.trim cuts s: everything before the first bound and
   * from the second bound on is whitespace, and what lies between neither
   * starts nor ends with whitespace.
   */
  function TrimBounds(s: string): (r: (nat, nat))
    ensures r.0 <= r.1 <= |s|
    ensures forall i :: 0 <= i < r.0 ==> IsJsWhitespace(s[i])
    ensures forall i :: r.1 <= i < |s| ==> IsJsWhitespace(s[i])
    ensures r.0 < r.1 ==> !IsJsWhitespace(s[r.0]) && !IsJsWhitespace(s[r.1 - 1])
  {
    var a := LeadingSpace(s);
    var t := TrailingSpace(s[a..]);
    (a, |s| - t)
  }

  /** String.prototype.trim. */
  function Trim(s: string): string
  {
    s[TrimBounds(s).0..TrimBounds(s).1]
  }

  /** Array.isArray(v) ? v : [] */
  function ArrayOrEmpty(v: JsValue): (r: seq<JsValue>)
    ensures v.Arr? ==> r == v.items
    ensures !v.Arr? ==> r == []
  {
    if v.Arr? then v.items else []
  }

  /** Array.isArray(data?.transactions) ? data.transactions : [] (also [] when data is null). */
  function RawTransactions(data: JsValue): seq<JsValue>
  {
    ArrayOrEmpty(GetOptional(data, "transactions"))
  }

  /** What an extractor returns: { success, count, transactions } or { success: false, error }. */
  datatype ExtractionResult<T> =
    | Succeeded(count: nat, transactions: seq<T>)
    | Failed(error: string)

  /**
   * The outcome of the chat-completion call: the call threw (network,
   * quota, ...) with a message, or it answered, with the first choice's
   * message content present or absent.
   */
  datatype Completion =
    | CallFailed(message: string)
    | Reply(content: Option<string>)
}
