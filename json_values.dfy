/** Parsed JSON values as the lint-mapping script reads them
    (packages/styles/scripts/generate-lint-mappings.js).

    An object is a sequence of key/value pairs in the order `Object.entries`
    visits them. A number carries its source text and whether it is zero,
    which is all the script looks at (its truthiness). */
module JsonValues {
  import opened Wrappers
  import opened Strings
  import opened Collections

  datatype Json =
    | JNull
    | JBool(b: bool)
    | JNum(text: string, isZero: bool)
    | JStr(s: string)
    | JArr(items: seq<Json>)
    | JObj(fields: Dict<string, Json>)

  /** JavaScript truthiness of a present value. */
  predicate Truthy(j: Json) {
    match j
    case JNull => false
    case JBool(b) => b
    case JNum(_, isZero) => !isZero
    case JStr(s) => s != ""
    case JArr(_) => true
    case JObj(_) => true
  }

  /** Truthiness of a value that may be `undefined`. */
  predicate TruthyOpt(o: Option<Json>) {
    o.Some? && Truthy(o.value)
  }

  /** `typeof j === 'object'`, which holds for `null` and arrays too. */
  predicate IsObjectType(j: Json) {
    j.JNull? || j.JArr? || j.JObj?
  }

  /** `j[k]` on a value that is not `null`: an object's own property, and
      `undefined` for the properties the script reads on anything else. */
  function Prop(j: Json, k: string): Option<Json>
    requires !j.JNull?
  {
    if j.JObj? then Get(j.fields, k) else None
  }

  /** `o?.[k]`: `undefined` when `o` is `null` or `undefined`. */
  function OptProp(o: Option<Json>, k: string): Option<Json> {
    if o.None? || o.value.JNull? then None else Prop(o.value, k)
  }

  /** `j[k]` on a value that may be `null`, which throws. */
  function Member(j: Json, k: string): Result<Option<Json>, string> {
    if j.JNull? then Failure("TypeError") else Success(Prop(j, k))
  }

  /** `v.toLowerCase()`: only strings have the method. */
  function LowerValue(v: Json): (r: Result<string, string>)
    ensures r.Success? <==> v.JStr?
    ensures r.Success? ==> IsLower(r.value) && |r.value| == |v.s|
    ensures r.Success? ==> r.value == Lower(v.s)
  {
    match v
    case JStr(s) => LowerIsLower(s); Success(Lower(s))
    case _ => Failure("TypeError")
  }

  function DigitChar(d: nat): char
    requires d < 10
  {
    "0123456789"[d]
  }

  /** The decimal text of an array index, the key `Object.entries` gives it. */
  function IndexKey(n: nat): (r: string)
    ensures |r| >= 1
    ensures forall i :: 0 <= i < |r| ==> '0' <= r[i] <= '9'
  {
    if n < 10 then [DigitChar(n)] else IndexKey(n / 10) + [DigitChar(n % 10)]
  }
}
