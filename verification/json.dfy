/**
 * The JavaScript values that JSON.parse can produce, and the two
 * JavaScript operations the build applies to them: truthiness (`x || y`)
 * and object spread (`{ ...x }`).
 */
module Json {
  datatype Value =
    | Null
    | Bool(b: bool)
    | Num(n: real)
    | Str(s: string)
    | Arr(items: seq<Value>)
    | Obj(fields: map<string, Value>)

  const EmptyObject: Value := Obj(map[])

  /** JavaScript truthiness: null, false, 0 and "" are falsy; arrays and objects are truthy. */
  predicate Truthy(v: Value) {
    match v
    case Null => false
    case Bool(b) => b
    case Num(n) => n != 0.0
    case Str(s) => s != ""
    case Arr(_) => true
    case Obj(_) => true
  }

  /** A non-empty string of decimal digits: the shape of every array-index key. */
  predicate IsIndexKey(k: string) {
    k != [] && forall i :: 0 <= i < |k| ==> '0' <= k[i] <= '9'
  }

  /** Decimal spelling of an array index, the property key JavaScript gives it. */
  function IndexKey(n: nat): (k: string)
    ensures IsIndexKey(k)
  {
    var digit := ['0' + (n % 10) as char];
    if n < 10 then digit else IndexKey(n / 10) + digit
  }

  /** The own enumerable properties of an array-like value: index i maps to vals[i]. */
  function Indexed(vals: seq<Value>): (m: map<string, Value>)
    ensures forall k :: k in m ==> IsIndexKey(k)
    ensures vals == [] ==> m == map[]
  {
    if vals == [] then map[]
    else Indexed(vals[..|vals| - 1])[IndexKey(|vals| - 1) := vals[|vals| - 1]]
  }

  /**
   * The keys `{ ...v }` copies from v: an object contributes its fields,
   * a string its characters and an array its elements (each under its
   * decimal index), and null, booleans and numbers contribute nothing.
   */
  function Spread(v: Value): (m: map<string, Value>)
    ensures v.Obj? ==> m == v.fields
    ensures v.Null? || v.Bool? || v.Num? ==> m == map[]
    ensures (v.Str? && v.s == []) || (v.Arr? && v.items == []) ==> m == map[]
    ensures !v.Obj? ==> forall k :: k in m ==> IsIndexKey(k)
  {
    match v
    case Obj(fields) => fields
    case Str(s) => Indexed(seq(|s|, i requires 0 <= i < |s| => Str([s[i]])))
    case Arr(items) => Indexed(items)
    case _ => map[]
  }
}
