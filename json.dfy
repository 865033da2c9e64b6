/** The JSON values that `JSON.parse` produces and the few JavaScript operations the
    protocol applies to them: truthiness, property read, the `in` operator and
    template-literal interpolation. */
module Json {
  import opened Wrappers
  import opened Text

  /** A parsed JSON value. Numbers are restricted to integers; an object is the map
      from its own keys to their values (a later duplicate key wins, as in `JSON.parse`). */
  datatype Value =
    | JNull
    | JBool(b: bool)
    | JNum(n: int)
    | JStr(s: string)
    | JArr(items: seq<Value>)
    | JObj(fields: map<string, Value>)

  /** JavaScript truthiness: `null`, `false`, `0` and `""` are falsy; every array and
      every object, even an empty one, is truthy. */
  predicate Truthy(v: Value) {
    match v
    case JNull => false
    case JBool(b) => b
    case JNum(n) => n != 0
    case JStr(s) => s != []
    case JArr(_) => true
    case JObj(_) => true
  }

  /** `v.name`: the own property of an object, `undefined` (None) on every other value. */
  function Property(v: Value, name: string): (r: Option<Value>)
    ensures r.Some? <==> v.JObj? && name in v.fields
    ensures r.Some? ==> r.value == v.fields[name]
  {
    if v.JObj? && name in v.fields then Some(v.fields[name]) else None
  }

  /** The own keys of an array of length `n`: its canonical indices and `length`. */
  predicate IsArrayKey(key: string, n: nat) {
    key == "length" || exists i: nat :: i < n && NatToString(i) == key
  }

  /** `key in v`. Objects and arrays answer by own-key membership; any other value makes
      JavaScript throw a `TypeError`. */
  function HasKey(v: Value, key: string): (r: Outcome<bool>)
    ensures r.TypeError? <==> !(v.JObj? || v.JArr?)
    ensures v.JObj? ==> r == Normal(key in v.fields)
  {
    match v
    case JObj(fields) => Normal(key in fields)
    case JArr(items) => Normal(IsArrayKey(key, |items|))
    case _ => TypeError
  }

  /** `${v}`: how a template literal writes a value. A number is written in decimal, with a
      minus sign when negative, so that `parseInt` reads it back. */
  function Display(v: Value): (r: string)
    decreases v, 1
    ensures v.JNum? && 0 <= v.n ==>
      (forall i :: 0 <= i < |r| ==> IsDigit(r[i])) && r != [] && DigitsValue(r) == v.n
    ensures v.JNum? && v.n < 0 ==>
      2 <= |r| && r[0] == '-' && (forall i :: 0 <= i < |r[1..]| ==> IsDigit(r[1..][i])) && DigitsValue(r[1..]) == -v.n
  {
    match v
    case JNull => "null"
    case JBool(b) => if b then "true" else "false"
    case JNum(n) =>
      DigitsValueOfNatToString(if n < 0 then -n else n);
      if n < 0 then
        var ds := NatToString(-n);
        assert ("-" + ds)[1..] == ds;
        "-" + ds
      else NatToString(n)
    case JStr(s) => s
    case JArr(items) => JoinItems(items)
    case JObj(_) => "[object Object]"
  }

  /** `items.join(",")`, where a `null` element is written as the empty string. */
  function JoinItems(items: seq<Value>): string
    decreases items, 0
  {
    if items == [] then ""
    else
      var first := if items[0].JNull? then "" else Display(items[0]);
      if |items| == 1 then first else first + "," + JoinItems(items[1..])
  }
}
