/**
 * The part of the JSON library the catalog relies on: parsed values and the
 * typed accessors `at(name)`, `value(name, default)`, `get<int>()`,
 * `get<std::string>()` and `get<bool>()` applied to members of an object.
 * Where an accessor throws, the model returns a `Failure`.
 */
module Json {
  import opened Wrappers

  /** The 32-bit C++ `int` that ids are held in. */
  newtype Int32 = x: int | -0x8000_0000 <= x < 0x8000_0000

  /**
   * A parsed JSON value. `JInt` is an integer the parser produced; the
   * parser only produces integers in the signed or unsigned 64-bit range, a
   * bound this type does not enforce. `JContainer` is an array or an object,
   * whose contents no accessor used here looks at. Floating-point numbers are not modelled.
   */
  datatype Value = JNull | JBool(b: bool) | JInt(i: int) | JString(s: string) | JContainer

  /** A parsed JSON object: member name to member value. */
  type Object = map<string, Value>

  /** Why an accessor threw: `at` on an absent member, or a value of another type. */
  datatype Error = MissingMember(name: string) | WrongType(name: string)

  /** Conversion of an integer to a 32-bit `int`: reduction modulo 2^32 into the signed range. */
  function ToInt32(n: int): (r: Int32)
    ensures -0x8000_0000 <= n < 0x8000_0000 ==> r as int == n
    ensures (n - r as int) % 0x1_0000_0000 == 0
  {
    ((n + 0x8000_0000) % 0x1_0000_0000 - 0x8000_0000) as Int32
  }

  /** `get<int>()`: integers are narrowed to 32 bits, booleans give 0 or 1, anything else throws. */
  function AsInt(v: Value, name: string): Result<Int32, Error> {
    match v
    case JInt(i) => Success(ToInt32(i))
    case JBool(b) => Success(if b then 1 else 0)
    case _ => Failure(WrongType(name))
  }

  /** `get<std::string>()`: only a string converts. */
  function AsString(v: Value, name: string): Result<string, Error> {
    if v.JString? then Success(v.s) else Failure(WrongType(name))
  }

  /** `get<bool>()`: only a boolean converts. */
  function AsBool(v: Value, name: string): Result<bool, Error> {
    if v.JBool? then Success(v.b) else Failure(WrongType(name))
  }

  /** `at(name)`: the member, or an out-of-range error when it is absent. */
  function At(j: Object, name: string): Result<Value, Error> {
    if name in j then Success(j[name]) else Failure(MissingMember(name))
  }

  /** `at(name).get<int>()`. */
  function IntAt(j: Object, name: string): (r: Result<Int32, Error>)
    ensures r.Success? <==> name in j && (j[name].JInt? || j[name].JBool?)
    ensures r.Failure? ==> r.error == if name in j then WrongType(name) else MissingMember(name)
    ensures r.Success? && j[name].JInt? ==> (j[name].i - r.value as int) % 0x1_0000_0000 == 0
    ensures r.Success? && j[name].JBool? ==> r.value == if j[name].b then 1 else 0
  {
    var v :- At(j, name);
    AsInt(v, name)
  }

  /** `at(name).get<std::string>()`. */
  function StringAt(j: Object, name: string): (r: Result<string, Error>)
    ensures r.Success? <==> name in j && j[name].JString?
    ensures r.Failure? ==> r.error == if name in j then WrongType(name) else MissingMember(name)
    ensures r.Success? ==> j[name] == JString(r.value)
  {
    var v :- At(j, name);
    AsString(v, name)
  }

  /** `value(name, default)` for a boolean: the default when the member is absent, `get<bool>()` otherwise. */
  function BoolOr(j: Object, name: string, default: bool): (r: Result<bool, Error>)
    ensures r.Success? <==> name !in j || j[name].JBool?
    ensures r.Failure? ==> r.error == WrongType(name)
    ensures r.Success? ==> r.value == if name in j then j[name].b else default
  {
    if name in j then AsBool(j[name], name) else Success(default)
  }
}
