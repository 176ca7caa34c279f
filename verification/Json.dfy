/** JSON values as the Python loader delivers them, and the equalities the tools use on them. */
module Json {
  /** Integers and floating-point numbers are different Python objects, so they are kept apart. */
  datatype Json =
    | Null
    | Bool(flag: bool)
    | Int(number: int)
    | Float(value: real)
    | Str(text: string)
    | Arr(items: seq<Json>)
    | Obj(members: map<string, Json>)

  /**
   * A normal form for Python's `==` on loaded documents: `True`, `1` and `1.0` are equal there, and
   * so are containers whose contents are.
   */
  function Normal(v: Json): Json
  {
    match v
    case Bool(flag) => Float(if flag then 1.0 else 0.0)
    case Int(n) => Float(n as real)
    case Arr(items) => Arr(seq(|items|, i requires 0 <= i < |items| => Normal(items[i])))
    case Obj(m) => Obj(map k | k in m :: Normal(m[k]))
    case _ => v
  }

  /** Python's `==` */
  predicate PyEqual(a: Json, b: Json) { Normal(a) == Normal(b) }

  /** A normal form for equality of JSON values as JSON Schema uses it: numbers by value, booleans apart. */
  function Numeric(v: Json): Json
  {
    match v
    case Int(n) => Float(n as real)
    case Arr(items) => Arr(seq(|items|, i requires 0 <= i < |items| => Numeric(items[i])))
    case Obj(m) => Obj(map k | k in m :: Numeric(m[k]))
    case _ => v
  }

  predicate JsonEqual(a: Json, b: Json) { Numeric(a) == Numeric(b) }

  predicate IsScalar(v: Json) { !v.Arr? && !v.Obj? }

  predicate IsNumber(v: Json) { v.Int? || v.Float? }

  /** On scalars, Python's equality differs from JSON's only between a boolean and a number. */
  lemma ScalarEqualities(a: Json, b: Json)
    requires IsScalar(a)
    ensures PyEqual(a, b) <==> JsonEqual(a, b) || BooleanAsNumber(a, b) || BooleanAsNumber(b, a)
  {
  }

  predicate BooleanAsNumber(a: Json, b: Json) {
    a.Bool? && IsNumber(b) && PyEqual(a, b)
  }
}
