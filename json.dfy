/**
 The JavaScript values that the auth handlers read from request bodies, from
 decoded tokens and from the JSON document, and the two JavaScript operations
 the handlers apply to them: strict equality (`===`) and truthiness (`!x`).
 */
module Json {

  /** A JavaScript value as it appears in a parsed JSON body or record.
      `Undefined` stands for a property that is absent; `Composite` for an
      object or an array, which `===` compares by reference. Its `text` is only
      a tag that keeps different objects apart in the model; no handler reads it. */
  datatype Value =
    | Undefined
    | Null
    | Bool(b: bool)
    | Num(n: real)
    | Str(s: string)
    | Composite(text: string)

  /** A JSON object: its own properties and their values. */
  type Record = map<string, Value>

  /** Property access `r.key`: `undefined` when the property is absent. */
  function Get(r: Record, key: string): Value
  {
    if key in r then r[key] else Undefined
  }

  /** Reading a property of a spread `{...a, ...b}` finds the last object that
      holds it: b's value when b has the key, and otherwise whatever a gives. */
  lemma GetSpread(a: Record, b: Record, key: string)
    ensures Get(a + b, key) == if key in b then b[key] else Get(a, key)
  {
  }

  /** `a === b` between a value stored in the document and a value parsed from
      the current request or token. Primitives compare by value; two objects or
      arrays that come from different parses are never the same reference. */
  predicate StrictEquals(a: Value, b: Value): (r: bool)
    ensures !a.Composite? && !b.Composite? ==> (r <==> a == b)
    ensures a.Composite? || b.Composite? ==> !r
  {
    !a.Composite? && a == b
  }

  /** JavaScript truthiness: `!v` is `!Truthy(v)`. */
  predicate Truthy(v: Value): (r: bool)
    ensures !r <==> v in {Undefined, Null, Bool(false), Num(0.0), Str("")}
  {
    match v
    case Undefined => false
    case Null => false
    case Bool(b) => b
    case Num(n) => n != 0.0
    case Str(s) => s != ""
    case Composite(_) => true
  }

  /** Between primitives `===` is an equivalence: symmetric and transitive,
      and reflexive on everything but objects and arrays. */
  lemma StrictEqualsEquivalence(a: Value, b: Value, c: Value)
    ensures StrictEquals(a, a) <==> !a.Composite?
    ensures StrictEquals(a, b) ==> StrictEquals(b, a)
    ensures StrictEquals(a, b) && StrictEquals(b, c) ==> StrictEquals(a, c)
  {
  }
}
