/** Parsed YAML and JSON documents, as JavaScript sees them. */
module JsTree {
  import opened Wrappers

  /** A field of an object and its value. An object lists its fields in JavaScript's order of keys. */
  datatype Field = Field(key: string, value: Json)

  datatype Json =
    | Null
    | Bool(truth: bool)
    | Num(number: real)
    | Str(text: string)
    | Arr(items: seq<Json>)
    | Obj(fields: seq<Field>)

  predicate DistinctKeys(fields: seq<Field>) {
    forall i, j | 0 <= i < j < |fields| :: fields[i].key != fields[j].key
  }

  /** No object has a key twice. */
  predicate WellFormed(j: Json) {
    match j
    case Arr(items) => forall x | x in items :: WellFormed(x)
    case Obj(fields) => DistinctKeys(fields) && forall f | f in fields :: WellFormed(f.value)
    case _ => true
  }

  function Keys(fields: seq<Field>): set<string> {
    set f | f in fields :: f.key
  }

  /** The value of a field; none when it is undefined. */
  function Lookup(fields: seq<Field>, key: string): (value: Option<Json>)
    ensures value.Some? ==> Field(key, value.value) in fields
    ensures value.None? ==> key !in Keys(fields)
  {
    if fields == [] then None
    else if fields[0].key == key then Some(fields[0].value)
    else Lookup(fields[1..], key)
  }

  function Get(j: Json, key: string): (value: Option<Json>)
    ensures value.Some? ==> j.Obj? && Field(key, value.value) in j.fields
  {
    if j.Obj? then Lookup(j.fields, key) else None
  }

  predicate Truthy(j: Json) {
    match j
    case Null => false
    case Bool(truth) => truth
    case Num(number) => number != 0.0
    case Str(text) => text != ""
    case _ => true
  }

  function OrNull(value: Option<Json>): Json {
    if value.Some? then value.value else Null
  }

  /** The `services` of a compose document, when they are an object. */
  function Services(resolved: Option<Json>): (services: Option<Json>)
    ensures services.Some? ==> resolved.Some? && services.value.Obj?
  {
    if resolved.None? then None
    else if Get(resolved.value, "services").Some? && Get(resolved.value, "services").value.Obj?
    then Get(resolved.value, "services")
    else None
  }
}
