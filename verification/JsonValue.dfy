// The trees that cJSON items stand for.
module JsonValue {
  import opened Bytes

  datatype Value =
    | Null
    | False
    | True
    | Number(n: int)
    | String(text: bytes)
    | Array(items: seq<Value>)
    | Object(members: seq<Member>)

  datatype Member = Member(key: bytes, value: Value)

  const NESTING_LIMIT: nat := 1000

  // Numbers fit a C int; texts and keys are C strings (no NUL byte).
  predicate WellFormed(v: Value) {
    match v
    case Number(n) => INT_MIN <= n <= INT_MAX
    case String(t) => 0 !in t
    case Array(items) => forall i :: 0 <= i < |items| ==> WellFormed(items[i])
    case Object(ms) => forall i :: 0 <= i < |ms| ==> 0 !in ms[i].key && WellFormed(ms[i].value)
    case _ => true
  }

  function Max(a: nat, b: nat): nat {
    if a < b then b else a
  }

  // How many arrays and objects enclose the most deeply nested spot of v.
  function Nesting(v: Value): nat
    decreases v, 0
  {
    match v
    case Array(items) => 1 + NestingOfItems(items)
    case Object(ms) => 1 + NestingOfMembers(ms)
    case _ => 0
  }

  function NestingOfItems(items: seq<Value>): nat
    decreases items, 1
  {
    if items == [] then 0 else Max(Nesting(items[0]), NestingOfItems(items[1..]))
  }

  function NestingOfMembers(ms: seq<Member>): nat
    decreases ms, 1
  {
    if ms == [] then 0 else Max(Nesting(ms[0].value), NestingOfMembers(ms[1..]))
  }
}
