/** The tree a `JSON_Value` stands for, and the invariants the library keeps about it. */
module Json {
  import opened Bytes
  import D = Doubles

  datatype Json =
    | Null
    | Bool(b: bool)
    | Number(value: real)
    | Str(text: Bytes)
    | Array(items: seq<Json>)
    | Object(members: seq<Member>)

  /** One entry of the parallel arrays `names` and `values`. */
  datatype Member = Member(name: Bytes, value: Json)

  predicate DistinctNames(ms: seq<Member>) {
    forall i, j | 0 <= i < j < |ms| :: ms[i].name != ms[j].name
  }

  /** `json_object_getn_value` finds the first entry with the name; this is its index, or the count. */
  function Find(ms: seq<Member>, name: Bytes): (i: nat)
    ensures i <= |ms| && (i < |ms| ==> ms[i].name == name)
    ensures forall k | 0 <= k < i :: ms[k].name != name
  {
    if ms == [] || ms[0].name == name then 0 else 1 + Find(ms[1..], name)
  }

  function Lookup(ms: seq<Member>, name: Bytes): (v: Option<Json>)
    ensures v.Some? ==> exists i | 0 <= i < |ms| :: ms[i] == Member(name, v.value)
    ensures v.None? <==> forall i | 0 <= i < |ms| :: ms[i].name != name
  {
    var i := Find(ms, name);
    if i < |ms| then Some(ms[i].value) else None
  }

  /** With distinct names, looking up the i-th name gives the i-th value. */
  lemma LookupByIndex(ms: seq<Member>, i: nat)
    requires DistinctNames(ms) && i < |ms|
    ensures Find(ms, ms[i].name) == i && Lookup(ms, ms[i].name) == Some(ms[i].value)
  {
  }

  /** Object names are distinct and strings are C strings, everywhere in the tree. */
  predicate WellFormed(v: Json) {
    match v
    case Str(t) => NulFree(t)
    case Array(items) => forall i | 0 <= i < |items| :: WellFormed(items[i])
    case Object(ms) =>
      DistinctNames(ms) && forall i | 0 <= i < |ms| :: NulFree(ms[i].name) && WellFormed(ms[i].value)
    case _ => true
  }

  const MAX_NESTING: nat := 2048

  /** No value stands inside more than `MAX_NESTING` containers, `nesting` of them outside `v`. */
  predicate Nests(v: Json, nesting: nat) {
    nesting <= MAX_NESTING &&
    match v
    case Array(items) => forall i | 0 <= i < |items| :: Nests(items[i], nesting + 1)
    case Object(ms) => forall i | 0 <= i < |ms| :: Nests(ms[i].value, nesting + 1)
    case _ => true
  }

  /** Every number is an integer that a double holds exactly, so that its printed form is plain decimal. */
  predicate IntegerNumbers(v: Json) {
    match v
    case Number(x) => D.Whole(x) && -D.TWO_53 <= x.Floor <= D.TWO_53
    case Array(items) => forall i | 0 <= i < |items| :: IntegerNumbers(items[i])
    case Object(ms) => forall i | 0 <= i < |ms| :: IntegerNumbers(ms[i].value)
    case _ => true
  }
}
