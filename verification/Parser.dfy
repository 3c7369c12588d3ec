/** The recursive-descent parser as a function of the text and the cursor. */
module Parser {
  import opened Bytes
  import opened Json
  import opened Strings
  import N = Numbers

  datatype Result = Fail | Ok(value: Json, next: nat)

  const NULL_TEXT: Bytes := [110, 117, 108, 108]
  const TRUE_TEXT: Bytes := [116, 114, 117, 101]
  const FALSE_TEXT: Bytes := [102, 97, 108, 115, 101]

  /** `isspace` in the C locale. */
  predicate IsSpace(b: byte) {
    b == SPACE || 9 <= b <= 13
  }

  function SkipSpaces(s: Bytes, i: nat): (j: nat)
    requires i <= |s|
    ensures i <= j <= |s| && !IsSpace(At(s, j))
    ensures forall k | i <= k < j :: IsSpace(s[k])
    decreases |s| - i
  {
    if i < |s| && IsSpace(s[i]) then SkipSpaces(s, i + 1) else i
  }

  function ParseValue(s: Bytes, i: nat, nesting: nat): (r: Result)
    requires i <= |s|
    ensures r.Ok? ==> i <= r.next <= |s|
    decreases |s| - i, 1
  {
    if nesting > MAX_NESTING then Fail
    else
      var k := SkipSpaces(s, i);
      var c := At(s, k);
      if c == OPEN_BRACE then ParseObject(s, k, nesting + 1)
      else if c == OPEN_BRACKET then ParseArray(s, k, nesting + 1)
      else if k == |s| then Fail
      else ParseScalar(s, k)
  }

  /** The branches of `parse_value` that open no container. */
  function ParseScalar(s: Bytes, k: nat): (r: Result)
    requires k < |s|
    ensures r.Ok? ==> k <= r.next <= |s|
  {
    var c := s[k];
    if c == QUOTE then
      match GetQuoted(s, k)
      case None => Fail
      case Some(q) => Ok(Str(q.value), q.next)
    else if c == 102 || c == 116 then
      if Has(s, k, TRUE_TEXT) then Ok(Bool(true), k + 4)
      else if Has(s, k, FALSE_TEXT) then Ok(Bool(false), k + 5)
      else Fail
    else if c == MINUS || N.Digit(c) then
      match N.ParseNumber(s, k)
      case None => Fail
      case Some(n) => Ok(Number(n.value), n.next)
    else if c == 110 then
      if Has(s, k, NULL_TEXT) then Ok(Null, k + 4) else Fail
    else Fail
  }

  function ParseArray(s: Bytes, k: nat, nesting: nat): (r: Result)
    requires k < |s|
    ensures r.Ok? ==> k <= r.next <= |s|
    decreases |s| - k, 0
  {
    var i := SkipSpaces(s, k + 1);
    if At(s, i) == CLOSE_BRACKET then Ok(Array([]), i + 1) else ParseElements(s, i, nesting, [])
  }

  /** The loop of `parse_array_value`, with the elements added so far. */
  function ParseElements(s: Bytes, i: nat, nesting: nat, done: seq<Json>): (r: Result)
    requires i <= |s|
    ensures r.Ok? ==> i <= r.next <= |s|
    decreases |s| - i, 2
  {
    match ParseValue(s, i, nesting)
    case Fail => Fail
    case Ok(v, j) =>
      var k := SkipSpaces(s, j);
      if At(s, k) == COMMA then ParseElements(s, SkipSpaces(s, k + 1), nesting, done + [v])
      else if At(s, k) == CLOSE_BRACKET then Ok(Array(done + [v]), k + 1)
      else Fail
  }

  function ParseObject(s: Bytes, k: nat, nesting: nat): (r: Result)
    requires k < |s|
    ensures r.Ok? ==> k <= r.next <= |s|
    decreases |s| - k, 0
  {
    var i := SkipSpaces(s, k + 1);
    if At(s, i) == CLOSE_BRACE then Ok(Object([]), i + 1) else ParseMembers(s, i, nesting, [])
  }

  /** The loop of `parse_object_value`, with the members added so far. */
  function ParseMembers(s: Bytes, i: nat, nesting: nat, done: seq<Member>): (r: Result)
    requires i <= |s|
    ensures r.Ok? ==> i <= r.next <= |s|
    decreases |s| - i, 2
  {
    match GetQuoted(s, i)
    case None => Fail
    case Some(q) =>
      var colon := SkipSpaces(s, q.next);
      if At(s, colon) != COLON then Fail
      else
        match ParseValue(s, colon + 1, nesting)
        case Fail => Fail
        case Ok(v, j) =>
          if Lookup(done, q.value).Some? then Fail
          else
            var k := SkipSpaces(s, j);
            var all := done + [Member(q.value, v)];
            if At(s, k) == COMMA then ParseMembers(s, SkipSpaces(s, k + 1), nesting, all)
            else if At(s, k) == CLOSE_BRACE then Ok(Object(all), k + 1)
            else Fail
  }

  /** `json_parse_string`: skips a UTF-8 byte order mark, then parses one value. */
  function ParseString(s: Bytes): Result {
    ParseValue(s, if Has(s, 0, [0xEF, 0xBB, 0xBF]) then 3 else 0, 0)
  }
}
