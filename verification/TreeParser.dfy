/**
 * The recursive-descent parser on blocks: the same results and cursors as the function `ParseValue`
 * unless an allocation fails, and no block left behind when it returns null.
 */
module TreeParser {
  import opened Bytes
  import opened Strings
  import opened Json
  import opened Memory
  import opened StringReader
  import opened Heap
  import opened Release
  import opened Arrays
  import opened Objects
  import opened Parser
  import N = Numbers

  /** A result in new blocks that agrees with `spec`, or null with every block freed again. */
  twostate predicate Parsed(mem: Mem, new v: Value?, next: nat, spec: Result)
    reads mem, v, if v == null then {} else v.repr
  {
    if v == null then mem.live == old(mem.live) && (spec.Fail? || mem.FailedSince(old(mem.requests)))
    else spec.Ok? && next == spec.next && Built(mem, v, spec.value)
  }

  /** `SKIP_WHITESPACES`. */
  method SkipWhitespaces(s: Bytes, pos: nat) returns (next: nat)
    requires pos <= |s|
    ensures next == SkipSpaces(s, pos)
  {
    next := pos;
    while IsSpace(At(s, next))
      invariant pos <= next <= |s| && SkipSpaces(s, next) == SkipSpaces(s, pos)
      decreases |s| - next
    {
      next := next + 1;
    }
  }

  /** `parse_value`. */
  method ReadValue(mem: Mem, s: Bytes, pos: nat, nesting: nat) returns (v: Value?, next: nat)
    requires NulFree(s) && pos <= |s|
    modifies mem
    ensures mem.requests >= old(mem.requests) && next <= |s|
    ensures Parsed(mem, v, next, ParseValue(s, pos, nesting))
    decreases |s| - pos, 1
  {
    hide ParseScalar, ParseArray, ParseObject, SkipSpaces, Value.Valid;
    if nesting > MAX_NESTING {
      return null, pos;
    }
    next := SkipWhitespaces(s, pos);
    if At(s, next) == OPEN_BRACE {
      v, next := ReadObject(mem, s, next, nesting + 1);
    } else if At(s, next) == OPEN_BRACKET {
      v, next := ReadArray(mem, s, next, nesting + 1);
    } else if At(s, next) == NUL {
      return null, next;
    } else {
      v, next := ReadScalar(mem, s, next);
    }
  }

  /** The cases of `parse_value` that open no container. */
  method ReadScalar(mem: Mem, s: Bytes, pos: nat) returns (v: Value?, next: nat)
    requires NulFree(s) && pos < |s|
    modifies mem
    ensures mem.requests >= old(mem.requests) && next <= |s|
    ensures Parsed(mem, v, next, ParseScalar(s, pos))
  {
    hide N.ParseNumber, GetQuoted, Has, Value.Valid;
    next := pos;
    var c := s[pos];
    if c == QUOTE {
      v, next := ReadString(mem, s, pos);
    } else if c == 102 || c == 116 {
      v, next := ReadBoolean(mem, s, pos);
    } else if c == MINUS || N.Digit(c) {
      v, next := ReadNumber(mem, s, pos);
    } else if c == 110 {
      v, next := ReadNull(mem, s, pos);
    } else {
      v := null;
    }
  }

  /** `parse_string_value`. */
  method ReadString(mem: Mem, s: Bytes, pos: nat) returns (v: Value?, next: nat)
    requires NulFree(s) && pos < |s|
    modifies mem
    ensures mem.requests >= old(mem.requests) && next <= |s|
    ensures Parsed(mem, v, next,
                   match GetQuoted(s, pos) case None => Fail case Some(q) => Ok(Str(q.value), q.next))
  {
    hide GetQuoted, CView, Value.Valid;
    v := null;
    var text;
    text, next := GetQuotedString(mem, s, pos);
    if text == null {
      return;
    }
    v := InitStringNoCopy(mem, text);
    if v == null {
      mem.Free(text);
    }
  }

  /** `parse_boolean_value`. */
  method ReadBoolean(mem: Mem, s: Bytes, pos: nat) returns (v: Value?, next: nat)
    requires pos < |s|
    modifies mem
    ensures mem.requests >= old(mem.requests) && next <= |s|
    ensures Parsed(mem, v, next,
                   if Has(s, pos, TRUE_TEXT) then Ok(Bool(true), pos + 4)
                   else if Has(s, pos, FALSE_TEXT) then Ok(Bool(false), pos + 5) else Fail)
  {
    hide Value.Valid;
    v, next := null, pos;
    if Has(s, pos, TRUE_TEXT) {
      next := next + 4;
      v := InitScalar(mem, PBoolean(true), Bool(true));
    } else if Has(s, pos, FALSE_TEXT) {
      next := next + 5;
      v := InitScalar(mem, PBoolean(false), Bool(false));
    }
  }

  /** `parse_number_value`. */
  method ReadNumber(mem: Mem, s: Bytes, pos: nat) returns (v: Value?, next: nat)
    requires pos < |s|
    modifies mem
    ensures mem.requests >= old(mem.requests) && next <= |s|
    ensures Parsed(mem, v, next,
                   match N.ParseNumber(s, pos) case None => Fail case Some(n) => Ok(Number(n.value), n.next))
  {
    hide N.ParseNumber, Value.Valid;
    v, next := null, pos;
    var number := N.ParseNumber(s, pos);
    if number.Some? {
      next := number.value.next;
      v := InitScalar(mem, PNumber(number.value.value), Number(number.value.value));
    }
  }

  /** `parse_null_value`. */
  method ReadNull(mem: Mem, s: Bytes, pos: nat) returns (v: Value?, next: nat)
    requires pos < |s|
    modifies mem
    ensures mem.requests >= old(mem.requests) && next <= |s|
    ensures Parsed(mem, v, next, if Has(s, pos, NULL_TEXT) then Ok(Null, pos + 4) else Fail)
  {
    hide Value.Valid;
    v, next := null, pos;
    if Has(s, pos, NULL_TEXT) {
      next := next + 4;
      v := InitScalar(mem, PNull, Null);
    }
  }

  /** The end of `parse_array_value`: the closing bracket, and the array trimmed to its count. */
  method FinishArray(mem: Mem, s: Bytes, pos: nat, a: ArrayBlock) returns (ok: bool)
    requires pos <= |s| && Holds(mem, a.wrapper) && a.wrapper.payload == PArray(a)
    requires a.wrapper.tree.Array? && (At(s, pos) == CLOSE_BRACKET ==> a.wrapper.tree.items != [])
    modifies mem, a, a.wrapper`tree, a.wrapper`repr, a.wrapper`kids, a.wrapper`feet
    ensures mem.requests >= old(mem.requests)
    ensures ok ==> At(s, pos) == CLOSE_BRACKET && Holds(mem, a.wrapper) && a.wrapper.tree == old(a.wrapper.tree)
    ensures ok ==> mem.live == old(Outside(mem, a.wrapper)) + a.wrapper.repr
    ensures ok ==> fresh(a.wrapper.repr - old(a.wrapper.repr)) && a.capacity == a.count
    ensures !ok ==> mem.live == old(Outside(mem, a.wrapper))
    ensures !ok ==> At(s, pos) != CLOSE_BRACKET || mem.FailedSince(old(mem.requests))
  {
    hide Union, Disjoint, WellFormed, Value.Valid, Value.Linked, Value.Owns;
    ArrayPieces(a.wrapper, a);
    if At(s, pos) != CLOSE_BRACKET {
      Free(mem, a.wrapper);
      return false;
    }
    ok := Resize(mem, a, a.count);
    if !ok {
      Free(mem, a.wrapper);
    }
  }

  /** One round of the loop: reads a value and adds it, or frees everything. */
  method ReadItem(mem: Mem, s: Bytes, pos: nat, nesting: nat, a: ArrayBlock) returns (ok: bool, next: nat)
    requires NulFree(s) && pos <= |s| && Holds(mem, a.wrapper) && a.wrapper.payload == PArray(a)
    modifies mem, a, Value.Maybe(a.items)
    modifies a.wrapper`tree, a.wrapper`repr, a.wrapper`kids, a.wrapper`feet
    ensures mem.requests >= old(mem.requests) && old(a.wrapper.tree.Array?) && next <= |s|
    ensures ok ==> var r := ParseValue(s, pos, nesting);
                   r.Ok? && next == r.next && a.wrapper.tree == Array(old(a.wrapper.tree).items + [r.value])
    ensures ok ==> Holds(mem, a.wrapper) && mem.live == old(Outside(mem, a.wrapper)) + a.wrapper.repr
    ensures ok ==> fresh(a.wrapper.repr - old(a.wrapper.repr))
    ensures !ok ==> mem.live == old(Outside(mem, a.wrapper))
    ensures !ok ==> ParseValue(s, pos, nesting).Fail? || mem.FailedSince(old(mem.requests))
    decreases |s| - pos, 2
  {
    hide Union, Disjoint, WellFormed, Value.Valid, Value.Linked, Value.Owns, ParseValue;
    ArrayPieces(a.wrapper, a);
    var item;
    item, next := ReadValue(mem, s, pos, nesting);
    if item == null {
      Free(mem, a.wrapper);
      return false, next;
    }
    ok := AddOrFree(mem, a, item);
  }

  lemma ElementsUnfold(s: Bytes, i: nat, nesting: nat, done: seq<Json>)
    requires i <= |s|
    ensures ParseElements(s, i, nesting, done) ==
            match ParseValue(s, i, nesting)
            case Fail => Fail
            case Ok(v, j) =>
              var k := SkipSpaces(s, j);
              if At(s, k) == COMMA then ParseElements(s, SkipSpaces(s, k + 1), nesting, done + [v])
              else if At(s, k) == CLOSE_BRACKET then Ok(Array(done + [v]), k + 1)
              else Fail
  {
    hide ParseValue, SkipSpaces;
  }

  /** Nothing is left to read at the end of the text. */
  lemma NothingAtEnd(s: Bytes, nesting: nat)
    ensures ParseValue(s, |s|, nesting) == Fail
    ensures forall done :: ParseElements(s, |s|, nesting, done) == Fail
  {
    assert SkipSpaces(s, |s|) == |s|;
  }

  /** The loop of `parse_array_value` and what follows it. */
  method ReadItems(mem: Mem, s: Bytes, pos: nat, nesting: nat, a: ArrayBlock) returns (ok: bool, next: nat)
    requires NulFree(s) && pos <= |s| && Holds(mem, a.wrapper) && a.wrapper.payload == PArray(a)
    requires a.wrapper.tree == Array([])
    modifies mem, a.wrapper.repr
    ensures mem.requests >= old(mem.requests) && next <= |s|
    ensures ok ==> ParseElements(s, pos, nesting, []) == Ok(a.wrapper.tree, next)
    ensures ok ==> Holds(mem, a.wrapper) && mem.live == old(Outside(mem, a.wrapper)) + a.wrapper.repr
    ensures ok ==> fresh(a.wrapper.repr - old(a.wrapper.repr)) && a.wrapper.parent == old(a.wrapper.parent)
    ensures !ok ==> mem.live == old(Outside(mem, a.wrapper))
    ensures !ok ==> ParseElements(s, pos, nesting, []).Fail? || mem.FailedSince(old(mem.requests))
    decreases |s| - pos, 3
  {
    hide Union, Disjoint, WellFormed, Value.Valid, Value.Linked, Value.Owns, ParseValue, ParseElements, SkipSpaces;
    var w := a.wrapper;
    ghost var spec := ParseElements(s, pos, nesting, []);
    ValidBasics(w);
    next := pos;
    while At(s, next) != NUL
      invariant next <= |s| && mem.requests >= old(mem.requests)
      invariant Holds(mem, w) && w in w.repr && w.payload == PArray(a) && w.parent == old(w.parent) && w.tree.Array?
      invariant mem.live == old(Outside(mem, w)) + w.repr && fresh(w.repr - old(w.repr))
      invariant spec == ParseElements(s, next, nesting, w.tree.items)
      decreases |s| - next
    {
      OwnBlocks(w);
      ElementsUnfold(s, next, nesting, w.tree.items);
      ok, next := ReadItem(mem, s, next, nesting, a);
      if !ok {
        return;
      }
      ValidBasics(w);
      next := SkipWhitespaces(s, next);
      if At(s, next) != COMMA {
        break;
      }
      next := SkipWhitespaces(s, next + 1);
    }
    NothingAtEnd(s, nesting);
    OwnBlocks(w);
    ok := FinishArray(mem, s, next, a);
    if ok {
      next := next + 1;
    }
  }

  /** `parse_array_value`, called on an opening bracket. */
  method ReadArray(mem: Mem, s: Bytes, pos: nat, nesting: nat) returns (v: Value?, next: nat)
    requires NulFree(s) && pos < |s| && s[pos] == OPEN_BRACKET
    modifies mem
    ensures mem.requests >= old(mem.requests) && next <= |s|
    ensures Parsed(mem, v, next, ParseArray(s, pos, nesting))
    decreases |s| - pos, 0
  {
    hide Union, Disjoint, WellFormed, Value.Valid, Value.Linked, Value.Owns, ParseElements, SkipSpaces;
    next := pos;
    v := InitArray(mem);
    if v == null {
      return;
    }
    ArrayPieces(v, v.payload.elements);
    next := SkipWhitespaces(s, next + 1);
    if At(s, next) == CLOSE_BRACKET {
      next := next + 1;
      return;
    }
    var ok;
    ok, next := ReadItems(mem, s, next, nesting, v.payload.elements);
    if !ok {
      v := null;
    }
  }

  /** The name of an entry, with the cursor behind its colon. */
  function NameAt(s: Bytes, i: nat): (r: Option<Quoted>)
    requires i <= |s|
    ensures r.Some? ==> i < r.value.next <= |s| && NulFree(r.value.value)
  {
    match GetQuoted(s, i)
    case None => None
    case Some(q) =>
      var colon := SkipSpaces(s, q.next);
      if At(s, colon) == COLON then Some(Quoted(q.value, colon + 1)) else None
  }

  lemma MembersUnfold(s: Bytes, i: nat, nesting: nat, done: seq<Member>)
    requires i <= |s|
    ensures ParseMembers(s, i, nesting, done) ==
            match NameAt(s, i)
            case None => Fail
            case Some(q) =>
              match ParseValue(s, q.next, nesting)
              case Fail => Fail
              case Ok(v, j) =>
                if Lookup(done, q.value).Some? then Fail
                else
                  var k := SkipSpaces(s, j);
                  var all := done + [Member(q.value, v)];
                  if At(s, k) == COMMA then ParseMembers(s, SkipSpaces(s, k + 1), nesting, all)
                  else if At(s, k) == CLOSE_BRACE then Ok(Object(all), k + 1)
                  else Fail
  {
    hide ParseValue, SkipSpaces, Lookup, GetQuoted;
  }

  lemma NoNameAtEnd(s: Bytes, nesting: nat)
    ensures forall done :: ParseMembers(s, |s|, nesting, done) == Fail
  {
  }

  /** Reads a name and its colon. */
  method ReadName(mem: Mem, s: Bytes, pos: nat) returns (key: CString?, next: nat)
    requires NulFree(s) && pos <= |s|
    modifies mem
    ensures mem.requests >= old(mem.requests) && next <= |s|
    ensures key == null ==> mem.live == old(mem.live) && (NameAt(s, pos).None? || mem.FailedSince(old(mem.requests)))
    ensures key != null ==> fresh(key) && mem.live == old(mem.live) + {key}
    ensures key != null ==> NameAt(s, pos) == Some(Quoted(CView(key.bytes), next))
  {
    hide GetQuoted, SkipSpaces, CView;
    key, next := GetQuotedString(mem, s, pos);
    if key == null {
      return;
    }
    next := SkipWhitespaces(s, next);
    if At(s, next) != COLON {
      mem.Free(key);
      return null, next;
    }
    next := next + 1;
  }

  /** One round of the loop: reads an entry and adds it, or frees everything. */
  method ReadEntry(mem: Mem, s: Bytes, pos: nat, nesting: nat, t: ObjectBlock) returns (ok: bool, next: nat)
    requires NulFree(s) && pos <= |s| && Holds(mem, t.wrapper) && t.wrapper.payload == PObject(t)
    modifies mem, t, Value.Maybe(t.names), Value.Maybe(t.values)
    modifies t.wrapper`tree, t.wrapper`repr, t.wrapper`kids, t.wrapper`keys, t.wrapper`feet
    ensures mem.requests >= old(mem.requests) && old(t.wrapper.tree.Object?) && next <= |s|
    ensures ok ==> NameAt(s, pos).Some? &&
                   var name, r := NameAt(s, pos).value, ParseValue(s, NameAt(s, pos).value.next, nesting);
                   r.Ok? && next == r.next && Lookup(old(t.wrapper.tree).members, name.value).None?
                   && t.wrapper.tree == Object(old(t.wrapper.tree).members + [Member(name.value, r.value)])
    ensures ok ==> Holds(mem, t.wrapper) && mem.live == old(Outside(mem, t.wrapper)) + t.wrapper.repr
    ensures ok ==> fresh(t.wrapper.repr - old(t.wrapper.repr))
    ensures !ok ==> mem.live == old(Outside(mem, t.wrapper))
    ensures !ok ==> mem.FailedSince(old(mem.requests)) || NameAt(s, pos).None?
                    || ParseValue(s, NameAt(s, pos).value.next, nesting).Fail?
                    || Lookup(old(t.wrapper.tree).members, NameAt(s, pos).value.value).Some?
    decreases |s| - pos, 2
  {
    hide Union, Disjoint, WellFormed, Value.Valid, Value.Linked, Value.Owns, ParseValue, NameAt, Lookup, Find, CView;
    ObjectPieces(t.wrapper, t);
    var key;
    key, next := ReadName(mem, s, pos);
    if key == null {
      Free(mem, t.wrapper);
      return false, next;
    }
    var child;
    child, next := ReadValue(mem, s, next, nesting);
    if child == null {
      mem.Free(key);
      Free(mem, t.wrapper);
      return false, next;
    }
    ok := AddOrFreeObject(mem, t, CView(key.bytes), child);
    mem.Free(key);
  }

  /** The end of `parse_object_value`: the closing brace, and the object trimmed to its count. */
  method FinishObject(mem: Mem, s: Bytes, pos: nat, t: ObjectBlock) returns (ok: bool)
    requires pos <= |s| && Holds(mem, t.wrapper) && t.wrapper.payload == PObject(t)
    requires t.wrapper.tree.Object? && (At(s, pos) == CLOSE_BRACE ==> t.wrapper.tree.members != [])
    modifies mem, t, t.wrapper`tree, t.wrapper`repr, t.wrapper`kids, t.wrapper`keys, t.wrapper`feet
    ensures mem.requests >= old(mem.requests)
    ensures ok ==> At(s, pos) == CLOSE_BRACE && Holds(mem, t.wrapper) && t.wrapper.tree == old(t.wrapper.tree)
    ensures ok ==> mem.live == old(Outside(mem, t.wrapper)) + t.wrapper.repr
    ensures ok ==> fresh(t.wrapper.repr - old(t.wrapper.repr)) && t.capacity == t.count
    ensures !ok ==> mem.live == old(Outside(mem, t.wrapper))
    ensures !ok ==> At(s, pos) != CLOSE_BRACE || mem.FailedSince(old(mem.requests))
  {
    hide Union, Disjoint, WellFormed, Value.Valid, Value.Linked, Value.Owns;
    ObjectPieces(t.wrapper, t);
    if At(s, pos) != CLOSE_BRACE {
      Free(mem, t.wrapper);
      return false;
    }
    ok := ResizeObject(mem, t, t.count);
    if !ok {
      Free(mem, t.wrapper);
    }
  }

  /** The loop of `parse_object_value` and what follows it. */
  method ReadEntries(mem: Mem, s: Bytes, pos: nat, nesting: nat, t: ObjectBlock) returns (ok: bool, next: nat)
    requires NulFree(s) && pos <= |s| && Holds(mem, t.wrapper) && t.wrapper.payload == PObject(t)
    requires t.wrapper.tree == Object([])
    modifies mem, t.wrapper.repr
    ensures mem.requests >= old(mem.requests) && next <= |s|
    ensures ok ==> ParseMembers(s, pos, nesting, []) == Ok(t.wrapper.tree, next)
    ensures ok ==> Holds(mem, t.wrapper) && mem.live == old(Outside(mem, t.wrapper)) + t.wrapper.repr
    ensures ok ==> fresh(t.wrapper.repr - old(t.wrapper.repr)) && t.wrapper.parent == old(t.wrapper.parent)
    ensures !ok ==> mem.live == old(Outside(mem, t.wrapper))
    ensures !ok ==> ParseMembers(s, pos, nesting, []).Fail? || mem.FailedSince(old(mem.requests))
    decreases |s| - pos, 3
  {
    hide Union, Disjoint, WellFormed, Value.Valid, Value.Linked, Value.Owns;
    hide ParseValue, ParseMembers, SkipSpaces, NameAt, Lookup, Find;
    var w := t.wrapper;
    ghost var spec := ParseMembers(s, pos, nesting, []);
    ValidBasics(w);
    next := pos;
    while At(s, next) != NUL
      invariant next <= |s| && mem.requests >= old(mem.requests)
      invariant Holds(mem, w) && w in w.repr && w.payload == PObject(t) && w.parent == old(w.parent) && w.tree.Object?
      invariant mem.live == old(Outside(mem, w)) + w.repr && fresh(w.repr - old(w.repr))
      invariant spec == ParseMembers(s, next, nesting, w.tree.members)
      decreases |s| - next
    {
      OwnBlocks(w);
      MembersUnfold(s, next, nesting, w.tree.members);
      ok, next := ReadEntry(mem, s, next, nesting, t);
      if !ok {
        return;
      }
      ValidBasics(w);
      next := SkipWhitespaces(s, next);
      if At(s, next) != COMMA {
        break;
      }
      next := SkipWhitespaces(s, next + 1);
    }
    NoNameAtEnd(s, nesting);
    OwnBlocks(w);
    ok := FinishObject(mem, s, next, t);
    if ok {
      next := next + 1;
    }
  }

  /** `parse_object_value`, called on an opening brace. */
  method ReadObject(mem: Mem, s: Bytes, pos: nat, nesting: nat) returns (v: Value?, next: nat)
    requires NulFree(s) && pos < |s| && s[pos] == OPEN_BRACE
    modifies mem
    ensures mem.requests >= old(mem.requests) && next <= |s|
    ensures Parsed(mem, v, next, ParseObject(s, pos, nesting))
    decreases |s| - pos, 0
  {
    hide Union, Disjoint, WellFormed, Value.Valid, Value.Linked, Value.Owns, ParseMembers, SkipSpaces;
    next := pos;
    v := InitObject(mem);
    if v == null {
      return;
    }
    ObjectPieces(v, v.payload.table);
    next := SkipWhitespaces(s, next + 1);
    if At(s, next) == CLOSE_BRACE {
      next := next + 1;
      return;
    }
    var ok;
    ok, next := ReadEntries(mem, s, next, nesting, v.payload.table);
    if !ok {
      v := null;
    }
  }

  /** `json_parse_string`. */
  method JsonParseString(mem: Mem, s: Bytes) returns (v: Value?)
    requires NulFree(s)
    modifies mem
    ensures v == null ==> mem.live == old(mem.live)
    ensures v == null ==> ParseString(s).Fail? || mem.FailedSince(old(mem.requests))
    ensures v != null ==> ParseString(s).Ok? && Built(mem, v, ParseString(s).value)
  {
    hide ParseValue, Value.Valid;
    var start := if Has(s, 0, [0xEF, 0xBB, 0xBF]) then 3 else 0;
    var next;
    v, next := ReadValue(mem, s, start, 0);
  }
}
