/** `json_validate`: does a value follow the shape of a schema value? */
module Validation {
  import opened Bytes
  import opened Json
  import opened Heap
  import opened Objects
  import opened Equality

  predicate SameType(a: Json, b: Json) {
    || (a.Null? && b.Null?) || (a.Bool? && b.Bool?) || (a.Number? && b.Number?)
    || (a.Str? && b.Str?) || (a.Array? && b.Array?) || (a.Object? && b.Object?)
  }

  /** The answer as the C code computes it, with its test of the member counts. */
  predicate Valid(schema: Json, v: Json)
    decreases schema
  {
    if schema.Null? then true
    else if !SameType(schema, v) then false
    else
      match schema
      case Array(ss) => ss == [] || forall i | 0 <= i < |v.items| :: Valid(ss[0], v.items[i])
      case Object(ms) =>
        ms == [] || (|v.members| >= |ms| && forall i | 0 <= i < |ms| :: MemberValid(schema, v, ms[i].name))
      case _ => true
  }

  /** The value has the schema's member, and it is valid. */
  predicate MemberValid(schema: Json, v: Json, name: Bytes)
    requires schema.Object? && v.Object?
    decreases schema, 0
  {
    var x, y := Lookup(schema.members, name), Lookup(v.members, name);
    x.Some? && y.Some? && (ValueInside(schema, name); Valid(x.value, y.value))
  }

  /** The meaning of validation: every named member is there and valid; no counting. */
  predicate Conforms(schema: Json, v: Json)
    decreases schema
  {
    match (schema, v)
    case (Null, _) => true
    case (Bool(_), Bool(_)) => true
    case (Number(_), Number(_)) => true
    case (Str(_), Str(_)) => true
    case (Array(ss), Array(ys)) => ss == [] || forall i | 0 <= i < |ys| :: Conforms(ss[0], ys[i])
    case (Object(ms), Object(_)) => forall i | 0 <= i < |ms| :: MemberConforms(schema, v, ms[i].name)
    case _ => false
  }

  /** A schema other than null accepts values of its own kind only; without items or members, all of them. */
  lemma KindsAgree(schema: Json, v: Json)
    requires !schema.Null?
    ensures Valid(schema, v) ==>
              && (schema.Bool? <==> v.Bool?) && (schema.Number? <==> v.Number?) && (schema.Str? <==> v.Str?)
              && (schema.Array? <==> v.Array?) && (schema.Object? <==> v.Object?)
    ensures schema.Bool? ==> (Valid(schema, v) <==> v.Bool?)
    ensures schema.Number? ==> (Valid(schema, v) <==> v.Number?)
    ensures schema.Str? ==> (Valid(schema, v) <==> v.Str?)
    ensures schema == Array([]) ==> (Valid(schema, v) <==> v.Array?)
    ensures schema == Object([]) ==> (Valid(schema, v) <==> v.Object?)
  {
  }

  predicate MemberConforms(schema: Json, v: Json, name: Bytes)
    requires schema.Object? && v.Object?
    decreases schema, 0
  {
    var x, y := Lookup(schema.members, name), Lookup(v.members, name);
    x.Some? && y.Some? && (ValueInside(schema, name); Conforms(x.value, y.value))
  }

  /** `json_validate`; null is a value that is not there. */
  method Validate(schema: Value?, v: Value?) returns (ok: bool)
    requires (schema != null ==> schema.Valid()) && (v != null ==> v.Valid())
    ensures ok <==> schema != null && v != null && Valid(schema.tree, v.tree)
    decreases if schema == null then {} else schema.repr, 1
  {
    if schema == null || v == null {
      return false;
    }
    PayloadShows(schema);
    PayloadShows(v);
    hide WellFormed, Value.Valid, Value.Linked, Value.Owns, CView;
    match (schema.payload, v.payload)
    case (PNull, _) => return true;
    case (PArray(x), PArray(y)) => ok := ValidateItems(x, y);
    case (PObject(x), PObject(y)) => ok := ValidateMembers(x, y);
    case (PString(_), PString(_)) => return true;
    case (PNumber(_), PNumber(_)) => return true;
    case (PBoolean(_), PBoolean(_)) => return true;
    case _ => return false;
  }

  /** The array case: every item against the first item of the schema, if there is one. */
  method ValidateItems(x: ArrayBlock, y: ArrayBlock) returns (ok: bool)
    requires x.wrapper.Valid() && x.wrapper.payload == PArray(x)
    requires y.wrapper.Valid() && y.wrapper.payload == PArray(y)
    ensures ok <==> Valid(x.wrapper.tree, y.wrapper.tree)
    decreases x.wrapper.repr, 0, 1
  {
    hide WellFormed, Value.Valid, Value.Linked, Value.Owns, Union, Disjoint;
    var schema, v := x.wrapper, y.wrapper;
    ArrayPieces(schema, x);
    ArrayPieces(v, y);
    if x.count == 0 {
      return true;
    }
    assert x.items[0] == x.Contents()[0];
    var first := x.items[0];
    var i := 0;
    while i < y.count
      invariant i <= y.count && forall k | 0 <= k < i :: Valid(schema.tree.items[0], v.tree.items[k])
    {
      assert y.items[i] == y.Contents()[i];
      var one := Validate(first, y.items[i]);
      if !one {
        return false;
      }
      i := i + 1;
    }
    return true;
  }

  /** The object case: every name of the schema. */
  method ValidateMembers(x: ObjectBlock, y: ObjectBlock) returns (ok: bool)
    requires x.wrapper.Valid() && x.wrapper.payload == PObject(x)
    requires y.wrapper.Valid() && y.wrapper.payload == PObject(y)
    ensures ok <==> Valid(x.wrapper.tree, y.wrapper.tree)
    decreases x.wrapper.repr, 0, 1
  {
    hide WellFormed, Value.Valid, Value.Linked, Value.Owns, Union, Disjoint, Lookup, Find;
    var schema, v := x.wrapper, y.wrapper;
    ObjectPieces(schema, x);
    ObjectPieces(v, y);
    if x.count == 0 {
      return true;
    } else if y.count < x.count {
      return false;
    }
    var i := 0;
    while i < x.count
      invariant i <= x.count && forall k | 0 <= k < i :: MemberValid(schema.tree, v.tree, schema.tree.members[k].name)
    {
      var one := ValidateMember(x, y, i);
      if !one {
        return false;
      }
      i := i + 1;
    }
    return true;
  }

  /** The body of the loop: the name by index, both values by name. */
  method ValidateMember(x: ObjectBlock, y: ObjectBlock, i: nat) returns (ok: bool)
    requires x.wrapper.Valid() && x.wrapper.payload == PObject(x) && i < x.count
    requires y.wrapper.Valid() && y.wrapper.payload == PObject(y)
    ensures x.wrapper.tree.Object? && y.wrapper.tree.Object? && i < |x.wrapper.tree.members|
    ensures ok <==> MemberValid(x.wrapper.tree, y.wrapper.tree, x.wrapper.tree.members[i].name)
    decreases x.wrapper.repr, 0, 0
  {
    hide WellFormed, Value.Valid, Value.Linked, Value.Owns, Union, Disjoint, Lookup, Find, Valid;
    var key := NameAt(x, i);
    NamesAreFound(x.wrapper.tree.members, key);
    var p := GetN(x, key);
    var q := GetN(y, key);
    ok := Validate(p, q);
  }

  /** With distinct names in the schema, an object that has them all has at least as many members. */
  lemma EnoughMembers(schema: Json, v: Json)
    requires schema.Object? && v.Object? && DistinctNames(schema.members)
    requires forall i | 0 <= i < |schema.members| :: Lookup(v.members, schema.members[i].name).Some?
    ensures |v.members| >= |schema.members|
  {
    var ms, ns := schema.members, v.members;
    forall n | n in Names(ms) ensures n in Names(ns) {
      var i :| 0 <= i < |ms| && ms[i].name == n;
      NamesAreFound(ns, ms[i].name);
    }
    CountNames(ms);
    CountNames(ns);
    SmallerSubset(Names(ms), Names(ns));
  }

  /** On schemas with distinct names, the early test of the counts never changes the answer. */
  lemma {:induction false} CountingIsRedundant(schema: Json, v: Json)
    requires WellFormed(schema)
    ensures Valid(schema, v) <==> Conforms(schema, v)
    decreases schema
  {
    match schema
    case Array(ss) =>
      if v.Array? && ss != [] {
        forall i | 0 <= i < |v.items| ensures Valid(ss[0], v.items[i]) <==> Conforms(ss[0], v.items[i]) {
          CountingIsRedundant(ss[0], v.items[i]);
        }
      }
    case Object(ms) =>
      if v.Object? {
        forall i | 0 <= i < |ms|
          ensures MemberValid(schema, v, ms[i].name) <==> MemberConforms(schema, v, ms[i].name)
        {
          MemberCounting(schema, v, i);
        }
        if Conforms(schema, v) {
          forall i | 0 <= i < |ms| ensures Lookup(v.members, ms[i].name).Some? {
            assert MemberConforms(schema, v, ms[i].name);
          }
          EnoughMembers(schema, v);
        }
      }
    case _ =>
  }

  lemma {:induction false} MemberCounting(schema: Json, v: Json, i: nat)
    requires schema.Object? && v.Object? && WellFormed(schema) && i < |schema.members|
    ensures MemberValid(schema, v, schema.members[i].name) <==> MemberConforms(schema, v, schema.members[i].name)
    decreases schema, 0
  {
    var n := schema.members[i].name;
    LookupByIndex(schema.members, i);
    if Lookup(v.members, n).Some? {
      CountingIsRedundant(schema.members[i].value, Lookup(v.members, n).value);
    }
  }

  /** Replacing schema and value by equal trees does not change the answer. */
  lemma {:induction false} ValidUpToEquality(s1: Json, s2: Json, v1: Json, v2: Json)
    requires WellFormed(s1) && WellFormed(s2) && WellFormed(v1) && WellFormed(v2)
    requires Equal(s1, s2) && Equal(v1, v2) && Valid(s1, v1)
    ensures Valid(s2, v2)
    decreases s1
  {
    match s1
    case Array(ss) =>
      if ss != [] {
        forall i | 0 <= i < |v2.items| ensures Valid(s2.items[0], v2.items[i]) {
          ValidUpToEquality(ss[0], s2.items[0], v1.items[i], v2.items[i]);
        }
      }
    case Object(ms) =>
      if ms != [] {
        SameNames(s1, s2);
        forall i | 0 <= i < |s2.members| ensures MemberValid(s2, v2, s2.members[i].name) {
          var n := s2.members[i].name;
          assert n in Names(s2.members);
          var k :| 0 <= k < |ms| && ms[k].name == n;
          MemberUpToEquality(s1, s2, v1, v2, k);
        }
      }
    case _ =>
  }

  lemma {:induction false} MemberUpToEquality(s1: Json, s2: Json, v1: Json, v2: Json, k: nat)
    requires s1.Object? && s2.Object? && v1.Object? && v2.Object? && k < |s1.members|
    requires WellFormed(s1) && WellFormed(s2) && WellFormed(v1) && WellFormed(v2)
    requires Equal(s1, s2) && Equal(v1, v2) && Valid(s1, v1)
    ensures MemberValid(s2, v2, s1.members[k].name)
    decreases s1, 0
  {
    var n := s1.members[k].name;
    assert MemberValid(s1, v1, n) && MemberEqual(s1, s2, n);
    LookupByIndex(s1.members, k);
    var j := Find(v1.members, n);
    assert MemberEqual(v1, v2, v1.members[j].name);
    ValueInside(s2, n);
    ValueInside(v1, n);
    ValueInside(v2, n);
    ValidUpToEquality(s1.members[k].value, Lookup(s2.members, n).value,
                      Lookup(v1.members, n).value, Lookup(v2.members, n).value);
  }

  // ---------------------------------------------------------------- transitivity

  /**
   * Nothing in `b` hides what `a` asks for: no empty array of `b` stands where `a` wants items of some
   * type. Only the first item of an array of `b` matters, because a schema array is used no further.
   */
  predicate Passes(a: Json, b: Json)
    decreases a
  {
    match (a, b)
    case (Array(ss), Array(ys)) => ss == [] || if ys == [] then ss[0].Null? else Passes(ss[0], ys[0])
    case (Object(ms), Object(_)) => forall i | 0 <= i < |ms| :: MemberPasses(a, b, ms[i].name)
    case _ => true
  }

  predicate MemberPasses(a: Json, b: Json, name: Bytes)
    requires a.Object? && b.Object?
    decreases a, 0
  {
    var x, y := Lookup(a.members, name), Lookup(b.members, name);
    x.Some? && y.Some? ==> (ValueInside(a, name); Passes(x.value, y.value))
  }

  /** If `b` is valid for `a`, everything valid for `b` is valid for `a` exactly when `Passes(a, b)`. */
  lemma TransitiveExactly(a: Json, b: Json)
    requires WellFormed(a) && WellFormed(b) && Valid(a, b)
    ensures Passes(a, b) <==> forall c | WellFormed(c) && Valid(b, c) :: Valid(a, c)
  {
    if Passes(a, b) {
      forall c | Valid(b, c) ensures Valid(a, c) {
        PassesOn(a, b, c);
      }
    } else {
      var c := Hidden(a, b);
    }
  }

  lemma {:induction false} PassesOn(a: Json, b: Json, c: Json)
    requires Valid(a, b) && Valid(b, c) && Passes(a, b)
    ensures Valid(a, c)
    decreases a
  {
    match a
    case Array(ss) =>
      if ss != [] && b.items != [] {
        assert Valid(ss[0], b.items[0]);
        forall i | 0 <= i < |c.items| ensures Valid(ss[0], c.items[i]) {
          PassesOn(ss[0], b.items[0], c.items[i]);
        }
      }
    case Object(ms) =>
      if ms != [] {
        forall i | 0 <= i < |ms| ensures MemberValid(a, c, ms[i].name) {
          MemberPassesOn(a, b, c, ms[i].name, i);
        }
      }
    case _ =>
  }

  lemma {:induction false} MemberPassesOn(a: Json, b: Json, c: Json, n: Bytes, i: nat)
    requires a.Object? && b.Object? && c.Object? && i < |a.members| && n == a.members[i].name
    requires Valid(a, b) && Valid(b, c) && Passes(a, b)
    ensures MemberValid(a, c, n)
    decreases a, 0
  {
    assert MemberValid(a, b, n) && MemberPasses(a, b, n);
    var k := Find(b.members, n);
    assert MemberValid(b, c, b.members[k].name);
    ValueInside(a, n);
    ValueInside(b, n);
    PassesOn(Lookup(a.members, n).value, b.members[k].value, Lookup(c.members, n).value);
  }

  /** Some value that is valid for the schema. */
  function Inhabit(schema: Json): Json {
    match schema
    case Array(_) => Array([])
    case Object(ms) => Object(seq(|ms|, i requires 0 <= i < |ms| => Member(ms[i].name, Inhabit(ms[i].value))))
    case _ => schema
  }

  /** An object with the schema's names, each value valid for the schema's. */
  lemma ValidByIndex(b: Json, c: Json)
    requires b.Object? && c.Object? && WellFormed(b) && |c.members| == |b.members|
    requires forall i | 0 <= i < |b.members| ::
               c.members[i].name == b.members[i].name && WellFormed(c.members[i].value)
               && Valid(b.members[i].value, c.members[i].value)
    ensures WellFormed(c) && Valid(b, c)
  {
    var ms, ns := b.members, c.members;
    assert WellFormed(c);
    hide WellFormed;
    forall i | 0 <= i < |ms| ensures MemberValid(b, c, ms[i].name) {
      LookupByIndex(ms, i);
      LookupByIndex(ns, i);
    }
  }

  lemma {:induction false} InhabitIsValid(schema: Json)
    requires WellFormed(schema)
    ensures WellFormed(Inhabit(schema)) && Valid(schema, Inhabit(schema))
  {
    if schema.Object? {
      var ms := schema.members;
      forall i | 0 <= i < |ms| ensures WellFormed(Inhabit(ms[i].value)) && Valid(ms[i].value, Inhabit(ms[i].value)) {
        InhabitIsValid(ms[i].value);
      }
      ValidByIndex(schema, Inhabit(schema));
    }
  }

  /** A value that is valid for `b` and not for `a`. */
  lemma {:induction false} Hidden(a: Json, b: Json) returns (c: Json)
    requires WellFormed(a) && WellFormed(b) && Valid(a, b) && !Passes(a, b)
    ensures WellFormed(c) && Valid(b, c) && !Valid(a, c)
    decreases a
  {
    if a.Array? {
      var z := Null;
      if b.items != [] {
        z := Hidden(a.items[0], b.items[0]);
      }
      c := Array([z]);
      assert !Valid(a.items[0], c.items[0]);
    } else {
      var i :| 0 <= i < |a.members| && !MemberPasses(a, b, a.members[i].name);
      assert MemberValid(a, b, a.members[i].name);
      c := HiddenInMember(a, b, a.members[i].name);
      assert !MemberValid(a, c, a.members[i].name);
    }
  }

  lemma {:induction false} HiddenInMember(a: Json, b: Json, n: Bytes) returns (c: Json)
    requires a.Object? && b.Object? && WellFormed(a) && WellFormed(b)
    requires MemberValid(a, b, n) && !MemberPasses(a, b, n)
    ensures c.Object? && WellFormed(c) && Valid(b, c) && !MemberValid(a, c, n)
    decreases a, 0
  {
    ValueInside(a, n);
    ValueInside(b, n);
    var k := Find(b.members, n);
    FoundIsWellFormed(a, n);
    FoundIsWellFormed(b, n);
    var z := Hidden(Lookup(a.members, n).value, b.members[k].value);
    c := WithHidden(b, k, z);
    hide Valid, WellFormed, Passes;
    LookupByIndex(c.members, k);
  }

  lemma FoundIsWellFormed(v: Json, n: Bytes)
    requires v.Object? && WellFormed(v) && Lookup(v.members, n).Some?
    ensures WellFormed(Lookup(v.members, n).value) && DistinctNames(v.members)
  {
  }

  lemma WithHidden(b: Json, k: nat, z: Json) returns (c: Json)
    requires b.Object? && WellFormed(b) && k < |b.members| && WellFormed(z) && Valid(b.members[k].value, z)
    ensures c.Object? && WellFormed(c) && Valid(b, c)
    ensures |c.members| == |b.members| && c.members[k] == Member(b.members[k].name, z) && DistinctNames(c.members)
  {
    var ms, ns := b.members, Inhabit(b).members;
    c := Object(ns[k := Member(ms[k].name, z)]);
    forall i | 0 <= i < |ms|
      ensures c.members[i].name == ms[i].name && WellFormed(c.members[i].value)
      ensures Valid(ms[i].value, c.members[i].value)
    {
      InhabitIsValid(ms[i].value);
    }
    hide Valid, WellFormed, Inhabit;
    ValidByIndex(b, c);
  }

  predicate NoEmptyArray(v: Json) {
    match v
    case Array(xs) => xs != [] && forall i | 0 <= i < |xs| :: NoEmptyArray(xs[i])
    case Object(ms) => forall i | 0 <= i < |ms| :: NoEmptyArray(ms[i].value)
    case _ => true
  }

  lemma {:induction false} NoEmptyArrayPasses(a: Json, b: Json)
    requires Valid(a, b) && NoEmptyArray(b)
    ensures Passes(a, b)
    decreases a
  {
    if a.Array? && a.items != [] {
      assert Valid(a.items[0], b.items[0]);
      NoEmptyArrayPasses(a.items[0], b.items[0]);
    } else if a.Object? {
      forall i | 0 <= i < |a.members| ensures MemberPasses(a, b, a.members[i].name) {
        var n := a.members[i].name;
        assert MemberValid(a, b, n);
        ValueInside(a, n);
        var k := Find(b.members, n);
        NoEmptyArrayPasses(Lookup(a.members, n).value, b.members[k].value);
      }
    }
  }

  /** In particular validation is transitive through a tree without empty arrays. */
  lemma ValidTransitive(a: Json, b: Json, c: Json)
    requires Valid(a, b) && Valid(b, c) && NoEmptyArray(b)
    ensures Valid(a, c)
  {
    NoEmptyArrayPasses(a, b);
    PassesOn(a, b, c);
  }

  /** An empty array in the middle can let anything through. */
  lemma EmptyArrayBreaksTransitivity()
    ensures var a, b, c := Array([Number(1.0)]), Array([]), Array([Str([])]);
            Valid(a, b) && Valid(b, c) && !Valid(a, c)
  {
    var a, c := Array([Number(1.0)]), Array([Str([])]);
    assert !Valid(a.items[0], c.items[0]);
  }
}
