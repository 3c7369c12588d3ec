/** `json_value_equals`: tree equality up to the order of members. */
module Equality {
  import opened Bytes
  import opened Json
  import opened Heap
  import opened Objects

  /** `fabs(a - b) < 0.000001`. */
  predicate Close(x: real, y: real) {
    -0.000001 < x - y < 0.000001
  }

  /** The comparison as the C code makes it: members of `a` by index, both values by name. */
  predicate Equal(a: Json, b: Json)
    decreases a
  {
    match (a, b)
    case (Null, Null) => true
    case (Bool(x), Bool(y)) => x == y
    case (Number(x), Number(y)) => Close(x, y)
    case (Str(s), Str(t)) => s == t
    case (Array(xs), Array(ys)) => |xs| == |ys| && forall i | 0 <= i < |xs| :: Equal(xs[i], ys[i])
    case (Object(ms), Object(ns)) =>
      |ms| == |ns| && forall i | 0 <= i < |ms| :: MemberEqual(a, b, ms[i].name)
    case _ => false
  }

  /** Both objects have the name, with equal values. */
  predicate MemberEqual(a: Json, b: Json, name: Bytes)
    requires a.Object? && b.Object?
    decreases a, 0
  {
    var x, y := Lookup(a.members, name), Lookup(b.members, name);
    x.Some? && y.Some? && (ValueInside(a, name); Equal(x.value, y.value))
  }

  lemma ValueInside(a: Json, name: Bytes)
    requires a.Object? && Lookup(a.members, name).Some?
    ensures Lookup(a.members, name).value < a
  {
  }

  /** `json_value_equals`; null is a value that is not there. */
  method Equals(a: Value?, b: Value?) returns (r: bool)
    requires (a != null ==> a.Valid()) && (b != null ==> b.Valid())
    ensures r <==> if a == null || b == null then a == b else Equal(a.tree, b.tree)
    decreases if a == null then {} else a.repr, 1
  {
    if a == null || b == null {
      return a == b;
    }
    PayloadShows(a);
    PayloadShows(b);
    hide WellFormed, Value.Valid, Value.Linked, Value.Owns, CView;
    match (a.payload, b.payload)
    case (PArray(x), PArray(y)) => r := ArraysEqual(x, y);
    case (PObject(x), PObject(y)) => r := ObjectsEqual(x, y);
    case (PString(s), PString(t)) => return CView(s.bytes) == CView(t.bytes);
    case (PBoolean(x), PBoolean(y)) => return x == y;
    case (PNumber(x), PNumber(y)) => return -0.000001 < x - y < 0.000001;
    case (PNull, PNull) => return true;
    case _ => return false;
  }

  /** The kind of a value, and what a scalar holds, as the payload has it. */
  lemma PayloadShows(v: Value)
    requires v.Valid()
    ensures match v.payload
            case PNull => v.tree == Null
            case PBoolean(x) => v.tree == Bool(x)
            case PNumber(x) => v.tree == Number(x)
            case PString(s) => v.tree == Str(CView(s.bytes))
            case PArray(a) => v.tree.Array? && a.wrapper == v
            case PObject(t) => v.tree.Object? && t.wrapper == v
  {
    hide WellFormed, CView;
  }

  /** The array case, with its index loop. */
  method ArraysEqual(x: ArrayBlock, y: ArrayBlock) returns (r: bool)
    requires x.wrapper.Valid() && x.wrapper.payload == PArray(x)
    requires y.wrapper.Valid() && y.wrapper.payload == PArray(y)
    ensures r <==> Equal(x.wrapper.tree, y.wrapper.tree)
    decreases x.wrapper.repr, 0
  {
    hide WellFormed, Value.Valid, Value.Linked, Value.Owns, Union, Disjoint;
    var a, b := x.wrapper, y.wrapper;
    ArrayPieces(a, x);
    ArrayPieces(b, y);
    if x.count != y.count {
      return false;
    }
    var i := 0;
    while i < x.count
      invariant i <= x.count && forall k | 0 <= k < i :: Equal(a.tree.items[k], b.tree.items[k])
    {
      assert x.items[i] == x.Contents()[i] && y.items[i] == y.Contents()[i];
      var same := Equals(x.items[i], y.items[i]);
      if !same {
        return false;
      }
      i := i + 1;
    }
    return true;
  }

  /** The object case. */
  method ObjectsEqual(x: ObjectBlock, y: ObjectBlock) returns (r: bool)
    requires x.wrapper.Valid() && x.wrapper.payload == PObject(x)
    requires y.wrapper.Valid() && y.wrapper.payload == PObject(y)
    ensures r <==> Equal(x.wrapper.tree, y.wrapper.tree)
    decreases x.wrapper.repr, 0, 1
  {
    hide WellFormed, Value.Valid, Value.Linked, Value.Owns, Union, Disjoint, Lookup, Find;
    var a, b := x.wrapper, y.wrapper;
    ObjectPieces(a, x);
    ObjectPieces(b, y);
    if x.count != y.count {
      return false;
    }
    var i := 0;
    while i < x.count
      invariant i <= x.count && forall k | 0 <= k < i :: MemberEqual(a.tree, b.tree, a.tree.members[k].name)
    {
      var same := EntriesEqual(x, y, i);
      if !same {
        return false;
      }
      i := i + 1;
    }
    return true;
  }

  /** The body of the loop: the name by index, both values by name. */
  method EntriesEqual(x: ObjectBlock, y: ObjectBlock, i: nat) returns (r: bool)
    requires x.wrapper.Valid() && x.wrapper.payload == PObject(x) && i < x.count
    requires y.wrapper.Valid() && y.wrapper.payload == PObject(y)
    ensures x.wrapper.tree.Object? && y.wrapper.tree.Object? && i < |x.wrapper.tree.members|
    ensures r <==> MemberEqual(x.wrapper.tree, y.wrapper.tree, x.wrapper.tree.members[i].name)
    decreases x.wrapper.repr, 0, 0
  {
    hide WellFormed, Value.Valid, Value.Linked, Value.Owns, Union, Disjoint, Lookup, Find, Equal;
    var key := NameAt(x, i);
    NamesAreFound(x.wrapper.tree.members, key);
    var p := GetN(x, key);
    var q := GetN(y, key);
    r := Equals(p, q);
  }

  lemma {:induction false} EqualReflexive(a: Json)
    ensures Equal(a, a)
  {
    match a
    case Array(xs) =>
      forall i | 0 <= i < |xs| ensures Equal(xs[i], xs[i]) {
        EqualReflexive(xs[i]);
      }
    case Object(ms) =>
      forall i | 0 <= i < |ms| ensures MemberEqual(a, a, ms[i].name) {
        ValueInside(a, ms[i].name);
        EqualReflexive(Lookup(ms, ms[i].name).value);
      }
    case _ =>
  }

  // ---------------------------------------------------------------- the pigeonhole argument

  function Names(ms: seq<Member>): set<Bytes> {
    set i | 0 <= i < |ms| :: ms[i].name
  }

  lemma NamesAreFound(ms: seq<Member>, name: Bytes)
    ensures name in Names(ms) <==> Lookup(ms, name).Some?
  {
  }

  lemma {:induction false} CountNames(ms: seq<Member>)
    ensures |Names(ms)| <= |ms|
    ensures DistinctNames(ms) ==> |Names(ms)| == |ms|
  {
    if ms != [] {
      var init, last := ms[..|ms| - 1], ms[|ms| - 1];
      CountNames(init);
      assert Names(ms) == Names(init) + {last.name} by {
        forall n | n in Names(ms) ensures n in Names(init) + {last.name} {
          var i :| 0 <= i < |ms| && ms[i].name == n;
          if i < |ms| - 1 {
            assert init[i].name == n;
          }
        }
        forall n | n in Names(init) ensures n in Names(ms) {
          var i :| 0 <= i < |init| && init[i].name == n;
          assert ms[i].name == n;
        }
        assert ms[|ms| - 1].name == last.name;
      }
      if DistinctNames(ms) {
        assert last.name !in Names(init);
      }
    }
  }

  lemma {:induction false} SubsetOfSameSize(a: set<Bytes>, b: set<Bytes>)
    requires a <= b && |a| == |b|
    ensures a == b
  {
    if x :| x in b && x !in a {
      SmallerSubset(a, b - {x});
    }
  }

  lemma {:induction false} SmallerSubset(a: set<Bytes>, b: set<Bytes>)
    requires a <= b
    ensures |a| <= |b|
  {
    if x :| x in a {
      SmallerSubset(a - {x}, b - {x});
    }
  }

  /** Equal objects with distinct names have the same names, although only those of one are looked up. */
  lemma SameNames(a: Json, b: Json)
    requires a.Object? && b.Object? && Equal(a, b) && DistinctNames(a.members) && DistinctNames(b.members)
    ensures Names(a.members) == Names(b.members)
  {
    forall n | n in Names(a.members) ensures n in Names(b.members) {
      var i :| 0 <= i < |a.members| && a.members[i].name == n;
      assert MemberEqual(a, b, n);
      NamesAreFound(b.members, n);
    }
    CountNames(a.members);
    CountNames(b.members);
    SubsetOfSameSize(Names(a.members), Names(b.members));
  }

  lemma {:induction false} EqualSymmetric(a: Json, b: Json)
    requires WellFormed(a) && WellFormed(b) && Equal(a, b)
    ensures Equal(b, a)
    decreases a
  {
    match (a, b)
    case (Array(xs), Array(ys)) =>
      forall i | 0 <= i < |xs| ensures Equal(ys[i], xs[i]) {
        EqualSymmetric(xs[i], ys[i]);
      }
    case (Object(ms), Object(ns)) =>
      SameNames(a, b);
      forall i | 0 <= i < |ns| ensures MemberEqual(b, a, ns[i].name) {
        var n := ns[i].name;
        assert n in Names(ns);
        MemberSymmetric(a, b, n);
      }
    case _ =>
  }

  lemma {:induction false} MemberSymmetric(a: Json, b: Json, n: Bytes)
    requires a.Object? && b.Object? && WellFormed(a) && WellFormed(b) && Equal(a, b) && n in Names(a.members)
    ensures MemberEqual(b, a, n)
    decreases a, 0
  {
    var i :| 0 <= i < |a.members| && a.members[i].name == n;
    assert MemberEqual(a, b, n);
    ValueInside(a, n);
    ValueInside(b, n);
    EqualSymmetric(Lookup(a.members, n).value, Lookup(b.members, n).value);
  }

  /** Symmetry rests on distinct names: counting and looking up do not notice a repeated name. */
  lemma RepeatedNamesBreakSymmetry()
    ensures var a := Object([Member([97], Null), Member([97], Null)]);
            var b := Object([Member([97], Null), Member([98], Null)]);
            Equal(a, b) && !Equal(b, a)
  {
    var a := Object([Member([97], Null), Member([97], Null)]);
    var b := Object([Member([97], Null), Member([98], Null)]);
    assert a.members[0] == Member([97], Null) && b.members[0] == Member([97], Null);
    ValueInside(a, [97]);
    assert MemberEqual(a, b, [97]);
    assert Lookup(a.members, [98]).None?;
    assert !MemberEqual(b, a, b.members[1].name);
  }

  /** Numbers are equal when they are less than a millionth apart; other scalars when they are the same. */
  lemma ScalarsEqual(a: Json, b: Json)
    requires !a.Array? && !a.Object? && !a.Number?
    ensures Equal(a, b) <==> a == b
    ensures forall x, y :: Equal(Number(x), Number(y)) <==> -1.0 < 1000000.0 * (x - y) < 1.0
  {
  }

  /** Within the tolerance, numbers are not transitive. */
  lemma TolerancesAddUp()
    ensures Equal(Number(0.0), Number(0.0000006)) && Equal(Number(0.0000006), Number(0.0000012))
    ensures !Equal(Number(0.0), Number(0.0000012))
  {
  }

  // ---------------------------------------------------------------- what equality means

  /** A tree with members in no order. */
  datatype Unordered =
    | UNull
    | UBool(b: bool)
    | UNumber(value: real)
    | UStr(text: Bytes)
    | UArray(items: seq<Unordered>)
    | UObject(members: map<Bytes, Unordered>)

  function Forget(v: Json): Unordered {
    match v
    case Null => UNull
    case Bool(b) => UBool(b)
    case Number(x) => UNumber(x)
    case Str(t) => UStr(t)
    case Array(xs) => UArray(seq(|xs|, i requires 0 <= i < |xs| => Forget(xs[i])))
    case Object(ms) => UObject(map n | n in Names(ms) :: ForgetMember(v, n))
  }

  function ForgetMember(v: Json, n: Bytes): Unordered
    requires v.Object? && n in Names(v.members)
    decreases v, 0
  {
    NamesAreFound(v.members, n);
    ValueInside(v, n);
    Forget(Lookup(v.members, n).value)
  }

  /**
   * On trees of integer numbers with distinct names, the comparison decides equality of the trees
   * with the order of members forgotten.
   */
  lemma {:induction false} EqualIsUnorderedEquality(a: Json, b: Json)
    requires WellFormed(a) && WellFormed(b) && IntegerNumbers(a) && IntegerNumbers(b)
    ensures Equal(a, b) <==> Forget(a) == Forget(b)
    decreases a
  {
    hide Equal, Forget, WellFormed, IntegerNumbers;
    if a.Array? && b.Array? {
      ArraysCompare(a, b);
    } else if a.Object? && b.Object? {
      ObjectsCompare(a, b);
    } else {
      ScalarsCompare(a, b);
    }
  }

  lemma ScalarsCompare(a: Json, b: Json)
    requires IntegerNumbers(a) && IntegerNumbers(b) && !(a.Array? && b.Array?) && !(a.Object? && b.Object?)
    ensures Equal(a, b) <==> Forget(a) == Forget(b)
  {
    if a.Number? && b.Number? {
      NumbersCompare(a, b);
    }
    hide Names, WellFormed, IntegerNumbers, Close, ForgetMember, MemberEqual;
  }

  lemma NumbersCompare(a: Json, b: Json)
    requires a.Number? && b.Number? && IntegerNumbers(a) && IntegerNumbers(b)
    ensures Close(a.value, b.value) <==> a.value == b.value
  {
    var x, y := a.value.Floor, b.value.Floor;
    assert x != y ==> x - y >= 1 || y - x >= 1;
  }

  lemma {:induction false} ArraysCompare(a: Json, b: Json)
    requires a.Array? && b.Array? && WellFormed(a) && WellFormed(b) && IntegerNumbers(a) && IntegerNumbers(b)
    ensures Equal(a, b) <==> Forget(a) == Forget(b)
    decreases a, 0
  {
    var xs, ys := a.items, b.items;
    if |xs| == |ys| {
      forall i | 0 <= i < |xs| ensures Equal(xs[i], ys[i]) <==> Forget(xs[i]) == Forget(ys[i]) {
        EqualIsUnorderedEquality(xs[i], ys[i]);
      }
      if Equal(a, b) {
        assert Forget(a).items == Forget(b).items;
      }
      if Forget(a) == Forget(b) {
        forall i | 0 <= i < |xs| ensures Equal(xs[i], ys[i]) {
          assert Forget(a).items[i] == Forget(b).items[i];
        }
      }
    } else {
      assert |Forget(a).items| != |Forget(b).items|;
    }
  }

  lemma {:induction false} MembersCompare(a: Json, b: Json, n: Bytes)
    requires a.Object? && b.Object? && WellFormed(a) && WellFormed(b) && IntegerNumbers(a) && IntegerNumbers(b)
    requires n in Names(a.members) && n in Names(b.members)
    ensures MemberEqual(a, b, n) <==> ForgetMember(a, n) == ForgetMember(b, n)
    decreases a, 0
  {
    NamesAreFound(a.members, n);
    NamesAreFound(b.members, n);
    ValueInside(a, n);
    ValueInside(b, n);
    EqualIsUnorderedEquality(Lookup(a.members, n).value, Lookup(b.members, n).value);
  }

  lemma {:induction false} ObjectsCompare(a: Json, b: Json)
    requires a.Object? && b.Object? && WellFormed(a) && WellFormed(b) && IntegerNumbers(a) && IntegerNumbers(b)
    ensures Equal(a, b) <==> Forget(a) == Forget(b)
    decreases a, 1
  {
    var ms, ns := a.members, b.members;
    forall n | n in Names(ms) && n in Names(ns)
      ensures MemberEqual(a, b, n) <==> ForgetMember(a, n) == ForgetMember(b, n)
    {
      MembersCompare(a, b, n);
    }
    hide WellFormed, IntegerNumbers;
    if Equal(a, b) {
      SameNames(a, b);
      EqualForgets(a, b);
    }
    if Forget(a) == Forget(b) {
      ForgottenEqual(a, b);
    }
  }

  lemma EqualForgets(a: Json, b: Json)
    requires a.Object? && b.Object? && Equal(a, b) && Names(a.members) == Names(b.members)
    requires forall n | n in Names(a.members) && n in Names(b.members) ::
               MemberEqual(a, b, n) <==> ForgetMember(a, n) == ForgetMember(b, n)
    ensures Forget(a) == Forget(b)
  {
    var ms := a.members;
    hide ForgetMember, MemberEqual;
    forall n | n in Names(ms) ensures ForgetMember(a, n) == ForgetMember(b, n) {
      var i :| 0 <= i < |ms| && ms[i].name == n;
      assert MemberEqual(a, b, ms[i].name);
    }
    assert Forget(a).members == Forget(b).members;
  }

  lemma ForgottenEqual(a: Json, b: Json)
    requires a.Object? && b.Object? && Forget(a) == Forget(b) && DistinctNames(a.members) && DistinctNames(b.members)
    requires forall n | n in Names(a.members) && n in Names(b.members) ::
               MemberEqual(a, b, n) <==> ForgetMember(a, n) == ForgetMember(b, n)
    ensures Equal(a, b)
  {
    var ms, ns := a.members, b.members;
    hide ForgetMember, MemberEqual;
    assert Forget(a).members.Keys == Names(ms) && Forget(b).members.Keys == Names(ns);
    CountNames(ms);
    CountNames(ns);
    forall i | 0 <= i < |ms| ensures MemberEqual(a, b, ms[i].name) {
      assert ms[i].name in Names(ms);
      assert Forget(a).members[ms[i].name] == Forget(b).members[ms[i].name];
    }
  }

  /** Hence, on such trees, equality is transitive. */
  lemma EqualTransitive(a: Json, b: Json, c: Json)
    requires WellFormed(a) && WellFormed(b) && WellFormed(c)
    requires IntegerNumbers(a) && IntegerNumbers(b)
    requires Equal(a, b) && Equal(b, c)
    ensures Equal(a, c)
  {
    EqualIsUnorderedEquality(a, b);
    SameEquals(a, b, c);
  }

  // ---------------------------------------------------------------- when equality is transitive

  /**
   * If `a` and `b` are equal, everything equal to `b` is equal to `a` exactly when they are the same tree up
   * to the order of members.
   */
  lemma TransitiveExactly(a: Json, b: Json)
    requires WellFormed(a) && WellFormed(b) && Equal(a, b)
    ensures Forget(a) == Forget(b) <==> forall c | WellFormed(c) && Equal(b, c) :: Equal(a, c)
  {
    if Forget(a) == Forget(b) {
      forall c | Equal(b, c) ensures Equal(a, c) {
        SameEquals(a, b, c);
      }
    } else {
      var c := Moved(a, b);
    }
  }

  /** The same tree up to the order of members is equal to the same trees. */
  lemma {:induction false} SameEquals(a: Json, b: Json, c: Json)
    requires WellFormed(a) && WellFormed(b) && Forget(a) == Forget(b) && Equal(b, c)
    ensures Equal(a, c)
    decreases a
  {
    match a
    case Array(xs) =>
      forall i | 0 <= i < |xs| ensures Equal(xs[i], c.items[i]) {
        assert Forget(a).items[i] == Forget(b).items[i];
        SameEquals(xs[i], b.items[i], c.items[i]);
      }
    case Object(ms) =>
      SameForgottenNames(a, b);
      forall i | 0 <= i < |ms| ensures MemberEqual(a, c, ms[i].name) {
        SameMemberEquals(a, b, c, ms[i].name);
      }
    case _ =>
  }

  lemma SameForgottenNames(a: Json, b: Json)
    requires a.Object? && Forget(a) == Forget(b) && WellFormed(a) && WellFormed(b)
    ensures b.Object? && Names(a.members) == Names(b.members) && |a.members| == |b.members|
    ensures forall i | 0 <= i < |a.members| :: a.members[i].name in Names(a.members)
    ensures forall n | n in Names(a.members) :: ForgetMember(a, n) == ForgetMember(b, n)
  {
    hide ForgetMember;
    assert Forget(a).members.Keys == Names(a.members) && Forget(b).members.Keys == Names(b.members);
    CountNames(a.members);
    CountNames(b.members);
    forall n | n in Names(a.members) ensures ForgetMember(a, n) == ForgetMember(b, n) {
      assert Forget(a).members[n] == Forget(b).members[n];
    }
  }

  lemma {:induction false} SameMemberEquals(a: Json, b: Json, c: Json, n: Bytes)
    requires a.Object? && b.Object? && WellFormed(a) && WellFormed(b) && Equal(b, c)
    requires n in Names(a.members) && n in Names(b.members) && ForgetMember(a, n) == ForgetMember(b, n)
    ensures c.Object? && MemberEqual(a, c, n)
    decreases a, 0
  {
    var j :| 0 <= j < |b.members| && b.members[j].name == n;
    assert MemberEqual(b, c, n);
    NamesAreFound(a.members, n);
    NamesAreFound(b.members, n);
    ValueInside(a, n);
    ValueInside(b, n);
    SameEquals(Lookup(a.members, n).value, Lookup(b.members, n).value, Lookup(c.members, n).value);
  }

  /** Otherwise a tree that is equal to `b` and not to `a`: one number of `b` is moved away from that of `a`. */
  lemma {:induction false} Moved(a: Json, b: Json) returns (c: Json)
    requires WellFormed(a) && WellFormed(b) && Equal(a, b) && Forget(a) != Forget(b)
    ensures WellFormed(c) && Equal(b, c) && !Equal(a, c)
    decreases a
  {
    match a {
      case Number(x) =>
        c := Number(if x < b.value then x + 0.000001 else x - 0.000001);
      case Array(xs) =>
        var i := DifferentItem(a, b);
        var item := Moved(xs[i], b.items[i]);
        c := Array(b.items[i := item]);
        ItemMoved(a, b, i, item);
      case Object(ms) =>
        var n := DifferentMember(a, b);
        ValueInside(a, n);
        LookupParts(a, n);
        LookupParts(b, n);
        var value := Moved(Lookup(ms, n).value, Lookup(b.members, n).value);
        var j := Find(b.members, n);
        c := Object(b.members[j := Member(n, value)]);
        MemberMoved(a, b, n, j, value);
      case _ =>
    }
  }

  lemma SameItems(a: Json, b: Json)
    requires a.Array? && b.Array? && |a.items| == |b.items|
    requires forall i | 0 <= i < |a.items| :: Forget(a.items[i]) == Forget(b.items[i])
    ensures Forget(a) == Forget(b)
  {
    assert Forget(a).items == Forget(b).items;
  }

  lemma SameMembers(a: Json, b: Json)
    requires a.Object? && b.Object? && Names(a.members) == Names(b.members)
    requires forall n | n in Names(a.members) :: ForgetMember(a, n) == ForgetMember(b, n)
    ensures Forget(a) == Forget(b)
  {
    hide ForgetMember;
    assert Forget(a).members == Forget(b).members;
  }

  lemma DifferentItem(a: Json, b: Json) returns (i: nat)
    requires a.Array? && Equal(a, b) && Forget(a) != Forget(b)
    ensures b.Array? && i < |a.items| == |b.items| && Forget(a.items[i]) != Forget(b.items[i])
  {
    if forall i | 0 <= i < |a.items| :: Forget(a.items[i]) == Forget(b.items[i]) {
      SameItems(a, b);
      assert false;
    }
    i :| 0 <= i < |a.items| && Forget(a.items[i]) != Forget(b.items[i]);
  }

  lemma ItemMoved(a: Json, b: Json, i: nat, item: Json)
    requires a.Array? && b.Array? && WellFormed(b) && i < |a.items| == |b.items|
    requires WellFormed(item) && Equal(b.items[i], item) && !Equal(a.items[i], item)
    ensures var c := Array(b.items[i := item]); WellFormed(c) && Equal(b, c) && !Equal(a, c)
  {
    var c := Array(b.items[i := item]);
    forall k | 0 <= k < |b.items| ensures Equal(b.items[k], c.items[k]) {
      EqualReflexive(b.items[k]);
    }
    assert !Equal(a.items[i], c.items[i]);
  }

  lemma DifferentMember(a: Json, b: Json) returns (n: Bytes)
    requires a.Object? && WellFormed(a) && WellFormed(b) && Equal(a, b) && Forget(a) != Forget(b)
    ensures b.Object? && n in Names(a.members) && n in Names(b.members) && ForgetMember(a, n) != ForgetMember(b, n)
    ensures MemberEqual(a, b, n)
  {
    hide ForgetMember, MemberEqual;
    SameNames(a, b);
    if forall n | n in Names(a.members) :: ForgetMember(a, n) == ForgetMember(b, n) {
      SameMembers(a, b);
      assert false;
    }
    n :| n in Names(a.members) && ForgetMember(a, n) != ForgetMember(b, n);
    var i :| 0 <= i < |a.members| && a.members[i].name == n;
    assert MemberEqual(a, b, a.members[i].name);
  }

  lemma LookupParts(v: Json, n: Bytes)
    requires v.Object? && WellFormed(v) && n in Names(v.members)
    ensures Lookup(v.members, n).Some? && WellFormed(Lookup(v.members, n).value) && Find(v.members, n) < |v.members|
    ensures ForgetMember(v, n) == Forget(Lookup(v.members, n).value)
  {
    NamesAreFound(v.members, n);
  }

  lemma MemberMoved(a: Json, b: Json, n: Bytes, j: nat, value: Json)
    requires a.Object? && b.Object? && WellFormed(b) && n in Names(a.members) && Lookup(a.members, n).Some?
    requires j < |b.members| && b.members[j].name == n && WellFormed(value)
    requires Equal(b.members[j].value, value) && !Equal(Lookup(a.members, n).value, value)
    ensures var c := Object(b.members[j := Member(n, value)]); WellFormed(c) && Equal(b, c) && !Equal(a, c)
  {
    var ns := b.members;
    var ns' := ns[j := Member(n, value)];
    var c := Object(ns');
    assert DistinctNames(ns) && DistinctNames(ns') && WellFormed(c);
    hide WellFormed, Lookup, Find;
    forall k | 0 <= k < |ns| ensures MemberEqual(b, c, ns[k].name) {
      LookupByIndex(ns, k);
      assert ns'[k].name == ns[k].name;
      LookupByIndex(ns', k);
      EqualReflexive(ns[k].value);
    }
    LookupByIndex(ns', j);
    var i :| 0 <= i < |a.members| && a.members[i].name == n;
    assert !MemberEqual(a, c, a.members[i].name);
  }
}
