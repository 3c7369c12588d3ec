/** `json_value_deep_copy`: the same tree in new blocks, or no new block at all. */
module Copying {
  import opened Bytes
  import opened Json
  import opened Memory
  import opened StringReader
  import opened Heap
  import opened Release
  import opened Arrays
  import opened Objects

  /** `json_value_deep_copy`. */
  method DeepCopy(mem: Mem, v: Value) returns (r: Value?)
    requires v.Valid() && mem !in v.repr
    modifies mem
    ensures mem.requests >= old(mem.requests)
    ensures Made(mem, r, v.tree)
    ensures r != null ==> r.repr !! v.repr
    decreases v.repr, 2
  {
    hide Union, Disjoint, WellFormed, Value.Owns;
    match v.payload {
      case PArray(a) => r := CopyArray(mem, a);
      case PObject(t) => r := CopyObject(mem, t);
      case PString(s) => r := CopyString(mem, s);
      case PBoolean(b) => r := InitScalar(mem, PBoolean(b), Bool(b));
      case PNumber(x) => r := InitScalar(mem, PNumber(x), Number(x));
      case PNull => r := InitScalar(mem, PNull, Null);
    }
  }

  method CopyString(mem: Mem, s: CString) returns (r: Value?)
    modifies mem
    ensures mem.requests >= old(mem.requests)
    ensures Made(mem, r, Str(CView(s.bytes)))
  {
    hide Value.Valid, CView;
    r := null;
    var copy := Strndup(mem, CView(s.bytes));
    if copy != null {
      CViewOfNulFree(CView(s.bytes));
      r := InitStringNoCopy(mem, copy);
      if r == null {
        mem.Free(copy);
      }
    }
  }

  method CopyArray(mem: Mem, a: ArrayBlock) returns (r: Value?)
    requires a.wrapper.Valid() && mem !in a.wrapper.repr && a.wrapper.payload == PArray(a)
    modifies mem
    ensures mem.requests >= old(mem.requests)
    ensures Made(mem, r, a.wrapper.tree)
    decreases a.wrapper.repr, 1
  {
    hide Union, Disjoint, WellFormed, Value.Valid, Value.Linked, Value.Owns;
    var v := a.wrapper;
    ArrayPieces(v, a);
    r := InitArray(mem);
    if r == null {
      return;
    }
    var copy := r.payload.elements;
    ArrayPieces(r, copy);
    var i := 0;
    while i < a.count
      invariant i <= a.count && mem.requests >= old(mem.requests)
      invariant Built(mem, r, Array(v.tree.items[..i])) && r.payload == PArray(copy) && copy.wrapper == r
    {
      OwnBlocks(r);
      var ok := CopyItem(mem, a, i, copy);
      if !ok {
        return null;
      }
      i := i + 1;
    }
    assert v.tree.items[..i] == v.tree.items;
  }

  /** One round of the loop: adds a copy of item `i`, or gives up and frees the unfinished copy. */
  method CopyItem(mem: Mem, a: ArrayBlock, i: nat, copy: ArrayBlock) returns (ok: bool)
    requires a.wrapper.Valid() && mem !in a.wrapper.repr && a.wrapper.payload == PArray(a) && i < a.count
    requires Holds(mem, copy.wrapper) && copy.wrapper.payload == PArray(copy) && copy.wrapper.repr !! a.wrapper.repr
    requires a.wrapper.tree.Array? && i <= |a.wrapper.tree.items|
    requires copy.wrapper.tree == Array(a.wrapper.tree.items[..i])
    modifies mem, copy, Value.Maybe(copy.items)
    modifies copy.wrapper`tree, copy.wrapper`repr, copy.wrapper`kids, copy.wrapper`feet
    ensures mem.requests >= old(mem.requests)
    ensures a.wrapper.tree.Array? && i < |a.wrapper.tree.items|
    ensures ok ==> Holds(mem, copy.wrapper) && copy.wrapper.tree == Array(a.wrapper.tree.items[..i + 1])
    ensures ok ==> mem.live == old(Outside(mem, copy.wrapper)) + copy.wrapper.repr
    ensures ok ==> fresh(copy.wrapper.repr - old(copy.wrapper.repr))
    ensures !ok ==> mem.live == old(Outside(mem, copy.wrapper)) && mem.FailedSince(old(mem.requests))
    decreases a.wrapper.repr, 0
  {
    hide Union, Disjoint, WellFormed, Value.Valid, Value.Linked, Value.Owns;
    var v, r := a.wrapper, copy.wrapper;
    ArrayPieces(v, a);
    ArrayPieces(r, copy);
    assert a.items[i] == a.Contents()[i];
    var item := DeepCopy(mem, a.items[i]);
    if item == null {
      Free(mem, r);
      return false;
    }
    ok := AddOrFree(mem, copy, item);
    assert v.tree.items[..i + 1] == v.tree.items[..i] + [v.tree.items[i]];
  }

  method CopyObject(mem: Mem, t: ObjectBlock) returns (r: Value?)
    requires t.wrapper.Valid() && mem !in t.wrapper.repr && t.wrapper.payload == PObject(t)
    modifies mem
    ensures mem.requests >= old(mem.requests)
    ensures Made(mem, r, t.wrapper.tree)
    decreases t.wrapper.repr, 1
  {
    hide Union, Disjoint, WellFormed, Value.Valid, Value.Linked, Value.Owns, DistinctNames, Find, Lookup;
    var v := t.wrapper;
    ObjectPieces(v, t);
    ghost var members := v.tree.members;
    r := InitObject(mem);
    if r == null {
      return;
    }
    var copy := r.payload.table;
    ObjectPieces(r, copy);
    var i := 0;
    while i < t.count
      invariant i <= t.count && mem.requests >= old(mem.requests)
      invariant Built(mem, r, Object(members[..i])) && r.payload == PObject(copy) && copy.wrapper == r
    {
      OwnBlocks(r);
      var ok := CopyEntry(mem, t, i, copy);
      if !ok {
        return null;
      }
      i := i + 1;
    }
    assert members[..i] == members;
  }

  /** One round of the loop: looks entry `i` up by its name and adds a copy, or gives up. */
  method CopyEntry(mem: Mem, t: ObjectBlock, i: nat, copy: ObjectBlock) returns (ok: bool)
    requires t.wrapper.Valid() && mem !in t.wrapper.repr && t.wrapper.payload == PObject(t) && i < t.count
    requires Holds(mem, copy.wrapper) && copy.wrapper.payload == PObject(copy) && copy.wrapper.repr !! t.wrapper.repr
    requires t.wrapper.tree.Object? && i <= |t.wrapper.tree.members|
    requires copy.wrapper.tree == Object(t.wrapper.tree.members[..i])
    modifies mem, copy, Value.Maybe(copy.names), Value.Maybe(copy.values)
    modifies copy.wrapper`tree, copy.wrapper`repr, copy.wrapper`kids, copy.wrapper`keys, copy.wrapper`feet
    ensures mem.requests >= old(mem.requests)
    ensures t.wrapper.tree.Object? && i < |t.wrapper.tree.members|
    ensures ok ==> Holds(mem, copy.wrapper) && copy.wrapper.tree == Object(t.wrapper.tree.members[..i + 1])
    ensures ok ==> mem.live == old(Outside(mem, copy.wrapper)) + copy.wrapper.repr
    ensures ok ==> fresh(copy.wrapper.repr - old(copy.wrapper.repr))
    ensures !ok ==> mem.live == old(Outside(mem, copy.wrapper)) && mem.FailedSince(old(mem.requests))
    decreases t.wrapper.repr, 0
  {
    hide Union, Disjoint, WellFormed, Value.Valid, Value.Linked, Value.Owns, DistinctNames, Find, Lookup;
    var v, r := t.wrapper, copy.wrapper;
    ObjectPieces(r, copy);
    ValidBasics(v);
    var key, child := LookUpEntry(t, i);
    NextIsNew(v.tree.members, i);
    var item := DeepCopy(mem, child);
    if item == null {
      Free(mem, r);
      return false;
    }
    ok := AddOrFreeObject(mem, copy, key, item);
  }

  /** The name of entry `i`, and the value that a lookup by that name gives: the one at index `i`. */
  method LookUpEntry(t: ObjectBlock, i: nat) returns (key: Bytes, child: Value)
    requires t.wrapper.Valid() && t.wrapper.payload == PObject(t) && i < t.count
    ensures t.wrapper.tree.Object? && i < |t.wrapper.tree.members|
    ensures Member(key, child.tree) == t.wrapper.tree.members[i]
    ensures child.Valid() && child.repr < t.wrapper.repr
  {
    hide Union, Disjoint, WellFormed, Value.Valid, Value.Linked, Value.Owns, DistinctNames, Find, Lookup;
    var v := t.wrapper;
    ObjectPieces(v, t);
    assert t.names[i] == t.Keys()[i];
    NextIsFound(v.tree.members, i);
    key := t.names[i].bytes;
    child := GetN(t, key);
  }

  /** The name of entry `i` finds entry `i`. */
  lemma NextIsFound(ms: seq<Member>, i: nat)
    requires WellFormed(Object(ms)) && i < |ms|
    ensures Find(ms, ms[i].name) == i && Lookup(ms, ms[i].name) == Some(ms[i].value)
  {
    LookupByIndex(ms, i);
  }

  /** The name of entry `i` is not among the names before it. */
  lemma NextIsNew(ms: seq<Member>, i: nat)
    requires WellFormed(Object(ms)) && i < |ms|
    ensures Lookup(ms[..i], ms[i].name) == None && NulFree(ms[i].name)
    ensures ms[..i + 1] == ms[..i] + [Member(ms[i].name, ms[i].value)]
  {
    assert NulFree(ms[i].name);
    hide Find, Lookup, WellFormed, NulFree;
    assert ms[i] == Member(ms[i].name, ms[i].value);
    forall k | 0 <= k < |ms[..i]| ensures ms[..i][k].name != ms[i].name {
    }
  }

  /** Whatever happens to the blocks of one of two separate values, the other still stands for its tree. */
  twostate lemma ChangesStayApart(v: Value, other: Value)
    requires old(v.Valid() && other.Valid() && v.repr !! other.repr)
    requires forall o: object | old(allocated(o)) && o !in old(other.repr) :: unchanged(o)
    ensures v.Valid() && v.repr == old(v.repr) && v.tree == old(v.tree)
  {
    assert old(v.Linked());
  }
}
