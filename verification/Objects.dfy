/** Objects: parallel arrays of names and values that keep the names distinct. */
module Objects {
  import opened Bytes
  import opened Json
  import opened Members
  import opened Memory
  import opened StringReader
  import opened Heap
  import opened Release
  import opened Arrays

  /** `json_object_resize`: the tree stays, the entries move to other blocks. */
  method ResizeObject(mem: Mem, t: ObjectBlock, newCapacity: nat) returns (ok: bool)
    requires Holds(mem, t.wrapper) && t.wrapper.payload == PObject(t) && t.count <= newCapacity
    modifies mem, t, t.wrapper`tree, t.wrapper`repr, t.wrapper`kids, t.wrapper`keys, t.wrapper`feet
    ensures mem.requests >= old(mem.requests)
    ensures Holds(mem, t.wrapper) && t.count == old(t.count)
    ensures unchanged(t.wrapper`tree, t.wrapper`kids, t.wrapper`keys, t.wrapper`feet)
    ensures Outside(mem, t.wrapper) == old(Outside(mem, t.wrapper)) && fresh(t.wrapper.repr - old(t.wrapper.repr))
    ensures ok ==> t.Shape() && t.capacity == newCapacity && newCapacity > 0 && fresh(t.names) && fresh(t.values)
    ensures !ok ==> unchanged(t, t.wrapper) && mem.live == old(mem.live)
    ensures !ok ==> newCapacity == 0 || mem.FailedSince(old(mem.requests))
    ensures ok <==> newCapacity > 0 && mem.Grants(old(mem.requests), 2)
    ensures ok ==> mem.requests == old(mem.requests) + 2
  {
    hide Union, Disjoint, WellFormed, Value.Valid, Value.Linked, ObjectBlock.Contents, ObjectBlock.Keys, EntryOk;
    var w := t.wrapper;
    ObjectPieces(w, t);
    if (t.names == null && t.values != null) || (t.names != null && t.values == null) || newCapacity == 0 {
      return false;
    }
    var names, values := NewBlocks(mem, newCapacity);
    ok := names != null;
    if ok {
      SwapBlocks(mem, t, names, values);
    }
  }

  /** The two requests: both blocks, or neither. */
  method NewBlocks(mem: Mem, length: nat) returns (names: array?<CString?>, values: array?<Value?>)
    requires length > 0
    modifies mem
    ensures names != null <==> mem.Grants(old(mem.requests), 2)
    ensures names == null ==> mem.live == old(mem.live) && mem.FailedSince(old(mem.requests))
    ensures names != null ==> values != null && fresh(names) && fresh(values) && names.Length == values.Length == length
    ensures names != null ==> mem.live == old(mem.live) + {names as object, values}
    ensures names != null ==> mem.requests == old(mem.requests) + 2
    ensures mem.requests >= old(mem.requests)
  {
    names, values := null, null;
    var first := new CString?[length](_ => null);
    var granted := mem.Malloc(first);
    if !granted {
      return;
    }
    var second := new Value?[length](_ => null);
    granted := mem.Malloc(second);
    if !granted {
      mem.Free(first);
      return;
    }
    names, values := first, second;
  }

  /** The new blocks take over the entries, and the old ones are freed. */
  method SwapBlocks(mem: Mem, t: ObjectBlock, names: array<CString?>, values: array<Value?>)
    requires Holds(mem, t.wrapper) && t.wrapper.payload == PObject(t)
    requires names !in t.wrapper.repr && values !in t.wrapper.repr && {names as object, values} <= mem.live
    requires names.Length == values.Length && t.count <= names.Length && names.Length > 0
    modifies mem`live, t, names, values
    modifies t.wrapper`tree, t.wrapper`repr, t.wrapper`kids, t.wrapper`keys, t.wrapper`feet
    ensures Holds(mem, t.wrapper) && t.count == old(t.count) && t.capacity == names.Length && t.Shape()
    ensures t.names == names && t.values == values
    ensures unchanged(t.wrapper`tree, t.wrapper`kids, t.wrapper`keys, t.wrapper`feet)
    ensures t.wrapper.repr == old(t.wrapper.repr - Value.Maybe(t.names) - Value.Maybe(t.values)) + {names, values}
    ensures mem.live == old(mem.live - Value.Maybe(t.names) - Value.Maybe(t.values))
  {
    hide Union, Disjoint, WellFormed, Value.Valid, Value.Linked, ObjectBlock.Contents, ObjectBlock.Keys, EntryOk;
    var w := t.wrapper;
    ObjectPieces(w, t);
    if t.names != null {
      mem.Free(t.names);
    }
    if t.values != null {
      mem.Free(t.values);
    }
    t.Move(names, values);
    SetEntries(w, t, w.kids, w.keys, w.feet, w.tree.members);
  }

  /** A valid value inside another one. */
  ghost predicate Below(v: Value, w: Value)
    reads v, v.repr, w
  {
    v.Valid() && v.repr < w.repr
  }

  /** `json_object_getn_value`: the first entry with the name. */
  method GetN(t: ObjectBlock, name: Bytes) returns (v: Value?)
    requires t.wrapper.Valid() && t.wrapper.payload == PObject(t)
    ensures t.wrapper.tree.Object? && |t.wrapper.kids| == |t.wrapper.tree.members|
    ensures v == null <==> Lookup(t.wrapper.tree.members, name) == None
    ensures v != null ==> v == t.wrapper.kids[Find(t.wrapper.tree.members, name)]
    ensures v != null ==> Lookup(t.wrapper.tree.members, name) == Some(v.tree) && Below(v, t.wrapper)
  {
    hide Union, Disjoint, WellFormed, Value.Valid, Value.Linked;
    ObjectPieces(t.wrapper, t);
    var i := 0;
    while i < t.count
      invariant i <= t.count
      invariant forall k | 0 <= k < i :: t.wrapper.tree.members[k].name != name
    {
      assert t.names[i] == t.Keys()[i] && t.values[i] == t.Contents()[i];
      if t.names[i].bytes == name {
        return t.values[i];
      }
      i := i + 1;
    }
    v := null;
  }

  /** `json_object_get_name`. */
  method NameAt(t: ObjectBlock, i: nat) returns (name: Bytes)
    requires t.wrapper.Valid() && t.wrapper.payload == PObject(t) && i < t.count
    ensures t.wrapper.tree.Object? && i < |t.wrapper.tree.members| && name == t.wrapper.tree.members[i].name
  {
    hide Union, Disjoint, WellFormed, Value.Valid, Value.Linked;
    ObjectPieces(t.wrapper, t);
    assert t.names[i] == t.Keys()[i];
    name := t.names[i].bytes;
  }

  /** Entry `i` of the array of values is child `i`. */
  lemma ValueAt(t: ObjectBlock, i: nat)
    requires t.wrapper.Valid() && t.wrapper.payload == PObject(t) && i < |t.wrapper.kids|
    ensures t.values != null && i < t.values.Length && t.values[i] == t.wrapper.kids[i]
  {
    hide Union, Disjoint, WellFormed, Value.Valid, Value.Linked;
    ObjectPieces(t.wrapper, t);
    assert t.values[i] == t.Contents()[i];
  }

  lemma AppendMemberIsWellFormed(ms: seq<Member>, name: Bytes, x: Json)
    requires WellFormed(Object(ms)) && WellFormed(x) && NulFree(name) && Lookup(ms, name).None?
    ensures WellFormed(Object(ms + [Member(name, x)]))
  {
  }

  /** The end of `json_object_addn`, with room for the entry. */
  method PushEntry(t: ObjectBlock, name: CString, child: Value)
    requires t.wrapper.Valid() && t.wrapper.payload == PObject(t) && t.count < t.capacity
    requires child.Valid() && child.repr !! t.wrapper.repr && name !in t.wrapper.repr && name !in child.repr
    requires t.Shape() && t.wrapper.tree.Object?
    requires NulFree(name.bytes) && Lookup(t.wrapper.tree.members, name.bytes).None?
    modifies t`count, t.names, t.values, child`parent
    modifies t.wrapper`tree, t.wrapper`repr, t.wrapper`kids, t.wrapper`keys, t.wrapper`feet
    ensures t.wrapper.Valid() && child.parent == t.wrapper
    ensures t.wrapper.tree == Object(old(t.wrapper.tree).members + [Member(name.bytes, child.tree)])
    ensures t.wrapper.kids == old(t.wrapper.kids) + [child]
    ensures t.wrapper.repr == old(t.wrapper.repr) + child.repr + {name}
  {
    hide Union, Disjoint, WellFormed, Value.Valid, Value.Linked, ObjectBlock.Contents, ObjectBlock.Keys;
    var w := t.wrapper;
    ObjectPieces(w, t);
    ValidBasics(child);
    AppendMemberIsWellFormed(w.tree.members, name.bytes, child.tree);
    UnionAppend(w.feet, child.repr + {name});
    child.parent := w;
    t.Append(name, child);
    var member := Member(name.bytes, child.tree);
    SetEntries(w, t, w.kids + [child], w.keys + [name], w.feet + [child.repr + {name}], w.tree.members + [member]);
  }

  /** How many requests a new entry makes: one for its name, and two for larger arrays when they are full. */
  ghost function EntryRequests(t: ObjectBlock): nat
    reads t
  {
    if t.count < t.capacity then 1 else 3
  }

  /** The first half of `json_object_addn`: a free name, room for the entry, and a copy of the name. */
  method Prepare(mem: Mem, t: ObjectBlock, name: Bytes) returns (key: CString?)
    requires Holds(mem, t.wrapper) && t.wrapper.payload == PObject(t)
    modifies mem, t, t.wrapper`tree, t.wrapper`repr, t.wrapper`kids, t.wrapper`keys, t.wrapper`feet
    ensures mem.requests >= old(mem.requests)
    ensures t.wrapper.Valid() && mem !in t.wrapper.repr && old(t.wrapper.tree.Object?)
    ensures unchanged(t.wrapper`tree, t.wrapper`kids, t.wrapper`keys, t.wrapper`feet)
    ensures fresh(t.wrapper.repr - old(t.wrapper.repr))
    ensures mem.live == old(Outside(mem, t.wrapper)) + t.wrapper.repr + Value.Maybe(key)
    ensures key == null ==> Lookup(t.wrapper.tree.members, name).Some? || mem.FailedSince(old(mem.requests))
    ensures key != null <==>
              Lookup(t.wrapper.tree.members, name).None? && mem.Grants(old(mem.requests), old(EntryRequests(t)))
    ensures key != null ==> mem.requests == old(mem.requests) + old(EntryRequests(t))
    ensures key != null ==> fresh(key) && key !in t.wrapper.repr && key.bytes == name
    ensures key != null ==> Lookup(t.wrapper.tree.members, name).None? && t.count < t.capacity && t.Shape()
    ensures key != null ==>
              t.capacity == if old(t.count < t.capacity) then old(t.capacity) else NewCapacity(old(t.capacity))
    ensures key != null ==> t.names == old(t.names) || fresh(t.names)
    ensures key != null ==> t.values == old(t.values) || fresh(t.values)
  {
    hide Union, Disjoint, WellFormed, Value.Valid, Value.Linked, ObjectBlock.Contents, ObjectBlock.Keys, EntryOk;
    var w := t.wrapper;
    key := null;
    ObjectPieces(w, t);
    var present := GetN(t, name);
    if present != null {
      return;
    }
    if t.count >= t.capacity {
      var grown := ResizeObject(mem, t, NewCapacity(t.capacity));
      if !grown {
        return;
      }
      ObjectPieces(w, t);
    }
    key := Strndup(mem, name);
  }

  /** `json_object_addn`: a new last entry, unless the name is taken or an allocation fails. */
  method AddN(mem: Mem, t: ObjectBlock, name: Bytes, child: Value) returns (ok: bool)
    requires Holds(mem, t.wrapper) && t.wrapper.payload == PObject(t) && NulFree(name)
    requires Holds(mem, child) && child.repr !! t.wrapper.repr
    modifies mem, t, Value.Maybe(t.names), Value.Maybe(t.values), child`parent
    modifies t.wrapper`tree, t.wrapper`repr, t.wrapper`kids, t.wrapper`keys, t.wrapper`feet
    ensures mem.requests >= old(mem.requests)
    ensures Holds(mem, t.wrapper) && old(t.wrapper.tree.Object?)
    ensures fresh(t.wrapper.repr - old(t.wrapper.repr + child.repr))
    ensures mem.live == old(Outside(mem, t.wrapper)) + t.wrapper.repr
    ensures ok ==> Lookup(old(t.wrapper.tree).members, name) == None
    ensures ok ==> t.wrapper.tree == Object(old(t.wrapper.tree).members + [Member(name, child.tree)])
    ensures ok ==> child.parent == t.wrapper && t.wrapper.kids == old(t.wrapper.kids) + [child]
    ensures ok ==> child.repr <= t.wrapper.repr
    ensures ok ==> t.capacity == if old(t.count < t.capacity) then old(t.capacity) else NewCapacity(old(t.capacity))
    ensures !ok ==> unchanged(child, t.wrapper`tree, t.wrapper`kids, t.wrapper`keys, t.wrapper`feet)
    ensures !ok ==> t.wrapper.repr !! child.repr && Holds(mem, child)
    ensures !ok ==> Lookup(old(t.wrapper.tree).members, name).Some? || mem.FailedSince(old(mem.requests))
    ensures ok <==> Lookup(old(t.wrapper.tree).members, name).None?
                    && mem.Grants(old(mem.requests), old(EntryRequests(t)))
    ensures ok ==> mem.requests == old(mem.requests + EntryRequests(t))
  {
    hide Union, Disjoint, WellFormed, Value.Valid, Value.Linked, Find, Lookup, ObjectBlock.Contents, ObjectBlock.Keys;
    var w := t.wrapper;
    ObjectPieces(w, t);
    ValidBasics(child);
    var key := Prepare(mem, t, name);
    if key == null {
      return false;
    }
    PushEntry(t, key, child);
    return true;
  }

  /** Adds the entry, or frees the child together with the object: what copying and parsing do. */
  method AddOrFreeObject(mem: Mem, t: ObjectBlock, name: Bytes, child: Value) returns (ok: bool)
    requires Holds(mem, t.wrapper) && t.wrapper.payload == PObject(t) && NulFree(name)
    requires Holds(mem, child) && child.repr !! t.wrapper.repr
    modifies mem, t, Value.Maybe(t.names), Value.Maybe(t.values), child`parent
    modifies t.wrapper`tree, t.wrapper`repr, t.wrapper`kids, t.wrapper`keys, t.wrapper`feet
    ensures mem.requests >= old(mem.requests) && old(t.wrapper.tree.Object?)
    ensures ok ==> Holds(mem, t.wrapper) && fresh(t.wrapper.repr - old(t.wrapper.repr + child.repr))
    ensures ok ==> child.repr == old(child.repr) && child.repr <= t.wrapper.repr
    ensures ok ==> Lookup(old(t.wrapper.tree).members, name) == None
    ensures ok ==> t.wrapper.tree == Object(old(t.wrapper.tree).members + [Member(name, child.tree)])
    ensures ok ==> mem.live == old(Outside(mem, t.wrapper)) + t.wrapper.repr
    ensures !ok ==> mem.live == old(Outside(mem, t.wrapper) - child.repr)
    ensures !ok ==> Lookup(old(t.wrapper.tree).members, name).Some? || mem.FailedSince(old(mem.requests))
  {
    hide Union, Disjoint, WellFormed, Value.Valid, Value.Linked, Value.Owns, Find, Lookup;
    ValidBasics(child);
    ValidBasics(t.wrapper);
    ok := AddN(mem, t, name, child);
    if !ok {
      Free(mem, t.wrapper);
      Free(mem, child);
    }
  }

  lemma RemovedIsWellFormed(ms: seq<Member>, i: nat)
    requires WellFormed(Object(ms)) && i < |ms|
    ensures Find(ms, ms[i].name) == i && WellFormed(Object(SwapRemove(ms, i)))
  {
    LookupByIndex(ms, i);
    RemoveIsWellFormed(ms, ms[i].name);
  }

  /** The end of `json_object_remove_internal`: the last entry takes the place of entry `i`. */
  method Unhook(t: ObjectBlock, i: nat)
    requires t.wrapper.Valid() && t.wrapper.payload == PObject(t) && t.Shape() && i < t.count
    requires t.wrapper.tree.Object? && t.count == |t.wrapper.kids| == |t.wrapper.feet| == |t.wrapper.tree.members|
    modifies t`count, t.names, t.values
    modifies t.wrapper`tree, t.wrapper`repr, t.wrapper`kids, t.wrapper`keys, t.wrapper`feet
    ensures t.wrapper.Valid()
    ensures t.wrapper.tree == Object(SwapRemove(old(t.wrapper.tree).members, i))
    ensures t.wrapper.kids == SwapRemove(old(t.wrapper.kids), i)
    ensures t.wrapper.repr == old(t.wrapper.repr) - old(t.wrapper.feet[i])
  {
    hide Union, Disjoint, WellFormed, Value.Valid, Value.Linked, Value.Owns, SwapRemove, RemoveMember, Find, Lookup,
      DistinctNames, EntryOk;
    var w := t.wrapper;
    ObjectPieces(w, t);
    RemovedIsWellFormed(w.tree.members, i);
    UnionSwapRemove(w.feet, i);
    SwapRemoveIs(w.feet, i);
    SwapRemoveIs(w.kids, i);
    SwapRemoveIs(w.keys, i);
    UnionHolds(w.feet);
    SwapRemoveIs(w.tree.members, i);
    SwapRemoveIs(t.Keys(), i);
    SwapRemoveIs(t.Contents(), i);
    t.Drop(i);
    ghost var kids, keys, feet := SwapRemove(w.kids, i), SwapRemove(w.keys, i), SwapRemove(w.feet, i);
    ghost var members := SwapRemove(w.tree.members, i);
    forall k | 0 <= k < |w.kids| ensures EntryOk(w, w.kids[k], w.keys[k], w.feet[k], w.tree.members[k]) {
    }
    EntriesWithout(w, w.kids, w.keys, w.feet, w.tree.members, i);
    assert t.Contents() == kids && t.Keys() == keys;
    SetEntries(w, t, kids, keys, feet, members);
  }

  lemma EntriesWithout(w: Value, kids: seq<Value>, keys: seq<CString>, feet: seq<set<object>>, ms: seq<Member>, i: nat)
    requires i < |kids| == |keys| == |feet| == |ms|
    requires forall k | 0 <= k < |kids| :: EntryOk(w, kids[k], keys[k], feet[k], ms[k])
    ensures forall k | 0 <= k < |kids| - 1 ::
              EntryOk(w, SwapRemove(kids, i)[k], SwapRemove(keys, i)[k], SwapRemove(feet, i)[k], SwapRemove(ms, i)[k])
  {
    hide EntryOk;
  }

  lemma UnionSwapRemove(feet: seq<set<object>>, i: nat)
    requires i < |feet| && Disjoint(feet)
    ensures Union(SwapRemove(feet, i)) == Union(feet) - feet[i] && Disjoint(SwapRemove(feet, i))
  {
    var last := |feet| - 1;
    UnionDropLast(feet);
    if i != last {
      assert feet[i] !! feet[last];
      UnionUpdate(feet[..last], i, feet[last]);
      UnionHolds(feet);
    }
  }

  /** The loops over the names that compare with `strcmp`: the index of the first entry with the name. */
  method IndexOf(t: ObjectBlock, name: Bytes) returns (i: nat)
    requires t.wrapper.Valid() && t.wrapper.payload == PObject(t)
    ensures t.Shape() && t.Contents() == t.wrapper.kids && t.Keys() == t.wrapper.keys
    ensures t.wrapper.tree.Object? && i == Find(t.wrapper.tree.members, name)
    ensures |t.wrapper.keys| == |t.wrapper.kids| == |t.wrapper.feet| == |t.wrapper.tree.members| == t.count
  {
    hide Union, Disjoint, WellFormed, Value.Valid, Value.Linked;
    ObjectPieces(t.wrapper, t);
    i := 0;
    while i < t.count
      invariant i <= t.count
      invariant forall k | 0 <= k < i :: t.wrapper.tree.members[k].name != name
    {
      assert t.names[i] == t.Keys()[i];
      if t.names[i].bytes == name {
        return;
      }
      i := i + 1;
    }
  }

  /** Frees the name block of entry `i`, and the value when asked, and closes the gap. */
  method Detach(mem: Mem, t: ObjectBlock, i: nat, freeValue: bool)
    requires Holds(mem, t.wrapper) && t.wrapper.payload == PObject(t) && t.Shape() && i < t.count
    requires t.wrapper.tree.Object? && t.count == |t.wrapper.kids| == |t.wrapper.feet| == |t.wrapper.tree.members|
    modifies mem`live, t`count, Value.Maybe(t.names), Value.Maybe(t.values)
    modifies t.wrapper`tree, t.wrapper`repr, t.wrapper`kids, t.wrapper`keys, t.wrapper`feet
    ensures t.wrapper.Valid() && t.wrapper.tree == Object(SwapRemove(old(t.wrapper.tree).members, i))
    ensures t.wrapper.repr == old(t.wrapper.repr - t.wrapper.feet[i])
    ensures mem.live == old(mem.live) - old(t.wrapper.feet[i]) + if freeValue then {} else old(t.wrapper.kids[i].repr)
    ensures old(t.wrapper.kids[i].repr <= t.wrapper.feet[i] <= t.wrapper.repr)
  {
    hide Union, Disjoint, WellFormed, Value.Valid, Value.Linked, Value.Owns, SwapRemove;
    ObjectPieces(t.wrapper, t);
    UnionHolds(t.wrapper.feet);
    assert t.names[i] == t.Keys()[i] && t.values[i] == t.Contents()[i];
    mem.Free(t.names[i]);
    if freeValue {
      Free(mem, t.values[i]);
    }
    Unhook(t, i);
  }

  /**
   * `json_object_remove_internal`: fails exactly when there is no such name. The entry goes with its
   * name block, and with the value too when asked; otherwise the value keeps its blocks.
   */
  method RemoveInternal(mem: Mem, t: ObjectBlock, name: Bytes, freeValue: bool) returns (ok: bool)
    requires Holds(mem, t.wrapper) && t.wrapper.payload == PObject(t)
    modifies mem`live, t`count, Value.Maybe(t.names), Value.Maybe(t.values)
    modifies t.wrapper`tree, t.wrapper`repr, t.wrapper`kids, t.wrapper`keys, t.wrapper`feet
    ensures Holds(mem, t.wrapper) && old(t.wrapper.tree.Object? && |t.wrapper.kids| == |t.wrapper.tree.members|)
    ensures ok <==> Lookup(old(t.wrapper.tree).members, name).Some?
    ensures t.wrapper.tree == Object(RemoveMember(old(t.wrapper.tree).members, name))
    ensures t.wrapper.repr <= old(t.wrapper.repr)
    ensures mem.live == old(Outside(mem, t.wrapper)) + t.wrapper.repr
                        + if ok && !freeValue then old(t.wrapper.kids[Find(t.wrapper.tree.members, name)].repr) else {}
    ensures ok ==> t.wrapper.repr !! old(t.wrapper.kids[Find(t.wrapper.tree.members, name)].repr)
    ensures !ok ==> unchanged(t, t.wrapper) && mem.live == old(mem.live)
  {
    hide Union, Disjoint, WellFormed, Value.Valid, Value.Linked, Value.Owns, SwapRemove;
    var present := GetN(t, name);
    if present == null {
      return false;
    }
    var i := IndexOf(t, name);
    Detach(mem, t, i, freeValue);
    return true;
  }

  /** Puts another child in the place of entry `i`, under the same name. */
  method Overwrite(t: ObjectBlock, i: nat, child: Value)
    requires t.wrapper.Valid() && t.wrapper.payload == PObject(t) && t.Shape() && i < t.count
    requires t.wrapper.tree.Object? && t.count == |t.wrapper.kids| == |t.wrapper.feet| == |t.wrapper.tree.members|
    requires child.Valid() && child.repr !! t.wrapper.repr
    modifies t.values, child`parent
    modifies t.wrapper`tree, t.wrapper`repr, t.wrapper`kids, t.wrapper`keys, t.wrapper`feet
    ensures t.wrapper.Valid() && child.parent == t.wrapper
    ensures old(t.wrapper.kids[i].repr <= t.wrapper.feet[i] <= t.wrapper.repr)
    ensures t.wrapper.repr == old(t.wrapper.repr - t.wrapper.kids[i].repr) + child.repr
    ensures t.wrapper.kids == old(t.wrapper.kids)[i := child]
    ensures t.wrapper.tree.Object? && old(t.wrapper.tree).members[i].name == t.names[i].bytes
    ensures t.wrapper.tree == Object(old(t.wrapper.tree).members[i := Member(t.names[i].bytes, child.tree)])
  {
    hide Union, Disjoint, WellFormed, Value.Valid, Value.Linked, Value.Owns;
    var w := t.wrapper;
    ObjectPieces(w, t);
    ValidBasics(child);
    UnionHolds(w.feet);
    assert t.names[i] == t.Keys()[i];
    UnionUpdate(w.feet, i, child.repr + {w.keys[i]});
    assert w.keys[i] in w.feet[i] && w.feet[i] !! w.Own();
    UpdateIsWellFormed(w.tree.members, i, child.tree);
    child.parent := w;
    t.Replace(i, child);
    ghost var kids, feet := w.kids[i := child], w.feet[i := child.repr + {w.keys[i]}];
    SetEntries(w, t, kids, w.keys, feet, w.tree.members[i := Member(w.keys[i].bytes, child.tree)]);
  }

  lemma UpdateIsWellFormed(ms: seq<Member>, i: nat, x: Json)
    requires WellFormed(Object(ms)) && i < |ms| && WellFormed(x)
    ensures WellFormed(Object(ms[i := Member(ms[i].name, x)]))
  {
  }

  function SetKid<T>(kids: seq<T>, i: nat, child: T): seq<T> {
    if i < |kids| then kids[i := child] else kids + [child]
  }

  /** `json_object_set_value` with a name that is present: frees the old value and overwrites it. */
  method ReplaceValue(mem: Mem, t: ObjectBlock, name: Bytes, child: Value)
    requires Holds(mem, t.wrapper) && t.wrapper.payload == PObject(t)
    requires t.wrapper.tree.Object? && Lookup(t.wrapper.tree.members, name).Some?
    requires Holds(mem, child) && child.repr !! t.wrapper.repr
    modifies mem`live, Value.Maybe(t.values), child`parent
    modifies t.wrapper`tree, t.wrapper`repr, t.wrapper`kids, t.wrapper`keys, t.wrapper`feet
    ensures Holds(mem, t.wrapper) && child.parent == t.wrapper && child.repr <= t.wrapper.repr
    ensures t.wrapper.repr <= old(t.wrapper.repr + child.repr)
    ensures mem.live == old(Outside(mem, t.wrapper)) + t.wrapper.repr
    ensures t.wrapper.tree == Object(SetMember(old(t.wrapper.tree).members, name, child.tree))
    ensures t.wrapper.kids == SetKid(old(t.wrapper.kids), Find(old(t.wrapper.tree).members, name), child)
  {
    hide Union, Disjoint, WellFormed, Value.Valid, Value.Linked, Value.Owns, ObjectBlock.Contents, ObjectBlock.Keys;
    var w := t.wrapper;
    var oldValue := GetN(t, name);
    ObjectPieces(w, t);
    Free(mem, oldValue);
    var i := IndexOf(t, name);
    Overwrite(t, i, child);
  }

  /** Overwriting makes no request. */
  ghost function SetRequests(t: ObjectBlock, ms: seq<Member>, name: Bytes): nat
    reads t
  {
    if Lookup(ms, name).Some? then 0 else EntryRequests(t)
  }

  /**
   * `json_object_set_value`: sets the entry exactly when the value has no parent yet and the requests for a
   * new entry are granted. A name that is present makes no request, so setting it cannot fail.
   */
  method SetValue(mem: Mem, t: ObjectBlock, name: Bytes, child: Value) returns (ok: bool)
    requires Holds(mem, t.wrapper) && t.wrapper.payload == PObject(t) && NulFree(name)
    requires Holds(mem, child) && child.repr !! t.wrapper.repr
    modifies mem, t, Value.Maybe(t.names), Value.Maybe(t.values), child`parent
    modifies t.wrapper`tree, t.wrapper`repr, t.wrapper`kids, t.wrapper`keys, t.wrapper`feet
    ensures mem.requests >= old(mem.requests)
    ensures Holds(mem, t.wrapper) && old(t.wrapper.tree.Object?)
    ensures fresh(t.wrapper.repr - old(t.wrapper.repr + child.repr))
    ensures mem.live == old(Outside(mem, t.wrapper)) + t.wrapper.repr
    ensures ok ==> old(child.parent) == null && child.parent == t.wrapper && child.repr <= t.wrapper.repr
    ensures ok ==> t.wrapper.tree == Object(SetMember(old(t.wrapper.tree).members, name, child.tree))
    ensures ok ==> t.wrapper.kids == SetKid(old(t.wrapper.kids), Find(old(t.wrapper.tree).members, name), child)
    ensures !ok ==> unchanged(child, t.wrapper`tree, t.wrapper`kids, t.wrapper`keys, t.wrapper`feet)
    ensures !ok ==> t.wrapper.repr !! child.repr
    ensures !ok ==> old(child.parent) != null || mem.FailedSince(old(mem.requests))
    ensures var need := old(SetRequests(t, t.wrapper.tree.members, name));
            && (ok <==> old(child.parent) == null && mem.Grants(old(mem.requests), need))
            && (ok ==> mem.requests == old(mem.requests) + need)
  {
    hide Union, Disjoint, WellFormed, Value.Valid, Value.Linked, Value.Owns, ObjectBlock.Contents, ObjectBlock.Keys;
    if child.parent != null {
      ObjectPieces(t.wrapper, t);
      return false;
    }
    var oldValue := GetN(t, name);
    ObjectPieces(t.wrapper, t);
    ValidBasics(child);
    if oldValue != null {
      ReplaceValue(mem, t, name, child);
      return true;
    }
    ok := AddN(mem, t, name, child);
  }

  /** `json_object_clear`: frees every entry; the two arrays stay. */
  method ClearObject(mem: Mem, t: ObjectBlock)
    requires Holds(mem, t.wrapper) && t.wrapper.payload == PObject(t)
    modifies mem`live, t`count, t.wrapper`tree, t.wrapper`repr, t.wrapper`kids, t.wrapper`keys, t.wrapper`feet
    ensures Holds(mem, t.wrapper) && t.wrapper.tree == Object([]) && t.wrapper.repr == t.wrapper.Own()
    ensures Outside(mem, t.wrapper) == old(Outside(mem, t.wrapper)) && t.wrapper.repr <= old(t.wrapper.repr)
  {
    hide Union, Disjoint, WellFormed, Value.Valid, Value.Linked, Value.Owns;
    var w := t.wrapper;
    ObjectPieces(w, t);
    UnionNone();
    UnionHolds(w.feet);
    var i := 0;
    while i < t.count
      modifies mem`live
      invariant i <= t.count == |w.feet|
      invariant mem.live == old(mem.live) - Union(w.feet[..i])
    {
      UnionStep(w.feet, i);
      assert t.names[i] == t.Keys()[i] && t.values[i] == t.Contents()[i];
      mem.Free(t.names[i]);
      Free(mem, t.values[i]);
      i := i + 1;
    }
    assert w.feet[..i] == w.feet;
    t.count := 0;
    EmptyIsWellFormed();
    SetEntries(w, t, [], [], [], []);
  }
}
