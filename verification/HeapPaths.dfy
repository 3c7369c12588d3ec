/** Dotted paths on blocks: the methods agree with the functions of `DotPaths` and lose no block. */
module HeapPaths {
  import opened Bytes
  import opened Json
  import opened Members
  import opened DotPaths
  import opened Memory
  import opened Heap
  import opened Release
  import Arrays
  import opened Objects

  /** The child under a name. */
  ghost function Kid(v: Value, name: Bytes): Value?
    requires v.Valid() && v.payload.PObject?
    reads v`payload, v`tree, v`repr, v`kids, v`keys, v`feet, v.repr - {v}
  {
    var i := Find(v.tree.members, name);
    if i < |v.kids| then v.kids[i] else null
  }

  lemma KidIsLookup(v: Value, name: Bytes)
    requires v.Valid() && v.payload.PObject?
    ensures v.tree.Object? && |v.kids| == |v.tree.members|
    ensures Kid(v, name) == null <==> Lookup(v.tree.members, name) == None
    ensures Kid(v, name) != null ==>
              var k := Kid(v, name);
              k.Valid() && k in k.repr && k.repr < v.repr && k.parent == v && v in v.repr - k.repr
              && Lookup(v.tree.members, name) == Some(k.tree)
              && (k.payload.PObject? <==> k.tree.Object?)
  {
    hide WellFormed, Value.Valid, Value.Linked, Value.Owns, Union, Disjoint;
    ObjectPieces(v, v.payload.table);
    var k := Kid(v, name);
    if k != null {
      KindAgrees(k);
    }
  }

  lemma KindAgrees(v: Value)
    requires v.Valid()
    ensures v.payload.PObject? <==> v.tree.Object?
  {
  }

  /** The value at the end of a path. */
  ghost function NodeAt(v: Value, path: Bytes): (n: Value?)
    requires v.Valid()
    reads v`payload, v`tree, v`repr, v`kids, v`keys, v`feet, v.repr - {v}
    decreases |path|
  {
    if !v.payload.PObject? then null
    else
      match FirstDot(path)
      case None => Kid(v, path)
      case Some(d) =>
        KidIsLookup(v, path[..d]);
        var k := Kid(v, path[..d]);
        if k == null then null else NodeAt(k, path[d + 1..])
  }

  /** A path without a dot. */
  lemma LastName(v: Value, path: Bytes)
    requires v.Valid() && v.payload.PObject? && v.tree.Object? && FirstDot(path).None?
    ensures NodeAt(v, path) == Kid(v, path)
    ensures DotRemove(v.tree.members, path) ==
            if Lookup(v.tree.members, path).Some? then Some(RemoveMember(v.tree.members, path)) else None
  {
    hide WellFormed, Value.Valid, Lookup, Kid, RemoveMember;
  }

  /** A path that goes on in the object in entry `i`. */
  lemma EntryFound(v: Value, path: Bytes, d: nat, i: nat)
    requires v.Valid() && v.payload.PObject? && v.tree.Object? && FirstDot(path) == Some(d)
    requires Find(v.tree.members, path[..d]) == i && Kid(v, path[..d]) != null && Kid(v, path[..d]).payload.PObject?
    ensures EntryIsObject(v, i) && v.tree.members[i].name == path[..d]
    ensures NodeAt(v, path) == NodeAt(v.kids[i], path[d + 1..])
    ensures var ms := v.tree.members;
            DotRemove(ms, path) ==
            match DotRemove(ms[i].value.members, path[d + 1..])
            case None => None
            case Some(inner) => Some(ms[i := Member(ms[i].name, Object(inner))])
  {
    hide WellFormed, Value.Valid, Lookup;
    KidIsLookup(v, path[..d]);
    SetMemberAt(v.tree.members, path[..d]);
  }

  /** A path that stops at something that is no object. */
  lemma EntryMissing(v: Value, path: Bytes, d: nat)
    requires v.Valid() && v.payload.PObject? && v.tree.Object? && FirstDot(path) == Some(d)
    requires Kid(v, path[..d]) == null || !Kid(v, path[..d]).payload.PObject?
    ensures NodeAt(v, path) == null && DotRemove(v.tree.members, path) == None
  {
    hide WellFormed, Value.Valid, Lookup, Kid;
    KidIsLookup(v, path[..d]);
  }

  lemma SetMemberAt(ms: seq<Member>, name: Bytes)
    requires Lookup(ms, name).Some?
    ensures Find(ms, name) < |ms| && ms[Find(ms, name)] == Member(name, Lookup(ms, name).value)
    ensures forall x :: SetMember(ms, name, x) == ms[Find(ms, name) := Member(name, x)]
  {
  }

  /** The node of a path holds the tree that the path finds. */
  lemma {:induction false} NodeIsGet(v: Value, path: Bytes)
    requires v.Valid() && v.payload.PObject?
    ensures v.tree.Object? && (NodeAt(v, path) == null <==> DotGet(v.tree.members, path) == None)
    ensures NodeAt(v, path) != null ==>
              var n := NodeAt(v, path);
              n.Valid() && n in n.repr && n.repr < v.repr && n.parent != null && n.parent in v.repr - n.repr
              && DotGet(v.tree.members, path) == Some(n.tree)
    decreases |path|
  {
    hide WellFormed, Value.Valid, Lookup, Kid;
    match FirstDot(path)
    case None => KidIsLookup(v, path);
    case Some(d) =>
      KidIsLookup(v, path[..d]);
      var k := Kid(v, path[..d]);
      if k != null && k.payload.PObject? {
        NodeIsGet(k, path[d + 1..]);
      }
  }

  /** `json_object_dotget_value`, with null for a missing object. */
  method DotGetValue(t: ObjectBlock?, path: Bytes) returns (n: Value?)
    requires t != null ==> t.wrapper.Valid() && t.wrapper.payload == PObject(t)
    ensures n == if t == null then null else NodeAt(t.wrapper, path)
    decreases |path|
  {
    hide WellFormed, Value.Valid, Lookup, Value.Linked, Value.Owns, EntryOk, ObjectBlock.Contents, ObjectBlock.Keys;
    var dot := FirstDot(path);
    if t == null {
      if dot.Some? {
        n := DotGetValue(null, path[dot.value + 1..]);
      } else {
        n := null;
      }
    } else if dot.None? {
      n := GetN(t, path);
    } else {
      KidIsLookup(t.wrapper, path[..dot.value]);
      var k := GetN(t, path[..dot.value]);
      var inner := null;
      if k != null && k.payload.PObject? {
        inner := k.payload.table;
        ObjectPieces(k, inner);
      }
      n := DotGetValue(inner, path[dot.value + 1..]);
    }
  }

  /** The blocks of a value that is not to be freed. */
  ghost function Spared(n: Value?, freeValue: bool): set<object>
    reads if n == null then {} else {n}
  {
    if freeValue || n == null then {} else n.repr
  }

  /** Removal at the end of the path. */
  method RemoveHere(mem: Mem, t: ObjectBlock, name: Bytes, freeValue: bool, ghost n: Value?) returns (ok: bool)
    requires Holds(mem, t.wrapper) && t.wrapper.payload == PObject(t) && n == Kid(t.wrapper, name)
    modifies mem`live, t.wrapper.repr - Spared(n, freeValue)
    ensures Holds(mem, t.wrapper) && unchanged(t.wrapper`payload, t.wrapper`parent)
    ensures t.wrapper.repr <= old(t.wrapper.repr)
    ensures old(t.wrapper.tree.Object?) && (ok <==> Lookup(old(t.wrapper.tree).members, name).Some?)
    ensures t.wrapper.tree ==
            if ok then Object(RemoveMember(old(t.wrapper.tree).members, name)) else old(t.wrapper.tree)
    ensures ok && !freeValue ==> Kept(n, t.wrapper)
    ensures mem.live == old(Outside(mem, t.wrapper)) + t.wrapper.repr
                        + if ok && !freeValue then n.repr else {}
  {
    hide WellFormed, Value.Valid, Lookup, Find, Value.Linked, Value.Owns, Union, Disjoint, RemoveMember;
    ObjectPieces(t.wrapper, t);
    ValidBasics(t.wrapper);
    KidIsLookup(t.wrapper, name);
    ok := RemoveInternal(mem, t, name, freeValue);
  }

  /**
   * What removing a path does, when `n` is the node it leads to. On success the tree is what `DotRemove`
   * says, and the node's blocks are freed or, when it is to be kept, left alone; otherwise nothing changes.
   */
  twostate predicate RemoveOutcome(mem: Mem, w: Value, path: Bytes, n: Value?, freeValue: bool, ok: bool)
    reads mem, w, w.repr, n, if n == null then {} else n.repr
  {
    && Holds(mem, w) && unchanged(w`payload, w`parent) && w.repr <= old(w.repr) && old(w.tree.Object?)
    && var r := DotRemove(old(w.tree).members, path);
    && (ok <==> r.Some?)
    && w.tree == (if ok then Object(r.value) else old(w.tree))
    && (ok && !freeValue ==> Kept(n, w))
    && mem.live == old(Outside(mem, w)) + w.repr + if ok && !freeValue then n.repr else {}
  }

  /** `json_object_dotremove_internal`. */
  method DotRemoveInternal(mem: Mem, t: ObjectBlock, path: Bytes, freeValue: bool, ghost n: Value?)
    returns (ok: bool)
    requires Holds(mem, t.wrapper) && t.wrapper.payload == PObject(t) && n == NodeAt(t.wrapper, path)
    modifies mem`live, t.wrapper.repr - Spared(n, freeValue)
    ensures RemoveOutcome(mem, t.wrapper, path, n, freeValue, ok)
    decreases |path|, 1
  {
    hide WellFormed, Value.Valid, Lookup, Find, Value.Linked, Value.Owns, Union, Disjoint, RemoveMember, NodeAt,
      DotRemove,
      ObjectBlock.Contents, ObjectBlock.Keys;
    var w := t.wrapper;
    ObjectPieces(w, t);
    var dot := FirstDot(path);
    if dot.None? {
      LastName(w, path);
      ok := RemoveHere(mem, t, path, freeValue, n);
    } else {
      KidIsLookup(w, path[..dot.value]);
      var k := GetN(t, path[..dot.value]);
      if k == null || !k.payload.PObject? {
        EntryMissing(w, path, dot.value);
        ValidBasics(w);
        return false;
      }
      ok := RemoveThrough(mem, t, path, dot.value, freeValue, n);
    }
  }

  /** The case of a name that holds an object. */
  method RemoveThrough(mem: Mem, t: ObjectBlock, path: Bytes, d: nat, freeValue: bool, ghost n: Value?)
    returns (ok: bool)
    requires Holds(mem, t.wrapper) && t.wrapper.payload == PObject(t) && n == NodeAt(t.wrapper, path)
    requires FirstDot(path) == Some(d)
    requires Kid(t.wrapper, path[..d]) != null && Kid(t.wrapper, path[..d]).payload.PObject?
    modifies mem`live, t.wrapper.repr - Spared(n, freeValue)
    ensures RemoveOutcome(mem, t.wrapper, path, n, freeValue, ok)
    decreases |path|, 0
  {
    hide WellFormed, Value.Valid, Lookup, Find, Value.Linked, Value.Owns, Union, Disjoint, SetMember, NodeAt, DotRemove,
      ObjectBlock.Contents, ObjectBlock.Keys;
    var i := IndexOf(t, path[..d]);
    EntryFound(t.wrapper, path, d, i);
    ok := DotRemoveInside(mem, t, i, path[d + 1..], freeValue, n);
  }

  /** The recursive call on the object in entry `i`. */
  method DotRemoveInside(mem: Mem, t: ObjectBlock, i: nat, rest: Bytes, freeValue: bool, ghost n: Value?)
    returns (ok: bool)
    requires Holds(mem, t.wrapper) && t.wrapper.payload == PObject(t)
    requires i < |t.wrapper.kids| && EntryIsObject(t.wrapper, i) && n == NodeAt(t.wrapper.kids[i], rest)
    modifies mem`live, t.wrapper.repr - Spared(n, freeValue)
    ensures Holds(mem, t.wrapper) && unchanged(t.wrapper`payload, t.wrapper`parent)
    ensures t.wrapper.repr <= old(t.wrapper.repr)
    ensures old(EntryIsObject(t.wrapper, i))
    ensures var r := DotRemove(old(t.wrapper.tree).members[i].value.members, rest);
            (ok <==> r.Some?) && t.wrapper.tree ==
              if ok then
                var name := old(t.wrapper.tree).members[i].name;
                Object(old(t.wrapper.tree).members[i := Member(name, Object(r.value))])
              else old(t.wrapper.tree)
    ensures ok && !freeValue ==> Kept(n, t.wrapper)
    ensures mem.live == old(Outside(mem, t.wrapper)) + t.wrapper.repr
                        + if ok && !freeValue then n.repr else {}
    decreases |rest|, 3
  {
    hide WellFormed, Value.Valid, Lookup, Value.Linked, Value.Owns, Union, Disjoint, DotRemove, Kid, NodeAt,
      ObjectBlock.Contents, ObjectBlock.Keys, EntryOk, Open;
    var w := t.wrapper;
    KidLies(w, t, i);
    ghost var k, members := w.kids[i], w.tree.members;
    NodeIsGet(k, rest);
    assert members[i := Member(members[i].name, members[i].value)] == members;
    ghost var live, whole, k0 := mem.live, w.repr, k.repr;
    ok := DotRemoveChild(mem, t, i, rest, freeValue, n);
    Relink(w, t, i);
    assert ok && !freeValue ==> n.repr !! w.repr;
    ghost var rest' := if ok && !freeValue then n.repr else {};
    Balance(live, whole, k0, k.repr, w.keys[i], rest', mem.live, w.repr);
  }

  /** The call on the child, which leaves everything else in the object alone. */
  method DotRemoveChild(mem: Mem, t: ObjectBlock, i: nat, rest: Bytes, freeValue: bool, ghost n: Value?)
    returns (ok: bool)
    requires Holds(mem, t.wrapper) && t.wrapper.payload == PObject(t)
    requires i < |t.wrapper.kids| && EntryIsObject(t.wrapper, i) && n == NodeAt(t.wrapper.kids[i], rest)
    modifies mem`live, t.wrapper.kids[i].repr - Spared(n, freeValue)
    ensures unchanged(t.wrapper, t) && Open(t.wrapper, t, i)
    ensures RemoveOutcome(mem, t.wrapper.kids[i], rest, n, freeValue, ok)
    decreases |rest|, 2
  {
    hide WellFormed, Value.Valid, Lookup, Value.Linked, Value.Owns, Union, Disjoint, DotRemove, Kid, NodeAt,
      ObjectBlock.Contents, ObjectBlock.Keys, EntryOk;
    var w := t.wrapper;
    ValueAt(t, i);
    ObjectPieces(w, t);
    UnionHolds(w.feet);
    DisjointFrom(w.feet, i);
    var k := t.values[i];
    EntryParts(w, k, w.keys[i], w.feet[i], w.tree.members[i]);
    var inner := k.payload.table;
    ObjectPieces(k, inner);
    NodeIsGet(k, rest);
    ok := DotRemoveInternal(mem, inner, rest, freeValue, n);
    ValidBasics(k);
  }

  /** What a change inside a child does to the blocks outside the parent. */
  lemma Balance(live: set<object>, w: set<object>, k: set<object>, k': set<object>, key: object, more: set<object>,
                live': set<object>, w': set<object>)
    requires k + {key} <= w <= live && key !in k
    requires live' == live - k + k' + more && w' == w - (k + {key}) + k' + {key}
    ensures live' == live - w + w' + more && w' <= live'
  {
  }

  ghost predicate EntryIsObject(w: Value, i: nat)
    reads w, w.repr
  {
    w.Valid() && w.tree.Object? && i < |w.kids| == |w.tree.members|
    && w.kids[i] in w.repr && w.kids[i].payload.PObject? && w.kids[i].Valid() && w.tree.members[i].value.Object?
  }

  /** An object that is valid but for entry `i`, whose child has changed inside. */
  ghost predicate Open(w: Value, t: ObjectBlock, i: nat)
    reads *
  {
    && w.payload == PObject(t) && t.wrapper == w && t.Shape() && w.tree.Object? && WellFormed(w.tree)
    && t.Contents() == w.kids && t.Keys() == w.keys
    && i < |w.kids| == |w.keys| == |w.feet| == |w.tree.members|
    && w.repr == w.Own() + Union(w.feet) && w.Own() !! Union(w.feet) && Disjoint(w.feet)
    && w.kids[i].Valid() && w.kids[i].parent == w && w.keys[i] !in w.kids[i].repr && w.keys[i] in w.feet[i]
    && w.kids[i].repr !! w.repr - w.feet[i] && w.keys[i].bytes == w.tree.members[i].name
    && forall j | 0 <= j < |w.kids| && j != i :: EntryOk(w, w.kids[j], w.keys[j], w.feet[j], w.tree.members[j])
  }

  /** Makes such an object valid again. */
  ghost method Relink(w: Value, t: ObjectBlock, i: nat)
    requires Open(w, t, i)
    modifies w`tree, w`repr, w`kids, w`keys, w`feet
    ensures w.Valid() && unchanged(w`kids, w`keys)
    ensures i < |w.kids| == |w.keys| == |old(w.feet)|
    ensures w.repr == old(w.repr - w.feet[i]) + w.kids[i].repr + {w.keys[i]}
    ensures old(w.tree.Object?) && i < |old(w.tree).members|
    ensures w.tree == Object(old(w.tree).members[i := Member(old(w.tree).members[i].name, w.kids[i].tree)])
  {
    hide WellFormed, Value.Valid, Value.Linked, Value.Owns, Union, Disjoint, EntryOk,
      ObjectBlock.Contents, ObjectBlock.Keys;
    var k := w.kids[i];
    ValidBasics(k);
    EntryIsOk(w, k, w.keys[i]);
    UnionHolds(w.feet);
    UpdateIsWellFormed(w.tree.members, i, k.tree);
    var foot := k.repr + {w.keys[i]};
    UnionUpdate(w.feet, i, foot);
    SetEntries(w, t, w.kids, w.keys, w.feet[i := foot], w.tree.members[i := Member(w.keys[i].bytes, k.tree)]);
  }

  /** A value that left `w` as it was. */
  twostate predicate Kept(n: Value?, w: Value)
    reads n, w, if n == null then {} else n.repr
  {
    n != null && n.Valid() && unchanged(n`repr, n`tree) && n.repr !! w.repr
  }

  // ---------------------------------------------------------------- setting

  lemma FindAfterSet(ms: seq<Member>, name: Bytes, x: Json)
    ensures Find(SetMember(ms, name, x), name) == Find(ms, name) < |SetMember(ms, name, x)|
  {
  }

  /**
   * What setting a path does. On success the tree is what `DotSet` says and the node at the path is the
   * value itself; on failure the tree is the old one, and there was a parent, a block in the way, or a
   * failed allocation. Either way no block is lost.
   */
  twostate predicate SetOutcome(mem: Mem, w: Value, path: Bytes, child: Value, ok: bool)
    reads mem, w, w.repr, child, child.repr
  {
    && mem.requests >= old(mem.requests)
    && Holds(mem, w) && unchanged(w`payload, w`parent) && w.payload.PObject? && old(w.tree.Object?)
    && fresh(w.repr - old(w.repr + child.repr)) && unchanged(child`repr, child`tree)
    && mem.live == old(Outside(mem, w)) + w.repr
    && var r := DotSet(old(w.tree).members, path, child.tree);
    if ok then
      && old(child.parent) == null && child.parent != null && child.repr <= w.repr
      && r.Some? && w.tree == Object(r.value) && NodeAt(w, path) == child
    else
      && w.tree == old(w.tree) && Holds(mem, child) && child.repr !! w.repr
      && (old(child.parent) != null || mem.FailedSince(old(mem.requests)) || r.None?)
  }

  /** How many requests setting a path makes when all of them are granted. */
  ghost function Needed(v: Value, path: Bytes): nat
    requires v.Valid() && v.payload.PObject?
    reads v`payload, v`tree, v`repr, v`kids, v`keys, v`feet, v.repr - {v}
    decreases |path|
  {
    ObjectPieces(v, v.payload.table);
    match FirstDot(path)
    case None => SetRequests(v.payload.table, v.tree.members, path)
    case Some(d) =>
      KidIsLookup(v, path[..d]);
      var k := Kid(v, path[..d]);
      if k == null then 5 * Missing(v.tree.members, path) + EntryRequests(v.payload.table)
      else if k.payload.PObject? then Needed(k, path[d + 1..]) else 0
  }

  /**
   * When setting a path succeeds, and what becomes of the parent pointer of a value that was not set. Of the
   * requests from `since` on, the call needs `need`; creating the `missing` objects and the innermost entry
   * takes the first `2 * missing + 3`. When those are granted and a later one fails, the value keeps as its
   * parent an object that has been freed.
   */
  ghost predicate Account(mem: Mem, since: nat, need: nat, missing: nat, free: bool, before: Value?, child: Value,
                          ok: bool)
    reads mem, child
  {
    && (ok <==> before == null && free && mem.Grants(since, need))
    && (ok ==> mem.requests == since + need)
    && (!ok && child.parent != before ==> child.parent != null && child.parent !in mem.live)
    && (!ok && before == null ==>
          (child.parent == null <==> missing == 0 || !mem.Grants(since, 2 * missing + 3)))
  }

  /** The account of a call for the path in `w`. */
  twostate predicate SetAccount(mem: Mem, w: Value, path: Bytes, child: Value, ok: bool)
    requires old(w.Valid() && w.payload.PObject? && w.tree.Object?)
    reads mem, w, w.repr, child
  {
    var ms := old(w.tree).members;
    Account(mem, old(mem.requests), old(Needed(w, path)), Missing(ms, path), DotSet(ms, path, child.tree).Some?,
            old(child.parent), child, ok)
  }

  /** Setting at the end of the path. */
  method SetHere(mem: Mem, t: ObjectBlock, path: Bytes, child: Value) returns (ok: bool)
    requires Holds(mem, t.wrapper) && t.wrapper.payload == PObject(t) && NulFree(path) && FirstDot(path).None?
    requires Holds(mem, child) && child.repr !! t.wrapper.repr
    modifies mem, t.wrapper.repr, child`parent
    ensures SetOutcome(mem, t.wrapper, path, child, ok) && SetAccount(mem, t.wrapper, path, child, ok)
  {
    hide WellFormed, Value.Valid, Lookup, Find, Value.Linked, Value.Owns, Union, Disjoint, SetMember, DotSet;
    var w := t.wrapper;
    ObjectPieces(w, t);
    ValidBasics(w);
    ValidBasics(child);
    FindAfterSet(w.tree.members, path, child.tree);
    SetNoDot(w.tree.members, path, child.tree);
    ok := SetValue(mem, t, path, child);
    KidIsLookup(w, path);
  }

  /** `json_object_dotset_value`: like `DotSet`, for a value without parent and unless an allocation fails. */
  method DotSetValue(mem: Mem, t: ObjectBlock, path: Bytes, child: Value) returns (ok: bool)
    requires Holds(mem, t.wrapper) && t.wrapper.payload == PObject(t) && NulFree(path)
    requires Holds(mem, child) && child.repr !! t.wrapper.repr
    modifies mem, t.wrapper.repr, child`parent
    ensures SetOutcome(mem, t.wrapper, path, child, ok) && SetAccount(mem, t.wrapper, path, child, ok)
    decreases |path|, 2
  {
    hide WellFormed, Value.Valid, Find, Value.Linked, Value.Owns, Union, Disjoint, SetMember, NodeAt,
      ObjectBlock.Contents, ObjectBlock.Keys;
    var w := t.wrapper;
    var dot := FirstDot(path);
    if dot.None? {
      ok := SetHere(mem, t, path, child);
      return;
    }
    var k := GetN(t, path[..dot.value]);
    if k == null {
      ok := DotSetNew(mem, t, path, dot.value, child);
    } else {
      KidIsLookup(w, path[..dot.value]);
      if k.payload.PObject? {
        ok := DotSetExisting(mem, t, path, dot.value, child);
      } else {
        ObjectPieces(w, t);
        ValidBasics(w);
        ok := false;
      }
    }
  }

  /** The case of a name that holds an object. */
  method DotSetExisting(mem: Mem, t: ObjectBlock, path: Bytes, d: nat, child: Value) returns (ok: bool)
    requires Holds(mem, t.wrapper) && t.wrapper.payload == PObject(t) && NulFree(path) && FirstDot(path) == Some(d)
    requires Holds(mem, child) && child.repr !! t.wrapper.repr
    requires Kid(t.wrapper, path[..d]) != null && Kid(t.wrapper, path[..d]).payload.PObject?
    modifies mem, t.wrapper.repr, child`parent
    ensures SetOutcome(mem, t.wrapper, path, child, ok) && SetAccount(mem, t.wrapper, path, child, ok)
    decreases |path|, 1
  {
    hide WellFormed, Value.Valid, Find, Value.Linked, Value.Owns, Union, Disjoint, SetMember, NodeAt, DotSet, Lookup,
      ObjectBlock.Contents, ObjectBlock.Keys, Needed, Missing, Account;
    var w := t.wrapper;
    var i := IndexOf(t, path[..d]);
    EntryFound(w, path, d, i);
    SetFound(w, path, d, i, child.tree);
    CostsThrough(w, path, d, i, child.tree);
    ok := DotSetInside(mem, t, i, path[d + 1..], child);
    if ok {
      EntryStays(w, path, d, i);
    }
  }

  /** Entry `i` is still the one that the path goes through. */
  lemma EntryStays(v: Value, path: Bytes, d: nat, i: nat)
    requires v.Valid() && v.payload.PObject? && v.tree.Object? && FirstDot(path) == Some(d)
    requires i < |v.kids| == |v.tree.members| && v.tree.members[i].name == path[..d]
    ensures v.kids[i].Valid() && NodeAt(v, path) == NodeAt(v.kids[i], path[d + 1..])
  {
    hide WellFormed, Value.Valid, Value.Linked, EntryOk, ObjectBlock.Contents, ObjectBlock.Keys;
    ObjectPieces(v, v.payload.table);
    assert DistinctNames(v.tree.members) by {
      LookupIsWellFormed(v.tree.members, path[..d]);
    }
    LookupByIndex(v.tree.members, i);
    KidIsLookup(v, path[..d]);
  }

  lemma SetFound(v: Value, path: Bytes, d: nat, i: nat, x: Json)
    requires EntryIsObject(v, i) && FirstDot(path) == Some(d)
    requires Find(v.tree.members, path[..d]) == i
    ensures var ms := v.tree.members;
            DotSet(ms, path, x) ==
            match DotSet(ms[i].value.members, path[d + 1..], x)
            case None => None
            case Some(inner) => Some(ms[i := Member(ms[i].name, Object(inner))])
  {
    hide WellFormed, Value.Valid;
    SetMemberAt(v.tree.members, path[..d]);
  }

  /** The costs of a path that goes on in the object in entry `i` are those of the rest in there. */
  lemma CostsThrough(v: Value, path: Bytes, d: nat, i: nat, x: Json)
    requires v.Valid() && v.payload.PObject? && EntryIsObject(v, i) && FirstDot(path) == Some(d)
    requires Find(v.tree.members, path[..d]) == i && Kid(v, path[..d]) != null && Kid(v, path[..d]).payload.PObject?
    ensures v.kids[i].Valid() && v.kids[i].payload.PObject? && v.kids[i].tree.Object?
    ensures var ms, inner, rest := v.tree.members, v.kids[i].tree.members, path[d + 1..];
            && Needed(v, path) == Needed(v.kids[i], rest) && Missing(ms, path) == Missing(inner, rest)
            && (DotSet(ms, path, x).Some? <==> DotSet(inner, rest, x).Some?)
  {
    hide WellFormed, Value.Valid, Lookup, SetMember;
    KidIsLookup(v, path[..d]);
    SetMemberAt(v.tree.members, path[..d]);
  }

  /** The recursive call on the object in entry `i`. */
  method DotSetInside(mem: Mem, t: ObjectBlock, i: nat, rest: Bytes, child: Value) returns (ok: bool)
    requires Holds(mem, t.wrapper) && t.wrapper.payload == PObject(t) && NulFree(rest)
    requires i < |t.wrapper.kids| && EntryIsObject(t.wrapper, i)
    requires Holds(mem, child) && child.repr !! t.wrapper.repr
    modifies mem, t.wrapper.repr, child`parent
    ensures mem.requests >= old(mem.requests)
    ensures Holds(mem, t.wrapper) && unchanged(t.wrapper`payload, t.wrapper`parent) && old(EntryIsObject(t.wrapper, i))
    ensures fresh(t.wrapper.repr - old(t.wrapper.repr + child.repr)) && unchanged(child`repr, child`tree)
    ensures mem.live == old(Outside(mem, t.wrapper)) + t.wrapper.repr
    ensures ok ==> old(child.parent) == null && child.parent != null && child.repr <= t.wrapper.repr
    ensures ok ==> t.wrapper.tree.Object? && i < |t.wrapper.kids| == |t.wrapper.tree.members|
    ensures ok ==> t.wrapper.kids[i].Valid() && NodeAt(t.wrapper.kids[i], rest) == child
    ensures ok ==> t.wrapper.tree.members[i].name == old(t.wrapper.tree).members[i].name
    ensures ok ==> var r := DotSet(old(t.wrapper.tree).members[i].value.members, rest, child.tree);
                   var name := old(t.wrapper.tree).members[i].name;
                   r.Some? && t.wrapper.tree == Object(old(t.wrapper.tree).members[i := Member(name, Object(r.value))])
    ensures !ok ==> t.wrapper.tree == old(t.wrapper.tree) && Holds(mem, child) && child.repr !! t.wrapper.repr
    ensures !ok ==> old(child.parent) != null || mem.FailedSince(old(mem.requests))
                    || DotSet(old(t.wrapper.tree).members[i].value.members, rest, child.tree) == None
    ensures SetAccount(mem, old(t.wrapper.kids)[i], rest, child, ok)
    decreases |rest|, 4
  {
    hide WellFormed, Value.Valid, Lookup, Value.Linked, Value.Owns, Union, Disjoint, DotSet, Kid, NodeAt,
      ObjectBlock.Contents, ObjectBlock.Keys, EntryOk, Open;
    var w := t.wrapper;
    KidLies(w, t, i);
    ValidBasics(child);
    ghost var k, members := w.kids[i], w.tree.members;
    assert members[i := Member(members[i].name, members[i].value)] == members;
    ghost var live, whole, k0 := mem.live, w.repr, k.repr;
    ok := DotSetChild(mem, t, i, rest, child);
    Relink(w, t, i);
    Balance(live, whole, k0, k.repr, w.keys[i], {}, mem.live, w.repr);
  }

  /** Where entry `i` lies in a valid object. */
  lemma KidLies(w: Value, t: ObjectBlock, i: nat)
    requires w.Valid() && w.payload == PObject(t) && i < |w.kids|
    ensures w.tree.Object? && |w.kids| == |w.keys| == |w.feet| == |w.tree.members| && w in w.repr && t.wrapper == w
    ensures w.feet[i] == w.kids[i].repr + {w.keys[i]} && w.keys[i] !in w.kids[i].repr && w.feet[i] <= w.repr
    ensures w.kids[i] in w.kids[i].repr && w !in w.feet[i] && t !in w.feet[i]
    ensures w.tree.members[i] == Member(w.keys[i].bytes, w.kids[i].tree)
    ensures w.kids[i].Valid() && w.kids[i].parent == w
  {
    hide WellFormed, Value.Valid, Value.Linked, Value.Owns, Union, Disjoint, ObjectBlock.Contents, ObjectBlock.Keys;
    ObjectPieces(w, t);
  }

  /** The call on the child, which leaves everything else in the object alone. */
  method DotSetChild(mem: Mem, t: ObjectBlock, i: nat, rest: Bytes, child: Value) returns (ok: bool)
    requires Holds(mem, t.wrapper) && t.wrapper.payload == PObject(t) && NulFree(rest)
    requires i < |t.wrapper.kids| && EntryIsObject(t.wrapper, i)
    requires Holds(mem, child) && child.repr !! t.wrapper.repr
    modifies mem, t.wrapper.kids[i].repr, child`parent
    ensures unchanged(t.wrapper, t) && Open(t.wrapper, t, i)
    ensures SetOutcome(mem, t.wrapper.kids[i], rest, child, ok) && SetAccount(mem, t.wrapper.kids[i], rest, child, ok)
    decreases |rest|, 3
  {
    hide WellFormed, Value.Valid, Lookup, Value.Linked, Value.Owns, Union, Disjoint, DotSet, Kid, NodeAt,
      ObjectBlock.Contents, ObjectBlock.Keys, EntryOk;
    var w := t.wrapper;
    ValueAt(t, i);
    ObjectPieces(w, t);
    UnionHolds(w.feet);
    DisjointFrom(w.feet, i);
    ValidBasics(child);
    var k := t.values[i];
    EntryParts(w, k, w.keys[i], w.feet[i], w.tree.members[i]);
    var inner := k.payload.table;
    ObjectPieces(k, inner);
    ok := DotSetValue(mem, inner, rest, child);
    ValidBasics(k);
  }

  /** In a new object nothing is in the way. */
  lemma {:induction false} SetInNew(path: Bytes, x: Json)
    ensures DotSet([], path, x).Some?
    decreases |path|
  {
    if FirstDot(path).Some? {
      SetInNew(path[FirstDot(path).value + 1..], x);
    }
  }

  /** In a new object every entry needs larger arrays first. */
  lemma NeededInNew(v: Value, path: Bytes)
    requires v.Valid() && v.payload.PObject? && v.payload.table.capacity == 0 && v.tree == Object([])
    ensures Needed(v, path) == 5 * Missing([], path) + 3
  {
    hide WellFormed, Value.Valid, Value.Linked, Kid;
    ObjectPieces(v, v.payload.table);
    if FirstDot(path).Some? {
      KidIsLookup(v, path[..FirstDot(path).value]);
    }
  }

  /** A new object with the value at the end of the path. */
  twostate predicate Chain(mem: Mem, new n: Value, path: Bytes, child: Value)
    reads mem, n, n.repr, child
  {
    && Holds(mem, n) && n.payload.PObject? && NodeAt(n, path) == child && child.repr <= n.repr
    && fresh(n) && fresh(n.repr - old(child.repr)) && mem.live == old(mem.live) + n.repr
    && DotSet([], path, child.tree).Some? && n.tree == Object(DotSet([], path, child.tree).value)
    && old(child.parent) == null && child.parent != null
  }

  /** The first half of the case of a missing name: builds the chain, or nothing. */
  method BuildChain(mem: Mem, path: Bytes, child: Value) returns (n: Value?)
    requires NulFree(path) && Holds(mem, child)
    modifies mem, child`parent
    ensures mem.requests >= old(mem.requests) && unchanged(child`repr, child`tree)
    ensures n == null ==> mem.live == old(mem.live) && Holds(mem, child)
    ensures n == null ==> old(child.parent) != null || mem.FailedSince(old(mem.requests))
    ensures n != null ==> Chain(mem, n, path, child)
    ensures var m := 1 + Missing([], path);
            Account(mem, old(mem.requests), 5 * m, m, true, old(child.parent), child, n != null)
    decreases |path|, 3
  {
    hide WellFormed, Value.Valid, Value.Linked, Value.Owns, Union, Disjoint, NodeAt, DotSet, Needed, Missing,
      ObjectBlock.Contents, ObjectBlock.Keys;
    n := InitObject(mem);
    if n == null {
      return;
    }
    ObjectPieces(n, n.payload.table);
    ValidBasics(child);
    SetInNew(path, child.tree);
    NeededInNew(n, path);
    var ok := DotSetValue(mem, n.payload.table, path, child);
    if !ok {
      Free(mem, n);
      n := null;
    }
  }

  /** Takes the value out again and frees the rest of the chain. */
  method UndoChain(mem: Mem, n: Value, path: Bytes, child: Value)
    requires Holds(mem, n) && n.payload.PObject? && NodeAt(n, path) == child
    modifies mem`live, n.repr - child.repr
    ensures Holds(mem, child) && unchanged(child`repr, child`tree)
    ensures child.parent != null && child.parent in old(n.repr) - child.repr
    ensures mem.live == old(mem.live) - old(n.repr) + child.repr
  {
    hide WellFormed, Value.Valid, Value.Linked, Value.Owns, Union, Disjoint, NodeAt,
      ObjectBlock.Contents, ObjectBlock.Keys;
    NodeIsGet(n, path);
    RemoveSucceedsIff(n.tree.members, path);
    ObjectPieces(n, n.payload.table);
    var ok := DotRemoveInternal(mem, n.payload.table, path, false, child);
    Free(mem, n);
  }

  /**
   * The second half: adds the chain under its name, or takes it apart again. Taking it apart does not reset
   * the value's parent, which is left pointing at an object that has been freed.
   */
  method AttachChain(mem: Mem, t: ObjectBlock, path: Bytes, d: nat, n: Value, child: Value) returns (ok: bool)
    requires Holds(mem, t.wrapper) && t.wrapper.payload == PObject(t) && NulFree(path) && FirstDot(path) == Some(d)
    requires t.wrapper.tree.Object? && Lookup(t.wrapper.tree.members, path[..d]) == None
    requires Holds(mem, n) && n.payload.PObject? && n.repr !! t.wrapper.repr && n !in child.repr
    requires NodeAt(n, path[d + 1..]) == child && child in child.repr && child.repr <= n.repr
    modifies mem, t.wrapper.repr, n.repr - child.repr
    ensures mem.requests >= old(mem.requests) && unchanged(t.wrapper`payload, t.wrapper`parent)
    ensures Holds(mem, t.wrapper) && fresh(t.wrapper.repr - old(t.wrapper.repr + n.repr))
    ensures ok ==> t.wrapper.tree == Object(old(t.wrapper.tree).members + [Member(path[..d], old(n.tree))])
    ensures ok ==> child.repr <= old(n.repr) <= t.wrapper.repr && NodeAt(t.wrapper, path) == child
    ensures ok ==> mem.live == old(Outside(mem, t.wrapper)) + t.wrapper.repr
    ensures !ok ==> t.wrapper.tree == old(t.wrapper.tree) && Holds(mem, child) && child.repr !! t.wrapper.repr
    ensures !ok ==> mem.live == old(Outside(mem, t.wrapper)) - old(n.repr) + child.repr + t.wrapper.repr
    ensures !ok ==> mem.FailedSince(old(mem.requests)) && child.parent == old(child.parent)
    ensures !ok ==> child.parent != null && child.parent !in mem.live
    ensures ok <==> mem.Grants(old(mem.requests), old(EntryRequests(t)))
    ensures ok ==> mem.requests == old(mem.requests + EntryRequests(t))
  {
    hide WellFormed, Value.Valid, Value.Linked, Value.Owns, Union, Disjoint, NodeAt, Lookup, Find,
      ObjectBlock.Contents, ObjectBlock.Keys, Arrays.NewCapacity;
    var w := t.wrapper;
    ObjectPieces(w, t);
    ValidBasics(w);
    ValidBasics(n);
    ok := AddN(mem, t, path[..d], n);
    if ok {
      EntryStays(w, path, d, |w.kids| - 1);
    } else {
      UndoChain(mem, n, path[d + 1..], child);
    }
  }

  /** The case of a missing name: a new object, set up first and then added. */
  method DotSetNew(mem: Mem, t: ObjectBlock, path: Bytes, d: nat, child: Value) returns (ok: bool)
    requires Holds(mem, t.wrapper) && t.wrapper.payload == PObject(t) && NulFree(path) && FirstDot(path) == Some(d)
    requires t.wrapper.tree.Object? && Lookup(t.wrapper.tree.members, path[..d]) == None
    requires Holds(mem, child) && child.repr !! t.wrapper.repr
    modifies mem, t.wrapper.repr, child`parent
    ensures SetOutcome(mem, t.wrapper, path, child, ok) && SetAccount(mem, t.wrapper, path, child, ok)
    decreases |path|, 0
  {
    hide WellFormed, Value.Valid, Value.Linked, Value.Owns, Union, Disjoint, NodeAt, DotSet, Lookup, Find,
      Needed, Missing, Account, FirstDot, EntryOk, Kid, ObjectBlock.Contents, ObjectBlock.Keys;
    var w := t.wrapper;
    ghost var m, since, cost := Missing(w.tree.members, path), mem.requests, EntryRequests(t);
    ObjectPieces(w, t);
    ValidBasics(w);
    ValidBasics(child);
    SetMissing(w.tree.members, path, d, child.tree);
    NeededForMissing(w, path, d);
    SetInNew(path[d + 1..], child.tree);
    assert DotSet(w.tree.members, path, child.tree).Some? && Needed(w, path) == 5 * m + cost;
    hide Missing, EntryRequests, Mem.Grants;
    var n := BuildChain(mem, path[d + 1..], child);
    if n == null {
      NotBuilt(mem, since, cost, m, old(child.parent), child);
      return false;
    }
    FullyBuilt(mem, since, m, old(child.parent), child);
    ghost var o, w0, n0 := Outside(mem, w) - n.repr + child.repr, w.repr, n.repr;
    assert Outside(mem, w) == o + n0 && o == old(Outside(mem, w)) && (n0 - child.repr) !! o;
    assert EntryRequests(t) == cost;
    ok := AttachChain(mem, t, path, d, n, child);
    Attached(mem, since, cost, m, child, ok);
    Settle(o, w0, n0, child.repr, mem.live, w.repr, ok);
  }

  /** The blocks after attaching: from outside, from the value, or from the chain. */
  lemma Settle(o: set<object>, w0: set<object>, n: set<object>, c: set<object>, live: set<object>, w: set<object>,
               ok: bool)
    requires c <= o && c <= n && (n - c) !! o && (ok ==> n <= w)
    requires live == if ok then o + n + w else (o + n) - n + c + w
    ensures live == o + w && w - (w0 + c) <= (w - (w0 + n)) + (n - c)
  {
  }

  /** The account of a call whose chain was not built. */
  lemma NotBuilt(mem: Mem, since: nat, cost: nat, m: nat, before: Value?, child: Value)
    requires Account(mem, since, 5 * m, m, true, before, child, false)
    ensures Account(mem, since, 5 * m + cost, m, true, before, child, false)
  {
  }

  lemma FullyBuilt(mem: Mem, since: nat, m: nat, before: Value?, child: Value)
    requires Account(mem, since, 5 * m, m, true, before, child, true)
    ensures before == null && mem.requests == since + 5 * m && mem.Grants(since, 5 * m)
  {
  }

  /** The account of a call whose chain was built, and then added or not. */
  lemma Attached(mem: Mem, since: nat, cost: nat, m: nat, child: Value, ok: bool)
    requires m > 0 && mem.Grants(since, 5 * m) && (ok <==> mem.Grants(since + 5 * m, cost))
    requires ok ==> mem.requests == since + 5 * m + cost
    requires !ok ==> child.parent != null && child.parent !in mem.live
    ensures Account(mem, since, 5 * m + cost, m, true, null, child, ok)
  {
  }

  lemma NeededForMissing(v: Value, path: Bytes, d: nat)
    requires v.Valid() && v.payload.PObject? && v.tree.Object? && FirstDot(path) == Some(d)
    requires Lookup(v.tree.members, path[..d]) == None
    ensures v.payload.table.wrapper == v
    ensures Missing(v.tree.members, path) == 1 + Missing([], path[d + 1..])
    ensures Needed(v, path) == 5 * Missing(v.tree.members, path) + EntryRequests(v.payload.table)
  {
    hide WellFormed, Value.Valid, Value.Linked, Kid, Lookup;
    ObjectPieces(v, v.payload.table);
    KidIsLookup(v, path[..d]);
  }

  lemma SetMissing(ms: seq<Member>, path: Bytes, d: nat, x: Json)
    requires FirstDot(path) == Some(d) && Lookup(ms, path[..d]) == None
    ensures DotSet(ms, path, x) ==
            match DotSet([], path[d + 1..], x)
            case None => None
            case Some(inner) => Some(ms + [Member(path[..d], Object(inner))])
  {
  }

  /** The path "a.b". */
  const AB: Bytes := [97, DOT, 98]

  lemma NewObjectOnPath()
    ensures Missing([], AB) == 1
  {
    FirstDotAt(AB, 1);
    assert FirstDot(AB[2..]).None?;
  }

  /**
   * A value whose parent is lost: an empty object, the path "a.b", and a schedule that refuses only the sixth of
   * the call's eight requests, the first one for adding the new object to the old one. The call fails and takes
   * everything back, but for the parent of the value, which is a freed block.
   */
  method LoseParent(mem: Mem, w: Value, child: Value) returns (ok: bool)
    requires Holds(mem, w) && Holds(mem, child) && child.repr !! w.repr && child.parent == null
    requires w.payload.PObject? && w.payload.table.capacity == 0 && w.tree == Object([])
    requires forall k :: mem.fails(k) <==> k == mem.requests + 5
    modifies mem, w.repr, child`parent
    ensures !ok && Holds(mem, w) && w.tree == Object([]) && Holds(mem, child)
    ensures mem.live == old(Outside(mem, w)) + w.repr && unchanged(child`repr)
    ensures child.parent != null && child.parent !in mem.live
  {
    hide WellFormed, Value.Linked, Value.Valid, Union, Disjoint, Needed, DotSet, Missing;
    ObjectPieces(w, w.payload.table);
    NeededInNew(w, AB);
    NewObjectOnPath();
    assert mem.fails(mem.requests + 5);
    ok := DotSetValue(mem, w.payload.table, AB, child);
  }

  /** The same from scratch: making the object and the value takes three requests, and the ninth is refused. */
  method LostParent() returns (mem: Mem, w: Value, child: Value, ok: bool)
    ensures Holds(mem, w) && w.tree == Object([]) && Holds(mem, child) && mem.live == w.repr + child.repr
    ensures !ok && child.parent != null && child.parent !in mem.live
  {
    hide WellFormed, Value.Linked, Value.Valid, Union, Disjoint;
    mem := new Mem(k => k == 8);
    var o := InitObject(mem);
    var v := InitScalar(mem, PNull, Null);
    w, child := o, v;
    ok := LoseParent(mem, w, child);
  }
}
