/**
 * The C structures: values with parent pointers, growable arrays and objects with parallel arrays,
 * all of them blocks of one allocator.
 */
module Heap {
  import opened Bytes
  import opened Json
  import opened Members
  import opened Memory
  import opened StringReader
  import opened Utf8

  /** The union of `JSON_Value`. */
  datatype Payload =
    | PNull
    | PBoolean(boolean: bool)
    | PNumber(number: real)
    | PString(text: CString)
    | PArray(elements: ArrayBlock)
    | PObject(table: ObjectBlock)

  function Without<T>(xs: seq<T>, i: nat): seq<T>
    requires i < |xs|
  {
    xs[..i] + xs[i + 1..]
  }

  /** `struct json_array_t`. */
  class ArrayBlock {
    const wrapper: Value
    var items: array?<Value?>
    var count: nat
    var capacity: nat
    /** How many items the reallocations have copied so far. */
    ghost var copied: nat

    constructor (wrapper: Value)
      ensures this.wrapper == wrapper && items == null && count == 0 && capacity == 0 && copied == 0
    {
      this.wrapper := wrapper;
      items, count, capacity, copied := null, 0, 0, 0;
    }

    predicate Shape()
      reads this
    {
      count <= capacity && (items == null <==> capacity == 0) && (items != null ==> items.Length == capacity)
    }

    ghost function Contents(): seq<Value?>
      requires Shape()
      reads this, items
    {
      if items == null then [] else items[..count]
    }

    /** The end of `json_array_resize`: copies the items to a new block. */
    method Move(block: array<Value?>)
      requires Shape() && count <= block.Length && block.Length > 0 && block != items
      modifies this`items, this`capacity, this`copied, block
      ensures Shape() && items == block && capacity == block.Length && Contents() == old(Contents())
      ensures copied == old(copied) + count
    {
      copied := copied + count;
      forall k | 0 <= k < count {
        block[k] := items[k];
      }
      items, capacity := block, block.Length;
    }

    /** The end of `json_array_add`. */
    method Append(child: Value)
      requires Shape() && count < capacity
      modifies this`count, items
      ensures Shape() && Contents() == old(Contents()) + [child] && count == old(count) + 1
    {
      items[count] := child;
      count := count + 1;
    }

    /** The `memmove` of `json_array_remove`. */
    method Drop(ix: nat)
      requires Shape() && ix < count
      modifies this`count, items
      ensures Shape() && Contents() == Without(old(Contents()), ix)
    {
      forall k | ix <= k < count - 1 {
        items[k] := items[k + 1];
      }
      count := count - 1;
    }
  }

  /** `struct json_object_t`: parallel arrays of names and values. */
  class ObjectBlock {
    const wrapper: Value
    var names: array?<CString?>
    var values: array?<Value?>
    var count: nat
    var capacity: nat

    constructor (wrapper: Value)
      ensures this.wrapper == wrapper && names == null && values == null && count == 0 && capacity == 0
    {
      this.wrapper := wrapper;
      names, values, count, capacity := null, null, 0, 0;
    }

    predicate Shape()
      reads this
    {
      && count <= capacity && (names == null <==> capacity == 0) && (values == null <==> capacity == 0)
      && (names != null ==> names.Length == capacity) && (values != null ==> values.Length == capacity)
    }

    ghost function Keys(): seq<CString?>
      requires Shape()
      reads this, names
    {
      if names == null then [] else names[..count]
    }

    ghost function Contents(): seq<Value?>
      requires Shape()
      reads this, values
    {
      if values == null then [] else values[..count]
    }

    /** The end of `json_object_resize`: copies the entries to new blocks. */
    method Move(nameBlock: array<CString?>, valueBlock: array<Value?>)
      requires Shape() && count <= nameBlock.Length == valueBlock.Length && nameBlock.Length > 0
      requires nameBlock != names && valueBlock != values
      modifies this`names, this`values, this`capacity, nameBlock, valueBlock
      ensures Shape() && names == nameBlock && values == valueBlock && capacity == nameBlock.Length
      ensures Contents() == old(Contents()) && Keys() == old(Keys())
    {
      forall k | 0 <= k < count {
        nameBlock[k] := names[k];
      }
      forall k | 0 <= k < count {
        valueBlock[k] := values[k];
      }
      names, values, capacity := nameBlock, valueBlock, nameBlock.Length;
    }

    /** The end of `json_object_addn`. */
    method Append(name: CString, child: Value)
      requires Shape() && count < capacity
      modifies this`count, names, values
      ensures Shape() && Keys() == old(Keys()) + [name] && Contents() == old(Contents()) + [child]
    {
      names[count] := name;
      values[count] := child;
      count := count + 1;
    }

    /** The end of `json_object_remove_internal`: the last entry takes the place of entry `i`. */
    method Drop(i: nat)
      requires Shape() && i < count
      modifies this`count, names, values
      ensures Shape() && Keys() == SwapRemove(old(Keys()), i) && Contents() == SwapRemove(old(Contents()), i)
    {
      var last := count - 1;
      if i != last {
        names[i] := names[last];
        values[i] := values[last];
      }
      count := last;
    }

    /** The end of `json_object_set_value` for a name that is present. */
    method Replace(i: nat, child: Value)
      requires Shape() && i < count
      modifies values
      ensures Shape() && Keys() == old(Keys()) && Contents() == old(Contents())[i := child]
    {
      values[i] := child;
    }
  }

  // ---------------------------------------------------------------- footprints

  ghost function Union(feet: seq<set<object>>): set<object> {
    set i, o | 0 <= i < |feet| && o in feet[i] :: o
  }

  ghost predicate Disjoint(feet: seq<set<object>>) {
    forall i, j | 0 <= i < j < |feet| :: feet[i] !! feet[j]
  }

  lemma UnionNone()
    ensures Union([]) == {} && Disjoint([])
  {
  }

  lemma UnionHolds(feet: seq<set<object>>)
    ensures forall i | 0 <= i < |feet| :: feet[i] <= Union(feet)
  {
  }

  lemma DisjointFrom(feet: seq<set<object>>, i: nat)
    requires Disjoint(feet) && i < |feet|
    ensures forall j | 0 <= j < |feet| && j != i :: feet[j] !! feet[i]
  {
  }

  lemma UnionAppend(feet: seq<set<object>>, f: set<object>)
    ensures Union(feet + [f]) == Union(feet) + f
    ensures Disjoint(feet) && f !! Union(feet) ==> Disjoint(feet + [f])
  {
    var all := feet + [f];
    forall o | o in Union(feet) + f ensures o in Union(all) {
      if o in f {
        assert o in all[|feet|];
      } else {
        var i :| 0 <= i < |feet| && o in feet[i];
        assert o in all[i];
      }
    }
    if Disjoint(feet) && f !! Union(feet) {
      forall i, j | 0 <= i < j < |all| ensures all[i] !! all[j] {
        if j == |feet| {
          assert all[i] <= Union(feet);
        }
      }
    }
  }

  lemma UnionUpdate(feet: seq<set<object>>, i: nat, f: set<object>)
    requires i < |feet| && Disjoint(feet) && f !! Union(feet) - feet[i]
    ensures Union(feet[i := f]) == Union(feet) - feet[i] + f && Disjoint(feet[i := f])
  {
    var all := feet[i := f];
    forall o | o in Union(all) ensures o in Union(feet) - feet[i] + f {
      var k :| 0 <= k < |all| && o in all[k];
      if k != i {
        assert o in feet[k];
        assert feet[k] !! feet[i];
      }
    }
    forall o | o in Union(feet) - feet[i] + f ensures o in Union(all) {
      if o in f {
        assert o in all[i];
      } else {
        var k :| 0 <= k < |feet| && o in feet[k];
        assert o in all[k];
      }
    }
    forall j, k | 0 <= j < k < |all| ensures all[j] !! all[k] {
      if j == i {
        assert feet[k] <= Union(feet) - feet[i];
      } else if k == i {
        assert feet[j] <= Union(feet) - feet[i];
      }
    }
  }

  lemma UnionRemove(feet: seq<set<object>>, i: nat)
    requires i < |feet| && Disjoint(feet)
    ensures Union(Without(feet, i)) == Union(feet) - feet[i] && Disjoint(Without(feet, i))
  {
    var rest := Without(feet, i);
    forall o | o in Union(rest) ensures o in Union(feet) - feet[i] {
      var k :| 0 <= k < |rest| && o in rest[k];
      var j := if k < i then k else k + 1;
      assert o in feet[j] && feet[j] !! feet[i];
    }
    forall o | o in Union(feet) - feet[i] ensures o in Union(rest) {
      var k :| 0 <= k < |feet| && o in feet[k];
      assert o in rest[if k < i then k else k - 1];
    }
  }

  /** Dropping the last footprint. */
  lemma UnionDropLast(feet: seq<set<object>>)
    requires feet != [] && Disjoint(feet)
    ensures Union(feet[..|feet| - 1]) == Union(feet) - feet[|feet| - 1] && Disjoint(feet[..|feet| - 1])
  {
    var n := |feet| - 1;
    assert feet == feet[..n] + [feet[n]];
    UnionAppend(feet[..n], feet[n]);
    forall o | o in Union(feet[..n]) ensures o !in feet[n] {
      var k :| 0 <= k < n && o in feet[..n][k];
      assert o in feet[k] && feet[k] !! feet[n];
    }
  }

  // ---------------------------------------------------------------- values

  /** `struct json_value_t`, with the tree it stands for and the blocks it owns. */
  class Value {
    var parent: Value?
    var payload: Payload
    ghost var tree: Json
    ghost var repr: set<object>
    /** The children, the name blocks of an object, and what each entry owns. */
    ghost var kids: seq<Value>
    ghost var keys: seq<CString>
    ghost var feet: seq<set<object>>

    constructor (payload: Payload, ghost tree: Json)
      ensures this.payload == payload && this.tree == tree && parent == null
      ensures kids == [] && keys == [] && feet == [] && repr == {this}
    {
      this.payload := payload;
      this.tree := tree;
      parent, kids, keys, feet := null, [], [], [];
      repr := {this};
    }

    /** The blocks of this value itself, without its entries. */
    ghost function Own(): set<object>
      reads this`payload
      reads match payload case PArray(a) => {a as object} case PObject(t) => {t as object} case _ => {}
    {
      match payload
      case PArray(a) => {this, a} + Maybe(a.items)
      case PObject(t) => {this, t} + Maybe(t.names) + Maybe(t.values)
      case PString(s) => {this, s}
      case _ => {this}
    }

    static ghost function Maybe(block: object?): set<object> {
      if block == null then {} else {block}
    }

    /**
     * The structure under this value is a tree of live, pairwise different blocks that stands for
     * `tree`: `repr` is exactly what freeing it frees. Nothing is said about this value's own parent.
     */
    ghost predicate Valid()
      reads this`payload, this`tree, this`repr, this`kids, this`keys, this`feet, repr - {this}
      decreases repr
    {
      && WellFormed(tree) && Linked()
      && forall i | 0 <= i < |kids| :: kids[i].Valid()
    }

    /** Everything but the validity of the children. */
    ghost predicate Linked()
      reads this`payload, this`tree, this`repr, this`kids, this`keys, this`feet, repr - {this}
    {
      && this in repr
      && match payload
         case PNull => tree == Null && repr == {this} && kids == []
         case PBoolean(b) => tree == Bool(b) && repr == {this} && kids == []
         case PNumber(x) => tree == Number(x) && repr == {this} && kids == []
         case PString(s) => tree == Str(CView(s.bytes)) && repr == {this, s} && kids == []
         case PArray(a) => a in repr && Owns() && ArrayAgrees(a)
         case PObject(t) => t in repr && Owns() && ObjectAgrees(t)
    }

    /** The own blocks and the entries share nothing and make up `repr`; the children know their parent. */
    ghost predicate Owns()
      requires this in repr
      requires match payload case PArray(a) => a in repr case PObject(t) => t in repr case _ => true
      reads this`payload, this`repr, this`kids, this`feet, repr - {this}
    {
      && repr == Own() + Union(feet) && Own() !! Union(feet) && Disjoint(feet)
      && |kids| == |feet|
      && forall i | 0 <= i < |kids| ::
           && kids[i] in feet[i] && kids[i] in repr - {this} && kids[i].repr <= feet[i] && kids[i].parent == this
    }

    /** The block of an array, the children and the tree agree. */
    ghost predicate ArrayAgrees(a: ArrayBlock)
      requires this in repr && payload == PArray(a) && a in repr && Owns()
      reads this`payload, this`tree, this`repr, this`kids, this`feet, repr - {this}
    {
      && a.wrapper == this && a.Shape() && a.Contents() == kids
      && tree.Array? && |kids| == |tree.items|
      && forall i | 0 <= i < |kids| :: feet[i] == kids[i].repr && kids[i].tree == tree.items[i]
    }

    /** The parallel arrays of an object, the children and the tree agree. */
    ghost predicate ObjectAgrees(t: ObjectBlock)
      requires this in repr && payload == PObject(t) && t in repr && Owns()
      reads this`payload, this`tree, this`repr, this`kids, this`keys, this`feet, repr - {this}
    {
      && t.wrapper == this && t.Shape() && t.Contents() == kids && t.Keys() == keys
      && tree.Object? && |keys| == |kids| == |tree.members|
      && forall i | 0 <= i < |kids| ::
           && feet[i] == kids[i].repr + {keys[i]} && keys[i] !in kids[i].repr
           && Member(keys[i].bytes, kids[i].tree) == tree.members[i]
    }
  }

  /** A valid value whose blocks are all live, and which does not own the allocator. */
  ghost predicate Holds(mem: Mem, v: Value)
    reads mem, v, v.repr
  {
    v.Valid() && v.repr <= mem.live && mem !in v.repr
  }

  /** The live blocks that do not belong to the value. */
  ghost function Outside(mem: Mem, v: Value): set<object>
    reads mem, v
  {
    mem.live - v.repr
  }

  lemma ValidBasics(v: Value)
    requires v.Valid()
    ensures v in v.repr && WellFormed(v.tree)
  {
    hide WellFormed;
  }

  lemma OwnBlocks(v: Value)
    requires v.Valid()
    ensures v.Own() <= v.repr
  {
    hide WellFormed, Union, Disjoint;
  }

  /** The pieces of a valid array. */
  lemma ArrayPieces(v: Value, a: ArrayBlock)
    requires v.Valid() && v.payload == PArray(a)
    ensures a.wrapper == v && a.Shape() && v.tree.Array? && WellFormed(v.tree)
    ensures a.Contents() == v.kids && |v.kids| == |v.feet| == |v.tree.items| == a.count
    ensures v.repr == v.Own() + Union(v.feet) && v.Own() !! Union(v.feet) && Disjoint(v.feet)
    ensures forall i | 0 <= i < |v.kids| ::
              Sound(v, v.kids[i]) && v.feet[i] == v.kids[i].repr && v.kids[i].tree == v.tree.items[i]
  {
    hide WellFormed, Union, Disjoint;
    UnionHolds(v.feet);
  }

  /** A valid child whose blocks do not touch the parent's own. */
  ghost predicate Sound(v: Value, kid: Value)
    reads v`payload, v`repr, v.repr, kid, kid.repr
  {
    kid.Valid() && kid.parent == v && kid in kid.repr && kid.repr <= v.repr && v !in kid.repr
    && match v.payload
       case PArray(a) => a in v.repr && kid.repr !! v.Own()
       case PObject(t) => t in v.repr && kid.repr !! v.Own()
       case _ => true
  }

  /** The pieces of a valid object. */
  lemma ObjectPieces(v: Value, t: ObjectBlock)
    requires v.Valid() && v.payload == PObject(t)
    ensures t.wrapper == v && t.Shape() && v.tree.Object? && WellFormed(v.tree)
    ensures t.Contents() == v.kids && t.Keys() == v.keys
    ensures |v.keys| == |v.kids| == |v.feet| == |v.tree.members| == t.count
    ensures v.repr == v.Own() + Union(v.feet) && v.Own() !! Union(v.feet) && Disjoint(v.feet)
    ensures forall i | 0 <= i < |v.kids| ::
              && EntryOk(v, v.kids[i], v.keys[i], v.feet[i], v.tree.members[i])
              && v.kids[i] in v.feet[i] && v.kids[i].repr <= v.feet[i] <= v.repr - v.Own()
  {
    hide WellFormed, Union, Disjoint;
    UnionHolds(v.feet);
  }

  /** A valid child of `v` and its name block, which make up `foot` and stand for the member `m`. */
  ghost predicate EntryOk(v: Value, kid: Value, key: CString, foot: set<object>, m: Member)
    reads kid, kid.repr
  {
    && kid.Valid() && kid in kid.repr && kid.parent == v
    && foot == kid.repr + {key} && key !in kid.repr && Member(key.bytes, kid.tree) == m
  }

  /** The parts of an entry, in both directions. */
  lemma EntryParts(v: Value, kid: Value, key: CString, foot: set<object>, m: Member)
    requires EntryOk(v, kid, key, foot, m)
    ensures kid.Valid() && kid in kid.repr && kid.parent == v && foot == kid.repr + {key} && key !in kid.repr
    ensures m == Member(key.bytes, kid.tree)
  {
  }

  lemma EntryIsOk(v: Value, kid: Value, key: CString)
    requires kid.Valid() && kid.parent == v && key !in kid.repr
    ensures EntryOk(v, kid, key, kid.repr + {key}, Member(key.bytes, kid.tree))
  {
    ValidBasics(kid);
  }

  lemma ObjectIsValid(v: Value, t: ObjectBlock)
    requires v.payload == PObject(t) && t.wrapper == v && t.Shape() && v.tree.Object? && WellFormed(v.tree)
    requires t.Contents() == v.kids && t.Keys() == v.keys && |v.keys| == |v.kids| == |v.feet| == |v.tree.members|
    requires v.repr == v.Own() + Union(v.feet) && v.Own() !! Union(v.feet) && Disjoint(v.feet)
    requires forall i | 0 <= i < |v.kids| :: EntryOk(v, v.kids[i], v.keys[i], v.feet[i], v.tree.members[i])
    ensures v.Valid()
  {
    hide Union, Disjoint, WellFormed;
    UnionHolds(v.feet);
  }

  /** Records the items that the block of an array holds by now. */
  ghost method SetItems(v: Value, a: ArrayBlock, kids: seq<Value>, feet: seq<set<object>>, items: seq<Json>)
    requires v.payload == PArray(a) && a.wrapper == v && a.Shape() && WellFormed(Array(items))
    requires a.Contents() == kids && |kids| == |feet| == |items|
    requires v.Own() !! Union(feet) && Disjoint(feet)
    requires forall i | 0 <= i < |kids| ::
               kids[i].Valid() && kids[i] in kids[i].repr && kids[i].parent == v
               && feet[i] == kids[i].repr && kids[i].tree == items[i]
    modifies v`tree, v`repr, v`kids, v`feet
    ensures v.Valid() && v.kids == kids && v.feet == feet && v.tree == Array(items)
    ensures v.repr == v.Own() + Union(feet)
  {
    hide Union, Disjoint, WellFormed;
    UnionHolds(feet);
    v.kids, v.feet, v.tree, v.repr := kids, feet, Array(items), v.Own() + Union(feet);
  }

  /** Records the entries that the blocks of an object hold by now. */
  ghost method SetEntries(v: Value, t: ObjectBlock, kids: seq<Value>, keys: seq<CString>, feet: seq<set<object>>,
                          members: seq<Member>)
    requires v.payload == PObject(t) && t.wrapper == v && t.Shape() && WellFormed(Object(members))
    requires t.Contents() == kids && t.Keys() == keys && |keys| == |kids| == |feet| == |members|
    requires v.Own() !! Union(feet) && Disjoint(feet)
    requires forall i | 0 <= i < |kids| :: EntryOk(v, kids[i], keys[i], feet[i], members[i])
    modifies v`tree, v`repr, v`kids, v`keys, v`feet
    ensures v.Valid() && v.kids == kids && v.keys == keys && v.feet == feet && v.tree == Object(members)
    ensures v.repr == v.Own() + Union(feet)
  {
    hide Union, Disjoint, WellFormed, Value.Valid;
    UnionHolds(feet);
    forall i | 0 <= i < |kids| ensures kids[i] in kids[i].repr && kids[i].repr <= feet[i] {
    }
    hide EntryOk;
    v.kids, v.keys, v.feet, v.tree := kids, keys, feet, Object(members);
    v.repr := v.Own() + Union(feet);
    ObjectIsValid(v, t);
  }

  /** What an allocating constructor promises: a valid, parentless value in new blocks, or nothing at all. */
  twostate predicate Made(mem: Mem, new v: Value?, tree: Json)
    reads mem, v, if v == null then {} else v.repr
  {
    if v == null then mem.live == old(mem.live) && mem.FailedSince(old(mem.requests))
    else Built(mem, v, tree)
  }

  /** A valid, parentless value in new blocks, and no other new block. */
  twostate predicate Built(mem: Mem, new v: Value, tree: Json)
    reads mem, v, v.repr
  {
    v.Valid() && v.parent == null && v.tree == tree && fresh(v) && fresh(v.repr) && mem.live == old(mem.live) + v.repr
  }

  /** `json_value_init_null`, and the boolean and number variants. */
  method InitScalar(mem: Mem, payload: Payload, ghost tree: Json) returns (v: Value?)
    requires (payload == PNull && tree == Null)
          || (payload.PBoolean? && tree == Bool(payload.boolean))
          || (payload.PNumber? && tree == Number(payload.number))
    modifies mem
    ensures mem.requests == old(mem.requests) + 1 && (v != null <==> mem.Grants(old(mem.requests), 1))
    ensures Made(mem, v, tree)
  {
    var w := new Value(payload, tree);
    var granted := mem.Malloc(w);
    v := if granted then w else null;
  }

  lemma EmptyArrayIsValid(w: Value, a: ArrayBlock)
    requires w.payload == PArray(a) && w.tree == Array([]) && w.kids == [] && w.feet == [] && w.repr == {w, a}
    requires a.wrapper == w && a.items == null && a.count == a.capacity == 0
    ensures w.Valid()
  {
    UnionNone();
  }

  lemma EmptyObjectIsValid(w: Value, t: ObjectBlock)
    requires w.payload == PObject(t) && w.tree == Object([]) && w.kids == [] && w.feet == [] && w.repr == {w, t}
    requires t.wrapper == w && t.names == null && t.values == null && t.count == t.capacity == 0
    requires w.keys == []
    ensures w.Valid()
  {
    UnionNone();
  }

  /** `json_value_init_array`: two blocks, or none. */
  method InitArray(mem: Mem) returns (v: Value?)
    modifies mem
    ensures mem.requests >= old(mem.requests)
    ensures Made(mem, v, Array([]))
    ensures v != null ==> v.payload.PArray? && v.payload.elements.count == v.payload.elements.copied == 0
    ensures v != null ==> v.payload.elements.capacity == 0
  {
    hide Union, Disjoint, Value.Valid, WellFormed;
    v := null;
    var w := new Value(PNull, Array([]));
    var granted := mem.Malloc(w);
    if !granted {
      return;
    }
    var a := new ArrayBlock(w);
    granted := mem.Malloc(a);
    if !granted {
      mem.Free(w);
      return;
    }
    w.payload := PArray(a);
    w.repr := {w, a};
    EmptyArrayIsValid(w, a);
    v := w;
  }

  /** `json_value_init_object`: two blocks, or none. */
  method InitObject(mem: Mem) returns (v: Value?)
    modifies mem
    ensures mem.requests >= old(mem.requests)
    ensures Made(mem, v, Object([]))
    ensures v != null <==> mem.Grants(old(mem.requests), 2)
    ensures v != null ==> mem.requests == old(mem.requests) + 2
    ensures v != null ==> v.payload.PObject? && v.payload.table.count == v.payload.table.capacity == 0
  {
    hide Union, Disjoint, Value.Valid, WellFormed;
    v := null;
    var w := new Value(PNull, Object([]));
    var granted := mem.Malloc(w);
    if !granted {
      return;
    }
    var t := TableInit(mem, w);
    if t == null {
      mem.Free(w);
      return;
    }
    w.payload := PObject(t);
    w.repr := {w, t};
    EmptyObjectIsValid(w, t);
    v := w;
  }

  /** `json_object_init`. */
  method TableInit(mem: Mem, w: Value) returns (t: ObjectBlock?)
    modifies mem
    ensures mem.requests == old(mem.requests) + 1 && (t != null <==> mem.Grants(old(mem.requests), 1))
    ensures t == null ==> mem.live == old(mem.live)
    ensures t != null ==> fresh(t) && t.wrapper == w && t.names == null && t.values == null
    ensures t != null ==> t.count == t.capacity == 0 && mem.live == old(mem.live) + {t}
  {
    var table := new ObjectBlock(w);
    var granted := mem.Malloc(table);
    t := if granted then table else null;
  }

  /** `json_value_init_string_no_copy`: takes over the block of the string, or leaves it to the caller. */
  method InitStringNoCopy(mem: Mem, s: CString) returns (v: Value?)
    modifies mem
    ensures mem.requests >= old(mem.requests)
    ensures v == null ==> mem.live == old(mem.live) && mem.FailedSince(old(mem.requests))
    ensures v != null ==> fresh(v) && v.Valid() && v.parent == null && v.tree == Str(CView(s.bytes))
    ensures v != null ==> v.repr == {v, s} && mem.live == old(mem.live) + {v}
  {
    v := null;
    var w := new Value(PString(s), Str(CView(s.bytes)));
    var granted := mem.Malloc(w);
    if granted {
      w.repr := {w, s};
      v := w;
    }
  }

  /** `parson_strndup` of a piece of a C string. */
  method Strndup(mem: Mem, name: Bytes) returns (s: CString?)
    modifies mem
    ensures mem.requests >= old(mem.requests)
    ensures s == null ==> mem.live == old(mem.live) && mem.FailedSince(old(mem.requests))
    ensures mem.requests == old(mem.requests) + 1 && (s != null <==> mem.Grants(old(mem.requests), 1))
    ensures s != null ==> fresh(s) && s.bytes == name && mem.live == old(mem.live) + {s}
  {
    var copy := new CString(name);
    var granted := mem.Malloc(copy);
    s := if granted then copy else null;
  }

  /** `json_value_init_string`: refuses exactly what is not UTF-8. */
  method InitString(mem: Mem, text: Bytes) returns (v: Value?)
    requires NulFree(text)
    modifies mem
    ensures v == null ==> mem.live == old(mem.live) && (!IsUtf8(text) || mem.FailedSince(old(mem.requests)))
    ensures v != null ==> IsUtf8(text) && Built(mem, v, Str(text))
  {
    hide IsUtf8, CView, Value.Valid;
    v := null;
    var ok := IsValidUtf8(text);
    if !ok {
      return;
    }
    var copy := Strndup(mem, text);
    if copy == null {
      return;
    }
    CViewOfNulFree(text);
    v := InitStringNoCopy(mem, copy);
    if v == null {
      mem.Free(copy);
    }
  }
}
