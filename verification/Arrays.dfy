/** Growable arrays: growing, adding, removing and clearing. */
module Arrays {
  import opened Json
  import opened Memory
  import opened Heap
  import opened Release

  const STARTING_CAPACITY: nat := 16

  function NewCapacity(capacity: nat): nat {
    if 2 * capacity > STARTING_CAPACITY then 2 * capacity else STARTING_CAPACITY
  }

  /** The capacity of an array or object after `n` additions to an empty one. */
  function CapacityAfter(n: nat): nat {
    if n == 0 then 0
    else
      var c := CapacityAfter(n - 1);
      if n - 1 >= c then NewCapacity(c) else c
  }

  /** How many entries the reallocations have copied by then. */
  function CopiedAfter(n: nat): nat {
    if n == 0 then 0 else CopiedAfter(n - 1) + if n - 1 >= CapacityAfter(n - 1) then n - 1 else 0
  }

  /** Doubling keeps the copying linear: `n` additions copy fewer than `2 * n` entries. */
  lemma {:induction false} DoublingIsLinear(n: nat)
    requires n > 0
    ensures CopiedAfter(n) + 16 == CapacityAfter(n) && n <= CapacityAfter(n) < 2 * n + 16
    ensures CopiedAfter(n) < 2 * n
  {
    if n == 1 {
      assert CapacityAfter(0) == 0 && CopiedAfter(0) == 0;
    } else {
      DoublingIsLinear(n - 1);
    }
  }

  /** An array that has only been added to since it was made. */
  ghost predicate OnlyGrown(a: ArrayBlock)
    reads a
  {
    a.capacity == CapacityAfter(a.count) && a.copied == CopiedAfter(a.count)
  }

  /** However many items have been added, the reallocations have copied fewer than twice as many. */
  lemma CopyingIsLinear(a: ArrayBlock)
    requires OnlyGrown(a)
    ensures a.copied <= 2 * a.count && (a.count > 0 ==> a.copied < 2 * a.count)
    ensures a.capacity < 2 * a.count + 16
  {
    if a.count > 0 {
      DoublingIsLinear(a.count);
    }
  }

  /** `json_array_resize`: the tree stays, the items move to another block. */
  method Resize(mem: Mem, a: ArrayBlock, newCapacity: nat) returns (ok: bool)
    requires Holds(mem, a.wrapper) && a.wrapper.payload == PArray(a) && a.count <= newCapacity
    modifies mem, a, a.wrapper`tree, a.wrapper`repr, a.wrapper`kids, a.wrapper`feet
    ensures mem.requests >= old(mem.requests)
    ensures Holds(mem, a.wrapper) && a.count == old(a.count)
    ensures unchanged(a.wrapper`tree, a.wrapper`kids, a.wrapper`feet)
    ensures Outside(mem, a.wrapper) == old(Outside(mem, a.wrapper)) && fresh(a.wrapper.repr - old(a.wrapper.repr))
    ensures ok ==> a.capacity == newCapacity && newCapacity > 0 && a.copied == old(a.copied) + a.count
    ensures !ok ==> unchanged(a, a.wrapper) && mem.live == old(mem.live)
    ensures !ok ==> newCapacity == 0 || mem.FailedSince(old(mem.requests))
  {
    hide Union, Disjoint, WellFormed, Value.Valid, Value.Linked, ArrayBlock.Contents;
    if newCapacity == 0 {
      return false;
    }
    var items := new Value?[newCapacity](_ => null);
    var granted := mem.Malloc(items);
    if !granted {
      return false;
    }
    var w := a.wrapper;
    ArrayPieces(w, a);
    if a.items != null {
      mem.Free(a.items);
    }
    a.Move(items);
    SetItems(w, a, w.kids, w.feet, w.tree.items);
    return true;
  }

  lemma AppendIsWellFormed(items: seq<Json>, x: Json)
    requires WellFormed(Array(items)) && WellFormed(x)
    ensures WellFormed(Array(items + [x]))
  {
  }

  /** The end of `json_array_add`, with room for the child. */
  method Push(a: ArrayBlock, child: Value)
    requires a.wrapper.Valid() && a.wrapper.payload == PArray(a) && a.count < a.capacity
    requires child.Valid() && child.repr !! a.wrapper.repr && a.Shape()
    modifies a`count, a.items, child`parent, a.wrapper`tree, a.wrapper`repr, a.wrapper`kids, a.wrapper`feet
    ensures a.count == old(a.count) + 1
    ensures a.wrapper.Valid() && a.wrapper.tree.Array? && old(a.wrapper.tree.Array?)
    ensures a.wrapper.tree == Array(old(a.wrapper.tree).items + [child.tree])
    ensures child.parent == a.wrapper && a.wrapper.kids == old(a.wrapper.kids) + [child]
    ensures a.wrapper.repr == old(a.wrapper.repr) + child.repr
  {
    hide Union, Disjoint, WellFormed, Value.Valid, Value.Linked, ArrayBlock.Contents;
    var w := a.wrapper;
    ArrayPieces(w, a);
    ValidBasics(child);
    AppendIsWellFormed(w.tree.items, child.tree);
    UnionAppend(w.feet, child.repr);
    child.parent := w;
    a.Append(child);
    SetItems(w, a, w.kids + [child], w.feet + [child.repr], w.tree.items + [child.tree]);
  }

  /** `json_array_add`: the child becomes the last item, or nothing changes because an allocation failed. */
  method Add(mem: Mem, a: ArrayBlock, child: Value) returns (ok: bool)
    requires Holds(mem, a.wrapper) && a.wrapper.payload == PArray(a)
    requires Holds(mem, child) && child.repr !! a.wrapper.repr
    modifies mem, a, Value.Maybe(a.items), child`parent
    modifies a.wrapper`tree, a.wrapper`repr, a.wrapper`kids, a.wrapper`feet
    ensures mem.requests >= old(mem.requests)
    ensures Holds(mem, a.wrapper) && old(a.wrapper.tree.Array?)
    ensures fresh(a.wrapper.repr - old(a.wrapper.repr + child.repr))
    ensures ok ==> a.wrapper.tree == Array(old(a.wrapper.tree).items + [child.tree])
    ensures ok ==> child.parent == a.wrapper && a.wrapper.kids == old(a.wrapper.kids) + [child]
    ensures mem.live == old(Outside(mem, a.wrapper)) + a.wrapper.repr
    ensures ok ==> child.repr <= a.wrapper.repr
    ensures ok ==> a.capacity == if old(a.count < a.capacity) then old(a.capacity) else NewCapacity(old(a.capacity))
    ensures !ok ==> unchanged(a, a.wrapper, child) && mem.live == old(mem.live) && Holds(mem, child)
    ensures !ok ==> mem.FailedSince(old(mem.requests))
    ensures old(OnlyGrown(a)) ==> OnlyGrown(a)
  {
    hide Union, Disjoint, WellFormed, Value.Valid, Value.Linked;
    var w := a.wrapper;
    ArrayPieces(w, a);
    ValidBasics(child);
    assert child.repr <= Outside(mem, w);
    if a.count >= a.capacity {
      var grown := Resize(mem, a, NewCapacity(a.capacity));
      if !grown {
        return false;
      }
      ArrayPieces(w, a);
    }
    Push(a, child);
    return true;
  }

  /** Adds the child, or frees it together with the array: what copying and parsing do. */
  method AddOrFree(mem: Mem, a: ArrayBlock, child: Value) returns (ok: bool)
    requires Holds(mem, a.wrapper) && a.wrapper.payload == PArray(a)
    requires Holds(mem, child) && child.repr !! a.wrapper.repr
    modifies mem, a, Value.Maybe(a.items), child`parent
    modifies a.wrapper`tree, a.wrapper`repr, a.wrapper`kids, a.wrapper`feet
    ensures mem.requests >= old(mem.requests) && old(a.wrapper.tree.Array?)
    ensures ok ==> Holds(mem, a.wrapper) && fresh(a.wrapper.repr - old(a.wrapper.repr + child.repr))
    ensures ok ==> child.repr == old(child.repr) && child.repr <= a.wrapper.repr
    ensures ok ==> a.wrapper.tree == Array(old(a.wrapper.tree).items + [child.tree])
    ensures ok ==> mem.live == old(Outside(mem, a.wrapper)) + a.wrapper.repr
    ensures !ok ==> mem.live == old(Outside(mem, a.wrapper) - child.repr) && mem.FailedSince(old(mem.requests))
  {
    hide Union, Disjoint, WellFormed, Value.Valid, Value.Linked, Value.Owns;
    ValidBasics(child);
    ValidBasics(a.wrapper);
    ok := Add(mem, a, child);
    if !ok {
      Free(mem, a.wrapper);
      Free(mem, child);
    }
  }

  /** The end of `json_array_remove`: the items behind `ix` move down by one. */
  method Unlink(a: ArrayBlock, ix: nat)
    requires a.wrapper.Valid() && a.wrapper.payload == PArray(a) && a.Shape() && ix < a.count == |a.wrapper.kids|
    modifies a`count, a.items, a.wrapper`tree, a.wrapper`repr, a.wrapper`kids, a.wrapper`feet
    ensures a.wrapper.Valid() && old(a.wrapper.tree.Array?) && ix < |old(a.wrapper.tree).items|
    ensures a.wrapper.tree == Array(Without(old(a.wrapper.tree).items, ix))
    ensures a.wrapper.kids == Without(old(a.wrapper.kids), ix)
    ensures a.wrapper.repr == old(a.wrapper.repr) - old(a.wrapper.kids[ix].repr)
  {
    hide Union, Disjoint, WellFormed, Value.Valid, Value.Linked, Value.Owns, Without;
    var w := a.wrapper;
    ArrayPieces(w, a);
    WithoutIsWellFormed(w.tree.items, ix);
    UnionHolds(w.feet);
    UnionRemove(w.feet, ix);
    WithoutIs(a.Contents(), ix);
    WithoutIs(w.kids, ix);
    WithoutIs(w.feet, ix);
    WithoutIs(w.tree.items, ix);
    ghost var kids, feet, items := Without(w.kids, ix), Without(w.feet, ix), Without(w.tree.items, ix);
    a.Drop(ix);
    assert a.Contents() == kids;
    SetItems(w, a, kids, feet, items);
  }

  lemma WithoutIs<T>(xs: seq<T>, i: nat)
    requires i < |xs|
    ensures |Without(xs, i)| == |xs| - 1
    ensures forall k | 0 <= k < |xs| - 1 :: Without(xs, i)[k] == xs[if k < i then k else k + 1]
  {
  }

  lemma WithoutIsWellFormed(items: seq<Json>, i: nat)
    requires WellFormed(Array(items)) && i < |items|
    ensures WellFormed(Array(Without(items, i)))
  {
  }

  /** `json_array_remove`: frees one item; the others keep their order. */
  method Remove(mem: Mem, a: ArrayBlock, ix: nat) returns (ok: bool)
    requires Holds(mem, a.wrapper) && a.wrapper.payload == PArray(a)
    modifies mem`live, a`count, Value.Maybe(a.items)
    modifies a.wrapper`tree, a.wrapper`repr, a.wrapper`kids, a.wrapper`feet
    ensures Holds(mem, a.wrapper) && old(a.wrapper.tree.Array?)
    ensures ok <==> ix < |old(a.wrapper.tree).items|
    ensures ok ==> a.wrapper.tree == Array(Without(old(a.wrapper.tree).items, ix))
    ensures Outside(mem, a.wrapper) == old(Outside(mem, a.wrapper)) && a.wrapper.repr <= old(a.wrapper.repr)
    ensures !ok ==> unchanged(a, a.wrapper) && mem.live == old(mem.live)
  {
    hide Union, Disjoint, WellFormed, Value.Valid, Value.Linked;
    ArrayPieces(a.wrapper, a);
    if ix >= a.count {
      return false;
    }
    Free(mem, a.items[ix]);
    Unlink(a, ix);
    return true;
  }

  /** `json_array_clear`: frees every item; the block of items stays. */
  method Clear(mem: Mem, a: ArrayBlock)
    requires Holds(mem, a.wrapper) && a.wrapper.payload == PArray(a)
    modifies mem`live, a`count, a.wrapper`tree, a.wrapper`repr, a.wrapper`kids, a.wrapper`feet
    ensures Holds(mem, a.wrapper) && a.wrapper.tree == Array([]) && a.wrapper.repr == a.wrapper.Own()
    ensures Outside(mem, a.wrapper) == old(Outside(mem, a.wrapper)) && a.wrapper.repr <= old(a.wrapper.repr)
  {
    hide Union, Disjoint, WellFormed, Value.Valid, Value.Linked;
    var w := a.wrapper;
    ArrayPieces(w, a);
    UnionNone();
    var i := 0;
    while i < a.count
      modifies mem`live
      invariant i <= a.count == |w.feet|
      invariant mem.live == old(mem.live) - Union(w.feet[..i])
    {
      UnionStep(w.feet, i);
      Free(mem, a.items[i]);
      i := i + 1;
    }
    assert w.feet[..i] == w.feet;
    a.count := 0;
    EmptyIsWellFormed();
    SetItems(w, a, [], [], []);
  }

  lemma EmptyIsWellFormed()
    ensures WellFormed(Array([])) && WellFormed(Object([]))
  {
  }
}
