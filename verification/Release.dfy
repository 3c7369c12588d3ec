/** `json_value_free` and what it calls: exactly the blocks of the tree are freed, each of them once. */
module Release {
  import opened Json
  import opened Memory
  import opened Heap

  lemma UnionStep(feet: seq<set<object>>, i: nat)
    requires i < |feet| && Disjoint(feet)
    ensures Union(feet[..i + 1]) == Union(feet[..i]) + feet[i]
    ensures feet[i] !! Union(feet[..i]) && feet[i] <= Union(feet)
  {
    assert feet[..i + 1] == feet[..i] + [feet[i]];
    UnionAppend(feet[..i], feet[i]);
    forall o | o in Union(feet[..i]) ensures o !in feet[i] {
      var k :| 0 <= k < i && o in feet[..i][k];
      assert feet[k] !! feet[i];
    }
  }

  /** `json_value_free`. */
  method Free(mem: Mem, v: Value)
    requires Holds(mem, v)
    modifies mem`live
    ensures mem.live == old(mem.live) - v.repr
    decreases v.repr, 2
  {
    hide Union, Disjoint;
    match v.payload {
      case PObject(t) => FreeObject(mem, t);
      case PString(s) => mem.Free(s);
      case PArray(a) => FreeArray(mem, a);
      case _ =>
    }
    mem.Free(v);
  }

  /** `json_array_free`. */
  method FreeArray(mem: Mem, a: ArrayBlock)
    requires Holds(mem, a.wrapper) && a.wrapper.payload == PArray(a)
    modifies mem`live
    ensures mem.live == old(mem.live) - (a.wrapper.repr - {a.wrapper})
    decreases a.wrapper.repr, 1
  {
    hide Union, Disjoint, WellFormed;
    var v := a.wrapper;
    UnionNone();
    var i := 0;
    while i < a.count
      invariant i <= a.count
      invariant mem.live == old(mem.live) - Union(v.feet[..i])
    {
      UnionStep(v.feet, i);
      Free(mem, a.items[i]);
      i := i + 1;
    }
    assert v.feet[..i] == v.feet;
    if a.items != null {
      mem.Free(a.items);
    }
    mem.Free(a);
  }

  /** `json_object_free`. */
  method FreeObject(mem: Mem, t: ObjectBlock)
    requires Holds(mem, t.wrapper) && t.wrapper.payload == PObject(t)
    modifies mem`live
    ensures mem.live == old(mem.live) - (t.wrapper.repr - {t.wrapper})
    decreases t.wrapper.repr, 1
  {
    hide Union, Disjoint, WellFormed;
    var v := t.wrapper;
    UnionNone();
    var i := 0;
    while i < t.count
      invariant i <= t.count
      invariant mem.live == old(mem.live) - Union(v.feet[..i])
    {
      UnionStep(v.feet, i);
      mem.Free(t.names[i]);
      Free(mem, t.values[i]);
      i := i + 1;
    }
    assert v.feet[..i] == v.feet;
    if t.names != null {
      mem.Free(t.names);
    }
    if t.values != null {
      mem.Free(t.values);
    }
    mem.Free(t);
  }
}
