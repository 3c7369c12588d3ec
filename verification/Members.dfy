/** Objects as finite maps: what adding, setting and removing an entry does to the parallel arrays. */
module Members {
  import opened Bytes
  import opened Json

  /** The finite map that an object with distinct names stands for. */
  ghost function Table(ms: seq<Member>): map<Bytes, Json>
    requires DistinctNames(ms)
  {
    map i | 0 <= i < |ms| :: ms[i].name := ms[i].value
  }

  /** Replaces the value in place, or appends an entry. */
  function SetMember(ms: seq<Member>, name: Bytes, x: Json): seq<Member> {
    var i := Find(ms, name);
    if i < |ms| then ms[i := Member(name, x)] else ms + [Member(name, x)]
  }

  /** The last entry takes the place of entry `i`. */
  function SwapRemove<T>(xs: seq<T>, i: nat): seq<T>
    requires i < |xs|
  {
    var last := |xs| - 1;
    if i == last then xs[..last] else xs[..last][i := xs[last]]
  }

  function RemoveMember(ms: seq<Member>, name: Bytes): seq<Member> {
    var i := Find(ms, name);
    if i < |ms| then SwapRemove(ms, i) else ms
  }

  /** A lookup by name is a lookup in the map. */
  lemma LookupIsTable(ms: seq<Member>, name: Bytes)
    requires DistinctNames(ms)
    ensures name in Table(ms) <==> Lookup(ms, name).Some?
    ensures name in Table(ms) ==> Table(ms)[name] == Lookup(ms, name).value
  {
    var i := Find(ms, name);
    if i < |ms| {
      assert ms[i].name in Table(ms);
    }
  }

  /** Every lookup after setting `name` sees the new value under `name` and the old ones elsewhere. */
  lemma LookupAfterSet(ms: seq<Member>, name: Bytes, x: Json, key: Bytes)
    requires DistinctNames(ms)
    ensures DistinctNames(SetMember(ms, name, x))
    ensures Lookup(SetMember(ms, name, x), key) == if key == name then Some(x) else Lookup(ms, key)
  {
    var ms' := SetMember(ms, name, x);
    var i, j := Find(ms, name), Find(ms, key);
    if key == name {
      LookupByIndex(ms', i);
    } else if j < |ms| {
      assert ms'[j] == ms[j];
      LookupByIndex(ms', j);
    }
  }

  /** Removal moves the last entry but no other lookup notices. */
  lemma LookupAfterRemove(ms: seq<Member>, name: Bytes, key: Bytes)
    requires DistinctNames(ms)
    ensures DistinctNames(RemoveMember(ms, name))
    ensures Lookup(RemoveMember(ms, name), key) == if key == name then None else Lookup(ms, key)
  {
    var ms' := RemoveMember(ms, name);
    var i, j := Find(ms, name), Find(ms, key);
    if i < |ms| {
      SwapRemoveIs(ms, i);
      RemovedIsDistinct(ms, i);
      if key != name && j < |ms| {
        LookupByIndex(ms', if j == |ms| - 1 then i else j);
      }
    }
  }

  lemma SwapRemoveIs<T>(xs: seq<T>, i: nat)
    requires i < |xs|
    ensures |SwapRemove(xs, i)| == |xs| - 1
    ensures forall k | 0 <= k < |xs| - 1 :: SwapRemove(xs, i)[k] == xs[if k == i then |xs| - 1 else k]
  {
  }

  lemma RemovedIsDistinct(ms: seq<Member>, i: nat)
    requires DistinctNames(ms) && i < |ms|
    ensures DistinctNames(SwapRemove(ms, i)) && ms[i].name !in Table(SwapRemove(ms, i))
  {
    SwapRemoveIs(ms, i);
  }

  /** Setting a member is updating the map. */
  lemma SetRefinesMap(ms: seq<Member>, name: Bytes, x: Json)
    requires DistinctNames(ms)
    ensures DistinctNames(SetMember(ms, name, x))
    ensures Table(SetMember(ms, name, x)) == Table(ms)[name := x]
  {
    hide Table, SetMember, Lookup;
    LookupAfterSet(ms, name, x, name);
    forall key ensures key in Table(SetMember(ms, name, x)) <==> key in Table(ms)[name := x]
      ensures key in Table(ms)[name := x] ==> Table(SetMember(ms, name, x))[key] == Table(ms)[name := x][key]
    {
      LookupAfterSet(ms, name, x, key);
      LookupIsTable(ms, key);
      LookupIsTable(SetMember(ms, name, x), key);
    }
  }

  /** Removing a member is removing its key, although the last entry moves. */
  lemma RemoveRefinesMap(ms: seq<Member>, name: Bytes)
    requires DistinctNames(ms)
    ensures DistinctNames(RemoveMember(ms, name))
    ensures Table(RemoveMember(ms, name)) == Table(ms) - {name}
  {
    hide Table, RemoveMember, Lookup;
    LookupAfterRemove(ms, name, name);
    forall key ensures key in Table(RemoveMember(ms, name)) <==> key in Table(ms) - {name}
      ensures key in Table(ms) - {name} ==> Table(RemoveMember(ms, name))[key] == Table(ms)[key]
    {
      LookupAfterRemove(ms, name, key);
      LookupIsTable(ms, key);
      LookupIsTable(RemoveMember(ms, name), key);
    }
  }

  // ---------------------------------------------------------------- any sequence of calls

  /** A call on an object: setting or adding an entry, removing one, or clearing all. */
  datatype Op = Put(name: Bytes, value: Json) | Drop(name: Bytes) | Clear

  function Do(ms: seq<Member>, op: Op): seq<Member> {
    match op
    case Put(name, x) => SetMember(ms, name, x)
    case Drop(name) => RemoveMember(ms, name)
    case Clear => []
  }

  function DoOnMap(m: map<Bytes, Json>, op: Op): map<Bytes, Json> {
    match op
    case Put(name, x) => m[name := x]
    case Drop(name) => m - {name}
    case Clear => map[]
  }

  function Run(ms: seq<Member>, ops: seq<Op>): seq<Member>
    decreases |ops|
  {
    if ops == [] then ms else Run(Do(ms, ops[0]), ops[1..])
  }

  function RunOnMap(m: map<Bytes, Json>, ops: seq<Op>): map<Bytes, Json>
    decreases |ops|
  {
    if ops == [] then m else RunOnMap(DoOnMap(m, ops[0]), ops[1..])
  }

  /**
   * After any calls the entries are those of a map that went through the same calls: every lookup finds what
   * the map holds, and the count is the number of its keys.
   */
  lemma {:induction false} RunsRefineMap(ms: seq<Member>, ops: seq<Op>)
    requires DistinctNames(ms)
    ensures var m := RunOnMap(Table(ms), ops);
            && DistinctNames(Run(ms, ops)) && Table(Run(ms, ops)) == m && |Run(ms, ops)| == |m|
            && forall key :: Lookup(Run(ms, ops), key) == if key in m then Some(m[key]) else None
    decreases |ops|
  {
    if ops == [] {
      TableSize(ms);
      forall key ensures Lookup(ms, key) == if key in Table(ms) then Some(Table(ms)[key]) else None {
        LookupIsTable(ms, key);
      }
    } else {
      match ops[0] {
        case Put(name, x) => SetRefinesMap(ms, name, x);
        case Drop(name) => RemoveRefinesMap(ms, name);
        case Clear =>
      }
      RunsRefineMap(Do(ms, ops[0]), ops[1..]);
    }
  }

  lemma TableOfNone()
    ensures Table([]) == map[]
  {
  }

  lemma {:induction false} TableSize(ms: seq<Member>)
    requires DistinctNames(ms)
    ensures |Table(ms)| == |ms|
  {
    hide Table;
    TableOfNone();
    if ms != [] {
      var init, last := ms[..|ms| - 1], ms[|ms| - 1];
      TableSize(init);
      assert SetMember(init, last.name, last.value) == init + [last] == ms;
      SetRefinesMap(init, last.name, last.value);
      LookupIsTable(init, last.name);
    }
  }

  lemma SetIsWellFormed(ms: seq<Member>, name: Bytes, x: Json)
    requires WellFormed(Object(ms)) && WellFormed(x) && NulFree(name)
    ensures WellFormed(Object(SetMember(ms, name, x)))
  {
    SetRefinesMap(ms, name, x);
  }

  lemma RemoveIsWellFormed(ms: seq<Member>, name: Bytes)
    requires WellFormed(Object(ms))
    ensures WellFormed(Object(RemoveMember(ms, name)))
  {
    RemoveRefinesMap(ms, name);
  }
}
