/** Dotted paths on trees: what getting, setting and removing by path promise each other. */
module DotPaths {
  import opened Bytes
  import opened Json
  import opened Members

  /** `strchr(name, '.')`. */
  function FirstDot(name: Bytes): (d: Option<nat>)
    ensures d.Some? ==> d.value < |name| && name[d.value] == DOT && forall k | 0 <= k < d.value :: name[k] != DOT
    ensures d.None? ==> forall k | 0 <= k < |name| :: name[k] != DOT
  {
    if name == [] then None
    else if name[0] == DOT then Some(0)
    else
      match FirstDot(name[1..])
      case None => None
      case Some(d) => Some(d + 1)
  }

  /** `json_object_dotget_value`. */
  function DotGet(ms: seq<Member>, path: Bytes): Option<Json>
    decreases |path|
  {
    match FirstDot(path)
    case None => Lookup(ms, path)
    case Some(d) =>
      match Lookup(ms, path[..d])
      case Some(Object(inner)) => DotGet(inner, path[d + 1..])
      case _ => None
  }

  /** `json_object_dotset_value` for a value without parent, when no allocation fails. */
  function DotSet(ms: seq<Member>, path: Bytes, x: Json): Option<seq<Member>>
    decreases |path|
  {
    match FirstDot(path)
    case None => Some(SetMember(ms, path, x))
    case Some(d) =>
      match Inner(ms, path[..d])
      case None => None
      case Some(inner) =>
        match DotSet(inner, path[d + 1..], x)
        case None => None
        case Some(inner') => Some(SetMember(ms, path[..d], Object(inner')))
  }

  /** The object that a path goes on in: the one there is, or a new one; none behind another kind of value. */
  function Inner(ms: seq<Member>, name: Bytes): Option<seq<Member>> {
    match Lookup(ms, name)
    case Some(Object(inner)) => Some(inner)
    case Some(_) => None
    case None => Some([])
  }

  /** How many objects setting the path has to create. */
  function Missing(ms: seq<Member>, path: Bytes): nat
    decreases |path|
  {
    match FirstDot(path)
    case None => 0
    case Some(d) =>
      match Lookup(ms, path[..d])
      case Some(Object(inner)) => Missing(inner, path[d + 1..])
      case Some(_) => 0
      case None => 1 + Missing([], path[d + 1..])
  }

  /** `json_object_dotremove_internal`. */
  function DotRemove(ms: seq<Member>, path: Bytes): Option<seq<Member>>
    decreases |path|
  {
    match FirstDot(path)
    case None => if Lookup(ms, path).Some? then Some(RemoveMember(ms, path)) else None
    case Some(d) =>
      match Lookup(ms, path[..d])
      case Some(Object(inner)) =>
        (match DotRemove(inner, path[d + 1..])
         case None => None
         case Some(inner') => Some(SetMember(ms, path[..d], Object(inner'))))
      case _ => None
  }

  // ---------------------------------------------------------------- how paths relate

  /** `q` is `p`, or `p` followed by a dot and more. */
  predicate Within(p: Bytes, q: Bytes) {
    p == q || (|p| < |q| && q[..|p|] == p && q[|p|] == DOT)
  }

  predicate Comparable(p: Bytes, q: Bytes) {
    Within(p, q) || Within(q, p)
  }

  /** Some proper prefix of the path names a value that is not an object. */
  predicate Blocked(ms: seq<Member>, path: Bytes) {
    exists k | 0 <= k < |path| :: BlockedAt(ms, path, k)
  }

  predicate BlockedAt(ms: seq<Member>, path: Bytes, k: nat)
    requires k < |path|
  {
    path[k] == DOT && var v := DotGet(ms, path[..k]); v.Some? && !v.value.Object?
  }

  lemma FirstDotAt(path: Bytes, d: nat)
    requires d < |path| && path[d] == DOT && forall k | 0 <= k < d :: path[k] != DOT
    ensures FirstDot(path) == Some(d)
  {
    var f := FirstDot(path);
    hide FirstDot;
    assert f.Some? && f.value <= d;
  }

  lemma FirstDotOfPrefix(p: Bytes, k: nat)
    requires k <= |p|
    ensures FirstDot(p[..k]) == if FirstDot(p).Some? && FirstDot(p).value < k then FirstDot(p) else None
  {
    hide FirstDot;
    var f := FirstDot(p);
    if f.Some? && f.value < k {
      FirstDotAt(p[..k], f.value);
    } else {
      assert forall i | 0 <= i < k :: p[..k][i] == p[i] != DOT;
    }
  }

  /** The path of `k` bytes, taken behind the first dot. */
  lemma PrefixStep(ms: seq<Member>, p: Bytes, d: nat, k: nat)
    requires FirstDot(p) == Some(d) && d < k <= |p|
    ensures DotGet(ms, p[..k]) ==
            match Lookup(ms, p[..d])
            case Some(Object(inner)) => DotGet(inner, p[d + 1..][..k - d - 1])
            case _ => None
  {
    hide FirstDot, Lookup;
    FirstDotOfPrefix(p, k);
    assert p[..k][..d] == p[..d] && p[..k][d + 1..] == p[d + 1..][..k - d - 1];
  }

  // ---------------------------------------------------------------- setting

  /** Setting succeeds exactly when no proper prefix of the path names a value other than an object. */
  lemma {:induction false} SetSucceedsIff(ms: seq<Member>, path: Bytes, x: Json)
    ensures DotSet(ms, path, x).Some? <==> !Blocked(ms, path)
    decreases |path|
  {
    hide Lookup, Blocked, Inner;
    match FirstDot(path)
    case None => NoDotNotBlocked(ms, path);
    case Some(d) =>
      BlockedStep(ms, path, d);
      if Inner(ms, path[..d]).Some? {
        SetSucceedsIff(Inner(ms, path[..d]).value, path[d + 1..], x);
      }
  }

  lemma NoDotNotBlocked(ms: seq<Member>, path: Bytes)
    requires FirstDot(path).None?
    ensures !Blocked(ms, path)
  {
  }

  lemma BlockedStep(ms: seq<Member>, path: Bytes, d: nat)
    requires FirstDot(path) == Some(d)
    ensures Blocked(ms, path) <==>
            Inner(ms, path[..d]).None? || Blocked(Inner(ms, path[..d]).value, path[d + 1..])
  {
    hide BlockedAt, Lookup;
    var rest := path[d + 1..];
    BlockedAtDot(ms, path, d);
    if Inner(ms, path[..d]).None? {
      assert BlockedAt(ms, path, d);
    } else {
      var inner := Inner(ms, path[..d]).value;
      if Blocked(ms, path) {
        var k :| 0 <= k < |path| && BlockedAt(ms, path, k);
        BlockedBelow(ms, path, d, k);
        assert BlockedAt(inner, rest, k - d - 1);
      }
      if Blocked(inner, rest) {
        var k :| 0 <= k < |rest| && BlockedAt(inner, rest, k);
        BlockedBelow(ms, path, d, d + 1 + k);
      }
    }
  }

  lemma BlockedAtDot(ms: seq<Member>, path: Bytes, d: nat)
    requires FirstDot(path) == Some(d)
    ensures forall k | 0 <= k < d :: !BlockedAt(ms, path, k)
    ensures BlockedAt(ms, path, d) <==> Inner(ms, path[..d]).None?
  {
    hide Lookup;
    FirstDotOfPrefix(path, d);
  }

  lemma BlockedBelow(ms: seq<Member>, path: Bytes, d: nat, k: nat)
    requires FirstDot(path) == Some(d) && d < k < |path| && Inner(ms, path[..d]).Some?
    ensures BlockedAt(ms, path, k) <==> BlockedAt(Inner(ms, path[..d]).value, path[d + 1..], k - d - 1)
  {
    hide Lookup, DotGet;
    PrefixStep(ms, path, d, k);
    NothingInside(path[d + 1..][..k - d - 1]);
  }

  lemma NothingInside(path: Bytes)
    ensures DotGet([], path) == None
  {
  }

  /** The path of `k` bytes is a proper prefix that names nothing. */
  predicate Gap(ms: seq<Member>, path: Bytes, k: nat)
    requires k < |path|
  {
    path[k] == DOT && DotGet(ms, path[..k]).None?
  }

  /** How many proper prefixes of less than `n` bytes name nothing. */
  function Gaps(ms: seq<Member>, path: Bytes, n: nat): nat
    requires n <= |path|
  {
    if n == 0 then 0 else Gaps(ms, path, n - 1) + if Gap(ms, path, n - 1) then 1 else 0
  }

  /** The objects to create are the proper prefixes that name nothing, unless something is in the way. */
  lemma {:induction false} MissingCountsGaps(ms: seq<Member>, path: Bytes)
    ensures Missing(ms, path) == if Blocked(ms, path) then 0 else Gaps(ms, path, |path|)
    decreases |path|
  {
    hide Blocked, BlockedAt, DotGet, Lookup, Gap, Gaps;
    match FirstDot(path)
    case None =>
      NoDotNotBlocked(ms, path);
      NoGaps(ms, path, |path|);
    case Some(d) =>
      BlockedStep(ms, path, d);
      if Inner(ms, path[..d]).Some? {
        var rest := path[d + 1..];
        InnerIs(ms, path[..d]);
        MissingCountsGaps(Inner(ms, path[..d]).value, rest);
        GapsStep(ms, path, d, |rest|);
        NothingInTheWay(rest);
        assert d + 1 + |rest| == |path|;
      }
  }

  lemma NothingInTheWay(path: Bytes)
    ensures !Blocked([], path)
  {
    forall k | 0 <= k < |path| ensures !BlockedAt([], path, k) {
      NothingInside(path[..k]);
    }
  }

  lemma {:induction false} NoGaps(ms: seq<Member>, path: Bytes, n: nat)
    requires n <= |path| && forall k | 0 <= k < n :: path[k] != DOT
    ensures Gaps(ms, path, n) == 0
  {
    if n > 0 {
      NoGaps(ms, path, n - 1);
    }
  }

  lemma {:induction false} GapsStep(ms: seq<Member>, path: Bytes, d: nat, n: nat)
    requires FirstDot(path) == Some(d) && Inner(ms, path[..d]).Some? && n <= |path| - d - 1
    ensures Gaps(ms, path, d + 1 + n) ==
            (if Lookup(ms, path[..d]).None? then 1 else 0) + Gaps(Inner(ms, path[..d]).value, path[d + 1..], n)
  {
    hide Lookup, DotGet;
    if n == 0 {
      NoGaps(ms, path, d);
      FirstDotOfPrefix(path, d);
      GetNoDot(ms, path[..d]);
    } else {
      GapsStep(ms, path, d, n - 1);
      PrefixStep(ms, path, d, d + n);
      NothingInside(path[d + 1..][..n - 1]);
    }
  }

  /** The first name of a path. */
  function Head(path: Bytes): Bytes {
    match FirstDot(path)
    case None => path
    case Some(d) => path[..d]
  }

  lemma LookupIsWellFormed(ms: seq<Member>, name: Bytes)
    requires WellFormed(Object(ms))
    ensures DistinctNames(ms) && (Lookup(ms, name).Some? ==> WellFormed(Lookup(ms, name).value))
    ensures Inner(ms, name).Some? ==> WellFormed(Object(Inner(ms, name).value))
  {
  }

  /** One step of setting, without the recursion. */
  lemma SetStep(ms: seq<Member>, path: Bytes, x: Json, d: nat)
    requires WellFormed(Object(ms)) && FirstDot(path) == Some(d) && DotSet(ms, path, x).Some?
    ensures Inner(ms, path[..d]).Some? && WellFormed(Object(Inner(ms, path[..d]).value))
    ensures DotSet(Inner(ms, path[..d]).value, path[d + 1..], x).Some?
    ensures Lookup(DotSet(ms, path, x).value, path[..d]) ==
            Some(Object(DotSet(Inner(ms, path[..d]).value, path[d + 1..], x).value))
  {
    hide Lookup, SetMember, WellFormed, Inner, DistinctNames;
    LookupIsWellFormed(ms, path[..d]);
    var inner' := DotSet(Inner(ms, path[..d]).value, path[d + 1..], x).value;
    LookupAfterSet(ms, path[..d], Object(inner'), path[..d]);
  }

  /** Setting touches no member but the one under the first name. */
  lemma SetKeepsOtherHeads(ms: seq<Member>, path: Bytes, x: Json, name: Bytes)
    requires WellFormed(Object(ms)) && DotSet(ms, path, x).Some? && name != Head(path)
    ensures Lookup(DotSet(ms, path, x).value, name) == Lookup(ms, name)
  {
    hide Lookup, SetMember, WellFormed, Inner, DistinctNames;
    LookupIsWellFormed(ms, name);
    match FirstDot(path)
    case None => LookupAfterSet(ms, path, x, name);
    case Some(d) =>
      var inner' := DotSet(Inner(ms, path[..d]).value, path[d + 1..], x).value;
      LookupAfterSet(ms, path[..d], Object(inner'), name);
  }

  /** A lookup depends on nothing but the member under the first name. */
  lemma GetByHead(ms: seq<Member>, ms': seq<Member>, path: Bytes)
    requires Lookup(ms, Head(path)) == Lookup(ms', Head(path))
    ensures DotGet(ms, path) == DotGet(ms', path)
  {
    hide Lookup;
  }

  lemma {:induction false} SetKeepsWellFormed(ms: seq<Member>, path: Bytes, x: Json)
    requires WellFormed(Object(ms)) && WellFormed(x) && NulFree(path) && DotSet(ms, path, x).Some?
    ensures WellFormed(Object(DotSet(ms, path, x).value))
    decreases |path|
  {
    hide WellFormed, SetMember, Lookup, Inner;
    match FirstDot(path)
    case None => SetIsWellFormed(ms, path, x);
    case Some(d) =>
      LookupIsWellFormed(ms, path[..d]);
      var inner := Inner(ms, path[..d]).value;
      SetKeepsWellFormed(inner, path[d + 1..], x);
      SetIsWellFormed(ms, path[..d], Object(DotSet(inner, path[d + 1..], x).value));
  }

  /** What was set is what is found. */
  lemma {:induction false} GetAfterSet(ms: seq<Member>, path: Bytes, x: Json)
    requires WellFormed(Object(ms)) && DotSet(ms, path, x).Some?
    ensures DotGet(DotSet(ms, path, x).value, path) == Some(x)
    decreases |path|
  {
    hide WellFormed, SetMember, Lookup, Inner, DotSet;
    match FirstDot(path)
    case None =>
      LookupIsWellFormed(ms, path);
      SetNoDot(ms, path, x);
      LookupAfterSet(ms, path, x, path);
    case Some(d) =>
      SetStep(ms, path, x, d);
      GetAfterSet(Inner(ms, path[..d]).value, path[d + 1..], x);
  }

  lemma SetNoDot(ms: seq<Member>, path: Bytes, x: Json)
    requires FirstDot(path).None?
    ensures DotSet(ms, path, x) == Some(SetMember(ms, path, x))
  {
  }

  /** The proper prefixes of the path name objects afterwards. */
  lemma {:induction false} PrefixesAfterSet(ms: seq<Member>, path: Bytes, x: Json, k: nat)
    requires WellFormed(Object(ms)) && DotSet(ms, path, x).Some? && k < |path| && path[k] == DOT
    ensures DotGet(DotSet(ms, path, x).value, path[..k]).Some?
    ensures DotGet(DotSet(ms, path, x).value, path[..k]).value.Object?
    decreases |path|
  {
    hide WellFormed, SetMember, Lookup, Inner, DotSet, DotGet;
    var ms' := DotSet(ms, path, x).value;
    var d := FirstDot(path).value;
    SetStep(ms, path, x, d);
    if k == d {
      FirstDotOfPrefix(path, d);
      GetNoDot(ms', path[..d]);
    } else {
      PrefixStep(ms', path, d, k);
      PrefixesAfterSet(Inner(ms, path[..d]).value, path[d + 1..], x, k - d - 1);
    }
  }

  lemma GetNoDot(ms: seq<Member>, path: Bytes)
    requires FirstDot(path).None?
    ensures DotGet(ms, path) == Lookup(ms, path)
  {
  }

  /** Every path that is not comparable with the one that was set finds what it found before. */
  lemma {:induction false} SetFrame(ms: seq<Member>, path: Bytes, x: Json, other: Bytes)
    requires WellFormed(Object(ms)) && DotSet(ms, path, x).Some? && !Comparable(path, other)
    ensures DotGet(DotSet(ms, path, x).value, other) == DotGet(ms, other)
    decreases |path|
  {
    hide WellFormed, SetMember, Lookup, Inner, DotSet, DotGet;
    var ms' := DotSet(ms, path, x).value;
    if Head(path) != Head(other) {
      SetKeepsOtherHeads(ms, path, x, Head(other));
      GetByHead(ms, ms', other);
    } else {
      var d := SameHead(path, other);
      SetStep(ms, path, x, d);
      var inner := Inner(ms, path[..d]).value;
      SetFrame(inner, path[d + 1..], x, other[d + 1..]);
      GetStep(ms, other, d);
      GetStep(ms', other, d);
      if Lookup(ms, path[..d]).None? {
        NothingInside(other[d + 1..]);
      }
      InnerIs(ms, path[..d]);
    }
  }

  lemma GetStep(ms: seq<Member>, path: Bytes, d: nat)
    requires FirstDot(path) == Some(d)
    ensures DotGet(ms, path) ==
            match Lookup(ms, path[..d])
            case Some(Object(inner)) => DotGet(inner, path[d + 1..])
            case _ => None
  {
    hide Lookup;
  }

  lemma InnerIs(ms: seq<Member>, name: Bytes)
    requires Inner(ms, name).Some?
    ensures Lookup(ms, name) == if Lookup(ms, name).None? then None else Some(Object(Inner(ms, name).value))
    ensures Lookup(ms, name).None? ==> Inner(ms, name).value == []
  {
    hide Lookup;
  }

  /** Two paths with the same first name that are not comparable go on, and are not comparable behind it. */
  lemma SameHead(p: Bytes, q: Bytes) returns (d: nat)
    requires Head(p) == Head(q) && !Comparable(p, q)
    ensures FirstDot(p) == FirstDot(q) == Some(d) && p[..d] == q[..d]
    ensures !Comparable(p[d + 1..], q[d + 1..])
  {
    assert FirstDot(p).Some? && FirstDot(q).Some?;
    d := FirstDot(p).value;
    assert |Head(p)| == d == FirstDot(q).value;
    if Within(p[d + 1..], q[d + 1..]) {
      WithinBehind(p, q, d);
    }
    if Within(q[d + 1..], p[d + 1..]) {
      WithinBehind(q, p, d);
    }
  }

  lemma WithinBehind(p: Bytes, q: Bytes, d: nat)
    requires d < |p| && d < |q| && p[..d] == q[..d] && p[d] == q[d] == DOT
    requires Within(p[d + 1..], q[d + 1..])
    ensures Within(p, q)
  {
    assert p == p[..d] + [DOT] + p[d + 1..];
    assert q == q[..d] + [DOT] + q[d + 1..];
    if |p| < |q| {
      assert q[..|p|] == p[..d] + [DOT] + q[d + 1..][..|p| - d - 1];
      assert q[|p|] == q[d + 1..][|p| - d - 1];
    }
  }

  /** Paths that go on behind the one that was set are looked up in the new value. */
  lemma {:induction false} GetBelowAfterSet(ms: seq<Member>, path: Bytes, x: Json, below: Bytes)
    requires WellFormed(Object(ms)) && DotSet(ms, path, x).Some?
    ensures DotGet(DotSet(ms, path, x).value, path + [DOT] + below) ==
            match x case Object(inner) => DotGet(inner, below) case _ => None
    decreases |path|
  {
    hide WellFormed, SetMember, Lookup, Inner, DotSet, DotGet;
    var ms' := DotSet(ms, path, x).value;
    var whole := path + [DOT] + below;
    match FirstDot(path)
    case None =>
      FirstDotAt(whole, |path|);
      assert whole[..|path|] == path && whole[|path| + 1..] == below;
      GetStep(ms', whole, |path|);
      GetAfterSet(ms, path, x);
      GetNoDot(ms', path);
    case Some(d) =>
      FirstDotAt(whole, d);
      assert whole[..d] == path[..d] && whole[d + 1..] == path[d + 1..] + [DOT] + below;
      SetStep(ms, path, x, d);
      GetStep(ms', whole, d);
      GetBelowAfterSet(Inner(ms, path[..d]).value, path[d + 1..], x, below);
  }

  // ---------------------------------------------------------------- removing

  /** Removing succeeds exactly when the path finds something. */
  lemma {:induction false} RemoveSucceedsIff(ms: seq<Member>, path: Bytes)
    ensures DotRemove(ms, path).Some? <==> DotGet(ms, path).Some?
    decreases |path|
  {
    hide Lookup;
    match FirstDot(path)
    case None =>
    case Some(d) =>
      match Lookup(ms, path[..d])
      case Some(Object(inner)) => RemoveSucceedsIff(inner, path[d + 1..]);
      case _ =>
  }

  /** One step of removing, without the recursion. */
  lemma RemoveStep(ms: seq<Member>, path: Bytes, d: nat)
    requires WellFormed(Object(ms)) && FirstDot(path) == Some(d) && DotRemove(ms, path).Some?
    ensures var at := Lookup(ms, path[..d]);
            && at.Some? && at.value.Object? && WellFormed(at.value)
            && DotRemove(at.value.members, path[d + 1..]).Some?
            && Lookup(DotRemove(ms, path).value, path[..d]) ==
               Some(Object(DotRemove(at.value.members, path[d + 1..]).value))
  {
    hide Lookup, SetMember, WellFormed, Inner, DistinctNames;
    LookupIsWellFormed(ms, path[..d]);
    var inner' := DotRemove(Lookup(ms, path[..d]).value.members, path[d + 1..]).value;
    LookupAfterSet(ms, path[..d], Object(inner'), path[..d]);
  }

  lemma RemoveNoDot(ms: seq<Member>, path: Bytes, name: Bytes)
    requires WellFormed(Object(ms)) && FirstDot(path).None? && DotRemove(ms, path).Some?
    ensures Lookup(DotRemove(ms, path).value, name) == if name == path then None else Lookup(ms, name)
  {
    LookupAfterRemove(ms, path, name);
  }

  lemma RemoveKeepsOtherHeads(ms: seq<Member>, path: Bytes, name: Bytes)
    requires WellFormed(Object(ms)) && DotRemove(ms, path).Some? && name != Head(path)
    ensures Lookup(DotRemove(ms, path).value, name) == Lookup(ms, name)
  {
    hide Lookup, SetMember, WellFormed, DistinctNames;
    LookupIsWellFormed(ms, name);
    match FirstDot(path)
    case None => RemoveNoDot(ms, path, name);
    case Some(d) =>
      var inner' := DotRemove(Lookup(ms, path[..d]).value.members, path[d + 1..]).value;
      LookupAfterSet(ms, path[..d], Object(inner'), name);
  }

  /** What was removed is not found any more, and nothing behind it either. */
  lemma {:induction false} GetAfterRemove(ms: seq<Member>, path: Bytes, below: Bytes)
    requires WellFormed(Object(ms)) && DotRemove(ms, path).Some? && Within(path, below)
    ensures DotGet(DotRemove(ms, path).value, below) == None
    decreases |path|
  {
    hide WellFormed, Lookup, DotRemove, DotGet;
    var ms' := DotRemove(ms, path).value;
    match FirstDot(path)
    case None =>
      RemoveNoDot(ms, path, path);
      if path == below {
        GetNoDot(ms', path);
      } else {
        FirstDotAt(below, |path|);
        GetStep(ms', below, |path|);
      }
    case Some(d) =>
      FirstDotAt(below, d);
      assert below[..d] == path[..d];
      RemoveStep(ms, path, d);
      GetStep(ms', below, d);
      WithinTails(path, below, d);
      GetAfterRemove(Lookup(ms, path[..d]).value.members, path[d + 1..], below[d + 1..]);
  }

  lemma WithinTails(p: Bytes, q: Bytes, d: nat)
    requires d < |p| && d < |q| && Within(p, q)
    ensures Within(p[d + 1..], q[d + 1..])
  {
    if p != q {
      assert q[d + 1..][..|p| - d - 1] == q[..|p|][d + 1..];
    }
  }

  /** Every path that is not comparable with the removed one finds what it found before. */
  lemma {:induction false} RemoveFrame(ms: seq<Member>, path: Bytes, other: Bytes)
    requires WellFormed(Object(ms)) && DotRemove(ms, path).Some? && !Comparable(path, other)
    ensures DotGet(DotRemove(ms, path).value, other) == DotGet(ms, other)
    decreases |path|
  {
    hide WellFormed, Lookup, DotRemove, DotGet;
    var ms' := DotRemove(ms, path).value;
    if Head(path) != Head(other) {
      RemoveKeepsOtherHeads(ms, path, Head(other));
      GetByHead(ms, ms', other);
    } else {
      var d := SameHead(path, other);
      RemoveStep(ms, path, d);
      RemoveFrame(Lookup(ms, path[..d]).value.members, path[d + 1..], other[d + 1..]);
      GetStep(ms, other, d);
      GetStep(ms', other, d);
    }
  }

  /** The proper prefixes of the path still name objects. */
  lemma {:induction false} PrefixesAfterRemove(ms: seq<Member>, path: Bytes, k: nat)
    requires WellFormed(Object(ms)) && DotRemove(ms, path).Some? && k < |path| && path[k] == DOT
    ensures DotGet(DotRemove(ms, path).value, path[..k]).Some?
    ensures DotGet(DotRemove(ms, path).value, path[..k]).value.Object?
    decreases |path|
  {
    hide WellFormed, Lookup, DotRemove, DotGet;
    var ms' := DotRemove(ms, path).value;
    var d := FirstDot(path).value;
    RemoveStep(ms, path, d);
    if k == d {
      FirstDotOfPrefix(path, d);
      GetNoDot(ms', path[..d]);
    } else {
      PrefixStep(ms', path, d, k);
      PrefixesAfterRemove(Lookup(ms, path[..d]).value.members, path[d + 1..], k - d - 1);
    }
  }

  lemma {:induction false} RemoveKeepsWellFormed(ms: seq<Member>, path: Bytes)
    requires WellFormed(Object(ms)) && NulFree(path) && DotRemove(ms, path).Some?
    ensures WellFormed(Object(DotRemove(ms, path).value))
    decreases |path|
  {
    hide WellFormed, SetMember, Lookup, RemoveMember;
    match FirstDot(path)
    case None => RemoveIsWellFormed(ms, path);
    case Some(d) =>
      LookupIsWellFormed(ms, path[..d]);
      var inner := Lookup(ms, path[..d]).value.members;
      RemoveKeepsWellFormed(inner, path[d + 1..]);
      SetIsWellFormed(ms, path[..d], Object(DotRemove(inner, path[d + 1..]).value));
  }
}
