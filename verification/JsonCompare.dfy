/** The two equality tests: compare_json, which sorts and walks both objects, and cJSON_Compare, which looks names up. */
module JsonCompare {
  import opened Bytes
  import opened JsonValue
  import opened SortSpec
  import opened JsonMap

  const DBL_EPSILON := 1.0 / 4503599627370496.0

  function Abs(x: real): real { if x < 0.0 then -x else x }

  /** compare_double. */
  predicate CompareDouble(a: real, b: real) {
    var maxVal := if Abs(a) > Abs(b) then Abs(a) else Abs(b);
    Abs(a - b) <= maxVal * DBL_EPSILON
  }

  /** The distance is at most the larger number divided by 2 to the 52. */
  lemma CompareDoubleExactly(a: real, b: real)
    ensures CompareDouble(a, b) <==>
      Abs(a - b) * 4503599627370496.0 <= Abs(a) || Abs(a - b) * 4503599627370496.0 <= Abs(b)
  {
  }

  /** On ints the tolerance is too small to matter. */
  lemma CompareDoubleInt(a: real, b: real)
    requires IsInt(a) && IsInt(b)
    ensures CompareDouble(a, b) <==> a == b
  {
    var maxVal := if Abs(a) > Abs(b) then Abs(a) else Abs(b);
    assert maxVal <= 2147483648.0;
    assert maxVal * DBL_EPSILON <= 2147483648.0 * DBL_EPSILON < 1.0;
    if a != b {
      assert ValueInt(a) != ValueInt(b);
      assert Abs(a - b) >= 1.0;
    }
  }

  /** sort_object on the members of an object. */
  lemma SortedObject(members: seq<Member<Value>>, caseSensitive: bool)
    ensures
      var r := Sort(members, caseSensitive);
      Reordered(Obj(members), Obj(r)) && Sorted(r, caseSensitive)
  {
    SortCorrect(members, caseSensitive);
    ReorderedMembers(members, Sort(members, caseSensitive));
  }

  /**
   * compare_json: it sorts the objects it meets in both trees, which is why both are returned, and tells whether they
   * mean the same. Two objects without containers in them are sorted whatever they hold.
   */
  method CompareJson(a: Value, b: Value, caseSensitive: bool) returns (equal: bool, a': Value, b': Value)
    requires Proper(a, caseSensitive) && Proper(b, caseSensitive)
    ensures equal <==> Same(a, b, caseSensitive)
    ensures equal <==> Meaning(a, caseSensitive) == Meaning(b, caseSensitive)
    ensures Reordered(a, a') && Reordered(b, b')
    ensures a.Obj? && b.Obj? && Nest(a) == 1 ==> a' == Obj(Sort(a.members, caseSensitive))
    ensures a.Obj? && b.Obj? && Nest(b) == 1 ==> b' == Obj(Sort(b.members, caseSensitive))
    decreases Nest(a) + Nest(b), 0
  {
    MeaningExact(a, b, caseSensitive);
    hide Sort, Same;
    a', b' := a, b;
    match (a, b)
    case (Null, Null) => equal := true;
    case (Bool(x), Bool(y)) => equal := x == y;
    case (Num(x), Num(y)) =>
      CompareDoubleInt(x, y);
      equal := ValueInt(x) == ValueInt(y) && CompareDouble(x, y);
    case (Str(x), Str(y)) => equal := x == y;
    case (Arr(items), Arr(items')) =>
      equal, a', b' := CompareItems(items, items', caseSensitive);
    case (Obj(members), Obj(members')) =>
      equal, a', b' := CompareObjects(members, members', caseSensitive);
    case _ => equal := false;
  }

  method CompareItems(xs: seq<Value>, ys: seq<Value>, caseSensitive: bool)
    returns (equal: bool, a': Value, b': Value)
    requires Proper(Arr(xs), caseSensitive) && Proper(Arr(ys), caseSensitive)
    ensures equal <==> Meaning(Arr(xs), caseSensitive) == Meaning(Arr(ys), caseSensitive)
    ensures Reordered(Arr(xs), a') && Reordered(Arr(ys), b')
    decreases NestItems(xs) + NestItems(ys), 1
  {
    hide Reordered, Proper, Meaning, ItemMeanings, Nest, NestItems;
    ItemsMean(xs, ys, caseSensitive);
    ReorderedSelf(Arr(xs));
    ReorderedSelf(Arr(ys));
    var p, q := xs, ys;
    var i := 0;
    while i < |xs| && i < |ys|
      invariant 0 <= i <= |xs| && i <= |ys| && |p| == |xs| && |q| == |ys|
      invariant (forall k {:trigger p[k]} :: i <= k < |xs| ==> p[k] == xs[k])
      invariant (forall k {:trigger q[k]} :: i <= k < |ys| ==> q[k] == ys[k])
      invariant Reordered(Arr(xs), Arr(p)) && Reordered(Arr(ys), Arr(q))
      invariant forall k :: 0 <= k < i ==> Meaning(xs[k], caseSensitive) == Meaning(ys[k], caseSensitive)
    {
      ProperItem(xs, i, caseSensitive);
      ProperItem(ys, i, caseSensitive);
      var same, x', y' := CompareJson(xs[i], ys[i], caseSensitive);
      ReorderedItem(p, i, x');
      ReorderedItem(q, i, y');
      ReorderedTransitive(Arr(xs), Arr(p), Arr(p[i := x']));
      ReorderedTransitive(Arr(ys), Arr(q), Arr(q[i := y']));
      p, q := p[i := x'], q[i := y'];
      if !same { return false, Arr(p), Arr(q); }
      i := i + 1;
    }
    equal, a', b' := |xs| == |ys|, Arr(p), Arr(q);
  }

  method CompareObjects(ms: seq<Member<Value>>, ns: seq<Member<Value>>, caseSensitive: bool)
    returns (equal: bool, a': Value, b': Value)
    requires Proper(Obj(ms), caseSensitive) && Proper(Obj(ns), caseSensitive)
    ensures equal <==> Meaning(Obj(ms), caseSensitive) == Meaning(Obj(ns), caseSensitive)
    ensures Reordered(Obj(ms), a') && Reordered(Obj(ns), b')
    ensures NestMembers(ms) == 0 ==> a' == Obj(Sort(ms, caseSensitive))
    ensures NestMembers(ns) == 0 ==> b' == Obj(Sort(ns, caseSensitive))
    decreases NestMembers(ms) + NestMembers(ns), 3
  {
    var xs, ys := Sort(ms, caseSensitive), Sort(ns, caseSensitive);
    SortedObject(ms, caseSensitive);
    SortedObject(ns, caseSensitive);
    hide Sorted, Proper, MemberMeanings, NestMembers, Sort;
    equal, a', b' := CompareSorted(xs, ys, caseSensitive);
    ReorderedTransitive(Obj(ms), Obj(xs), a');
    ReorderedTransitive(Obj(ns), Obj(ys), b');
  }

  method CompareMember(x: Member<Value>, y: Member<Value>, caseSensitive: bool)
    returns (same: bool, x': Value, y': Value)
    requires Proper(x.item, caseSensitive) && Proper(y.item, caseSensitive)
    ensures same <==> SameMember(x, y, caseSensitive)
    ensures Reordered(x.item, x') && Reordered(y.item, y')
    decreases Nest(x.item) + Nest(y.item), 1
  {
    CompareFlips(x.key, y.key, caseSensitive);
    if Compare(x.key, y.key, caseSensitive) != 0 { return false, x.item, y.item; }
    same, x', y' := CompareJson(x.item, y.item, caseSensitive);
  }

  method CompareSorted(xs: seq<Member<Value>>, ys: seq<Member<Value>>, caseSensitive: bool)
    returns (equal: bool, a': Value, b': Value)
    requires Proper(Obj(xs), caseSensitive) && Proper(Obj(ys), caseSensitive)
    requires Sorted(xs, caseSensitive) && Sorted(ys, caseSensitive)
    ensures equal <==> Meaning(Obj(xs), caseSensitive) == Meaning(Obj(ys), caseSensitive)
    ensures Reordered(Obj(xs), a') && Reordered(Obj(ys), b')
    ensures (NestMembers(xs) == 0 ==> a' == Obj(xs)) && (NestMembers(ys) == 0 ==> b' == Obj(ys))
    decreases NestMembers(xs) + NestMembers(ys), 2
  {
    hide *;
    SortedZipProper(xs, ys, caseSensitive);
    ReorderedSelf(Obj(xs));
    ReorderedSelf(Obj(ys));
    var p, q := xs, ys;
    var i := 0;
    while i < |xs| && i < |ys|
      invariant 0 <= i <= |xs| && i <= |ys| && |p| == |xs| && |q| == |ys|
      invariant (forall k {:trigger p[k]} :: i <= k < |xs| ==> p[k] == xs[k])
      invariant (forall k {:trigger q[k]} :: i <= k < |ys| ==> q[k] == ys[k])
      invariant Reordered(Obj(xs), Obj(p)) && Reordered(Obj(ys), Obj(q))
      invariant (NestMembers(xs) == 0 ==> p == xs) && (NestMembers(ys) == 0 ==> q == ys)
      invariant forall k :: 0 <= k < i ==> SameMember(xs[k], ys[k], caseSensitive)
    {
      ProperMember(xs, i, caseSensitive);
      ProperMember(ys, i, caseSensitive);
      var same, x', y' := CompareMember(xs[i], ys[i], caseSensitive);
      if NestMembers(xs) == 0 { ReorderedScalar(xs[i].item, x'); }
      if NestMembers(ys) == 0 { ReorderedScalar(ys[i].item, y'); }
      ReorderedMember(p, i, x');
      ReorderedMember(q, i, y');
      ReorderedTransitive(Obj(xs), Obj(p), Obj(p[i := Member(p[i].key, x')]));
      ReorderedTransitive(Obj(ys), Obj(q), Obj(q[i := Member(q[i].key, y')]));
      p, q := p[i := Member(p[i].key, x')], q[i := Member(q[i].key, y')];
      if !same { return false, Obj(p), Obj(q); }
      i := i + 1;
    }
    equal, a', b' := |xs| == |ys|, Obj(p), Obj(q);
  }

  /** cJSON_Compare: members are looked up by name, from both sides. */
  method CompareByName(a: Value, b: Value, caseSensitive: bool) returns (equal: bool)
    requires Proper(a, caseSensitive) && Proper(b, caseSensitive)
    ensures equal <==> Same(a, b, caseSensitive)
    ensures equal <==> Meaning(a, caseSensitive) == Meaning(b, caseSensitive)
    decreases Nest(a) + Nest(b), 0
  {
    MeaningExact(a, b, caseSensitive);
    hide Same;
    match (a, b)
    case (Null, Null) => equal := true;
    case (Bool(x), Bool(y)) => equal := x == y;
    case (Num(x), Num(y)) =>
      CompareDoubleInt(x, y);
      equal := CompareDouble(x, y);
    case (Str(x), Str(y)) => equal := x == y;
    case (Arr(items), Arr(items')) => equal := CompareItemsByName(items, items', caseSensitive);
    case (Obj(members), Obj(members')) =>
      ContainsBoth(members, members', caseSensitive);
      equal := FindAll(members, members', caseSensitive);
      if equal {
        equal := FindAll(members', members, caseSensitive);
      }
    case _ => equal := false;
  }

  method CompareItemsByName(xs: seq<Value>, ys: seq<Value>, caseSensitive: bool) returns (equal: bool)
    requires Proper(Arr(xs), caseSensitive) && Proper(Arr(ys), caseSensitive)
    ensures equal <==> Meaning(Arr(xs), caseSensitive) == Meaning(Arr(ys), caseSensitive)
    decreases NestItems(xs) + NestItems(ys), 1
  {
    hide *;
    ItemsMean(xs, ys, caseSensitive);
    var i := 0;
    while i < |xs| && i < |ys|
      invariant 0 <= i <= |xs| && i <= |ys|
      invariant forall k :: 0 <= k < i ==> Meaning(xs[k], caseSensitive) == Meaning(ys[k], caseSensitive)
    {
      ProperItem(xs, i, caseSensitive);
      ProperItem(ys, i, caseSensitive);
      var same := CompareByName(xs[i], ys[i], caseSensitive);
      if !same { return false; }
      i := i + 1;
    }
    return |xs| == |ys|;
  }

  /** Looks up each member of one object in the other. */
  method FindAll(ms: seq<Member<Value>>, ns: seq<Member<Value>>, caseSensitive: bool) returns (all: bool)
    requires Proper(Obj(ms), caseSensitive) && Proper(Obj(ns), caseSensitive)
    ensures all <==> Contains(MemberMeanings(ns, caseSensitive), ms, caseSensitive)
    decreases NestMembers(ms) + NestMembers(ns), 1
  {
    hide Proper, MemberMeanings, Meaning, NestMembers, Nest, Norm, UniqueKeys, HasMember;
    for i := 0 to |ms|
      invariant forall k :: 0 <= k < i ==> HasMember(MemberMeanings(ns, caseSensitive), ms[k], caseSensitive)
    {
      var j := FindMember(ns, ms[i].key, caseSensitive);
      FindDecides(ms[i], ns, caseSensitive);
      if j == |ns| { return false; }
      ProperMember(ms, i, caseSensitive);
      ProperMember(ns, j, caseSensitive);
      var same := CompareByName(ms[i].item, ns[j].item, caseSensitive);
      if !same { return false; }
    }
    return true;
  }

  lemma FindDecides(m: Member<Value>, ns: seq<Member<Value>>, caseSensitive: bool)
    requires Proper(Obj(ns), caseSensitive)
    ensures
      var j := FindMember(ns, m.key, caseSensitive);
      HasMember(MemberMeanings(ns, caseSensitive), m, caseSensitive)
      <==> j < |ns| && Meaning(m.item, caseSensitive) == Meaning(ns[j].item, caseSensitive)
  {
    FindMeaning(ns, m.key, caseSensitive);
  }

  lemma SortedZipProper(xs: seq<Member<Value>>, ys: seq<Member<Value>>, caseSensitive: bool)
    requires Proper(Obj(xs), caseSensitive) && Proper(Obj(ys), caseSensitive)
    requires Sorted(xs, caseSensitive) && Sorted(ys, caseSensitive)
    ensures Meaning(Obj(xs), caseSensitive) == Meaning(Obj(ys), caseSensitive)
      <==> |xs| == |ys| && forall i :: 0 <= i < |xs| ==> SameMember(xs[i], ys[i], caseSensitive)
  {
    SortedZip(xs, ys, caseSensitive);
  }

  lemma {:induction false} NestOfItem(items: seq<Value>, i: nat)
    requires i < |items|
    ensures Nest(items[i]) <= NestItems(items)
    decreases |items|
  {
    if i > 0 { NestOfItem(items[1..], i - 1); }
  }

  lemma ProperItem(items: seq<Value>, i: nat, caseSensitive: bool)
    requires i < |items| && Proper(Arr(items), caseSensitive)
    ensures Proper(items[i], caseSensitive) && Nest(items[i]) <= NestItems(items)
  {
    NestOfItem(items, i);
  }

  lemma ProperMember(members: seq<Member<Value>>, i: nat, caseSensitive: bool)
    requires i < |members| && Proper(Obj(members), caseSensitive)
    ensures Proper(members[i].item, caseSensitive) && Nest(members[i].item) <= NestMembers(members)
  {
    NestMembersIsMax(members);
    assert members[i] in members;
  }

  /** Arrays mean the same when their items do. */
  lemma ItemsMean(xs: seq<Value>, ys: seq<Value>, caseSensitive: bool)
    ensures Meaning(Arr(xs), caseSensitive) == Meaning(Arr(ys), caseSensitive)
      <==> |xs| == |ys| && forall k :: 0 <= k < |xs| ==> Meaning(xs[k], caseSensitive) == Meaning(ys[k], caseSensitive)
  {
    var m, n := ItemMeanings(xs, caseSensitive), ItemMeanings(ys, caseSensitive);
    if m == n {
      assert |m| == |n|;
      assert forall k :: 0 <= k < |m| ==> m[k] == n[k];
    }
  }

  lemma ReorderedSelf(v: Value)
    ensures Reordered(v, v)
  {
  }
}
