/** The walk over two sorted objects that generates a merge patch (cJSON_Utils.c). */
module PatchWalk {
  import opened Bytes
  import opened JsonValue
  import opened SortSpec
  import opened JsonMap
  import opened JsonCompare
  import opened MergePatch
  import opened Options

  // ----- names whose order does not depend on case -----

  /** Sorting these names with and without regard to case gives the same order, and no two of them differ in case only. */
  ghost predicate SameOrder(names: set<bytes>) {
    forall a, b :: a in names && b in names ==> Compare(a, b, false) == Compare(a, b, true)
  }

  /** Names without upper case letters are like that. */
  lemma LowerCaseOrder(names: set<bytes>)
    requires forall a :: a in names ==> IsLowerCase(a)
    ensures SameOrder(names)
  {
    forall a, b | a in names && b in names ensures Compare(a, b, false) == Compare(a, b, true) {
      LowerCaseNorm(a, false);
      LowerCaseNorm(b, false);
    }
  }

  /** Unique names stay unique when case is not regarded. */
  lemma {:induction false} OrderProper(v: Value, names: set<bytes>)
    requires SameOrder(names) && Over(v, names) && Proper(v, true)
    ensures Proper(v, false)
    decreases v
  {
    match v
    case Arr(items) =>
      forall i | 0 <= i < |items| ensures Proper(items[i], false) {
        OrderProper(items[i], names);
      }
    case Obj(members) =>
      forall i | 0 <= i < |members| ensures Proper(members[i].item, false) {
        OrderProper(members[i].item, names);
      }
      forall i, j | 0 <= i < j < |members| ensures Norm(members[i].key, false) != Norm(members[j].key, false) {
        CompareFlips(members[i].key, members[j].key, false);
        CompareFlips(members[i].key, members[j].key, true);
      }
    case _ =>
  }

  lemma OverMember(members: seq<Member<Value>>, i: nat, names: set<bytes>)
    requires i < |members| && Over(Obj(members), names)
    ensures members[i].key in names && Over(members[i].item, names)
  {
  }

  /** Both case modes find the same member. */
  lemma {:induction false} SameIndex(keys: seq<bytes>, name: bytes, names: set<bytes>)
    requires SameOrder(names) && name in names && forall i :: 0 <= i < |keys| ==> keys[i] in names
    ensures IndexOf(keys, name, false) == IndexOf(keys, name, true)
  {
    if keys != [] { SameIndex(keys[1..], name, names); }
  }

  /** The trees over these names that mean the same do so in both case modes. */
  lemma {:induction false} SameMeaning(x: Value, y: Value, names: set<bytes>)
    requires SameOrder(names) && Over(x, names) && Over(y, names)
    requires Proper(x, false) && Proper(y, false) && Proper(x, true) && Proper(y, true)
    ensures Meaning(x, false) == Meaning(y, false) <==> Meaning(x, true) == Meaning(y, true)
    decreases x, y, 2
  {
    if x.Arr? && y.Arr? {
      ItemsMean(x.items, y.items, false);
      ItemsMean(x.items, y.items, true);
      forall k | 0 <= k < |x.items| && k < |y.items|
        ensures Meaning(x.items[k], false) == Meaning(y.items[k], false)
          <==> Meaning(x.items[k], true) == Meaning(y.items[k], true)
      {
        SameMeaning(x.items[k], y.items[k], names);
      }
    } else if x.Obj? && y.Obj? {
      ContainsBoth(x.members, y.members, false);
      ContainsBoth(x.members, y.members, true);
      SameContains(x.members, y.members, names);
      SameContained(x.members, y.members, names);
    }
  }

  lemma {:induction false} SameContains(ms: seq<Member<Value>>, ns: seq<Member<Value>>, names: set<bytes>)
    requires SameOrder(names) && Over(Obj(ms), names) && Over(Obj(ns), names)
    requires Proper(Obj(ms), false) && Proper(Obj(ns), false) && Proper(Obj(ms), true) && Proper(Obj(ns), true)
    ensures Contains(MemberMeanings(ns, false), ms, false) <==> Contains(MemberMeanings(ns, true), ms, true)
    decreases Obj(ms), Obj(ns), 1
  {
    forall i | 0 <= i < |ms|
      ensures HasMember(MemberMeanings(ns, false), ms[i], false) <==> HasMember(MemberMeanings(ns, true), ms[i], true)
    {
      var j := FindMember(ns, ms[i].key, true);
      SameIndex(Names(ns), ms[i].key, names);
      FindDecides(ms[i], ns, false);
      FindDecides(ms[i], ns, true);
      if j < |ns| { SameMeaning(ms[i].item, ns[j].item, names); }
    }
  }

  lemma {:induction false} SameContained(ms: seq<Member<Value>>, ns: seq<Member<Value>>, names: set<bytes>)
    requires SameOrder(names) && Over(Obj(ms), names) && Over(Obj(ns), names)
    requires Proper(Obj(ms), false) && Proper(Obj(ns), false) && Proper(Obj(ms), true) && Proper(Obj(ns), true)
    ensures Contains(MemberMeanings(ms, false), ns, false) <==> Contains(MemberMeanings(ms, true), ns, true)
    decreases Obj(ms), Obj(ns), 1
  {
    forall i | 0 <= i < |ns|
      ensures HasMember(MemberMeanings(ms, false), ns[i], false) <==> HasMember(MemberMeanings(ms, true), ns[i], true)
    {
      var j := FindMember(ms, ns[i].key, true);
      SameIndex(Names(ms), ns[i].key, names);
      FindDecides(ns[i], ms, false);
      FindDecides(ns[i], ms, true);
      if j < |ms| { SameMeaning(ms[j].item, ns[i].item, names); }
    }
  }

  /** An object sorted by sort_object is sorted in both case modes. */
  lemma OrderSorted(members: seq<Member<Value>>, caseSensitive: bool, mode: bool, names: set<bytes>)
    requires SameOrder(names) && Over(Obj(members), names)
    ensures Sorted(Sort(members, caseSensitive), mode) && Over(Obj(Sort(members, caseSensitive)), names)
  {
    var r := Sort(members, caseSensitive);
    SortedObject(members, caseSensitive);
    assert Over(Obj(r), names);
    forall i, j | 0 <= i < j < |r| ensures NotAfter(r[i], r[j], mode) {
      assert NotAfter(r[i], r[j], caseSensitive);
    }
  }

  // ----- the walk over both objects -----

  /** The difference of what is left of both objects. */
  function DiffOf(f: map<bytes, Json>, t: map<bytes, Json>): map<bytes, Json> {
    DiffMembers(JObj(f), JObj(t))
  }

  /** The patch so far and the difference of what is left make up the whole difference. */
  predicate Covered(patch: map<bytes, Json>, f: map<bytes, Json>, t: map<bytes, Json>, whole: map<bytes, Json>) {
    whole == patch + DiffOf(f, t) && patch.Keys !! f.Keys + t.Keys
  }

  /** A name that is treated alike on both sides is skipped. */
  lemma CoverSkip(patch: map<bytes, Json>, f: map<bytes, Json>, t: map<bytes, Json>, whole: map<bytes, Json>, k: bytes)
    requires Covered(patch, f, t, whole) && Lookup(f, k) == Lookup(t, k)
    ensures Covered(patch, f - {k}, t - {k}, whole)
  {
    assert DiffOf(f - {k}, t - {k}) == DiffOf(f, t);
  }

  lemma DiffDrop(f: map<bytes, Json>, t: map<bytes, Json>, k: bytes)
    requires Lookup(f, k) != Lookup(t, k)
    ensures k in DiffOf(f, t) && k !in DiffOf(f - {k}, t - {k})
    ensures DiffOf(f, t) == DiffOf(f - {k}, t - {k})[k := DiffOf(f, t)[k]]
  {
    assert k in f || k in t;
  }

  lemma MoveEntry<T>(a: map<bytes, T>, b: map<bytes, T>, k: bytes, v: T)
    requires k !in b
    ensures a + b[k := v] == a[k := v] + b
  {
  }

  /** A name that is not is added to the patch. */
  lemma CoverAdd(patch: map<bytes, Json>, f: map<bytes, Json>, t: map<bytes, Json>, whole: map<bytes, Json>, k: bytes)
    requires Covered(patch, f, t, whole) && Lookup(f, k) != Lookup(t, k)
    ensures k in DiffOf(f, t) && k !in patch
    ensures Covered(patch[k := DiffOf(f, t)[k]], f - {k}, t - {k}, whole)
  {
    DiffDrop(f, t, k);
    hide DiffOf;
    MoveEntry(patch, DiffOf(f - {k}, t - {k}), k, DiffOf(f, t)[k]);
    assert k in f || k in t;
  }

  lemma DiffEmpty(f: map<bytes, Json>, t: map<bytes, Json>)
    ensures DiffOf(f, t) == map[] <==> f == t
  {
    if DiffOf(f, t) == map[] {
      forall k | k in f || k in t ensures Lookup(f, k) == Lookup(t, k) {
        assert k !in DiffOf(f, t);
      }
    }
  }

  /** What is left of a sorted object from its member `i` on. */
  function Left(ms: seq<Member<Value>>, i: nat, mode: bool): map<bytes, Json>
    requires i <= |ms|
  {
    MemberMeanings(ms[i..], mode)
  }

  lemma LeftStep(ms: seq<Member<Value>>, i: nat, mode: bool)
    requires i < |ms| && UniqueKeys(ms, mode)
    ensures Left(ms, i + 1, mode) == Left(ms, i, mode) - {Norm(ms[i].key, mode)}
    ensures Lookup(Left(ms, i, mode), Norm(ms[i].key, mode)) == Some(Meaning(ms[i].item, mode))
  {
    TailMeanings(ms[i..], mode);
    assert ms[i..][1..] == ms[i + 1..];
  }

  /** A name that is smaller than the next of a sorted object is not in what is left of it. */
  lemma NotLeft(ms: seq<Member<Value>>, i: nat, key: bytes, mode: bool)
    requires i <= |ms| && Sorted(ms, mode) && (i < |ms| ==> Compare(key, ms[i].key, mode) < 0)
    ensures Lookup(Left(ms, i, mode), Norm(key, mode)) == None
    ensures Left(ms, i, mode) - {Norm(key, mode)} == Left(ms, i, mode)
  {
    if Norm(key, mode) in Left(ms, i, mode) {
      MeaningKeys(ms[i..], mode, Norm(key, mode));
      assert Sorted(ms[i..], mode);
      HeadIsLeast(ms[i..], mode, key);
      CompareFlips(key, ms[i].key, mode);
    }
  }

  /** One member of the patch: what the generated difference has under that name. */
  predicate PatchMember(m: Member<Value>, f: map<bytes, Json>, t: map<bytes, Json>, mode: bool) {
    var k := Norm(m.key, mode);
    Proper(m.item, mode) && k in DiffOf(f, t) && Meaning(m.item, mode) == DiffOf(f, t)[k]
  }

  /** cJSON_AddItemToObject on the patch. */
  lemma AddToPatch(patch: seq<Member<Value>>, m: Member<Value>, f: map<bytes, Json>, t: map<bytes, Json>,
      whole: map<bytes, Json>, mode: bool)
    requires Proper(Obj(patch), mode) && Covered(MemberMeanings(patch, mode), f, t, whole)
    requires Lookup(f, Norm(m.key, mode)) != Lookup(t, Norm(m.key, mode)) && PatchMember(m, f, t, mode)
    ensures Proper(Obj(patch + [m]), mode)
    ensures Covered(MemberMeanings(patch + [m], mode), f - {Norm(m.key, mode)}, t - {Norm(m.key, mode)}, whole)
  {
    hide MemberMeanings, Covered, DiffOf, Norm;
    CoverAdd(MemberMeanings(patch, mode), f, t, whole, Norm(m.key, mode));
    AppendMeaning(patch, m, mode);
    ProperAppend(patch, m, mode);
  }

  /** Taking one name out of both sides: what is left after the members `i` or `j` (or both) of that name. */
  lemma LeftBoth(xs: seq<Member<Value>>, i: nat, i': nat, ys: seq<Member<Value>>, j: nat, j': nat, key: bytes, mode: bool)
    requires i <= i' <= |xs| && j <= j' <= |ys|
    requires i' <= i + 1 && j' <= j + 1
    requires BothSorted(xs, ys, mode)
    requires if i' == i then i < |xs| ==> Compare(key, xs[i].key, mode) < 0 else Norm(key, mode) == Norm(xs[i].key, mode)
    requires if j' == j then j < |ys| ==> Compare(key, ys[j].key, mode) < 0 else Norm(key, mode) == Norm(ys[j].key, mode)
    ensures
      var k := Norm(key, mode);
      && Left(xs, i', mode) == Left(xs, i, mode) - {k} && Left(ys, j', mode) == Left(ys, j, mode) - {k}
      && Lookup(Left(xs, i, mode), k) == (if i' == i then None else Some(Meaning(xs[i].item, mode)))
      && Lookup(Left(ys, j, mode), k) == (if j' == j then None else Some(Meaning(ys[j].item, mode)))
  {
    hide Left, Lookup, Norm, Compare;
    if i' == i { NotLeft(xs, i, key, mode); } else { LeftStep(xs, i, mode); }
    if j' == j { NotLeft(ys, j, key, mode); } else { LeftStep(ys, j, mode); }
  }

  // ----- one turn of the loop of generate_merge_patch -----

  /** The loop invariant: `patch` and the difference of what is left of both objects make up the difference. */
  predicate Walked(patch: seq<Member<Value>>, xs: seq<Member<Value>>, i: nat, ys: seq<Member<Value>>, j: nat, mode: bool)
    requires i <= |xs| && j <= |ys|
  {
    && Proper(Obj(patch), mode)
    && Covered(MemberMeanings(patch, mode), Left(xs, i, mode), Left(ys, j, mode),
               DiffOf(MemberMeanings(xs, mode), MemberMeanings(ys, mode)))
  }

  /** Two objects that are sorted. */
  predicate BothSorted(xs: seq<Member<Value>>, ys: seq<Member<Value>>, mode: bool) {
    Proper(Obj(xs), mode) && Proper(Obj(ys), mode) && Sorted(xs, mode) && Sorted(ys, mode)
  }

  lemma WalkStart(xs: seq<Member<Value>>, ys: seq<Member<Value>>, mode: bool)
    ensures Walked([], xs, 0, ys, 0, mode)
  {
    assert xs[0..] == xs && ys[0..] == ys;
    assert MemberMeanings([], mode) == map[];
  }

  lemma WalkEnd(patch: seq<Member<Value>>, xs: seq<Member<Value>>, ys: seq<Member<Value>>, mode: bool)
    requires Walked(patch, xs, |xs|, ys, |ys|, mode)
    ensures Proper(Obj(patch), mode)
    ensures MemberMeanings(patch, mode) == DiffOf(MemberMeanings(xs, mode), MemberMeanings(ys, mode))
  {
    assert xs[|xs|..] == [] && ys[|ys|..] == [];
    DiffEmpty(map[], map[]);
  }

  /** A turn that adds `m` to the patch, and steps over the members of that name. */
  lemma TurnAdds(patch: seq<Member<Value>>, m: Member<Value>,
      xs: seq<Member<Value>>, i: nat, i': nat, ys: seq<Member<Value>>, j: nat, j': nat, mode: bool)
    requires i <= i' <= |xs| && j <= j' <= |ys| && i' <= i + 1 && j' <= j + 1
    requires BothSorted(xs, ys, mode) && Walked(patch, xs, i, ys, j, mode)
    requires if i' == i then i < |xs| ==> Compare(m.key, xs[i].key, mode) < 0 else Norm(m.key, mode) == Norm(xs[i].key, mode)
    requires if j' == j then j < |ys| ==> Compare(m.key, ys[j].key, mode) < 0 else Norm(m.key, mode) == Norm(ys[j].key, mode)
    requires Lookup(Left(xs, i, mode), Norm(m.key, mode)) != Lookup(Left(ys, j, mode), Norm(m.key, mode))
    requires PatchMember(m, Left(xs, i, mode), Left(ys, j, mode), mode)
    ensures Walked(patch + [m], xs, i', ys, j', mode)
  {
    hide Left, Covered, Lookup, PatchMember, DiffOf, Sorted, MemberMeanings, BothSorted, Norm, Compare;
    LeftBoth(xs, i, i', ys, j, j', m.key, mode);
    AddToPatch(patch, m, Left(xs, i, mode), Left(ys, j, mode),
      DiffOf(MemberMeanings(xs, mode), MemberMeanings(ys, mode)), mode);
  }

  /** diff < 0: the name is only in `from`. */
  lemma TurnRemoves(patch: seq<Member<Value>>, xs: seq<Member<Value>>, i: nat, ys: seq<Member<Value>>, j: nat, mode: bool)
    requires i < |xs| && j <= |ys| && BothSorted(xs, ys, mode) && Walked(patch, xs, i, ys, j, mode)
    requires j < |ys| ==> Compare(xs[i].key, ys[j].key, mode) < 0
    ensures Walked(patch + [Member(xs[i].key, Null)], xs, i + 1, ys, j, mode)
  {
    hide Left, Walked, Sorted, MemberMeanings, BothSorted, Norm, Compare;
    LeftBoth(xs, i, i + 1, ys, j, j, xs[i].key, mode);
    assert PatchMember(Member(xs[i].key, Null), Left(xs, i, mode), Left(ys, j, mode), mode);
    TurnAdds(patch, Member(xs[i].key, Null), xs, i, i + 1, ys, j, j, mode);
  }

  /** diff > 0: the name is only in `to`. */
  lemma TurnInserts(patch: seq<Member<Value>>, xs: seq<Member<Value>>, i: nat, ys: seq<Member<Value>>, j: nat, mode: bool)
    requires i <= |xs| && j < |ys| && BothSorted(xs, ys, mode) && Walked(patch, xs, i, ys, j, mode)
    requires i < |xs| ==> Compare(xs[i].key, ys[j].key, mode) > 0
    ensures Walked(patch + [ys[j]], xs, i, ys, j + 1, mode)
  {
    hide Left, Walked, Sorted, MemberMeanings, Norm, Compare;
    var m := ys[j];
    if i < |xs| { CompareFlips(xs[i].key, m.key, mode); }
    LeftBoth(xs, i, i, ys, j, j + 1, m.key, mode);
    assert Proper(m.item, mode);
    assert PatchMember(m, Left(xs, i, mode), Left(ys, j, mode), mode);
    TurnAdds(patch, m, xs, i, i, ys, j, j + 1, mode);
  }

  lemma SameName(xs: seq<Member<Value>>, i: nat, ys: seq<Member<Value>>, j: nat, mode: bool)
    requires i < |xs| && j < |ys| && BothSorted(xs, ys, mode) && Compare(xs[i].key, ys[j].key, mode) == 0
    ensures
      var k := Norm(ys[j].key, mode);
      && Norm(xs[i].key, mode) == k
      && Left(xs, i + 1, mode) == Left(xs, i, mode) - {k} && Left(ys, j + 1, mode) == Left(ys, j, mode) - {k}
      && Lookup(Left(xs, i, mode), k) == Some(Meaning(xs[i].item, mode))
      && Lookup(Left(ys, j, mode), k) == Some(Meaning(ys[j].item, mode))
  {
    CompareFlips(xs[i].key, ys[j].key, mode);
    LeftBoth(xs, i, i + 1, ys, j, j + 1, ys[j].key, mode);
  }

  lemma TurnSkips(patch: seq<Member<Value>>, xs: seq<Member<Value>>, i: nat, ys: seq<Member<Value>>, j: nat, mode: bool)
    requires i < |xs| && j < |ys| && BothSorted(xs, ys, mode) && Walked(patch, xs, i, ys, j, mode)
    requires Compare(xs[i].key, ys[j].key, mode) == 0
    requires Meaning(xs[i].item, mode) == Meaning(ys[j].item, mode)
    ensures Walked(patch, xs, i + 1, ys, j + 1, mode)
  {
    hide Left, Covered, Sorted, DiffOf, MemberMeanings, Norm, Compare;
    SameName(xs, i, ys, j, mode);
    CoverSkip(MemberMeanings(patch, mode), Left(xs, i, mode), Left(ys, j, mode),
      DiffOf(MemberMeanings(xs, mode), MemberMeanings(ys, mode)), Norm(ys[j].key, mode));
  }

  lemma TurnPatches(patch: seq<Member<Value>>, v: Value,
      xs: seq<Member<Value>>, i: nat, ys: seq<Member<Value>>, j: nat, mode: bool)
    requires i < |xs| && j < |ys| && BothSorted(xs, ys, mode) && Walked(patch, xs, i, ys, j, mode)
    requires Compare(xs[i].key, ys[j].key, mode) == 0
    requires Meaning(xs[i].item, mode) != Meaning(ys[j].item, mode)
    requires Proper(v, mode) && Meaning(v, mode) == Diff(Meaning(xs[i].item, mode), Meaning(ys[j].item, mode))
    ensures Walked(patch + [Member(ys[j].key, v)], xs, i + 1, ys, j + 1, mode)
  {
    hide Left, Walked, Sorted, MemberMeanings, Meaning, Diff, Norm, Compare;
    SameName(xs, i, ys, j, mode);
    assert PatchMember(Member(ys[j].key, v), Left(xs, i, mode), Left(ys, j, mode), mode);
    TurnAdds(patch, Member(ys[j].key, v), xs, i, i + 1, ys, j, j + 1, mode);
  }
}
