/** JSON Merge Patch: applying a patch, and generating one (cJSON_Utils.c). */
module MergePatch {
  import opened Bytes
  import opened JsonValue
  import opened SortSpec
  import opened JsonMap
  import opened JsonCompare
  import opened Options

  function Lookup<T>(m: map<bytes, T>, k: bytes): Option<T> {
    if k in m then Some(m[k]) else None
  }

  // ----- section 2 of RFC 7396 -----

  /** The members of a target, or none when it is no object. */
  function TargetMembers(target: Option<Json>): map<bytes, Json> {
    match target
    case Some(JObj(members)) => members
    case _ => map[]
  }

  /** The function MergePatch(Target, Patch) of the RFC. */
  function Merged(target: Option<Json>, patch: Json): Json
    decreases patch, 1
  {
    if patch.JObj? then JObj(MergedMembers(TargetMembers(target), patch)) else patch
  }

  function MergedMembers(target: map<bytes, Json>, patch: Json): (r: map<bytes, Json>)
    requires patch.JObj?
    decreases patch, 0
  {
    map k | k in target.Keys + patch.members.Keys && !(k in patch.members && patch.members[k].JNull?)
      :: if k in patch.members then Merged(Lookup(target, k), patch.members[k]) else target[k]
  }

  /** Merging the same patch again changes nothing. */
  lemma {:induction false} MergedTwice(target: Option<Json>, patch: Json)
    ensures Merged(Some(Merged(target, patch)), patch) == Merged(target, patch)
    decreases patch
  {
    if patch.JObj? {
      var t, p := TargetMembers(target), patch.members;
      var once := MergedMembers(t, patch);
      var twice := MergedMembers(once, patch);
      forall k | k in p && p[k] != JNull ensures twice[k] == once[k] {
        MergedTwice(Lookup(t, k), p[k]);
      }
      assert twice == once;
    }
  }

  /** No object outside arrays has a null member. */
  predicate NoNullMembers(v: Json) {
    v.JObj? ==> forall k :: k in v.members ==> v.members[k] != JNull && NoNullMembers(v.members[k])
  }

  /** What a patch adds has lost its nulls; so adding `patch` gives `patch` exactly when it has none. */
  lemma {:induction false} MergedIntoNothing(target: Option<Json>, patch: Json)
    requires TargetMembers(target) == map[]
    ensures NoNullMembers(Merged(target, patch))
    ensures Merged(target, patch) == patch <==> NoNullMembers(patch)
    decreases patch
  {
    if patch.JObj? {
      var p := patch.members;
      var r := MergedMembers(map[], patch);
      assert Merged(target, patch) == JObj(r);
      forall k | k in p
        ensures NoNullMembers(Merged(None, p[k])) && (Merged(None, p[k]) == p[k] <==> NoNullMembers(p[k]))
        ensures Merged(None, p[k]) == JNull <==> p[k] == JNull
      {
        MergedIntoNothing(None, p[k]);
      }
      assert forall k :: k in r ==> k in p && r[k] == Merged(None, p[k]);
      if NoNullMembers(patch) {
        assert r == p;
      }
    }
  }

  // ----- what a generated patch should be -----

  function Diff(origin: Json, goal: Json): Json
    decreases goal, 1
  {
    if origin.JObj? && goal.JObj? then JObj(DiffMembers(origin, goal)) else goal
  }

  /** Removes what only `origin` has, adds what only `goal` has, and patches what differs. */
  function DiffMembers(origin: Json, goal: Json): map<bytes, Json>
    requires origin.JObj? && goal.JObj?
    decreases goal, 0
  {
    map k | k in origin.members.Keys + goal.members.Keys && Lookup(origin.members, k) != Lookup(goal.members, k)
      :: if k !in goal.members then JNull
         else if k !in origin.members then goal.members[k]
         else Diff(origin.members[k], goal.members[k])
  }

  /** `goal` can be reached from `origin`: a null member of `goal` is there already, in the same place. */
  predicate Expressible(origin: Json, goal: Json)
    decreases goal
  {
    if origin.JObj? && goal.JObj? then
      forall k :: k in goal.members ==>
        || Lookup(origin.members, k) == Some(goal.members[k])
        || (goal.members[k] != JNull
            && if k in origin.members then Expressible(origin.members[k], goal.members[k]) else NoNullMembers(goal.members[k]))
    else NoNullMembers(goal)
  }

  /** Merging the difference gives the target, exactly when nulls do not stand in the way. */
  lemma {:induction false} DiffCorrect(origin: Json, goal: Json)
    ensures Merged(Some(origin), Diff(origin, goal)) == goal <==> Expressible(origin, goal)
    decreases goal
  {
    if origin.JObj? && goal.JObj? {
      var f, t := origin.members, goal.members;
      var d := DiffMembers(origin, goal);
      var r := MergedMembers(f, JObj(d));
      assert Merged(Some(origin), Diff(origin, goal)) == JObj(r);
      forall k | k in t ensures Lookup(r, k) == Some(t[k]) <==> MemberExpressible(f, t, k) {
        assert k in d <==> Lookup(f, k) != Some(t[k]);
        if k !in d {
          assert k in r && r[k] == f[k];
        } else if k in f {
          DiffCorrect(f[k], t[k]);
          assert d[k] == Diff(f[k], t[k]) && (d[k] == JNull <==> t[k] == JNull);
          assert t[k] != JNull ==> k in r && r[k] == Merged(Some(f[k]), d[k]);
        } else {
          MergedIntoNothing(None, t[k]);
          assert d[k] == t[k];
          assert t[k] != JNull ==> k in r && r[k] == Merged(None, t[k]);
        }
      }
      assert forall k :: k in r ==> k in t;
      if forall k :: k in t ==> Lookup(r, k) == Some(t[k]) {
        assert r == t;
      }
      assert r == t <==> forall k :: k in t ==> MemberExpressible(f, t, k);
    } else {
      MergedIntoNothing(if goal.JObj? then Some(origin) else None, goal);
    }
  }

  predicate MemberExpressible(f: map<bytes, Json>, t: map<bytes, Json>, k: bytes)
    requires k in t
  {
    || Lookup(f, k) == Some(t[k])
    || (t[k] != JNull && if k in f then Expressible(f[k], t[k]) else NoNullMembers(t[k]))
  }

  // ----- the members of a patch one after the other -----

  /** What one member of a patch does to a target. */
  function MergedOne(t: map<bytes, Json>, k: bytes, v: Json): map<bytes, Json> {
    if v == JNull then t - {k} else t[k := Merged(Lookup(t, k), v)]
  }

  lemma MergedStep(t: map<bytes, Json>, p: map<bytes, Json>, k: bytes, v: Json)
    requires k !in p
    ensures MergedMembers(t, JObj(p[k := v])) == MergedOne(MergedMembers(t, JObj(p)), k, v)
  {
  }

  lemma UniquePrefix(ps: seq<Member<Value>>, i: nat, caseSensitive: bool)
    requires i < |ps| && UniqueKeys(ps, caseSensitive)
    ensures UniqueKeys(ps[..i], caseSensitive)
    ensures Norm(ps[i].key, caseSensitive) !in MemberMeanings(ps[..i], caseSensitive)
  {
    MeaningKeys(ps[..i], caseSensitive, Norm(ps[i].key, caseSensitive));
  }

  /** The members of a patch, applied one after the other. */
  function MergedInOrder(t: map<bytes, Json>, ps: seq<Member<Value>>, caseSensitive: bool): map<bytes, Json> {
    if ps == [] then t
    else
      MergedOne(MergedInOrder(t, ps[..|ps| - 1], caseSensitive),
                Norm(ps[|ps| - 1].key, caseSensitive), Meaning(ps[|ps| - 1].item, caseSensitive))
  }

  /** With unique names this is what the RFC computes, whatever the order. */
  lemma {:induction false} InOrderIsMerged(t: map<bytes, Json>, ps: seq<Member<Value>>, caseSensitive: bool)
    requires UniqueKeys(ps, caseSensitive)
    ensures MergedInOrder(t, ps, caseSensitive) == MergedMembers(t, JObj(MemberMeanings(ps, caseSensitive)))
  {
    hide MergedMembers, MergedOne, MemberMeanings, Norm, Meaning;
    if ps == [] {
      EmptyPatch(t, caseSensitive);
    } else {
      var i := |ps| - 1;
      UniquePrefix(ps, i, caseSensitive);
      InOrderIsMerged(t, ps[..i], caseSensitive);
      AppendMeaning(ps[..i], ps[i], caseSensitive);
      assert ps == ps[..i] + [ps[i]];
      MergedStep(t, MemberMeanings(ps[..i], caseSensitive), Norm(ps[i].key, caseSensitive), Meaning(ps[i].item, caseSensitive));
    }
  }

  lemma EmptyPatch(t: map<bytes, Json>, caseSensitive: bool)
    ensures MergedMembers(t, JObj(MemberMeanings([], caseSensitive))) == t
  {
    assert MergedMembers(t, JObj(map[])) == t;
  }

  lemma ProperWithout(members: seq<Member<Value>>, j: nat, caseSensitive: bool)
    requires j < |members| && Proper(Obj(members), caseSensitive)
    ensures Proper(members[j].item, caseSensitive) && Proper(Obj(WithoutMember(members, j)), caseSensitive)
  {
    WithoutMeaning(members, j, caseSensitive);
  }

  lemma ProperAppend(members: seq<Member<Value>>, m: Member<Value>, caseSensitive: bool)
    requires Proper(Obj(members), caseSensitive) && Proper(m.item, caseSensitive)
    requires Norm(m.key, caseSensitive) !in MemberMeanings(members, caseSensitive)
    ensures Proper(Obj(members + [m]), caseSensitive)
  {
    AppendMeaning(members, m, caseSensitive);
  }

  // ----- merge_patch -----

  function Means(v: Option<Value>, caseSensitive: bool): Option<Json> {
    if v.None? then None else Some(Meaning(v.value, caseSensitive))
  }

  /** What merging gives, for any patch: the members of each of its objects act one after the other. */
  function Applied(target: Option<Json>, patch: Value, caseSensitive: bool): Json
    decreases patch, 1
  {
    if patch.Obj? then JObj(AppliedInOrder(TargetMembers(target), patch.members, caseSensitive))
    else Meaning(patch, caseSensitive)
  }

  function AppliedInOrder(t: map<bytes, Json>, ps: seq<Member<Value>>, caseSensitive: bool): map<bytes, Json>
    decreases ps, 0
  {
    if ps == [] then t
    else
      var p := ps[|ps| - 1];
      var before := AppliedInOrder(t, ps[..|ps| - 1], caseSensitive);
      var k := Norm(p.key, caseSensitive);
      if p.item.Null? then before - {k} else before[k := Applied(Lookup(before, k), p.item, caseSensitive)]
  }

  /** What one member of a patch does to a target. */
  function AppliedOne(t: map<bytes, Json>, p: Member<Value>, caseSensitive: bool): map<bytes, Json> {
    var k := Norm(p.key, caseSensitive);
    if p.item.Null? then t - {k} else t[k := Applied(Lookup(t, k), p.item, caseSensitive)]
  }

  lemma NextPatchMember(t: map<bytes, Json>, ps: seq<Member<Value>>, i: nat, caseSensitive: bool)
    requires i < |ps|
    ensures AppliedInOrder(t, ps[..i + 1], caseSensitive)
      == AppliedOne(AppliedInOrder(t, ps[..i], caseSensitive), ps[i], caseSensitive)
  {
    assert ps[..i + 1][..i] == ps[..i];
  }

  /** For a patch with unique names this is what the RFC computes. */
  lemma {:induction false} AppliedIsMerged(target: Option<Json>, patch: Value, caseSensitive: bool)
    requires Proper(patch, caseSensitive)
    ensures Applied(target, patch, caseSensitive) == Merged(target, Meaning(patch, caseSensitive))
    decreases patch, 1
  {
    hide MergedMembers, MemberMeanings, Norm;
    if patch.Obj? {
      AppliedOrderIsMerged(TargetMembers(target), patch.members, caseSensitive);
      InOrderIsMerged(TargetMembers(target), patch.members, caseSensitive);
    }
  }

  lemma {:induction false} AppliedOrderIsMerged(t: map<bytes, Json>, ps: seq<Member<Value>>, caseSensitive: bool)
    requires forall i :: 0 <= i < |ps| ==> Proper(ps[i].item, caseSensitive)
    ensures AppliedInOrder(t, ps, caseSensitive) == MergedInOrder(t, ps, caseSensitive)
    decreases ps, 0
  {
    hide Norm, Merged, Applied;
    if ps != [] {
      var i := |ps| - 1;
      AppliedOrderIsMerged(t, ps[..i], caseSensitive);
      var before := AppliedInOrder(t, ps[..i], caseSensitive);
      AppliedIsMerged(Lookup(before, Norm(ps[i].key, caseSensitive)), ps[i].item, caseSensitive);
    }
  }

  /** Patches without bad numbers whose arrays are proper; the names of its objects need not be unique. */
  predicate ProperPatch(patch: Value, caseSensitive: bool) {
    if patch.Obj? then forall i :: 0 <= i < |patch.members| ==> ProperPatch(patch.members[i].item, caseSensitive)
    else Proper(patch, caseSensitive)
  }

  lemma {:induction false} ProperIsPatch(v: Value, caseSensitive: bool)
    requires Proper(v, caseSensitive)
    ensures ProperPatch(v, caseSensitive)
    decreases v
  {
    if v.Obj? {
      forall i | 0 <= i < |v.members| ensures ProperPatch(v.members[i].item, caseSensitive) {
        ProperIsPatch(v.members[i].item, caseSensitive);
      }
    }
  }

  /** The body of the loop of merge_patch, for the patch member `p`. */
  method MergeMember(members: seq<Member<Value>>, p: Member<Value>, caseSensitive: bool)
    returns (r: seq<Member<Value>>)
    requires Proper(Obj(members), caseSensitive) && ProperPatch(p.item, caseSensitive)
    ensures Proper(Obj(r), caseSensitive)
    ensures MemberMeanings(r, caseSensitive) == AppliedOne(MemberMeanings(members, caseSensitive), p, caseSensitive)
    decreases Nest(p.item), 1
  {
    hide MemberMeanings, Norm, UniqueKeys, WithoutMember, FindMember;
    ghost var t, k := MemberMeanings(members, caseSensitive), Norm(p.key, caseSensitive);
    r := members;
    var replaceMe := None;
    var j := FindMember(members, p.key, caseSensitive);
    FindMeaning(members, p.key, caseSensitive);
    if j < |members| {
      ProperWithout(members, j, caseSensitive);
      WithoutMeaning(members, j, caseSensitive);
      replaceMe := Some(members[j].item);
      r := WithoutMember(members, j);
    }
    assert MemberMeanings(r, caseSensitive) == t - {k};
    if !p.item.Null? {
      var replacement := MergePatch(replaceMe, p.item, caseSensitive);
      var m := Member(p.key, replacement);
      ProperAppend(r, m, caseSensitive);
      AppendMeaning(r, m, caseSensitive);
      assert (t - {k})[k := Meaning(replacement, caseSensitive)] == t[k := Meaning(replacement, caseSensitive)];
      r := r + [m];
    }
  }

  /**
   * merge_patch: `patch` is walked, and each member deletes, replaces or adds one in the target. For a patch with
   * unique names the result is what the RFC says.
   */
  method MergePatch(target: Option<Value>, patch: Value, caseSensitive: bool) returns (result: Value)
    requires ProperPatch(patch, caseSensitive) && (target.Some? ==> Proper(target.value, caseSensitive))
    ensures Proper(result, caseSensitive)
    ensures Meaning(result, caseSensitive) == Applied(Means(target, caseSensitive), patch, caseSensitive)
    ensures Proper(patch, caseSensitive) ==>
      Meaning(result, caseSensitive) == Merged(Means(target, caseSensitive), Meaning(patch, caseSensitive))
    decreases Nest(patch), 0
  {
    hide *;
    if Proper(patch, caseSensitive) { AppliedIsMerged(Means(target, caseSensitive), patch, caseSensitive); }
    if !patch.Obj? {
      ScalarPatch(target, patch, caseSensitive);
      return patch;
    }
    var members := if target.Some? && target.value.Obj? then target.value.members else [];
    var ps := patch.members;
    ghost var t := MemberMeanings(members, caseSensitive);
    ObjectPatch(target, members, ps, caseSensitive);
    var i := 0;
    while i < |ps|
      invariant 0 <= i <= |ps| && Proper(Obj(members), caseSensitive)
      invariant MemberMeanings(members, caseSensitive) == AppliedInOrder(t, ps[..i], caseSensitive)
    {
      NextPatchMember(t, ps, i, caseSensitive);
      PatchItem(ps, i, caseSensitive);
      members := MergeMember(members, ps[i], caseSensitive);
      i := i + 1;
    }
    assert ps[..i] == ps;
    result := Obj(members);
    MeaningOfObject(members, caseSensitive);
  }

  lemma PatchItem(ps: seq<Member<Value>>, i: nat, caseSensitive: bool)
    requires i < |ps| && ProperPatch(Obj(ps), caseSensitive)
    ensures ProperPatch(ps[i].item, caseSensitive) && Nest(ps[i].item) <= NestMembers(ps)
  {
    NestMembersIsMax(ps);
    assert ps[i] in ps;
  }

  lemma ScalarPatch(target: Option<Value>, patch: Value, caseSensitive: bool)
    requires !patch.Obj? && ProperPatch(patch, caseSensitive)
    ensures Proper(patch, caseSensitive)
    ensures Meaning(patch, caseSensitive) == Applied(Means(target, caseSensitive), patch, caseSensitive)
  {
  }

  lemma MeaningOfObject(members: seq<Member<Value>>, caseSensitive: bool)
    ensures Meaning(Obj(members), caseSensitive) == JObj(MemberMeanings(members, caseSensitive))
  {
  }

  /** The members that merging an object into `target` starts with, and what it has to end with. */
  lemma ObjectPatch(target: Option<Value>, members: seq<Member<Value>>, ps: seq<Member<Value>>, caseSensitive: bool)
    requires target.Some? ==> Proper(target.value, caseSensitive)
    requires members == if target.Some? && target.value.Obj? then target.value.members else []
    ensures Proper(Obj(members), caseSensitive)
    ensures
      var t := MemberMeanings(members, caseSensitive);
      && t == AppliedInOrder(t, ps[..0], caseSensitive)
      && Applied(Means(target, caseSensitive), Obj(ps), caseSensitive) == JObj(AppliedInOrder(t, ps, caseSensitive))
    ensures Nest(Obj(ps)) == 1 + NestMembers(ps)
  {
    assert MemberMeanings(members, caseSensitive) == TargetMembers(Means(target, caseSensitive));
  }
}
