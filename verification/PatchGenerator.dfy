/** Generating a merge patch: generate_merge_patch of cJSON_Utils.c. */
module PatchGenerator {
  import opened Bytes
  import opened JsonValue
  import opened SortSpec
  import opened JsonMap
  import opened JsonCompare
  import opened MergePatch
  import opened Options
  import opened PatchWalk

  /** Trees whose objects have no two names that differ in case only. */
  predicate Given(v: Value) { Proper(v, false) }

  /** Names that differ in lower case differ. */
  lemma {:induction false} GivenProper(v: Value, caseSensitive: bool)
    requires Given(v)
    ensures Proper(v, caseSensitive)
    decreases v
  {
    match v
    case Arr(items) =>
      forall i | 0 <= i < |items| ensures Proper(items[i], caseSensitive) {
        assert Given(items[i]);
        GivenProper(items[i], caseSensitive);
      }
    case Obj(members) =>
      forall i | 0 <= i < |members| ensures Proper(members[i].item, caseSensitive) {
        assert Given(members[i].item);
        GivenProper(members[i].item, caseSensitive);
      }
    case _ =>
  }

  /** The values of the members are Given. */
  predicate GivenBelow(v: Value) { ProperBelow(v, false) }

  /**
   * Trees that a patch is generated for: compare_json is called on the values of the members under the case mode, and
   * everything below is treated without regard to case.
   */
  predicate Accepted(v: Value, caseSensitive: bool) {
    v.Obj? ==> forall i :: 0 <= i < |v.members| ==>
      Proper(v.members[i].item, caseSensitive) && GivenBelow(v.members[i].item)
  }

  lemma GivenAccepted(v: Value, caseSensitive: bool)
    requires Given(v)
    ensures Accepted(v, caseSensitive) && GivenBelow(v)
  {
    if v.Obj? {
      forall i | 0 <= i < |v.members|
        ensures Proper(v.members[i].item, caseSensitive) && GivenBelow(v.members[i].item)
      {
        assert Given(v.members[i].item);
        GivenProper(v.members[i].item, caseSensitive);
      }
    }
  }

  lemma BelowAccepted(v: Value)
    requires GivenBelow(v)
    ensures Accepted(v, false)
  {
  }

  lemma AcceptedMember(members: seq<Member<Value>>, i: nat, caseSensitive: bool)
    requires i < |members| && Accepted(Obj(members), caseSensitive)
    ensures Proper(members[i].item, caseSensitive) && GivenBelow(members[i].item)
    ensures Nest(members[i].item) <= NestMembers(members)
  {
    NestMembersIsMax(members);
    assert members[i] in members;
  }

  lemma AcceptedSorted(ms: seq<Member<Value>>, xs: seq<Member<Value>>, caseSensitive: bool)
    requires Accepted(Obj(ms), caseSensitive) && multiset(xs) == multiset(ms)
    ensures Accepted(Obj(xs), caseSensitive)
  {
    forall i | 0 <= i < |xs| ensures Proper(xs[i].item, caseSensitive) && GivenBelow(xs[i].item) {
      InBoth(xs, ms, xs[i]);
      assert xs[i] in ms;
    }
  }

  /** Trees over names that can be sorted and walked in the same order. */
  ghost predicate Patchable(v: Value, names: set<bytes>) {
    SameOrder(names) && Over(v, names) && Given(v)
  }

  /** The same of the values of the members alone; the names of the object itself are unique. */
  ghost predicate PatchableBelow(v: Value, names: set<bytes>) {
    && SameOrder(names) && Proper(v, true)
    && (v.Obj? ==> forall i :: 0 <= i < |v.members| ==> Over(v.members[i].item, names) && Given(v.members[i].item))
  }

  /** `p` is, in both case modes, the difference of the two values. */
  ghost predicate IsPatch(p: Value, x: Value, y: Value, names: set<bytes>) {
    Patchable(p, names) && forall mode: bool :: Meaning(p, mode) == Diff(Meaning(x, mode), Meaning(y, mode))
  }

  lemma PatchableSame(x: Value, y: Value, names: set<bytes>, caseSensitive: bool)
    requires Patchable(x, names) && Patchable(y, names)
    ensures Meaning(x, caseSensitive) == Meaning(y, caseSensitive) <==> Meaning(x, true) == Meaning(y, true)
  {
    GivenProper(x, true);
    GivenProper(y, true);
    SameMeaning(x, y, names);
  }

  // ----- objects whose common members are equal -----

  /** What the loop writes for members that need no patch of their own: strcmp decides which side is ahead. */
  function FlatWalk(xs: seq<Member<Value>>, ys: seq<Member<Value>>): seq<Member<Value>>
    decreases |xs| + |ys|
  {
    if xs == [] && ys == [] then []
    else if ys == [] || (xs != [] && Compare(xs[0].key, ys[0].key, true) < 0) then
      [Member(xs[0].key, Null)] + FlatWalk(xs[1..], ys)
    else if xs == [] || Compare(xs[0].key, ys[0].key, true) > 0 then
      [ys[0]] + FlatWalk(xs, ys[1..])
    else FlatWalk(xs[1..], ys[1..])
  }

  /** Members of the same name have values that compare_json takes for equal. */
  predicate NoneDiffers(xs: seq<Member<Value>>, ys: seq<Member<Value>>, caseSensitive: bool) {
    forall i, j :: 0 <= i < |xs| && 0 <= j < |ys| && Compare(xs[i].key, ys[j].key, true) == 0 ==>
      Meaning(xs[i].item, caseSensitive) == Meaning(ys[j].item, caseSensitive)
  }

  lemma FlatRemoves(xs: seq<Member<Value>>, i: nat, ys: seq<Member<Value>>, j: nat)
    requires i < |xs| && j <= |ys| && (j < |ys| ==> Compare(xs[i].key, ys[j].key, true) < 0)
    ensures FlatWalk(xs[i..], ys[j..]) == [Member(xs[i].key, Null)] + FlatWalk(xs[i + 1..], ys[j..])
  {
  }

  lemma FlatInserts(xs: seq<Member<Value>>, i: nat, ys: seq<Member<Value>>, j: nat)
    requires i <= |xs| && j < |ys| && (i < |xs| ==> Compare(xs[i].key, ys[j].key, true) > 0)
    ensures FlatWalk(xs[i..], ys[j..]) == [ys[j]] + FlatWalk(xs[i..], ys[j + 1..])
  {
  }

  lemma FlatSkips(xs: seq<Member<Value>>, i: nat, ys: seq<Member<Value>>, j: nat)
    requires i < |xs| && j < |ys| && Compare(xs[i].key, ys[j].key, true) == 0
    ensures FlatWalk(xs[i..], ys[j..]) == FlatWalk(xs[i + 1..], ys[j + 1..])
  {
  }

  /** What is still to come completes the flat walk. */
  predicate FlatSoFar(patch: seq<Member<Value>>, xs: seq<Member<Value>>, i: nat, ys: seq<Member<Value>>, j: nat)
    requires i <= |xs| && j <= |ys|
  {
    patch + FlatWalk(xs[i..], ys[j..]) == FlatWalk(xs, ys)
  }

  lemma FlatStart(xs: seq<Member<Value>>, ys: seq<Member<Value>>)
    ensures FlatSoFar([], xs, 0, ys, 0)
  {
    assert xs[0..] == xs && ys[0..] == ys;
  }

  lemma FlatEnd(patch: seq<Member<Value>>, xs: seq<Member<Value>>, ys: seq<Member<Value>>)
    requires FlatSoFar(patch, xs, |xs|, ys, |ys|)
    ensures patch == FlatWalk(xs, ys)
  {
  }

  lemma FlatAdds(patch: seq<Member<Value>>, m: Member<Value>,
      xs: seq<Member<Value>>, i: nat, i': nat, ys: seq<Member<Value>>, j: nat, j': nat)
    requires i <= i' <= |xs| && j <= j' <= |ys|
    requires FlatWalk(xs[i..], ys[j..]) == [m] + FlatWalk(xs[i'..], ys[j'..])
    ensures FlatSoFar(patch, xs, i, ys, j) ==> FlatSoFar(patch + [m], xs, i', ys, j')
  {
    var rest := FlatWalk(xs[i'..], ys[j'..]);
    assert patch + ([m] + rest) == (patch + [m]) + rest;
  }

  // ----- objects without containers -----

  /** An object without containers in it. */
  predicate Flat(v: Value) { v.Obj? && Nest(v) == 1 }

  /** Two flat objects whose common members are equal. */
  predicate FlatPair(x: Value, y: Value) {
    Flat(x) && Flat(y) && NoneDiffers(x.members, y.members, false)
  }

  /** The patch for two such objects that compare_json has sorted before. */
  function FlatPatch(x: Value, y: Value, caseSensitive: bool): Option<Value>
    requires x.Obj? && y.Obj?
  {
    var xs, ys := Sort(x.members, caseSensitive), Sort(y.members, caseSensitive);
    var members := FlatWalk(Sort(xs, false), Sort(ys, false));
    if members == [] then None else Some(Obj(members))
  }

  /** Both objects have one member, of one name, whose values are flat and differ. */
  predicate SinglePair(xs: seq<Member<Value>>, ys: seq<Member<Value>>, caseSensitive: bool) {
    && |xs| == |ys| == 1 && Compare(xs[0].key, ys[0].key, true) == 0 && FlatPair(xs[0].item, ys[0].item)
    && Meaning(xs[0].item, caseSensitive) != Meaning(ys[0].item, caseSensitive)
  }

  function SinglePatch(xs: seq<Member<Value>>, ys: seq<Member<Value>>, caseSensitive: bool): seq<Member<Value>>
    requires SinglePair(xs, ys, caseSensitive)
  {
    var p := FlatPatch(xs[0].item, ys[0].item, caseSensitive);
    if p.None? then [] else [Member(ys[0].key, p.value)]
  }

  // ----- the loop invariant -----

  /** Two objects that sort_object has sorted, over names whose order does not depend on case. */
  ghost predicate Ordered(xs: seq<Member<Value>>, ys: seq<Member<Value>>, names: set<bytes>) {
    && Patchable(Obj(xs), names) && Patchable(Obj(ys), names)
    && BothSorted(xs, ys, true) && BothSorted(xs, ys, false)
  }

  /** Two objects sorted with regard to case, with such names below. */
  ghost predicate OrderedBelow(xs: seq<Member<Value>>, ys: seq<Member<Value>>, names: set<bytes>) {
    PatchableBelow(Obj(xs), names) && PatchableBelow(Obj(ys), names) && BothSorted(xs, ys, true)
  }

  /** The comparison of strcmp is that of both case modes. */
  lemma OrderedCompare(xs: seq<Member<Value>>, i: nat, ys: seq<Member<Value>>, j: nat, names: set<bytes>)
    requires i < |xs| && j < |ys| && Ordered(xs, ys, names)
    ensures Compare(xs[i].key, ys[j].key, false) == Compare(xs[i].key, ys[j].key, true)
  {
    OverMember(xs, i, names);
    OverMember(ys, j, names);
  }

  ghost predicate WalkedBoth(patch: seq<Member<Value>>,
      xs: seq<Member<Value>>, i: nat, ys: seq<Member<Value>>, j: nat, names: set<bytes>)
    requires i <= |xs| && j <= |ys|
  {
    Over(Obj(patch), names) && Walked(patch, xs, i, ys, j, true) && Walked(patch, xs, i, ys, j, false)
  }

  /** What holds between turns of the loop. */
  ghost predicate Turning(patch: seq<Member<Value>>,
      xs: seq<Member<Value>>, i: nat, ys: seq<Member<Value>>, j: nat, caseSensitive: bool, names: set<bytes>)
    requires i <= |xs| && j <= |ys|
  {
    && (Ordered(xs, ys, names) ==> WalkedBoth(patch, xs, i, ys, j, names))
    && (caseSensitive && OrderedBelow(xs, ys, names) ==> Walked(patch, xs, i, ys, j, true))
    && (NoneDiffers(xs, ys, caseSensitive) ==> FlatSoFar(patch, xs, i, ys, j))
    && (SinglePair(xs, ys, caseSensitive) ==> i == j && patch == if i == 0 then [] else SinglePatch(xs, ys, caseSensitive))
  }

  lemma TurningStart(xs: seq<Member<Value>>, ys: seq<Member<Value>>, caseSensitive: bool, names: set<bytes>)
    ensures Turning([], xs, 0, ys, 0, caseSensitive, names)
  {
    WalkStart(xs, ys, true);
    WalkStart(xs, ys, false);
    FlatStart(xs, ys);
  }

  lemma OverAdded(patch: seq<Member<Value>>, m: Member<Value>, names: set<bytes>)
    requires Over(Obj(patch), names) && m.key in names && Over(m.item, names)
    ensures Over(Obj(patch + [m]), names)
  {
  }

  lemma TurningRemoves(patch: seq<Member<Value>>,
      xs: seq<Member<Value>>, i: nat, ys: seq<Member<Value>>, j: nat, caseSensitive: bool, names: set<bytes>)
    requires i < |xs| && j <= |ys| && Turning(patch, xs, i, ys, j, caseSensitive, names)
    requires j < |ys| ==> Compare(xs[i].key, ys[j].key, true) < 0
    ensures Turning(patch + [Member(xs[i].key, Null)], xs, i + 1, ys, j, caseSensitive, names)
  {
    hide BothSorted, Walked, NoneDiffers, FlatSoFar, FlatWalk, Compare, SameOrder, Over, FlatPair, SinglePatch;
    if Ordered(xs, ys, names) {
      if j < |ys| { OrderedCompare(xs, i, ys, j, names); }
      TurnRemoves(patch, xs, i, ys, j, true);
      TurnRemoves(patch, xs, i, ys, j, false);
      OverMember(xs, i, names);
      NullOver(names);
      OverAdded(patch, Member(xs[i].key, Null), names);
    }
    if caseSensitive && OrderedBelow(xs, ys, names) { TurnRemoves(patch, xs, i, ys, j, true); }
    FlatRemoves(xs, i, ys, j);
    FlatAdds(patch, Member(xs[i].key, Null), xs, i, i + 1, ys, j, j);
  }

  lemma NullOver(names: set<bytes>)
    ensures Over(Null, names)
  {
  }

  lemma TurningInserts(patch: seq<Member<Value>>,
      xs: seq<Member<Value>>, i: nat, ys: seq<Member<Value>>, j: nat, caseSensitive: bool, names: set<bytes>)
    requires i <= |xs| && j < |ys| && Turning(patch, xs, i, ys, j, caseSensitive, names)
    requires i < |xs| ==> Compare(xs[i].key, ys[j].key, true) > 0
    ensures Turning(patch + [ys[j]], xs, i, ys, j + 1, caseSensitive, names)
  {
    hide BothSorted, Walked, NoneDiffers, FlatSoFar, FlatWalk, Compare, SameOrder, Over, FlatPair, SinglePatch;
    if Ordered(xs, ys, names) {
      if i < |xs| { OrderedCompare(xs, i, ys, j, names); }
      TurnInserts(patch, xs, i, ys, j, true);
      TurnInserts(patch, xs, i, ys, j, false);
      OverMember(ys, j, names);
      OverAdded(patch, ys[j], names);
    }
    if caseSensitive && OrderedBelow(xs, ys, names) { TurnInserts(patch, xs, i, ys, j, true); }
    FlatInserts(xs, i, ys, j);
    FlatAdds(patch, ys[j], xs, i, i, ys, j, j + 1);
  }

  /** The name is in both objects: `same` tells whether compare_json took the values for equal. */
  lemma TurningBoth(patch: seq<Member<Value>>, same: bool, v: Option<Value>,
      xs: seq<Member<Value>>, i: nat, ys: seq<Member<Value>>, j: nat, caseSensitive: bool, names: set<bytes>)
    requires i < |xs| && j < |ys| && Turning(patch, xs, i, ys, j, caseSensitive, names)
    requires Compare(xs[i].key, ys[j].key, true) == 0
    requires MemberResult(xs[i].item, ys[j].item, caseSensitive, same, v, names)
    ensures Turning(if v.None? then patch else patch + [Member(ys[j].key, v.value)], xs, i + 1, ys, j + 1,
                    caseSensitive, names)
  {
    hide Walked, Compare, Meaning, Diff, FlatWalk, BothSorted, Over, SameOrder, Proper, FlatPair, FlatPatch, Given,
      FlatSoFar, IsPatch, WalkedBoth, Ordered, OrderedBelow;
    var r := if v.None? then patch else patch + [Member(ys[j].key, v.value)];
    if Ordered(xs, ys, names) {
      OrderedCompare(xs, i, ys, j, names);
      OrderedBoth(patch, same, v, xs, i, ys, j, caseSensitive, names);
    }
    if caseSensitive && OrderedBelow(xs, ys, names) { OrderedBelowBoth(patch, same, v, xs, i, ys, j, names); }
    if NoneDiffers(xs, ys, caseSensitive) { FlatBoth(patch, xs, i, ys, j); }
    if SinglePair(xs, ys, caseSensitive) {
      assert i == j == 0 && !same;
      var m := Member(ys[j].key, if v.Some? then v.value else Null);
      assert [] + [m] == [m];
    }
  }

  lemma FlatBoth(patch: seq<Member<Value>>, xs: seq<Member<Value>>, i: nat, ys: seq<Member<Value>>, j: nat)
    requires i < |xs| && j < |ys| && FlatSoFar(patch, xs, i, ys, j) && Compare(xs[i].key, ys[j].key, true) == 0
    ensures FlatSoFar(patch, xs, i + 1, ys, j + 1)
  {
    FlatSkips(xs, i, ys, j);
  }

  lemma OrderedBoth(patch: seq<Member<Value>>, same: bool, v: Option<Value>,
      xs: seq<Member<Value>>, i: nat, ys: seq<Member<Value>>, j: nat, caseSensitive: bool, names: set<bytes>)
    requires i < |xs| && j < |ys| && Ordered(xs, ys, names)
    requires Compare(xs[i].key, ys[j].key, true) == 0 && Compare(xs[i].key, ys[j].key, false) == 0
    requires WalkedBoth(patch, xs, i, ys, j, names)
    requires MemberResult(xs[i].item, ys[j].item, caseSensitive, same, v, names)
    ensures WalkedBoth(if v.None? then patch else patch + [Member(ys[j].key, v.value)], xs, i + 1, ys, j + 1, names)
  {
    hide Walked, Compare, Meaning, Diff, BothSorted, Over, SameOrder, FlatPair, FlatPatch;
    OverMember(xs, i, names);
    OverMember(ys, j, names);
    ProperMember(xs, i, false);
    ProperMember(ys, j, false);
    hide Proper;
    PatchableSame(xs[i].item, ys[j].item, names, caseSensitive);
    PatchableSame(xs[i].item, ys[j].item, names, false);
    if same {
      TurnSkips(patch, xs, i, ys, j, true);
      TurnSkips(patch, xs, i, ys, j, false);
    } else {
      GivenProper(v.value, true);
      GivenProper(v.value, false);
      TurnPatches(patch, v.value, xs, i, ys, j, true);
      TurnPatches(patch, v.value, xs, i, ys, j, false);
      OverAdded(patch, Member(ys[j].key, v.value), names);
    }
  }

  lemma OrderedBelowBoth(patch: seq<Member<Value>>, same: bool, v: Option<Value>,
      xs: seq<Member<Value>>, i: nat, ys: seq<Member<Value>>, j: nat, names: set<bytes>)
    requires i < |xs| && j < |ys| && OrderedBelow(xs, ys, names)
    requires Compare(xs[i].key, ys[j].key, true) == 0 && Walked(patch, xs, i, ys, j, true)
    requires MemberResult(xs[i].item, ys[j].item, true, same, v, names)
    ensures Walked(if v.None? then patch else patch + [Member(ys[j].key, v.value)], xs, i + 1, ys, j + 1, true)
  {
    hide Walked, Compare, Meaning, Diff, BothSorted, Over, SameOrder, FlatPair, FlatPatch, Proper;
    assert Patchable(xs[i].item, names) && Patchable(ys[j].item, names);
    if same {
      TurnSkips(patch, xs, i, ys, j, true);
    } else {
      GivenProper(v.value, true);
      TurnPatches(patch, v.value, xs, i, ys, j, true);
    }
  }

  /** What one value is patched with. */
  ghost predicate MemberResult(x: Value, y: Value, caseSensitive: bool, same: bool, patch: Option<Value>, names: set<bytes>)
  {
    && (same <==> Meaning(x, caseSensitive) == Meaning(y, caseSensitive))
    && (same ==> patch.None?)
    && (!same && Patchable(x, names) && Patchable(y, names) ==> patch.Some? && IsPatch(patch.value, x, y, names))
    && (!same && FlatPair(x, y) ==> patch == FlatPatch(x, y, caseSensitive))
  }

  // ----- generate_merge_patch -----

  /** The patch for two values of the same name, unless compare_json takes them for equal. */
  method GenerateMember(x: Value, y: Value, caseSensitive: bool, ghost names: set<bytes>)
    returns (same: bool, patch: Option<Value>, x': Value, y': Value)
    requires Proper(x, caseSensitive) && GivenBelow(x) && Proper(y, caseSensitive) && GivenBelow(y)
    ensures same <==> Same(x, y, caseSensitive)
    ensures MemberResult(x, y, caseSensitive, same, patch, names)
    ensures Reordered(x, x') && Reordered(y, y')
    decreases Nest(y), 1
  {
    hide *;
    same, x', y' := CompareJson(x, y, caseSensitive);
    patch := None;
    if !same {
      AfterCompare(x, x', caseSensitive);
      AfterCompare(y, y', caseSensitive);
      var x'', y'';
      patch, x'', y'' := GenerateMergePatch(x', y', false, names);
      NestedPatch(x, x', y, y', caseSensitive, patch, names);
      ReorderedTransitive(x, x', x'');
      ReorderedTransitive(y, y', y'');
      x', y' := x'', y'';
    } else {
      SameResult(x, y, caseSensitive, names);
    }
  }

  lemma SameResult(x: Value, y: Value, caseSensitive: bool, names: set<bytes>)
    requires Meaning(x, caseSensitive) == Meaning(y, caseSensitive)
    ensures MemberResult(x, y, caseSensitive, true, None, names)
  {
  }

  /** What compare_json leaves can be handed on. */
  lemma AfterCompare(x: Value, x': Value, caseSensitive: bool)
    requires Proper(x, caseSensitive) && GivenBelow(x) && Reordered(x, x')
    ensures Accepted(x', false) && Nest(x') == Nest(x)
  {
    BelowAccepted(x');
  }

  /** The result for two values, from the result for what compare_json has left of them. */
  lemma NestedPatch(x: Value, x': Value, y: Value, y': Value, caseSensitive: bool, patch: Option<Value>, names: set<bytes>)
    requires Reordered(x, x') && Reordered(y, y') && Meaning(x, caseSensitive) != Meaning(y, caseSensitive)
    requires x.Obj? && y.Obj? && Nest(x) == 1 ==> x' == Obj(Sort(x.members, caseSensitive))
    requires x.Obj? && y.Obj? && Nest(y) == 1 ==> y' == Obj(Sort(y.members, caseSensitive))
    requires Generated(patch, x', y', false, names)
    ensures MemberResult(x, y, caseSensitive, false, patch, names)
  {
    hide *;
    if Patchable(x, names) && Patchable(y, names) { NestedDifference(x, x', y, y', caseSensitive, patch, names); }
    if FlatPair(x, y) { NestedFlat(x, x', y, y', caseSensitive, patch, names); }
    DifferentResult(x, y, caseSensitive, patch, names);
  }

  /** The definition of MemberResult for values that differ. */
  lemma DifferentResult(x: Value, y: Value, caseSensitive: bool, patch: Option<Value>, names: set<bytes>)
    requires Meaning(x, caseSensitive) != Meaning(y, caseSensitive)
    requires Patchable(x, names) && Patchable(y, names) ==> patch.Some? && IsPatch(patch.value, x, y, names)
    requires FlatPair(x, y) ==> x.Obj? && y.Obj? && patch == FlatPatch(x, y, caseSensitive)
    ensures MemberResult(x, y, caseSensitive, false, patch, names)
  {
    hide Meaning, Patchable, IsPatch, FlatPair, FlatPatch;
  }

  lemma NestedDifference(x: Value, x': Value, y: Value, y': Value, caseSensitive: bool, patch: Option<Value>, names: set<bytes>)
    requires Reordered(x, x') && Reordered(y, y') && Meaning(x, caseSensitive) != Meaning(y, caseSensitive)
    requires Generated(patch, x', y', false, names) && Patchable(x, names) && Patchable(y, names)
    ensures patch.Some? && IsPatch(patch.value, x, y, names)
  {
    hide Sort, FlatWalk, Diff, SinglePair, NoneDiffers, Meaning, Patchable, Reordered, PatchableBelow;
    ReorderedPatchable(x, x', names);
    ReorderedPatchable(y, y', names);
    PatchableSame(x, y, names, caseSensitive);
  }

  lemma NestedFlat(x: Value, x': Value, y: Value, y': Value, caseSensitive: bool, patch: Option<Value>, names: set<bytes>)
    requires FlatPair(x, y) && Generated(patch, x', y', false, names)
    requires x.Obj? && y.Obj? && Nest(x) == 1 ==> x' == Obj(Sort(x.members, caseSensitive))
    requires x.Obj? && y.Obj? && Nest(y) == 1 ==> y' == Obj(Sort(y.members, caseSensitive))
    ensures x.Obj? && y.Obj? && patch == FlatPatch(x, y, caseSensitive)
  {
    hide Sort, FlatWalk, SinglePair, NoneDiffers, Patchable, PatchableBelow, IsDifference;
    SortCorrect(x.members, caseSensitive);
    SortCorrect(y.members, caseSensitive);
    NoneDiffersSorted(x.members, y.members, x'.members, y'.members, false);
  }

  lemma ReorderedPatchable(v: Value, v': Value, names: set<bytes>)
    requires Patchable(v, names) && Reordered(v, v')
    ensures Patchable(v', names) && v'.Obj? == v.Obj?
    ensures Meaning(v', true) == Meaning(v, true) && Meaning(v', false) == Meaning(v, false)
  {
    GivenProper(v, true);
  }

  /** What the loop leaves in the patch. */
  ghost predicate WalkResult(patch: seq<Member<Value>>, xs: seq<Member<Value>>, ys: seq<Member<Value>>,
      caseSensitive: bool, names: set<bytes>)
  {
    && (Ordered(xs, ys, names) ==>
          Patchable(Obj(patch), names) && IsWalked(patch, xs, ys, true) && IsWalked(patch, xs, ys, false))
    && (caseSensitive && OrderedBelow(xs, ys, names) ==> IsWalked(patch, xs, ys, true))
    && (NoneDiffers(xs, ys, caseSensitive) ==> patch == FlatWalk(xs, ys))
    && (SinglePair(xs, ys, caseSensitive) ==> patch == SinglePatch(xs, ys, caseSensitive))
  }

  /** The patch is the difference. */
  predicate IsWalked(patch: seq<Member<Value>>, xs: seq<Member<Value>>, ys: seq<Member<Value>>, mode: bool) {
    && Proper(Obj(patch), mode)
    && MemberMeanings(patch, mode) == DiffOf(MemberMeanings(xs, mode), MemberMeanings(ys, mode))
  }

  lemma TurningEnd(patch: seq<Member<Value>>, xs: seq<Member<Value>>, ys: seq<Member<Value>>,
      caseSensitive: bool, names: set<bytes>)
    requires Turning(patch, xs, |xs|, ys, |ys|, caseSensitive, names)
    ensures WalkResult(patch, xs, ys, caseSensitive, names)
  {
    hide BothSorted, Walked, NoneDiffers, FlatSoFar, FlatWalk, FlatPair, FlatPatch;
    hide MemberMeanings, DiffOf, Over, SameOrder, Proper;
    if Ordered(xs, ys, names) {
      WalkEnd(patch, xs, ys, true);
      WalkEnd(patch, xs, ys, false);
    }
    if caseSensitive && OrderedBelow(xs, ys, names) { WalkEnd(patch, xs, ys, true); }
    if NoneDiffers(xs, ys, caseSensitive) { FlatEnd(patch, xs, ys); }
  }

  /** The loop of generate_merge_patch; what is compared on the way is sorted in place. */
  method WalkBoth(xs: seq<Member<Value>>, ys: seq<Member<Value>>, caseSensitive: bool, ghost names: set<bytes>)
    returns (patch: seq<Member<Value>>, a': Value, b': Value)
    requires Accepted(Obj(xs), caseSensitive) && Accepted(Obj(ys), caseSensitive)
    ensures Reordered(Obj(xs), a') && Reordered(Obj(ys), b')
    ensures WalkResult(patch, xs, ys, caseSensitive, names)
    decreases NestMembers(ys), 2
  {
    hide *;
    TurningStart(xs, ys, caseSensitive, names);
    ReorderedSelf(Obj(xs));
    ReorderedSelf(Obj(ys));
    patch := [];
    var p, q, i, j := xs, ys, 0, 0;
    while i < |xs| || j < |ys|
      invariant 0 <= i <= |xs| && 0 <= j <= |ys| && |p| == |xs| && |q| == |ys|
      invariant (forall k {:trigger p[k]} :: i <= k < |xs| ==> p[k] == xs[k])
      invariant (forall k {:trigger q[k]} :: j <= k < |ys| ==> q[k] == ys[k])
      invariant Reordered(Obj(xs), Obj(p)) && Reordered(Obj(ys), Obj(q))
      invariant Turning(patch, xs, i, ys, j, caseSensitive, names)
      decreases |xs| - i + |ys| - j
    {
      var diff := if i < |xs| then if j < |ys| then Compare(xs[i].key, ys[j].key, true) else -1 else 1;
      if diff < 0 {
        TurningRemoves(patch, xs, i, ys, j, caseSensitive, names);
        patch := patch + [Member(xs[i].key, Null)];
        i := i + 1;
      } else if diff > 0 {
        TurningInserts(patch, xs, i, ys, j, caseSensitive, names);
        patch := patch + [ys[j]];
        j := j + 1;
      } else {
        AcceptedMember(xs, i, caseSensitive);
        AcceptedMember(ys, j, caseSensitive);
        var same, v, x', y' := GenerateMember(xs[i].item, ys[j].item, caseSensitive, names);
        ReorderedMember(p, i, x');
        ReorderedMember(q, j, y');
        ReorderedTransitive(Obj(xs), Obj(p), Obj(p[i := Member(p[i].key, x')]));
        ReorderedTransitive(Obj(ys), Obj(q), Obj(q[j := Member(q[j].key, y')]));
        p, q := p[i := Member(p[i].key, x')], q[j := Member(q[j].key, y')];
        TurningBoth(patch, same, v, xs, i, ys, j, caseSensitive, names);
        if v.Some? {
          patch := patch + [Member(ys[j].key, v.value)];
        }
        i, j := i + 1, j + 1;
      }
    }
    TurningEnd(patch, xs, ys, caseSensitive, names);
    a', b' := Obj(p), Obj(q);
  }

  /** Both objects after sort_object. */
  lemma SortBoth(ms: seq<Member<Value>>, ns: seq<Member<Value>>, caseSensitive: bool, names: set<bytes>)
    requires Accepted(Obj(ms), caseSensitive) && Accepted(Obj(ns), caseSensitive)
    ensures
      var xs, ys := Sort(ms, caseSensitive), Sort(ns, caseSensitive);
      && Accepted(Obj(xs), caseSensitive) && Accepted(Obj(ys), caseSensitive)
      && Reordered(Obj(ms), Obj(xs)) && Reordered(Obj(ns), Obj(ys)) && NestMembers(ys) < Nest(Obj(ns))
      && (Patchable(Obj(ms), names) && Patchable(Obj(ns), names) ==> Ordered(xs, ys, names))
      && (caseSensitive && PatchableBelow(Obj(ms), names) && PatchableBelow(Obj(ns), names) ==> OrderedBelow(xs, ys, names))
  {
    SortedObject(ms, caseSensitive);
    SortedObject(ns, caseSensitive);
    SortCorrect(ms, caseSensitive);
    SortCorrect(ns, caseSensitive);
    AcceptedSorted(ms, Sort(ms, caseSensitive), caseSensitive);
    AcceptedSorted(ns, Sort(ns, caseSensitive), caseSensitive);
    SortPatchable(ms, caseSensitive, names);
    SortPatchable(ns, caseSensitive, names);
    hide Sort, Sorted, Proper, SameOrder, Over;
  }

  /** A patchable object after sort_object. */
  lemma SortPatchable(ms: seq<Member<Value>>, caseSensitive: bool, names: set<bytes>)
    ensures
      var r := Sort(ms, caseSensitive);
      && (Patchable(Obj(ms), names) ==>
            Patchable(Obj(r), names) && Proper(Obj(r), true) && Sorted(r, true) && Sorted(r, false))
      && (PatchableBelow(Obj(ms), names) ==> PatchableBelow(Obj(r), names) && (caseSensitive ==> Sorted(r, true)))
  {
    var r := Sort(ms, caseSensitive);
    SortedObject(ms, caseSensitive);
    if Patchable(Obj(ms), names) {
      GivenProper(Obj(ms), true);
      OrderSorted(ms, caseSensitive, true, names);
      OrderSorted(ms, caseSensitive, false, names);
    }
    if PatchableBelow(Obj(ms), names) {
      SortCorrect(ms, caseSensitive);
      forall i | 0 <= i < |r| ensures Over(r[i].item, names) && Given(r[i].item) {
        InBoth(r, ms, r[i]);
        assert r[i] in ms;
      }
    }
  }

  /**
   * generate_merge_patch, for trees of which both may have been sorted afterwards. What the patch is tells Generated.
   */
  method GenerateMergePatch(origin: Value, goal: Value, caseSensitive: bool, ghost names: set<bytes>)
    returns (patch: Option<Value>, origin': Value, goal': Value)
    requires Accepted(origin, caseSensitive) && Accepted(goal, caseSensitive)
    ensures Reordered(origin, origin') && Reordered(goal, goal')
    ensures Generated(patch, origin, goal, caseSensitive, names)
    ensures NoneExactly(patch, origin, goal, caseSensitive, names)
    decreases Nest(goal), 0
  {
    hide *;
    if !goal.Obj? || !origin.Obj? {
      NotBothObjects(origin, goal, caseSensitive, names);
      GeneratedNone(Some(goal), origin, goal, caseSensitive, names);
      return Some(goal), origin, goal;
    }
    var xs, ys := Sort(origin.members, caseSensitive), Sort(goal.members, caseSensitive);
    SortBoth(origin.members, goal.members, caseSensitive, names);
    var members;
    members, origin', goal' := WalkBoth(xs, ys, caseSensitive, names);
    ReorderedTransitive(origin, Obj(xs), origin');
    ReorderedTransitive(goal, Obj(ys), goal');
    patch := AsPatch(members);
    BothObjects(origin.members, goal.members, members, patch, caseSensitive, names);
    GeneratedNone(patch, origin, goal, caseSensitive, names);
  }

  /** There is no patch exactly for two objects that are the same, in each case mode in which the patch is the difference. */
  ghost predicate NoneExactly(patch: Option<Value>, origin: Value, goal: Value, caseSensitive: bool, names: set<bytes>) {
    && (Patchable(origin, names) && Patchable(goal, names) ==>
          forall mode: bool :: patch.None? <==> origin.Obj? && Same(origin, goal, mode))
    && (caseSensitive && PatchableBelow(origin, names) && PatchableBelow(goal, names) ==>
          (patch.None? <==> origin.Obj? && Same(origin, goal, true)))
  }

  lemma GeneratedNone(patch: Option<Value>, origin: Value, goal: Value, caseSensitive: bool, names: set<bytes>)
    requires Generated(patch, origin, goal, caseSensitive, names)
    ensures NoneExactly(patch, origin, goal, caseSensitive, names)
  {
    hide FlatWalk, SinglePatch, SinglePair, NoneDiffers, Meaning, Same, Diff, SameOrder, Over;
    if Patchable(origin, names) && Patchable(goal, names) {
      forall mode: bool ensures patch.None? <==> origin.Obj? && Same(origin, goal, mode) {
        GivenProper(origin, mode);
        GivenProper(goal, mode);
        MeaningExact(origin, goal, mode);
      }
    }
    if caseSensitive && PatchableBelow(origin, names) && PatchableBelow(goal, names) {
      MeaningExact(origin, goal, true);
    }
  }

  /**
   * Over names whose order does not depend on case the patch is the difference in both case modes, and none when both are
   * objects that mean the same. With regard to case this is so when the names below the members are like that. For any
   * names: the patch is what the flat walk over the sorted objects gives, when no two values of the same name differ; and
   * when both objects have one member whose values are flat, it is what that walk gives for these values.
   */
  ghost predicate Generated(patch: Option<Value>, origin: Value, goal: Value, caseSensitive: bool, names: set<bytes>) {
    && (Patchable(origin, names) && Patchable(goal, names) ==>
          && IsDifference(patch, origin, goal, true) && IsDifference(patch, origin, goal, false)
          && (patch.Some? ==> Patchable(patch.value, names)))
    && (caseSensitive && PatchableBelow(origin, names) && PatchableBelow(goal, names) ==>
          IsDifference(patch, origin, goal, true))
    && (origin.Obj? && goal.Obj? && NoneDiffers(origin.members, goal.members, caseSensitive) ==>
          patch == AsPatch(FlatWalk(Sort(origin.members, caseSensitive), Sort(goal.members, caseSensitive))))
    && (origin.Obj? && goal.Obj? && SinglePair(origin.members, goal.members, caseSensitive) ==>
          patch == AsPatch(SinglePatch(origin.members, goal.members, caseSensitive)))
  }

  ghost predicate IsDifference(patch: Option<Value>, origin: Value, goal: Value, mode: bool) {
    && (patch.None? <==> origin.Obj? && Meaning(origin, mode) == Meaning(goal, mode))
    && (patch.Some? ==>
          Proper(patch.value, mode) && Meaning(patch.value, mode) == Diff(Meaning(origin, mode), Meaning(goal, mode)))
  }

  /** An empty patch is not generated. */
  function AsPatch(members: seq<Member<Value>>): Option<Value> {
    if members == [] then None else Some(Obj(members))
  }

  lemma NotBothObjects(origin: Value, goal: Value, caseSensitive: bool, names: set<bytes>)
    requires !goal.Obj? || !origin.Obj?
    ensures Reordered(origin, origin) && Reordered(goal, goal)
    ensures Generated(Some(goal), origin, goal, caseSensitive, names)
  {
    hide FlatWalk, Sort, NoneDiffers, SinglePair;
    if Patchable(goal, names) { GivenProper(goal, true); }
    ObjectMeaning(origin, goal, true);
    ObjectMeaning(origin, goal, false);
  }

  lemma ObjectMeaning(origin: Value, goal: Value, mode: bool)
    requires !goal.Obj? || !origin.Obj?
    ensures origin.Obj? ==> Meaning(origin, mode) != Meaning(goal, mode)
    ensures Diff(Meaning(origin, mode), Meaning(goal, mode)) == Meaning(goal, mode)
  {
  }

  lemma BothObjects(ms: seq<Member<Value>>, ns: seq<Member<Value>>, members: seq<Member<Value>>, patch: Option<Value>,
      caseSensitive: bool, names: set<bytes>)
    requires Accepted(Obj(ms), caseSensitive) && Accepted(Obj(ns), caseSensitive) && patch == AsPatch(members)
    requires WalkResult(members, Sort(ms, caseSensitive), Sort(ns, caseSensitive), caseSensitive, names)
    ensures Generated(patch, Obj(ms), Obj(ns), caseSensitive, names)
  {
    var xs, ys := Sort(ms, caseSensitive), Sort(ns, caseSensitive);
    SortBoth(ms, ns, caseSensitive, names);
    SortCorrect(ms, caseSensitive);
    SortCorrect(ns, caseSensitive);
    NoneDiffersSorted(ms, ns, xs, ys, caseSensitive);
    assert |ms| == 1 ==> xs == ms;
    assert |ns| == 1 ==> ys == ns;
    hide Ordered, OrderedBelow, FlatWalk, Sort, FlatPair, SinglePatch, Accepted, NoneDiffers, IsWalked, IsDifference;
    if Patchable(Obj(ms), names) && Patchable(Obj(ns), names) {
      GivenProper(Obj(ms), true);
      GivenProper(Obj(ns), true);
      WalkedDifference(ms, ns, xs, ys, members, true);
      WalkedDifference(ms, ns, xs, ys, members, false);
    }
    if caseSensitive && PatchableBelow(Obj(ms), names) && PatchableBelow(Obj(ns), names) {
      WalkedDifference(ms, ns, xs, ys, members, true);
    }
  }

  lemma WalkedDifference(ms: seq<Member<Value>>, ns: seq<Member<Value>>, xs: seq<Member<Value>>, ys: seq<Member<Value>>,
      members: seq<Member<Value>>, mode: bool)
    requires Proper(Obj(ms), mode) && Proper(Obj(ns), mode)
    requires Reordered(Obj(ms), Obj(xs)) && Reordered(Obj(ns), Obj(ys)) && IsWalked(members, xs, ys, mode)
    ensures IsDifference(AsPatch(members), Obj(ms), Obj(ns), mode)
  {
    assert Meaning(Obj(xs), mode) == Meaning(Obj(ms), mode) && Meaning(Obj(ys), mode) == Meaning(Obj(ns), mode);
    DiffEmpty(MemberMeanings(ms, mode), MemberMeanings(ns, mode));
    if members != [] {
      assert Norm(members[0].key, mode) in MemberMeanings(members, mode);
    }
  }

  lemma NoneDiffersSorted(ms: seq<Member<Value>>, ns: seq<Member<Value>>,
      xs: seq<Member<Value>>, ys: seq<Member<Value>>, caseSensitive: bool)
    requires multiset(xs) == multiset(ms) && multiset(ys) == multiset(ns)
    ensures NoneDiffers(ms, ns, caseSensitive) ==> NoneDiffers(xs, ys, caseSensitive)
  {
    if NoneDiffers(ms, ns, caseSensitive) {
      forall i, j | 0 <= i < |xs| && 0 <= j < |ys| && Compare(xs[i].key, ys[j].key, true) == 0
        ensures Meaning(xs[i].item, caseSensitive) == Meaning(ys[j].item, caseSensitive)
      {
        InBoth(xs, ms, xs[i]);
        InBoth(ys, ns, ys[j]);
        assert xs[i] in ms && ys[j] in ns;
      }
    }
  }

  // ----- generating and merging -----

  /** The names below the members of an object. */
  predicate OverBelow(v: Value, names: set<bytes>) {
    v.Obj? ==> forall i :: 0 <= i < |v.members| ==> Over(v.members[i].item, names)
  }

  /** `names` are the names of both trees, or those below their members when generating and merging both regard case. */
  predicate InScope(origin: Value, goal: Value, generateMode: bool, mergeMode: bool, names: set<bytes>) {
    || (Over(origin, names) && Over(goal, names))
    || (generateMode && mergeMode && OverBelow(origin, names) && OverBelow(goal, names))
  }

  /**
   * Merging the generated patch into a duplicate of the tree it was made from (no patch means no change) gives the goal
   * up to the order of members exactly when the goal has no null member that is not there already: in whatever case
   * modes, over names whose order does not depend on case, of which the names at the top need not be when both modes
   * regard case. The duplicate is taken before: `origin` is sorted when the patch is generated, and is then no longer a
   * list that members can be added to (SortList.AddToSorted).
   */
  method GenerateAndMerge(origin: Value, goal: Value, generateMode: bool, mergeMode: bool, ghost names: set<bytes>)
    returns (result: Value)
    requires Proper(origin, true) && Proper(goal, true)
    requires SameOrder(names) && InScope(origin, goal, generateMode, mergeMode, names)
    ensures Same(result, goal, mergeMode) <==> Expressible(Meaning(origin, mergeMode), Meaning(goal, mergeMode))
  {
    hide *;
    var duplicate := origin;
    ReadyToGenerate(origin, goal, generateMode, mergeMode, names);
    var patch, origin', goal' := GenerateMergePatch(origin, goal, generateMode, names);
    DiffCorrect(Meaning(origin, mergeMode), Meaning(goal, mergeMode));
    ReadyToMerge(patch, origin, goal, generateMode, mergeMode, names);
    if patch.None? {
      result := duplicate;
    } else {
      result := MergePatch.MergePatch(Some(duplicate), patch.value, mergeMode);
      SomeMeans(duplicate, mergeMode);
    }
    MeaningExact(result, goal, mergeMode);
  }

  lemma TopPatchable(v: Value, names: set<bytes>)
    requires Proper(v, true) && SameOrder(names)
    ensures Over(v, names) ==> Patchable(v, names)
    ensures OverBelow(v, names) ==> PatchableBelow(v, names)
  {
    if Over(v, names) { OrderProper(v, names); }
    if v.Obj? && OverBelow(v, names) {
      forall i | 0 <= i < |v.members| ensures Given(v.members[i].item) {
        OrderProper(v.members[i].item, names);
      }
    }
  }

  lemma PatchableAccepted(v: Value, names: set<bytes>, caseSensitive: bool)
    ensures Patchable(v, names) ==> Accepted(v, caseSensitive)
    ensures PatchableBelow(v, names) ==> Accepted(v, true)
  {
    if Patchable(v, names) { GivenAccepted(v, caseSensitive); }
    if PatchableBelow(v, names) && v.Obj? {
      forall i | 0 <= i < |v.members| ensures GivenBelow(v.members[i].item) {
        GivenAccepted(v.members[i].item, true);
      }
    }
  }

  lemma ReadyToGenerate(origin: Value, goal: Value, generateMode: bool, mergeMode: bool, names: set<bytes>)
    requires Proper(origin, true) && Proper(goal, true)
    requires SameOrder(names) && InScope(origin, goal, generateMode, mergeMode, names)
    ensures Accepted(origin, generateMode) && Accepted(goal, generateMode)
  {
    hide SameOrder, Over, Accepted, Patchable, PatchableBelow, Proper, OverBelow;
    TopPatchable(origin, names);
    TopPatchable(goal, names);
    PatchableAccepted(origin, names, generateMode);
    PatchableAccepted(goal, names, generateMode);
  }

  lemma ReadyToMerge(patch: Option<Value>, origin: Value, goal: Value, generateMode: bool, mergeMode: bool, names: set<bytes>)
    requires Proper(origin, true) && Proper(goal, true)
    requires SameOrder(names) && InScope(origin, goal, generateMode, mergeMode, names)
    requires Generated(patch, origin, goal, generateMode, names)
    ensures Proper(origin, mergeMode) && Proper(goal, mergeMode)
    ensures patch.None? ==>
      && Meaning(origin, mergeMode) == Meaning(goal, mergeMode)
      && Expressible(Meaning(origin, mergeMode), Meaning(goal, mergeMode))
    ensures patch.Some? ==>
      && Proper(patch.value, mergeMode) && ProperPatch(patch.value, mergeMode)
      && Meaning(patch.value, mergeMode) == Diff(Meaning(origin, mergeMode), Meaning(goal, mergeMode))
  {
    hide SameOrder, Over, Proper, OverBelow, FlatWalk, Sort, SinglePair, NoneDiffers, Diff, Expressible, ProperPatch;
    TopPatchable(origin, names);
    TopPatchable(goal, names);
    if Over(origin, names) && Over(goal, names) {
      GivenProper(origin, mergeMode);
      GivenProper(goal, mergeMode);
    }
    assert IsDifference(patch, origin, goal, mergeMode);
    if patch.None? {
      SameIsExpressible(Meaning(origin, mergeMode));
    } else {
      ProperIsPatch(patch.value, mergeMode);
    }
  }

  // ----- why the order of the names must not depend on case -----

  /**
   * A goal that can be reached is missed: `patch` is what is generated, and merging it into the origin gives something
   * else.
   */
  ghost predicate Misses(origin: Value, goal: Value, patch: Value, generateMode: bool, mergeMode: bool) {
    && Proper(origin, true) && Proper(goal, true) && Accepted(origin, generateMode) && Accepted(goal, generateMode)
    && (forall p, names :: Generated(p, origin, goal, generateMode, names) ==> p == Some(patch))
    && ProperPatch(patch, mergeMode) && Proper(origin, mergeMode)
    && Expressible(Meaning(origin, mergeMode), Meaning(goal, mergeMode))
    && Applied(Some(Meaning(origin, mergeMode)), patch, mergeMode) != Meaning(goal, mergeMode)
  }

  /**
   * Whenever the order of some names depends on case, there are objects with these names for which generating without
   * regard to case is wrong.
   */
  lemma OrderNeeded(names: set<bytes>) returns (origin: Value, goal: Value, patch: Value, mergeMode: bool)
    requires !SameOrder(names)
    ensures Over(origin, names) && Over(goal, names) && Given(origin) && Given(goal)
    ensures Misses(origin, goal, patch, false, mergeMode)
  {
    hide *;
    var x, y := NamesOutOfOrder(names);
    OverOne(x, names);
    OverOne(y, names);
    OverTwo(y, x, names);
    GivenOne(y);
    if Compare(x, y, false) == 0 {
      mergeMode := false;
      GivenOne(x);
      origin, goal, patch := Obj([One(x)]), Obj([One(y)]), Obj([One(y), Member(x, Null)]);
      OtherCase(x, y);
    } else {
      mergeMode := true;
      DifferentNames(x, y, false);
      GivenTwo(y, x, false);
      origin, goal, patch := Obj([One(y), One(x)]), Obj([One(y)]), OutOfOrder(x, y);
      OtherOrder(x, y, mergeMode);
    }
  }

  /** ... and objects with these names below the top, for which generating with regard to case is wrong. */
  lemma OrderNeededBelow(names: set<bytes>) returns (origin: Value, goal: Value, patch: Value)
    requires !SameOrder(names)
    ensures OverBelow(origin, names) && OverBelow(goal, names) && Misses(origin, goal, patch, true, true)
  {
    hide *;
    var x, y := NamesOutOfOrder(names);
    OverOne(y, names);
    OverTwo(y, x, names);
    origin, goal := Wrapped(Obj([One(y), One(x)])), Wrapped(Obj([One(y)]));
    patch := Wrapped(OutOfOrder(x, y));
    OverWrapped(Obj([One(y), One(x)]), names);
    OverWrapped(Obj([One(y)]), names);
    OtherOrderBelow(x, y);
  }

  /** Two names of which the one that strcmp puts last comes first, or is the same, without regard to case. */
  lemma NamesOutOfOrder(names: set<bytes>) returns (x: bytes, y: bytes)
    requires !SameOrder(names)
    ensures x in names && y in names && Compare(x, y, false) <= 0 < Compare(x, y, true)
  {
    var a, b :| a in names && b in names && Compare(a, b, false) != Compare(a, b, true);
    CompareFlips(a, b, true);
    CompareFlips(a, b, false);
    x, y := if Compare(a, b, true) > 0 then a else b, if Compare(a, b, true) > 0 then b else a;
  }

  lemma DifferentNames(x: bytes, y: bytes, mode: bool)
    requires Compare(x, y, mode) != 0
    ensures Norm(x, mode) != Norm(y, mode) && x != y
  {
    CompareFlips(x, y, mode);
  }

  function One(key: bytes): Member<Value> { Member(key, Num(1.0)) }

  const O: bytes := [111]

  /** {"o": v} */
  function Wrapped(v: Value): Value { Obj([Member(O, v)]) }

  /** The patch in which "y" is added before it is removed. */
  function OutOfOrder(x: bytes, y: bytes): (p: Value)
    ensures p.Obj?
  {
    Obj([One(y), Member(x, Null), Member(y, Null)])
  }

  lemma OverOne(x: bytes, names: set<bytes>)
    requires x in names
    ensures Over(Obj([One(x)]), names)
  {
  }

  lemma OverTwo(x: bytes, y: bytes, names: set<bytes>)
    requires x in names && y in names
    ensures Over(Obj([One(x), One(y)]), names)
  {
  }

  lemma OverWrapped(v: Value, names: set<bytes>)
    requires Over(v, names)
    ensures OverBelow(Wrapped(v), names)
  {
  }

  lemma GivenOne(x: bytes)
    ensures Given(Obj([One(x)])) && Proper(Obj([One(x)]), true) && Flat(Obj([One(x)]))
    ensures Accepted(Obj([One(x)]), false) && GivenBelow(Obj([One(x)]))
  {
    assert IsInt(1.0);
    assert Given(One(x).item) && Proper(One(x).item, true);
    assert [One(x)][1..] == [];
    assert NestMembers([One(x)]) == Max(Nest(Num(1.0)), NestMembers([]));
  }

  lemma GivenTwo(x: bytes, y: bytes, mode: bool)
    requires Norm(x, mode) != Norm(y, mode)
    ensures Proper(Obj([One(x), One(y)]), mode) && Flat(Obj([One(x), One(y)]))
    ensures !mode ==> Given(Obj([One(x), One(y)]))
    ensures Accepted(Obj([One(x), One(y)]), false) && GivenBelow(Obj([One(x), One(y)]))
  {
    hide Norm;
    var ms := [One(x), One(y)];
    assert IsInt(1.0);
    assert forall m: bool :: Proper(One(x).item, m);
    assert ms[1..] == [One(y)] && ms[1..][1..] == [];
    assert NestMembers([One(y)]) == Max(Nest(Num(1.0)), NestMembers([]));
    assert NestMembers(ms) == Max(Nest(Num(1.0)), NestMembers([One(y)]));
  }

  /** The orders in which the two names are sorted. */
  lemma SortsTwo(x: bytes, y: bytes)
    requires Compare(x, y, false) <= 0 < Compare(x, y, true)
    ensures Sort([One(y), One(x)], false) == [One(x), One(y)]
    ensures Sort([One(y), One(x)], true) == [One(y), One(x)]
  {
    CompareFlips(x, y, false);
    CompareFlips(x, y, true);
    hide Compare;
    var a, b := One(x), One(y);
    assert Rises([b, a], 1, true);
    assert !Rises([b, a], 1, false);
    assert [b, a][..1] == [b] && [b, a][1..] == [a] && [a][1..] == [];
    assert Merge([b], [a], false) == [a] + Merge([b], [], false);
  }

  lemma NoneDiffersTwo(x: bytes, y: bytes)
    requires Compare(x, y, true) > 0
    ensures NoneDiffers([One(y), One(x)], [One(y)], false)
  {
  }

  /** The generated patch is the one that is out of order. */
  lemma GeneratedTwo(x: bytes, y: bytes, p: Option<Value>, names: set<bytes>)
    requires Compare(x, y, false) <= 0 < Compare(x, y, true)
    requires Generated(p, Obj([One(y), One(x)]), Obj([One(y)]), false, names)
    ensures p == Some(OutOfOrder(x, y))
  {
    SortsTwo(x, y);
    NoneDiffersTwo(x, y);
    WalkOtherOrder(One(x), One(y));
    hide FlatWalk, NoneDiffers, Compare, Patchable, IsDifference;
  }

  lemma FlatPatchTwo(x: bytes, y: bytes)
    requires Compare(x, y, false) <= 0 < Compare(x, y, true)
    ensures FlatPatch(Obj([One(y), One(x)]), Obj([One(y)]), true) == Some(OutOfOrder(x, y))
  {
    SortsTwo(x, y);
    WalkOtherOrder(One(x), One(y));
    hide FlatWalk, Compare;
  }

  lemma GeneratedBelow(x: bytes, y: bytes, p: Option<Value>, names: set<bytes>)
    requires Compare(x, y, false) <= 0 < Compare(x, y, true)
    requires Generated(p, Wrapped(Obj([One(y), One(x)])), Wrapped(Obj([One(y)])), true, names)
    ensures p == Some(Wrapped(OutOfOrder(x, y)))
  {
    DifferentNames(x, y, true);
    FlatPatchTwo(x, y);
    NoneDiffersTwo(x, y);
    GivenOne(y);
    GivenTwo(y, x, true);
    MeaningOne(y, true);
    TwoMembers(One(y), One(x), true);
    CompareFlips(O, O, true);
    hide FlatPatch, NoneDiffers, Compare, Patchable, IsDifference, Flat, MemberMeanings, Norm;
    assert SinglePair([Member(O, Obj([One(y), One(x)]))], [Member(O, Obj([One(y)]))], true);
  }

  /** "y" is reached, as it is there already. */
  lemma ReachableTwo(x: bytes, y: bytes, mode: bool)
    requires Norm(x, mode) != Norm(y, mode)
    ensures Expressible(Meaning(Obj([One(y), One(x)]), mode), Meaning(Obj([One(y)]), mode))
  {
    hide Norm;
    MeaningOne(y, mode);
    MeaningAt([One(y), One(x)], mode, 0);
  }

  /**
   * From {"y": 1, "x": 1} to {"y": 1}, where "x" comes first only if case is not regarded, as "a" and "B": the walk adds
   * "y" before it removes it. Both case modes of merging miss the goal.
   */
  lemma OtherOrder(x: bytes, y: bytes, mergeMode: bool)
    requires Compare(x, y, false) < 0 < Compare(x, y, true)
    ensures Misses(Obj([One(y), One(x)]), Obj([One(y)]), OutOfOrder(x, y), false, mergeMode)
  {
    hide *;
    DifferentNames(x, y, true);
    DifferentNames(x, y, false);
    GivenOne(y);
    GivenTwo(y, x, true);
    GivenTwo(y, x, false);
    ReachableTwo(x, y, mergeMode);
    AppliedOtherOrder(x, y, mergeMode);
    MeaningOne(y, mergeMode);
    forall p, names | Generated(p, Obj([One(y), One(x)]), Obj([One(y)]), false, names) ensures p == Some(OutOfOrder(x, y)) {
      GeneratedTwo(x, y, p, names);
    }
    OutOfOrderProper(x, y, mergeMode);
    MissesIs(Obj([One(y), One(x)]), Obj([One(y)]), OutOfOrder(x, y), false, mergeMode);
  }

  /** The definition of Misses. */
  lemma MissesIs(origin: Value, goal: Value, patch: Value, generateMode: bool, mergeMode: bool)
    requires Proper(origin, true) && Proper(goal, true) && Accepted(origin, generateMode) && Accepted(goal, generateMode)
    requires forall p, names :: Generated(p, origin, goal, generateMode, names) ==> p == Some(patch)
    requires ProperPatch(patch, mergeMode) && Proper(origin, mergeMode)
    requires Expressible(Meaning(origin, mergeMode), Meaning(goal, mergeMode))
    requires Applied(Some(Meaning(origin, mergeMode)), patch, mergeMode) != Meaning(goal, mergeMode)
    ensures Misses(origin, goal, patch, generateMode, mergeMode)
  {
  }

  lemma OutOfOrderProper(x: bytes, y: bytes, mode: bool)
    ensures ProperPatch(OutOfOrder(x, y), mode)
  {
    assert IsInt(1.0);
  }

  /** The same below the top: from {"o": {"y": 1, "x": 1}} to {"o": {"y": 1}}; "x" and "y" may also differ in case only. */
  lemma OtherOrderBelow(x: bytes, y: bytes)
    requires Compare(x, y, false) <= 0 < Compare(x, y, true)
    ensures Misses(Wrapped(Obj([One(y), One(x)])), Wrapped(Obj([One(y)])), Wrapped(OutOfOrder(x, y)), true, true)
  {
    hide *;
    var v, w := Obj([One(y), One(x)]), Obj([One(y)]);
    DifferentNames(x, y, true);
    GivenOne(y);
    GivenTwo(y, x, true);
    ReachableTwo(x, y, true);
    AppliedOtherOrder(x, y, true);
    MeaningOne(y, true);
    OutOfOrderProper(x, y, true);
    WrappedProper(v);
    WrappedProper(w);
    WrappedMeaning(v, w, OutOfOrder(x, y));
    forall p, names | Generated(p, Wrapped(v), Wrapped(w), true, names) ensures p == Some(Wrapped(OutOfOrder(x, y))) {
      GeneratedBelow(x, y, p, names);
    }
    MissesIs(Wrapped(v), Wrapped(w), Wrapped(OutOfOrder(x, y)), true, true);
  }

  lemma WrappedProper(v: Value)
    requires Proper(v, true) && GivenBelow(v)
    ensures Proper(Wrapped(v), true) && Accepted(Wrapped(v), true)
  {
  }

  lemma WrappedMeaning(v: Value, w: Value, patch: Value)
    requires patch.Obj? && ProperPatch(patch, true) && Meaning(w, true) != JNull
    requires Expressible(Meaning(v, true), Meaning(w, true))
    requires Applied(Some(Meaning(v, true)), patch, true) != Meaning(w, true)
    ensures ProperPatch(Wrapped(patch), true)
    ensures Expressible(Meaning(Wrapped(v), true), Meaning(Wrapped(w), true))
    ensures Applied(Some(Meaning(Wrapped(v), true)), Wrapped(patch), true) != Meaning(Wrapped(w), true)
  {
    WrappedOnce(v);
    WrappedOnce(w);
    WrappedApplied(v, patch);
    var a, b := Applied(Some(Meaning(v, true)), patch, true), Meaning(w, true);
    assert map[O := a][O] != map[O := b][O];
    hide Meaning, Applied;
  }

  lemma WrappedOnce(v: Value)
    ensures Meaning(Wrapped(v), true) == JObj(map[O := Meaning(v, true)])
  {
    OneMember(Member(O, v), true);
  }

  lemma WrappedApplied(v: Value, patch: Value)
    requires patch.Obj?
    ensures Applied(Some(Meaning(Wrapped(v), true)), Wrapped(patch), true)
      == JObj(map[O := Applied(Some(Meaning(v, true)), patch, true)])
  {
    WrappedOnce(v);
    var t := map[O := Meaning(v, true)];
    var ps := [Member(O, patch)];
    assert ps[..1] == ps && ps[..0] == [];
    NextPatchMember(t, ps, 0, true);
    assert AppliedInOrder(t, [], true) == t && Lookup(t, O) == Some(Meaning(v, true));
    hide Meaning, AppliedInOrder;
  }

  lemma WalkOtherOrder(a: Member<Value>, b: Member<Value>)
    requires Compare(a.key, b.key, true) > 0
    ensures FlatWalk([a, b], [b]) == [b, Member(a.key, Null), Member(b.key, Null)]
  {
    assert [b][1..] == [] && [a, b][1..] == [b];
    assert FlatWalk([b], []) == [Member(b.key, Null)] + FlatWalk([], []);
    assert FlatWalk([a, b], []) == [Member(a.key, Null)] + FlatWalk([b], []);
    assert FlatWalk([a, b], [b]) == [b] + FlatWalk([a, b], []);
  }

  lemma AppliedOtherOrder(x: bytes, y: bytes, mergeMode: bool)
    requires Norm(x, mergeMode) != Norm(y, mergeMode)
    ensures Applied(Some(Meaning(Obj([One(y), One(x)]), mergeMode)), OutOfOrder(x, y), mergeMode) == JObj(map[])
  {
    var a, b := One(x), One(y);
    var p := [b, Member(a.key, Null), Member(b.key, Null)];
    var t := MemberMeanings([b, a], mergeMode);
    TwoMembers(b, a, mergeMode);
    assert p[..3] == p && p[..2] == [b, Member(a.key, Null)] && p[..1] == [b] && p[..0] == [];
    NextPatchMember(t, p, 0, mergeMode);
    NextPatchMember(t, p, 1, mergeMode);
    NextPatchMember(t, p, 2, mergeMode);
    hide Norm, MemberMeanings, AppliedInOrder;
  }

  /** From {"x": 1} to {"y": 1}, which differ in case only, as "a" and "A": what was added is removed under the other name. */
  lemma OtherCase(x: bytes, y: bytes)
    requires Compare(x, y, false) == 0 < Compare(x, y, true)
    ensures Misses(Obj([One(x)]), Obj([One(y)]), Obj([One(y), Member(x, Null)]), false, false)
  {
    hide *;
    GivenOne(x);
    GivenOne(y);
    SameNames(x, y);
    MeaningOne(x, false);
    MeaningOne(y, false);
    AppliedOtherCase(x, y);
    ReachableSame(Meaning(Obj([One(y)]), false));
    var patch := Obj([One(y), Member(x, Null)]);
    forall p, names | Generated(p, Obj([One(x)]), Obj([One(y)]), false, names) ensures p == Some(patch) {
      GeneratedOther(x, y, p, names);
    }
    OtherCaseProper(x, y);
    MissesIs(Obj([One(x)]), Obj([One(y)]), patch, false, false);
  }

  /** From {"a": 1} to {"A": 1}. */
  lemma CaseIsLost()
    ensures Misses(Obj([One([97])]), Obj([One([65])]), Obj([One([65]), Member([97], Null)]), false, false)
  {
    assert Lower([97]) == Lower([65]) == [97];
    OtherCase([97], [65]);
  }

  /** From {"B": 1, "a": 1} to {"B": 1}. */
  lemma OrderIsLost(mergeMode: bool)
    ensures Misses(Obj([One([66]), One([97])]), Obj([One([66])]),
                   Obj([One([66]), Member([97], Null), Member([66], Null)]), false, mergeMode)
  {
    assert Lower([97]) == [97] && Lower([66]) == [98];
    OtherOrder([97], [66], mergeMode);
  }

  lemma SameNames(x: bytes, y: bytes)
    requires Compare(x, y, false) == 0
    ensures Norm(x, false) == Norm(y, false)
  {
    CompareFlips(x, y, false);
  }

  lemma ReachableSame(v: Json)
    requires v.JObj?
    ensures Expressible(v, v)
  {
    SameIsExpressible(v);
  }

  lemma OtherCaseProper(x: bytes, y: bytes)
    ensures ProperPatch(Obj([One(y), Member(x, Null)]), false)
  {
    assert IsInt(1.0);
  }

  lemma GeneratedOther(x: bytes, y: bytes, p: Option<Value>, names: set<bytes>)
    requires Compare(x, y, true) > 0 && Generated(p, Obj([One(x)]), Obj([One(y)]), false, names)
    ensures p == Some(Obj([One(y), Member(x, Null)]))
  {
    WalkOtherCase(One(x), One(y));
    assert NoneDiffers([One(x)], [One(y)], false);
    hide FlatWalk, Compare, NoneDiffers, Patchable, IsDifference;
  }

  lemma WalkOtherCase(a: Member<Value>, b: Member<Value>)
    requires Compare(a.key, b.key, true) > 0
    ensures FlatWalk([a], [b]) == [b, Member(a.key, Null)]
  {
    assert [a][1..] == [] && [b][1..] == [];
    assert FlatWalk([a], []) == [Member(a.key, Null)] + FlatWalk([], []);
  }

  lemma AppliedOtherCase(x: bytes, y: bytes)
    requires Norm(x, false) == Norm(y, false)
    ensures Applied(Some(Meaning(Obj([One(x)]), false)), Obj([One(y), Member(x, Null)]), false) == JObj(map[])
  {
    var a, b := One(x), One(y);
    var p := [b, Member(a.key, Null)];
    var t := MemberMeanings([a], false);
    OneMember(a, false);
    assert p[..2] == p && p[..1] == [b] && p[..0] == [];
    NextPatchMember(t, p, 0, false);
    NextPatchMember(t, p, 1, false);
    hide Norm, MemberMeanings, AppliedInOrder;
  }

  lemma MeaningOne(x: bytes, mode: bool)
    ensures Meaning(Obj([One(x)]), mode) == JObj(map[Norm(x, mode) := JNum(1.0)])
    ensures Meaning(Obj([One(x)]), mode) != JObj(map[])
  {
    hide Norm;
    OneMember(One(x), mode);
    assert Norm(x, mode) in MemberMeanings([One(x)], mode);
  }

  lemma OneMember(m: Member<Value>, mode: bool)
    ensures MemberMeanings([m], mode) == map[Norm(m.key, mode) := Meaning(m.item, mode)]
  {
    hide Norm, Meaning;
    assert [m][1..] == [];
    assert MemberMeanings([], mode) == map[];
  }

  lemma TwoMembers(a: Member<Value>, b: Member<Value>, mode: bool)
    ensures MemberMeanings([a, b], mode).Keys == {Norm(a.key, mode), Norm(b.key, mode)}
  {
    hide Norm, Meaning;
    assert [a, b][1..] == [b];
    OneMember(b, mode);
  }

  lemma SomeMeans(v: Value, caseSensitive: bool)
    ensures Means(Some(v), caseSensitive) == Some(Meaning(v, caseSensitive))
  {
  }

  lemma SameIsExpressible(v: Json)
    requires v.JObj?
    ensures Expressible(v, v)
  {
  }
}
