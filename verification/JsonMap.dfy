/** JSON trees up to the order of object members: objects as maps from names to values. */
module JsonMap {
  import opened Bytes
  import opened JsonValue
  import opened SortSpec

  datatype Json =
    | JNull
    | JBool(b: bool)
    | JNum(d: real)
    | JStr(s: bytes)
    | JArr(items: seq<Json>)
    | JObj(members: map<bytes, Json>)

  /** The meaning of a tree; names are taken in the form in which they are compared, and the first of equal names counts. */
  function Meaning(v: Value, caseSensitive: bool): Json
    decreases v, 0
  {
    match v
    case Null => JNull
    case Bool(b) => JBool(b)
    case Num(d) => JNum(d)
    case Str(s) => JStr(s)
    case Arr(items) => JArr(ItemMeanings(items, caseSensitive))
    case Obj(members) => JObj(MemberMeanings(members, caseSensitive))
  }

  function ItemMeanings(items: seq<Value>, caseSensitive: bool): (r: seq<Json>)
    ensures |r| == |items|
    ensures forall i :: 0 <= i < |items| ==> r[i] == Meaning(items[i], caseSensitive)
    decreases items, 0
  {
    if items == [] then [] else [Meaning(items[0], caseSensitive)] + ItemMeanings(items[1..], caseSensitive)
  }

  function MemberMeanings(members: seq<Member<Value>>, caseSensitive: bool): map<bytes, Json>
    decreases members, 0
  {
    if members == [] then map[]
    else
      MemberMeanings(members[1..], caseSensitive)
        [Norm(members[0].key, caseSensitive) := Meaning(members[0].item, caseSensitive)]
  }

  /** All numbers are ints, and no object has two names that are equal under the case mode. */
  predicate Proper(v: Value, caseSensitive: bool) {
    match v
    case Num(d) => IsInt(d)
    case Arr(items) => forall i :: 0 <= i < |items| ==> Proper(items[i], caseSensitive)
    case Obj(members) =>
      UniqueKeys(members, caseSensitive)
      && forall i :: 0 <= i < |members| ==> Proper(members[i].item, caseSensitive)
    case _ => true
  }

  // ----- objects as maps -----

  /** A name is in the map exactly when some member has it. */
  lemma {:induction false} MeaningKeys(members: seq<Member<Value>>, caseSensitive: bool, k: bytes)
    ensures k in MemberMeanings(members, caseSensitive)
      <==> exists i :: 0 <= i < |members| && Norm(members[i].key, caseSensitive) == k
  {
    if members != [] {
      MeaningKeys(members[1..], caseSensitive, k);
      if i: nat :| i < |members[1..]| && Norm(members[1..][i].key, caseSensitive) == k {
        assert members[i + 1] == members[1..][i];
      }
    }
  }

  /** With unique names the map holds the value of every member. */
  lemma {:induction false} MeaningAt(members: seq<Member<Value>>, caseSensitive: bool, i: nat)
    requires UniqueKeys(members, caseSensitive) && i < |members|
    ensures
      var m, k := MemberMeanings(members, caseSensitive), Norm(members[i].key, caseSensitive);
      k in m && m[k] == Meaning(members[i].item, caseSensitive)
  {
    if i > 0 {
      MeaningAt(members[1..], caseSensitive, i - 1);
      assert Norm(members[0].key, caseSensitive) != Norm(members[i].key, caseSensitive);
    }
  }

  /** `m` holds exactly the members of the list. */
  predicate Describes(m: map<bytes, Json>, members: seq<Member<Value>>, caseSensitive: bool) {
    && (forall i :: 0 <= i < |members| ==>
          var k := Norm(members[i].key, caseSensitive);
          k in m && m[k] == Meaning(members[i].item, caseSensitive))
    && forall k :: k in m ==> exists i :: 0 <= i < |members| && Norm(members[i].key, caseSensitive) == k
  }

  lemma MeaningDescribes(members: seq<Member<Value>>, caseSensitive: bool)
    requires UniqueKeys(members, caseSensitive)
    ensures Describes(MemberMeanings(members, caseSensitive), members, caseSensitive)
  {
    forall i: nat | i < |members| {
      MeaningAt(members, caseSensitive, i);
    }
    forall k | k in MemberMeanings(members, caseSensitive)
      ensures exists i :: 0 <= i < |members| && Norm(members[i].key, caseSensitive) == k
    {
      MeaningKeys(members, caseSensitive, k);
    }
  }

  /** There is only one such map. */
  lemma DescribesUnique(m: map<bytes, Json>, members: seq<Member<Value>>, caseSensitive: bool)
    requires UniqueKeys(members, caseSensitive) && Describes(m, members, caseSensitive)
    ensures m == MemberMeanings(members, caseSensitive)
  {
    var n := MemberMeanings(members, caseSensitive);
    MeaningDescribes(members, caseSensitive);
    forall k | k in m || k in n ensures k in m && k in n && m[k] == n[k] {
      var i :| 0 <= i < |members| && Norm(members[i].key, caseSensitive) == k;
    }
  }

  // ----- when two trees mean the same -----

  /** The object `n` has each of the members. */
  predicate Contains(n: map<bytes, Json>, members: seq<Member<Value>>, caseSensitive: bool) {
    forall i :: 0 <= i < |members| ==> HasMember(n, members[i], caseSensitive)
  }

  predicate HasMember(n: map<bytes, Json>, m: Member<Value>, caseSensitive: bool) {
    var k := Norm(m.key, caseSensitive);
    k in n && n[k] == Meaning(m.item, caseSensitive)
  }

  /** Objects mean the same when each has the members of the other. */
  lemma ContainsBoth(ms: seq<Member<Value>>, ns: seq<Member<Value>>, caseSensitive: bool)
    requires UniqueKeys(ms, caseSensitive) && UniqueKeys(ns, caseSensitive)
    ensures MemberMeanings(ms, caseSensitive) == MemberMeanings(ns, caseSensitive)
      <==> Contains(MemberMeanings(ns, caseSensitive), ms, caseSensitive)
           && Contains(MemberMeanings(ms, caseSensitive), ns, caseSensitive)
  {
    var m, n := MemberMeanings(ms, caseSensitive), MemberMeanings(ns, caseSensitive);
    MeaningDescribes(ms, caseSensitive);
    MeaningDescribes(ns, caseSensitive);
    hide Norm, Meaning, MemberMeanings, UniqueKeys;
    if Contains(n, ms, caseSensitive) && Contains(m, ns, caseSensitive) {
      AllContained(m, ms, n, caseSensitive);
      AllContained(n, ns, m, caseSensitive);
    }
  }

  lemma AllContained(m: map<bytes, Json>, ms: seq<Member<Value>>, n: map<bytes, Json>, caseSensitive: bool)
    requires Describes(m, ms, caseSensitive) && Contains(n, ms, caseSensitive)
    ensures forall k :: k in m ==> k in n && m[k] == n[k]
  {
    forall k | k in m ensures k in n && m[k] == n[k] {
      var i :| 0 <= i < |ms| && Norm(ms[i].key, caseSensitive) == k;
      assert HasMember(n, ms[i], caseSensitive);
    }
  }

  /**
   * Two trees are the same up to the order of members: of one kind, with the same bool, number or bytes, with the same
   * items in the same places, and each name of one object has the same value in the other.
   */
  predicate Same(a: Value, b: Value, caseSensitive: bool)
    decreases a
  {
    match a
    case Null => b.Null?
    case Bool(x) => b.Bool? && b.b == x
    case Num(x) => b.Num? && b.d == x
    case Str(x) => b.Str? && b.s == x
    case Arr(items) =>
      && b.Arr? && |items| == |b.items|
      && forall i :: 0 <= i < |items| ==> Same(items[i], b.items[i], caseSensitive)
    case Obj(members) =>
      b.Obj? && EachFound(members, b.members, caseSensitive) && EachCovered(members, b.members, caseSensitive)
  }

  /** Each member of the first list is one of the second. */
  predicate EachFound(ms: seq<Member<Value>>, ns: seq<Member<Value>>, caseSensitive: bool)
    decreases ms
  {
    forall i :: 0 <= i < |ms| ==> IsAmong(ms[i], ns, caseSensitive)
  }

  /** Some member of the list has the same name and the same value. */
  predicate IsAmong(m: Member<Value>, ns: seq<Member<Value>>, caseSensitive: bool)
    decreases m, 1
  {
    exists j :: 0 <= j < |ns| && SameEntry(m, ns[j], caseSensitive)
  }

  /** Each member of the second list is one of the first. */
  predicate EachCovered(ms: seq<Member<Value>>, ns: seq<Member<Value>>, caseSensitive: bool)
    decreases ms, 1
  {
    forall j :: 0 <= j < |ns| ==> HasEntry(ms, ns[j], caseSensitive)
  }

  predicate HasEntry(ms: seq<Member<Value>>, n: Member<Value>, caseSensitive: bool)
    decreases ms, 0
  {
    exists i :: 0 <= i < |ms| && SameEntry(ms[i], n, caseSensitive)
  }

  /** Two members with the same name and the same value. */
  predicate SameEntry(a: Member<Value>, b: Member<Value>, caseSensitive: bool)
    decreases a, 0
  {
    SameName(a.key, b.key, caseSensitive) && Same(a.item, b.item, caseSensitive)
  }

  /** Exactly the trees that are the same have the same meaning. */
  lemma {:induction false} MeaningExact(a: Value, b: Value, caseSensitive: bool)
    requires Proper(a, caseSensitive) && Proper(b, caseSensitive)
    ensures Meaning(a, caseSensitive) == Meaning(b, caseSensitive) <==> Same(a, b, caseSensitive)
    decreases a
  {
    if a.Arr? && b.Arr? {
      ItemsEqual(a.items, b.items, caseSensitive);
      forall i | 0 <= i < |a.items| && |a.items| == |b.items| {
        MeaningExact(a.items[i], b.items[i], caseSensitive);
      }
    } else if a.Obj? && b.Obj? {
      forall i, j | 0 <= i < |a.members| && 0 <= j < |b.members|
        ensures SameMember(a.members[i], b.members[j], caseSensitive) <==> SameEntry(a.members[i], b.members[j], caseSensitive)
      {
        MeaningExact(a.members[i].item, b.members[j].item, caseSensitive);
        NormExactly(a.members[i].key, b.members[j].key, caseSensitive);
      }
      MembersEqual(a.members, b.members, caseSensitive);
    }
  }

  lemma ItemsEqual(xs: seq<Value>, ys: seq<Value>, caseSensitive: bool)
    ensures ItemMeanings(xs, caseSensitive) == ItemMeanings(ys, caseSensitive) <==>
      |xs| == |ys| && forall i :: 0 <= i < |xs| ==> Meaning(xs[i], caseSensitive) == Meaning(ys[i], caseSensitive)
  {
    var m, n := ItemMeanings(xs, caseSensitive), ItemMeanings(ys, caseSensitive);
    if m == n {
      assert |m| == |n|;
      assert forall i :: 0 <= i < |m| ==> m[i] == n[i];
    }
  }

  /** The map has the name of the member, and its value, exactly when the list that it describes has such a member. */
  lemma HasExactly(x: Member<Value>, ns: seq<Member<Value>>, caseSensitive: bool)
    requires UniqueKeys(ns, caseSensitive)
    ensures HasMember(MemberMeanings(ns, caseSensitive), x, caseSensitive)
      <==> exists j :: 0 <= j < |ns| && SameMember(x, ns[j], caseSensitive)
    ensures HasMember(MemberMeanings(ns, caseSensitive), x, caseSensitive)
      <==> exists j :: 0 <= j < |ns| && SameMember(ns[j], x, caseSensitive)
  {
    var n := MemberMeanings(ns, caseSensitive);
    MeaningDescribes(ns, caseSensitive);
    hide Norm, Meaning, MemberMeanings, UniqueKeys;
    if HasMember(n, x, caseSensitive) {
      var j :| 0 <= j < |ns| && Norm(ns[j].key, caseSensitive) == Norm(x.key, caseSensitive);
      assert SameMember(x, ns[j], caseSensitive) && SameMember(ns[j], x, caseSensitive);
    }
  }

  lemma FoundExactly(ms: seq<Member<Value>>, ns: seq<Member<Value>>, caseSensitive: bool)
    requires UniqueKeys(ns, caseSensitive)
    requires forall i, j :: 0 <= i < |ms| && 0 <= j < |ns| ==>
      (SameMember(ms[i], ns[j], caseSensitive) <==> SameEntry(ms[i], ns[j], caseSensitive))
    ensures Contains(MemberMeanings(ns, caseSensitive), ms, caseSensitive) <==> EachFound(ms, ns, caseSensitive)
  {
    hide SameMember, HasMember, MemberMeanings, UniqueKeys, SameName;
    forall i | 0 <= i < |ms|
      ensures HasMember(MemberMeanings(ns, caseSensitive), ms[i], caseSensitive) <==> IsAmong(ms[i], ns, caseSensitive)
    {
      HasExactly(ms[i], ns, caseSensitive);
    }
  }

  lemma CoveredExactly(ms: seq<Member<Value>>, ns: seq<Member<Value>>, caseSensitive: bool)
    requires UniqueKeys(ms, caseSensitive)
    requires forall i, j :: 0 <= i < |ms| && 0 <= j < |ns| ==>
      (SameMember(ms[i], ns[j], caseSensitive) <==> SameEntry(ms[i], ns[j], caseSensitive))
    ensures Contains(MemberMeanings(ms, caseSensitive), ns, caseSensitive) <==> EachCovered(ms, ns, caseSensitive)
  {
    hide SameMember, HasMember, MemberMeanings, UniqueKeys, SameName;
    forall j | 0 <= j < |ns|
      ensures HasMember(MemberMeanings(ms, caseSensitive), ns[j], caseSensitive) <==> HasEntry(ms, ns[j], caseSensitive)
    {
      HasExactly(ns[j], ms, caseSensitive);
    }
  }

  lemma MembersEqual(ms: seq<Member<Value>>, ns: seq<Member<Value>>, caseSensitive: bool)
    requires UniqueKeys(ms, caseSensitive) && UniqueKeys(ns, caseSensitive)
    requires forall i, j :: 0 <= i < |ms| && 0 <= j < |ns| ==>
      (SameMember(ms[i], ns[j], caseSensitive) <==> SameEntry(ms[i], ns[j], caseSensitive))
    ensures MemberMeanings(ms, caseSensitive) == MemberMeanings(ns, caseSensitive)
      <==> Same(Obj(ms), Obj(ns), caseSensitive)
  {
    hide SameMember, SameEntry, Contains, EachFound, EachCovered, MemberMeanings, UniqueKeys;
    ContainsBoth(ms, ns, caseSensitive);
    FoundExactly(ms, ns, caseSensitive);
    CoveredExactly(ms, ns, caseSensitive);
  }

  // ----- looking names up -----

  function Names(members: seq<Member<Value>>): (names: seq<bytes>)
    ensures |names| == |members| && forall i :: 0 <= i < |members| ==> names[i] == members[i].key
  {
    seq(|members|, i requires 0 <= i < |members| => members[i].key)
  }

  /** get_object_item: the position of the first member of that name, or the number of members. */
  function FindMember(members: seq<Member<Value>>, name: bytes, caseSensitive: bool): (i: nat)
    ensures i <= |members|
  {
    IndexOf(Names(members), name, caseSensitive)
  }

  /** A name is found when it is in the map, with the value that the map has. */
  lemma FindMeaning(members: seq<Member<Value>>, name: bytes, caseSensitive: bool)
    requires UniqueKeys(members, caseSensitive)
    ensures
      var i, m, k := FindMember(members, name, caseSensitive), MemberMeanings(members, caseSensitive), Norm(name, caseSensitive);
      (i < |members| <==> k in m)
      && (i < |members| ==> Norm(members[i].key, caseSensitive) == k && m[k] == Meaning(members[i].item, caseSensitive))
  {
    var i, k := FindMember(members, name, caseSensitive), Norm(name, caseSensitive);
    MeaningDescribes(members, caseSensitive);
    forall j | 0 <= j < |members|
      ensures Compare(name, members[j].key, caseSensitive) == 0 <==> Norm(members[j].key, caseSensitive) == k
    {
      CompareFlips(name, members[j].key, caseSensitive);
    }
    if i < |members| { assert Norm(members[i].key, caseSensitive) == k; }
  }

  function WithoutMember(members: seq<Member<Value>>, i: nat): (r: seq<Member<Value>>)
    requires i < |members|
    ensures |r| == |members| - 1
    ensures forall j :: 0 <= j < i ==> r[j] == members[j]
    ensures forall j :: i <= j < |r| ==> r[j] == members[j + 1]
  {
    members[..i] + members[i + 1..]
  }

  lemma WithoutUnique(members: seq<Member<Value>>, i: nat, caseSensitive: bool)
    requires i < |members| && UniqueKeys(members, caseSensitive)
    ensures UniqueKeys(WithoutMember(members, i), caseSensitive)
  {
    hide Norm;
  }

  lemma {:induction false} WithoutFromMap(members: seq<Member<Value>>, i: nat, caseSensitive: bool)
    requires i < |members| && UniqueKeys(members, caseSensitive)
    ensures MemberMeanings(WithoutMember(members, i), caseSensitive)
      == MemberMeanings(members, caseSensitive) - {Norm(members[i].key, caseSensitive)}
  {
    hide Norm, Meaning;
    var r, k := WithoutMember(members, i), Norm(members[i].key, caseSensitive);
    if i == 0 {
      assert r == members[1..];
      TailMeanings(members, caseSensitive);
    } else {
      WithoutFromMap(members[1..], i - 1, caseSensitive);
      assert r[1..] == WithoutMember(members[1..], i - 1);
      assert Norm(members[0].key, caseSensitive) != k;
    }
  }

  /** Taking a member out takes its name out of the map. */
  lemma WithoutMeaning(members: seq<Member<Value>>, i: nat, caseSensitive: bool)
    requires i < |members| && UniqueKeys(members, caseSensitive)
    ensures UniqueKeys(WithoutMember(members, i), caseSensitive)
    ensures MemberMeanings(WithoutMember(members, i), caseSensitive)
      == MemberMeanings(members, caseSensitive) - {Norm(members[i].key, caseSensitive)}
  {
    WithoutUnique(members, i, caseSensitive);
    WithoutFromMap(members, i, caseSensitive);
  }

  lemma AppendUnique(members: seq<Member<Value>>, m: Member<Value>, caseSensitive: bool)
    requires UniqueKeys(members, caseSensitive)
    requires Norm(m.key, caseSensitive) !in MemberMeanings(members, caseSensitive)
    ensures UniqueKeys(members + [m], caseSensitive)
  {
    hide Norm, Meaning, MemberMeanings;
    MeaningDescribes(members, caseSensitive);
  }

  lemma {:induction false} AppendToMap(members: seq<Member<Value>>, m: Member<Value>, caseSensitive: bool)
    requires Norm(m.key, caseSensitive) !in MemberMeanings(members, caseSensitive)
    ensures MemberMeanings(members + [m], caseSensitive)
      == MemberMeanings(members, caseSensitive)[Norm(m.key, caseSensitive) := Meaning(m.item, caseSensitive)]
  {
    hide Norm, Meaning;
    if members == [] {
      assert [] + [m] == [m] && [m][1..] == [];
    } else {
      AppendToMap(members[1..], m, caseSensitive);
      assert (members + [m])[1..] == members[1..] + [m];
    }
  }

  /** Appending a member with a new name adds it to the map. */
  lemma AppendMeaning(members: seq<Member<Value>>, m: Member<Value>, caseSensitive: bool)
    requires UniqueKeys(members, caseSensitive)
    requires Norm(m.key, caseSensitive) !in MemberMeanings(members, caseSensitive)
    ensures UniqueKeys(members + [m], caseSensitive)
    ensures MemberMeanings(members + [m], caseSensitive)
      == MemberMeanings(members, caseSensitive)[Norm(m.key, caseSensitive) := Meaning(m.item, caseSensitive)]
  {
    hide *;
    AppendUnique(members, m, caseSensitive);
    AppendToMap(members, m, caseSensitive);
  }

  // ----- the order of members does not matter -----

  lemma InBoth<T>(a: seq<T>, b: seq<T>, x: T)
    requires multiset(a) == multiset(b)
    ensures x in a <==> x in b
  {
    assert x in a <==> x in multiset(a);
    assert x in b <==> x in multiset(b);
  }

  /** Unique names stay unique when members change places. */
  lemma {:induction false} UniqueReordered<T>(a: seq<Member<T>>, b: seq<Member<T>>, caseSensitive: bool)
    requires UniqueKeys(a, caseSensitive) && multiset(a) == multiset(b)
    ensures UniqueKeys(b, caseSensitive)
  {
    forall i, j | 0 <= i < j < |b| && Norm(b[i].key, caseSensitive) == Norm(b[j].key, caseSensitive) ensures false {
      InBoth(a, b, b[i]);
      InBoth(a, b, b[j]);
      assert b[i] == b[j];
      TwiceCounted(b, i, j);
      OnceCounted(a, caseSensitive, b[i]);
    }
  }

  lemma TwiceCounted<T>(s: seq<T>, i: nat, j: nat)
    requires i < j < |s| && s[i] == s[j]
    ensures multiset(s)[s[i]] >= 2
  {
    assert s == s[..i] + [s[i]] + s[i + 1..j] + [s[j]] + s[j + 1..];
  }

  lemma {:induction false} OnceCounted<T>(ms: seq<Member<T>>, caseSensitive: bool, x: Member<T>)
    requires UniqueKeys(ms, caseSensitive)
    ensures multiset(ms)[x] <= 1
  {
    if ms != [] {
      OnceCounted(ms[1..], caseSensitive, x);
      MultisetCons(ms[0], ms[1..]);
      assert ms == [ms[0]] + ms[1..];
      if x == ms[0] {
        assert x !in ms[1..];
      }
    }
  }

  lemma ReorderedMeaning(a: seq<Member<Value>>, b: seq<Member<Value>>, caseSensitive: bool)
    requires UniqueKeys(a, caseSensitive) && multiset(a) == multiset(b)
    ensures UniqueKeys(b, caseSensitive)
    ensures MemberMeanings(a, caseSensitive) == MemberMeanings(b, caseSensitive)
  {
    UniqueReordered(a, b, caseSensitive);
    MeaningDescribes(a, caseSensitive);
    var m := MemberMeanings(a, caseSensitive);
    forall i | 0 <= i < |b|
      ensures var k := Norm(b[i].key, caseSensitive); k in m && m[k] == Meaning(b[i].item, caseSensitive)
    {
      InBoth(a, b, b[i]);
    }
    forall k | k in m ensures exists i :: 0 <= i < |b| && Norm(b[i].key, caseSensitive) == k {
      var i :| 0 <= i < |a| && Norm(a[i].key, caseSensitive) == k;
      InBoth(a, b, a[i]);
    }
    DescribesUnique(m, b, caseSensitive);
  }

  // ----- comparing sorted objects -----

  /** The two lists have the same names and the same meanings, position by position. */
  predicate Zipped(a: seq<Member<Value>>, b: seq<Member<Value>>, caseSensitive: bool) {
    |a| == |b| && forall i :: 0 <= i < |a| ==> SameMember(a[i], b[i], caseSensitive)
  }

  predicate SameMember(a: Member<Value>, b: Member<Value>, caseSensitive: bool) {
    Norm(a.key, caseSensitive) == Norm(b.key, caseSensitive)
    && Meaning(a.item, caseSensitive) == Meaning(b.item, caseSensitive)
  }

  /** The map without its first member. */
  lemma TailMeanings(ms: seq<Member<Value>>, caseSensitive: bool)
    requires ms != [] && UniqueKeys(ms, caseSensitive)
    ensures MemberMeanings(ms[1..], caseSensitive)
      == MemberMeanings(ms, caseSensitive) - {Norm(ms[0].key, caseSensitive)}
  {
    var k := Norm(ms[0].key, caseSensitive);
    MeaningKeys(ms[1..], caseSensitive, k);
    assert k !in MemberMeanings(ms[1..], caseSensitive);
  }

  /** No name is smaller than the first of a sorted list. */
  lemma HeadIsLeast(ms: seq<Member<Value>>, caseSensitive: bool, other: bytes)
    requires ms != [] && Sorted(ms, caseSensitive)
    requires Norm(other, caseSensitive) in MemberMeanings(ms, caseSensitive)
    ensures Compare(ms[0].key, other, caseSensitive) <= 0
  {
    MeaningKeys(ms, caseSensitive, Norm(other, caseSensitive));
    var i :| 0 <= i < |ms| && Norm(ms[i].key, caseSensitive) == Norm(other, caseSensitive);
    CompareFlips(ms[0].key, ms[0].key, caseSensitive);
    assert NotAfter(ms[0], ms[i], caseSensitive);
  }

  /** Sorted lists describe the same map exactly when they agree position by position. */
  lemma {:induction false} SortedZip(a: seq<Member<Value>>, b: seq<Member<Value>>, caseSensitive: bool)
    requires Sorted(a, caseSensitive) && Sorted(b, caseSensitive)
    requires UniqueKeys(a, caseSensitive) && UniqueKeys(b, caseSensitive)
    ensures MemberMeanings(a, caseSensitive) == MemberMeanings(b, caseSensitive) <==> Zipped(a, b, caseSensitive)
  {
    var m, n := MemberMeanings(a, caseSensitive), MemberMeanings(b, caseSensitive);
    if a == [] || b == [] {
      if a != [] { assert Norm(a[0].key, caseSensitive) in m; }
      if b != [] { assert Norm(b[0].key, caseSensitive) in n; }
      return;
    }
    SortedZip(a[1..], b[1..], caseSensitive);
    TailMeanings(a, caseSensitive);
    TailMeanings(b, caseSensitive);
    if m == n {
      HeadIsLeast(a, caseSensitive, b[0].key);
      HeadIsLeast(b, caseSensitive, a[0].key);
      CompareFlips(a[0].key, b[0].key, caseSensitive);
      assert SameMember(a[0], b[0], caseSensitive);
    }
    ZippedSplit(a, b, caseSensitive);
  }

  lemma ZippedSplit(a: seq<Member<Value>>, b: seq<Member<Value>>, caseSensitive: bool)
    requires a != [] && b != []
    ensures Zipped(a, b, caseSensitive)
      <==> SameMember(a[0], b[0], caseSensitive) && Zipped(a[1..], b[1..], caseSensitive)
  {
    if SameMember(a[0], b[0], caseSensitive) && Zipped(a[1..], b[1..], caseSensitive) {
      forall i | 0 <= i < |a| ensures SameMember(a[i], b[i], caseSensitive) {
        if i > 0 { assert SameMember(a[1..][i - 1], b[1..][i - 1], caseSensitive); }
      }
    }
    if Zipped(a, b, caseSensitive) {
      forall i | 0 <= i < |a| - 1 ensures SameMember(a[1..][i], b[1..][i], caseSensitive) {
        assert SameMember(a[i + 1], b[i + 1], caseSensitive);
      }
    }
  }

  // ----- trees that differ only in the order of members -----

  /** All names in the tree are among `names`. */
  predicate Over(v: Value, names: set<bytes>) {
    match v
    case Arr(items) => forall i :: 0 <= i < |items| ==> Over(items[i], names)
    case Obj(members) => forall i :: 0 <= i < |members| ==> members[i].key in names && Over(members[i].item, names)
    case _ => true
  }

  /** The values of the members are proper, whatever the names of the object itself are. */
  predicate ProperBelow(v: Value, caseSensitive: bool) {
    v.Obj? ==> forall i :: 0 <= i < |v.members| ==> Proper(v.members[i].item, caseSensitive)
  }

  /** What sorting in place may do to a tree: nothing that can be told without looking at the order of members. */
  ghost predicate Reordered(a: Value, b: Value) {
    && (forall mode: bool :: Proper(a, mode) ==> Proper(b, mode) && Meaning(b, mode) == Meaning(a, mode))
    && (forall names: set<bytes> :: Over(a, names) ==> Over(b, names))
    && (forall mode: bool :: ProperBelow(a, mode) ==> ProperBelow(b, mode))
    && Nest(a) == Nest(b) && (Nest(a) == 0 ==> b == a)
    && a.Obj? == b.Obj? && a.Arr? == b.Arr?
  }

  /** There is nothing to sort in what is no container. */
  lemma ReorderedScalar(v: Value, v': Value)
    requires Reordered(v, v') && Nest(v) == 0
    ensures v' == v
  {
  }

  lemma {:induction false} NestMembersIsMax(ms: seq<Member<Value>>)
    ensures forall m :: m in ms ==> Nest(m.item) <= NestMembers(ms)
    ensures ms != [] ==> exists m :: m in ms && Nest(m.item) == NestMembers(ms)
    decreases |ms|
  {
    if ms != [] {
      NestMembersIsMax(ms[1..]);
      assert forall m :: m in ms <==> m == ms[0] || m in ms[1..];
      if Nest(ms[0].item) == NestMembers(ms) {
        assert ms[0] in ms;
      } else {
        assert ms[1..] != [] && NestMembers(ms) == NestMembers(ms[1..]);
        var m :| m in ms[1..] && Nest(m.item) == NestMembers(ms[1..]);
        assert m in ms;
      }
    }
  }

  lemma ReorderedMembers(a: seq<Member<Value>>, b: seq<Member<Value>>)
    requires multiset(a) == multiset(b)
    ensures Reordered(Obj(a), Obj(b))
  {
    forall m: Member<Value> ensures m in a <==> m in b {
      InBoth(a, b, m);
    }
    forall mode: bool | Proper(Obj(a), mode)
      ensures Proper(Obj(b), mode) && Meaning(Obj(b), mode) == Meaning(Obj(a), mode)
    {
      ReorderedMeaning(a, b, mode);
      forall i | 0 <= i < |b| ensures Proper(b[i].item, mode) {
        assert b[i] in a;
      }
    }
    forall mode: bool | ProperBelow(Obj(a), mode) ensures ProperBelow(Obj(b), mode) {
      forall i | 0 <= i < |b| ensures Proper(b[i].item, mode) {
        assert b[i] in a;
      }
    }
    forall names: set<bytes> | Over(Obj(a), names) ensures Over(Obj(b), names) {
      forall i | 0 <= i < |b| ensures b[i].key in names && Over(b[i].item, names) {
        assert b[i] in a;
      }
    }
    NestMembersIsMax(a);
    NestMembersIsMax(b);
    assert a == [] <==> b == [] by { assert |a| == |multiset(a)| == |multiset(b)| == |b|; }
  }

  lemma {:induction false} MeaningReplaced(ms: seq<Member<Value>>, i: nat, v: Value, mode: bool)
    requires i < |ms| && Meaning(ms[i].item, mode) == Meaning(v, mode)
    ensures MemberMeanings(ms[i := Member(ms[i].key, v)], mode) == MemberMeanings(ms, mode)
    decreases |ms|
  {
    var ms' := ms[i := Member(ms[i].key, v)];
    if i == 0 {
      assert ms'[1..] == ms[1..];
    } else {
      MeaningReplaced(ms[1..], i - 1, v, mode);
      assert ms'[1..] == ms[1..][i - 1 := Member(ms[i].key, v)];
    }
  }

  /** Replacing a value by a reordered one. */
  lemma ReorderedMember(ms: seq<Member<Value>>, i: nat, v: Value)
    requires i < |ms| && Reordered(ms[i].item, v)
    ensures Reordered(Obj(ms), Obj(ms[i := Member(ms[i].key, v)]))
  {
    hide MemberMeanings, Norm;
    var ms' := ms[i := Member(ms[i].key, v)];
    assert forall j {:trigger ms'[j]} :: 0 <= j < |ms| ==> ms'[j].key == ms[j].key && (j != i ==> ms'[j] == ms[j]);
    forall mode: bool | Proper(Obj(ms), mode)
      ensures Proper(Obj(ms'), mode) && Meaning(Obj(ms'), mode) == Meaning(Obj(ms), mode)
    {
      MeaningReplaced(ms, i, v, mode);
    }
    forall names: set<bytes> | Over(Obj(ms), names) ensures Over(Obj(ms'), names) {
      assert Over(ms[i].item, names);
    }
    NestReplaced(ms, i, v);
  }

  lemma {:induction false} NestReplaced(ms: seq<Member<Value>>, i: nat, v: Value)
    requires i < |ms| && Nest(ms[i].item) == Nest(v)
    ensures NestMembers(ms[i := Member(ms[i].key, v)]) == NestMembers(ms)
    decreases |ms|
  {
    var ms' := ms[i := Member(ms[i].key, v)];
    if i == 0 {
      assert ms'[1..] == ms[1..];
    } else {
      NestReplaced(ms[1..], i - 1, v);
      assert ms'[1..] == ms[1..][i - 1 := Member(ms[i].key, v)];
    }
  }

  lemma {:induction false} ItemReplaced(items: seq<Value>, i: nat, v: Value)
    requires i < |items| && Nest(items[i]) == Nest(v)
    ensures NestItems(items[i := v]) == NestItems(items)
    ensures forall mode: bool :: Meaning(items[i], mode) == Meaning(v, mode) ==>
      ItemMeanings(items[i := v], mode) == ItemMeanings(items, mode)
    decreases |items|
  {
    var items' := items[i := v];
    if i == 0 {
      assert items'[1..] == items[1..];
    } else {
      ItemReplaced(items[1..], i - 1, v);
      assert items'[1..] == items[1..][i - 1 := v];
    }
  }

  lemma ReorderedItem(items: seq<Value>, i: nat, v: Value)
    requires i < |items| && Reordered(items[i], v)
    ensures Reordered(Arr(items), Arr(items[i := v]))
  {
    hide ItemMeanings;
    var items' := items[i := v];
    assert forall j {:trigger items'[j]} :: 0 <= j < |items| && j != i ==> items'[j] == items[j];
    ItemReplaced(items, i, v);
    forall mode: bool | Proper(Arr(items), mode)
      ensures Proper(Arr(items'), mode) && Meaning(Arr(items'), mode) == Meaning(Arr(items), mode)
    {
      assert Proper(items[i], mode);
    }
    forall names: set<bytes> | Over(Arr(items), names) ensures Over(Arr(items'), names) {
      assert Over(items[i], names);
    }
  }

  lemma ReorderedTransitive(a: Value, b: Value, c: Value)
    requires Reordered(a, b) && Reordered(b, c)
    ensures Reordered(a, c)
  {
  }
}
