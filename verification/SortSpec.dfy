/** What sort_list of cJSON_Utils.c computes: the order of the members it relinks. */
module SortSpec {
  import opened Bytes
  import opened JsonValue

  /** compare_strings(a, b) < 0 */
  predicate Smaller<T>(a: Member<T>, b: Member<T>, caseSensitive: bool) {
    Compare(a.key, b.key, caseSensitive) < 0
  }

  /** The key at `i` is larger than the one before. */
  predicate Rises<T>(ms: seq<Member<T>>, i: int, caseSensitive: bool) {
    0 < i < |ms| ==> Smaller(ms[i - 1], ms[i], caseSensitive)
  }

  /** Each key is smaller than the next: what the test for a sorted list looks for. */
  predicate Ascending<T>(ms: seq<Member<T>>, caseSensitive: bool) {
    forall i :: 0 < i < |ms| ==> Rises(ms, i, caseSensitive)
  }

  function Merge<T>(a: seq<Member<T>>, b: seq<Member<T>>, caseSensitive: bool): (r: seq<Member<T>>)
    ensures |r| == |a| + |b|
  {
    if a == [] then b
    else if b == [] then a
    else if Smaller(a[0], b[0], caseSensitive) then [a[0]] + Merge(a[1..], b, caseSensitive)
    else [b[0]] + Merge(a, b[1..], caseSensitive)
  }

  /** Where the list is split: the first half is the longer one. */
  function Middle(n: nat): (m: nat)
    ensures m <= n && (n >= 2 ==> 0 < m < n)
  {
    (n + 1) / 2
  }

  function Sort<T>(ms: seq<Member<T>>, caseSensitive: bool): (r: seq<Member<T>>)
    ensures |r| == |ms|
    decreases |ms|
  {
    if |ms| < 2 || Ascending(ms, caseSensitive) then ms
    else
      var m := Middle(|ms|);
      Merge(Sort(ms[..m], caseSensitive), Sort(ms[m..], caseSensitive), caseSensitive)
  }

  // ----- what sorting means -----

  /** `a` may stand before `b`. */
  predicate NotAfter<T>(a: Member<T>, b: Member<T>, caseSensitive: bool) {
    Compare(a.key, b.key, caseSensitive) <= 0
  }

  predicate Sorted<T>(ms: seq<Member<T>>, caseSensitive: bool) {
    forall i, j :: 0 <= i < j < |ms| ==> NotAfter(ms[i], ms[j], caseSensitive)
  }

  lemma CompareFlips(a: bytes, b: bytes, caseSensitive: bool)
    ensures Compare(a, b, caseSensitive) == -Compare(b, a, caseSensitive)
    ensures Compare(a, b, caseSensitive) == 0 <==> Norm(a, caseSensitive) == Norm(b, caseSensitive)
  {
    LessTrichotomy(Norm(a, caseSensitive), Norm(b, caseSensitive));
  }

  lemma CompareTransitive(a: bytes, b: bytes, c: bytes, caseSensitive: bool)
    requires Compare(a, b, caseSensitive) <= 0 && Compare(b, c, caseSensitive) <= 0
    ensures Compare(a, c, caseSensitive) <= 0
    ensures Compare(a, b, caseSensitive) < 0 || Compare(b, c, caseSensitive) < 0 ==> Compare(a, c, caseSensitive) < 0
  {
    var x, y, z := Norm(a, caseSensitive), Norm(b, caseSensitive), Norm(c, caseSensitive);
    LessTrichotomy(x, y);
    LessTrichotomy(y, z);
    LessTrichotomy(x, z);
    if Less(x, y) && Less(y, z) { LessTransitive(x, y, z); }
  }

  /** `a` may stand before every member of `ms`. */
  ghost predicate NotAfterAny<T>(a: Member<T>, ms: seq<Member<T>>, caseSensitive: bool) {
    forall m :: m in ms ==> NotAfter(a, m, caseSensitive)
  }

  lemma SortedCons<T>(a: Member<T>, ms: seq<Member<T>>, caseSensitive: bool)
    requires Sorted(ms, caseSensitive) && NotAfterAny(a, ms, caseSensitive)
    ensures Sorted([a] + ms, caseSensitive)
  {
  }

  lemma SortedHead<T>(ms: seq<Member<T>>, caseSensitive: bool)
    requires ms != [] && Sorted(ms, caseSensitive)
    ensures Sorted(ms[1..], caseSensitive) && NotAfterAny(ms[0], ms, caseSensitive)
  {
    CompareFlips(ms[0].key, ms[0].key, caseSensitive);
  }

  lemma NotAfterTransitive<T>(a: Member<T>, b: Member<T>, ms: seq<Member<T>>, caseSensitive: bool)
    requires NotAfter(a, b, caseSensitive) && NotAfterAny(b, ms, caseSensitive)
    ensures NotAfterAny(a, ms, caseSensitive)
  {
    forall m | m in ms ensures NotAfter(a, m, caseSensitive) {
      CompareTransitive(a.key, b.key, m.key, caseSensitive);
    }
  }

  lemma MultisetCons<T>(x: T, s: seq<T>)
    ensures multiset([x] + s) == multiset{x} + multiset(s)
  {
  }

  /** One step of merging: the first member, which may stand before all others, and what is left of both lists. */
  lemma MergeStep<T>(a: seq<Member<T>>, b: seq<Member<T>>, caseSensitive: bool)
    returns (first: Member<T>, a': seq<Member<T>>, b': seq<Member<T>>)
    requires a != [] && b != []
    ensures Merge(a, b, caseSensitive) == [first] + Merge(a', b', caseSensitive)
    ensures (a == [first] + a' && b' == b) || (a' == a && b == [first] + b')
    ensures NotAfter(first, a[0], caseSensitive) && NotAfter(first, b[0], caseSensitive)
  {
    CompareFlips(a[0].key, b[0].key, caseSensitive);
    CompareFlips(a[0].key, a[0].key, caseSensitive);
    CompareFlips(b[0].key, b[0].key, caseSensitive);
    if Smaller(a[0], b[0], caseSensitive) {
      first, a', b' := a[0], a[1..], b;
    } else {
      first, a', b' := b[0], a, b[1..];
    }
  }

  lemma {:induction false} MergeMembers<T>(a: seq<Member<T>>, b: seq<Member<T>>, caseSensitive: bool)
    ensures multiset(Merge(a, b, caseSensitive)) == multiset(a) + multiset(b)
    decreases |a| + |b|
  {
    if a != [] && b != [] {
      hide *;
      var first, a', b' := MergeStep(a, b, caseSensitive);
      MergeMembers(a', b', caseSensitive);
      MultisetCons(first, Merge(a', b', caseSensitive));
      MultisetCons(first, a');
      MultisetCons(first, b');
    }
  }

  lemma {:induction false} MergeSorted<T>(a: seq<Member<T>>, b: seq<Member<T>>, caseSensitive: bool)
    requires Sorted(a, caseSensitive) && Sorted(b, caseSensitive)
    ensures Sorted(Merge(a, b, caseSensitive), caseSensitive)
    decreases |a| + |b|
  {
    if a != [] && b != [] {
      hide *;
      var first, a', b' := MergeStep(a, b, caseSensitive);
      SortedHead(a, caseSensitive);
      SortedHead(b, caseSensitive);
      NotAfterTransitive(first, a[0], a, caseSensitive);
      NotAfterTransitive(first, b[0], b, caseSensitive);
      assert a[1..] == a' || a == a';
      assert b[1..] == b' || b == b';
      MergeSorted(a', b', caseSensitive);
      MergeMembers(a', b', caseSensitive);
      NotAfterMerged(first, a, b, a', b', Merge(a', b', caseSensitive), caseSensitive);
      SortedCons(first, Merge(a', b', caseSensitive), caseSensitive);
    }
  }

  lemma NotAfterMerged<T>(first: Member<T>, a: seq<Member<T>>, b: seq<Member<T>>,
      a': seq<Member<T>>, b': seq<Member<T>>, rest: seq<Member<T>>, caseSensitive: bool)
    requires NotAfterAny(first, a, caseSensitive) && NotAfterAny(first, b, caseSensitive)
    requires multiset(rest) == multiset(a') + multiset(b')
    requires (a == [first] + a' && b' == b) || (a' == a && b == [first] + b')
    ensures NotAfterAny(first, rest, caseSensitive)
  {
    forall m | m in rest ensures NotAfter(first, m, caseSensitive) {
      assert m in multiset(rest);
      assert m in a || m in b;
    }
  }

  lemma {:induction false} AscendingPairs<T>(ms: seq<Member<T>>, caseSensitive: bool, i: nat, j: nat)
    requires Ascending(ms, caseSensitive) && i < j < |ms|
    ensures Smaller(ms[i], ms[j], caseSensitive)
    decreases j - i
  {
    assert Rises(ms, j, caseSensitive);
    if i + 1 < j {
      AscendingPairs(ms, caseSensitive, i, j - 1);
      CompareTransitive(ms[i].key, ms[j - 1].key, ms[j].key, caseSensitive);
    }
  }

  lemma AscendingIsSorted<T>(ms: seq<Member<T>>, caseSensitive: bool)
    requires Ascending(ms, caseSensitive)
    ensures Sorted(ms, caseSensitive)
  {
    forall i: nat, j: nat | i < j < |ms| ensures NotAfter(ms[i], ms[j], caseSensitive) {
      AscendingPairs(ms, caseSensitive, i, j);
    }
  }

  lemma ShortIsSorted<T>(ms: seq<Member<T>>, caseSensitive: bool)
    requires |ms| < 2
    ensures Sorted(ms, caseSensitive)
  {
  }

  /** sort_list sorts, and keeps exactly the members it was given. */
  lemma {:induction false} SortCorrect<T>(ms: seq<Member<T>>, caseSensitive: bool)
    ensures Sorted(Sort(ms, caseSensitive), caseSensitive)
    ensures multiset(Sort(ms, caseSensitive)) == multiset(ms)
    decreases |ms|
  {
    hide Sorted, Ascending, Merge;
    if |ms| < 2 {
      ShortIsSorted(ms, caseSensitive);
    } else {
      if Ascending(ms, caseSensitive) {
        AscendingIsSorted(ms, caseSensitive);
      } else {
        var m := Middle(|ms|);
        var a, b := ms[..m], ms[m..];
        SortCorrect(a, caseSensitive);
        SortCorrect(b, caseSensitive);
        MergeSorted(Sort(a, caseSensitive), Sort(b, caseSensitive), caseSensitive);
        MergeMembers(Sort(a, caseSensitive), Sort(b, caseSensitive), caseSensitive);
        assert ms == a + b;
      }
    }
  }

  // ----- members with the same key -----

  /** The members with that key, in order. */
  function OfKey<T>(ms: seq<Member<T>>, key: bytes, caseSensitive: bool): seq<Member<T>> {
    if ms == [] then []
    else (if Compare(ms[0].key, key, caseSensitive) == 0 then [ms[0]] else []) + OfKey(ms[1..], key, caseSensitive)
  }

  function Reversed<T>(s: seq<T>): (r: seq<T>)
    ensures |r| == |s| && forall i :: 0 <= i < |s| ==> r[i] == s[|s| - 1 - i]
  {
    seq(|s|, i requires 0 <= i < |s| => s[|s| - 1 - i])
  }

  lemma {:induction false} OfKeyJoined<T>(a: seq<Member<T>>, b: seq<Member<T>>, key: bytes, caseSensitive: bool)
    ensures OfKey(a + b, key, caseSensitive) == OfKey(a, key, caseSensitive) + OfKey(b, key, caseSensitive)
    decreases |a|
  {
    hide Compare;
    if a == [] {
      assert a + b == b;
    } else {
      OfKeyJoined(a[1..], b, key, caseSensitive);
      assert (a + b)[1..] == a[1..] + b;
    }
  }

  /** Behind a larger key there is none. */
  lemma {:induction false} OfKeyNone<T>(ms: seq<Member<T>>, key: bytes, caseSensitive: bool)
    requires forall m :: m in ms ==> Compare(m.key, key, caseSensitive) != 0
    ensures OfKey(ms, key, caseSensitive) == []
    decreases |ms|
  {
    if ms != [] {
      assert ms[0] in ms && forall m :: m in ms[1..] ==> m in ms;
      OfKeyNone(ms[1..], key, caseSensitive);
    }
  }

  lemma OfKeyHead<T>(m: Member<T>, ms: seq<Member<T>>, key: bytes, caseSensitive: bool)
    ensures OfKey([m] + ms, key, caseSensitive)
      == (if Compare(m.key, key, caseSensitive) == 0 then [m] else []) + OfKey(ms, key, caseSensitive)
  {
    assert ([m] + ms)[1..] == ms;
  }

  /** The first of the second list is larger than this key, and so are all behind it. */
  lemma NoneBehind<T>(m: Member<T>, b: seq<Member<T>>, key: bytes, caseSensitive: bool)
    requires b != [] && Sorted(b, caseSensitive) && Smaller(m, b[0], caseSensitive) && Compare(m.key, key, caseSensitive) == 0
    ensures OfKey(b, key, caseSensitive) == []
  {
    SortedHead(b, caseSensitive);
    forall x | x in b ensures Compare(x.key, key, caseSensitive) != 0 {
      assert NotAfter(b[0], x, caseSensitive);
      CompareTransitive(m.key, b[0].key, x.key, caseSensitive);
      CompareFlips(m.key, x.key, caseSensitive);
      CompareFlips(m.key, key, caseSensitive);
      CompareFlips(x.key, key, caseSensitive);
    }
    OfKeyNone(b, key, caseSensitive);
  }

  /** Of equal keys merging takes those of the second list first. */
  lemma {:induction false} MergeOfKey<T>(a: seq<Member<T>>, b: seq<Member<T>>, key: bytes, caseSensitive: bool)
    requires Sorted(a, caseSensitive) && Sorted(b, caseSensitive)
    ensures OfKey(Merge(a, b, caseSensitive), key, caseSensitive) == OfKey(b, key, caseSensitive) + OfKey(a, key, caseSensitive)
    decreases |a| + |b|
  {
    hide Sorted, Compare, OfKey;
    if a == [] || b == [] {
      assert OfKey<T>([], key, caseSensitive) == [] by { NoneOfNothing<T>(key, caseSensitive); }
    } else if Smaller(a[0], b[0], caseSensitive) {
      SortedHead(a, caseSensitive);
      MergeOfKey(a[1..], b, key, caseSensitive);
      OfKeyHead(a[0], Merge(a[1..], b, caseSensitive), key, caseSensitive);
      OfKeyHead(a[0], a[1..], key, caseSensitive);
      assert [a[0]] + a[1..] == a;
      if Compare(a[0].key, key, caseSensitive) == 0 { NoneBehind(a[0], b, key, caseSensitive); }
    } else {
      SortedHead(b, caseSensitive);
      MergeOfKey(a, b[1..], key, caseSensitive);
      OfKeyHead(b[0], Merge(a, b[1..], caseSensitive), key, caseSensitive);
      OfKeyHead(b[0], b[1..], key, caseSensitive);
      assert [b[0]] + b[1..] == b;
    }
  }

  lemma NoneOfNothing<T>(key: bytes, caseSensitive: bool)
    ensures OfKey<T>([], key, caseSensitive) == []
  {
  }

  /** In a list in which each key is smaller than the next no key comes twice. */
  lemma {:induction false} OnceAscending<T>(ms: seq<Member<T>>, key: bytes, caseSensitive: bool)
    requires forall i, j :: 0 <= i < j < |ms| ==> Smaller(ms[i], ms[j], caseSensitive)
    ensures |OfKey(ms, key, caseSensitive)| <= 1
    decreases |ms|
  {
    if ms != [] {
      assert forall i, j :: 0 <= i < j < |ms[1..]| ==> Smaller(ms[1..][i], ms[1..][j], caseSensitive);
      OnceAscending(ms[1..], key, caseSensitive);
      if Compare(ms[0].key, key, caseSensitive) == 0 {
        forall x | x in ms[1..] ensures Compare(x.key, key, caseSensitive) != 0 {
          assert Smaller(ms[0], x, caseSensitive);
          CompareFlips(ms[0].key, x.key, caseSensitive);
          CompareFlips(ms[0].key, key, caseSensitive);
          CompareFlips(x.key, key, caseSensitive);
        }
        OfKeyNone(ms[1..], key, caseSensitive);
      }
    }
  }

  lemma ReversedJoined<T>(a: seq<T>, b: seq<T>)
    ensures Reversed(a + b) == Reversed(b) + Reversed(a)
  {
  }

  /** Sorting turns the order of members with the same key around. */
  lemma {:induction false} SortReverses<T>(ms: seq<Member<T>>, key: bytes, caseSensitive: bool)
    ensures OfKey(Sort(ms, caseSensitive), key, caseSensitive) == Reversed(OfKey(ms, key, caseSensitive))
    decreases |ms|
  {
    hide Ascending, Merge, Compare, OfKey, Sorted, Reversed;
    if |ms| < 2 {
      ShortOfKey(ms, key, caseSensitive);
      ReversedShort(OfKey(ms, key, caseSensitive));
    } else if Ascending(ms, caseSensitive) {
      forall i: nat, j: nat | i < j < |ms| ensures Smaller(ms[i], ms[j], caseSensitive) {
        AscendingPairs(ms, caseSensitive, i, j);
      }
      OnceAscending(ms, key, caseSensitive);
      ReversedShort(OfKey(ms, key, caseSensitive));
    } else {
      var m := Middle(|ms|);
      var a, b := ms[..m], ms[m..];
      SortReverses(a, key, caseSensitive);
      SortReverses(b, key, caseSensitive);
      SortCorrect(a, caseSensitive);
      SortCorrect(b, caseSensitive);
      MergeOfKey(Sort(a, caseSensitive), Sort(b, caseSensitive), key, caseSensitive);
      OfKeyJoined(a, b, key, caseSensitive);
      ReversedJoined(OfKey(a, key, caseSensitive), OfKey(b, key, caseSensitive));
      assert ms == a + b;
    }
  }

  lemma ShortOfKey<T>(ms: seq<Member<T>>, key: bytes, caseSensitive: bool)
    requires |ms| < 2
    ensures |OfKey(ms, key, caseSensitive)| <= 1
  {
    if ms != [] { assert ms[1..] == []; }
  }

  lemma ReversedShort<T>(s: seq<T>)
    requires |s| <= 1
    ensures Reversed(s) == s
  {
  }

  /** No two keys are equal under the given case mode. */
  predicate UniqueKeys<T>(ms: seq<Member<T>>, caseSensitive: bool) {
    forall i, j :: 0 <= i < j < |ms| ==> Norm(ms[i].key, caseSensitive) != Norm(ms[j].key, caseSensitive)
  }
}
