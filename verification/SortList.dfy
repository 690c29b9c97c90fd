/** sort_list of cJSON_Utils.c: a merge sort that relinks the nodes of a child list in place. */
module SortList {
  import opened Bytes
  import opened JsonValue
  import opened NodeList
  import opened SortSpec

  ghost function First(nodes: seq<Item>): Item? { From(nodes, 0) }

  /** The nodes with the keys they are sorted by. */
  ghost function Members(nodes: seq<Item>): (ms: seq<Member<Item>>)
    reads nodes`key
    ensures |ms| == |nodes|
    ensures forall i {:trigger ms[i]} :: 0 <= i < |nodes| ==> ms[i] == Member(nodes[i].key, nodes[i])
  {
    if nodes == [] then [] else [Member(nodes[0].key, nodes[0])] + Members(nodes[1..])
  }

  /** Neighbours in `nodes` point to each other; nothing is said of the two ends. */
  ghost predicate Linked(nodes: seq<Item>)
    reads nodes
  {
    && (forall i {:trigger nodes[i].next} :: 0 <= i < |nodes| - 1 ==> nodes[i].next == nodes[i + 1])
    && (forall i {:trigger nodes[i].prev} :: 0 < i < |nodes| ==> nodes[i].prev == nodes[i - 1])
  }

  /** Appends the rest of a list to what has been merged: the loop body, and the end of the merge. */
  method Join(tail: Item, head: Item, ghost done: seq<Item>, ghost rest: seq<Item>)
    requires done != [] && rest != [] && tail == Last(done) && head == rest[0]
    requires Distinct(done + rest) && Linked(done) && Chained(rest)
    modifies tail`next, head`prev
    ensures Chained(done + rest)
  {
    hide Distinct;
    ghost var all, k := done + rest, |done| - 1;
    ApartInJoin(done, rest);
    assert all[k] == tail && all[k + 1] == head;
    tail.next := head;
    head.prev := tail;
    forall i | 0 <= i < |all|
      ensures all[i].next == From(all, i + 1) && (0 < i ==> all[i].prev == all[i - 1])
    {
      if i <= k {
        assert all[i] == done[i];
      } else {
        assert all[i] == rest[i - k - 1];
      }
    }
  }

  lemma ApartInJoin(done: seq<Item>, rest: seq<Item>)
    requires done != [] && rest != [] && Distinct(done + rest)
    ensures
      var all, k := done + rest, |done| - 1;
      && (forall i {:trigger all[i]} :: 0 <= i < |all| && i != k ==> all[i] != all[k])
      && (forall i {:trigger all[i]} :: 0 <= i < |all| && i != k + 1 ==> all[i] != all[k + 1])
  {
  }

  /** A list behind its first node, and what is linked so far with that node appended. */
  lemma SplitJoined(done: seq<Item>, rest: seq<Item>)
    requires rest != [] && Chained(done + rest)
    ensures Linked(done + [rest[0]]) && Chained(rest[1..])
  {
    var all := done + rest;
    var linked := done + [rest[0]];
    forall i | 0 <= i < |linked| - 1 ensures linked[i].next == linked[i + 1] {
      assert all[i].next == From(all, i + 1);
    }
    forall i | 0 < i < |linked| ensures linked[i].prev == linked[i - 1] {
      assert all[i].prev == all[i - 1];
    }
    forall i | 0 <= i < |rest| - 1
      ensures rest[1..][i].next == From(rest[1..], i + 1) && (0 < i ==> rest[1..][i].prev == rest[1..][i - 1])
    {
      var k := |done| + i + 1;
      assert all[k] == rest[i + 1] && all[k].next == From(all, k + 1) && all[k].prev == all[k - 1];
    }
  }

  /** The nodes of a merge under way: those merged, and those left of both lists. */
  ghost predicate Merging(done: seq<Item>, a: seq<Item>, b: seq<Item>)
    reads done, a, b
  {
    Distinct(done + a + b) && Linked(done) && Chained(a) && Chained(b)
  }

  lemma DistinctParts(done: seq<Item>, a: seq<Item>, b: seq<Item>)
    requires Distinct(done + a + b)
    ensures Distinct(done + a) && Distinct(done + b + a)
    ensures forall n :: n in done + a ==> n !in b
    ensures a != [] ==> Distinct(done + [a[0]] + a[1..] + b)
  {
    var all := done + a + b;
    var swapped := done + b + a;
    assert forall i :: 0 <= i < |done + a| ==> (done + a)[i] == all[i];
    forall i, j | 0 <= i < j < |swapped| ensures swapped[i] != swapped[j] {
      var i' := if i < |done| then i else if i < |done| + |b| then i + |a| else i - |b|;
      var j' := if j < |done| then j else if j < |done| + |b| then j + |a| else j - |b|;
      assert swapped[i] == all[i'] && swapped[j] == all[j'] && i' != j';
    }
    assert forall k :: 0 <= k < |b| ==> all[|done + a| + k] == b[k];
    if a != [] { assert done + [a[0]] + a[1..] == done + a; }
  }

  /** The first of the merged nodes is none of those that are left. */
  lemma HeadApart(done: seq<Item>, a: seq<Item>, b: seq<Item>)
    requires Merging(done, a, b)
    ensures done != [] ==> done[0] !in a && done[0] !in b
  {
    if done != [] {
      var all := done + a + b;
      assert all[0] == done[0];
      assert forall i :: 0 <= i < |a| ==> all[|done| + i] == a[i];
      assert forall i :: 0 <= i < |b| ==> all[|done| + |a| + i] == b[i];
    }
  }

  /** One turn of the merge: the head of `a` is appended to what has been merged. */
  method Take(tail: Item?, smaller: Item, ghost done: seq<Item>, ghost a: seq<Item>, ghost b: seq<Item>)
    requires Merging(done, a, b) && a != [] && smaller == a[0]
    requires tail == if done == [] then null else Last(done)
    modifies Some(tail)`next, smaller`prev
    ensures Merging(done + [smaller], a[1..], b)
    ensures smaller.next == First(a[1..])
    ensures done == [] ==> smaller.prev == old(smaller.prev)
    ensures done != [] ==> done[0].prev == old(done[0].prev)
  {
    HeadApart(done, a, b);
    hide Distinct, Linked;
    assert a[0].next == From(a, 1);
    DistinctParts(done, a, b);
    if tail != null {
      assert tail in done + a && smaller in done + a;
      Join(tail, smaller, done, a);
      assert (done + a)[|done|].next == From(done + a, |done| + 1);
    } else {
      assert done + a == a;
    }
    SplitJoined(done, a);
  }

  lemma MergingSwap(done: seq<Item>, a: seq<Item>, b: seq<Item>)
    requires Merging(done, a, b)
    ensures Merging(done, b, a)
  {
    DistinctParts(done, a, b);
  }

  lemma MembersSplit(a: seq<Item>)
    requires a != []
    ensures Members(a) == [Member(a[0].key, a[0])] + Members(a[1..])
  {
  }

  lemma MergeUnfold<T>(x: Member<T>, a: seq<Member<T>>, y: Member<T>, b: seq<Member<T>>, caseSensitive: bool)
    ensures
      Merge([x] + a, [y] + b, caseSensitive)
      == if Compare(x.key, y.key, caseSensitive) < 0 then [x] + Merge(a, [y] + b, caseSensitive)
         else [y] + Merge([x] + a, b, caseSensitive)
  {
    hide Compare;
    assert ([x] + a)[1..] == a && ([y] + b)[1..] == b;
  }

  /** Merging and appending the smaller head is the same as appending and merging what is left. */
  lemma OutcomeStep(done: seq<Item>, a: seq<Item>, b: seq<Item>, caseSensitive: bool)
    requires a != [] && b != []
    ensures Outcome(done, a, b, caseSensitive)
      == if Compare(a[0].key, b[0].key, caseSensitive) < 0 then Outcome(done + [a[0]], a[1..], b, caseSensitive)
         else Outcome(done + [b[0]], a, b[1..], caseSensitive)
  {
    hide Members, Merge, Compare;
    MembersAppend(done, a[0]);
    MembersAppend(done, b[0]);
    MembersSplit(a);
    MembersSplit(b);
    MergeUnfold(Member(a[0].key, a[0]), Members(a[1..]), Member(b[0].key, b[0]), Members(b[1..]), caseSensitive);
    var x, y := Member(a[0].key, a[0]), Member(b[0].key, b[0]);
    var left := Merge(Members(a[1..]), Members(b), caseSensitive);
    var right := Merge(Members(a), Members(b[1..]), caseSensitive);
    assert Members(done) + ([x] + left) == Members(done) + [x] + left;
    assert Members(done) + ([y] + right) == Members(done) + [y] + right;
  }

  lemma MembersAppend(done: seq<Item>, x: Item)
    ensures Members(done + [x]) == Members(done) + [Member(x.key, x)]
  {
  }

  /** The nodes that a merge works on. */
  ghost function Nodes(done: seq<Item>, a: seq<Item>, b: seq<Item>): set<Item> {
    (set n | n in done) + (set n | n in a) + (set n | n in b)
  }

  lemma FewerNodes(done: seq<Item>, a: seq<Item>, b: seq<Item>)
    requires a != [] && b != []
    ensures Nodes(done + [a[0]], a[1..], b) <= Nodes(done, a, b) && Nodes(done + [b[0]], a, b[1..]) <= Nodes(done, a, b)
    ensures a[0] in Nodes(done, a, b) && b[0] in Nodes(done, a, b)
    ensures done != [] ==> Last(done) in Nodes(done, a, b)
  {
  }

  /** What the merge has produced, and would produce of the rest. */
  ghost function Outcome(done: seq<Item>, a: seq<Item>, b: seq<Item>, caseSensitive: bool): seq<Member<Item>>
    reads done`key, a`key, b`key
  {
    Members(done) + Merge(Members(a), Members(b), caseSensitive)
  }

  /** The body of the merge loop; the smaller head is appended, and its list moves on. */
  method MergeTurn(first: Item, second: Item, tail: Item?, caseSensitive: bool,
      ghost done: seq<Item>, ghost a: seq<Item>, ghost b: seq<Item>)
    returns (smaller: Item, first': Item?, second': Item?, ghost a': seq<Item>, ghost b': seq<Item>)
    requires Merging(done, a, b) && a != [] && b != [] && first == a[0] && second == b[0]
    requires tail == if done == [] then null else Last(done)
    modifies Nodes(done, a, b)`next, Nodes(done, a, b)`prev
    ensures Merging(done + [smaller], a', b') && first' == First(a') && second' == First(b')
    ensures Outcome(done + [smaller], a', b', caseSensitive) == Outcome(done, a, b, caseSensitive)
    ensures Nodes(done + [smaller], a', b') <= Nodes(done, a, b) && |a'| + |b'| < |a| + |b|
    ensures a' != [] || b' != []
    ensures smaller == a[0] || smaller == b[0]
    ensures done != [] ==> done[0].prev == old(done[0].prev)
    ensures done == [] ==> smaller.prev == old(smaller.prev)
  {
    hide Distinct, Linked, Chained, Merging, Outcome, Compare, Nodes;
    OutcomeStep(done, a, b, caseSensitive);
    FewerNodes(done, a, b);
    first', second', a', b' := first, second, a, b;
    if Compare(first.key, second.key, caseSensitive) < 0 {
      smaller := first;
      a' := a[1..];
      Take(tail, smaller, done, a, b);
      first' := first.next;
    } else {
      smaller := second;
      b' := b[1..];
      MergingSwap(done, a, b);
      Take(tail, smaller, done, b, a);
      MergingSwap(done + [smaller], b', a);
      second' := second.next;
    }
  }

  /** The merge at the end of sort_list. */
  method MergeLists(list1: Item?, list2: Item?, caseSensitive: bool, ghost a: seq<Item>, ghost b: seq<Item>)
    returns (result: Item?, ghost merged: seq<Item>)
    requires Distinct(a + b) && Chained(a) && Chained(b) && list1 == First(a) && list2 == First(b)
    modifies Nodes([], a, b)`next, Nodes([], a, b)`prev
    ensures Members(merged) == Merge(Members(a), Members(b), caseSensitive)
    ensures Chained(merged) && result == First(merged)
    ensures result != null ==> (result == list1 || result == list2) && result.prev == old(result.prev)
  {
    hide Distinct, Linked, Chained, Merging, Outcome, Nodes, Merge, Members;
    var first, second := list1, list2;
    var resultTail: Item? := null;
    result := null;
    ghost var done: seq<Item>, ra: seq<Item>, rb: seq<Item> := [], a, b;
    StartMerge(a, b, caseSensitive);
    while first != null && second != null
      invariant first == First(ra) && second == First(rb)
      invariant Merging(done, ra, rb) && Nodes(done, ra, rb) <= Nodes([], a, b)
      invariant result == First(done) && resultTail == if done == [] then null else Last(done)
      invariant Outcome(done, ra, rb, caseSensitive) == Outcome([], a, b, caseSensitive)
      invariant ra != [] || rb != [] || done == []
      invariant result == null ==> first == list1 && second == list2
      invariant result == null && first != null ==> first.prev == old(first.prev)
      invariant result == null && second != null ==> second.prev == old(second.prev)
      invariant result != null ==> (result == list1 || result == list2) && result.prev == old(result.prev)
      decreases |ra| + |rb|
    {
      var smaller;
      smaller, first, second, ra, rb := MergeTurn(first, second, resultTail, caseSensitive, done, ra, rb);
      if result == null { result := smaller; }
      resultTail := smaller;
      done := done + [smaller];
    }
    OutcomeEnd(done, ra, rb, caseSensitive);
    result, merged := FinishMerge(result, resultTail, first, second, done, ra, rb);
  }

  /** Appends what is left of one list. */
  method FinishMerge(result: Item?, tail: Item?, first: Item?, second: Item?,
      ghost done: seq<Item>, ghost a: seq<Item>, ghost b: seq<Item>)
    returns (r: Item?, ghost merged: seq<Item>)
    requires Merging(done, a, b) && (a == [] || b == []) && (a != [] || b != [] || done == [])
    requires first == First(a) && second == First(b)
    requires result == First(done) && tail == if done == [] then null else Last(done)
    modifies Nodes(done, a, b)`next, Nodes(done, a, b)`prev
    ensures merged == done + a + b && r == First(merged) && Chained(merged)
    ensures r != null ==> (if done == [] then r == first || r == second else r == result) && r.prev == old(r.prev)
  {
    HeadApart(done, a, b);
    r, merged := result, done + a + b;
    assert a == [] ==> merged == done + b;
    assert b == [] ==> merged == done + a;
    if first != null {
      if result == null { return first, merged; }
      Join(tail, first, done, a);
    }
    if second != null {
      if result == null { return second, merged; }
      Join(tail, second, done, b);
    }
  }

  lemma StartMerge(a: seq<Item>, b: seq<Item>, caseSensitive: bool)
    requires Distinct(a + b) && Chained(a) && Chained(b)
    ensures Merging([], a, b)
    ensures Outcome([], a, b, caseSensitive) == Merge(Members(a), Members(b), caseSensitive)
  {
    assert [] + a + b == a + b;
    var merged := Merge(Members(a), Members(b), caseSensitive);
    assert Members([]) + merged == merged;
  }

  lemma OutcomeEnd(done: seq<Item>, a: seq<Item>, b: seq<Item>, caseSensitive: bool)
    requires a == [] || b == []
    ensures Outcome(done, a, b, caseSensitive) == Members(done + a + b)
  {
    MembersConcat(done, a);
    MembersConcat(done + a, b);
  }

  lemma MembersConcat(a: seq<Item>, b: seq<Item>)
    ensures Members(a + b) == Members(a) + Members(b)
  {
  }

  // ----- the same nodes -----

  lemma {:induction false} MembersCount(nodes: seq<Item>, n: Item)
    ensures multiset(Members(nodes))[Member(n.key, n)] == multiset(nodes)[n]
  {
    if nodes != [] {
      MembersCount(nodes[1..], n);
      MembersSplit(nodes);
      MultisetCons(nodes[0], nodes[1..]);
      MultisetCons(Member(nodes[0].key, nodes[0]), Members(nodes[1..]));
      assert nodes == [nodes[0]] + nodes[1..];
    }
  }

  /** Sorting the members is sorting the nodes. */
  lemma SameNodes(sorted: seq<Item>, nodes: seq<Item>)
    requires multiset(Members(sorted)) == multiset(Members(nodes))
    ensures multiset(sorted) == multiset(nodes)
    ensures forall n :: n in sorted <==> n in nodes
  {
    forall n: Item | n in sorted || n in nodes ensures multiset(sorted)[n] == multiset(nodes)[n] {
      MembersCount(sorted, n);
      MembersCount(nodes, n);
    }
    assert forall n: Item :: n in multiset(sorted) <==> n in sorted;
    assert forall n: Item :: n in multiset(nodes) <==> n in nodes;
  }

  lemma {:induction false} DistinctCount(nodes: seq<Item>)
    ensures Distinct(nodes) <==> forall n :: n in nodes ==> multiset(nodes)[n] == 1
  {
    if nodes != [] {
      var rest := nodes[1..];
      DistinctCount(rest);
      MultisetCons(nodes[0], rest);
      assert nodes == [nodes[0]] + rest;
      assert Distinct(nodes) <==> nodes[0] !in rest && Distinct(rest);
      assert forall n :: n in nodes <==> n == nodes[0] || n in rest;
      assert nodes[0] in rest <==> multiset(rest)[nodes[0]] > 0;
    }
  }

  lemma DistinctSame(sorted: seq<Item>, nodes: seq<Item>)
    requires Distinct(nodes) && multiset(sorted) == multiset(nodes)
    ensures Distinct(sorted)
  {
    DistinctCount(sorted);
    DistinctCount(nodes);
    assert forall n: Item :: n in multiset(sorted) <==> n in sorted;
    assert forall n: Item :: n in multiset(nodes) <==> n in nodes;
  }

  // ----- sort_list -----

  /** The test for a list that is sorted already. */
  method IsAscending(list: Item, caseSensitive: bool, ghost nodes: seq<Item>) returns (ascending: bool)
    requires nodes != [] && Chained(nodes) && list == nodes[0]
    ensures ascending <==> Ascending(Members(nodes), caseSensitive)
  {
    var currentItem := list;
    ghost var k := 0;
    hide Compare;
    while currentItem.next != null && Compare(currentItem.key, currentItem.next.key, caseSensitive) < 0
      invariant 0 <= k < |nodes| && currentItem == nodes[k]
      invariant forall i :: 0 < i <= k ==> Rises(Members(nodes), i, caseSensitive)
      decreases |nodes| - k
    {
      currentItem := currentItem.next;
      k := k + 1;
    }
    ascending := currentItem.next == null;
    assert nodes[k].next == From(nodes, k + 1);
    if !ascending {
      assert !Rises(Members(nodes), k + 1, caseSensitive);
    }
  }

  /** Walks two pointers, one twice as fast as the other. */
  method FindMiddle(list: Item, ghost nodes: seq<Item>) returns (second: Item?)
    requires |nodes| >= 2 && Chained(nodes) && list == nodes[0]
    ensures second == nodes[Middle(|nodes|)]
  {
    var currentItem: Item? := list;
    second := list;
    ghost var c, s, n := 0, 0, |nodes|;
    while currentItem != null
      invariant 0 <= s < n && second == nodes[s] && currentItem == From(nodes, c)
      invariant c == (if 2 * s <= n then 2 * s else n) && 2 * s <= n + 1
      decreases n - c
    {
      assert nodes[s].next == From(nodes, s + 1) && nodes[c].next == From(nodes, c + 1);
      second := second.next;
      currentItem := currentItem.next;
      s, c := s + 1, c + 1;
      if currentItem != null {
        assert nodes[c].next == From(nodes, c + 1);
        currentItem := currentItem.next;
        c := c + 1;
      }
    }
  }

  /** Cuts the list in front of `second`. */
  method Split(second: Item, ghost nodes: seq<Item>, ghost m: nat)
    requires 0 < m < |nodes| && Distinct(nodes) && Chained(nodes) && second == nodes[m]
    modifies nodes`next, nodes`prev
    ensures Chained(nodes[..m]) && Chained(nodes[m..])
    ensures nodes[0].prev == old(nodes[0].prev) && second.prev == null
  {
    assert second.prev == nodes[m - 1];
    if second.prev != null {
      second.prev.next := null;
      second.prev := null;
    }
    forall i | 0 <= i < m ensures nodes[..m][i].next == From(nodes[..m], i + 1) && (0 < i ==> nodes[i].prev == nodes[i - 1]) {
      assert nodes[i].next == if i == m - 1 then null else nodes[i + 1];
    }
    forall i | 0 <= i < |nodes| - m
      ensures nodes[m..][i].next == From(nodes[m..], i + 1) && (0 < i ==> nodes[m..][i].prev == nodes[m..][i - 1])
    {
      assert nodes[m + i].next == From(nodes, m + i + 1);
      assert 0 < i ==> nodes[m + i].prev == nodes[m + i - 1];
    }
  }

  /** Both halves of a list, each perhaps sorted already. */
  lemma Halves(nodes: seq<Item>, m: nat, a: seq<Item>, b: seq<Item>)
    requires m <= |nodes| && Distinct(nodes)
    requires multiset(a) == multiset(nodes[..m]) && multiset(b) == multiset(nodes[m..])
    ensures Distinct(a) && Distinct(b) && Distinct(a + b)
    ensures forall n :: n in a || n in b || n in Nodes([], a, b) ==> n in nodes
    ensures forall i {:trigger a[i]} :: 0 <= i < |a| ==> a[i] !in b
    ensures forall i {:trigger b[i]} :: 0 <= i < |b| ==> b[i] !in a
  {
    assert nodes == nodes[..m] + nodes[m..];
    assert multiset(a + b) == multiset(nodes);
    DistinctSame(a + b, nodes);
    DistinctHalves(a, b);
    SameMembers(a + b, nodes);
  }

  lemma SameMembers(a: seq<Item>, b: seq<Item>)
    requires multiset(a) == multiset(b)
    ensures forall n :: n in a ==> n in b
  {
    assert forall n: Item :: n in a <==> n in multiset(a);
    assert forall n: Item :: n in b <==> n in multiset(b);
  }

  lemma DistinctHalves(a: seq<Item>, b: seq<Item>)
    requires Distinct(a + b)
    ensures Distinct(a) && Distinct(b)
    ensures forall n :: n in a || n in b || n in Nodes([], a, b) ==> n in a + b
    ensures forall i {:trigger a[i]} :: 0 <= i < |a| ==> a[i] !in b
    ensures forall i {:trigger b[i]} :: 0 <= i < |b| ==> b[i] !in a
  {
    assert forall i :: 0 <= i < |a| ==> (a + b)[i] == a[i];
    assert forall i :: 0 <= i < |b| ==> (a + b)[|a| + i] == b[i];
  }

  lemma HeadInFirst(nodes: seq<Item>, m: nat, a: seq<Item>, b: seq<Item>)
    requires 0 < m < |nodes| && multiset(a) == multiset(nodes[..m]) && multiset(b) == multiset(nodes[m..])
    requires forall i {:trigger b[i]} :: 0 <= i < |b| ==> b[i] !in a
    ensures a != [] && b != [] && b[0] != nodes[0]
  {
    assert nodes[..m][0] in multiset(a) && nodes[m..][0] in multiset(b);
  }

  lemma SortSplit(nodes: seq<Item>, caseSensitive: bool)
    requires |nodes| >= 2 && !Ascending(Members(nodes), caseSensitive)
    ensures
      var m := Middle(|nodes|);
      Sort(Members(nodes), caseSensitive)
      == Merge(Sort(Members(nodes[..m]), caseSensitive), Sort(Members(nodes[m..]), caseSensitive), caseSensitive)
  {
    hide Merge, Ascending;
    var m := Middle(|nodes|);
    MembersConcat(nodes[..m], nodes[m..]);
    assert nodes == nodes[..m] + nodes[m..];
    assert Members(nodes)[..m] == Members(nodes[..m]);
    assert Members(nodes)[m..] == Members(nodes[m..]);
  }

  /**
   * sort_list on the nodes of a child list whose inner links are right: the same nodes, in the order of Sort, linked
   * again in both directions. But `prev` of the first node is not set to the last one: it is what it was, when this node
   * was the first one before, and null otherwise.
   */
  method SortList(list: Item?, caseSensitive: bool, ghost nodes: seq<Item>)
    returns (result: Item?, ghost sorted: seq<Item>)
    requires Distinct(nodes) && Chained(nodes) && list == First(nodes)
    modifies nodes`next, nodes`prev
    ensures Members(sorted) == Sort(Members(nodes), caseSensitive)
    ensures Chained(sorted) && result == First(sorted)
    ensures multiset(sorted) == multiset(nodes)
    ensures sorted != [] ==> sorted[0].prev == if sorted[0] == nodes[0] then old(nodes[0].prev) else null
    ensures Ascending(Members(nodes), caseSensitive) ==> sorted == nodes && unchanged(nodes)
    decreases |nodes|, 2
  {
    assert nodes != [] ==> nodes[0].next == From(nodes, 1);
    AlreadySorted(nodes, caseSensitive);
    hide Sort, Ascending, Members, Chained, Distinct, Middle, Nodes, Merge, Compare;
    if list == null || list.next == null {
      return list, nodes;
    }
    var ascending := IsAscending(list, caseSensitive, nodes);
    if ascending { return list, nodes; }
    result, sorted := SortHalves(list, caseSensitive, nodes);
    SortedNodes(sorted, nodes, caseSensitive);
  }

  lemma SortedNodes(sorted: seq<Item>, nodes: seq<Item>, caseSensitive: bool)
    requires Members(sorted) == Sort(Members(nodes), caseSensitive)
    ensures multiset(sorted) == multiset(nodes)
  {
    hide Members, Sort;
    SortCorrect(Members(nodes), caseSensitive);
    SameNodes(sorted, nodes);
  }

  lemma AlreadySorted(nodes: seq<Item>, caseSensitive: bool)
    ensures |nodes| < 2 || Ascending(Members(nodes), caseSensitive) ==>
      Sort(Members(nodes), caseSensitive) == Members(nodes)
  {
    hide Ascending;
  }

  /** Sorts both halves; sorting one does not touch the other. */
  method SortPair(list: Item?, middle: Item?, caseSensitive: bool, ghost nodes: seq<Item>, ghost m: nat)
    returns (first: Item?, second: Item?, ghost sortedA: seq<Item>, ghost sortedB: seq<Item>)
    requires 0 < m < |nodes| && Distinct(nodes)
    requires Distinct(nodes[..m]) && Chained(nodes[..m]) && list == First(nodes[..m])
    requires Distinct(nodes[m..]) && Chained(nodes[m..]) && middle == First(nodes[m..])
    modifies nodes`next, nodes`prev
    ensures multiset(sortedA) == multiset(nodes[..m]) && multiset(sortedB) == multiset(nodes[m..])
    ensures Members(sortedA) == Sort(Members(nodes[..m]), caseSensitive)
    ensures Members(sortedB) == Sort(Members(nodes[m..]), caseSensitive)
    ensures Chained(sortedA) && Chained(sortedB) && first == First(sortedA) && second == First(sortedB)
    ensures sortedA != [] ==> sortedA[0].prev == if sortedA[0] == nodes[0] then old(nodes[0].prev) else null
    ensures sortedB != [] ==> sortedB[0].prev == if sortedB[0] == nodes[m] then old(nodes[m].prev) else null
    decreases |nodes|, 0
  {
    hide Sort, Ascending, Merge, Members, Chained, Distinct, Nodes, Middle;
    ghost var a, b := nodes[..m], nodes[m..];
    Halves(nodes, m, a, b);
    first, sortedA := SortList(list, caseSensitive, a);
    Halves(nodes, m, sortedA, b);
    second, sortedB := SortList(middle, caseSensitive, b);
    Halves(nodes, m, sortedA, sortedB);
  }

  /** Splits a list that is not sorted, sorts both halves, and merges them. */
  method SortHalves(list: Item, caseSensitive: bool, ghost nodes: seq<Item>)
    returns (result: Item?, ghost sorted: seq<Item>)
    requires Distinct(nodes) && Chained(nodes) && list == First(nodes)
    requires |nodes| >= 2 && !Ascending(Members(nodes), caseSensitive)
    modifies nodes`next, nodes`prev
    ensures Members(sorted) == Sort(Members(nodes), caseSensitive)
    ensures Chained(sorted) && result == First(sorted)
    ensures sorted != [] ==> sorted[0].prev == if sorted[0] == nodes[0] then old(nodes[0].prev) else null
    decreases |nodes|, 1
  {
    hide Sort, Ascending, Merge, Members, Chained, Distinct, Nodes, Middle;
    SortSplit(nodes, caseSensitive);
    var middle := FindMiddle(list, nodes);
    ghost var m := Middle(|nodes|);
    Halves(nodes, m, nodes[..m], nodes[m..]);
    Split(middle, nodes, m);
    ghost var sortedA, sortedB;
    var first, second;
    first, second, sortedA, sortedB := SortPair(list, middle, caseSensitive, nodes, m);
    Halves(nodes, m, sortedA, sortedB);
    HeadInFirst(nodes, m, sortedA, sortedB);
    result, sorted := MergeLists(first, second, caseSensitive, sortedA, sortedB);
  }

  // ----- sort_object, and adding to what it has sorted -----

  /** sort_object: a child list stays one exactly when its first and its last child stay where they are. */
  method SortObject(o: Item, caseSensitive: bool)
    requires o.Walkable()
    modifies o`child, o`children, o.children`next, o.children`prev
    ensures o.Walkable() && multiset(o.children) == multiset(old(o.children))
    ensures Members(o.children) == Sort(old(Members(o.children)), caseSensitive)
    ensures o.children != [] ==>
      o.children[0].prev == if o.children[0] == old(o.children)[0] then old(o.children[0].prev) else null
    ensures old(o.Valid()) ==>
      (o.Valid() <==> o.children == [] || (o.children[0] == old(o.children)[0] && Last(o.children) == Last(old(o.children))))
  {
    hide Members, Sort, Chained;
    ghost var nodes := o.children;
    ghost var sorted;
    o.child, sorted := SortList(o.child, caseSensitive, nodes);
    o.children := sorted;
    DistinctSame(sorted, nodes);
    SameMembers(sorted, nodes);
  }

  /**
   * A member that is added to a sorted object, as a merge does it: it is added exactly when the first and the last child
   * were there before. Otherwise it is lost, when another child has come first, or the children behind the one that was
   * last are lost.
   */
  method AddToSorted(o: Item, item: Item, caseSensitive: bool)
    requires o.Valid() && item != o && item !in o.children && item.next == null
    modifies o`child, o`children, o.children`next, o.children`prev, item`next, item`prev
    ensures o.Walkable()
    ensures exists sorted: seq<Item> ::
      && multiset(sorted) == multiset(old(o.children))
      && Members(sorted) == Sort(old(Members(o.children)), caseSensitive)
      && (o.children == sorted + [item] <==>
            sorted == [] || (sorted[0] == old(o.children)[0] && Last(sorted) == Last(old(o.children))))
      && (sorted != [] && sorted[0] != old(o.children)[0] ==> o.children == sorted)
      && (sorted != [] && sorted[0] == old(o.children)[0] ==>
            exists k :: 0 <= k < |sorted| && sorted[k] == Last(old(o.children)) && o.children == sorted[..k + 1] + [item])
  {
    hide Members, Sort, Chained;
    ghost var nodes := o.children;
    SortObject(o, caseSensitive);
    ghost var sorted := o.children;
    SameMembers(nodes, sorted);
    SameMembers(sorted, nodes);
    ghost var k := if nodes == [] then 0 else IndexIn(sorted, Last(nodes));
    assert forall i {:trigger sorted[i]} :: 0 <= i < |sorted| ==> sorted[i] in nodes;
    assert item !in o.children && NodeList.Some(item) == {item};
    var ok := o.AddItemToArray(item, k);
    assert multiset(sorted) == multiset(nodes);
    if sorted != [] && sorted[0] == nodes[0] {
      TruncatedOrNot(sorted, k, item);
    }
  }

  ghost function IndexIn(nodes: seq<Item>, n: Item): (k: nat)
    requires n in nodes
    ensures k < |nodes| && nodes[k] == n
  {
    var k: nat :| k < |nodes| && nodes[k] == n;
    k
  }

  lemma TruncatedOrNot(sorted: seq<Item>, k: nat, item: Item)
    requires k < |sorted| && Distinct(sorted)
    ensures sorted[..k + 1] + [item] == sorted + [item] <==> Last(sorted) == sorted[k]
  {
    assert |sorted[..k + 1] + [item]| == k + 2;
  }

  /** An object with two members. */
  method TwoChildren(first: bytes, second: bytes) returns (o: Item, a: Item, b: Item)
    ensures fresh(o) && fresh(a) && fresh(b) && a != b && o != a && o != b
    ensures o.Valid() && o.children == [a, b] && a.key == first && b.key == second
  {
    hide Distinct, Chained;
    o := new Item([]);
    a := new Item(first);
    b := new Item(second);
    Childless(o);
    var ok := o.AddItemToArray(a, 0);
    ok := o.AddItemToArray(b, 0);
  }

  lemma Childless(o: Item)
    requires o.child == null && o.children == []
    ensures o.Valid()
  {
  }

  /** {"b", "a"} after it was sorted. */
  method SortedTwo() returns (o: Item, a: Item, b: Item)
    ensures fresh(o) && fresh(a) && fresh(b)
    ensures o.Walkable() && o.children == [a, b] && a.prev == null && a.key == [LOWER_A] && b.key == [LOWER_B]
  {
    hide Distinct, Chained, Sort, Members, Item.Valid, Item.Walkable;
    o, b, a := TwoChildren([LOWER_B], [LOWER_A]);
    ValidWalks(o);
    SortsTwo(a, b);
    SortObject(o, true);
    TwoMembers(o.children, a, b);
  }

  /** {"b", "a"} with "c" added after it was sorted: it has become {"a", "b"}. */
  method LostMember() returns (o: Item, c: Item)
    ensures o.Walkable() && Keys(o.children) == [[LOWER_A], [LOWER_B]] && c !in o.children && c.key == [LOWER_A + 2]
  {
    hide Distinct, Chained, Item.Valid, Item.Walkable;
    var a, b;
    o, a, b := SortedTwo();
    c := new Item([LOWER_A + 2]);
    var ok := o.AddItemToArray(c, 0);
  }

  lemma ValidWalks(o: Item)
    requires o.Valid()
    ensures o.Walkable()
  {
  }

  lemma SortsTwo(a: Item, b: Item)
    requires Less(a.key, b.key)
    ensures Sort(Members([b, a]), true) == Members([a, b])
  {
    hide Less;
    LessTrichotomy(a.key, b.key);
    var x, y := Member(a.key, a), Member(b.key, b);
    assert Members([b, a]) == [y, x] && Members([a, b]) == [x, y];
    assert !Rises([y, x], 1, true);
    assert [y, x][..1] == [y] && [y, x][1..] == [x];
    assert Merge([y], [x], true) == [x] + Merge([y], [], true) by { assert [x][1..] == []; }
  }

  lemma TwoMembers(nodes: seq<Item>, a: Item, b: Item)
    requires Members(nodes) == Members([a, b])
    ensures nodes == [a, b]
  {
    assert Members(nodes)[0] == Member(a.key, a) && Members(nodes)[1] == Member(b.key, b);
  }
}
