/** The doubly linked child list of cJSON.c: `next` ends with null, `prev` of the head is the tail. */
module NodeList {
  import opened Bytes

  /** struct cJSON, as far as child lists go; `key` is its name (`string`). */
  class Item {
    var next: Item?
    var prev: Item?
    var child: Item?
    var key: bytes
    /** The nodes of the child list, in order. */
    ghost var children: seq<Item>

    constructor (key: bytes)
      ensures next == null && prev == null && child == null && children == [] && this.key == key
    {
      this.key := key;
      next, prev, child := null, null, null;
      children := [];
    }

    /** The list can be walked along `next`; nothing is said of `prev` of the head. */
    ghost predicate Walkable()
      reads this, children
    {
      && this !in children && Distinct(children)
      && child == (if children == [] then null else children[0])
      && Chained(children)
    }

    ghost predicate Valid()
      reads this, children
    {
      Walkable() && (children != [] ==> children[0].prev == Last(children))
    }

    /** get_array_item. */
    method GetArrayItem(index: nat) returns (r: Item?)
      requires Valid()
      ensures r == if index < |children| then children[index] else null
    {
      r := child;
      var i: nat, k: nat := index, 0;
      while r != null && i > 0
        invariant k + i == index && k <= |children|
        invariant r == if k < |children| then children[k] else null
      {
        assert children[k].next == From(children, k + 1);
        i := i - 1;
        r := r.next;
        k := k + 1;
      }
    }

    /** get_object_item. */
    method GetObjectItem(name: bytes, caseSensitive: bool) returns (r: Item?)
      requires Valid()
      ensures
        var k := IndexOf(Keys(children), name, caseSensitive);
        FirstNamed(Keys(children), name, caseSensitive, k) && r == if k < |children| then children[k] else null
    {
      IndexOfExactly(Keys(children), name, caseSensitive);
      hide Compare, IndexOf, FirstNamed;
      r := child;
      ghost var k := 0;
      while r != null && Compare(name, r.key, caseSensitive) != 0
        invariant k <= |children| && r == if k < |children| then children[k] else null
        invariant forall j :: 0 <= j < k ==> Compare(name, Keys(children)[j], caseSensitive) != 0
        decreases |children| - k
      {
        assert children[k].next == From(children, k + 1);
        r := r.next;
        k := k + 1;
      }
      IndexOfIs(Keys(children), name, caseSensitive, k);
    }

    /** How many children an append keeps when `prev` of the head is the child at `k`, or null. */
    ghost predicate TailAt(k: nat)
      reads this, children
    {
      children != [] && children[0].prev != null ==> k < |children| && children[0].prev == children[k]
    }

    /**
     * add_item_to_array: `item` must not be in a list already, as its `next` is not reset. It is put behind the node that
     * `prev` of the head is: the children behind this node are lost, and without such a node nothing is added.
     */
    method AddItemToArray(item: Item?, ghost k: nat) returns (ok: bool)
      requires Walkable() && TailAt(k)
      requires item != null && item != this ==> item !in children && item.next == null
      modifies this`child, this`children, children`next, children`prev, Some(item)`next, Some(item)`prev
      ensures ok <==> item != null && item != this
      ensures children ==
        if !ok || old(children != [] && children[0].prev == null) then old(children)
        else if old(children) == [] then [item]
        else old(children)[..k + 1] + [item]
      ensures Walkable()
      ensures old(Valid()) ==> Valid() && children == if ok then old(children) + [item] else old(children)
    {
      if item == null || item == this { return false; }
      if child == null || child.prev != null { LinkLast(item, k); }
      return true;
    }

    method LinkLast(item: Item, ghost k: nat)
      requires Walkable() && item != this && item !in children && item.next == null
      requires children != [] ==> k < |children| && children[0].prev == children[k]
      modifies this`child, this`children, children`next, children`prev, item`next, item`prev
      ensures children == (if old(children) == [] then [] else old(children)[..k + 1]) + [item]
      ensures Valid()
      ensures old(Valid()) ==> children == old(children) + [item]
    {
      ghost var was := if children == [] then [] else children[..k + 1];
      assert old(Valid()) ==> was == children;
      assert forall i {:trigger was[i]} :: 0 <= i < |was| ==> was[i] == children[i];
      if child == null {
        child := item;
        item.prev := item;
        item.next := null;
      } else {
        child.prev.next := item;
        item.prev := child.prev;
        child.prev := item;
      }
      children := was + [item];
      assert LinkedLast(was, item);
      AppendedChain(was, item);
    }

    /** cJSON_InsertItemInArray: behind the end it appends. */
    method InsertItemInArray(which: int, newItem: Item) returns (ok: bool)
      requires Valid()
      requires newItem != this ==> newItem !in children && newItem.next == null
      requires newItem == this ==> which >= |children|
      modifies this`child, this`children, children`next, children`prev, newItem`next, newItem`prev
      ensures ok <==> 0 <= which && newItem != this
      ensures children ==
        if !ok then old(children)
        else
          Inserted(old(children), if which < |old(children)| then which else |old(children)|, newItem)
      ensures Valid()
    {
      if which < 0 { return false; }
      var afterInserted := GetArrayItem(which);
      if afterInserted == null {
        ok := AddItemToArray(newItem, if children == [] then 0 else |children| - 1);
        assert ok ==> children == Inserted(old(children), |old(children)|, newItem);
        return;
      }
      LinkBefore(newItem, which);
      return true;
    }

    method LinkBefore(newItem: Item, k: nat)
      requires Valid() && k < |children| && newItem != this && newItem !in children
      modifies this`child, this`children, children`next, children`prev, newItem`next, newItem`prev
      ensures children == Inserted(old(children), k, newItem)
      ensures Valid()
    {
      var afterInserted := GetArrayItem(k);
      ghost var was, now := children, Inserted(children, k, newItem);
      InsertedAt(was, k, newItem);
      assert k > 0 ==> was[k].prev == was[k - 1];
      newItem.next := afterInserted;
      newItem.prev := afterInserted.prev;
      afterInserted.prev := newItem;
      if afterInserted == child {
        child := newItem;
      } else {
        newItem.prev.next := newItem;
      }
      children := now;
      assert LinkedBefore(was, k, newItem);
      InsertedChain(was, k, newItem);
    }

    /** cJSON_DetachItemViaPointer: `item` is null or the child at `k`. */
    method DetachItemViaPointer(item: Item?, ghost k: nat) returns (r: Item?)
      requires Valid()
      requires item != null ==> k < |children| && children[k] == item
      modifies this`child, this`children, children`next, children`prev
      ensures r == item
      ensures children == if item == null then old(children) else Removed(old(children), k)
      ensures Valid()
      ensures item != null ==> item !in children && item.next == null && item.prev == null
    {
      if item == null { return null; }
      ghost var was, now := children, Removed(children, k);
      RemovedAt(was, k);
      assert was[k].next == From(was, k + 1);
      assert k > 0 ==> was[k].prev == was[k - 1];
      if item != child {
        item.prev.next := item.next;
      }
      if item.next != null {
        item.next.prev := item.prev;
      }
      if item == child {
        child := item.next;
      } else if item.next == null {
        child.prev := item.prev;
      }
      item.prev := null;
      item.next := null;
      children := now;
      assert Unlinked(was, k);
      RemovedChain(was, k);
      return item;
    }

    /** cJSON_DetachItemFromArray. */
    method DetachItemFromArray(which: int) returns (r: Item?)
      requires Valid()
      modifies this`child, this`children, children`next, children`prev
      ensures r == if 0 <= which < |old(children)| then old(children)[which] else null
      ensures children ==
        if r == null then old(children) else Removed(old(children), which)
      ensures Valid()
      ensures r != null ==> r !in children && r.next == null && r.prev == null
    {
      if which < 0 { return null; }
      var item := GetArrayItem(which);
      r := DetachItemViaPointer(item, which);
    }

    /** cJSON_DetachItemFromObject and its case sensitive form. */
    method DetachItemFromObject(name: bytes, caseSensitive: bool) returns (r: Item?)
      requires Valid()
      modifies this`child, this`children, children`next, children`prev
      ensures
        var k := IndexOf(old(Keys(children)), name, caseSensitive);
        FirstNamed(old(Keys(children)), name, caseSensitive, k) &&
        if k < |old(children)|
        then r == old(children)[k] && children == Removed(old(children), k)
        else r == null && children == old(children)
      ensures Valid()
      ensures r != null ==> r !in children && r.next == null && r.prev == null
    {
      hide IndexOf, FirstNamed, Chained, Distinct;
      var item := GetObjectItem(name, caseSensitive);
      r := DetachItemViaPointer(item, IndexOf(Keys(children), name, caseSensitive));
    }

    /** cJSON_ReplaceItemViaPointer: `item` is null or the child at `k`; it is released afterwards. */
    method ReplaceItemViaPointer(item: Item?, ghost k: nat, replacement: Item?) returns (ok: bool)
      requires Valid()
      requires item != null ==> k < |children| && children[k] == item
      requires replacement != null && replacement != item ==> replacement !in children && replacement != this
      modifies this`child, this`children, children`next, children`prev, Some(replacement)`next, Some(replacement)`prev
      ensures ok <==> item != null && replacement != null
      ensures children == if ok then old(children)[k := replacement] else old(children)
      ensures Valid()
      ensures ok && replacement != item ==> item !in children && item.next == null && item.prev == null
    {
      if replacement == null || item == null { return false; }
      if replacement == item { return true; }
      LinkInstead(item, k, replacement);
      return true;
    }

    method LinkInstead(item: Item, ghost k: nat, replacement: Item)
      requires Valid() && k < |children| && children[k] == item && replacement !in children && replacement != this
      modifies this`child, this`children, children`next, children`prev, replacement`next, replacement`prev
      ensures children == old(children)[k := replacement]
      ensures Valid() && item !in children && item.next == null && item.prev == null
    {
      ghost var was := children;
      ReplacedDistinct(was, k, replacement);
      assert children[k].next == From(children, k + 1);
      assert k > 0 ==> children[k].prev == children[k - 1];
      replacement.next := item.next;
      replacement.prev := item.prev;
      if replacement.next != null {
        replacement.next.prev := replacement;
      }
      if child == item {
        if child.prev == child {
          replacement.prev := replacement;
        }
        child := replacement;
      } else {
        if replacement.prev != null {
          replacement.prev.next := replacement;
        }
        if replacement.next == null {
          child.prev := replacement;
        }
      }
      item.next := null;
      item.prev := null;
      children := was[k := replacement];
      assert Relinked(was, k, replacement);
      ReplacedChain(was, k, replacement);
    }
  }

  lemma IndexOfIs(keys: seq<bytes>, name: bytes, caseSensitive: bool, k: nat)
    requires k <= |keys| && (k < |keys| ==> Compare(name, keys[k], caseSensitive) == 0)
    requires forall i :: 0 <= i < k ==> Compare(name, keys[i], caseSensitive) != 0
    ensures IndexOf(keys, name, caseSensitive) == k
  {
    hide Compare;
  }

  /** The node behind a pointer, if there is one. */
  ghost function Some(item: Item?): set<Item> {
    if item == null then {} else {item}
  }

  function Last<T>(s: seq<T>): T
    requires s != []
  {
    s[|s| - 1]
  }

  /** The node at `i`, or null. */
  ghost function From(nodes: seq<Item>, i: int): Item? {
    if 0 <= i < |nodes| then nodes[i] else null
  }

  ghost function Inserted<T>(s: seq<T>, k: nat, x: T): seq<T>
    requires k <= |s|
  {
    s[..k] + [x] + s[k..]
  }

  lemma InsertedAt(s: seq<Item>, k: nat, x: Item)
    requires k <= |s| && Distinct(s) && x !in s
    ensures
      var r := Inserted(s, k, x);
      |r| == |s| + 1 && Distinct(r) && r[k] == x
      && (forall i {:trigger r[i]} :: 0 <= i < k ==> r[i] == s[i])
      && (forall i {:trigger r[i]} :: k < i < |r| ==> r[i] == s[i - 1])
      && forall y :: y in r ==> y == x || y in s
  {
  }

  lemma ReplacedDistinct(s: seq<Item>, k: nat, x: Item)
    requires k < |s| && Distinct(s) && x !in s
    ensures Distinct(s[k := x])
  {
  }

  ghost function Removed<T>(s: seq<T>, k: nat): seq<T>
    requires k < |s|
  {
    s[..k] + s[k + 1..]
  }

  lemma RemovedAt(s: seq<Item>, k: nat)
    requires k < |s| && Distinct(s)
    ensures
      var r := Removed(s, k);
      |r| == |s| - 1 && Distinct(r) && s[k] !in r
      && (forall i {:trigger r[i]} :: 0 <= i < k ==> r[i] == s[i])
      && (forall i {:trigger r[i]} :: k <= i < |r| ==> r[i] == s[i + 1])
      && forall y :: y in r ==> y in s
  {
  }

  ghost predicate Distinct(nodes: seq<Item>) {
    forall i, j :: 0 <= i < j < |nodes| ==> nodes[i] != nodes[j]
  }

  /** `next` leads through the nodes to null, and `prev` back; nothing is said of the first `prev`. */
  ghost predicate Chained(nodes: seq<Item>)
    reads nodes
  {
    && (forall i {:trigger nodes[i].next} :: 0 <= i < |nodes| ==> nodes[i].next == From(nodes, i + 1))
    && (forall i {:trigger nodes[i].prev} :: 0 < i < |nodes| ==> nodes[i].prev == From(nodes, i - 1))
  }

  /** What `prev` of the node at `i` is in a child list. */
  ghost function Before(nodes: seq<Item>, i: nat): Item
    requires i < |nodes|
  {
    if i == 0 then Last(nodes) else nodes[i - 1]
  }

  /** The links of a child list after `x` was put behind it. */
  ghost predicate LinkedLast(was: seq<Item>, x: Item)
    reads was, x
  {
    && x.next == null && x.prev == (if was == [] then x else Last(was))
    && (forall i {:trigger was[i].next} :: 0 <= i < |was| ==> was[i].next == if i == |was| - 1 then x else From(was, i + 1))
    && (forall i {:trigger was[i].prev} :: 0 <= i < |was| ==> was[i].prev == if i == 0 then x else was[i - 1])
  }

  lemma AppendedChain(was: seq<Item>, x: Item)
    requires x !in was && Distinct(was) && LinkedLast(was, x)
    ensures
      var now := was + [x];
      Distinct(now) && Chained(now) && now[0].prev == Last(now)
  {
    var now := was + [x];
    assert Inserted(was, |was|, x) == now;
    InsertedAt(was, |was|, x);
    hide Distinct, Inserted;
    forall i | 0 <= i < |now|
      ensures now[i].next == From(now, i + 1) && (0 < i ==> now[i].prev == now[i - 1])
    {
      if i < |was| { assert now[i] == was[i]; }
    }
  }

  /** The links of a child list after `x` was put in front of the node at `k`. */
  ghost predicate LinkedBefore(was: seq<Item>, k: nat, x: Item)
    requires k < |was|
    reads was, x
  {
    && x.next == was[k] && x.prev == Before(was, k)
    && (forall i {:trigger was[i].next} :: 0 <= i < |was| ==> was[i].next == if i == k - 1 then x else From(was, i + 1))
    && (forall i {:trigger was[i].prev} :: 0 <= i < |was| ==> was[i].prev == if i == k then x else Before(was, i))
  }

  lemma InsertedChain(was: seq<Item>, k: nat, x: Item)
    requires k < |was| && x !in was && Distinct(was) && LinkedBefore(was, k, x)
    ensures
      var now := Inserted(was, k, x);
      Chained(now) && now[0].prev == Last(now)
  {
    hide Distinct, Inserted;
    var now := Inserted(was, k, x);
    InsertedAt(was, k, x);
    forall i | 0 <= i < |now|
      ensures now[i].next == From(now, i + 1) && (0 < i ==> now[i].prev == now[i - 1])
    {
      if i < k {
        assert now[i] == was[i];
      } else if i > k {
        assert now[i] == was[i - 1];
      }
    }
  }

  /** The links of a child list after the node at `k` was taken out. */
  ghost predicate Unlinked(was: seq<Item>, k: nat)
    requires k < |was|
    reads was
  {
    && (forall i {:trigger was[i].next} :: 0 <= i < |was| && i != k ==>
          was[i].next == if i == k - 1 then From(was, k + 1) else From(was, i + 1))
    && (forall i {:trigger was[i].prev} :: 0 <= i < |was| && i != k ==>
          was[i].prev == if i == k + 1 || (i == 0 && k + 1 == |was|) then Before(was, k) else Before(was, i))
  }

  lemma RemovedChain(was: seq<Item>, k: nat)
    requires k < |was| && Distinct(was) && Unlinked(was, k)
    ensures
      var now := Removed(was, k);
      Chained(now) && (now != [] ==> now[0].prev == Last(now))
  {
    hide Distinct, Removed;
    var now := Removed(was, k);
    RemovedAt(was, k);
    forall i | 0 <= i < |now|
      ensures now[i].next == From(now, i + 1) && (0 < i ==> now[i].prev == now[i - 1])
    {
      if i < k {
        assert now[i] == was[i];
      } else {
        assert now[i] == was[i + 1];
      }
    }
  }

  /** The links of a child list after `x` took the place of the node at `k`. */
  ghost predicate Relinked(was: seq<Item>, k: nat, x: Item)
    requires k < |was|
    reads was, x
  {
    && x.next == From(was, k + 1) && x.prev == (if |was| == 1 then x else Before(was, k))
    && (forall i {:trigger was[i].next} :: 0 <= i < |was| && i != k ==>
          was[i].next == if i == k - 1 then x else From(was, i + 1))
    && (forall i {:trigger was[i].prev} :: 0 <= i < |was| && i != k ==>
          was[i].prev == if i == k + 1 || (i == 0 && k + 1 == |was|) then x else Before(was, i))
  }

  lemma ReplacedChain(was: seq<Item>, k: nat, x: Item)
    requires k < |was| && x !in was && Distinct(was) && Relinked(was, k, x)
    ensures
      var now := was[k := x];
      Chained(now) && now[0].prev == Last(now)
  {
    hide Distinct;
    var now := was[k := x];
    forall i | 0 <= i < |now|
      ensures now[i].next == From(now, i + 1) && (0 < i ==> now[i].prev == now[i - 1])
    {
      if i != k {
        assert now[i] == was[i];
      }
    }
  }

  ghost function Keys(nodes: seq<Item>): (keys: seq<bytes>)
    reads nodes
    ensures |keys| == |nodes| && forall i :: 0 <= i < |nodes| ==> keys[i] == nodes[i].key
  {
    seq(|nodes|, i requires 0 <= i < |nodes| reads nodes => nodes[i].key)
  }

  // ----- cJSON_Duplicate -----

  /** The copies made so far: linked to each other, and `prev` of the first one not set. */
  ghost predicate Copies(done: seq<Item>, nodes: seq<Item>, i: nat)
    reads done, nodes
  {
    i <= |nodes| && |done| == i && Distinct(done) && Chained(done) && Keys(done) == Keys(nodes)[..i]
  }

  /** Puts one more copy behind those made so far. */
  method LinkCopy(next: Item?, newChild: Item, ghost done: seq<Item>, ghost nodes: seq<Item>)
    requires Copies(done, nodes, |done|) && |done| < |nodes| && newChild.key == nodes[|done|].key
    requires next == (if done == [] then null else Last(done)) && newChild !in done && newChild.next == null
    requires newChild !in nodes && forall n :: n in done ==> n !in nodes
    modifies Some(next)`next, newChild`prev
    ensures Copies(done + [newChild], nodes, |done| + 1)
  {
    forall i | 0 <= i < |done| ensures done[i].key == nodes[i].key {
      assert Keys(done)[i] == Keys(nodes)[i];
    }
    hide Keys;
    if next != null {
      next.next := newChild;
      newChild.prev := next;
    }
    KeysMore(done, newChild, nodes);
    DistinctMore(done, newChild);
    ghost var all := done + [newChild];
    hide Distinct;
    assert forall i {:trigger all[i]} :: 0 <= i < |done| ==> all[i] == done[i];
    forall i | 0 <= i < |all| ensures all[i].next == From(all, i + 1) && (0 < i ==> all[i].prev == all[i - 1]) {
    }
  }

  lemma KeysMore(done: seq<Item>, newChild: Item, nodes: seq<Item>)
    requires |done| < |nodes| && newChild.key == nodes[|done|].key
    requires forall i :: 0 <= i < |done| ==> done[i].key == nodes[i].key
    ensures Keys(done + [newChild]) == Keys(nodes)[..|done| + 1]
  {
    var all := done + [newChild];
    forall i | 0 <= i < |all| ensures Keys(all)[i] == Keys(nodes)[i] {
      assert all[i].key == nodes[i].key;
    }
  }

  lemma DistinctMore(done: seq<Item>, newChild: Item)
    requires Distinct(done) && newChild !in done
    ensures Distinct(done + [newChild])
  {
  }

  /**
   * The loop of cJSON_Duplicate over a child list, which follows `next` alone: the copy is a child list with the same
   * names, whatever `prev` of the head was.
   */
  method Duplicate(o: Item) returns (copy: Item)
    requires o.Walkable()
    ensures fresh(copy) && fresh(copy.children) && copy.key == o.key
    ensures copy.Valid() && Keys(copy.children) == Keys(o.children)
  {
    hide Copies, Keys, Distinct, Chained;
    copy := new Item(o.key);
    NoCopies(o.children);
    var child, next: Item?, newChild: Item? := o.child, null, null;
    ghost var done: seq<Item>, i := [], 0;
    while child != null
      invariant i <= |o.children| && child == From(o.children, i)
      invariant Copies(done, o.children, i) && fresh(done) && copy !in done && fresh(copy)
      invariant next == newChild == (if done == [] then null else Last(done))
      invariant copy.child == From(done, 0) && copy.key == o.key
      invariant unchanged(o, o.children)
      decreases |o.children| - i
    {
      NextOf(o.children, i);
      CopiesCount(done, o.children, i);
      newChild := new Item(child.key);
      LinkCopy(next, newChild, done, o.children);
      if next == null { copy.child := newChild; }
      next := newChild;
      child := child.next;
      done, i := done + [newChild], i + 1;
    }
    CloseCopy(copy, newChild, done, o.children);
  }

  /** The end of the loop: `prev` of the head is the tail. */
  method CloseCopy(copy: Item, newChild: Item?, ghost done: seq<Item>, ghost nodes: seq<Item>)
    requires Copies(done, nodes, |nodes|) && copy !in done && copy.child == From(done, 0)
    requires newChild == (if done == [] then null else Last(done)) && forall n :: n in done ==> n !in nodes
    modifies copy`children, Some(copy.child)`prev
    ensures copy.Valid() && copy.children == done && Keys(done) == Keys(nodes) && copy.child == old(copy.child)
  {
    if copy.child != null { copy.child.prev := newChild; }
    copy.children := done;
    assert Keys(nodes)[..|nodes|] == Keys(nodes);
  }

  lemma NoCopies(nodes: seq<Item>)
    ensures Copies([], nodes, 0)
  {
  }

  lemma CopiesCount(done: seq<Item>, nodes: seq<Item>, i: nat)
    requires Copies(done, nodes, i)
    ensures |done| == i <= |nodes|
  {
  }

  lemma NextOf(nodes: seq<Item>, i: nat)
    requires i < |nodes| && Chained(nodes)
    ensures nodes[i].next == From(nodes, i + 1)
  {
  }
}
