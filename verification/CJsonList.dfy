/** The doubly linked list of an item's children, with the head's `prev` pointing at the tail. */
module CJsonList {
  import opened Ebpf

  function RemoveAt<T>(s: seq<T>, i: nat): seq<T>
    requires i < |s|
  {
    s[..i] + s[i + 1..]
  }

  function InsertAt<T>(s: seq<T>, i: nat, x: T): seq<T>
    requires i <= |s|
  {
    s[..i] + [x] + s[i..]
  }

  class Item {
    var next: Item?
    var prev: Item?
    var child: Item?
    /** The children in order; what the pointers stand for. */
    ghost var children: seq<Item>

    constructor ()
      ensures Valid() && Detached() && children == []
    {
      next, prev, child := null, null, null;
      children := [];
    }

    /** Not linked into any list. */
    ghost predicate Detached()
      reads this
    {
      next == null && prev == null
    }

    /** The heap invariant: the pointers spell out `children`. */
    ghost predicate Valid()
      reads this, children
    {
      this !in children && Linked(child, children)
    }

    /**
     * Forward from head to null, backward from each item to the one before, from the head to the tail; no item twice.
     */
    static ghost predicate Linked(head: Item?, s: seq<Item>)
      reads s
    {
      && (if s == [] then head == null else head == s[0] && s[0].prev == s[|s| - 1] && s[|s| - 1].next == null)
      && (forall i :: 0 <= i < |s| - 1 ==> s[i].next == s[i + 1])
      && (forall i :: 0 < i < |s| ==> s[i].prev == s[i - 1])
      && (forall i, j :: 0 <= i < j < |s| ==> s[i] != s[j])
    }

    static ghost predicate Distinct(s: seq<Item>)
    {
      forall i, j :: 0 <= i < j < |s| ==> s[i] != s[j]
    }

    /** The pointers around position `at` skip it: the list without that item is linked. */
    static lemma RemoveLinked(head: Item?, s: seq<Item>, at: nat)
      requires at < |s| && Distinct(s)
      requires head == if |s| == 1 then null else if at == 0 then s[1] else s[0]
      requires forall i :: 0 <= i < |s| - 1 && i != at && i != at - 1 ==> s[i].next == s[i + 1]
      requires forall i :: 0 < i < |s| && i != at && i != at + 1 ==> s[i].prev == s[i - 1]
      requires 0 < at < |s| - 1 ==> s[at - 1].next == s[at + 1] && s[at + 1].prev == s[at - 1]
      requires 0 < at == |s| - 1 ==> s[at - 1].next == null && s[0].prev == s[at - 1]
      requires at < |s| - 1 ==> s[|s| - 1].next == null && (if at == 0 then s[1].prev else s[0].prev) == s[|s| - 1]
      ensures Linked(head, RemoveAt(s, at))
    {
      var t := RemoveAt(s, at);
      assert forall i :: 0 <= i < at ==> t[i] == s[i];
      assert forall i :: at <= i < |t| ==> t[i] == s[i + 1];
      forall i | 0 <= i < |t| - 1
        ensures t[i].next == t[i + 1] && t[i + 1].prev == t[i]
      {
      }
      forall i | 0 < i < |t|
        ensures t[i].prev == t[i - 1]
      {
      }
    }

    /** `x` is linked in front of position `at`. */
    static lemma InsertLinked(head: Item?, s: seq<Item>, at: nat, x: Item)
      requires at < |s| && Distinct(s) && x !in s
      requires head == if at == 0 then x else s[0]
      requires forall i :: 0 <= i < |s| - 1 && i != at - 1 ==> s[i].next == s[i + 1]
      requires forall i :: 0 < i < |s| && i != at ==> s[i].prev == s[i - 1]
      requires s[|s| - 1].next == null && x.next == s[at] && s[at].prev == x
      requires at > 0 ==> s[at - 1].next == x && x.prev == s[at - 1] && s[0].prev == s[|s| - 1]
      requires at == 0 ==> x.prev == s[|s| - 1]
      ensures Linked(head, InsertAt(s, at, x))
    {
      var t := InsertAt(s, at, x);
      assert forall i :: 0 <= i < at ==> t[i] == s[i];
      assert t[at] == x;
      assert forall i :: at < i < |t| ==> t[i] == s[i - 1];
      forall i | 0 <= i < |t| - 1
        ensures t[i].next == t[i + 1]
      {
      }
      forall i | 0 < i < |t|
        ensures t[i].prev == t[i - 1]
      {
      }
    }

    /** `x` is linked in the place of the item at `at`. */
    static lemma ReplaceLinked(head: Item?, s: seq<Item>, at: nat, x: Item)
      requires at < |s| && Distinct(s) && x !in s
      requires head == if at == 0 then x else s[0]
      requires forall i :: 0 <= i < |s| - 1 && i != at && i != at - 1 ==> s[i].next == s[i + 1]
      requires forall i :: 0 < i < |s| && i != at && i != at + 1 ==> s[i].prev == s[i - 1]
      requires at > 0 ==> s[at - 1].next == x && x.prev == s[at - 1]
      requires if at < |s| - 1 then x.next == s[at + 1] && s[at + 1].prev == x && s[|s| - 1].next == null
        else x.next == null
      requires at == 0 ==> x.prev == if |s| == 1 then x else s[|s| - 1]
      requires at > 0 ==> s[0].prev == if at == |s| - 1 then x else s[|s| - 1]
      ensures Linked(head, s[at := x])
    {
      var t := s[at := x];
      forall i | 0 <= i < |t| - 1
        ensures t[i].next == t[i + 1]
      {
      }
      forall i | 0 < i < |t|
        ensures t[i].prev == t[i - 1]
      {
      }
    }

    method GetArraySize() returns (size: nat)
      requires Valid()
      ensures size == |children|
    {
      size := 0;
      var current := child;
      while current != null
        invariant size <= |children| && current == (if size < |children| then children[size] else null)
        decreases |children| - size
      {
        assert current == children[size];
        size := size + 1;
        current := current.next;
      }
    }

    method GetArrayItem(index: int) returns (item: Item?)
      requires Valid()
      ensures item == if 0 <= index < |children| then children[index] else null
    {
      if index < 0 {
        return null;
      }
      var left := index;
      item := child;
      while item != null && left > 0
        invariant 0 <= left <= index
        invariant item == if index - left < |children| then children[index - left] else null
        decreases left
      {
        left := left - 1;
        item := item.next;
      }
    }

    /** Append. An item cannot be added to itself. */
    method AddItemToArray(item: Item?) returns (ok: bool)
      requires Valid() && (item != null && item != this ==> item.Detached() && item !in children)
      modifies this, children, item
      ensures Valid() && ok == (item != null && item != this)
      ensures children == if ok then old(children) + [item] else old(children)
      ensures forall x :: x in children ==> x.child == old(x.child) && x.children == old(x.children)
    {
      if item == null || item == this {
        return false;
      }
      ghost var s := children;
      assert s != [] ==> child == s[0] && child.prev == s[|s| - 1];
      if child == null {
        child := item;
        item.prev := item;
        item.next := null;
      } else if child.prev != null {
        child.prev.next := item;
        item.prev := child.prev;
        child.prev := item;
      }
      children := s + [item];
      return true;
    }

    /** Take an item out of the list; it ends up detached. */
    method DetachItemViaPointer(item: Item?, ghost at: nat) returns (r: Item?)
      requires Valid() && (item != null ==> at < |children| && children[at] == item)
      modifies this, children
      ensures Valid() && r == item
      ensures item == null ==> children == old(children)
      ensures item != null ==> item.Detached() && children == RemoveAt(old(children), at)
    {
      if item == null {
        return null;
      }
      ghost var s, n := children, |children|;
      assert item == s[at] && child == s[0];
      if at > 0 {
        assert s[0] != s[at] && item.prev == s[at - 1];
      }
      if at + 1 < n {
        assert item.next == s[at + 1];
      }
      if item != child {
        item.prev.next := item.next;
      }
      if item.next != null {
        item.next.prev := item.prev;
      }
      if item == child {
        child := item.next;
      } else if item.next == null {
        child.prev := item.prev;
      }
      item.prev := null;
      item.next := null;
      children := RemoveAt(s, at);
      Item.RemoveLinked(child, s, at);
      return item;
    }

    method DetachItemFromArray(which: int) returns (r: Item?)
      requires Valid()
      modifies this, children
      ensures Valid()
      ensures if 0 <= which < |old(children)| then
                r == old(children)[which] && r.Detached() && children == RemoveAt(old(children), which)
              else
                r == null && children == old(children)
    {
      if which < 0 {
        return null;
      }
      var item := GetArrayItem(which);
      r := DetachItemViaPointer(item, which);
    }

    /** Link `newitem` in front of `after`. */
    method InsertBefore(after: Item, newitem: Item, ghost at: nat)
      requires Valid() && newitem != this && newitem !in children && at < |children| && children[at] == after
      modifies this, children, newitem
      ensures Valid() && children == InsertAt(old(children), at, newitem)
    {
      ghost var s := children;
      assert after == s[at] && child == s[0];
      if at > 0 {
        assert s[0] != s[at] && after.prev == s[at - 1];
      }
      newitem.next := after;
      newitem.prev := after.prev;
      after.prev := newitem;
      if after == child {
        child := newitem;
      } else {
        newitem.prev.next := newitem;
      }
      children := InsertAt(s, at, newitem);
      Item.InsertLinked(child, s, at, newitem);
    }

    /** Insert in front of position `which`; past the end that is an append. */
    method InsertItemInArray(which: int, newitem: Item) returns (ok: bool)
      requires Valid() && newitem != this && newitem.Detached() && newitem !in children
      modifies this, children, newitem
      ensures Valid() && ok == (which >= 0) && (!ok ==> newitem.Detached())
      ensures children ==
        if which < 0 then old(children)
        else InsertAt(old(children), if which < |old(children)| then which else |old(children)|, newitem)
    {
      if which < 0 {
        return false;
      }
      var after := GetArrayItem(which);
      if after == null {
        ok := AddItemToArray(newitem);
      } else {
        InsertBefore(after, newitem, which);
        ok := true;
      }
    }

    /**
     * Put `replacement` where `item` is; `item` is given up. It has no links when it is deleted, and no pointer of the
     * list leads to it.
     */
    method ReplaceItemViaPointer(item: Item?, replacement: Item?, ghost at: nat) returns (ok: bool)
      requires Valid() && (item != null ==> at < |children| && children[at] == item)
      requires replacement != null && replacement != item ==>
        replacement != this && replacement.Detached() && replacement !in children
      modifies this, children, replacement
      ensures Valid() && ok == (item != null && replacement != null)
      ensures children == if ok then old(children)[at := replacement] else old(children)
      ensures ok && replacement != item ==> item.Detached() && item !in children
      ensures !ok && replacement != null ==>
        replacement.next == old(replacement.next) && replacement.prev == old(replacement.prev)
    {
      if replacement == null || item == null {
        return false;
      }
      if replacement == item {
        return true;
      }
      ghost var s, n := children, |children|;
      assert item == s[at] && child == s[0];
      if at > 0 {
        assert s[0] != s[at] && item.prev == s[at - 1];
      }
      if at + 1 < n {
        assert item.next == s[at + 1];
      }
      replacement.next := item.next;
      replacement.prev := item.prev;
      if replacement.next != null {
        replacement.next.prev := replacement;
      }
      if child == item {
        if child.prev == child {
          replacement.prev := replacement;
        }
        child := replacement;
      } else {
        if replacement.prev != null {
          replacement.prev.next := replacement;
        }
        if replacement.next == null {
          child.prev := replacement;
        }
      }
      item.next := null;
      item.prev := null;
      children := s[at := replacement];
      Item.ReplaceLinked(child, s, at, replacement);
      return true;
    }

    method ReplaceItemInArray(which: int, newitem: Item) returns (ok: bool)
      requires Valid() && newitem != this && newitem.Detached() && newitem !in children
      modifies this, children, newitem
      ensures Valid() && ok == (0 <= which < |old(children)|) && (!ok ==> newitem.Detached())
      ensures children == if ok then old(children)[which := newitem] else old(children)
      ensures ok ==> old(children)[which].Detached() && old(children)[which] !in children
    {
      if which < 0 {
        return false;
      }
      var item := GetArrayItem(which);
      ok := ReplaceItemViaPointer(item, newitem, which);
    }
  }

  // ----- any sequence of calls -----

  datatype Call =
    | Append(item: Item)
    | Detach(which: int)
    | Insert(which: int, item: Item)
    | Replace(which: int, item: Item)

  /** What a call does to the sequence of children. */
  function Effect(s: seq<Item>, c: Call): seq<Item>
  {
    match c
    case Append(x) => s + [x]
    case Detach(i) => if 0 <= i < |s| then RemoveAt(s, i) else s
    case Insert(i, x) => if i < 0 then s else if i < |s| then InsertAt(s, i, x) else s + [x]
    case Replace(i, x) => if 0 <= i < |s| then s[i := x] else s
  }

  /** What each call makes of the list, item by item. */
  lemma EffectMeans(s: seq<Item>, c: Call, k: nat)
    ensures var r, n := Effect(s, c), |s|;
      match c
      case Append(x) => |r| == n + 1 && (k < n ==> r[k] == s[k]) && r[n] == x
      case Detach(i) =>
        if 0 <= i < n then |r| == n - 1 && (k < n - 1 ==> r[k] == s[if k < i then k else k + 1]) else r == s
      case Insert(i, x) =>
        if i < 0 then r == s
        else
          var at := if i < n then i else n;
          && |r| == n + 1 && (k < at ==> r[k] == s[k]) && r[at] == x && (at < k < n + 1 ==> r[k] == s[k - 1])
      case Replace(i, x) =>
        if 0 <= i < n then |r| == n && (k < n ==> r[k] == if k == i then x else s[k]) else r == s
  {
  }

  function Effects(s: seq<Item>, calls: seq<Call>): seq<Item>
    decreases |calls|
  {
    if calls == [] then s else Effects(Effect(s, calls[0]), calls[1..])
  }

  /** The items that are left after a call: replacing an item deletes it. */
  function Remaining(s: seq<Item>, c: Call, pool: set<Item>): set<Item>
  {
    if c.Replace? && 0 <= c.which < |s| then pool - {s[c.which]} else pool
  }

  lemma RemainingMeans(s: seq<Item>, c: Call, pool: set<Item>, x: Item)
    ensures x in Remaining(s, c, pool) <==>
      x in pool && forall i :: 0 <= i < |s| && s[i] == x ==> !(c.Replace? && c.which == i)
  {
  }

  function RemainingAfter(s: seq<Item>, calls: seq<Call>, pool: set<Item>): set<Item>
    decreases |calls|
  {
    if calls == [] then pool else RemainingAfter(Effect(s, calls[0]), calls[1..], Remaining(s, calls[0], pool))
  }

  /** Every item handed to a call is left in the pool, so it was not deleted, and is not in the list at that time. */
  predicate Legal(s: seq<Item>, calls: seq<Call>, pool: set<Item>)
    decreases |calls|
  {
    calls == [] || (
      && (!calls[0].Detach? ==> calls[0].item in pool && calls[0].item !in s)
      && Legal(Effect(s, calls[0]), calls[1..], Remaining(s, calls[0], pool)))
  }

  /** The list is well formed, and every item of the pool is in it or detached. */
  ghost predicate HeapOk(parent: Item, pool: set<Item>)
    reads parent, parent.children, pool
  {
    && parent.Valid() && parent !in pool && (forall x :: x in parent.children ==> x in pool)
    && (forall x :: x in pool ==> x in parent.children || x.Detached())
  }

  lemma InsertMembers(s: seq<Item>, i: nat, x: Item)
    requires i <= |s|
    ensures forall y :: y in InsertAt(s, i, x) <==> y in s || y == x
  {
    assert s == s[..i] + s[i..];
  }

  lemma ReplaceMembers(s: seq<Item>, i: nat, x: Item)
    requires i < |s|
    ensures forall y :: y in s && y != s[i] ==> y in s[i := x]
    ensures forall y :: y in s[i := x] ==> y in s || y == x
    ensures x !in s && Item.Distinct(s) ==> s[i] !in s[i := x]
  {
    forall y | y in s && y != s[i]
      ensures y in s[i := x]
    {
      var k :| 0 <= k < |s| && s[k] == y;
      assert s[i := x][k] == y;
    }
  }

  method Perform(parent: Item, c: Call, ghost pool: set<Item>)
    requires HeapOk(parent, pool) && (!c.Detach? ==> c.item in pool && c.item !in parent.children)
    modifies parent, pool
    ensures HeapOk(parent, Remaining(old(parent.children), c, pool))
    ensures parent.children == Effect(old(parent.children), c)
  {
    hide HeapOk, Effect, Remaining;
    match c {
      case Append(x) => PerformAppend(parent, x, pool);
      case Detach(i) => PerformDetach(parent, i, pool);
      case Insert(i, x) => PerformInsert(parent, i, x, pool);
      case Replace(i, x) => PerformReplace(parent, i, x, pool);
    }
  }

  method PerformAppend(parent: Item, x: Item, ghost pool: set<Item>)
    requires HeapOk(parent, pool) && x in pool && x !in parent.children
    modifies parent, pool
    ensures HeapOk(parent, Remaining(old(parent.children), Append(x), pool))
    ensures parent.children == Effect(old(parent.children), Append(x))
  {
    var _ := parent.AddItemToArray(x);
  }

  method PerformDetach(parent: Item, i: int, ghost pool: set<Item>)
    requires HeapOk(parent, pool)
    modifies parent, pool
    ensures HeapOk(parent, Remaining(old(parent.children), Detach(i), pool))
    ensures parent.children == Effect(old(parent.children), Detach(i))
  {
    var _ := parent.DetachItemFromArray(i);
  }

  method PerformInsert(parent: Item, i: int, x: Item, ghost pool: set<Item>)
    requires HeapOk(parent, pool) && x in pool && x !in parent.children
    modifies parent, pool
    ensures HeapOk(parent, Remaining(old(parent.children), Insert(i, x), pool))
    ensures parent.children == Effect(old(parent.children), Insert(i, x))
  {
    var _ := parent.InsertItemInArray(i, x);
    ghost var s := old(parent.children);
    if i >= 0 {
      InsertMembers(s, if i < |s| then i else |s|, x);
    }
  }

  method PerformReplace(parent: Item, i: int, x: Item, ghost pool: set<Item>)
    requires HeapOk(parent, pool) && x in pool && x !in parent.children
    modifies parent, pool
    ensures HeapOk(parent, Remaining(old(parent.children), Replace(i, x), pool))
    ensures parent.children == Effect(old(parent.children), Replace(i, x))
  {
    var _ := parent.ReplaceItemInArray(i, x);
    ghost var s := old(parent.children);
    if 0 <= i < |s| {
      ReplaceMembers(s, i, x);
      assert x in parent.children by { assert parent.children[i] == x; }
      assert s[i].Detached();
      forall y | y in pool
        ensures y in parent.children || y.Detached()
      {
        if y !in s && y != x {
          assert old(y.Detached());
        }
      }
    }
  }

  /**
   * Over any sequence of calls with detached items that were not deleted before, the list is what the calls say, and
   * the heap invariant holds of the items that are left: neither the list nor any of them leads to a deleted one.
   */
  method PerformAll(parent: Item, calls: seq<Call>, ghost pool: set<Item>)
    requires HeapOk(parent, pool) && Legal(parent.children, calls, pool)
    modifies parent, pool
    ensures HeapOk(parent, RemainingAfter(old(parent.children), calls, pool))
    ensures parent.children == Effects(old(parent.children), calls)
  {
    hide HeapOk;
    ghost var left := pool;
    for k := 0 to |calls|
      invariant left <= pool && HeapOk(parent, left) && Legal(parent.children, calls[k..], left)
      invariant Effects(old(parent.children), calls) == Effects(parent.children, calls[k..])
      invariant RemainingAfter(old(parent.children), calls, pool) == RemainingAfter(parent.children, calls[k..], left)
    {
      assert calls[k..][1..] == calls[k + 1..];
      ghost var s := parent.children;
      Perform(parent, calls[k], left);
      left := Remaining(s, calls[k], left);
    }
  }
}
