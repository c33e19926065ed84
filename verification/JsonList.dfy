/** The child lists of cJSON.c: singly ended forward, with the tail in head.prev. */
module JsonList {
  import opened Sequences

  class Item {
    var next: Item?
    var prev: Item?
    var child: Item?

    constructor ()
      ensures next == null && prev == null && child == null
    {
      next, prev, child := null, null, null;
    }
  }

  /** xs are the children of parent, in order. */
  ghost predicate Children(parent: Item, xs: seq<Item>)
    reads parent, xs
  {
    && parent !in xs && Distinct(xs)
    && parent.child == (if xs == [] then null else xs[0])
    && (forall i {:trigger xs[i].next} :: 0 <= i < |xs| ==> xs[i].next == if i + 1 == |xs| then null else xs[i + 1])
    && (forall i {:trigger xs[i].prev} :: 0 <= i < |xs| ==> xs[i].prev == if i == 0 then xs[|xs| - 1] else xs[i - 1])
  }

  ghost predicate Detached(x: Item)
    reads x
  {
    x.next == null && x.prev == null
  }

  method AddItemToArray(parent: Item, item: Item?, ghost xs: seq<Item>) returns (ok: bool)
    requires Children(parent, xs) && (item != null && item != parent ==> item !in xs && Detached(item))
    modifies parent`child, xs`next, xs`prev, item
    ensures ok <==> item != null && item != parent
    ensures Children(parent, if ok then xs + [item] else xs)
  {
    if item == null || parent == item {
      return false;
    }
    var child := parent.child;
    if child == null {
      parent.child := item;
      item.prev := item;
      item.next := null;
    } else if child.prev != null {
      child.prev.next := item;
      item.prev := child.prev;
      parent.child.prev := item;
    }
    ok := true;
  }

  method GetArrayItem(parent: Item, which: nat, ghost xs: seq<Item>) returns (x: Item?)
    requires Children(parent, xs)
    ensures x == if which < |xs| then xs[which] else null
  {
    x := parent.child;
    var index := which;
    ghost var i: nat := 0;
    while x != null && index > 0
      invariant i <= |xs| && i + index == which && x == if i < |xs| then xs[i] else null
      invariant index >= 0
      decreases index
    {
      index := index - 1;
      x := x.next;
      i := i + 1;
    }
  }

  method DetachItem(parent: Item, item: Item?, ghost xs: seq<Item>, ghost i: nat) returns (r: Item?)
    requires Children(parent, xs) && (item != null ==> i < |xs| && xs[i] == item)
    modifies parent`child, xs`next, xs`prev
    ensures r == item
    ensures item == null ==> Children(parent, xs)
    ensures item != null ==> Children(parent, Removed(xs, i)) && Detached(item)
  {
    if item == null || (item != parent.child && item.prev == null) {
      return null;
    }
    Unlink(parent, item, xs, i);
    item.prev := null;
    item.next := null;
    r := item;
  }

  method Unlink(parent: Item, item: Item, ghost xs: seq<Item>, ghost i: nat)
    requires Children(parent, xs) && i < |xs| && xs[i] == item
    modifies parent`child, xs`next, xs`prev
    ensures Children(parent, Removed(xs, i))
  {
    RemovedDistinct(xs, i);
    RemovedMembers(xs, i);
    hide Removed;
    if item != parent.child {
      item.prev.next := item.next;
    }
    if item.next != null {
      item.next.prev := item.prev;
    }
    if item == parent.child {
      parent.child := item.next;
    } else if item.next == null {
      parent.child.prev := item.prev;
    }
  }

  /** The source does not refuse to make an item its own child, except where it
      appends: with item == parent the call does no harm exactly if the position is
      negative or past the end, and otherwise leaves something that is no child list
      (OwnChild). */
  method InsertItemInArray(parent: Item, which: int, item: Item?, ghost xs: seq<Item>) returns (ok: bool)
    requires Children(parent, xs) && (item != null && item != parent ==> item !in xs && Detached(item))
    modifies parent, xs, item
    ensures item != parent ==> (ok <==> which >= 0 && item != null)
    ensures item != parent ==>
              Children(parent, if !ok then xs else if which < |xs| then Inserted(xs, which, item) else xs + [item])
    ensures item == parent ==> (ok <==> 0 <= which < |xs|)
    ensures item == parent ==> if ok then ReachesItself(parent, xs, which) else Children(parent, xs)
  {
    if which < 0 || item == null {
      return false;
    }
    var after := GetArrayItem(parent, which, xs);
    if after == null {
      ok := AddItemToArray(parent, item, xs);
      return;
    }
    if after != parent.child && after.prev == null {
      return false;
    }
    LinkBefore(parent, after, item, xs, which);
    ok := true;
  }

  /** From parent.child, p steps along xs lead to parent. */
  ghost predicate ReachesItself(parent: Item, xs: seq<Item>, p: nat)
    reads parent, xs
  {
    && p <= |xs|
    && parent.child == (if p == 0 then parent else xs[0])
    && (forall k {:trigger xs[k].next} :: 0 <= k < p - 1 ==> xs[k].next == xs[k + 1])
    && (p > 0 ==> xs[p - 1].next == parent)
  }

  /** Then no sequence is the child list of parent. */
  lemma OwnChild(parent: Item, xs: seq<Item>, p: nat, ys: seq<Item>)
    requires ReachesItself(parent, xs, p)
    ensures !Children(parent, ys)
  {
    if Children(parent, ys) && p > 0 {
      SameStart(parent, xs, p, ys, p - 1);
    }
  }

  lemma {:induction false} SameStart(parent: Item, xs: seq<Item>, p: nat, ys: seq<Item>, k: nat)
    requires k < p <= |xs| && parent.child == xs[0] && Children(parent, ys)
    requires forall j {:trigger xs[j].next} :: 0 <= j < p - 1 ==> xs[j].next == xs[j + 1]
    ensures k < |ys| && ys[k] == xs[k]
  {
    if k > 0 {
      SameStart(parent, xs, p, ys, k - 1);
      assert ys[k - 1].next == xs[k];
    }
  }

  /** The links of item and of the children xs, once it is linked in before xs[p]. */
  ghost predicate LinkedIn(item: Item, xs: seq<Item>, p: nat)
    requires p < |xs|
    reads item, xs
  {
    && item.next == xs[p] && item.prev == (if p == 0 then xs[|xs| - 1] else xs[p - 1])
    && (forall i {:trigger xs[i].next} :: 0 <= i < |xs| ==>
          xs[i].next == if i + 1 == |xs| then null else if i + 1 == p then item else xs[i + 1])
    && (forall i {:trigger xs[i].prev} :: 0 <= i < |xs| ==>
          xs[i].prev == if i == p then item else if i == 0 then xs[|xs| - 1] else xs[i - 1])
  }

  lemma OneMoreChild(parent: Item, item: Item, xs: seq<Item>, p: nat)
    requires p < |xs| && Distinct(xs) && item !in xs && parent !in xs && parent != item && LinkedIn(item, xs, p)
    requires parent.child == if p == 0 then item else xs[0]
    ensures Children(parent, Inserted(xs, p, item))
  {
    InsertedDistinct(xs, p, item);
    InsertedMembers(xs, p, item);
    hide Inserted;
    hide Distinct;
  }

  method LinkBefore(parent: Item, after: Item, item: Item, ghost xs: seq<Item>, ghost p: nat)
    requires Children(parent, xs) && p < |xs| && xs[p] == after && item !in xs
    modifies parent`child, xs`next, xs`prev, item`next, item`prev
    ensures item != parent ==> Children(parent, Inserted(xs, p, item))
    ensures item == parent ==> ReachesItself(parent, xs, p)
  {
    hide Inserted;
    item.next := after;
    item.prev := after.prev;
    after.prev := item;
    if after == parent.child {
      parent.child := item;
    } else {
      item.prev.next := item;
    }
    if item != parent {
      OneMoreChild(parent, item, xs, p);
    }
  }

  /** Here too an item can be made its own child: with replacement == parent the call
      does no harm exactly if there is nothing to replace. */
  method ReplaceItem(parent: Item, item: Item?, replacement: Item?, ghost xs: seq<Item>, ghost i: nat)
    returns (ok: bool)
    requires Children(parent, xs) && (item != null ==> i < |xs| && xs[i] == item)
    requires replacement != null ==> replacement == item || replacement !in xs
    modifies parent, xs, replacement
    ensures ok <==> item != null && replacement != null
    ensures replacement != parent ==> Children(parent, if ok then xs[i := replacement] else xs)
    ensures replacement == parent ==> if ok then ReachesItself(parent, xs, i) else Children(parent, xs)
    ensures ok && replacement != item ==> Detached(item)
  {
    if parent.child == null || replacement == null || item == null {
      return false;
    }
    if replacement == item {
      return true;
    }
    Exchange(parent, item, replacement, xs, i);
    item.next := null;
    item.prev := null;
    ok := true;
  }

  method Exchange(parent: Item, item: Item, replacement: Item, ghost xs: seq<Item>, ghost i: nat)
    requires Children(parent, xs) && i < |xs| && xs[i] == item && replacement !in xs
    modifies parent`child, xs`next, xs`prev, replacement`next, replacement`prev
    ensures replacement != parent ==> Children(parent, xs[i := replacement])
    ensures replacement == parent ==> ReachesItself(parent, xs, i)
  {
    replacement.next := item.next;
    replacement.prev := item.prev;
    if replacement.next != null {
      replacement.next.prev := replacement;
    }
    if parent.child == item {
      if parent.child.prev == parent.child {
        replacement.prev := replacement;
      }
      parent.child := replacement;
    } else {
      if replacement.prev != null {
        replacement.prev.next := replacement;
      }
      if replacement.next == null {
        parent.child.prev := replacement;
      }
    }
  }
}
