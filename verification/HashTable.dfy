/** The hash table of hash.c: one doubly linked list, of which each bucket is a run. */
module HashTable {
  import opened Options
  import opened HashRuns
  import opened Sequences

  /** What the allocator answers: the number of bucket slots it hands out, zero if
      it fails; and whether there is room for a new element. */
  datatype Malloc = Malloc(slots: nat, element: bool)

  /** The bucket array is kept within SQLITE_MALLOC_SOFT_LIMIT, 1024 bytes. */
  const SOFT_SLOTS: nat := 64

  function Lookup<V>(m: map<Key, V>, k: Key): Option<V> {
    if k in m then Some(m[k]) else None
  }

  /** Distinct elements with different keys are as many as their keys. */
  lemma {:induction false} OnePerKey<V>(list: seq<HashElem<V>>, ks: set<Key>)
    requires forall i :: 0 <= i < |list| ==> Folded(list[i].key) in ks
    requires forall k :: k in ks ==> exists i :: 0 <= i < |list| && Folded(list[i].key) == k
    requires forall i, j :: 0 <= i < j < |list| ==> Folded(list[i].key) != Folded(list[j].key)
    ensures |ks| == |list|
  {
    if list == [] {
      assert ks == {};
    } else {
      var n := |list| - 1;
      var last := Folded(list[n].key);
      forall k | k in ks - {last}
        ensures exists i :: 0 <= i < n && Folded(list[..n][i].key) == k
      {
        var i :| 0 <= i < |list| && Folded(list[i].key) == k;
        assert list[..n][i] == list[i];
      }
      OnePerKey(list[..n], ks - {last});
    }
  }

  lemma DealtOut<V>(was: seq<HashElem<V>>, i: nat, list: seq<HashElem<V>>)
    requires Distinct(was) && i < |was| && forall e :: e in list <==> e in was[..i]
    ensures was[i] !in list
    ensures forall j :: i < j < |was| ==> was[j] !in list && was[j] != was[i]
  {
  }

  ghost predicate SameMembers<T>(s: seq<T>, r: seq<T>) {
    && (forall i {:trigger s[i]} :: 0 <= i < |s| ==> s[i] in r)
    && (forall i {:trigger r[i]} :: 0 <= i < |r| ==> r[i] in s)
  }

  /** `found` gives for every folded key the one element of the list with that key. */
  ghost predicate Keyed<V>(list: seq<HashElem<V>>, found: map<Key, HashElem<V>>)
    reads list
  {
    && (forall e {:trigger e in list} :: e in list ==>
          e.h == HashOf(e.key) && Folded(e.key) in found && found[Folded(e.key)] == e)
    && (forall k {:trigger found[k]} :: k in found ==> found[k] in list && Folded(found[k].key) == k)
  }

  ghost function DataOf<V>(found: map<Key, HashElem<V>>): map<Key, V>
    reads found.Values
  {
    map k | k in found :: found[k].data
  }

  lemma DataIs<V>(found: map<Key, HashElem<V>>, m: map<Key, V>)
    requires m.Keys == found.Keys && forall k {:trigger found[k]} :: k in found ==> found[k].data == m[k]
    ensures DataOf(found) == m
  {
  }

  lemma DataOfUpdate<V>(found: map<Key, HashElem<V>>, k: Key, x: HashElem<V>)
    ensures DataOf(found[k := x]) == DataOf(found)[k := x.data]
  {
  }

  lemma KeyedAfterRemove<V>(list: seq<HashElem<V>>, found: map<Key, HashElem<V>>, p: nat, k: Key)
    requires Keyed(list, found) && Distinct(list) && p < |list| && k in found && found[k] == list[p]
    ensures Keyed(Removed(list, p), found - {k})
    ensures |list| == 1 ==> found - {k} == map[]
  {
    RemovedMembers(list, p);
    hide Removed;
    hide Folded;
    hide HashOf;
  }

  lemma KeyedReordered<V>(list: seq<HashElem<V>>, list': seq<HashElem<V>>, found: map<Key, HashElem<V>>)
    requires Keyed(list, found) && SameMembers(list', list)
    ensures Keyed(list', found)
  {
  }

  lemma KeyedAfterInsert<V>(list: seq<HashElem<V>>, found: map<Key, HashElem<V>>, p: nat, x: HashElem<V>)
    requires Keyed(list, found) && p <= |list| && x.h == HashOf(x.key) && Folded(x.key) !in found
    ensures Keyed(Inserted(list, p, x), found[Folded(x.key) := x])
  {
    InsertedMembers(list, p, x);
  }

  class Hash<V> {
    var htsize: nat
    var count: nat
    var first: HashElem?<V>
    var ht: seq<Bucket<V>>

    ghost var list: seq<HashElem<V>>
    ghost var starts: seq<nat>
    ghost var found: map<Key, HashElem<V>>

    // ----------------------------------------------------------------- invariant

    ghost predicate Linked()
      reads this, list
    {
      && Distinct(list)
      && first == (if list == [] then null else list[0])
      && (forall i {:trigger list[i].prev} :: 0 <= i < |list| ==> list[i].prev == if i == 0 then null else list[i - 1])
      && (forall i {:trigger list[i].next} :: 0 <= i < |list| ==>
            list[i].next == if i + 1 == |list| then null else list[i + 1])
    }

    ghost predicate Bucketed()
      reads this
    {
      |ht| == htsize && BucketsOk(list, ht, starts)
    }

    ghost predicate Valid()
      reads this, list
    {
      Linked() && Bucketed() && Keyed(list, found) && count == |list|
    }

    /** The table as a map on case-folded keys. */
    ghost function Contents(): map<Key, V>
      requires Valid()
      reads this, list
    {
      DataOf(found)
    }

    /** One element for every key. */
    lemma CountIsSize()
      requires Valid()
      ensures count == |Contents()|
    {
      var ks := set k | k in found;
      assert Contents().Keys == ks;
      forall i | 0 <= i < |list|
        ensures Folded(list[i].key) in found && found[Folded(list[i].key)] == list[i]
      {
        assert list[i] in list;
      }
      forall k | k in ks
        ensures exists i :: 0 <= i < |list| && Folded(list[i].key) == k
      {
        assert found[k] in list;
      }
      OnePerKey(list, ks);
    }

    constructor ()
      ensures Valid() && list == [] && Contents() == map[]
    {
      htsize, count, first, ht := 0, 0, null, [];
      list, starts, found := [], [], map[];
    }

    method Clear()
      modifies this
      ensures Valid() && Contents() == map[] && list == []
    {
      htsize, count, first, ht := 0, 0, null, [];
      list, starts, found := [], [], map[];
    }

    // ------------------------------------------------------------- list surgery

    /** Link x in before pHead, or at the front. */
    method Link(pHead: HashElem?<V>, x: HashElem<V>, ghost p: nat)
      requires Linked() && x !in list && p <= |list|
      requires if pHead == null then p == 0 else p < |list| && list[p] == pHead
      modifies this`first, this`list, list`next, list`prev, x`next, x`prev
      ensures Linked() && list == Inserted(old(list), p, x)
    {
      if pHead != null {
        LinkBefore(pHead, x, p);
      } else {
        x.next := first;
        if first != null {
          first.prev := x;
        }
        x.prev := null;
        first := x;
        list := Inserted(list, p, x);
      }
    }

    /** The links of x and of the list, once x is linked in before list[p]. */
    ghost predicate LinkedIn(x: HashElem<V>, p: nat)
      requires p < |list|
      reads this, x, list
    {
      && x.next == list[p] && x.prev == (if p == 0 then null else list[p - 1])
      && first == (if p == 0 then x else list[0])
      && (forall i {:trigger list[i].prev} :: 0 <= i < |list| ==>
            list[i].prev == if i == p then x else if i == 0 then null else list[i - 1])
      && (forall i {:trigger list[i].next} :: 0 <= i < |list| ==>
            list[i].next == if i + 1 == |list| then null else if i + 1 == p then x else list[i + 1])
    }

    method LinkBefore(pHead: HashElem<V>, x: HashElem<V>, ghost p: nat)
      requires Linked() && x !in list && p < |list| && list[p] == pHead
      modifies this`first, this`list, list`next, list`prev, x`next, x`prev
      ensures Linked() && list == Inserted(old(list), p, x)
    {
      Relink(pHead, x, p);
      InsertedDistinct(list, p, x);
      list := Inserted(list, p, x);
    }

    method Relink(pHead: HashElem<V>, x: HashElem<V>, ghost p: nat)
      requires Linked() && x !in list && p < |list| && list[p] == pHead
      modifies this`first, list`next, list`prev, x`next, x`prev
      ensures LinkedIn(x, p)
    {
      x.next := pHead;
      x.prev := pHead.prev;
      if pHead.prev != null {
        pHead.prev.next := x;
      } else {
        first := x;
      }
      pHead.prev := x;
    }

    method Unlink(x: HashElem<V>, ghost p: nat)
      requires Linked() && p < |list| && list[p] == x
      modifies this`first, this`list, list`next, list`prev
      ensures Linked() && list == Removed(old(list), p)
      ensures x.next == old(x.next)
    {
      if x.prev != null {
        x.prev.next := x.next;
      } else {
        first := x.next;
      }
      if x.next != null {
        x.next.prev := x.prev;
      }
      list := Removed(list, p);
    }

    /** Link x into the list and into bucket pEntry, unless that is -1. */
    method InsertElement(pEntry: int, x: HashElem<V>)
      requires Linked() && Bucketed() && x !in list
      requires pEntry == if htsize > 0 then x.h % htsize else -1
      modifies this`first, this`list, this`ht, this`starts, list`next, list`prev, x`next, x`prev
      ensures Linked() && Bucketed()
      ensures old(Place(ht, starts, x.h)) <= |old(list)| && list == Inserted(old(list), old(Place(ht, starts, x.h)), x)
    {
      var pHead: HashElem?<V> := null;
      ghost var p := Place(ht, starts, x.h);
      if pEntry >= 0 {
        assert BucketOk(list, htsize, pEntry, ht[pEntry], starts[pEntry]);
        pHead := if ht[pEntry].count > 0 then ht[pEntry].chain else null;
        ht := ht[pEntry := Bucket(ht[pEntry].count + 1, x)];
      }
      InsertKeepsBuckets(list, old(ht), starts, x, ht);
      starts := StartsAfterInsert(old(ht), starts, x.h);
      Link(pHead, x, p);
    }

    lemma Placed(h: nat)
      requires Bucketed()
      ensures Place(ht, starts, h) <= |list|
    {
      if ht != [] {
        assert BucketOk(list, htsize, h % htsize, ht[h % htsize], starts[h % htsize]);
      }
    }

    /** Resize the table to newSize buckets or more, if the allocator can. */
    method Rehash(newSize: nat, m: Malloc) returns (done: bool)
      requires Linked() && Bucketed()
      modifies this`first, this`list, this`ht, this`htsize, this`starts, list`next, list`prev
      ensures Linked() && Bucketed()
      ensures |list| == |old(list)| && SameMembers(list, old(list))
      ensures done <==> m.slots > 0 && old(htsize) != if newSize > SOFT_SLOTS then SOFT_SLOTS else newSize
      ensures if done then htsize == m.slots else htsize == old(htsize)
    {
      var asked := if newSize > SOFT_SLOTS then SOFT_SLOTS else newSize;
      if asked == htsize || m.slots == 0 {
        return false;
      }
      Redistribute(m.slots);
      return true;
    }

    /** Deal all elements out to n new buckets. */
    method Redistribute(n: nat)
      requires Linked() && n > 0
      modifies this`first, this`list, this`ht, this`htsize, this`starts, list`next, list`prev
      ensures Linked() && Bucketed() && htsize == n
      ensures |list| == |old(list)| && SameMembers(list, old(list))
    {
      ht := seq(n, i => Bucket(0, null));
      htsize := n;
      starts := seq(n, i => 0);
      var elem := first;
      first := null;
      ghost var was, i: nat := list, 0;
      list := [];
      while elem != null
        invariant i <= |was| && elem == if i == |was| then null else was[i]
        invariant Linked() && Bucketed() && htsize == n && |list| == i
        invariant forall e :: e in list <==> e in was[..i]
        invariant forall j :: 0 <= j < |list| ==> list[j] in was
        invariant forall j {:trigger was[j].next} :: i <= j < |was| ==>
                    was[j].next == if j + 1 == |was| then null else was[j + 1]
        decreases |was| - i
      {
        var next := elem.next;
        DealtOut(was, i, list);
        DealOne(elem, was, i);
        i := i + 1;
        elem := next;
      }
      assert was[..i] == was;
    }

    method DealOne(x: HashElem<V>, ghost was: seq<HashElem<V>>, ghost i: nat)
      requires Linked() && Bucketed() && htsize > 0 && i < |was| && was[i] == x && x !in list
      requires forall e :: e in list <==> e in was[..i]
      modifies this`first, this`list, this`ht, this`starts, list`next, list`prev, x`next, x`prev
      ensures Linked() && Bucketed() && |list| == |old(list)| + 1
      ensures forall e :: e in list <==> e in was[..i + 1]
      ensures forall j {:trigger list[j]} :: 0 <= j < |list| ==> list[j] in was
    {
      Placed(x.h);
      InsertedMembers(list, Place(ht, starts, x.h), x);
      InsertElement(x.h % htsize, x);
      assert was[..i + 1] == was[..i] + [x];
      forall j | 0 <= j < |list| ensures list[j] in was {
        assert list[j] in list;
      }
    }

    // -------------------------------------------------------------------- lookup

    /** findElementWithHash, with null for the static null element. */
    method FindElement(key: Key) returns (e: HashElem?<V>, h: nat)
      requires Valid()
      ensures h == HashOf(key)
      ensures e == if Folded(key) in found then found[Folded(key)] else null
    {
      h := StrHash(key);
      var left;
      ghost var at: nat;
      if ht != [] {
        e, left, at := ht[h % htsize].chain, ht[h % htsize].count, starts[h % htsize];
      } else {
        e, left, at := first, count, 0;
      }
      Searched(key, h);
      e := Scan(key, h, e, left, at);
    }

    /** Only the elements to be scanned can have the key. */
    lemma Searched(key: Key, h: nat)
      requires Valid() && h == HashOf(key)
      ensures var at := if ht != [] then starts[h % htsize] else 0;
              var left := if ht != [] then ht[h % htsize].count else count;
              && at + left <= |list|
              && (left > 0 ==> (if ht != [] then ht[h % htsize].chain else first) == list[at])
              && (Folded(key) in found ==> found[Folded(key)] in list[at..at + left])
    {
      if ht != [] {
        assert BucketOk(list, htsize, h % htsize, ht[h % htsize], starts[h % htsize]);
      }
      if Folded(key) in found {
        var e := found[Folded(key)];
        SameHash(e.key, key);
        var i :| 0 <= i < |list| && list[i] == e;
        if ht != [] {
          InBucket(list, ht, starts, i);
        }
      }
    }

    method Scan(key: Key, h: nat, chain: HashElem?<V>, n: nat, ghost at: nat) returns (e: HashElem?<V>)
      requires Valid() && h == HashOf(key)
      requires at + n <= |list| && (n > 0 ==> chain == list[at])
      requires Folded(key) in found ==> found[Folded(key)] in list[at..at + n]
      ensures e == if Folded(key) in found then found[Folded(key)] else null
    {
      e := chain;
      var left: nat := n;
      ghost var i: nat := at;
      while left > 0
        invariant i + left == at + n && (left > 0 ==> e == list[i])
        invariant forall j :: at <= j < i ==> Folded(list[j].key) != Folded(key)
        decreases left
      {
        if h == e.h && SameKey(e.key, key) {
          assert list[i] in list;
          return;
        }
        SameHashAs(e, key);
        e := e.next;
        i := i + 1;
        left := left - 1;
      }
      return null;
    }

    lemma SameHashAs(e: HashElem<V>, key: Key)
      requires Valid() && e in list
      ensures SameKey(e.key, key) ==> e.h == HashOf(key)
    {
      if SameKey(e.key, key) {
        SameHash(e.key, key);
      }
    }

    method Find(key: Key) returns (data: Option<V>)
      requires Valid()
      ensures data == Lookup(Contents(), Folded(key))
    {
      var e, h := FindElement(key);
      data := if e == null then None else Some(e.data);
    }

    // ------------------------------------------------------------------- updates

    /** Take the element at position p out of the list and its bucket. */
    method TakeOut(e: HashElem<V>, ghost p: nat)
      requires Linked() && Bucketed() && p < |list| && list[p] == e
      modifies this`first, this`list, this`ht, this`starts, list`next, list`prev
      ensures Linked() && Bucketed() && list == Removed(old(list), p)
    {
      ghost var before, after := ht, if p + 1 < |list| then list[p + 1] else null;
      assert e.next == after;
      Unlink(e, p);
      if ht != [] {
        InBucket(old(list), ht, starts, p);
        var b := e.h % htsize;
        var chain := if ht[b].chain == e then e.next else ht[b].chain;
        ht := ht[b := Bucket(ht[b].count - 1, chain)];
      }
      RemoveKeepsBuckets(old(list), before, starts, p, ht);
      starts := StartsAfterRemove(before, starts, e.h, p);
    }

    /** Links are no part of what a key finds. */
    method TakeOutKeyed(e: HashElem<V>, ghost p: nat)
      requires Linked() && Bucketed() && p < |list| && list[p] == e && Keyed(list, found)
      modifies this`first, this`list, this`ht, this`starts, list`next, list`prev
      ensures Linked() && Bucketed() && list == Removed(old(list), p) && Keyed(old(list), found)
    {
      TakeOut(e, p);
    }

    method RemoveElement(e: HashElem<V>, ghost k: Key)
      requires Valid() && k in found && found[k] == e
      modifies this, list`next, list`prev
      ensures Valid() && found == old(found) - {k}
      ensures forall j :: 0 <= j < |list| ==> list[j] in old(list)
    {
      Detach(e, k);
      count := count - 1;
      if count == 0 {
        Clear();
      }
    }

    method Detach(e: HashElem<V>, ghost k: Key)
      requires Linked() && Bucketed() && Keyed(list, found) && k in found && found[k] == e
      modifies this`first, this`list, this`ht, this`starts, this`found, list`next, list`prev
      ensures Linked() && Bucketed() && Keyed(list, found) && |list| == |old(list)| - 1
      ensures found == old(found) - {k} && (list == [] ==> found == map[])
      ensures forall j {:trigger list[j]} :: 0 <= j < |list| ==> list[j] in old(list)
    {
      hide Folded;
      hide HashOf;
      hide Removed;
      hide BucketsOk;
      ghost var p :| 0 <= p < |list| && list[p] == e;
      TakeOutKeyed(e, p);
      KeyedAfterRemove(old(list), found, p, k);
      RemovedMembers(old(list), p);
      found := found - {k};
    }

    /** What Insert promises: `was` and `now` are the contents before and after. */
    ghost predicate Inserts(was: map<Key, V>, k: Key, data: Option<V>, m: Malloc, r: Option<V>, now: map<Key, V>) {
      if data == None then
        r == Lookup(was, k) && now == was - {k}
      else if k !in was && !m.element then
        r == data && now == was
      else
        r == Lookup(was, k) && now == was[k := data.value]
    }

    method Insert(key: Key, data: Option<V>, m: Malloc) returns (r: Option<V>)
      requires Valid()
      modifies this, list
      ensures Valid() && Inserts(old(Contents()), Folded(key), data, m, r, Contents())
      ensures forall j :: 0 <= j < |list| ==> list[j] in old(list) || fresh(list[j])
    {
      var elem, h := FindElement(key);
      if elem != null {
        r := Update(elem, key, data, m);
      } else {
        r := InsertAbsent(key, h, data, m);
      }
    }

    /** There is no element with the key, whose hash is h. */
    method InsertAbsent(key: Key, h: nat, data: Option<V>, m: Malloc) returns (r: Option<V>)
      requires Valid() && h == HashOf(key) && Folded(key) !in found
      modifies this, list
      ensures Valid() && Inserts(old(Contents()), Folded(key), data, m, r, Contents())
      ensures forall j {:trigger list[j]} :: 0 <= j < |list| ==> list[j] in old(list) || fresh(list[j])
    {
      if data == None || !m.element {
        return data;
      }
      var x := NewElement(key, h, data.value);
      AddNew(x, m);
      r := None;
    }

    method NewElement(key: Key, h: nat, data: V) returns (x: HashElem<V>)
      requires Valid()
      ensures fresh(x) && x !in list && x.key == key && x.h == h && x.data == data
      ensures Valid() && Contents() == old(Contents())
    {
      x := new HashElem(key, h, data);
    }

    /** The key is present, in element e. */
    method Update(e: HashElem<V>, key: Key, data: Option<V>, ghost m: Malloc) returns (r: Option<V>)
      requires Valid() && Folded(key) in found && found[Folded(key)] == e
      modifies this, list
      ensures Valid() && Inserts(old(Contents()), Folded(key), data, m, r, Contents())
      ensures forall j {:trigger list[j]} :: 0 <= j < |list| ==> list[j] in old(list)
    {
      r := Some(e.data);
      if data == None {
        Delete(e, Folded(key));
      } else {
        Replace(e, key, data.value);
      }
    }

    method Delete(e: HashElem<V>, ghost k: Key)
      requires Valid() && k in found && found[k] == e
      modifies this, list`next, list`prev
      ensures Valid() && Contents() == old(Contents()) - {k}
      ensures forall j {:trigger list[j]} :: 0 <= j < |list| ==> list[j] in old(list)
    {
      hide Valid;
      RemoveElement(e, k);
    }

    method AddNew(x: HashElem<V>, m: Malloc)
      requires Valid() && x !in list && x.h == HashOf(x.key) && Folded(x.key) !in found
      modifies this, list`next, list`prev, x`next, x`prev
      ensures Valid() && Contents() == old(Contents())[Folded(x.key) := x.data]
      ensures forall j {:trigger list[j]} :: 0 <= j < |list| ==> list[j] in old(list) || list[j] == x
    {
      ghost var was, data := found, DataOf(found);
      Add(x, m);
      DataIs(was, data);
      DataOfUpdate(was, Folded(x.key), x);
    }

    method Replace(e: HashElem<V>, key: Key, data: V)
      requires Valid() && Folded(key) in found && found[Folded(key)] == e
      modifies e`data, e`key
      ensures Valid() && Contents() == old(Contents())[Folded(key) := data]
    {
      SetData(e, key, data);
      SetKey(e, key);
    }

    method SetData(e: HashElem<V>, key: Key, data: V)
      requires Valid() && Folded(key) in found && found[Folded(key)] == e
      modifies e`data
      ensures Valid() && Contents() == old(Contents())[Folded(key) := data]
    {
      hide HashOf;
      ghost var now := DataOf(found)[Folded(key) := data];
      e.data := data;
      DataIs(found, now);
    }

    method SetKey(e: HashElem<V>, key: Key)
      requires Valid() && Folded(key) in found && found[Folded(key)] == e
      modifies e`key
      ensures Valid() && Contents() == old(Contents())
    {
      SameHash(e.key, key);
      ghost var now := DataOf(found);
      e.key := key;
      DataIs(found, now);
    }

    /** One more element is coming: enlarge the table if it is crowded. */
    method Grow(m: Malloc)
      requires Valid()
      modifies this`count, this`first, this`list, this`ht, this`htsize, this`starts, list`next, list`prev
      ensures Linked() && Bucketed() && Keyed(list, found) && count == |list| + 1
      ensures SameMembers(list, old(list))
    {
      count := count + 1;
      if count >= 5 && count > 2 * htsize {
        var _ := Rehash(count * 3, m);
        assert Keyed(old(list), found);
        KeyedReordered(old(list), list, found);
      }
    }

    /** A new element, and perhaps a larger table, for a key not yet present. */
    method Add(x: HashElem<V>, m: Malloc)
      requires Valid() && x !in list && x.h == HashOf(x.key) && Folded(x.key) !in found
      modifies this, list`next, list`prev, x`next, x`prev
      ensures Valid() && found == old(found)[Folded(x.key) := x]
      ensures forall j :: 0 <= j < |list| ==> list[j] in old(list) || list[j] == x
    {
      Grow(m);
      Put(x);
    }

    method Put(x: HashElem<V>)
      requires Linked() && Bucketed() && Keyed(list, found)
      requires x !in list && x.h == HashOf(x.key) && Folded(x.key) !in found
      modifies this`first, this`list, this`ht, this`starts, this`found, list`next, list`prev, x`next, x`prev
      ensures Linked() && Bucketed() && Keyed(list, found) && |list| == |old(list)| + 1
      ensures found == old(found)[Folded(x.key) := x]
      ensures forall j {:trigger list[j]} :: 0 <= j < |list| ==> list[j] in old(list) || list[j] == x
    {
      Placed(x.h);
      KeyedAfterInsert(list, found, Place(ht, starts, x.h), x);
      found := found[Folded(x.key) := x];
      LinkKeyed(x);
    }

    method LinkKeyed(x: HashElem<V>)
      requires Linked() && Bucketed() && x !in list && Place(ht, starts, x.h) <= |list|
      requires Keyed(Inserted(list, Place(ht, starts, x.h), x), found)
      modifies this`first, this`list, this`ht, this`starts, list`next, list`prev, x`next, x`prev
      ensures Linked() && Bucketed() && Keyed(list, found) && |list| == |old(list)| + 1
      ensures forall j {:trigger list[j]} :: 0 <= j < |list| ==> list[j] in old(list) || list[j] == x
    {
      ghost var all := Inserted(list, Place(ht, starts, x.h), x);
      InsertElement(if ht != [] then x.h % htsize else -1, x);
      assert list == all;
    }
  }

  // ------------------------------------------------------------------- whole runs

  datatype Op<V> =
    | OpFind(key: Key)
    | OpInsert(key: Key, data: Option<V>, malloc: Malloc)
    | OpClear

  /** A plain map on folded keys after one operation, and the operation's result.
      Only running out of memory for an element is visible; the bucket array is not. */
  function Plain<V>(m: map<Key, V>, op: Op<V>): (map<Key, V>, Option<V>) {
    match op
    case OpFind(key) => (m, Lookup(m, Folded(key)))
    case OpInsert(key, data, malloc) =>
      var k := Folded(key);
      if data == None then (m - {k}, Lookup(m, k))
      else if k !in m && !malloc.element then (m, data)
      else (m[k := data.value], Lookup(m, k))
    case OpClear => (map[], None)
  }

  function PlainRun<V>(ops: seq<Op<V>>): (map<Key, V>, seq<Option<V>>) {
    if ops == [] then (map[], [])
    else
      var (m, rs) := PlainRun(ops[..|ops| - 1]);
      var (m', r) := Plain(m, ops[|ops| - 1]);
      (m', rs + [r])
  }

  method Perform<V>(t: Hash<V>, op: Op<V>) returns (r: Option<V>)
    requires t.Valid()
    modifies t, t.list
    ensures t.Valid() && (t.Contents(), r) == Plain(old(t.Contents()), op)
    ensures forall j :: 0 <= j < |t.list| ==> t.list[j] in old(t.list) || fresh(t.list[j])
  {
    match op
    case OpFind(key) => r := t.Find(key);
    case OpInsert(key, data, malloc) => r := t.Insert(key, data, malloc);
    case OpClear =>
      t.Clear();
      r := None;
  }

  /** Every sequence of operations answers as a map on folded keys does, whichever
      resize allocations fail; and the count field is the size of that map. */
  method RunProgram<V>(ops: seq<Op<V>>) returns (rs: seq<Option<V>>, count: nat)
    ensures rs == PlainRun(ops).1
    ensures count == |PlainRun(ops).0|
  {
    hide Distinct;
    var t := new Hash<V>();
    rs := [];
    for i := 0 to |ops|
      invariant t.Valid() && fresh(t) && forall j :: 0 <= j < |t.list| ==> fresh(t.list[j])
      invariant (t.Contents(), rs) == PlainRun(ops[..i])
    {
      var r := Perform(t, ops[i]);
      rs := rs + [r];
      assert ops[..i + 1][..i] == ops[..i];
    }
    assert ops[..|ops|] == ops;
    count := t.count;
    t.CountIsSize();
  }
}
