/** Keys and their hashes, and the runs of a list that make up the buckets. */
module HashRuns {
  import opened Arithmetic
  import opened Sequences

  type Key = seq<bv8>

  // ------------------------------------------------------------------------- keys

  /** The table behind sqlite3StrICmp. */
  function Lower(c: bv8): bv8 {
    if 0x41 <= c <= 0x5a then c + 0x20 else c
  }

  function Folded(k: Key): Key {
    seq(|k|, i requires 0 <= i < |k| => Lower(k[i]))
  }

  /** sqlite3StrICmp(a, b) == 0 */
  predicate SameKey(a: Key, b: Key) {
    Folded(a) == Folded(b)
  }

  predicate IsLetter(c: bv8) {
    'A' as int <= c as int <= 'Z' as int || 'a' as int <= c as int <= 'z' as int
  }

  /** The same byte, or one letter in both cases. */
  predicate SameButCase(a: bv8, b: bv8) {
    a == b || (IsLetter(a) && IsLetter(b) && a ^ b == 0x20)
  }

  lemma FoldsCase(a: bv8, b: bv8)
    ensures Lower(a) == Lower(b) <==> SameButCase(a, b)
  {
  }

  /** Keys compare equal just if they differ in the case of ASCII letters only. */
  lemma SameKeyMeans(a: Key, b: Key)
    ensures SameKey(a, b) <==> |a| == |b| && forall i :: 0 <= i < |a| ==> SameButCase(a[i], b[i])
  {
    if |a| == |b| {
      forall i | 0 <= i < |a|
        ensures Folded(a)[i] == Folded(b)[i] <==> SameButCase(a[i], b[i])
      {
        FoldsCase(a[i], b[i]);
      }
      assert SameKey(a, b) <==> forall i :: 0 <= i < |a| ==> Folded(a)[i] == Folded(b)[i];
    } else {
      assert |Folded(a)| != |Folded(b)|;
    }
  }

  const KNUTH: nat := 0x9e37_79b1
  const WORD: nat := 0x1_0000_0000

  function HashStep(h: nat, c: bv8): nat {
    (h + Masked(c)) % WORD * KNUTH % WORD
  }

  function HashOf(k: Key): nat {
    if k == [] then 0 else HashStep(HashOf(k[..|k| - 1]), k[|k| - 1])
  }

  method StrHash(k: Key) returns (h: nat)
    ensures h == HashOf(k)
  {
    h := 0;
    for i := 0 to |k|
      invariant h == HashOf(k[..i])
    {
      assert k[..i + 1][..i] == k[..i];
      h := (h + (k[i] & 0xdf) as nat) % WORD;
      h := h * KNUTH % WORD;
    }
    assert k[..|k|] == k;
  }

  function Masked(c: bv8): nat {
    (c & 0xdf) as nat
  }

  /** The sum of the masked bytes from the i-th on, each multiplied once for itself and
      once for every later byte. */
  function Weighted(k: Key, i: nat): nat
    decreases |k| - i
  {
    if i >= |k| then 0 else Masked(k[i]) * Power(0x9e3779b1, |k| - i) + Weighted(k, i + 1)
  }

  lemma {:induction false} WeightedLast(k: Key, i: nat)
    requires k != [] && i < |k|
    ensures Weighted(k, i) == 0x9e3779b1 * (Weighted(k[..|k| - 1], i) + Masked(k[|k| - 1]))
    decreases |k| - i
  {
    hide Masked;
    var m := |k| - 1;
    var p := Power(0x9e3779b1, m - i);
    WeightedStep(k, i);
    PowerStep(0x9e3779b1, m - i);
    if i < m {
      WeightedLast(k, i + 1);
      WeightedStep(k[..m], i);
      hide Weighted;
      hide Power;
      PastFirst(Masked(k[i]), p, 0x9e3779b1 * p, Weighted(k[..m], i + 1), Masked(k[m]));
    } else {
      hide Power;
      assert Weighted(k, i + 1) == 0 && Weighted(k[..m], i) == 0;
      hide Weighted;
      PastFirst(Masked(k[m]), 1, 0x9e3779b1, 0, 0);
    }
  }

  lemma WeightedStep(k: Key, i: nat)
    requires i < |k|
    ensures Weighted(k, i) == Masked(k[i]) * Power(0x9e3779b1, |k| - i) + Weighted(k, i + 1)
  {
  }

  lemma PowerStep(a: nat, n: nat)
    ensures Power(a, n + 1) == a * Power(a, n) && Power(a, 0) == 1
  {
  }

  lemma PastFirst(c: nat, p: nat, q: nat, w: nat, last: nat)
    requires q == 0x9e3779b1 * p
    ensures c * q + 0x9e3779b1 * (w + last) == 0x9e3779b1 * (c * p + w + last)
  {
    assert c * (0x9e3779b1 * p) == 0x9e3779b1 * (c * p);
  }

  /** The hash in one formula. */
  lemma {:induction false} HashIsWeighted(k: Key)
    ensures HashOf(k) == Weighted(k, 0) % 0x1_0000_0000
    decreases |k|
  {
    hide Masked;
    if k != [] {
      var w, c := Weighted(k[..|k| - 1], 0), Masked(k[|k| - 1]);
      HashIsWeighted(k[..|k| - 1]);
      WeightedLast(k, 0);
      StepInWord(w, c);
    }
  }

  lemma StepInWord(w: nat, c: nat)
    ensures (w % WORD + c) % WORD * KNUTH % WORD == 0x9e3779b1 * (w + c) % 0x1_0000_0000
  {
    var x := w % WORD + c;
    SameRemainder(w + c, x, w / WORD, WORD);
    SameRemainder(KNUTH * (w + c), (w + c) % WORD * KNUTH, (w + c) / WORD * KNUTH, WORD);
  }

  /** The bit that the mask drops is the only one in which cases differ. */
  lemma CaseBit(a: bv8, b: bv8)
    requires Lower(a) == Lower(b)
    ensures a & 0xdf == b & 0xdf
  {
  }

  /** Keys that compare equal hash equally. */
  lemma {:induction false} SameHash(a: Key, b: Key)
    requires SameKey(a, b)
    ensures HashOf(a) == HashOf(b)
    decreases |a|
  {
    assert |a| == |Folded(a)| == |Folded(b)| == |b|;
    if a != [] {
      var n := |a| - 1;
      assert Lower(a[n]) == Folded(a)[n] == Folded(b)[n] == Lower(b[n]);
      CaseBit(a[n], b[n]);
      assert Folded(a[..n]) == Folded(a)[..n] == Folded(b)[..n] == Folded(b[..n]);
      SameHash(a[..n], b[..n]);
    }
  }

  // ------------------------------------------------------------------- list elements

  class HashElem<V> {
    var next: HashElem?<V>
    var prev: HashElem?<V>
    var data: V
    var key: Key
    const h: nat

    constructor (key: Key, h: nat, data: V)
      ensures this.key == key && this.h == h && this.data == data
    {
      this.key, this.h, this.data := key, h, data;
      next, prev := null, null;
    }
  }

  /** A bucket: the element at `chain` and the count-1 elements after it. */
  datatype Bucket<V> = Bucket(count: nat, chain: HashElem?<V>)

  /** The elements of bucket b are exactly the c elements from position s on. */
  ghost predicate Run<V>(list: seq<HashElem<V>>, n: nat, b: nat, c: nat, s: nat)
    requires n > 0
  {
    && s + c <= |list|
    && forall i :: 0 <= i < |list| ==> (list[i].h % n == b <==> s <= i < s + c)
  }

  /** Bucket b of a table of n buckets is where the list says. */
  ghost predicate BucketOk<V>(list: seq<HashElem<V>>, n: nat, b: nat, t: Bucket<V>, s: nat)
    requires n > 0
  {
    && Run(list, n, b, t.count, s)
    && (t.count > 0 ==> t.chain == list[s])
  }

  /** Where an insertion at p moves the start of a run. */
  function StartAfterInsert(c: nat, s: nat, p: nat, own: bool): nat {
    if own then p else if c == 0 then 0 else if p <= s then s + 1 else s
  }

  lemma InsertKeepsRun<V>(list: seq<HashElem<V>>, n: nat, b: nat, t: Bucket<V>, s: nat, p: nat, e: HashElem<V>)
    requires n > 0 && p <= |list| && BucketOk(list, n, b, t, s)
    requires e.h % n == b && t.count > 0 ==> p == s
    requires e.h % n != b ==> p == 0 || !(s < p < s + t.count)
    ensures var t' := if e.h % n == b then Bucket(t.count + 1, e) else t;
            BucketOk(Inserted(list, p, e), n, b, t', StartAfterInsert(t.count, s, p, e.h % n == b))
  {
  }

  function StartAfterRemove(c: nat, s: nat, p: nat, own: bool): nat {
    if own then (if c == 1 then 0 else s) else if c > 0 && p < s then s - 1 else if c == 0 then 0 else s
  }

  /** The chain moves on if it pointed at the element that goes. */
  lemma RemoveKeepsRun<V>(list: seq<HashElem<V>>, n: nat, b: nat, t: Bucket<V>, s: nat, p: nat, t': Bucket<V>)
    requires n > 0 && p < |list| && BucketOk(list, n, b, t, s) && Distinct(list)
    requires list[p].h % n != b ==> t' == t
    requires list[p].h % n == b ==>
               && t.count > 0 && t'.count == t.count - 1
               && t'.chain == (if t.chain != list[p] then t.chain else if p + 1 < |list| then list[p + 1] else null)
    ensures BucketOk(Removed(list, p), n, b, t', StartAfterRemove(t.count, s, p, list[p].h % n == b))
  {
  }

  // --------------------------------------------------------------- the whole table

  ghost predicate BucketsOk<V>(list: seq<HashElem<V>>, ht: seq<Bucket<V>>, starts: seq<nat>) {
    && |starts| == |ht|
    && forall b {:trigger ht[b]} {:trigger starts[b]} :: 0 <= b < |ht| ==> BucketOk(list, |ht|, b, ht[b], starts[b])
  }

  /** Where an element with hash h goes: in front of its bucket, or of the list. */
  ghost function Place<V>(ht: seq<Bucket<V>>, starts: seq<nat>, h: nat): nat
    requires |starts| == |ht|
  {
    if |ht| > 0 && ht[h % |ht|].count > 0 then starts[h % |ht|] else 0
  }

  ghost function StartsAfterInsert<V>(ht: seq<Bucket<V>>, starts: seq<nat>, h: nat): (r: seq<nat>)
    requires |starts| == |ht|
  {
    seq(|ht|, b requires 0 <= b < |ht| => StartAfterInsert(ht[b].count, starts[b], Place(ht, starts, h), h % |ht| == b))
  }

  /** The buckets after x has become the first of its bucket. */
  ghost predicate BucketGrown<V>(ht: seq<Bucket<V>>, x: HashElem<V>, ht': seq<Bucket<V>>) {
    |ht'| == |ht| && (|ht| > 0 ==> var b := x.h % |ht|; ht' == ht[b := Bucket(ht[b].count + 1, x)])
  }

  lemma InsertKeepsBuckets<V>(list: seq<HashElem<V>>, ht: seq<Bucket<V>>, starts: seq<nat>, x: HashElem<V>,
                              ht': seq<Bucket<V>>)
    requires BucketsOk(list, ht, starts) && BucketGrown(ht, x, ht')
    ensures Place(ht, starts, x.h) <= |list|
    ensures BucketsOk(Inserted(list, Place(ht, starts, x.h), x), ht', StartsAfterInsert(ht, starts, x.h))
  {
    var n, p := |ht|, Place(ht, starts, x.h);
    forall b | 0 <= b < n
      ensures BucketOk(Inserted(list, p, x), n, b, ht'[b], StartsAfterInsert(ht, starts, x.h)[b])
    {
      assert p > 0 ==> BucketOk(list, n, x.h % n, ht[x.h % n], starts[x.h % n]) && list[p].h % n == x.h % n;
      InsertKeepsRun(list, n, b, ht[b], starts[b], p, x);
    }
  }

  ghost function StartsAfterRemove<V>(ht: seq<Bucket<V>>, starts: seq<nat>, h: nat, p: nat): (r: seq<nat>)
    requires |starts| == |ht|
  {
    seq(|ht|, b requires 0 <= b < |ht| => StartAfterRemove(ht[b].count, starts[b], p, h % |ht| == b))
  }

  ghost predicate BucketShrunk<V>(list: seq<HashElem<V>>, ht: seq<Bucket<V>>, p: nat, ht': seq<Bucket<V>>)
    requires p < |list|
  {
    && |ht'| == |ht|
    && (|ht| > 0 ==>
          var b := list[p].h % |ht|;
          var chain := if ht[b].chain != list[p] then ht[b].chain else if p + 1 < |list| then list[p + 1] else null;
          ht[b].count > 0 && ht' == ht[b := Bucket(ht[b].count - 1, chain)])
  }

  lemma RemoveKeepsBuckets<V>(list: seq<HashElem<V>>, ht: seq<Bucket<V>>, starts: seq<nat>, p: nat, ht': seq<Bucket<V>>)
    requires p < |list| && Distinct(list) && BucketsOk(list, ht, starts) && BucketShrunk(list, ht, p, ht')
    ensures BucketsOk(Removed(list, p), ht', StartsAfterRemove(ht, starts, list[p].h, p))
  {
    forall b | 0 <= b < |ht|
      ensures BucketOk(Removed(list, p), |ht|, b, ht'[b], StartsAfterRemove(ht, starts, list[p].h, p)[b])
    {
      RemoveKeepsRun(list, |ht|, b, ht[b], starts[b], p, ht'[b]);
    }
  }

  /** A bucket that an element of the list belongs to is not empty. */
  lemma InBucket<V>(list: seq<HashElem<V>>, ht: seq<Bucket<V>>, starts: seq<nat>, p: nat)
    requires p < |list| && BucketsOk(list, ht, starts) && |ht| > 0
    ensures var b := list[p].h % |ht|; starts[b] <= p < starts[b] + ht[b].count <= |list|
  {
    var b := list[p].h % |ht|;
    assert BucketOk(list, |ht|, b, ht[b], starts[b]);
  }
}
