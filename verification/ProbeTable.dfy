/** The open-addressed table inside a Bitvec: aHash[] with linear probing, zero
    marking an empty slot. */
module ProbeTable {

  /** Where probing for value v starts: BITVEC_HASH(v-1). */
  function Home(v: nat, n: nat): nat
    requires v > 0 && n > 0
    ensures Home(v, n) < n
  {
    (v - 1) % n
  }

  function Next(s: nat, n: nat): nat
    requires s < n
    ensures Next(s, n) < n
  {
    if s + 1 >= n then 0 else s + 1
  }

  /** Slot t comes before slot s when walking cyclically from `start`. */
  predicate Before(start: nat, t: nat, s: nat) {
    if start <= s then start <= t < s else t >= start || t < s
  }

  /** Number of steps from slot s to slot e, walking cyclically. */
  function Distance(s: nat, e: nat, n: nat): nat
    requires s < n && e < n
  {
    if s <= e then e - s else e + n - s
  }

  /** Every slot walked over from a value's home to the value is in use. */
  ghost predicate NoGap(a: seq<nat>) {
    forall s, t :: 0 <= s < |a| && 0 <= t < |a| && a[s] != 0 && Before(Home(a[s], |a|), t, s) ==> a[t] != 0
  }

  /** Number of slots in use. */
  function Used(a: seq<nat>): (r: nat)
    ensures r <= |a|
  {
    if a == [] then 0 else (if a[0] != 0 then 1 else 0) + Used(a[1..])
  }

  /** The values stored in the table. */
  ghost function Values(a: seq<nat>): set<nat> {
    set s | 0 <= s < |a| && a[s] != 0 :: a[s]
  }

  /** All slots from the home of v up to (not including) h hold other values. */
  ghost predicate Probed(a: seq<nat>, v: nat, h: nat)
    requires v > 0 && h < |a|
  {
    forall t :: 0 <= t < |a| && Before(Home(v, |a|), t, h) ==> a[t] != 0 && a[t] != v
  }

  // ------------------------------------------------------------------ counting

  lemma {:induction false} UsedUpdate(a: seq<nat>, s: nat, v: nat)
    requires s < |a| && a[s] == 0 && v != 0
    ensures Used(a[s := v]) == Used(a) + 1
  {
    if s > 0 {
      UsedUpdate(a[1..], s - 1, v);
      assert a[s := v][1..] == a[1..][s - 1 := v];
    }
  }

  lemma {:induction false} SomeEmpty(a: seq<nat>) returns (e: nat)
    requires Used(a) < |a|
    ensures e < |a| && a[e] == 0
  {
    if a[0] == 0 {
      e := 0;
    } else {
      var f := SomeEmpty(a[1..]);
      e := f + 1;
    }
  }

  lemma {:induction false} UsedOfEmpty(a: seq<nat>)
    requires forall s :: 0 <= s < |a| ==> a[s] == 0
    ensures Used(a) == 0 && Values(a) == {} && NoGap(a)
  {
    if a != [] {
      UsedOfEmpty(a[1..]);
    }
  }

  lemma {:induction false} UsedSplit(a: seq<nat>, j: nat)
    requires j < |a|
    ensures Used(a[j..]) == (if a[j] != 0 then 1 else 0) + Used(a[j + 1..])
  {
    assert a[j..][1..] == a[j + 1..];
  }

  lemma ValuesUpdate(a: seq<nat>, s: nat, v: nat)
    requires s < |a| && a[s] == 0 && v != 0
    ensures Values(a[s := v]) == Values(a) + {v}
  {
    var b := a[s := v];
    assert b[s] == v;
    forall x | x in Values(a)
      ensures x in Values(b)
    {
      var t :| 0 <= t < |a| && a[t] != 0 && a[t] == x;
      assert b[t] == x;
    }
  }

  // ------------------------------------------------------------------- probing

  lemma NextIsModulo(s: nat, n: nat)
    requires s < n
    ensures (s + 1) % n == Next(s, n)
  {
    if s + 1 < n {
      assert (s + 1) / n == 0;
    } else {
      assert n % n == 0;
    }
  }

  /** The next slot, found with a remainder instead of a comparison. */
  function Wrapped(s: nat, n: nat): (r: nat)
    requires s < n
    ensures r == Next(s, n)
  {
    NextIsModulo(s, n);
    (s + 1) % n
  }

  lemma ProbedStart(a: seq<nat>, v: nat)
    requires v > 0 && |a| > 0
    ensures Probed(a, v, Home(v, |a|))
  {
  }

  /** An empty slot not yet passed keeps getting closer. */
  lemma ProbeAdvances(a: seq<nat>, v: nat, h: nat, e: nat)
    requires v > 0 && h < |a| && e < |a| && Probed(a, v, h)
    requires a[h] != 0 && a[h] != v && a[e] == 0
    ensures Probed(a, v, Next(h, |a|))
    ensures Distance(Next(h, |a|), e, |a|) < Distance(h, e, |a|)
  {
    var start := Home(v, |a|);
    assert !Before(start, e, h) && e != h;
    forall t | 0 <= t < |a| && Before(start, t, Next(h, |a|))
      ensures t == h || Before(start, t, h)
    {
      if Next(h, |a|) == start {
        assert Before(start, t, start);
      }
    }
  }

  /** Reaching an empty slot proves that v is absent. */
  lemma AbsentAtEmpty(a: seq<nat>, v: nat, h: nat)
    requires v > 0 && h < |a| && NoGap(a) && Probed(a, v, h) && a[h] == 0
    ensures v !in Values(a)
  {
    var start := Home(v, |a|);
    forall s | 0 <= s < |a|
      ensures a[s] != v
    {
      assert s == h || Before(start, s, h) || Before(start, h, s);
    }
  }

  /** Storing v in the first empty slot of its walk keeps every walk intact. */
  lemma InsertKeepsWalks(a: seq<nat>, v: nat, h: nat)
    requires v > 0 && h < |a| && NoGap(a) && Probed(a, v, h) && a[h] == 0
    ensures NoGap(a[h := v])
    ensures Values(a[h := v]) == Values(a) + {v} && Used(a[h := v]) == Used(a) + 1
  {
    var b := a[h := v];
    forall s, t | 0 <= s < |b| && 0 <= t < |b| && b[s] != 0 && Before(Home(b[s], |b|), t, s)
      ensures b[t] != 0
    {
      if s != h && t != h {
        assert a[s] == b[s] && a[t] != 0;
      }
    }
    UsedUpdate(a, h, v);
    ValuesUpdate(a, h, v);
  }

  /** Walk from the home of v to v itself or to the first empty slot. */
  method Probe(a: seq<nat>, v: nat) returns (h: nat)
    requires v > 0 && NoGap(a) && Used(a) < |a|
    ensures h < |a| && Probed(a, v, h)
    ensures a[h] == v || a[h] == 0
    ensures a[h] == v <==> v in Values(a)
  {
    h := Home(v, |a|);
    ProbedStart(a, v);
    ghost var e := SomeEmpty(a);
    while a[h] != 0
      invariant h < |a| && Probed(a, v, h)
      decreases Distance(h, e, |a|)
    {
      if a[h] == v {
        return;
      }
      ProbeAdvances(a, v, h, e);
      h := Next(h, |a|);
    }
    AbsentAtEmpty(a, v, h);
  }

  /** The loop of sqlite3BitvecTestNotNull, which wraps around by a remainder. */
  method Lookup(a: seq<nat>, v: nat) returns (r: bool)
    requires v > 0 && NoGap(a) && Used(a) < |a|
    ensures r <==> v in Values(a)
  {
    var h: nat := Home(v, |a|);
    ProbedStart(a, v);
    ghost var e := SomeEmpty(a);
    while a[h] != 0
      invariant h < |a| && Probed(a, v, h)
      decreases Distance(h, e, |a|)
    {
      if a[h] == v {
        return true;
      }
      ProbeAdvances(a, v, h, e);
      h := Wrapped(h, |a|);
    }
    AbsentAtEmpty(a, v, h);
    return false;
  }

  /** The table that holds the values of `a` other than v, built afresh. */
  method Rebuild(a: seq<nat>, v: nat) returns (b: seq<nat>, nSet: nat)
    requires Used(a) < |a|
    ensures |b| == |a| && NoGap(b) && nSet == Used(b) && Used(b) <= Used(a)
    ensures Values(b) == Values(a) - {v}
  {
    b, nSet := seq(|a|, _ => 0), 0;
    UsedOfEmpty(b);
    for j := 0 to |a|
      invariant |b| == |a| && NoGap(b) && nSet == Used(b) && Used(b) + Used(a[j..]) <= Used(a)
      invariant Values(b) == Values(a[..j]) - {v}
    {
      UsedSplit(a, j);
      ValuesTake(a, j);
      if a[j] != 0 && a[j] != v {
        var h := FreeSlot(b, a[j]);
        nSet := nSet + 1;
        b := b[h := a[j]];
      }
    }
    assert a[..|a|] == a;
  }

  lemma ValuesAppend(a: seq<nat>, v: nat)
    ensures Values(a + [v]) == Values(a) + if v == 0 then {} else {v}
  {
    var b := a + [v];
    assert b[|a|] == v;
    forall x | x in Values(a)
      ensures x in Values(b)
    {
      var t :| 0 <= t < |a| && a[t] != 0 && a[t] == x;
      assert b[t] == x;
    }
    forall x | x in Values(b)
      ensures x in Values(a) || x == v
    {
      var t :| 0 <= t < |b| && b[t] != 0 && b[t] == x;
      assert t < |a| ==> a[t] == x;
    }
  }

  lemma ValuesBound(a: seq<nat>, n: nat)
    requires forall v :: v in Values(a) ==> v <= n
    ensures forall s :: 0 <= s < |a| ==> a[s] <= n
  {
    forall s | 0 <= s < |a| && a[s] != 0
      ensures a[s] <= n
    {
      assert a[s] in Values(a);
    }
  }

  lemma ValuesTake(a: seq<nat>, j: nat)
    requires j < |a|
    ensures Values(a[..j + 1]) == Values(a[..j]) + if a[j] == 0 then {} else {a[j]}
    ensures a[j] != 0 ==> a[j] in Values(a)
  {
    assert a[..j + 1] == a[..j] + [a[j]];
    ValuesAppend(a[..j], a[j]);
  }

  /** The first empty slot on the walk from the home of v. */
  method FreeSlot(a: seq<nat>, v: nat) returns (h: nat)
    requires v > 0 && NoGap(a) && Used(a) < |a|
    ensures h < |a| && a[h] == 0
    ensures NoGap(a[h := v]) && Values(a[h := v]) == Values(a) + {v} && Used(a[h := v]) == Used(a) + 1
  {
    h := Home(v, |a|);
    ghost var e := SomeEmpty(a);
    while a[h] != 0
      invariant h < |a|
      invariant forall t :: 0 <= t < |a| && Before(Home(v, |a|), t, h) ==> a[t] != 0
      decreases Distance(h, e, |a|)
    {
      h := Next(h, |a|);
    }
    UsedUpdate(a, h, v);
    ValuesUpdate(a, h, v);
    assert NoGap(a[h := v]);
  }
}
