/** destroyTable: the order in which the root pages of a table are freed. */
module DestroyOrder {

  /** The roots of the table's own b-tree and of its indexes; zero means none. */
  ghost function Roots(iTab: nat, idx: seq<nat>): set<nat> {
    (set i | 0 <= i < |idx| :: idx[i]) + {iTab} - {0}
  }

  /** Strictly descending, so nothing occurs twice. */
  ghost predicate Descending(s: seq<nat>) {
    forall i, j :: 0 <= i < j < |s| ==> s[i] > s[j]
  }

  /** The largest root below iDestroyed, or the largest of all at first; zero if none. */
  method NextRoot(iTab: nat, idx: seq<nat>, iDestroyed: nat) returns (iLargest: nat)
    ensures iLargest == 0 || (iLargest in Roots(iTab, idx) && (iDestroyed == 0 || iLargest < iDestroyed))
    ensures forall r :: r in Roots(iTab, idx) && (iDestroyed == 0 || r < iDestroyed) ==> r <= iLargest
  {
    iLargest := 0;
    if iDestroyed == 0 || iTab < iDestroyed {
      iLargest := iTab;
    }
    for i := 0 to |idx|
      invariant iLargest == 0 || iLargest == iTab || iLargest in idx[..i]
      invariant iLargest == 0 || iDestroyed == 0 || iLargest < iDestroyed
      invariant iDestroyed == 0 || iTab < iDestroyed ==> iTab <= iLargest
      invariant forall k :: 0 <= k < i && (iDestroyed == 0 || idx[k] < iDestroyed) ==> idx[k] <= iLargest
    {
      if (iDestroyed == 0 || idx[i] < iDestroyed) && idx[i] > iLargest {
        iLargest := idx[i];
      }
    }
  }

  /** Every distinct root is destroyed exactly once, the largest first. */
  method DestroyTable(iTab: nat, idx: seq<nat>) returns (ops: seq<nat>)
    ensures Descending(ops)
    ensures forall r :: r in ops <==> r in Roots(iTab, idx)
  {
    ops := [];
    var iDestroyed := 0;
    while true
      invariant Descending(ops)
      invariant iDestroyed == if ops == [] then 0 else ops[|ops| - 1]
      invariant forall r :: r in ops <==> r in Roots(iTab, idx) && ops != [] && r >= iDestroyed
      invariant forall r :: r in Roots(iTab, idx) ==> r > 0
      decreases if ops == [] then 1 else 0, iDestroyed
    {
      var iLargest := NextRoot(iTab, idx, iDestroyed);
      if iLargest == 0 {
        return;
      }
      ops := ops + [iLargest];
      iDestroyed := iLargest;
    }
  }

  // ------------------------------------------------ auto-vacuum moves the last root

  /** The b-trees of a database, here just numbers, by root page. */
  type Pages = map<nat, nat>

  ghost predicate OneRootEach(m: Pages) {
    forall p, q :: p in m && q in m && m[p] == m[q] ==> p == q
  }

  ghost predicate IsLast(m: Pages, p: nat) {
    p in m && forall q :: q in m ==> q <= p
  }

  /** OP_Destroy on page p: the b-tree there is gone, and the one with the largest
      root in the database may be moved into its place. */
  ghost predicate Destroyed(m: Pages, p: nat, m': Pages) {
    && p in m
    && (m' == m - {p} || exists q: nat :: IsLast(m, q) && q != p && m' == (m - {p, q})[p := m[q]])
  }

  ghost predicate Run(ms: seq<Pages>, ops: seq<nat>) {
    |ms| == |ops| + 1 && forall i {:trigger ops[i]} :: 0 <= i < |ops| ==> Destroyed(ms[i], ops[i], ms[i + 1])
  }

  /** A page below p keeps its b-tree when p is destroyed, and only the b-tree at
      p is lost. */
  lemma OneDestroyed(m: Pages, p: nat, m': Pages)
    requires Destroyed(m, p, m') && OneRootEach(m)
    ensures OneRootEach(m') && m'.Values == m.Values - {m[p]}
    ensures forall r :: r in m && r < p ==> r in m' && m'[r] == m[r]
  {
    if m' != m - {p} {
      var q: nat :| IsLast(m, q) && q != p && m' == (m - {p, q})[p := m[q]];
      forall t | t in m.Values - {m[p]} ensures t in m'.Values {
        var r :| r in m && m[r] == t;
        assert m'[if r == q then p else r] == t;
      }
    } else {
      forall t | t in m.Values - {m[p]} ensures t in m'.Values {
        var r :| r in m && m[r] == t;
        assert m'[r] == t;
      }
    }
  }

  /** In descending order every OP_Destroy finds the b-tree that had that root to
      begin with: nothing still to be destroyed is ever moved. */
  lemma {:induction false} NeverRelocated(ms: seq<Pages>, ops: seq<nat>, i: nat, r: nat)
    requires Run(ms, ops) && OneRootEach(ms[0]) && i <= |ops| && r in ms[0] && forall k :: 0 <= k < i ==> r < ops[k]
    ensures OneRootEach(ms[i]) && r in ms[i] && ms[i][r] == ms[0][r]
  {
    if i > 0 {
      NeverRelocated(ms, ops, i - 1, r);
      OneDestroyed(ms[i - 1], ops[i - 1], ms[i]);
    }
  }

  /** The b-trees that had the pages ops to begin with. */
  ghost function TreesAt(m: Pages, ops: seq<nat>): set<nat>
    requires forall k :: 0 <= k < |ops| ==> ops[k] in m
  {
    set k | 0 <= k < |ops| :: m[ops[k]]
  }

  /** What is destroyed is the table and its indexes, and nothing else. */
  lemma {:induction false} OthersSurvive(ms: seq<Pages>, ops: seq<nat>, i: nat)
    requires Run(ms, ops) && Descending(ops) && OneRootEach(ms[0]) && i <= |ops|
    requires forall k :: 0 <= k < |ops| ==> ops[k] in ms[0]
    ensures ms[i].Values == ms[0].Values - TreesAt(ms[0], ops[..i])
    ensures OneRootEach(ms[i])
  {
    if i > 0 {
      var r := ops[i - 1];
      OthersSurvive(ms, ops, i - 1);
      NeverRelocated(ms, ops, i - 1, r);
      OneDestroyed(ms[i - 1], r, ms[i]);
      assert ops[..i] == ops[..i - 1] + [r];
      assert TreesAt(ms[0], ops[..i]) == TreesAt(ms[0], ops[..i - 1]) + {ms[0][r]};
    }
  }

  /** In the other order the b-tree at page 5 would be moved before it is destroyed,
      and page 5 would then be free. */
  lemma AscendingFails()
    ensures var m: Pages := map[4 := 1, 5 := 2];
            exists m' :: Destroyed(m, 4, m') && 4 in m' && m'[4] == 2 && 5 !in m'
  {
    var m: Pages := map[4 := 1, 5 := 2];
    var m' := (m - {4, 5})[4 := m[5]];
    assert IsLast(m, 5);
    assert Destroyed(m, 4, m');
  }
}
