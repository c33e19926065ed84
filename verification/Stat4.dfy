/** The STAT4 sampler: stat_init, stat_push and the final step of stat_get. */
module Stat4 {
  import opened Arithmetic
  import opened Sequences
  import opened IndexRows
  import opened SampleOrder
  import opened SampleHistory
  import opened SampleCoverage

  /** Periodic samples of `a` are all still in `b`. */
  ghost predicate PeriodicKept(a: seq<Sample>, b: seq<Sample>) {
    forall x :: 0 <= x < |a| && a[x].isPSample ==> a[x] in b
  }

  ghost predicate FilledAll(a: seq<Sample>, b: seq<Sample>, c: nat, counts: seq<nat>)
    requires AllWide(a, |counts|)
  {
    |a| == |b| && forall x :: 0 <= x < |a| ==> b[x] == FilledFrom(a[x], c, counts)
  }

  /** Ending the groups from column c on, for the whole array. */
  lemma FillSamples(h: Scan, a: seq<Sample>, b: seq<Sample>, cur: Sample, c: nat)
    requires h.Started() && SamplesOk(h, a, c, h.nCol) && CurrentOk(h, cur)
    requires FilledAll(a, b, c, cur.anEq)
    ensures SamplesOk(h, b, c, c)
    ensures NoZeroFrom(b, h.nCol, c)
  {
    forall x | 0 <= x < |b|
      ensures SampleOk(h, b[x], c, c) && RowOf(b[x]) == RowOf(a[x])
      ensures forall j :: c <= j < h.nCol ==> b[x].anEq[j] != 0
    {
      assert SampleOk(h, a[x], c, h.nCol);
      FilledOk(h, a[x], cur, c, c);
      forall j | c <= j < h.nCol
        ensures b[x].anEq[j] != 0
      {
        NEqPositive(h.rows, h.nCol, RowOf(cur), j);
        assert cur.anEq[j] == h.Eq(RowOf(cur), j);
      }
    }
  }

  lemma FillKeepsMin(h: Scan, a: seq<Sample>, b: seq<Sample>, cur: Sample, c: nat, mxSample: nat, iMin: nat)
    requires h.Started() && SamplesOk(h, a, c, h.nCol) && CurrentOk(h, cur)
    requires FilledAll(a, b, c, cur.anEq)
    requires MinOk(a, h.nCol, mxSample, iMin)
    ensures AllWide(b, h.nCol) && MinOk(b, h.nCol, mxSample, iMin)
  {
    forall x | 0 <= x < |b|
      ensures Wide(b[x], h.nCol)
      ensures !a[x].isPSample ==> Key(b[x]) == Key(a[x])
      ensures a[x].isPSample == b[x].isPSample
    {
      assert SampleOk(h, a[x], c, h.nCol);
      FilledOk(h, a[x], cur, c, c);
    }
    if |b| == mxSample {
      forall x | 0 <= x < |b| && !b[x].isPSample
        ensures !Better(b[iMin], b[x])
      {
        assert !Better(a[iMin], a[x]);
      }
    }
  }

  lemma FillKeepsPeriodic(h: Scan, a: seq<Sample>, b: seq<Sample>, c: nat, counts: seq<nat>, n: nat)
    requires h.nPSample > 0 && |counts| == h.nCol && AllWide(a, h.nCol) && AllWide(b, h.nCol)
    requires FilledAll(a, b, c, counts) && KeepsPeriodic(h, a, n)
    ensures KeepsPeriodic(h, b, n)
  {
    forall k: nat | k < n && h.Periodic(k)
      ensures exists x :: 0 <= x < |b| && IsPeriodicRow(b[x], k)
    {
      var x :| 0 <= x < |a| && IsPeriodicRow(a[x], k);
      assert IsPeriodicRow(b[x], k);
    }
  }

  lemma KeptIsKept(h: Scan, a: seq<Sample>, b: seq<Sample>, n: nat)
    requires h.nPSample > 0 && AllWide(a, h.nCol) && AllWide(b, h.nCol)
    requires PeriodicKept(a, b) && KeepsPeriodic(h, a, n)
    ensures KeepsPeriodic(h, b, n)
  {
    forall k: nat | k < n && h.Periodic(k)
      ensures exists x :: 0 <= x < |b| && IsPeriodicRow(b[x], k)
    {
      var x :| 0 <= x < |a| && IsPeriodicRow(a[x], k);
      var y :| 0 <= y < |b| && b[y] == a[x];
      assert IsPeriodicRow(b[y], k);
    }
  }

  /** `t` counts the row after the one `s` counts, when column c changed. */
  ghost predicate Advanced(s: Sample, t: Sample, c: nat)
    requires |s.anEq| == |s.anLt| == |s.anDLt| == |t.anEq| == |t.anLt| == |t.anDLt|
  {
    && (forall j :: 0 <= j < |s.anEq| ==> t.anEq[j] == if j < c then s.anEq[j] + 1 else 1)
    && (forall j :: 0 <= j < |s.anEq| ==> t.anLt[j] == if j < c then s.anLt[j] else s.anLt[j] + s.anEq[j])
    && (forall j :: 0 <= j < |s.anEq| ==> t.anDLt[j] == if j < c then s.anDLt[j] else s.anDLt[j] + 1)
  }

  /** The counters stat_push leaves for the new row are that row's counts. */
  lemma CountersAfterPush(h: Scan, g: Scan, s: Sample, t: Sample, c: nat)
    requires Grows(h, g) && CurrentOk(h, s) && c == Changed(g.rows, |h.rows|)
    requires Wide(t, h.nCol) && !t.isPSample && t.rowid == g.ids[|h.ids|]
    requires Advanced(s, t, c)
    ensures CurrentOk(g, t)
  {
    hide NEq;
    var n := |h.rows|;
    forall j | 0 <= j < h.nCol
      ensures t.anEq[j] == g.Eq(n, j) && t.anLt[j] == g.Lt(n, j) && t.anDLt[j] == g.DLt(n, j)
    {
      CountsOfNewRow(h.rows, g.rows, h.nCol, j);
      assert s.anEq[j] == h.Eq(n - 1, j) && s.anLt[j] == h.Lt(n - 1, j) && s.anDLt[j] == h.DLt(n - 1, j);
    }
    NLtOfWholeRow(g.rows, g.nCol, n);
  }

  lemma CountersOfFirstRow(g: Scan, t: Sample)
    requires g.Started() && |g.rows| == 1
    requires Wide(t, g.nCol) && !t.isPSample && t.rowid == g.ids[0]
    requires forall j :: 0 <= j < g.nCol ==> t.anEq[j] == 1 && t.anLt[j] == 0 && t.anDLt[j] == 0
    ensures CurrentOk(g, t)
  {
    forall j | 0 <= j < g.nCol
      ensures g.Eq(0, j) == 1 && g.Lt(0, j) == 0 && g.DLt(0, j) == 0
    {
      CountsOfFirstRow(g.rows, g.nCol, j);
    }
  }

  ghost predicate BestsOk(h: Scan, aBest: seq<Sample>)
    requires h.Started() && |aBest| == h.nCol
  {
    BestsUpTo(h, aBest, h.nCol - 1)
  }

  ghost predicate BestsUpTo(h: Scan, aBest: seq<Sample>, n: nat)
    requires h.Started() && |aBest| == h.nCol && n <= h.nCol - 1
  {
    forall i {:trigger BestOk(h, aBest[i], i)} :: 0 <= i < n ==>
      BestOk(h, aBest[i], i) && BestOfGroup(h, PostKey(aBest[i], i), i)
  }

  lemma ChangedColumn(h: Scan, s: Sample, i: nat)
    requires h.Started() && CurrentOk(h, s) && i < h.nCol
    ensures CurrentOk(h, s.(iCol := i))
  {
  }

  lemma NoBestYet(h: Scan, aBest: seq<Sample>)
    requires h.Started() && |aBest| == h.nCol
    ensures h.nCol > 0 && BestsUpTo(h, aBest, 0)
  {
  }

  lemma BestAt(h: Scan, aBest: seq<Sample>, i: nat)
    requires h.Started() && |aBest| == h.nCol && i < h.nCol - 1 && BestsOk(h, aBest)
    ensures BestOk(h, aBest[i], i) && BestOfGroup(h, PostKey(aBest[i], i), i)
  {
  }

  lemma OneMoreBest(h: Scan, aBest: seq<Sample>, n: nat, best: Sample)
    requires h.Started() && |aBest| == h.nCol && n < h.nCol - 1 && BestsUpTo(h, aBest, n)
    requires BestOk(h, best, n) && BestOfGroup(h, PostKey(best, n), n)
    ensures BestsUpTo(h, aBest[n := best], n + 1)
  {
    hide BestOfGroup;
    var a := aBest[n := best];
    forall i | 0 <= i < n + 1 ensures BestOk(h, a[i], i) && BestOfGroup(h, PostKey(a[i], i), i) {
      assert i < n ==> BestOk(h, aBest[i], i);
    }
  }

  /** Taking the new row as aBest[i] is right when the group starts with it or
      when it is better. */
  lemma Replaced(h: Scan, g: Scan, b: Sample, cur: Sample, i: nat)
    requires Grows(h, g) && i < h.nCol - 1 && Wide(b, h.nCol) && BestOfGroup(h, PostKey(b, i), i)
    requires CurrentOk(g, cur) && cur.iHash == Prn(g.seed, |g.rows|)
    requires Changed(g.rows, |h.rows|) <= i || LexGt(PostKey(cur, i), PostKey(b, i))
    ensures BestOk(g, cur.(iCol := i), i) && BestOfGroup(g, PostKey(cur, i), i)
  {
    CurrentIsBest(g, cur, i);
    CandidateOfCurrent(g, cur, i);
    BestOfGroupAfterPush(h, g, PostKey(b, i), PostKey(cur, i), i);
  }

  lemma Retained(h: Scan, g: Scan, b: Sample, cur: Sample, i: nat)
    requires Grows(h, g) && i < h.nCol - 1 && BestOk(h, b, i) && BestOfGroup(h, PostKey(b, i), i)
    requires CurrentOk(g, cur) && cur.iHash == Prn(g.seed, |g.rows|)
    requires i < Changed(g.rows, |h.rows|) && !LexGt(PostKey(cur, i), PostKey(b, i))
    ensures BestOk(g, b, i) && BestOfGroup(g, PostKey(b, i), i)
  {
    BestAfterPush(h, g, b, cur, i);
    CandidateOfCurrent(g, cur, i);
    BestOfGroupAfterPush(h, g, PostKey(b, i), PostKey(cur, i), i);
  }

  lemma FirstReplaced(g: Scan, cur: Sample, i: nat)
    requires g.Started() && |g.rows| == 1 && i < g.nCol - 1
    requires CurrentOk(g, cur) && cur.iHash == Prn(g.seed, 1)
    ensures BestOk(g, cur.(iCol := i), i) && BestOfGroup(g, PostKey(cur, i), i)
  {
    CurrentIsBest(g, cur, i);
    CandidateOfCurrent(g, cur, i);
    FirstRowIsBest(g, i);
  }

  lemma ReadyChampion(h: Scan, b: Sample, cur: Sample, i: nat)
    requires h.Started() && i < h.nCol - 1 && BestOk(h, b, i) && BestOfGroup(h, PostKey(b, i), i) && CurrentOk(h, cur)
    ensures ReadyFor(h, b.(anEq := b.anEq[i := cur.anEq[i]]), i)
  {
    hide Candidate;
    hide LexGt;
    assert PostKey(b.(anEq := b.anEq[i := cur.anEq[i]]), i) == PostKey(b, i);
    NewestIsOpen(h, i);
    OpenGroupSize(h, RowOf(b), RowOf(cur), i);
    assert cur.anEq[i] == h.Eq(RowOf(cur), i);
  }

  /** Recording the final size of its group makes aBest[i] ready to be stored. */
  lemma CompleteBest(h: Scan, aBest: seq<Sample>, cur: Sample, i: nat)
    requires h.Started() && i < h.nCol - 1 && |aBest| == h.nCol && BestsOk(h, aBest) && CurrentOk(h, cur)
    ensures Wide(aBest[i], h.nCol)
    ensures var b := aBest[i].(anEq := aBest[i].anEq[i := cur.anEq[i]]);
            ReadyFor(h, b, i) && BestsOk(h, aBest[i := b])
  {
    assert BestOk(h, aBest[i], i);
    var b := aBest[i].(anEq := aBest[i].anEq[i := cur.anEq[i]]);
    ReadyChampion(h, aBest[i], cur, i);
    assert PostKey(b, i) == PostKey(aBest[i], i);
    var c := aBest[i := b];
    forall x | 0 <= x < h.nCol - 1
      ensures BestOk(h, c[x], x) && BestOfGroup(h, PostKey(c[x], x), x)
    {
      assert BestOk(h, aBest[x], x);
    }
  }

  lemma ChampionHasNoZero(h: Scan, b: Sample, i: nat)
    requires h.Started() && i < h.nCol - 1 && ReadyFor(h, b, i)
    ensures forall j :: i <= j < h.nCol ==> b.anEq[j] != 0
  {
    forall j | i <= j < h.nCol
      ensures b.anEq[j] != 0
    {
      NEqPositive(h.rows, h.nCol, RowOf(b), j);
      assert b.anEq[j] == h.Eq(RowOf(b), j);
    }
  }

  lemma StoredAfterPush(h: Scan, g: Scan, a: seq<Sample>, c: nat)
    requires Grows(h, g) && c == Changed(g.rows, |h.rows|) && SamplesOk(h, a, c, c)
    ensures SamplesOk(g, a, g.nCol - 1, g.nCol)
    ensures forall x :: 0 <= x < |a| ==> RowOf(a[x]) < |g.rows| - 1
  {
    forall x | 0 <= x < |a|
      ensures Placed(g, a[x]) && SampleOk(g, a[x], g.nCol - 1, g.nCol) && RowOf(a[x]) < |g.rows| - 1
    {
      assert SampleOk(h, a[x], c, c);
      SampleAfterPush(h, g, a[x], c);
    }
  }

  /** Facts about a[] that hold at every step of a scan. */
  ghost predicate Tidy(h: Scan, a: seq<Sample>, mxSample: nat, iMin: nat, nMaxEqZero: nat, n: nat)
    requires h.Valid()
  {
    && AllWide(a, h.nCol)
    && MinOk(a, h.nCol, mxSample, iMin)
    && NoZeroFrom(a, h.nCol, nMaxEqZero)
    && KeepsPeriodic(h, a, n)
  }

  lemma TidyAfterPush(h: Scan, g: Scan, a: seq<Sample>, mxSample: nat, iMin: nat, nMaxEqZero: nat, n: nat)
    requires Grows(h, g) && Tidy(h, a, mxSample, iMin, nMaxEqZero, n)
    ensures Tidy(g, a, mxSample, iMin, nMaxEqZero, n)
  {
    forall k: nat | k < n && g.Periodic(k)
      ensures exists x :: 0 <= x < |a| && IsPeriodicRow(a[x], k)
    {
      assert h.Periodic(k);
    }
  }

  // -------------------------------------------------- the parts of sampleInsert

  /** `a[u]` is the preferred one among the stored samples of the level-i group,
      none of which is periodic. */
  ghost predicate Preferred(h: Scan, a: seq<Sample>, u: nat, i: nat)
    requires h.Started() && AllPlaced(h, a)
  {
    && u < |a| && h.Open(RowOf(a[u]), i) && !a[u].isPSample
    && forall x :: 0 <= x < |a| && h.Open(RowOf(a[x]), i) ==> !a[x].isPSample && !Better(a[x], a[u])
  }

  ghost predicate NoneOpen(h: Scan, a: seq<Sample>, i: nat)
    requires h.Started() && AllPlaced(h, a)
  {
    forall x :: 0 <= x < |a| ==> !h.Open(RowOf(a[x]), i)
  }

  /** A preferred sample of a[from..], or none if nothing there is open. */
  ghost predicate PreferredFrom(h: Scan, a: seq<Sample>, from: nat, u: int, i: nat)
    requires h.Started() && AllPlaced(h, a) && from <= |a|
  {
    && (u == -1 || from <= u < |a|)
    && (u == -1 ==> forall x :: from <= x < |a| ==> !h.Open(RowOf(a[x]), i))
    && (u != -1 ==>
          && h.Open(RowOf(a[u]), i) && !a[u].isPSample
          && forall x :: from <= x < |a| && h.Open(RowOf(a[x]), i) ==> !a[x].isPSample && !Better(a[x], a[u]))
  }

  /** Extending the search by one candidate that beats the choice so far. */
  lemma PreferNext(h: Scan, a: seq<Sample>, from: nat, u: int, i: nat)
    requires h.Started() && AllPlaced(h, a) && 0 < from <= |a| && PreferredFrom(h, a, from, u, i)
    requires h.Open(RowOf(a[from - 1]), i) && !a[from - 1].isPSample
    requires u == -1 || Better(a[from - 1], a[u])
    ensures PreferredFrom(h, a, from - 1, from - 1, i)
  {
    var v := from - 1;
    LexGtIrreflexive(Key(a[v]));
    forall x | v <= x < |a| && h.Open(RowOf(a[x]), i)
      ensures !a[x].isPSample && !Better(a[x], a[v])
    {
      if x > v && Better(a[x], a[v]) {
        BetterTransitive(a[x], a[v], a[u]);
      }
    }
  }

  lemma AllPlacedOf(h: Scan, a: seq<Sample>, lvl: nat, lo: nat)
    requires h.Started() && SamplesOk(h, a, lvl, lo)
    ensures AllPlaced(h, a) && AllWide(a, h.nCol)
  {
    forall x | 0 <= x < |a|
      ensures Placed(h, a[x])
    {
      assert SampleOk(h, a[x], lvl, lo);
    }
  }

  /** Extending it by one that does not. */
  lemma PreferSame(h: Scan, a: seq<Sample>, from: nat, u: int, i: nat)
    requires h.Started() && AllPlaced(h, a) && 0 < from <= |a| && PreferredFrom(h, a, from, u, i)
    requires h.Open(RowOf(a[from - 1]), i) ==> u != -1 && !a[from - 1].isPSample && !Better(a[from - 1], a[u])
    ensures PreferredFrom(h, a, from - 1, u, i)
  {
  }

  /** What sampleInsert learns, and asserts, about one stored sample. */
  lemma Examine(h: Scan, a: seq<Sample>, x: nat, b: Sample)
    requires h.Started() && b.iCol < h.nCol - 1 && x < |a|
    requires SamplesOk(h, a, b.iCol + 1, h.nCol) && ReadyFor(h, b, b.iCol)
    ensures a[x].anEq[b.iCol] == 0 <==> h.Open(RowOf(a[x]), b.iCol)
    ensures h.Open(RowOf(a[x]), b.iCol) && !a[x].isPSample ==> a[x].iCol > b.iCol && Better(b, a[x])
  {
    ZeroIffOpen(h, a[x], b.iCol + 1, b.iCol);
    if h.Open(RowOf(a[x]), b.iCol) && !a[x].isPSample {
      ChampionIsBetter(h, b, a[x], b.iCol + 1, b.iCol);
    }
  }

  /** Look for stored samples of the group pNew stands for.  Either a periodic
      one is found, or the preferred one among them, or none exists (-1). */
  method FindUpgrade(ghost h: Scan, a: seq<Sample>, nCol: nat, pNew: Sample) returns (periodic: bool, upgrade: int)
    requires h.Started() && h.nCol == nCol && pNew.iCol < nCol - 1
    requires SamplesOk(h, a, pNew.iCol + 1, nCol) && AllPlaced(h, a) && ReadyFor(h, pNew, pNew.iCol)
    ensures periodic ==> exists x :: 0 <= x < |a| && a[x].isPSample && h.Open(RowOf(a[x]), pNew.iCol)
    ensures !periodic ==> PreferredFrom(h, a, 0, upgrade, pNew.iCol)
  {
    hide LexGt;
    hide Chosen;
    hide Candidate;
    periodic, upgrade := false, -1;
    var i := |a|;
    while i > 0
      invariant 0 <= i <= |a|
      invariant PreferredFrom(h, a, i, upgrade, pNew.iCol)
    {
      var pOld := a[i - 1];
      Examine(h, a, i - 1, pNew);
      if pOld.anEq[pNew.iCol] == 0 {
        if pOld.isPSample {
          return true, -1;
        }
        assert pOld.iCol > pNew.iCol;
        assert Better(pNew, pOld);
        var better := true;
        if upgrade != -1 {
          better := SampleIsBetter(nCol, pOld, a[upgrade]);
        }
        if better {
          PreferNext(h, a, i, upgrade, pNew.iCol);
          upgrade := i - 1;
        } else {
          PreferSame(h, a, i, upgrade, pNew.iCol);
        }
      } else {
        PreferSame(h, a, i, upgrade, pNew.iCol);
      }
      i := i - 1;
    }
  }

  /** The least preferred non-periodic sample among a[..n]. */
  ghost predicate LeastOf(a: seq<Sample>, nCol: nat, n: nat, min: int)
    requires AllWide(a, nCol) && n <= |a|
  {
    && -1 <= min < n
    && (min == -1 ==> forall x :: 0 <= x < n ==> a[x].isPSample)
    && (min != -1 ==> !a[min].isPSample && forall x :: 0 <= x < n && !a[x].isPSample ==> !Better(a[min], a[x]))
  }

  lemma LeastNext(a: seq<Sample>, nCol: nat, n: nat, min: int)
    requires AllWide(a, nCol) && n < |a| && LeastOf(a, nCol, n, min) && !a[n].isPSample
    requires min == -1 || Better(a[min], a[n])
    ensures LeastOf(a, nCol, n + 1, n)
  {
    LexGtIrreflexive(Key(a[n]));
    forall x | 0 <= x < n && !a[x].isPSample
      ensures !Better(a[n], a[x])
    {
      if Better(a[n], a[x]) {
        BetterTransitive(a[min], a[n], a[x]);
      }
    }
  }

  /** find_new_min: choose the next sample to evict when a[] is full.  `ok` says
      whether there is one, as the source asserts. */
  method FindNewMin(ghost h: Scan, a: seq<Sample>, nCol: nat, mxSample: nat, iMin: nat, ghost lvl: nat)
    returns (ok: bool, r: nat)
    requires h.Started() && h.nCol == nCol && mxSample > 0 && |a| <= mxSample
    requires SamplesOk(h, a, lvl, nCol) && AllWide(a, nCol)
    ensures ok <==> |a| < mxSample || exists x :: 0 <= x < |a| && !a[x].isPSample
    ensures ok ==> MinOk(a, nCol, mxSample, r)
    ensures |h.rows| < mxSample * h.nPSample ==> ok
  {
    hide Better;
    ok, r := true, iMin;
    if |a| >= mxSample {
      var min := -1;
      for i := 0 to mxSample
        invariant LeastOf(a, nCol, i, min)
      {
        if !a[i].isPSample {
          var better := true;
          if min >= 0 {
            better := SampleIsBetter(nCol, a[min], a[i]);
          }
          if better {
            LeastNext(a, nCol, i, min);
            min := i;
          }
        }
      }
      if |h.rows| < mxSample * h.nPSample {
        SomeNonPeriodic(h, a, lvl, nCol, mxSample);
      }
      ok := min >= 0;
      if ok {
        r := min;
      }
    }
  }

  /** What stays of a[] when there must be room for one more sample. */
  function Room(a: seq<Sample>, mxSample: nat, iMin: nat): seq<Sample>
    requires |a| >= mxSample ==> iMin < |a|
  {
    if |a| < mxSample then a else Removed(a, iMin)
  }

  /** `z` joins without uncovering a higher-ranked group. */
  lemma CoverAfterJoin(h: Scan, a: seq<Sample>, mxSample: nat, iMin: nat, z: Sample, lvl: nat)
    requires h.Started() && mxSample > 0 && Placed(h, z)
    requires AllPlaced(h, a) && AllWide(a, h.nCol) && SamplesOk(h, a, lvl, h.nCol) && Covered(h, a, mxSample, lvl)
    requires MinOk(a, h.nCol, mxSample, iMin)
    requires |a| == mxSample ==> z.isPSample || ScoreLe(a[iMin].anEq[a[iMin].iCol], a[iMin].iCol, z)
    ensures var b := Room(a, mxSample, iMin) + [z];
            AllPlaced(h, b) && AllWide(b, h.nCol) && Covered(h, b, mxSample, lvl)
  {
    if |a| < mxSample {
      CoverAfterAppend(h, a, z, mxSample, lvl);
    } else {
      CoverAfterEviction(h, a, iMin, z, lvl);
    }
  }

  /** `kept` is what stays of `a` when room is made for one more sample. */
  ghost predicate Kept(h: Scan, a: seq<Sample>, kept: seq<Sample>, mxSample: nat, lvl: nat)
    requires h.Started()
  {
    && |kept| < mxSample && SamplesOk(h, kept, lvl, h.nCol) && PeriodicKept(a, kept)
    && forall x :: 0 <= x < |kept| ==> kept[x] in a
  }

  /** Remove sample iMin if there is no room for another. */
  method MakeRoom(ghost h: Scan, a: seq<Sample>, mxSample: nat, iMin: nat, ghost lvl: nat) returns (kept: seq<Sample>)
    requires h.Started() && mxSample > 0 && SamplesOk(h, a, lvl, h.nCol) && AllWide(a, h.nCol)
    requires MinOk(a, h.nCol, mxSample, iMin)
    ensures Kept(h, a, kept, mxSample, lvl) && kept == Room(a, mxSample, iMin)
  {
    kept := a;
    if |a| >= mxSample {
      RemovedOk(h, a, iMin, lvl, h.nCol);
      kept := a[..iMin] + a[iMin + 1..];
      forall x | 0 <= x < |a| && a[x].isPSample
        ensures a[x] in kept
      {
        assert a[x] == kept[if x < iMin then x else x - 1];
      }
    }
  }

  /** A periodic sample joins the samples kept. */
  lemma PeriodicJoins(h: Scan, a: seq<Sample>, kept: seq<Sample>, s: Sample, mxSample: nat, iMin: nat, zero: nat)
    requires h.Started() && Kept(h, a, kept, mxSample, h.nCol - 1)
    requires Tidy(h, a, mxSample, iMin, zero, |h.rows| - 1)
    requires Located(h, s) && s.isPSample && RowOf(s) == |h.rows| - 1
    requires s.anEq[h.nCol - 1] == 1 && h.Periodic(RowOf(s))
    requires forall x :: 0 <= x < |a| ==> RowOf(a[x]) < |h.rows| - 1
    ensures var b := kept + [Zeroed(s, h.nCol - 1)];
            && SamplesOk(h, b, h.nCol - 1, h.nCol) && AllWide(b, h.nCol)
            && NoZeroFrom(b, h.nCol, if h.nCol - 1 > zero then h.nCol - 1 else zero)
            && KeepsPeriodic(h, b, |h.rows|)
  {
    var b := kept + [Zeroed(s, h.nCol - 1)];
    AppendPeriodic(h, kept, s);
    AllPlacedOf(h, b, h.nCol - 1, h.nCol);
    PeriodicKeptAfterJoin(h, a, kept, Zeroed(s, h.nCol - 1));
  }

  lemma PeriodicKeptAfterJoin(h: Scan, a: seq<Sample>, kept: seq<Sample>, s: Sample)
    requires h.Started() && AllWide(a, h.nCol) && AllWide(kept, h.nCol) && Wide(s, h.nCol)
    requires PeriodicKept(a, kept) && KeepsPeriodic(h, a, |h.rows| - 1)
    requires IsPeriodicRow(s, |h.rows| - 1)
    ensures AllWide(kept + [s], h.nCol) && KeepsPeriodic(h, kept + [s], |h.rows|)
  {
    var b := kept + [s];
    KeptIsKept(h, a, kept, |h.rows| - 1);
    forall k: nat | k < |h.rows| && h.Periodic(k)
      ensures exists x :: 0 <= x < |b| && IsPeriodicRow(b[x], k)
    {
      if k < |h.rows| - 1 {
        var x :| 0 <= x < |kept| && IsPeriodicRow(kept[x], k);
        assert b[x] == kept[x];
      } else {
        assert b[|kept|] == s;
      }
    }
  }

  /** The champion of a group joins the samples kept. */
  lemma ChampionJoins(h: Scan, a: seq<Sample>, kept: seq<Sample>, b: Sample, mxSample: nat, iMin: nat, zero: nat,
                      n: nat)
    requires h.Started() && b.iCol < h.nCol - 1 && ReadyFor(h, b, b.iCol)
    requires AllPlaced(h, a) && NoneOpen(h, a, b.iCol)
    requires Kept(h, a, kept, mxSample, b.iCol + 1) && Tidy(h, a, mxSample, iMin, zero, n) && b.iCol <= zero
    ensures var c := kept + [Zeroed(b, b.iCol)];
            && AllPlaced(h, c) && AllWide(c, h.nCol)
            && SamplesOk(h, c, b.iCol, h.nCol) && Represented(h, c, b.iCol)
            && NoZeroFrom(c, h.nCol, zero) && KeepsPeriodic(h, c, n)
  {
    hide SamplesOk;
    var c := kept + [Zeroed(b, b.iCol)];
    forall x | 0 <= x < |kept|
      ensures !h.Open(RowOf(kept[x]), b.iCol)
    {
      var y :| 0 <= y < |a| && a[y] == kept[x];
    }
    AppendChampion(h, kept, b, b.iCol);
    AllPlacedOf(h, c, b.iCol, h.nCol);
    ChampionHasNoZero(h, b, b.iCol);
    assert NoZeroFrom(c, h.nCol, zero);
    assert PeriodicKept(a, c) by {
      forall x | 0 <= x < |a| && a[x].isPSample
        ensures a[x] in c
      {
        var y :| 0 <= y < |kept| && kept[y] == a[x];
        assert c[y] == a[x];
      }
    }
    KeptIsKept(h, a, c, n);
  }

  /** The preferred sample of a group is promoted in the champion's stead. */
  lemma UpgradeStands(h: Scan, a: seq<Sample>, u: nat, b: Sample, mxSample: nat, iMin: nat, zero: nat, n: nat)
    requires h.Started() && b.iCol < h.nCol - 1 && ReadyFor(h, b, b.iCol)
    requires AllPlaced(h, a) && SamplesOk(h, a, b.iCol + 1, h.nCol) && Represented(h, a, b.iCol + 1)
    requires Preferred(h, a, u, b.iCol) && Tidy(h, a, mxSample, iMin, zero, n)
    ensures var c := a[u := Promoted(a[u], b.iCol, b.anEq[b.iCol])];
            && AllPlaced(h, c) && AllWide(c, h.nCol)
            && SamplesOk(h, c, b.iCol, h.nCol) && Represented(h, c, b.iCol)
            && NoZeroFrom(c, h.nCol, zero) && KeepsPeriodic(h, c, n)
  {
    hide Same;
    var i := b.iCol;
    OpenGroupSize(h, RowOf(a[u]), RowOf(b), i);
    var c := a[u := Promoted(a[u], i, b.anEq[i])];
    PromoteChampion(h, a, u, i);
    AllPlacedOf(h, c, i, h.nCol);
    ChampionHasNoZero(h, b, i);
    assert NoZeroFrom(c, h.nCol, zero);
    assert PeriodicKept(a, c) by {
      assert forall x :: 0 <= x < |a| && a[x].isPSample ==> c[x] == a[x];
    }
    KeptIsKept(h, a, c, n);
  }

  /** A stored periodic sample of the group makes the champion unnecessary. */
  lemma PeriodicStands(h: Scan, a: seq<Sample>, mxSample: nat, i: nat)
    requires h.Started() && i < h.nCol - 1 && AllPlaced(h, a) && AllWide(a, h.nCol)
    requires SamplesOk(h, a, i + 1, h.nCol) && Covered(h, a, mxSample, i + 1)
    requires exists x :: 0 <= x < |a| && a[x].isPSample && h.Open(RowOf(a[x]), i)
    ensures SamplesOk(h, a, i, h.nCol) && Represented(h, a, i) && Covered(h, a, mxSample, i)
  {
    SamplesOkWeaken(h, a, i + 1, i, h.nCol);
    var x :| 0 <= x < |a| && a[x].isPSample && h.Open(RowOf(a[x]), i);
    assert Stands(h, a[x], i);
    CoverByStanding(h, a, mxSample, i, x);
  }

  /** Storing the champion covers its group. */
  lemma ChampionCovers(h: Scan, a: seq<Sample>, b: Sample, mxSample: nat, iMin: nat)
    requires h.Started() && mxSample > 0 && b.iCol < h.nCol - 1 && ReadyFor(h, b, b.iCol)
    requires AllPlaced(h, a) && AllWide(a, h.nCol) && SamplesOk(h, a, b.iCol + 1, h.nCol)
    requires Covered(h, a, mxSample, b.iCol + 1) && MinOk(a, h.nCol, mxSample, iMin)
    requires |a| == mxSample ==> Better(b, a[iMin])
    ensures var c := Room(a, mxSample, iMin) + [Zeroed(b, b.iCol)];
            AllPlaced(h, c) && AllWide(c, h.nCol) && Covered(h, c, mxSample, b.iCol)
  {
    var z := Zeroed(b, b.iCol);
    if |a| == mxSample {
      ScoreOfBetter(a[iMin], b);
    }
    CoverAfterJoin(h, a, mxSample, iMin, z, b.iCol + 1);
    var c := Room(a, mxSample, iMin) + [z];
    assert c[|c| - 1] == z && Stands(h, z, b.iCol);
    CoverByStanding(h, c, mxSample, b.iCol, |c| - 1);
  }

  /** sampleInsert for the champion of a group that has just ended; nMaxEqZero
      has been raised to its column. */
  method InsertChampion(ghost h: Scan, a: seq<Sample>, nCol: nat, mxSample: nat, iMin: nat,
                        pNew: Sample, ghost zero: nat, ghost n: nat)
    returns (b: seq<Sample>, r: nat)
    requires h.Started() && h.nCol == nCol && mxSample > 0
    requires |h.rows| < mxSample * h.nPSample
    requires pNew.iCol < nCol - 1 && pNew.iCol <= zero && ReadyFor(h, pNew, pNew.iCol)
    requires SamplesOk(h, a, pNew.iCol + 1, nCol) && Represented(h, a, pNew.iCol + 1)
    requires Tidy(h, a, mxSample, iMin, zero, n) && Covered(h, a, mxSample, pNew.iCol + 1)
    requires |a| == mxSample ==> Better(pNew, a[iMin])
    ensures SamplesOk(h, b, pNew.iCol, nCol) && Represented(h, b, pNew.iCol)
    ensures Tidy(h, b, mxSample, r, zero, n) && Covered(h, b, mxSample, pNew.iCol)
  {
    hide Same;
    hide Represented;
    var i := pNew.iCol;
    var periodic, upgrade := FindUpgrade(h, a, nCol, pNew);
    if periodic {
      PeriodicStands(h, a, mxSample, i);
      return a, iMin;
    }
    if upgrade >= 0 {
      UpgradeStands(h, a, upgrade, pNew, mxSample, iMin, zero, n);
      CoverAfterPromotion(h, a, upgrade, i, mxSample);
      OpenGroupSize(h, RowOf(a[upgrade]), RowOf(pNew), i);
      b := a[upgrade := Promoted(a[upgrade], i, pNew.anEq[i])];
    } else {
      var kept := MakeRoom(h, a, mxSample, iMin, i + 1);
      ChampionJoins(h, a, kept, pNew, mxSample, iMin, zero, n);
      ChampionCovers(h, a, pNew, mxSample, iMin);
      b := kept + [Zeroed(pNew, i)];
    }
    var ok;
    ok, r := FindNewMin(h, b, nCol, mxSample, iMin, i);
    assert ok;
  }

  /** Store the champion unless a[] is full of samples that are no worse. */
  method Offer(ghost h: Scan, a: seq<Sample>, nCol: nat, mxSample: nat, iMin: nat,
               pBest: Sample, nMaxEqZero: nat, ghost n: nat)
    returns (b: seq<Sample>, r: nat, zero: nat)
    requires h.Started() && h.nCol == nCol && mxSample > 0
    requires |h.rows| < mxSample * h.nPSample
    requires pBest.iCol < nCol - 1 && ReadyFor(h, pBest, pBest.iCol)
    requires SamplesOk(h, a, pBest.iCol + 1, nCol) && Represented(h, a, pBest.iCol + 1)
    requires Tidy(h, a, mxSample, iMin, nMaxEqZero, n) && Covered(h, a, mxSample, pBest.iCol + 1)
    ensures SamplesOk(h, b, pBest.iCol, nCol) && Represented(h, b, pBest.iCol)
    ensures Tidy(h, b, mxSample, r, zero, n) && Covered(h, b, mxSample, pBest.iCol)
    ensures zero == nMaxEqZero || zero == pBest.iCol
  {
    var take := |a| < mxSample;
    if !take {
      take := SampleIsBetter(nCol, pBest, a[iMin]);
    }
    zero := nMaxEqZero;
    if take {
      if pBest.iCol > zero {
        zero := pBest.iCol;
      }
      b, r := InsertChampion(h, a, nCol, mxSample, iMin, pBest, zero, n);
    } else {
      SkipIsSafe(h, a, pBest, pBest.iCol, iMin);
      CoverBySkip(h, a, pBest, pBest.iCol, iMin);
      b, r := a, iMin;
    }
  }

  /** After one row no group has ended. */
  lemma NothingEnded(g: Scan, mxSample: nat)
    requires g.Started() && |g.rows| == 1
    ensures AllPlaced(g, []) && AllWide([], g.nCol) && Covered(g, [], mxSample, g.nCol - 1)
  {
    forall i: nat | i < g.nCol - 1
      ensures g.Open(0, i)
    {
      NewestIsOpen(g, i);
    }
  }

  /** Replace aBest[i] by the new row if its group starts there or it is better. */
  method ChooseBest(best: Sample, current: Sample, iChng: nat, nCol: nat, ghost prev: Scan, ghost h: Scan)
    returns (r: Sample)
    requires h.Started() && h.nCol == nCol && CurrentOk(h, current) && current.iCol < nCol - 1
    requires current.iHash == Prn(h.seed, |h.rows|)
    requires prev.rows == [] ==> |h.rows| == 1 && iChng == 0
    requires prev.rows != [] ==>
               && Grows(prev, h) && iChng == Changed(h.rows, |prev.rows|)
               && BestOk(prev, best, current.iCol) && BestOfGroup(prev, PostKey(best, current.iCol), current.iCol)
    ensures BestOk(h, r, current.iCol) && BestOfGroup(h, PostKey(r, current.iCol), current.iCol)
  {
    var i := current.iCol;
    var take := i >= iChng;
    if !take {
      take := SampleIsBetterPost(nCol, current, best);
    }
    if prev.rows == [] {
      FirstReplaced(h, current, i);
    } else if take {
      Replaced(prev, h, best, current, i);
    } else {
      Retained(prev, h, best, current, i);
    }
    r := if take then current else best;
  }

  function NoCounts(n: nat): seq<nat> {
    seq(n, _ => 0)
  }

  function NoSample(nCol: nat): Sample {
    Sample(NoCounts(nCol), NoCounts(nCol), NoCounts(nCol), 0, false, 0, 0)
  }

  /** The initial state of the tie-break generator, in 32-bit arithmetic. */
  function Seed(nCol: nat, nEst: nat): nat {
    Xor((0x689e962d * nCol) % PRN_MODULUS, (0xd0944565 * (nEst % PRN_MODULUS)) % PRN_MODULUS)
  }

  /** Bitwise exclusive or. */
  function Xor(x: nat, y: nat): nat {
    if x == 0 && y == 0 then 0 else (x + y) % 2 + 2 * Xor(x / 2, y / 2)
  }

  lemma {:induction false} XorTwice(x: nat, y: nat)
    ensures Xor(Xor(x, y), y) == x
    decreases x + y
  {
    if x != 0 || y != 0 {
      XorTwice(x / 2, y / 2);
      var b, z := (x + y) % 2, Xor(x / 2, y / 2);
      XorStep(x, y);
      XorStep(b + 2 * z, y);
      hide Xor;
      LastBit(x, y, z);
    }
  }

  lemma XorStep(x: nat, y: nat)
    ensures Xor(x, y) == (x + y) % 2 + 2 * Xor(x / 2, y / 2)
  {
    if x == 0 && y == 0 {
      assert Xor(0, 0) == 0;
    }
  }

  lemma LastBit(x: nat, y: nat, z: nat)
    ensures var b := (x + y) % 2; (b + 2 * z) / 2 == z && (b + 2 * z + y) % 2 == x % 2
    ensures x == x % 2 + 2 * (x / 2)
  {
  }

  /** Taking the second product out of the seed again leaves the first. */
  lemma SeedMixes(nCol: nat, nEst: nat)
    ensures Xor(Seed(nCol, nEst), 0xd0944565 * nEst % 0x1_0000_0000) == 0x689e962d * nCol % 0x1_0000_0000
  {
    LowBits(nEst);
    XorTwice(0x689e962d * nCol % 0x1_0000_0000, 0xd0944565 * nEst % 0x1_0000_0000);
    hide Xor;
  }

  /** Bits beyond the 32nd do not matter to a product. */
  lemma LowBits(n: nat)
    ensures 0xd0944565 * (n % 0x1_0000_0000) % 0x1_0000_0000 == 0xd0944565 * n % 0x1_0000_0000
  {
    var q := n / 0x1_0000_0000;
    SameRemainder(0xd0944565 * n, 0xd0944565 * (n % 0x1_0000_0000), 0xd0944565 * q, 0x1_0000_0000);
  }

  method FillCounts(counts: seq<nat>, current: seq<nat>, iChng: nat) returns (r: seq<nat>)
    requires |counts| == |current| && iChng <= |counts|
    ensures |r| == |counts|
    ensures forall j :: 0 <= j < |r| ==> r[j] == if iChng <= j && counts[j] == 0 then current[j] else counts[j]
  {
    r := counts;
    for j := iChng to |counts|
      invariant |r| == |counts|
      invariant forall m :: 0 <= m < |r| ==>
                  r[m] == if iChng <= m < j && counts[m] == 0 then current[m] else counts[m]
    {
      if r[j] == 0 {
        r := r[j := current[j]];
      }
    }
  }

  class StatAccum {
    const nEst: nat
    const nCol: nat
    const mxSample: nat
    const nPSample: nat
    var nRow: nat
    var current: Sample
    var iPrn: nat
    var aBest: seq<Sample>
    var iMin: nat
    var nMaxEqZero: nat
    var a: seq<Sample>        // a[..nSample]

    /** The rows pushed so far. */
    ghost var h: Scan

    ghost predicate Config()
      reads this
    {
      && nCol > 0 && mxSample > 0 && nPSample == Period(nEst, mxSample)
      && h.nCol == nCol && h.nPSample == nPSample
      && h.Valid()
      && |aBest| == nCol && nMaxEqZero < nCol
    }

    /** a[] while columns `lvl` and up have been dealt with and entries `lo` and
        up have been filled in; the periodic rows among the first n are stored,
        and are not so many as to fill it. */
    ghost predicate Stored(lvl: nat, lo: nat, n: nat)
      reads this
    {
      && Config() && h.Started() && n < RowLimit(nEst, mxSample)
      && SamplesOk(h, a, lvl, lo) && AllPlaced(h, a)
      && Tidy(h, a, mxSample, iMin, nMaxEqZero, n)
      && Covered(h, a, mxSample, lvl)
    }

    /** What holds between two calls of stat_push. */
    ghost predicate Valid()
      reads this
    {
      && Config()
      && nRow == |h.rows| && iPrn == Prn(h.seed, nRow) && nRow < RowLimit(nEst, mxSample)
      && (nRow == 0 ==> a == [] && nMaxEqZero == 0 && current == NoSample(nCol))
      && (nRow > 0 ==>
            && CurrentOk(h, current) && current.iHash == iPrn
            && BestsOk(h, aBest) && Stored(nCol - 1, nCol, nRow))
    }

    constructor (nEst: nat, nCol: nat, mxSample: nat)
      requires nCol > 0 && mxSample > 0
      ensures Valid() && nRow == 0 && h.rows == [] && h.ids == []
      ensures this.nEst == nEst && this.nCol == nCol && this.mxSample == mxSample
      ensures h.nPSample == Period(nEst, mxSample) && h.seed == Seed(nCol, nEst)
    {
      this.nEst, this.nCol, this.mxSample := nEst, nCol, mxSample;
      nPSample := Period(nEst, mxSample);
      var seed := Seed(nCol, nEst);
      nRow, iPrn, iMin, nMaxEqZero := 0, seed, 0, 0;
      current, a := NoSample(nCol), [];
      aBest := seq(nCol, (i: nat) => NoSample(nCol).(iCol := i));
      h := Scan([], [], nCol, Period(nEst, mxSample), seed);
    }

    /** sampleInsert for a periodic sample: the newest row.  The assertion at its
        end fails with the row that reaches the limit. */
    method InsertPeriodic(pNew: Sample) returns (ok: bool)
      requires nCol > 0 && |h.rows| > 0 && Stored(nCol - 1, nCol, |h.rows| - 1)
      requires Located(h, pNew) && pNew.isPSample && RowOf(pNew) == |h.rows| - 1
      requires pNew.anEq[nCol - 1] == 1 && h.Periodic(RowOf(pNew))
      requires forall x :: 0 <= x < |a| ==> RowOf(a[x]) < |h.rows| - 1
      modifies `a, `iMin, `nMaxEqZero
      ensures ok <==> |h.rows| < RowLimit(nEst, mxSample)
      ensures ok ==> Stored(nCol - 1, nCol, |h.rows|)
    {
      JoinPeriodic(pNew);
      var r;
      ok, r := FindNewMin(h, a, nCol, mxSample, iMin, nCol - 1);
      if |h.rows| >= RowLimit(nEst, mxSample) {
        NoneLeft(h, a, nCol - 1, nCol, mxSample);
      }
      if ok {
        iMin := r;
      }
    }

    /** Everything a[] should be after the newest row has joined, but for iMin. */
    ghost predicate Joined()
      reads this
    {
      && Config() && h.Started() && |a| <= mxSample
      && SamplesOk(h, a, nCol - 1, nCol) && AllPlaced(h, a) && AllWide(a, nCol)
      && NoZeroFrom(a, nCol, nMaxEqZero) && KeepsPeriodic(h, a, |h.rows|)
      && Covered(h, a, mxSample, nCol - 1)
    }

    /** Evict if necessary, append, and zero the entries to be filled in. */
    method JoinPeriodic(pNew: Sample)
      requires nCol > 0 && |h.rows| > 0 && Stored(nCol - 1, nCol, |h.rows| - 1)
      requires Located(h, pNew) && pNew.isPSample && RowOf(pNew) == |h.rows| - 1
      requires pNew.anEq[nCol - 1] == 1 && h.Periodic(RowOf(pNew))
      requires forall x :: 0 <= x < |a| ==> RowOf(a[x]) < |h.rows| - 1
      modifies `a, `nMaxEqZero
      ensures Joined()
    {
      hide Room;
      hide SamplesOk;
      var kept := MakeRoom(h, a, mxSample, iMin, nCol - 1);
      PeriodicJoins(h, a, kept, pNew, mxSample, iMin, nMaxEqZero);
      CoverAfterJoin(h, a, mxSample, iMin, Zeroed(pNew, nCol - 1), nCol - 1);
      if nCol - 1 > nMaxEqZero {
        nMaxEqZero := nCol - 1;
      }
      a := kept + [Zeroed(pNew, nCol - 1)];
    }

    /** The groups from column iChng on have ended with the previous row. */
    method SamplePushPrevious(iChng: nat)
      requires Valid() && nRow > 0 && iChng < nCol
      modifies `a, `iMin, `nMaxEqZero, `aBest
      ensures Stored(iChng, iChng, nRow) && BestsOk(h, aBest)
    {
      hide SamplesOk;
      var i := nCol - 1;
      while i > iChng
        invariant iChng <= i <= nCol - 1
        invariant Stored(i, nCol, nRow) && BestsOk(h, aBest) && Represented(h, a, i)
      {
        i := i - 1;
        PushBest(i);
      }
      FillIn(iChng);
    }

    /** Offer the best row of the level-i group that has just ended. */
    method PushBest(i: nat)
      requires i < nCol - 1 && Stored(i + 1, nCol, nRow) && BestsOk(h, aBest) && Represented(h, a, i + 1)
      requires CurrentOk(h, current) && nRow == |h.rows|
      modifies `a, `iMin, `nMaxEqZero, `aBest
      ensures Stored(i, nCol, nRow) && BestsOk(h, aBest) && Represented(h, a, i)
    {
      hide Represented;
      hide SamplesOk;
      CompleteBest(h, aBest, current, i);
      var pBest := aBest[i].(anEq := aBest[i].anEq[i := current.anEq[i]]);
      aBest := aBest[i := pBest];
      a, iMin, nMaxEqZero := Offer(h, a, nCol, mxSample, iMin, pBest, nMaxEqZero, nRow);
    }

    /** Fill the blank counts of the groups that have ended. */
    method FillIn(iChng: nat)
      requires Stored(iChng, nCol, nRow) && CurrentOk(h, current) && iChng < nCol
      modifies `a, `nMaxEqZero
      ensures Stored(iChng, iChng, nRow)
    {
      ghost var before := a;
      if iChng < nMaxEqZero {
        var i := |a|;
        while i > 0
          invariant 0 <= i <= |a| == |before|
          invariant forall x :: 0 <= x < i ==> a[x] == before[x]
          invariant forall x :: i <= x < |a| ==> a[x] == FilledFrom(before[x], iChng, current.anEq)
        {
          i := i - 1;
          var anEq := FillCounts(a[i].anEq, current.anEq, iChng);
          assert anEq == FilledFrom(before[i], iChng, current.anEq).anEq;
          a := a[i := a[i].(anEq := anEq)];
        }
        nMaxEqZero := iChng;
      } else {
        forall x | 0 <= x < |a|
          ensures a[x] == FilledFrom(a[x], iChng, current.anEq)
        {
          NothingToFill(a[x], iChng, current.anEq);
        }
      }
      assert FilledAll(before, a, iChng, current.anEq);
      FillSamples(h, before, a, current, iChng);
      AllPlacedOf(h, a, iChng, iChng);
      FillKeepsMin(h, before, a, current, iChng, mxSample, iMin);
      FillKeepsPeriodic(h, before, a, iChng, current.anEq, nRow);
      CoverAfterFill(h, before, a, current, iChng, mxSample);
    }

    /** Move the counters of the previous row on to the new row. */
    method Advance(iChng: nat)
      requires |current.anEq| == |current.anLt| == |current.anDLt| == nCol && iChng < nCol
      modifies `current
      ensures current == old(current).(anEq := current.anEq, anLt := current.anLt, anDLt := current.anDLt)
      ensures |current.anEq| == |current.anLt| == |current.anDLt| == nCol
      ensures Advanced(old(current), current, iChng)
    {
      var anEq, anLt, anDLt := current.anEq, current.anLt, current.anDLt;
      for i := 0 to iChng
        invariant |anEq| == nCol
        invariant forall j :: 0 <= j < nCol ==> anEq[j] == if j < i then current.anEq[j] + 1 else current.anEq[j]
      {
        anEq := anEq[i := anEq[i] + 1];
      }
      for i := iChng to nCol
        invariant |anEq| == |anLt| == |anDLt| == nCol
        invariant forall j :: 0 <= j < nCol ==>
                    anEq[j] == if j < iChng then current.anEq[j] + 1 else if j < i then 1 else current.anEq[j]
        invariant forall j :: 0 <= j < nCol ==>
                    anLt[j] == if iChng <= j < i then current.anLt[j] + current.anEq[j] else current.anLt[j]
        invariant forall j :: 0 <= j < nCol ==>
                    anDLt[j] == if iChng <= j < i then current.anDLt[j] + 1 else current.anDLt[j]
      {
        anDLt := anDLt[i := anDLt[i] + 1];
        anLt := anLt[i := anLt[i] + anEq[i]];
        anEq := anEq[i := 1];
      }
      current := current.(anEq := anEq, anLt := anLt, anDLt := anDLt);
    }

    /** Store the newest row if it is a periodic sample. */
    method PushPeriodic() returns (ok: bool)
      requires nCol > 0 && |h.rows| > 0 && Stored(nCol - 1, nCol, |h.rows| - 1) && CurrentOk(h, current)
      requires forall x :: 0 <= x < |a| ==> RowOf(a[x]) < |h.rows| - 1
      modifies `a, `iMin, `nMaxEqZero, `current
      ensures ok <==> |h.rows| < RowLimit(nEst, mxSample)
      ensures ok ==> Stored(nCol - 1, nCol, |h.rows|)
      ensures ok ==> CurrentOk(h, current) && current.iHash == old(current.iHash)
    {
      var nLt := current.anLt[nCol - 1];
      NextQuotient(nLt, nPSample);
      assert h.Periodic(|h.rows| - 1) <==> nLt / nPSample != (nLt + 1) / nPSample;
      if |h.rows| == RowLimit(nEst, mxSample) {
        LimitIsPeriodic(|h.rows| - 1, nEst, mxSample);
      }
      ok := true;
      if nLt / nPSample != (nLt + 1) / nPSample {
        NEqOfWholeRow(h.rows, nCol, nLt);
        current := current.(isPSample := true, iCol := 0);
        ok := InsertPeriodic(current);
        current := current.(isPSample := false);
      }
    }

    /** Compare the newest row with the best row so far of each open group. */
    method UpdateBest(iChng: nat, ghost prev: Scan)
      requires Config() && h.Started() && CurrentOk(h, current) && current.iHash == Prn(h.seed, |h.rows|)
      requires prev.rows == [] ==> |h.rows| == 1 && iChng == 0
      requires prev.rows != [] ==> Grows(prev, h) && iChng == Changed(h.rows, |prev.rows|) && BestsOk(prev, aBest)
      modifies `aBest, `current
      ensures |aBest| == nCol && BestsOk(h, aBest)
      ensures CurrentOk(h, current) && current.iHash == old(current.iHash)
    {
      hide BestsUpTo;
      hide Scan.Valid;
      hide CurrentOk;
      ghost var before := aBest;
      NoBestYet(h, aBest);
      for i := 0 to nCol - 1
        invariant |aBest| == nCol
        invariant CurrentOk(h, current) && current.iHash == old(current.iHash)
        invariant forall x :: i <= x < nCol ==> aBest[x] == before[x]
        invariant BestsUpTo(h, aBest, i)
      {
        hide BestOfGroup;
        hide BestOk;
        ChangedColumn(h, current, i);
        current := current.(iCol := i);
        if prev.rows != [] {
          BestAt(prev, before, i);
        }
        var best := ChooseBest(aBest[i], current, iChng, nCol, prev, h);
        OneMoreBest(h, aBest, i, best);
        aBest := aBest[i := best];
      }
    }

    /** The new row is `current`, and a[] holds what it should of the rows
        before it. */
    ghost predicate Received(prev: Scan, iChng: nat)
      reads this
    {
      && nCol > 0 && |h.rows| > 0 && Stored(nCol - 1, nCol, |h.rows| - 1) && CurrentOk(h, current)
      && (forall x :: 0 <= x < |a| ==> RowOf(a[x]) < |h.rows| - 1)
      && nRow == |h.rows| && current.iHash == iPrn == Prn(h.seed, nRow)
      && (prev.rows == [] ==> |h.rows| == 1 && iChng == 0)
      && (prev.rows != [] ==>
            Grows(prev, h) && iChng == Changed(h.rows, |prev.rows|) && BestsOk(prev, aBest))
    }

    method ReceiveFirst(rowid: int, ghost g: Scan)
      requires Valid() && nRow == 0
      requires g == h.(rows := g.rows, ids := [rowid]) && g.Valid()
      modifies this
      ensures Received(old(h), 0) && h == g
    {
      current := current.(anEq := seq(nCol, _ => 1));
      nRow := nRow + 1;
      iPrn := NextPrn(iPrn);
      current := current.(rowid := rowid, iHash := iPrn);
      h := g;
      CountersOfFirstRow(g, current);
      NothingEnded(g, mxSample);
    }

    method ReceiveNext(iChng: nat, rowid: int, ghost g: Scan)
      requires Valid() && 0 < nRow && iChng < nCol
      requires Grows(h, g) && g.ids == h.ids + [rowid] && iChng == Changed(g.rows, nRow)
      modifies this
      ensures Received(old(h), iChng) && h == g
    {
      hide SamplesOk;
      hide RowOf;
      ghost var prev, was := h, current;
      SamplePushPrevious(iChng);
      StoredAfterPush(prev, g, a, iChng);
      TidyAfterPush(prev, g, a, mxSample, iMin, nMaxEqZero, nRow);
      CoverAfterPush(prev, g, a, mxSample, iChng);
      NextRow(iChng, rowid);
      CountersAfterPush(prev, g, was, current, iChng);
      h := g;
    }

    /** The scalar part of stat_push for a later row. */
    method NextRow(iChng: nat, rowid: int)
      requires Wide(current, nCol) && iChng < nCol
      modifies `current, `nRow, `iPrn
      ensures nRow == old(nRow) + 1 && iPrn == NextPrn(old(iPrn))
      ensures Wide(current, nCol)
      ensures current == old(current).(anEq := current.anEq, anLt := current.anLt, anDLt := current.anDLt,
                                       rowid := rowid, iHash := iPrn)
      ensures Advanced(old(current), current, iChng)
    {
      Advance(iChng);
      nRow := nRow + 1;
      iPrn := NextPrn(iPrn);
      current := current.(rowid := rowid, iHash := iPrn);
    }

    /** stat_push(P, iChng, rowid) for the index entry `row`.  It fails, in the
        assertion of sampleInsert, exactly if the row reaches the limit. */
    method Push(iChng: nat, rowid: int, ghost row: Row) returns (ok: bool)
      requires Valid() && iChng < nCol && |row| == nCol
      requires Increasing(h.rows + [row], nCol)
      requires iChng == if nRow == 0 then 0 else FirstDiff(h.rows[nRow - 1], row)
      modifies this
      ensures ok <==> old(nRow) + 1 < RowLimit(nEst, mxSample)
      ensures ok ==> Valid() && h == old(h).(rows := old(h.rows) + [row], ids := old(h.ids) + [rowid])
    {
      hide CurrentOk;
      hide NextPrn;
      ghost var prev := h;
      Receive(iChng, rowid, row);
      ok := PushPeriodic();
      if ok {
        UpdateBest(iChng, prev);
      }
    }

    /** stat_push up to the new row's counters. */
    method Receive(iChng: nat, rowid: int, ghost row: Row)
      requires Valid() && iChng < nCol && |row| == nCol
      requires Increasing(h.rows + [row], nCol)
      requires iChng == if nRow == 0 then 0 else FirstDiff(h.rows[nRow - 1], row)
      modifies this
      ensures Received(old(h), iChng) && h == old(h).(rows := old(h.rows) + [row], ids := old(h.ids) + [rowid])
    {
      ghost var g := h.(rows := h.rows + [row], ids := h.ids + [rowid]);
      if nRow == 0 {
        ReceiveFirst(rowid, g);
      } else {
        ReceiveNext(iChng, rowid, g);
      }
    }

    /** The first STAT_GET_ROWID call: end the last groups, then hand out a[]. */
    method Finish() returns (samples: seq<Sample>)
      requires Valid() && nRow > 0
      modifies `a, `iMin, `nMaxEqZero, `aBest
      ensures samples == a && |samples| <= mxSample
      ensures forall x :: 0 <= x < |samples| ==> Exact(h, samples[x])
      ensures AllWide(samples, h.nCol) && SortedByRow(samples, h.nCol) && KeepsPeriodic(h, samples, |h.rows|)
      ensures h.Started() && AllPlaced(h, samples) && Covered(h, samples, mxSample, 0)
      ensures SamplesOk(h, samples, 0, 0)
    {
      SamplePushPrevious(0);
      samples := a;
      forall x | 0 <= x < |samples|
        ensures Exact(h, samples[x])
      {
        FilledIsExact(h, samples[x]);
      }
    }
  }

  /** How a scan ends: with samples, or in the assertion of sampleInsert. */
  datatype Outcome = Samples(a: seq<Sample>) | AssertionFails

  /** Lexicographically at least, for sequences of one length. */
  ghost predicate AtLeast(x: seq<int>, y: seq<int>) {
    x == y || exists c :: 0 <= c < |x| && c < |y| && x[c] > y[c] && forall d :: 0 <= d < c ==> x[d] == y[d]
  }

  lemma NotBeaten(x: seq<int>, y: seq<int>)
    requires |x| == |y| && !LexGt(y, x)
    ensures AtLeast(x, y)
  {
    if x != y {
      var c := FirstDifference(x, y);
      LexGtAt(y, x, c);
      assert forall d :: 0 <= d < c ==> x[d] == x[..c][d] && y[d] == y[..c][d];
    }
  }

  /** The statistics of a sample are those of the row it was taken from. */
  ghost predicate IsExact(s: Sample, h: Scan)
    requires h.Valid() && Wide(s, h.nCol)
  {
    && RowOf(s) < |h.rows| && s.rowid == h.ids[RowOf(s)]
    && forall j :: 0 <= j < h.nCol ==>
         && s.anEq[j] == NEq(h.rows, h.nCol, RowOf(s), j)
         && s.anLt[j] == NLt(h.rows, h.nCol, RowOf(s), j)
         && s.anDLt[j] == NDLt(h.rows, h.nCol, RowOf(s), j)
  }

  /** Row k is stored as a periodic sample just if it ends a period. */
  ghost predicate StoredIfPeriodic(samples: seq<Sample>, h: Scan, k: nat)
    requires AllWide(samples, h.nCol) && h.nPSample > 0
  {
    (k + 1) % h.nPSample == 0 <==> exists x :: 0 <= x < |samples| && IsPeriodicRow(samples[x], k)
  }

  /** Any other sample had, in a group it stands for, the greatest tie-break key of
      all rows, each taken when the row was scanned. */
  ghost predicate IsBestOfGroup(s: Sample, h: Scan)
    requires h.Valid() && Wide(s, h.nCol) && RowOf(s) < |h.rows|
  {
    exists j {:trigger Won(h, RowOf(s), j)} :: s.iCol <= j < h.nCol - 1 &&
      forall m: nat {:trigger Candidate(h, m, j)} :: m < |h.rows| && Same(h.rows, m, RowOf(s), j) ==>
        AtLeast(Candidate(h, RowOf(s), j), Candidate(h, m, j))
  }

  /** The samples of a whole scan: every one is a row of the index with exact
      statistics, in index order; the periodic ones are just the rows that end a
      period; any other is the best row of a group; and a group of rows no sample
      belongs to ranks no higher than the group of any stored non-periodic sample. */
  ghost predicate Describe(samples: seq<Sample>, h: Scan, mxSample: nat)
    requires h.Valid()
  {
    && |samples| <= mxSample && AllWide(samples, h.nCol) && SortedByRow(samples, h.nCol)
    && (forall x :: 0 <= x < |samples| ==>
          IsExact(samples[x], h) && (!samples[x].isPSample ==> IsBestOfGroup(samples[x], h)))
    && (forall k: nat :: k < |h.rows| ==> StoredIfPeriodic(samples, h, k))
    && (forall k: nat, i: nat {:trigger NEq(h.rows, h.nCol, k, i)} :: k < |h.rows| && i < h.nCol - 1 ==>
          || (exists x :: 0 <= x < |samples| && Same(h.rows, RowOf(samples[x]), k, i))
          || Outranked(samples, h.nCol, mxSample, NEq(h.rows, h.nCol, k, i), i))
  }

  /** stat_init and stat_push over any strictly increasing index, with any estimate.
      They end in the failed assertion if and only if there are mxSample periods of
      rows or more, which no scan within the estimate has. */
  method Analyze(rows: seq<Row>, ids: seq<int>, nCol: nat, mxSample: nat, nEst: nat) returns (r: Outcome, p: nat)
    requires Shaped(rows, nCol) && Increasing(rows, nCol) && |ids| == |rows| && mxSample > 0
    ensures IsPeriod(p, nEst, mxSample)
    ensures r.AssertionFails? <==> |rows| >= mxSample * p
    ensures r.Samples? ==> Describe(r.a, Scan(rows, ids, nCol, p, Seed(nCol, nEst)), mxSample)
  {
    hide CurrentOk;
    p := Period(nEst, mxSample);
    PeriodBounds(nEst, mxSample);
    if |rows| == 0 {
      assert mxSample * p > 0;
      r := Samples([]);
      return;
    }
    var acc := new StatAccum(nEst, nCol, mxSample);
    for i := 0 to |rows|
      invariant acc.Valid() && acc.nRow == i && acc.nCol == nCol && acc.nEst == nEst && acc.mxSample == mxSample
      invariant acc.h == Scan(rows[..i], ids[..i], nCol, p, Seed(nCol, nEst))
    {
      var iChng := if i == 0 then 0 else FirstDiff(rows[i - 1], rows[i]);
      assert rows[..i + 1] == rows[..i] + [rows[i]] && ids[..i + 1] == ids[..i] + [ids[i]];
      assert i > 0 ==> Less(rows[i - 1], rows[i], nCol);
      var ok := acc.Push(iChng, ids[i], rows[i]);
      if !ok {
        r := AssertionFails;
        return;
      }
    }
    assert rows[..|rows|] == rows && ids[..|ids|] == ids;
    var samples := acc.Finish();
    FinishedScan(acc.h, samples, mxSample);
    r := Samples(samples);
  }

  /** ANALYZE itself counts the index first, so that the estimate is the number of
      rows; then the assertion never fails. */
  method AnalyzeCounted(rows: seq<Row>, ids: seq<int>, nCol: nat, mxSample: nat)
    returns (samples: seq<Sample>, p: nat)
    requires Shaped(rows, nCol) && Increasing(rows, nCol) && |ids| == |rows| && mxSample > 0
    ensures IsPeriod(p, |rows|, mxSample)
    ensures Describe(samples, Scan(rows, ids, nCol, p, Seed(nCol, |rows|)), mxSample)
  {
    var r;
    r, p := Analyze(rows, ids, nCol, mxSample, |rows|);
    PeriodIsLongEnough(|rows|, |rows|, mxSample);
    PeriodBounds(|rows|, mxSample);
    OnePeriod(p, Period(|rows|, mxSample), |rows|, mxSample);
    samples := r.a;
  }

  lemma FinishedScan(h: Scan, samples: seq<Sample>, mxSample: nat)
    requires h.Started() && |samples| <= mxSample && SamplesOk(h, samples, 0, 0)
    requires forall x :: 0 <= x < |samples| ==> Exact(h, samples[x])
    requires AllWide(samples, h.nCol) && SortedByRow(samples, h.nCol) && KeepsPeriodic(h, samples, |h.rows|)
    requires AllPlaced(h, samples) && Covered(h, samples, mxSample, 0)
    ensures Describe(samples, h, mxSample)
  {
    hide Same;
    hide LexGt;
    hide Outranked;
    forall x | 0 <= x < |samples|
      ensures IsExact(samples[x], h) && (!samples[x].isPSample ==> IsBestOfGroup(samples[x], h))
    {
      assert SampleOk(h, samples[x], 0, 0);
      if !samples[x].isPSample {
        ChosenIsBest(samples[x], h);
      }
    }
    StoredJustPeriodic(samples, h);
    forall k: nat, i: nat | k < |h.rows| && i < h.nCol - 1
      ensures || (exists x :: 0 <= x < |samples| && Same(h.rows, RowOf(samples[x]), k, i))
              || Outranked(samples, h.nCol, mxSample, NEq(h.rows, h.nCol, k, i), i)
    {
      assert GroupCovered(h, samples, mxSample, k, i);
      if Spoken(h, samples, k, i) {
        var x :| 0 <= x < |samples| && SpeaksFor(h, samples[x], k, i);
        assert Same(h.rows, RowOf(samples[x]), k, i);
      }
    }
  }

  lemma StoredJustPeriodic(samples: seq<Sample>, h: Scan)
    requires h.Started() && SamplesOk(h, samples, 0, 0) && AllWide(samples, h.nCol)
    requires KeepsPeriodic(h, samples, |h.rows|)
    ensures forall k: nat :: k < |h.rows| ==> StoredIfPeriodic(samples, h, k)
  {
    forall k: nat | k < |h.rows|
      ensures StoredIfPeriodic(samples, h, k)
    {
      if exists x :: 0 <= x < |samples| && IsPeriodicRow(samples[x], k) {
        var x :| 0 <= x < |samples| && IsPeriodicRow(samples[x], k);
        assert SampleOk(h, samples[x], 0, 0);
      } else {
        assert !h.Periodic(k);
      }
    }
  }

  lemma ChosenIsBest(s: Sample, h: Scan)
    requires h.Valid() && Wide(s, h.nCol) && RowOf(s) < |h.rows| && Chosen(h, RowOf(s), s.iCol)
    ensures IsBestOfGroup(s, h)
  {
    var k := RowOf(s);
    var j :| s.iCol <= j < h.nCol - 1 && Won(h, k, j);
    forall m: nat | m < |h.rows| && Same(h.rows, m, k, j)
      ensures AtLeast(Candidate(h, k, j), Candidate(h, m, j))
    {
      NotBeaten(Candidate(h, k, j), Candidate(h, m, j));
    }
  }
}
