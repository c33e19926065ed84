/** What the sampler's records mean against the rows scanned so far.

    The anEq[] entries of a stored sample are left zero while the group they
    count is still growing.  The predicates below say exactly which entries are
    zero at each point of a scan and that all others are final. */
module SampleHistory {
  import opened Arithmetic
  import opened Sequences
  import opened IndexRows
  import opened SampleOrder

  /** The rows pushed so far with their rowids, the number of columns, the
      period of the periodic samples and the initial pseudo-random state. */
  datatype Scan = Scan(rows: seq<Row>, ids: seq<int>, nCol: nat, nPSample: nat, seed: nat) {
    ghost predicate Valid() {
      && Shaped(rows, nCol) && Increasing(rows, nCol)
      && |ids| == |rows| && nPSample > 0
    }

    ghost predicate Started() {
      Valid() && |rows| > 0
    }

    ghost function Eq(k: nat, j: nat): nat
      requires Valid() && k < |rows| && j < nCol
    { NEq(rows, nCol, k, j) }

    ghost function Lt(k: nat, j: nat): nat
      requires Valid() && k < |rows| && j < nCol
    { NLt(rows, nCol, k, j) }

    ghost function DLt(k: nat, j: nat): nat
      requires Valid() && k < |rows| && j < nCol
    { NDLt(rows, nCol, k, j) }

    /** The (j+1)-column group of row k is the one the scan is in. */
    ghost predicate Open(k: nat, j: nat)
      requires Started() && k < |rows|
    { Same(rows, k, |rows| - 1, j) }

    predicate Periodic(k: nat)
      requires nPSample > 0
    { IsPeriodic(k, nPSample) }
  }

  /** How often a periodic sample is due. */
  function Period(nEst: nat, mxSample: nat): (p: nat)
    ensures p > 0
  {
    nEst / (mxSample / 3 + 1) + 1
  }

  /** The least p with which mxSample/3 + 1 periods cover more than the estimate. */
  predicate IsPeriod(p: nat, nEst: nat, mxSample: nat) {
    p > 0 && (mxSample / 3 + 1) * (p - 1) <= nEst < (mxSample / 3 + 1) * p
  }

  lemma PeriodBounds(nEst: nat, mxSample: nat)
    ensures IsPeriod(Period(nEst, mxSample), nEst, mxSample)
  {
    var q, p := mxSample / 3 + 1, Period(nEst, mxSample);
    DivMod(nEst, q);
    assert q * p == q * (nEst / q) + q;
  }

  lemma OnePeriod(p: nat, r: nat, nEst: nat, mxSample: nat)
    requires IsPeriod(p, nEst, mxSample) && IsPeriod(r, nEst, mxSample)
    ensures p == r
  {
    var q := mxSample / 3 + 1;
    if p < r {
      MulMono(p, r - 1, q);
    } else if r < p {
      MulMono(r, p - 1, q);
    }
  }

  /** The number of rows with which mxSample periodic rows have been seen. */
  function RowLimit(nEst: nat, mxSample: nat): nat {
    mxSample * Period(nEst, mxSample)
  }

  predicate IsPeriodic(k: nat, period: nat)
    requires period > 0
  {
    (k + 1) % period == 0
  }

  /** nLt of the whole row is the row's position in the scan. */
  function RowOf(s: Sample): nat
    requires |s.anLt| > 0
  {
    s.anLt[|s.anLt| - 1]
  }

  ghost predicate Placed(h: Scan, s: Sample) {
    Wide(s, h.nCol) && RowOf(s) < |h.rows|
  }

  ghost predicate AllPlaced(h: Scan, a: seq<Sample>) {
    forall x :: 0 <= x < |a| ==> Placed(h, a[x])
  }

  /** `s` describes a row of the scan, and its nLt and nDLt are exact. */
  ghost predicate Located(h: Scan, s: Sample)
    requires h.Valid()
  {
    && Placed(h, s)
    && s.rowid == h.ids[RowOf(s)]
    && (forall j :: 0 <= j < h.nCol ==> s.anLt[j] == h.Lt(RowOf(s), j))
    && (forall j :: 0 <= j < h.nCol ==> s.anDLt[j] == h.DLt(RowOf(s), j))
  }

  /** The final promise: all three arrays are exact. */
  ghost predicate Exact(h: Scan, s: Sample)
    requires h.Valid()
  {
    Located(h, s) && forall j :: 0 <= j < h.nCol ==> s.anEq[j] == h.Eq(RowOf(s), j)
  }

  /** anEq[j] of a stored sample is still waiting to be filled in. */
  ghost predicate Blank(h: Scan, s: Sample, j: nat, lo: nat)
    requires h.Started() && Placed(h, s)
  {
    j < lo && h.Open(RowOf(s), j) && (s.isPSample || j < s.iCol)
  }

  /** A stored sample while columns `lvl` and up have been dealt with for the
      current change, and entries `lo` and up have been filled in. */
  ghost predicate SampleOk(h: Scan, s: Sample, lvl: nat, lo: nat)
    requires h.Started()
  {
    && Located(h, s)
    && (forall j :: 0 <= j < h.nCol - 1 ==> s.anEq[j] == if Blank(h, s, j, lo) then 0 else h.Eq(RowOf(s), j))
    && s.anEq[h.nCol - 1] == 1
    && (s.isPSample ==> h.Periodic(RowOf(s)))
    && (!s.isPSample ==> s.iCol < h.nCol - 1)
    && (!s.isPSample ==> forall j :: s.iCol <= j < lvl && j < h.nCol - 1 ==> !h.Open(RowOf(s), j))
    && (!s.isPSample ==> Chosen(h, RowOf(s), s.iCol))
  }

  /** Row k was the best of one of its groups, for column i or a later one. */
  ghost predicate Chosen(h: Scan, k: nat, i: nat)
    requires h.Valid() && k < |h.rows|
  {
    exists j {:trigger Won(h, k, j)} :: i <= j < h.nCol - 1 && Won(h, k, j)
  }

  /** No row of its level-j group had a better key than row k. */
  ghost predicate Won(h: Scan, k: nat, j: nat)
    requires h.Valid() && k < |h.rows| && j < h.nCol - 1
  {
    forall m: nat {:trigger Candidate(h, m, j)} ::
      m < |h.rows| && Same(h.rows, m, k, j) ==> !LexGt(Candidate(h, m, j), Candidate(h, k, j))
  }

  ghost predicate AllWide(a: seq<Sample>, nCol: nat) {
    forall x :: 0 <= x < |a| ==> Wide(a[x], nCol)
  }

  ghost predicate SortedByRow(a: seq<Sample>, nCol: nat)
    requires AllWide(a, nCol)
  {
    forall x, y :: 0 <= x < y < |a| ==> RowOf(a[x]) < RowOf(a[y])
  }

  ghost predicate SamplesOk(h: Scan, a: seq<Sample>, lvl: nat, lo: nat)
    requires h.Started()
  {
    && AllPlaced(h, a)
    && (forall x {:trigger SampleOk(h, a[x], lvl, lo)} :: 0 <= x < |a| ==> SampleOk(h, a[x], lvl, lo))
    && SortedByRow(a, h.nCol)
  }

  /** If some stored sample of the current level-`lvl` group waits at that
      level, then a periodic sample of the group is stored, or one that was
      promoted to the level. */
  ghost predicate Represented(h: Scan, a: seq<Sample>, lvl: nat)
    requires h.Started() && AllPlaced(h, a)
  {
    (exists x :: 0 <= x < |a| && Waits(h, a[x], lvl)) ==> exists y :: 0 <= y < |a| && Stands(h, a[y], lvl)
  }

  ghost predicate Waits(h: Scan, s: Sample, lvl: nat)
    requires h.Started() && Placed(h, s)
  {
    lvl < h.nCol - 1 && h.Open(RowOf(s), lvl) && !s.isPSample && s.iCol > lvl
  }

  ghost predicate Stands(h: Scan, s: Sample, lvl: nat)
    requires h.Started() && Placed(h, s)
  {
    h.Open(RowOf(s), lvl) && (s.isPSample || s.iCol == lvl)
  }

  /** iMin designates a least preferred non-periodic sample when a[] is full. */
  ghost predicate MinOk(a: seq<Sample>, nCol: nat, mxSample: nat, iMin: nat)
    requires AllWide(a, nCol)
  {
    && |a| <= mxSample
    && (|a| == mxSample ==>
          && iMin < |a| && !a[iMin].isPSample
          && forall x :: 0 <= x < |a| && !a[x].isPSample ==> !Better(a[iMin], a[x]))
  }

  ghost predicate NoZeroFrom(a: seq<Sample>, nCol: nat, m: nat)
    requires AllWide(a, nCol)
  {
    forall x, j :: 0 <= x < |a| && m <= j < nCol ==> a[x].anEq[j] != 0
  }

  /** Every periodic row of the first n rows is among the samples. */
  ghost predicate KeepsPeriodic(h: Scan, a: seq<Sample>, n: nat)
    requires h.nPSample > 0 && AllWide(a, h.nCol)
  {
    forall k: nat :: k < n && h.Periodic(k) ==> exists x :: 0 <= x < |a| && IsPeriodicRow(a[x], k)
  }

  ghost predicate IsPeriodicRow(s: Sample, k: nat)
    requires |s.anLt| > 0
  {
    s.isPSample && RowOf(s) == k
  }

  ghost predicate CurrentOk(h: Scan, s: Sample)
    requires h.Started()
  {
    Exact(h, s) && RowOf(s) == |h.rows| - 1 && !s.isPSample
  }

  /** aBest[i]: a row of the current level-i group whose later columns are
      final, or the newest row. */
  ghost predicate BestOk(h: Scan, b: Sample, i: nat)
    requires h.Started() && i < h.nCol - 1
  {
    && Located(h, b) && !b.isPSample && b.iCol == i
    && h.Open(RowOf(b), i)
    && (RowOf(b) == |h.rows| - 1 || !h.Open(RowOf(b), i + 1))
    && (forall j :: i < j < h.nCol ==> b.anEq[j] == h.Eq(RowOf(b), j))
    && PostKey(b, i) == Candidate(h, RowOf(b), i)
  }

  /** `b` may be stored for the level-i group that has just ended. */
  ghost predicate ReadyFor(h: Scan, b: Sample, i: nat)
    requires h.Started() && i < h.nCol - 1
  {
    BestOk(h, b, i) && b.anEq[i] == h.Eq(RowOf(b), i) && BestOfGroup(h, PostKey(b, i), i)
  }

  /** The champion of the group that has just ended won it. */
  lemma ChampionWon(h: Scan, b: Sample, i: nat)
    requires h.Started() && i < h.nCol - 1 && ReadyFor(h, b, i)
    ensures Won(h, RowOf(b), i)
  {
    var k := RowOf(b);
    forall m: nat | m < |h.rows| && Same(h.rows, m, k, i)
      ensures !LexGt(Candidate(h, m, i), Candidate(h, k, i))
    {
      SameTransitive(h.rows, h.nCol, m, k, |h.rows| - 1, i);
      assert h.Open(m, i);
    }
  }

  /** Once the group has ended nothing changes that. */
  lemma WonForGood(h: Scan, g: Scan, k: nat, j: nat)
    requires Grows(h, g) && k < |h.rows| && j < h.nCol - 1 && Won(h, k, j) && !g.Open(k, j)
    ensures Won(g, k, j)
  {
    ExtendsPrefix(h.rows, g.rows, h.nCol);
    CandidateIsStable(h, g, k, j);
    forall m: nat | m < |g.rows| && Same(g.rows, m, k, j)
      ensures !LexGt(Candidate(g, m, j), Candidate(g, k, j))
    {
      if m == |h.rows| {
        SameSymmetric(g.rows, g.nCol, m, k, j);
        assert false;
      }
      CandidateIsStable(h, g, m, j);
    }
  }

  // -------------------------------------------------------- single-sample facts

  lemma OpenDown(h: Scan, k: nat, i: nat, j: nat)
    requires h.Started() && k < |h.rows| && i <= j && h.Open(k, j)
    ensures h.Open(k, i)
  {
  }

  lemma NewestIsOpen(h: Scan, j: nat)
    requires h.Started() && j < h.nCol
    ensures h.Open(|h.rows| - 1, j)
  {
    SameReflexive(h.rows, h.nCol, |h.rows| - 1, j);
  }

  /** A zero entry below `lvl` marks exactly the samples of the open group. */
  lemma ZeroIffOpen(h: Scan, s: Sample, lvl: nat, i: nat)
    requires h.Started() && i < lvl && i < h.nCol - 1
    requires SampleOk(h, s, lvl, h.nCol)
    ensures s.anEq[i] == 0 <==> h.Open(RowOf(s), i)
    ensures h.Open(RowOf(s), i) && !s.isPSample ==> s.iCol > i
  {
    NEqPositive(h.rows, h.nCol, RowOf(s), i);
    assert s.anEq[i] == if Blank(h, s, i, h.nCol) then 0 else h.Eq(RowOf(s), i);
  }

  /** The entry a non-periodic sample is kept for is final. */
  lemma OwnEntry(h: Scan, s: Sample, lvl: nat)
    requires h.Started() && SampleOk(h, s, lvl, h.nCol) && !s.isPSample
    ensures forall j :: s.iCol <= j < h.nCol - 1 ==> s.anEq[j] == h.Eq(RowOf(s), j)
  {
    forall j | s.iCol <= j < h.nCol - 1
      ensures s.anEq[j] == h.Eq(RowOf(s), j)
    {
      assert !Blank(h, s, j, h.nCol);
    }
  }

  lemma OpenGroupSize(h: Scan, k: nat, m: nat, j: nat)
    requires h.Started() && k < |h.rows| && m < |h.rows| && j < h.nCol
    requires h.Open(k, j) && h.Open(m, j)
    ensures h.Eq(k, j) == h.Eq(m, j)
  {
    var n := |h.rows| - 1;
    NEqOfGroup(h.rows, h.nCol, k, n, j);
    NEqOfGroup(h.rows, h.nCol, m, n, j);
  }

  /** Dealing with one level less is a weaker demand. */
  lemma SamplesOkWeaken(h: Scan, a: seq<Sample>, lvl: nat, lower: nat, lo: nat)
    requires h.Started() && lower <= lvl && SamplesOk(h, a, lvl, lo)
    ensures SamplesOk(h, a, lower, lo)
  {
    forall x | 0 <= x < |a|
      ensures SampleOk(h, a[x], lower, lo)
    {
      assert SampleOk(h, a[x], lvl, lo);
    }
  }

  /** The group's champion is preferred over any sample waiting at the level:
      this is the assertion inside sampleInsert. */
  lemma ChampionIsBetter(h: Scan, b: Sample, s: Sample, lvl: nat, i: nat)
    requires h.Started() && i < lvl && i < h.nCol - 1
    requires ReadyFor(h, b, i)
    requires SampleOk(h, s, lvl, h.nCol) && !s.isPSample && h.Open(RowOf(s), i) && s.iCol > i
    ensures Better(b, s)
  {
    OwnEntry(h, s, lvl);
    OpenGroupSize(h, RowOf(b), RowOf(s), i);
    NEqAntitone(h.rows, h.nCol, RowOf(s), i, s.iCol);
    ShorterPrefixIsBetter(b, s, h.nCol);
  }

  // -------------------------------------------------------------- whole arrays

  lemma RemovedOk(h: Scan, a: seq<Sample>, m: nat, lvl: nat, lo: nat)
    requires h.Started() && SamplesOk(h, a, lvl, lo) && m < |a|
    ensures SamplesOk(h, Removed(a, m), lvl, lo)
  {
    var w := Removed(a, m);
    forall x | 0 <= x < |w|
      ensures w[x] == a[if x < m then x else x + 1]
    {
    }
  }

  /** A new sample of a group no stored sample belongs to lies after them all. */
  lemma AppendChampion(h: Scan, a: seq<Sample>, b: Sample, i: nat)
    requires h.Started() && i < h.nCol - 1
    requires SamplesOk(h, a, i + 1, h.nCol) && ReadyFor(h, b, i)
    requires forall x :: 0 <= x < |a| ==> !h.Open(RowOf(a[x]), i)
    ensures SamplesOk(h, a + [Zeroed(b, i)], i, h.nCol)
    ensures Represented(h, a + [Zeroed(b, i)], i)
  {
    var z := Zeroed(b, i);
    ZeroedChampionOk(h, b, i);
    forall x | 0 <= x < |a|
      ensures RowOf(a[x]) < RowOf(z)
    {
      assert SampleOk(h, a[x], i + 1, h.nCol);
      ClosedIsEarlier(h, RowOf(a[x]), RowOf(b), i);
    }
    SamplesOkWeaken(h, a, i + 1, i, h.nCol);
    var a' := a + [z];
    assert a'[|a|] == z && Stands(h, z, i);
  }

  /** Rows outside the open group come before the rows inside it. */
  lemma ClosedIsEarlier(h: Scan, k: nat, m: nat, i: nat)
    requires h.Started() && k < |h.rows| && m < |h.rows| && i < h.nCol
    requires !h.Open(k, i) && h.Open(m, i)
    ensures k < m
  {
    if m <= k {
      SameConvex(h.rows, h.nCol, m, k, |h.rows| - 1, i);
      assert false;
    }
  }

  /** Clear the first n entries of anEq[]. */
  function Zeroed(s: Sample, n: nat): (z: Sample)
    requires n <= |s.anEq|
    ensures |z.anEq| == |s.anEq| && forall j :: 0 <= j < |s.anEq| ==> z.anEq[j] == if j < n then 0 else s.anEq[j]
    ensures z == s.(anEq := z.anEq)
  {
    s.(anEq := seq(|s.anEq|, j requires 0 <= j < |s.anEq| => if j < n then 0 else s.anEq[j]))
  }

  lemma ZeroedChampionOk(h: Scan, b: Sample, i: nat)
    requires h.Started() && i < h.nCol - 1 && ReadyFor(h, b, i)
    ensures SampleOk(h, Zeroed(b, i), i, h.nCol)
  {
    var z := Zeroed(b, i);
    ChampionWon(h, b, i);
    hide Candidate;
    NEqOfWholeRow(h.rows, h.nCol, RowOf(b));
    forall j | 0 <= j < h.nCol - 1
      ensures z.anEq[j] == if Blank(h, z, j, h.nCol) then 0 else h.Eq(RowOf(z), j)
    {
      if j < i {
        OpenDown(h, RowOf(b), j, i);
      }
    }
  }

  /** A newly pushed row becomes a periodic sample. */
  lemma AppendPeriodic(h: Scan, a: seq<Sample>, s: Sample)
    requires h.Started() && SamplesOk(h, a, h.nCol - 1, h.nCol)
    requires Located(h, s) && s.isPSample && RowOf(s) == |h.rows| - 1
    requires s.anEq[h.nCol - 1] == 1 && h.Periodic(RowOf(s))
    requires forall x :: 0 <= x < |a| ==> RowOf(a[x]) < |h.rows| - 1
    ensures SamplesOk(h, a + [Zeroed(s, h.nCol - 1)], h.nCol - 1, h.nCol)
  {
    var z := Zeroed(s, h.nCol - 1);
    forall j | 0 <= j < h.nCol - 1
      ensures z.anEq[j] == if Blank(h, z, j, h.nCol) then 0 else h.Eq(RowOf(z), j)
    {
      NewestIsOpen(h, j);
    }
  }

  /** Give sample `s` the priority and the group size of level i. */
  function Promoted(s: Sample, i: nat, n: nat): Sample
    requires i < |s.anEq|
  {
    s.(iCol := i, anEq := s.anEq[i := n])
  }

  lemma StandingIsBetter(h: Scan, t: Sample, s: Sample, lvl: nat)
    requires h.Started() && SampleOk(h, t, lvl, h.nCol) && SampleOk(h, s, lvl, h.nCol)
    requires Waits(h, s, lvl) && Stands(h, t, lvl) && !t.isPSample
    ensures Better(t, s)
  {
    OwnEntry(h, t, lvl);
    OwnEntry(h, s, lvl);
    OpenGroupSize(h, RowOf(t), RowOf(s), lvl);
    NEqAntitone(h.rows, h.nCol, RowOf(s), lvl, s.iCol);
    ShorterPrefixIsBetter(t, s, h.nCol);
  }

  lemma ChampionDoesNotWait(h: Scan, a: seq<Sample>, u: nat, i: nat)
    requires h.Started() && i < h.nCol - 1 && u < |a|
    requires SamplesOk(h, a, i + 1, h.nCol) && Represented(h, a, i + 1)
    requires forall x :: 0 <= x < |a| && h.Open(RowOf(a[x]), i) ==> !a[x].isPSample && !Better(a[x], a[u])
    ensures !Waits(h, a[u], i + 1)
  {
    if Waits(h, a[u], i + 1) {
      var y :| 0 <= y < |a| && Stands(h, a[y], i + 1);
      OpenDown(h, RowOf(a[y]), i, i + 1);
      StandingIsBetter(h, a[y], a[u], i + 1);
      assert false;
    }
  }

  /** The preferred waiting sample of a group has no blank between its own
      column and the level it is promoted to. */
  lemma NoBlankBelowChampion(h: Scan, a: seq<Sample>, u: nat, i: nat)
    requires h.Started() && i < h.nCol - 1 && u < |a|
    requires SamplesOk(h, a, i + 1, h.nCol) && Represented(h, a, i + 1)
    requires !a[u].isPSample && h.Open(RowOf(a[u]), i)
    requires forall x :: 0 <= x < |a| && h.Open(RowOf(a[x]), i) ==> !a[x].isPSample && !Better(a[x], a[u])
    ensures forall j :: i < j < a[u].iCol ==> !h.Open(RowOf(a[u]), j) && a[u].anEq[j] == h.Eq(RowOf(a[u]), j)
  {
    ChampionDoesNotWait(h, a, u, i);
    assert SampleOk(h, a[u], i + 1, h.nCol);
    assert forall j :: i < j < a[u].iCol ==> !Blank(h, a[u], j, h.nCol);
  }

  lemma PromotedOk(h: Scan, a: seq<Sample>, u: nat, i: nat)
    requires h.Started() && i < h.nCol - 1 && u < |a|
    requires SamplesOk(h, a, i + 1, h.nCol) && Represented(h, a, i + 1)
    requires !a[u].isPSample && h.Open(RowOf(a[u]), i)
    requires forall x :: 0 <= x < |a| && h.Open(RowOf(a[x]), i) ==> !a[x].isPSample && !Better(a[x], a[u])
    ensures SampleOk(h, Promoted(a[u], i, h.Eq(RowOf(a[u]), i)), i, h.nCol)
  {
    var s := a[u];
    var t := Promoted(s, i, h.Eq(RowOf(s), i));
    assert SampleOk(h, s, i + 1, h.nCol);
    ZeroIffOpen(h, s, i + 1, i);
    NoBlankBelowChampion(h, a, u, i);
    forall j | 0 <= j < h.nCol - 1
      ensures t.anEq[j] == if Blank(h, t, j, h.nCol) then 0 else h.Eq(RowOf(t), j)
    {
      assert s.anEq[j] == if Blank(h, s, j, h.nCol) then 0 else h.Eq(RowOf(s), j);
    }
  }

  /** Promoting the preferred waiting sample deals with level i. */
  lemma PromoteChampion(h: Scan, a: seq<Sample>, u: nat, i: nat)
    requires h.Started() && i < h.nCol - 1 && u < |a|
    requires SamplesOk(h, a, i + 1, h.nCol) && Represented(h, a, i + 1)
    requires !a[u].isPSample && h.Open(RowOf(a[u]), i)
    requires forall x :: 0 <= x < |a| && h.Open(RowOf(a[x]), i) ==> !a[x].isPSample && !Better(a[x], a[u])
    ensures SamplesOk(h, a[u := Promoted(a[u], i, h.Eq(RowOf(a[u]), i))], i, h.nCol)
    ensures Represented(h, a[u := Promoted(a[u], i, h.Eq(RowOf(a[u]), i))], i)
  {
    hide Same;
    var t := Promoted(a[u], i, h.Eq(RowOf(a[u]), i));
    PromotedOk(h, a, u, i);
    SamplesOkWeaken(h, a, i + 1, i, h.nCol);
    var a' := a[u := t];
    forall x | 0 <= x < |a'|
      ensures SampleOk(h, a'[x], i, h.nCol) && RowOf(a'[x]) == RowOf(a[x])
    {
    }
    assert Stands(h, a'[u], i);
  }

  /** A level may be skipped only when nobody waits at it. */
  lemma SkipIsSafe(h: Scan, a: seq<Sample>, b: Sample, i: nat, iMin: nat)
    requires h.Started() && i < h.nCol - 1
    requires SamplesOk(h, a, i + 1, h.nCol) && ReadyFor(h, b, i)
    requires MinOk(a, h.nCol, |a|, iMin) && !Better(b, a[iMin])
    ensures SamplesOk(h, a, i, h.nCol) && Represented(h, a, i)
  {
    SamplesOkWeaken(h, a, i + 1, i, h.nCol);
    forall x | 0 <= x < |a| && Waits(h, a[x], i)
      ensures false
    {
      assert SampleOk(h, a[x], i + 1, h.nCol);
      ChampionIsBetter(h, b, a[x], i + 1, i);
      BetterThanUnbeaten(b, a[x], a[iMin], h.nCol);
    }
  }

  // ------------------------------------------------------- periodic samples fit

  /** Periodic samples sit on distinct multiples of the period. */
  lemma {:induction false} PeriodicRows(h: Scan, a: seq<Sample>, lvl: nat, lo: nat, x: nat)
    requires h.Started() && SamplesOk(h, a, lvl, lo) && x < |a|
    requires forall y :: 0 <= y < |a| ==> a[y].isPSample
    ensures RowOf(a[x]) + 1 >= (x + 1) * h.nPSample
  {
    assert SampleOk(h, a[x], lvl, lo);
    var p := h.nPSample;
    var r := RowOf(a[x]) + 1;
    if x == 0 {
      MultipleGap(0, r, p, 0);
    } else {
      PeriodicRows(h, a, lvl, lo, x - 1);
      assert SampleOk(h, a[x - 1], lvl, lo);
      MultipleGap(RowOf(a[x - 1]) + 1, r, p, x);
    }
  }

  /** The next multiple of p is at least p further. */
  lemma MultipleGap(q: nat, r: nat, p: nat, x: nat)
    requires p > 0 && q < r && q % p == 0 && r % p == 0 && q >= x * p
    ensures r >= (x + 1) * p
  {
    var m, n := q / p, r / p;
    assert q == m * p && r == n * p;
    assert n > m by {
      if n <= m {
        MulMono(n, m, p);
      }
    }
    MulMono(m + 1, n, p);
    assert (m + 1) * p == q + p;
    assert (x + 1) * p == x * p + p;
  }

  /** Below the limit a full array holds a sample that may be evicted. */
  lemma SomeNonPeriodic(h: Scan, a: seq<Sample>, lvl: nat, lo: nat, mxSample: nat)
    requires h.Started() && SamplesOk(h, a, lvl, lo)
    requires |a| == mxSample && mxSample > 0 && |h.rows| < mxSample * h.nPSample
    ensures exists x :: 0 <= x < |a| && !a[x].isPSample
  {
    if forall x :: 0 <= x < |a| ==> a[x].isPSample {
      PeriodicRows(h, a, lvl, lo, |a| - 1);
      assert false;
    }
  }

  /** At the limit it does not: the periodic rows take every place. */
  lemma NoneLeft(h: Scan, a: seq<Sample>, lvl: nat, lo: nat, mxSample: nat)
    requires h.Started() && SamplesOk(h, a, lvl, lo) && AllWide(a, h.nCol)
    requires |a| <= mxSample && |h.rows| >= mxSample * h.nPSample && KeepsPeriodic(h, a, |h.rows|)
    ensures |a| == mxSample && forall x :: 0 <= x < |a| ==> a[x].isPSample
  {
    if mxSample > 0 {
      var _ := PlaceOfPeriodic(h, a, lvl, lo, mxSample, mxSample - 1);
      forall x: nat | x < |a| ensures a[x].isPSample {
        var y := PlaceOfPeriodic(h, a, lvl, lo, mxSample, x);
        PlacedExactly(h, a, lvl, lo, mxSample, x, y);
      }
    }
  }

  /** The k-th periodic row. */
  lemma PeriodicRow(h: Scan, mxSample: nat, k: nat) returns (r: nat)
    requires h.nPSample > 0 && k < mxSample && |h.rows| >= mxSample * h.nPSample
    ensures r == (k + 1) * h.nPSample - 1 && r < |h.rows| && h.Periodic(r)
  {
    MulMono(k + 1, mxSample, h.nPSample);
    MultipleMod(k + 1, h.nPSample);
    assert (k + 1) * h.nPSample == k * h.nPSample + h.nPSample;
    r := (k + 1) * h.nPSample - 1;
  }

  lemma NextMultiple(k: nat, p: nat)
    ensures (k + 1) * p == k * p + p
  {
  }

  /** The k-th periodic row has at least k samples before it. */
  lemma {:induction false} PlaceOfPeriodic(h: Scan, a: seq<Sample>, lvl: nat, lo: nat, mxSample: nat, k: nat)
    returns (x: nat)
    requires h.Started() && SamplesOk(h, a, lvl, lo) && AllWide(a, h.nCol) && k < mxSample
    requires |h.rows| >= mxSample * h.nPSample && KeepsPeriodic(h, a, |h.rows|)
    ensures k <= x < |a| && IsPeriodicRow(a[x], (k + 1) * h.nPSample - 1)
  {
    hide SampleOk;
    var r := PeriodicRow(h, mxSample, k);
    x :| 0 <= x < |a| && IsPeriodicRow(a[x], r);
    if k > 0 {
      var w := PlaceOfPeriodic(h, a, lvl, lo, mxSample, k - 1);
      NextMultiple(k, h.nPSample);
      assert RowOf(a[w]) < RowOf(a[x]);
    }
  }

  /** With no more than mxSample samples it is the k-th sample. */
  lemma {:induction false} PlacedExactly(h: Scan, a: seq<Sample>, lvl: nat, lo: nat, mxSample: nat, k: nat, x: nat)
    requires h.Started() && SamplesOk(h, a, lvl, lo) && AllWide(a, h.nCol) && k < mxSample
    requires |a| <= mxSample && |h.rows| >= mxSample * h.nPSample && KeepsPeriodic(h, a, |h.rows|)
    requires k <= x < |a| && IsPeriodicRow(a[x], (k + 1) * h.nPSample - 1)
    ensures x == k
    decreases mxSample - k
  {
    if k + 1 < mxSample {
      var y := PlaceOfPeriodic(h, a, lvl, lo, mxSample, k + 1);
      PlacedExactly(h, a, lvl, lo, mxSample, k + 1, y);
      assert (k + 2) * h.nPSample - 1 == (k + 1) * h.nPSample - 1 + h.nPSample;
      assert RowOf(a[x]) < RowOf(a[y]);
    }
  }

  /** The row with which the limit is reached is a periodic one. */
  lemma LimitIsPeriodic(n: nat, nEst: nat, mxSample: nat)
    requires n + 1 == RowLimit(nEst, mxSample)
    ensures IsPeriodic(n, Period(nEst, mxSample))
  {
    MultipleMod(mxSample, Period(nEst, mxSample));
  }

  /** A scan within the estimate stays below the limit. */
  lemma PeriodIsLongEnough(n: nat, nEst: nat, mxSample: nat)
    requires n <= nEst && mxSample > 0
    ensures n < (mxSample / 3 + 1) * Period(nEst, mxSample)
    ensures n < RowLimit(nEst, mxSample)
  {
    PeriodBounds(nEst, mxSample);
    MulMono(mxSample / 3 + 1, mxSample, Period(nEst, mxSample));
  }

  ghost function PeriodicBefore(n: nat, period: nat): set<nat>
    requires period > 0
  {
    set k: nat | k < n && IsPeriodic(k, period)
  }

  lemma {:induction false} PeriodicCount(n: nat, period: nat)
    requires period > 0
    ensures |PeriodicBefore(n, period)| == n / period
  {
    if n == 0 {
      assert PeriodicBefore(0, period) == {};
      QuotientUnique(0, period, 0, 0);
    } else {
      PeriodicCount(n - 1, period);
      NextQuotient(n - 1, period);
      OnePeriodMore(n - 1, period);
    }
  }

  lemma OnePeriodMore(n: nat, period: nat)
    requires period > 0
    ensures |PeriodicBefore(n + 1, period)| == |PeriodicBefore(n, period)| + if IsPeriodic(n, period) then 1 else 0
  {
    assert n !in PeriodicBefore(n, period);
    assert PeriodicBefore(n + 1, period) == PeriodicBefore(n, period) + if IsPeriodic(n, period) then {n} else {};
  }

  /** nPSample is chosen so that at most mxSample/3 of the estimated rows are periodic,
      and it is the least number that does. */
  lemma FewPeriodic(n: nat, p: nat, nEst: nat, mxSample: nat)
    requires n <= nEst && mxSample > 0 && IsPeriod(p, nEst, mxSample)
    ensures |PeriodicBefore(n, p)| == n / p <= mxSample / 3
    ensures p > 1 ==> nEst / (p - 1) > mxSample / 3
  {
    PeriodicCount(n, p);
    QuotientAtMost(n, p, mxSample / 3);
    if p > 1 {
      QuotientAtLeast(nEst, p - 1, mxSample / 3 + 1);
    }
  }

  // ------------------------------------------------------------ ending a group

  /** Fill blank entries from column c on with the counts of the current row. */
  function FilledFrom(s: Sample, c: nat, counts: seq<nat>): (z: Sample)
    requires |s.anEq| == |counts|
    ensures |z.anEq| == |s.anEq|
    ensures forall j :: 0 <= j < |s.anEq| ==>
              z.anEq[j] == if c <= j && s.anEq[j] == 0 then counts[j] else s.anEq[j]
    ensures z == s.(anEq := z.anEq)
  {
    s.(anEq := seq(|s.anEq|, j requires 0 <= j < |s.anEq| => if c <= j && s.anEq[j] == 0 then counts[j] else s.anEq[j]))
  }

  lemma FilledOk(h: Scan, s: Sample, cur: Sample, c: nat, lvl: nat)
    requires h.Started() && SampleOk(h, s, lvl, h.nCol) && CurrentOk(h, cur)
    ensures SampleOk(h, FilledFrom(s, c, cur.anEq), lvl, c)
    ensures !s.isPSample ==> Key(FilledFrom(s, c, cur.anEq)) == Key(s)
  {
    hide Same;
    var z := FilledFrom(s, c, cur.anEq);
    forall j | 0 <= j < h.nCol - 1
      ensures z.anEq[j] == if Blank(h, z, j, c) then 0 else h.Eq(RowOf(z), j)
      ensures !s.isPSample && s.iCol <= j ==> z.anEq[j] == s.anEq[j]
    {
      NEqPositive(h.rows, h.nCol, RowOf(s), j);
      assert s.anEq[j] == if Blank(h, s, j, h.nCol) then 0 else h.Eq(RowOf(s), j);
      if Blank(h, s, j, h.nCol) {
        NewestIsOpen(h, j);
        OpenGroupSize(h, RowOf(s), |h.rows| - 1, j);
      }
    }
    if !s.isPSample {
      assert z.anEq[s.iCol + 1..] == s.anEq[s.iCol + 1..];
    }
  }

  /** When nothing at or after c is zero, filling changes nothing. */
  lemma NothingToFill(s: Sample, c: nat, counts: seq<nat>)
    requires |s.anEq| == |counts| && forall j :: c <= j < |s.anEq| ==> s.anEq[j] != 0
    ensures FilledFrom(s, c, counts) == s
  {
    assert FilledFrom(s, c, counts).anEq == s.anEq;
  }

  /** After filling from column 0 every sample is exact. */
  lemma FilledIsExact(h: Scan, s: Sample)
    requires h.Started() && SampleOk(h, s, 0, 0)
    ensures Exact(h, s)
  {
    NEqOfWholeRow(h.rows, h.nCol, RowOf(s));
    forall j | 0 <= j < h.nCol
      ensures s.anEq[j] == h.Eq(RowOf(s), j)
    {
      if j < h.nCol - 1 {
        assert !Blank(h, s, j, 0);
      }
    }
  }

  // ------------------------------------------------------------ pushing one row

  ghost predicate Grows(h: Scan, g: Scan) {
    && h.Started() && g.Valid()
    && g == h.(rows := g.rows, ids := g.ids)
    && Extends(h.rows, g.rows, h.nCol) && g.ids[..|h.ids|] == h.ids
  }

  lemma OpenAfterPush(h: Scan, g: Scan, k: nat, j: nat)
    requires Grows(h, g) && k < |h.rows| && j < h.nCol
    ensures g.Open(k, j) <==> j < Changed(g.rows, |h.rows|) && h.Open(k, j)
  {
    ExtendsPrefix(h.rows, g.rows, h.nCol);
    SameWithNewRow(g.rows, g.nCol, k, |h.rows|, j);
  }

  lemma LocatedAfterPush(h: Scan, g: Scan, s: Sample)
    requires Grows(h, g) && Located(h, s)
    ensures Located(g, s)
  {
    forall j | 0 <= j < h.nCol
      ensures g.Lt(RowOf(s), j) == h.Lt(RowOf(s), j) && g.DLt(RowOf(s), j) == h.DLt(RowOf(s), j)
    {
      CountsOfOldRow(h.rows, g.rows, h.nCol, RowOf(s), j);
    }
    assert g.ids[RowOf(s)] == g.ids[..|h.ids|][RowOf(s)];
  }

  /** A sample filled in from the changed column on stays right in the longer scan. */
  lemma SampleAfterPush(h: Scan, g: Scan, s: Sample, c: nat)
    requires Grows(h, g) && c == Changed(g.rows, |h.rows|) && SampleOk(h, s, c, c)
    ensures SampleOk(g, s, g.nCol - 1, g.nCol)
  {
    LocatedAfterPush(h, g, s);
    var k := RowOf(s);
    forall j | 0 <= j < h.nCol - 1
      ensures s.anEq[j] == if Blank(g, s, j, g.nCol) then 0 else g.Eq(k, j)
      ensures !s.isPSample && s.iCol <= j ==> !g.Open(k, j)
    {
      CountsOfOldRow(h.rows, g.rows, h.nCol, k, j);
      OpenAfterPush(h, g, k, j);
      assert s.anEq[j] == if Blank(h, s, j, c) then 0 else h.Eq(k, j);
    }
    if !s.isPSample {
      ChosenForGood(h, g, k, s.iCol);
    }
  }

  lemma ChosenForGood(h: Scan, g: Scan, k: nat, i: nat)
    requires Grows(h, g) && k < |h.rows| && Chosen(h, k, i)
    requires forall j :: i <= j < h.nCol - 1 ==> !g.Open(k, j)
    ensures Chosen(g, k, i)
  {
    var j :| i <= j < h.nCol - 1 && Won(h, k, j);
    WonForGood(h, g, k, j);
  }

  lemma GroupGrows(h: Scan, g: Scan, j: nat)
    requires Grows(h, g) && j < h.nCol && j < Changed(g.rows, |h.rows|)
    ensures g.Eq(|h.rows|, j) == h.Eq(|h.rows| - 1, j) + 1
  {
    CountsOfNewRow(h.rows, g.rows, h.nCol, j);
  }

  /** A row that extends the level-(i+1) group of the previous row replaces it. */
  lemma NewerIsBetter(h: Scan, g: Scan, b: Sample, cur: Sample, i: nat)
    requires Grows(h, g) && i < h.nCol - 1 && BestOk(h, b, i) && CurrentOk(g, cur)
    requires RowOf(b) == |h.rows| - 1 && i + 1 < Changed(g.rows, |h.rows|)
    ensures LexGt(PostKey(cur, i), PostKey(b, i))
  {
    GroupGrows(h, g, i + 1);
    assert b.anEq[i + 1] == h.Eq(RowOf(b), i + 1);
    assert cur.anEq[i + 1] == g.Eq(RowOf(cur), i + 1);
    assert PostKey(cur, i)[..0] == PostKey(b, i)[..0];
    LexGtAt(PostKey(cur, i), PostKey(b, i), 0);
  }

  /** aBest[i] stays right when the new row does not replace it. */
  lemma BestAfterPush(h: Scan, g: Scan, b: Sample, cur: Sample, i: nat)
    requires Grows(h, g) && i < h.nCol - 1 && BestOk(h, b, i) && CurrentOk(g, cur)
    requires i < Changed(g.rows, |h.rows|)
    requires !LexGt(PostKey(cur, i), PostKey(b, i))
    ensures BestOk(g, b, i)
  {
    hide Exact;
    LocatedAfterPush(h, g, b);
    var k := RowOf(b);
    CandidateIsStable(h, g, k, i);
    hide Candidate;
    var c := Changed(g.rows, |h.rows|);
    OpenAfterPush(h, g, k, i);
    OpenAfterPush(h, g, k, i + 1);
    if g.Open(k, i + 1) {
      NewerIsBetter(h, g, b, cur, i);
      assert false;
    }
    forall j | i < j < h.nCol
      ensures b.anEq[j] == g.Eq(k, j)
    {
      CountsOfOldRow(h.rows, g.rows, h.nCol, k, j);
    }
  }

  /** The newest row qualifies at every level. */
  lemma CurrentIsBest(h: Scan, cur: Sample, i: nat)
    requires h.Started() && i < h.nCol - 1 && CurrentOk(h, cur) && cur.iHash == Prn(h.seed, |h.rows|)
    ensures BestOk(h, cur.(iCol := i), i)
  {
    NewestIsOpen(h, i);
    CandidateOfCurrent(h, cur, i);
    hide Candidate;
    assert PostKey(cur.(iCol := i), i) == PostKey(cur, i);
    var b := cur.(iCol := i);
    forall j | i < j < h.nCol
      ensures b.anEq[j] == h.Eq(RowOf(b), j)
    {
      assert cur.anEq[j] == h.Eq(RowOf(cur), j);
    }
  }

  // ----------------------------------------------- the choice within one group

  const PRN_MODULUS: nat := 0x1_0000_0000

  /** One step of the tie-break generator, in 32-bit arithmetic. */
  function NextPrn(prn: nat): nat {
    (prn * 1103515245 + 12345) % PRN_MODULUS
  }

  function Prn(seed: nat, n: nat): nat {
    if n == 0 then seed else NextPrn(Prn(seed, n - 1))
  }

  /** The sum of the first n powers of a. */
  function Powers(a: nat, n: nat): nat {
    if n == 0 then 0 else a * Powers(a, n - 1) + 1
  }

  /** The state after n steps in one formula. */
  lemma {:induction false} PrnAfter(seed: nat, n: nat)
    requires seed < 0x1_0000_0000
    ensures Prn(seed, n)
              == (Power(1103515245, n) * seed + 12345 * Powers(1103515245, n)) % 0x1_0000_0000
  {
    if n > 0 {
      PrnAfter(seed, n - 1);
      var p, q := Power(1103515245, n - 1), Powers(1103515245, n - 1);
      PrnStep(p * seed + 12345 * q);
      PrnFormula(p, q, seed);
    } else {
      assert Power(1103515245, 0) == 1 && Powers(1103515245, 0) == 0;
    }
  }

  lemma PrnFormula(p: nat, q: nat, seed: nat)
    ensures 1103515245 * (p * seed + 12345 * q) + 12345
              == (1103515245 * p) * seed + 12345 * (1103515245 * q + 1)
  {
    assert (1103515245 * p) * seed == 1103515245 * (p * seed);
  }

  lemma PrnStep(x: nat)
    ensures NextPrn(x % 0x1_0000_0000) == (1103515245 * x + 12345) % 0x1_0000_0000
  {
    var q := x / 0x1_0000_0000;
    SameRemainder(1103515245 * x + 12345, 1103515245 * (x % 0x1_0000_0000) + 12345, 1103515245 * q, 0x1_0000_0000);
  }

  /** The tie-break key row m had, for level i, when it was pushed. */
  ghost function Candidate(h: Scan, m: nat, i: nat): seq<int>
    requires h.Valid() && m < |h.rows| && i < h.nCol - 1
  {
    seq(h.nCol - 1 - i, t requires 0 <= t < h.nCol - 1 - i => NEq(h.rows[..m + 1], h.nCol, m, i + 1 + t))
      + [Prn(h.seed, m + 1)]
  }

  /** No row of the current level-i group had a better key than `best`. */
  ghost predicate BestOfGroup(h: Scan, best: seq<int>, i: nat)
    requires h.Started() && i < h.nCol - 1
  {
    forall m: nat :: m < |h.rows| && h.Open(m, i) ==> !LexGt(Candidate(h, m, i), best)
  }

  lemma CandidateIsStable(h: Scan, g: Scan, m: nat, i: nat)
    requires Grows(h, g) && m < |h.rows| && i < h.nCol - 1
    ensures Candidate(g, m, i) == Candidate(h, m, i)
  {
    assert g.rows[..m + 1] == g.rows[..|h.rows|][..m + 1] == h.rows[..m + 1];
  }

  lemma CandidateOfCurrent(g: Scan, cur: Sample, i: nat)
    requires g.Started() && CurrentOk(g, cur) && i < g.nCol - 1
    requires cur.iHash == Prn(g.seed, |g.rows|)
    ensures Candidate(g, |g.rows| - 1, i) == PostKey(cur, i)
  {
    var m := |g.rows| - 1;
    assert g.rows[..m + 1] == g.rows;
    var x, y := Candidate(g, m, i), PostKey(cur, i);
    assert |x| == |y|;
    forall t | 0 <= t < |x|
      ensures x[t] == y[t]
    {
      if t < g.nCol - 1 - i {
        assert cur.anEq[i + 1 + t] == g.Eq(m, i + 1 + t);
      }
    }
  }

  /** Keeping or replacing aBest[i] as stat_push does keeps it the best. */
  lemma BestOfGroupAfterPush(h: Scan, g: Scan, best: seq<int>, cur: seq<int>, i: nat)
    requires Grows(h, g) && i < h.nCol - 1 && BestOfGroup(h, best, i)
    requires cur == Candidate(g, |h.rows|, i)
    ensures BestOfGroup(g, if Changed(g.rows, |h.rows|) <= i || LexGt(cur, best) then cur else best, i)
  {
    LexGtIrreflexive(cur);
    forall m: nat | m < |g.rows| && g.Open(m, i)
      ensures m < |h.rows| ==> i < Changed(g.rows, |h.rows|) && !LexGt(Candidate(g, m, i), best)
      ensures LexGt(cur, best) || m == |h.rows| ==> !LexGt(Candidate(g, m, i), cur)
    {
      if m < |h.rows| {
        OldCandidateStaysBeaten(h, g, best, cur, m, i);
      }
    }
  }

  lemma OldCandidateStaysBeaten(h: Scan, g: Scan, best: seq<int>, cur: seq<int>, m: nat, i: nat)
    requires Grows(h, g) && i < h.nCol - 1 && m < |h.rows| && g.Open(m, i)
    requires h.Open(m, i) ==> !LexGt(Candidate(h, m, i), best)
    ensures i < Changed(g.rows, |h.rows|) && !LexGt(Candidate(g, m, i), best)
    ensures LexGt(cur, best) ==> !LexGt(Candidate(g, m, i), cur)
  {
    OpenAfterPush(h, g, m, i);
    CandidateIsStable(h, g, m, i);
    var k := Candidate(g, m, i);
    if LexGt(k, cur) && LexGt(cur, best) {
      LexGtTransitive(k, cur, best);
    }
  }

  lemma FirstRowIsBest(g: Scan, i: nat)
    requires g.Started() && |g.rows| == 1 && i < g.nCol - 1
    ensures BestOfGroup(g, Candidate(g, 0, i), i)
  {
    LexGtIrreflexive(Candidate(g, 0, i));
  }
}
