/** What the sampler misses: only groups no larger than those it keeps. */
module SampleCoverage {
  import opened Sequences
  import opened IndexRows
  import opened SampleOrder
  import opened SampleHistory

  /** A group of e rows for column i ranks no higher than what `s` stands for. */
  predicate ScoreLe(e: nat, i: nat, s: Sample)
    requires s.iCol < |s.anEq|
  {
    e < s.anEq[s.iCol] || (e == s.anEq[s.iCol] && i >= s.iCol)
  }

  /** `s` speaks for the level-i group of row k. */
  ghost predicate SpeaksFor(h: Scan, s: Sample, k: nat, i: nat)
    requires h.Valid() && Placed(h, s) && k < |h.rows|
  {
    Same(h.rows, RowOf(s), k, i) && (s.isPSample || s.iCol <= i)
  }

  ghost predicate Spoken(h: Scan, a: seq<Sample>, k: nat, i: nat)
    requires h.Valid() && AllPlaced(h, a) && k < |h.rows|
  {
    exists x :: 0 <= x < |a| && SpeaksFor(h, a[x], k, i)
  }

  /** No stored non-periodic sample stands for a lower-ranked group. */
  ghost predicate Outranked(a: seq<Sample>, nCol: nat, mxSample: nat, e: nat, i: nat)
    requires AllWide(a, nCol)
  {
    |a| == mxSample && forall x :: 0 <= x < |a| && !a[x].isPSample ==> ScoreLe(e, i, a[x])
  }

  ghost predicate GroupCovered(h: Scan, a: seq<Sample>, mxSample: nat, k: nat, i: nat)
    requires h.Valid() && AllPlaced(h, a) && AllWide(a, h.nCol) && k < |h.rows| && i < h.nCol
  {
    Spoken(h, a, k, i) || Outranked(a, h.nCol, mxSample, h.Eq(k, i), i)
  }

  /** Every group that has ended is covered; so are the current groups from
      column `lvl` on. */
  ghost predicate Covered(h: Scan, a: seq<Sample>, mxSample: nat, lvl: nat)
    requires h.Started() && AllPlaced(h, a) && AllWide(a, h.nCol)
  {
    forall k: nat, i: nat {:trigger GroupCovered(h, a, mxSample, k, i)} ::
      k < |h.rows| && i < h.nCol - 1 && (i >= lvl || !h.Open(k, i)) ==> GroupCovered(h, a, mxSample, k, i)
  }

  // ------------------------------------------------------------------- ranking

  lemma ScoreOfUnbeaten(s: Sample, t: Sample)
    requires s.iCol < |s.anEq| && t.iCol < |t.anEq| && !Better(s, t)
    ensures ScoreLe(s.anEq[s.iCol], s.iCol, t)
  {
    BetterByStages(s, t);
  }

  lemma ScoreOfBetter(s: Sample, t: Sample)
    requires s.iCol < |s.anEq| && t.iCol < |t.anEq| && Better(t, s)
    ensures ScoreLe(s.anEq[s.iCol], s.iCol, t)
  {
    BetterByStages(t, s);
  }

  /** A speaker's own group is at least as large as the group it speaks for. */
  lemma SpeakerRanks(h: Scan, s: Sample, lvl: nat, k: nat, i: nat)
    requires h.Started() && SampleOk(h, s, lvl, h.nCol) && !s.isPSample
    requires k < |h.rows| && i < h.nCol - 1 && SpeaksFor(h, s, k, i)
    ensures ScoreLe(h.Eq(k, i), i, s)
  {
    OwnEntry(h, s, lvl);
    NEqOfGroup(h.rows, h.nCol, RowOf(s), k, i);
    NEqAntitone(h.rows, h.nCol, RowOf(s), s.iCol, i);
  }

  // ----------------------------------------------------- one step of a scan each

  /** Dealing with the current level-i group extends the cover by one level. */
  lemma CoverLevel(h: Scan, a: seq<Sample>, mxSample: nat, i: nat)
    requires h.Started() && AllPlaced(h, a) && AllWide(a, h.nCol) && Covered(h, a, mxSample, i + 1)
    requires i < h.nCol - 1
    requires forall k: nat :: k < |h.rows| && h.Open(k, i) ==> GroupCovered(h, a, mxSample, k, i)
    ensures Covered(h, a, mxSample, i)
  {
  }

  /** A stored sample that stands at level i speaks for the whole open group. */
  lemma CoverByStanding(h: Scan, a: seq<Sample>, mxSample: nat, i: nat, x: nat)
    requires h.Started() && AllPlaced(h, a) && AllWide(a, h.nCol) && Covered(h, a, mxSample, i + 1)
    requires i < h.nCol - 1 && x < |a| && Stands(h, a[x], i)
    ensures Covered(h, a, mxSample, i)
  {
    forall k: nat | k < |h.rows| && h.Open(k, i)
      ensures GroupCovered(h, a, mxSample, k, i)
    {
      SameSymmetric(h.rows, h.nCol, k, |h.rows| - 1, i);
      SameTransitive(h.rows, h.nCol, RowOf(a[x]), |h.rows| - 1, k, i);
      assert SpeaksFor(h, a[x], k, i);
    }
    CoverLevel(h, a, mxSample, i);
  }

  /** A champion that does not beat the least preferred sample may be dropped. */
  lemma CoverBySkip(h: Scan, a: seq<Sample>, b: Sample, i: nat, iMin: nat)
    requires h.Started() && AllPlaced(h, a) && AllWide(a, h.nCol) && Covered(h, a, |a|, i + 1)
    requires i < h.nCol - 1 && ReadyFor(h, b, i)
    requires MinOk(a, h.nCol, |a|, iMin) && !Better(b, a[iMin])
    ensures Covered(h, a, |a|, i)
  {
    ScoreOfUnbeaten(b, a[iMin]);
    forall x | 0 <= x < |a| && !a[x].isPSample
      ensures ScoreLe(b.anEq[i], i, a[x])
    {
      ScoreOfUnbeaten(a[iMin], a[x]);
    }
    forall k: nat | k < |h.rows| && h.Open(k, i)
      ensures GroupCovered(h, a, |a|, k, i)
    {
      OpenGroupSize(h, k, RowOf(b), i);
      assert Outranked(a, h.nCol, |a|, h.Eq(k, i), i);
    }
    CoverLevel(h, a, |a|, i);
  }

  /** Promotion only raises a sample. */
  lemma CoverAfterPromotion(h: Scan, a: seq<Sample>, u: nat, i: nat, mxSample: nat)
    requires h.Started() && i < h.nCol - 1 && u < |a|
    requires AllPlaced(h, a) && AllWide(a, h.nCol) && SamplesOk(h, a, i + 1, h.nCol) && Covered(h, a, mxSample, i + 1)
    requires !a[u].isPSample && h.Open(RowOf(a[u]), i)
    ensures var b := a[u := Promoted(a[u], i, h.Eq(RowOf(a[u]), i))];
            AllPlaced(h, b) && AllWide(b, h.nCol) && Covered(h, b, mxSample, i)
  {
    var s, e := a[u], h.Eq(RowOf(a[u]), i);
    var t := Promoted(s, i, e);
    var b := a[u := t];
    assert SampleOk(h, s, i + 1, h.nCol);
    ZeroIffOpen(h, s, i + 1, i);
    OwnEntry(h, s, i + 1);
    NEqAntitone(h.rows, h.nCol, RowOf(s), i, s.iCol);
    assert ScoreLe(s.anEq[s.iCol], s.iCol, t);
    forall k: nat, j: nat | k < |h.rows| && j < h.nCol - 1 && (j >= i + 1 || !h.Open(k, j))
      ensures GroupCovered(h, b, mxSample, k, j)
    {
      assert GroupCovered(h, a, mxSample, k, j);
      if Spoken(h, a, k, j) {
        var x :| 0 <= x < |a| && SpeaksFor(h, a[x], k, j);
        assert SpeaksFor(h, b[x], k, j);
      }
    }
    assert Stands(h, b[u], i);
    CoverByStanding(h, b, mxSample, i, u);
  }

  /** Evicting the least preferred sample for a better or a periodic one loses
      only groups that rank no higher than all that stays. */
  lemma CoverAfterEviction(h: Scan, a: seq<Sample>, m: nat, z: Sample, lvl: nat)
    requires h.Started() && AllPlaced(h, a) && AllWide(a, h.nCol) && Placed(h, z)
    requires SamplesOk(h, a, lvl, h.nCol) && Covered(h, a, |a|, lvl)
    requires |a| > 0 && MinOk(a, h.nCol, |a|, m)
    requires z.isPSample || ScoreLe(a[m].anEq[a[m].iCol], a[m].iCol, z)
    ensures var b := Removed(a, m) + [z];
            AllPlaced(h, b) && AllWide(b, h.nCol) && Covered(h, b, |a|, lvl)
  {
    var b := Removed(a, m) + [z];
    forall y | 0 <= y < |b|
      ensures Placed(h, b[y])
      ensures b[y] == z || (exists x :: 0 <= x < |a| && x != m && b[y] == a[x])
      ensures !b[y].isPSample ==> ScoreLe(a[m].anEq[a[m].iCol], a[m].iCol, b[y])
    {
      if y < |a| - 1 {
        var x := if y < m then y else y + 1;
        assert b[y] == a[x];
        if !a[x].isPSample {
          ScoreOfUnbeaten(a[m], a[x]);
        }
      }
    }
    forall k: nat, j: nat | k < |h.rows| && j < h.nCol - 1 && (j >= lvl || !h.Open(k, j))
      ensures GroupCovered(h, b, |a|, k, j)
    {
      assert GroupCovered(h, a, |a|, k, j);
      CoverOneGroup(h, a, m, b, lvl, k, j);
    }
  }

  lemma CoverOneGroup(h: Scan, a: seq<Sample>, m: nat, b: seq<Sample>, lvl: nat, k: nat, j: nat)
    requires h.Started() && AllPlaced(h, a) && AllWide(a, h.nCol) && AllPlaced(h, b) && AllWide(b, h.nCol)
    requires SamplesOk(h, a, lvl, h.nCol) && k < |h.rows| && j < h.nCol - 1 && GroupCovered(h, a, |a|, k, j)
    requires m < |a| == |b| && !a[m].isPSample && b[..|a| - 1] == Removed(a, m)
    requires forall y :: 0 <= y < |b| && !b[y].isPSample ==> ScoreLe(a[m].anEq[a[m].iCol], a[m].iCol, b[y])
    ensures GroupCovered(h, b, |a|, k, j)
  {
    hide AllWide;
    if Spoken(h, a, k, j) {
      var x :| 0 <= x < |a| && SpeaksFor(h, a[x], k, j);
      if x == m {
        assert SampleOk(h, a[m], lvl, h.nCol);
        SpeakerRanks(h, a[m], lvl, k, j);
        assert Outranked(b, h.nCol, |a|, h.Eq(k, j), j);
      } else {
        var y := if x < m then x else x - 1;
        assert b[y] == b[..|a| - 1][y] == a[x];
        assert SpeaksFor(h, b[y], k, j);
      }
    } else {
      assert ScoreLe(h.Eq(k, j), j, a[m]);
      assert Outranked(b, h.nCol, |a|, h.Eq(k, j), j);
    }
  }

  /** With room to spare nothing is lost. */
  lemma CoverAfterAppend(h: Scan, a: seq<Sample>, z: Sample, mxSample: nat, lvl: nat)
    requires h.Started() && AllPlaced(h, a) && AllWide(a, h.nCol) && Placed(h, z)
    requires |a| < mxSample && Covered(h, a, mxSample, lvl)
    ensures AllPlaced(h, a + [z]) && AllWide(a + [z], h.nCol) && Covered(h, a + [z], mxSample, lvl)
  {
    var b := a + [z];
    forall k: nat, j: nat | k < |h.rows| && j < h.nCol - 1 && (j >= lvl || !h.Open(k, j))
      ensures GroupCovered(h, b, mxSample, k, j)
    {
      assert GroupCovered(h, a, mxSample, k, j);
      var x :| 0 <= x < |a| && SpeaksFor(h, a[x], k, j);
      assert SpeaksFor(h, b[x], k, j);
    }
  }

  /** Filling blanks in does not touch what the cover depends on. */
  lemma CoverAfterFill(h: Scan, a: seq<Sample>, b: seq<Sample>, cur: Sample, c: nat, mxSample: nat)
    requires h.Started() && SamplesOk(h, a, c, h.nCol) && CurrentOk(h, cur)
    requires AllPlaced(h, a) && AllWide(a, h.nCol) && Covered(h, a, mxSample, c)
    requires |a| == |b| && forall x :: 0 <= x < |a| ==> b[x] == FilledFrom(a[x], c, cur.anEq)
    ensures AllPlaced(h, b) && AllWide(b, h.nCol) && Covered(h, b, mxSample, c)
  {
    forall x | 0 <= x < |a|
      ensures Placed(h, b[x]) && RowOf(b[x]) == RowOf(a[x])
      ensures b[x].isPSample == a[x].isPSample && b[x].iCol == a[x].iCol
      ensures !a[x].isPSample ==> b[x].anEq[b[x].iCol] == a[x].anEq[a[x].iCol]
    {
      assert SampleOk(h, a[x], c, h.nCol);
      FilledOk(h, a[x], cur, c, c);
      assert !a[x].isPSample ==> Key(b[x])[0] == Key(a[x])[0];
    }
    forall k: nat, j: nat | k < |h.rows| && j < h.nCol - 1 && (j >= c || !h.Open(k, j))
      ensures GroupCovered(h, b, mxSample, k, j)
    {
      assert GroupCovered(h, a, mxSample, k, j);
      if Spoken(h, a, k, j) {
        var x :| 0 <= x < |a| && SpeaksFor(h, a[x], k, j);
        assert SpeaksFor(h, b[x], k, j);
      }
    }
  }

  /** The groups the new row ends were covered; the others were already ended. */
  lemma CoverAfterPush(h: Scan, g: Scan, a: seq<Sample>, mxSample: nat, c: nat)
    requires Grows(h, g) && c == Changed(g.rows, |h.rows|)
    requires AllPlaced(h, a) && AllWide(a, h.nCol) && Covered(h, a, mxSample, c)
    ensures AllPlaced(g, a) && Covered(g, a, mxSample, g.nCol - 1)
  {
    ExtendsPrefix(h.rows, g.rows, h.nCol);
    forall k: nat, j: nat | k < |g.rows| && j < g.nCol - 1 && !g.Open(k, j)
      ensures GroupCovered(g, a, mxSample, k, j)
    {
      NewestIsOpen(g, j);
      OpenAfterPush(h, g, k, j);
      CountsOfOldRow(h.rows, g.rows, h.nCol, k, j);
      assert GroupCovered(h, a, mxSample, k, j);
      if Spoken(h, a, k, j) {
        var x :| 0 <= x < |a| && SpeaksFor(h, a[x], k, j);
        assert SpeaksFor(g, a[x], k, j);
      }
    }
  }
}
