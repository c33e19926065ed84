/** The rows of an index as ANALYZE visits them, and what the STAT4 columns
    nEq, nLt and nDLt of a row mean.  Nothing here mentions how the sampler
    computes them. */
module IndexRows {

  /** One index entry: its key columns followed by the rowid or primary key. */
  type Row = seq<int>

  ghost predicate Shaped(rows: seq<Row>, nCol: nat) {
    nCol > 0 && forall i :: 0 <= i < |rows| ==> |rows[i]| == nCol
  }

  /** The leftmost column in which two rows differ, or their width. */
  function FirstDiff(r: Row, s: Row): (d: nat)
    requires |r| == |s|
    ensures d <= |r|
    ensures forall c :: 0 <= c < d ==> r[c] == s[c]
    ensures d < |r| ==> r[d] != s[d]
  {
    FirstDiffFrom(r, s, 0)
  }

  function FirstDiffFrom(r: Row, s: Row, from: nat): (d: nat)
    requires |r| == |s| && from <= |r|
    ensures from <= d <= |r|
    ensures forall c :: from <= c < d ==> r[c] == s[c]
    ensures d < |r| ==> r[d] != s[d]
    decreases |r| - from
  {
    if from == |r| || r[from] != s[from] then from else FirstDiffFrom(r, s, from + 1)
  }

  /** Lexicographic order of the first `n` columns. */
  predicate Less(r: Row, s: Row, n: nat)
    requires |r| == |s|
  {
    var d := FirstDiff(r, s);
    d < n && d < |r| && r[d] < s[d]
  }

  /** An index scan returns its entries in strictly increasing order. */
  ghost predicate Increasing(rows: seq<Row>, nCol: nat)
    requires Shaped(rows, nCol)
  {
    forall i, k {:trigger Less(rows[i], rows[k], nCol)} :: 0 <= i < k < |rows| ==> Less(rows[i], rows[k], nCol)
  }

  /** Rows i and k agree on columns 0..j. */
  predicate Same(rows: seq<Row>, i: nat, k: nat, j: nat)
    requires i < |rows| && k < |rows| && |rows[i]| == |rows[k]|
  {
    j < FirstDiff(rows[i], rows[k])
  }

  ghost function EqSet(rows: seq<Row>, nCol: nat, k: nat, j: nat): set<nat>
    requires Shaped(rows, nCol) && k < |rows|
  {
    set i: nat | i < |rows| && Same(rows, i, k, j)
  }

  ghost function LtSet(rows: seq<Row>, nCol: nat, k: nat, j: nat): set<nat>
    requires Shaped(rows, nCol) && k < |rows|
  {
    set i: nat | i < |rows| && Less(rows[i], rows[k], j + 1)
  }

  ghost function DLtSet(rows: seq<Row>, nCol: nat, k: nat, j: nat): set<Row>
    requires Shaped(rows, nCol) && k < |rows| && j < nCol
  {
    set i: nat | i < |rows| && Less(rows[i], rows[k], j + 1) :: rows[i][..j + 1]
  }

  /** Number of rows that share the first j+1 columns of row k. */
  ghost function NEq(rows: seq<Row>, nCol: nat, k: nat, j: nat): nat
    requires Shaped(rows, nCol) && k < |rows| && j < nCol
  {
    |EqSet(rows, nCol, k, j)|
  }

  /** Number of rows whose first j+1 columns are smaller than those of row k. */
  ghost function NLt(rows: seq<Row>, nCol: nat, k: nat, j: nat): nat
    requires Shaped(rows, nCol) && k < |rows| && j < nCol
  {
    |LtSet(rows, nCol, k, j)|
  }

  /** Number of distinct (j+1)-column prefixes smaller than that of row k. */
  ghost function NDLt(rows: seq<Row>, nCol: nat, k: nat, j: nat): nat
    requires Shaped(rows, nCol) && k < |rows| && j < nCol
  {
    |DLtSet(rows, nCol, k, j)|
  }

  // ---------------------------------------------------------------- prefixes

  lemma FirstDiffUnique(r: Row, s: Row, d: nat)
    requires |r| == |s| && d <= |r|
    requires forall c :: 0 <= c < d ==> r[c] == s[c]
    requires d < |r| ==> r[d] != s[d]
    ensures FirstDiff(r, s) == d
  {
  }

  lemma FirstDiffSymmetric(r: Row, s: Row)
    requires |r| == |s|
    ensures FirstDiff(r, s) == FirstDiff(s, r)
  {
    FirstDiffUnique(s, r, FirstDiff(r, s));
  }

  /** For r < s < t the outer pair parts where the first inner pair parts. */
  lemma FirstDiffBetween(r: Row, s: Row, t: Row)
    requires |r| == |s| == |t|
    requires Less(r, s, |r|) && Less(s, t, |r|)
    ensures FirstDiff(r, t) == if FirstDiff(r, s) < FirstDiff(s, t) then FirstDiff(r, s) else FirstDiff(s, t)
    ensures Less(r, t, |r|)
  {
    var d := if FirstDiff(r, s) < FirstDiff(s, t) then FirstDiff(r, s) else FirstDiff(s, t);
    FirstDiffUnique(r, t, d);
  }

  lemma SameSymmetric(rows: seq<Row>, nCol: nat, i: nat, k: nat, j: nat)
    requires Shaped(rows, nCol) && i < |rows| && k < |rows|
    ensures Same(rows, i, k, j) == Same(rows, k, i, j)
  {
    FirstDiffSymmetric(rows[i], rows[k]);
  }

  lemma SameReflexive(rows: seq<Row>, nCol: nat, i: nat, j: nat)
    requires Shaped(rows, nCol) && i < |rows| && j < nCol
    ensures Same(rows, i, i, j)
  {
    FirstDiffUnique(rows[i], rows[i], nCol);
  }

  lemma SameTransitive(rows: seq<Row>, nCol: nat, i: nat, m: nat, k: nat, j: nat)
    requires Shaped(rows, nCol) && i < |rows| && m < |rows| && k < |rows| && j < nCol
    requires Same(rows, i, m, j) && Same(rows, m, k, j)
    ensures Same(rows, i, k, j)
  {
    assert forall c :: 0 <= c <= j ==> rows[i][c] == rows[m][c] && rows[m][c] == rows[k][c];
  }

  /** Rows sharing a prefix are contiguous. */
  lemma SameConvex(rows: seq<Row>, nCol: nat, i: nat, m: nat, k: nat, j: nat)
    requires Shaped(rows, nCol) && Increasing(rows, nCol) && j < nCol
    requires i <= m <= k < |rows| && Same(rows, i, k, j)
    ensures Same(rows, i, m, j) && Same(rows, m, k, j)
  {
    SameReflexive(rows, nCol, m, j);
    if i < m < k {
      assert Less(rows[i], rows[m], nCol) && Less(rows[m], rows[k], nCol);
      FirstDiffBetween(rows[i], rows[m], rows[k]);
    }
  }

  /** In an increasing scan, smaller prefix means earlier and not sharing it. */
  lemma LessIffBefore(rows: seq<Row>, nCol: nat, i: nat, k: nat, j: nat)
    requires Shaped(rows, nCol) && Increasing(rows, nCol) && j < nCol
    requires i < |rows| && k < |rows|
    ensures Less(rows[i], rows[k], j + 1) <==> i < k && !Same(rows, i, k, j)
  {
    if i < k {
      assert Less(rows[i], rows[k], nCol);
    } else if i == k {
      SameReflexive(rows, nCol, i, j);
    } else {
      assert Less(rows[k], rows[i], nCol);
      FirstDiffSymmetric(rows[i], rows[k]);
    }
  }

  // ------------------------------------------------------------------ counts

  lemma SubsetSize<T>(a: set<T>, b: set<T>)
    requires a <= b
    ensures |a| <= |b|
  {
    assert b == a + (b - a);
  }

  /** Longer prefixes are shared by fewer rows. */
  lemma NEqAntitone(rows: seq<Row>, nCol: nat, k: nat, i: nat, j: nat)
    requires Shaped(rows, nCol) && k < |rows| && i <= j < nCol
    ensures NEq(rows, nCol, k, j) <= NEq(rows, nCol, k, i)
  {
    SubsetSize(EqSet(rows, nCol, k, j), EqSet(rows, nCol, k, i));
  }

  lemma NEqPositive(rows: seq<Row>, nCol: nat, k: nat, j: nat)
    requires Shaped(rows, nCol) && k < |rows| && j < nCol
    ensures NEq(rows, nCol, k, j) > 0
  {
    SameReflexive(rows, nCol, k, j);
    assert k in EqSet(rows, nCol, k, j);
  }

  /** Rows of one group have one group size. */
  lemma NEqOfGroup(rows: seq<Row>, nCol: nat, i: nat, k: nat, j: nat)
    requires Shaped(rows, nCol) && i < |rows| && k < |rows| && j < nCol
    requires Same(rows, i, k, j)
    ensures NEq(rows, nCol, i, j) == NEq(rows, nCol, k, j)
  {
    forall m: nat | m < |rows|
      ensures Same(rows, m, i, j) <==> Same(rows, m, k, j)
    {
      SameSymmetric(rows, nCol, i, k, j);
      if Same(rows, m, i, j) {
        SameTransitive(rows, nCol, m, i, k, j);
      }
      if Same(rows, m, k, j) {
        SameTransitive(rows, nCol, m, k, i, j);
      }
    }
    assert EqSet(rows, nCol, i, j) == EqSet(rows, nCol, k, j);
  }

  /** All columns together identify a row. */
  lemma NEqOfWholeRow(rows: seq<Row>, nCol: nat, k: nat)
    requires Shaped(rows, nCol) && Increasing(rows, nCol) && k < |rows|
    ensures NEq(rows, nCol, k, nCol - 1) == 1
  {
    var j := nCol - 1;
    SameReflexive(rows, nCol, k, j);
    forall i: nat | i < |rows| && i != k
      ensures !Same(rows, i, k, j)
    {
      if i < k {
        assert Less(rows[i], rows[k], nCol);
      } else {
        assert Less(rows[k], rows[i], nCol);
        FirstDiffSymmetric(rows[i], rows[k]);
      }
    }
    assert EqSet(rows, nCol, k, nCol - 1) == {k};
  }

  // ----------------------------------------------- appending one row to a scan

  /** The column stat_push is told about: where row n first differs from row n-1. */
  function Changed(rows: seq<Row>, n: nat): nat
    requires 0 < n < |rows| && |rows[n - 1]| == |rows[n]|
  {
    FirstDiff(rows[n - 1], rows[n])
  }

  lemma SameWithNewRow(rows: seq<Row>, nCol: nat, k: nat, n: nat, j: nat)
    requires Shaped(rows, nCol) && Increasing(rows, nCol) && j < nCol
    requires k < n < |rows|
    ensures Same(rows, k, n, j) <==> j < Changed(rows, n) && Same(rows, k, n - 1, j)
  {
    if k < n - 1 {
      FirstDiffBetween(rows[k], rows[n - 1], rows[n]);
    } else {
      SameReflexive(rows, nCol, k, j);
    }
  }

  ghost predicate Extends(old_: seq<Row>, rows: seq<Row>, nCol: nat) {
    Shaped(rows, nCol) && Increasing(rows, nCol) && |rows| == |old_| + 1 && rows[..|old_|] == old_
  }

  lemma ExtendsPrefix(old_: seq<Row>, rows: seq<Row>, nCol: nat)
    requires Extends(old_, rows, nCol)
    ensures Shaped(old_, nCol) && Increasing(old_, nCol)
    ensures forall i :: 0 <= i < |old_| ==> old_[i] == rows[i]
  {
    assert forall i :: 0 <= i < |old_| ==> old_[i] == rows[..|old_|][i];
  }

  /** What one more row does to the counts of an earlier row: only the groups
      that contain the new row grow. */
  lemma CountsOfOldRow(old_: seq<Row>, rows: seq<Row>, nCol: nat, k: nat, j: nat)
    requires Extends(old_, rows, nCol) && Shaped(old_, nCol) && k < |old_| && j < nCol
    ensures NEq(rows, nCol, k, j) == NEq(old_, nCol, k, j) + if Same(rows, k, |old_|, j) then 1 else 0
    ensures NLt(rows, nCol, k, j) == NLt(old_, nCol, k, j)
    ensures NDLt(rows, nCol, k, j) == NDLt(old_, nCol, k, j)
  {
    ExtendsPrefix(old_, rows, nCol);
    var n := |old_|;
    SameSymmetric(rows, nCol, n, k, j);
    LessIffBefore(rows, nCol, n, k, j);
    assert forall i: nat | i < n :: Same(rows, i, k, j) == Same(old_, i, k, j);
    if Same(rows, n, k, j) {
      assert EqSet(rows, nCol, k, j) == EqSet(old_, nCol, k, j) + {n};
    } else {
      assert EqSet(rows, nCol, k, j) == EqSet(old_, nCol, k, j);
    }
    assert LtSet(rows, nCol, k, j) == LtSet(old_, nCol, k, j);
    assert DLtSet(rows, nCol, k, j) == DLtSet(old_, nCol, k, j);
  }

  /** Which earlier rows share a prefix with the new row, and which are below it. */
  lemma PrefixesAroundNewRow(old_: seq<Row>, rows: seq<Row>, nCol: nat, j: nat)
    requires Extends(old_, rows, nCol) && Shaped(old_, nCol) && |old_| > 0 && j < nCol
    ensures var n := |old_|;
            forall i: nat | i < n ::
              && (Same(rows, i, n, j) <==> j < Changed(rows, n) && Same(old_, i, n - 1, j))
              && (Less(rows[i], rows[n], j + 1) <==> !Same(rows, i, n, j))
              && (Less(old_[i], old_[n - 1], j + 1) <==> i < n - 1 && !Same(old_, i, n - 1, j))
    ensures Same(rows, |old_|, |old_|, j) && Same(old_, |old_| - 1, |old_| - 1, j)
    ensures !Less(rows[|old_|], rows[|old_|], j + 1)
  {
    ExtendsPrefix(old_, rows, nCol);
    var n := |old_|;
    forall i: nat | i < n
      ensures Same(rows, i, n, j) <==> j < Changed(rows, n) && Same(old_, i, n - 1, j)
      ensures Less(rows[i], rows[n], j + 1) <==> !Same(rows, i, n, j)
      ensures Less(old_[i], old_[n - 1], j + 1) <==> i < n - 1 && !Same(old_, i, n - 1, j)
    {
      SameWithNewRow(rows, nCol, i, n, j);
      LessIffBefore(rows, nCol, i, n, j);
      LessIffBefore(old_, nCol, i, n - 1, j);
    }
    SameReflexive(rows, nCol, n, j);
    SameReflexive(old_, nCol, n - 1, j);
    LessIffBefore(rows, nCol, n, n, j);
  }

  lemma SetsOfNewRow(old_: seq<Row>, rows: seq<Row>, nCol: nat, j: nat)
    requires Extends(old_, rows, nCol) && Shaped(old_, nCol) && |old_| > 0 && j < nCol
    ensures var n := |old_|;
            var eq, lt := EqSet(old_, nCol, n - 1, j), LtSet(old_, nCol, n - 1, j);
            && lt !! eq && n !in eq
            && EqSet(rows, nCol, n, j) == (if j < Changed(rows, n) then eq + {n} else {n})
            && LtSet(rows, nCol, n, j) == (if j < Changed(rows, n) then lt else lt + eq)
  {
    PrefixesAroundNewRow(old_, rows, nCol, j);
  }

  /** What the new row's own counts are, from those of the row before it. */
  lemma CountsOfNewRow(old_: seq<Row>, rows: seq<Row>, nCol: nat, j: nat)
    requires Extends(old_, rows, nCol) && Shaped(old_, nCol) && |old_| > 0 && j < nCol
    ensures var n := |old_|;
            var grows := j < Changed(rows, n);
            && NEq(rows, nCol, n, j) == (if grows then NEq(old_, nCol, n - 1, j) + 1 else 1)
            && NLt(rows, nCol, n, j) == NLt(old_, nCol, n - 1, j) + (if grows then 0 else NEq(old_, nCol, n - 1, j))
            && NDLt(rows, nCol, n, j) == NDLt(old_, nCol, n - 1, j) + (if grows then 0 else 1)
  {
    SetsOfNewRow(old_, rows, nCol, j);
    if j < Changed(rows, |old_|) {
      SamePrefixes(old_, rows, nCol, j);
    } else {
      NewPrefix(old_, rows, nCol, j);
    }
  }

  /** Without a change in columns 0..j the smaller prefixes stay the same. */
  lemma SamePrefixes(old_: seq<Row>, rows: seq<Row>, nCol: nat, j: nat)
    requires Extends(old_, rows, nCol) && Shaped(old_, nCol) && |old_| > 0 && j < nCol
    requires j < Changed(rows, |old_|)
    ensures NDLt(rows, nCol, |old_|, j) == NDLt(old_, nCol, |old_| - 1, j)
  {
    ExtendsPrefix(old_, rows, nCol);
    PrefixesAroundNewRow(old_, rows, nCol, j);
    assert DLtSet(rows, nCol, |old_|, j) == DLtSet(old_, nCol, |old_| - 1, j);
  }

  /** A change in columns 0..j makes the previous prefix one more smaller one. */
  lemma NewPrefix(old_: seq<Row>, rows: seq<Row>, nCol: nat, j: nat)
    requires Extends(old_, rows, nCol) && Shaped(old_, nCol) && |old_| > 0 && j < nCol
    requires Changed(rows, |old_|) <= j
    ensures NDLt(rows, nCol, |old_|, j) == NDLt(old_, nCol, |old_| - 1, j) + 1
  {
    hide FirstDiff;
    ExtendsPrefix(old_, rows, nCol);
    PrefixesAroundNewRow(old_, rows, nCol, j);
    var n := |old_|;
    var last := old_[n - 1][..j + 1];
    forall i: nat | i < n
      ensures Less(rows[i], rows[n], j + 1)
      ensures old_[i][..j + 1] == last || Less(old_[i], old_[n - 1], j + 1)
      ensures Less(old_[i], old_[n - 1], j + 1) ==> old_[i][..j + 1] != last
    {
      var d := FirstDiff(old_[i], old_[n - 1]);
      if j < d {
        assert old_[i][..j + 1] == last;
      } else {
        assert old_[i][..j + 1][d] != last[d];
      }
    }
    assert rows[n - 1][..j + 1] == last;
    var before, after := DLtSet(old_, nCol, n - 1, j), DLtSet(rows, nCol, n, j);
    forall p | p in after
      ensures p in before + {last}
    {
      var i: nat :| i < |rows| && Less(rows[i], rows[n], j + 1) && p == rows[i][..j + 1];
      assert i < n && rows[i] == old_[i];
    }
    forall p | p in before
      ensures p in after
    {
      var i: nat :| i < |old_| && Less(old_[i], old_[n - 1], j + 1) && p == old_[i][..j + 1];
      assert rows[i] == old_[i];
    }
    assert after == before + {last};
  }

  /** The counts of the very first row. */
  lemma CountsOfFirstRow(rows: seq<Row>, nCol: nat, j: nat)
    requires Shaped(rows, nCol) && |rows| == 1 && j < nCol
    ensures NEq(rows, nCol, 0, j) == 1 && NLt(rows, nCol, 0, j) == 0 && NDLt(rows, nCol, 0, j) == 0
  {
    SameReflexive(rows, nCol, 0, j);
    assert EqSet(rows, nCol, 0, j) == {0};
    FirstDiffUnique(rows[0], rows[0], nCol);
    assert LtSet(rows, nCol, 0, j) == {};
    assert DLtSet(rows, nCol, 0, j) == {};
  }

  /** Every earlier row is smaller, so nLt of the last column numbers the rows. */
  lemma NLtOfWholeRow(rows: seq<Row>, nCol: nat, k: nat)
    requires Shaped(rows, nCol) && Increasing(rows, nCol) && k < |rows|
    ensures NLt(rows, nCol, k, nCol - 1) == k
  {
    forall i: nat | i < |rows|
      ensures Less(rows[i], rows[k], nCol) <==> i < k
    {
      LessIffBefore(rows, nCol, i, k, nCol - 1);
      if i < k {
        assert Less(rows[i], rows[k], nCol);
      }
    }
    assert LtSet(rows, nCol, k, nCol - 1) == Below(k);
  }

  ghost function Below(k: nat): (s: set<nat>)
    ensures |s| == k && forall i: nat :: i in s <==> i < k
  {
    if k == 0 then {} else Below(k - 1) + {k - 1}
  }
}
