/** A STAT4 sample and the order in which samples are preferred. */
module SampleOrder {

  /** The fields of StatSample; `rowid` stands for the union `u`. */
  datatype Sample = Sample(
    anEq: seq<nat>, anLt: seq<nat>, anDLt: seq<nat>,
    rowid: int, isPSample: bool, iCol: nat, iHash: nat)

  predicate Wide(s: Sample, nCol: nat) {
    nCol > 0 && |s.anEq| == |s.anLt| == |s.anDLt| == nCol && s.iCol < nCol
  }

  /** Lexicographic "greater than". */
  ghost predicate LexGt(x: seq<int>, y: seq<int>) {
    exists c :: 0 <= c < |x| && c < |y| && x[c] > y[c] && x[..c] == y[..c]
  }

  /** What decides between two candidates for the same column: the columns
      after it, then the hash. */
  function PostKey(s: Sample, i: nat): seq<int>
    requires i < |s.anEq|
  {
    s.anEq[i + 1..] + [s.iHash]
  }

  /** What decides between any two non-periodic samples: the size of the group
      they stand for, then the shorter prefix, then the tie-breakers. */
  function Key(s: Sample): seq<int>
    requires s.iCol < |s.anEq|
  {
    [s.anEq[s.iCol], 0 - s.iCol] + PostKey(s, s.iCol)
  }

  /** `s` is preferred over `o`. */
  ghost predicate Better(s: Sample, o: Sample)
    requires s.iCol < |s.anEq| && o.iCol < |o.anEq|
  {
    LexGt(Key(s), Key(o))
  }

  lemma LexGtTransitive(x: seq<int>, y: seq<int>, z: seq<int>)
    requires LexGt(x, y) && LexGt(y, z)
    ensures LexGt(x, z)
  {
    var c :| 0 <= c < |x| && c < |y| && x[c] > y[c] && x[..c] == y[..c];
    var d :| 0 <= d < |y| && d < |z| && y[d] > z[d] && y[..d] == z[..d];
    var e := if c < d then c else d;
    assert x[..e] == x[..c][..e] == y[..c][..e] == y[..e];
    assert y[..e] == y[..d][..e] == z[..d][..e] == z[..e];
    if c < d {
      assert y[c] == y[..d][c] == z[..d][c] == z[c];
    } else if d < c {
      assert x[d] == x[..c][d] == y[..c][d] == y[d];
    }
    assert x[e] > z[e];
  }

  lemma LexGtIrreflexive(x: seq<int>)
    ensures !LexGt(x, x)
  {
  }

  /** The first difference decides. */
  lemma LexGtAt(x: seq<int>, y: seq<int>, c: nat)
    requires c < |x| && c < |y| && x[..c] == y[..c] && x[c] != y[c]
    ensures LexGt(x, y) <==> x[c] > y[c]
  {
    if LexGt(x, y) {
      var d :| 0 <= d < |x| && d < |y| && x[d] > y[d] && x[..d] == y[..d];
      assert d < c ==> x[d] == x[..c][d] == y[..c][d] == y[d];
      assert c < d ==> x[c] == x[..d][c] == y[..d][c] == y[c];
    }
  }

  lemma LexGtDrop(p: seq<int>, x: seq<int>, y: seq<int>)
    ensures LexGt(p + x, p + y) <==> LexGt(x, y)
  {
    if LexGt(x, y) {
      var c :| 0 <= c < |x| && c < |y| && x[c] > y[c] && x[..c] == y[..c];
      assert (p + x)[..|p| + c] == p + x[..c] == p + y[..c] == (p + y)[..|p| + c];
      assert (p + x)[|p| + c] > (p + y)[|p| + c];
    }
    if LexGt(p + x, p + y) {
      var d :| 0 <= d < |p + x| && d < |p + y| && (p + x)[d] > (p + y)[d] && (p + x)[..d] == (p + y)[..d];
      assert d >= |p|;
      var c := d - |p|;
      assert x[..c] == (p + x)[..d][|p|..] == (p + y)[..d][|p|..] == y[..c];
      assert x[c] > y[c];
    }
  }

  lemma BetterTransitive(r: Sample, s: Sample, t: Sample)
    requires r.iCol < |r.anEq| && s.iCol < |s.anEq| && t.iCol < |t.anEq|
    requires Better(r, s) && Better(s, t)
    ensures Better(r, t)
  {
    LexGtTransitive(Key(r), Key(s), Key(t));
  }

  /** Not being beaten by the least preferred sample carries upward. */
  lemma BetterThanUnbeaten(r: Sample, s: Sample, min: Sample, nCol: nat)
    requires Wide(r, nCol) && Wide(s, nCol) && Wide(min, nCol)
    requires Better(r, s) && !Better(min, s)
    ensures Better(r, min)
  {
    var kr, ks, km := Key(r), Key(s), Key(min);
    Connected(s, min, nCol);
    if ks != km {
      LexGtTransitive(kr, ks, km);
    }
  }

  /** Two samples compare one way, the other way, or have the same key. */
  lemma Connected(s: Sample, t: Sample, nCol: nat)
    requires Wide(s, nCol) && Wide(t, nCol)
    ensures Better(s, t) || Better(t, s) || Key(s) == Key(t)
  {
    var x, y := Key(s), Key(t);
    if s.iCol != t.iCol {
      var c := if x[0] != y[0] then 0 else 1;
      assert x[..c] == y[..c];
      LexGtAt(x, y, c);
      LexGtAt(y, x, c);
    } else if x != y {
      var c := FirstDifference(x, y);
      LexGtAt(x, y, c);
      LexGtAt(y, x, c);
    }
  }

  lemma FirstDifference(x: seq<int>, y: seq<int>) returns (c: nat)
    requires |x| == |y| && x != y
    ensures c < |x| && x[c] != y[c] && x[..c] == y[..c]
  {
    c := 0;
    while x[c] == y[c]
      invariant c < |x| && x[..c] == y[..c]
      decreases |x| - c
    {
      c := c + 1;
    }
  }

  /** The group of a shorter prefix is preferred when it is no smaller. */
  lemma ShorterPrefixIsBetter(s: Sample, t: Sample, nCol: nat)
    requires Wide(s, nCol) && Wide(t, nCol)
    requires s.iCol < t.iCol && s.anEq[s.iCol] >= t.anEq[t.iCol]
    ensures Better(s, t)
  {
    var x, y := Key(s), Key(t);
    var c := if x[0] != y[0] then 0 else 1;
    assert x[..c] == y[..c];
    LexGtAt(x, y, c);
  }

  // ------------------------------------------------------------- comparators

  method SampleIsBetterPost(nCol: nat, pNew: Sample, pOld: Sample) returns (r: bool)
    requires Wide(pNew, nCol) && Wide(pOld, nCol) && pNew.iCol == pOld.iCol
    ensures r <==> LexGt(PostKey(pNew, pNew.iCol), PostKey(pOld, pNew.iCol))
  {
    ghost var x, y := PostKey(pNew, pNew.iCol), PostKey(pOld, pNew.iCol);
    ghost var base := pNew.iCol + 1;
    for i := pNew.iCol + 1 to nCol
      invariant x[..i - base] == y[..i - base]
    {
      if pNew.anEq[i] != pOld.anEq[i] {
        LexGtAt(x, y, i - base);
      }
      if pNew.anEq[i] > pOld.anEq[i] { return true; }
      if pNew.anEq[i] < pOld.anEq[i] { return false; }
      assert x[..i + 1 - base] == x[..i - base] + [x[i - base]];
      assert y[..i + 1 - base] == y[..i - base] + [y[i - base]];
    }
    if pNew.iHash != pOld.iHash {
      LexGtAt(x, y, nCol - base);
    } else {
      assert x == y;
    }
    return pNew.iHash > pOld.iHash;
  }

  /** The two-stage comparison decides the lexicographic order of the keys. */
  lemma BetterByStages(s: Sample, o: Sample)
    requires s.iCol < |s.anEq| && o.iCol < |o.anEq|
    ensures s.anEq[s.iCol] != o.anEq[o.iCol] ==> (Better(s, o) <==> s.anEq[s.iCol] > o.anEq[o.iCol])
    ensures s.anEq[s.iCol] == o.anEq[o.iCol] && s.iCol != o.iCol ==> (Better(s, o) <==> s.iCol < o.iCol)
    ensures s.anEq[s.iCol] == o.anEq[o.iCol] && s.iCol == o.iCol ==>
              (Better(s, o) <==> LexGt(PostKey(s, s.iCol), PostKey(o, o.iCol)))
  {
    var x, y := Key(s), Key(o);
    if x[0] != y[0] {
      LexGtAt(x, y, 0);
    } else if x[1] != y[1] {
      assert x[..1] == y[..1];
      LexGtAt(x, y, 1);
    } else {
      LexGtDrop([s.anEq[s.iCol], 0 - s.iCol], PostKey(s, s.iCol), PostKey(o, o.iCol));
    }
  }

  method SampleIsBetter(nCol: nat, pNew: Sample, pOld: Sample) returns (r: bool)
    requires Wide(pNew, nCol) && Wide(pOld, nCol)
    ensures r <==> Better(pNew, pOld)
  {
    var nEqNew, nEqOld := pNew.anEq[pNew.iCol], pOld.anEq[pOld.iCol];
    BetterByStages(pNew, pOld);
    if nEqNew > nEqOld { return true; }
    if nEqNew == nEqOld {
      if pNew.iCol < pOld.iCol { return true; }
      if pNew.iCol == pOld.iCol {
        r := SampleIsBetterPost(nCol, pNew, pOld);
        return r;
      }
    }
    return false;
  }
}
