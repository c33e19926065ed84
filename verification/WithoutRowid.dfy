/** convertToWithoutRowidTable: what becomes of the indexes of the table. */
module WithoutRowid {
  import opened HashRuns

  /** An index term: column number and collation. */
  datatype Term = Term(col: int, coll: Key)

  /** Same column, and collations equal but for case. */
  predicate SameTerm(a: Term, b: Term) {
    a.col == b.col && SameKey(a.coll, b.coll)
  }

  predicate HasTerm(ts: seq<Term>, t: Term) {
    exists i :: 0 <= i < |ts| && SameTerm(ts[i], t)
  }

  predicate HasCol(ts: seq<Term>, c: int) {
    exists i :: 0 <= i < |ts| && ts[i].col == c
  }

  // ----------------------------------------------------------------- specification

  /** The first i terms without the ones that repeat an earlier one. */
  function Deduped(ts: seq<Term>, i: nat): seq<Term>
    requires i <= |ts|
  {
    if i == 0 then []
    else
      var d := Deduped(ts, i - 1);
      if HasTerm(d, ts[i - 1]) then d else d + [ts[i - 1]]
  }

  /** The first i primary key terms that are not among the keys of an index. */
  function Missing(keys: seq<Term>, pk: seq<Term>, i: nat): seq<Term>
    requires i <= |pk|
  {
    if i == 0 then []
    else
      var m := Missing(keys, pk, i - 1);
      if HasTerm(keys, pk[i - 1]) then m else m + [pk[i - 1]]
  }

  /** A table column: whether it is virtual, and its collation. */
  datatype Column = Column(isVirtual: bool, coll: Key)

  /** The columns before i that the primary key leaves out. */
  function Uncovered(pk: seq<Term>, cols: seq<Column>, i: nat): seq<Term>
    requires i <= |cols|
  {
    if i == 0 then []
    else
      var u := Uncovered(pk, cols, i - 1);
      if HasCol(pk, i - 1) || cols[i - 1].isVirtual then u else u + [Term(i - 1, cols[i - 1].coll)]
  }

  ghost predicate NoRepeats(ts: seq<Term>) {
    forall i, j :: 0 <= i < j < |ts| ==> !SameTerm(ts[i], ts[j])
  }

  lemma StillHasTerm(d: seq<Term>, x: Term, t: Term)
    requires HasTerm(d, t) || SameTerm(x, t)
    ensures HasTerm(d + [x], t)
  {
    if HasTerm(d, t) {
      var j :| 0 <= j < |d| && SameTerm(d[j], t);
      assert (d + [x])[j] == d[j];
    } else {
      assert (d + [x])[|d|] == x;
    }
  }

  /** No term is repeated, and none is lost. */
  lemma {:induction false} DedupedTerms(ts: seq<Term>, i: nat)
    requires i <= |ts|
    ensures NoRepeats(Deduped(ts, i)) && |Deduped(ts, i)| <= i
    ensures i > 0 ==> |Deduped(ts, i)| > 0
    ensures forall t :: t in Deduped(ts, i) ==> t in ts[..i]
    ensures forall k :: 0 <= k < i ==> HasTerm(Deduped(ts, i), ts[k])
  {
    if i > 0 {
      DedupedTerms(ts, i - 1);
      var d, r := Deduped(ts, i - 1), Deduped(ts, i);
      assert ts[..i] == ts[..i - 1] + [ts[i - 1]];
      forall k | 0 <= k < i ensures HasTerm(r, ts[k]) {
        if r != d {
          StillHasTerm(d, ts[i - 1], ts[k]);
        }
      }
    }
  }

  /** The terms of ts at the positions ps, which are in order. */
  ghost predicate Picks(r: seq<Term>, ts: seq<Term>, ps: seq<nat>, n: nat) {
    && |ps| == |r| && n <= |ts|
    && (forall x, y :: 0 <= x < y < |ps| ==> ps[x] < ps[y])
    && (forall x :: 0 <= x < |ps| ==> ps[x] < n && r[x] == ts[ps[x]])
  }

  lemma PicksOneMore(r: seq<Term>, ts: seq<Term>, ps: seq<nat>, n: nat)
    requires Picks(r, ts, ps, n) && n < |ts|
    ensures Picks(r, ts, ps, n + 1) && Picks(r + [ts[n]], ts, ps + [n], n + 1)
  {
  }

  /** No earlier term is the same. */
  ghost predicate IsFirst(ts: seq<Term>, k: nat) {
    k < |ts| && forall j :: 0 <= j < k ==> !SameTerm(ts[j], ts[k])
  }

  lemma SameTermChain(a: Term, b: Term, c: Term)
    requires SameTerm(a, b) && SameTerm(b, c)
    ensures SameTerm(a, c) && SameTerm(b, a)
  {
  }

  /** The positions ps are those of the first occurrences before n. */
  ghost predicate JustFirsts(ts: seq<Term>, ps: seq<nat>, n: nat) {
    forall k: nat {:trigger IsFirst(ts, k)} :: k < n ==> (k in ps <==> IsFirst(ts, k))
  }

  lemma OneMoreFirst(ts: seq<Term>, qs: seq<nat>, n: nat, first: bool)
    requires JustFirsts(ts, qs, n) && (forall x :: 0 <= x < |qs| ==> qs[x] < n) && first == IsFirst(ts, n)
    ensures JustFirsts(ts, if first then qs + [n] else qs, n + 1)
  {
    hide IsFirst;
  }

  /** It is the first occurrence of every term that stays, in the order they had. */
  lemma {:induction false} DedupedInOrder(ts: seq<Term>, i: nat) returns (ps: seq<nat>)
    requires i <= |ts|
    ensures Picks(Deduped(ts, i), ts, ps, i) && JustFirsts(ts, ps, i)
  {
    hide HasTerm;
    hide SameTerm;
    ps := [];
    if i > 0 {
      var qs := DedupedInOrder(ts, i - 1);
      var d := Deduped(ts, i - 1);
      var first := !HasTerm(d, ts[i - 1]);
      FirstUnlessThere(ts, i - 1);
      OneMoreFirst(ts, qs, i - 1, first);
      PicksOneMore(d, ts, qs, i - 1);
      hide Picks;
      hide JustFirsts;
      ps := if first then qs + [i - 1] else qs;
    }
  }

  lemma FirstUnlessThere(ts: seq<Term>, k: nat)
    requires k < |ts|
    ensures IsFirst(ts, k) <==> !HasTerm(Deduped(ts, k), ts[k])
  {
    DedupedTerms(ts, k);
    var d := Deduped(ts, k);
    if HasTerm(d, ts[k]) {
      var x :| 0 <= x < |d| && SameTerm(d[x], ts[k]);
      assert d[x] in d && d[x] in ts[..k];
    }
    if !IsFirst(ts, k) {
      var j :| 0 <= j < k && SameTerm(ts[j], ts[k]);
      assert HasTerm(d, ts[j]);
      var x :| 0 <= x < |d| && SameTerm(d[x], ts[j]);
      SameTermChain(d[x], ts[j], ts[k]);
    }
  }

  /** The missing terms keep the order of the primary key. */
  lemma {:induction false} MissingInOrder(keys: seq<Term>, pk: seq<Term>, i: nat) returns (ps: seq<nat>)
    requires i <= |pk|
    ensures Picks(Missing(keys, pk, i), pk, ps, i)
    ensures forall k: nat :: k < i ==> (k in ps <==> !HasTerm(keys, pk[k]))
  {
    hide HasTerm;
    ps := [];
    if i > 0 {
      var qs := MissingInOrder(keys, pk, i - 1);
      PicksOneMore(Missing(keys, pk, i - 1), pk, qs, i - 1);
      hide Picks;
      ps := if HasTerm(keys, pk[i - 1]) then qs else qs + [i - 1];
    }
  }

  /** An index that has its own keys and the missing primary key terms has them all. */
  lemma {:induction false} MissingTerms(keys: seq<Term>, pk: seq<Term>, i: nat)
    requires i <= |pk| && NoRepeats(pk)
    ensures forall k :: 0 <= k < i ==> HasTerm(keys + Missing(keys, pk, i), pk[k])
    ensures NoRepeats(Missing(keys, pk, i)) && |Missing(keys, pk, i)| <= i
    ensures forall t :: t in Missing(keys, pk, i) ==> t in pk[..i] && !HasTerm(keys, t)
  {
    hide Folded;
    if i > 0 {
      MissingTerms(keys, pk, i - 1);
      var m, r := Missing(keys, pk, i - 1), Missing(keys, pk, i);
      assert pk[..i] == pk[..i - 1] + [pk[i - 1]];
      forall k | 0 <= k < i ensures HasTerm(keys + r, pk[k]) {
        if k < i - 1 {
          var j :| 0 <= j < |keys + m| && SameTerm((keys + m)[j], pk[k]);
          assert (keys + r)[j] == (keys + m)[j];
        } else if HasTerm(keys, pk[k]) {
          var j :| 0 <= j < |keys| && SameTerm(keys[j], pk[k]);
          assert (keys + r)[j] == keys[j];
        } else {
          assert (keys + r)[|keys + m|] == pk[k];
        }
      }
      forall x, y | 0 <= x < y < |r| ensures !SameTerm(r[x], r[y]) {
        if y == |m| {
          assert r[x] == m[x] && m[x] in m && m[x] in pk[..i - 1];
        }
      }
    }
  }

  lemma ColKept(pk: seq<Term>, u: seq<Term>, r: seq<Term>, c: int)
    requires u <= r && (HasCol(pk + u, c) || HasCol(pk, c))
    ensures HasCol(pk + r, c)
  {
    if HasCol(pk, c) {
      var j :| 0 <= j < |pk| && pk[j].col == c;
      assert (pk + r)[j] == pk[j];
    } else {
      var j :| 0 <= j < |pk + u| && (pk + u)[j].col == c;
      assert (pk + r)[j] == (pk + u)[j];
    }
  }

  /** Every column that is not virtual and not in the key is added exactly once, in
      the order of the table. */
  lemma {:induction false} UncoveredColumns(pk: seq<Term>, cols: seq<Column>, i: nat)
    requires i <= |cols|
    ensures forall c :: 0 <= c < i && !cols[c].isVirtual ==> HasCol(pk + Uncovered(pk, cols, i), c)
    ensures forall t :: t in Uncovered(pk, cols, i) ==>
              0 <= t.col < i && !cols[t.col].isVirtual && !HasCol(pk, t.col) && t.coll == cols[t.col].coll
    ensures forall x, y :: 0 <= x < y < |Uncovered(pk, cols, i)| ==>
              Uncovered(pk, cols, i)[x].col < Uncovered(pk, cols, i)[y].col
  {
    if i > 0 {
      UncoveredColumns(pk, cols, i - 1);
      var u, r := Uncovered(pk, cols, i - 1), Uncovered(pk, cols, i);
      forall c | 0 <= c < i && !cols[c].isVirtual ensures HasCol(pk + r, c) {
        if c < i - 1 {
          assert HasCol(pk + u, c);
          ColKept(pk, u, r, c);
        } else if HasCol(pk, c) {
          ColKept(pk, [], r, c);
        } else {
          assert (pk + r)[|pk + u|].col == c;
        }
      }
      forall x, y | 0 <= x < y < |r| ensures r[x].col < r[y].col {
        if y == |u| {
          assert r[x] == u[x] && u[x] in u;
        }
      }
    }
  }

  // ------------------------------------------------------------------- the program

  method IsDupColumn(ts: seq<Term>, nKey: nat, t: Term) returns (r: bool)
    requires nKey <= |ts|
    ensures r == HasTerm(ts[..nKey], t)
  {
    for i := 0 to nKey
      invariant !HasTerm(ts[..i], t)
    {
      if SameTerm(ts[i], t) {
        assert ts[..nKey][i] == ts[i];
        return true;
      }
      assert ts[..i + 1] == ts[..i] + [ts[i]];
    }
    r := false;
  }

  method HasColumn(ts: seq<Term>, n: nat, c: int) returns (r: bool)
    requires n <= |ts|
    ensures r == HasCol(ts[..n], c)
  {
    for i := 0 to n
      invariant !HasCol(ts[..i], c)
    {
      if ts[i].col == c {
        assert ts[..n][i] == ts[i];
        return true;
      }
      assert ts[..i + 1] == ts[..i] + [ts[i]];
    }
    r := false;
  }

  class Index {
    var terms: seq<Term>      // aiColumn[] and azColl[], as long as allocated
    var nKeyCol: nat
    var nColumn: nat

    ghost predicate Valid()
      reads this
    {
      nKeyCol <= nColumn <= |terms|
    }

    ghost function Keys(): seq<Term>
      requires Valid()
      reads this
    {
      terms[..nKeyCol]
    }

    ghost function Columns(): seq<Term>
      requires Valid()
      reads this
    {
      terms[..nColumn]
    }

    constructor (terms: seq<Term>, nKeyCol: nat)
      requires nKeyCol <= |terms|
      ensures Valid() && this.terms == terms && this.nKeyCol == nKeyCol && nColumn == |terms|
    {
      this.terms, this.nKeyCol, this.nColumn := terms, nKeyCol, |terms|;
    }

    /** resizeIndexObject; new entries are zero. */
    method Resize(n: nat, malloc: bool) returns (ok: bool)
      requires Valid()
      modifies this
      ensures Valid() && nKeyCol == old(nKeyCol) && old(nColumn) <= nColumn && terms[..old(nColumn)] == old(Columns())
      ensures ok <==> n <= old(nColumn) || malloc
      ensures nColumn == if ok && n > old(nColumn) then n else old(nColumn)
    {
      if nColumn >= n {
        return true;
      }
      if !malloc {
        return false;
      }
      terms := terms[..nColumn] + seq(n - nColumn, i => Term(0, []));
      nColumn := n;
      ok := true;
    }

    /** Drop repeated terms from the primary key. */
    method RemoveRedundant()
      requires Valid() && nKeyCol > 0
      modifies this
      ensures Valid() && nColumn == nKeyCol && Columns() == Deduped(old(Keys()), old(nKeyCol))
    {
      ghost var keys := Keys();
      var j := 1;
      for i := 1 to nKeyCol
        invariant 1 <= j <= i && |terms| == |old(terms)| && nKeyCol == old(nKeyCol)
        invariant terms[..j] == Deduped(keys, i)
        invariant forall k :: i <= k < nKeyCol ==> terms[k] == keys[k]
      {
        var dup := IsDupColumn(terms, j, terms[i]);
        if !dup {
          terms := terms[j := terms[i]];
          j := j + 1;
          assert terms[..j] == terms[..j - 1] + [keys[i]];
        }
      }
      nKeyCol := j;
      nColumn := j;
    }

    /** Count the primary key terms that this index lacks. */
    method CountMissing(pk: seq<Term>) returns (n: nat)
      requires Valid()
      ensures n == |Missing(Keys(), pk, |pk|)|
    {
      n := 0;
      for i := 0 to |pk|
        invariant n == |Missing(Keys(), pk, i)|
      {
        var dup := IsDupColumn(terms, nKeyCol, pk[i]);
        if !dup {
          n := n + 1;
        }
      }
    }

    /** Replace the rowid at the end of the index by the primary key. */
    method AppendKey(pk: seq<Term>, malloc: bool) returns (ok: bool)
      requires Valid() && nColumn <= nKeyCol + 1
      modifies this
      ensures Valid() && nKeyCol == old(nKeyCol) && Keys() == old(Keys())
      ensures ok ==> Columns() == old(Keys()) + Missing(old(Keys()), pk, |pk|)
    {
      ghost var keys := Keys();
      var n := CountMissing(pk);
      if n == 0 {
        nColumn := nKeyCol;
        return true;
      }
      ok := Resize(nKeyCol + n, malloc);
      if !ok {
        return;
      }
      assert terms[..nKeyCol] == terms[..old(nColumn)][..nKeyCol] == keys;
      FillMissing(pk);
    }

    method FillMissing(pk: seq<Term>)
      requires Valid() && nColumn == nKeyCol + |Missing(Keys(), pk, |pk|)|
      modifies this`terms
      ensures Valid() && Columns() == old(Keys()) + Missing(old(Keys()), pk, |pk|)
    {
      hide SameTerm;
      ghost var keys := Keys();
      var j := nKeyCol;
      MissingGrows(keys, pk, 0, |pk|);
      for i := 0 to |pk|
        invariant |terms| == |old(terms)| && terms[..nKeyCol] == keys
        invariant j == nKeyCol + |Missing(keys, pk, i)| <= nColumn && terms[..j] == keys + Missing(keys, pk, i)
      {
        MissingGrows(keys, pk, i + 1, |pk|);
        var dup := IsDupColumn(terms, nKeyCol, pk[i]);
        if !dup {
          terms := terms[j := pk[i]];
          j := j + 1;
          assert terms[..j] == terms[..j - 1] + [pk[i]];
          assert terms[..nKeyCol] == terms[..j - 1][..nKeyCol];
        }
      }
    }

    /** Add all other columns that are stored, so that the primary key covers the table. */
    method AddTableColumns(cols: seq<Column>, malloc: bool) returns (ok: bool)
      requires Valid() && nColumn == nKeyCol
      modifies this
      ensures Valid() && nKeyCol == old(nKeyCol) && Keys() == old(Keys())
      ensures ok ==> Columns() == old(Keys()) + Uncovered(old(Keys()), cols, |cols|)
    {
      var nExtra := CountUncovered(cols);
      ok := Resize(nKeyCol + nExtra, malloc);
      if ok {
        FillColumns(cols);
        assert terms[..nKeyCol] == Columns()[..nKeyCol];
      }
    }

    method CountUncovered(cols: seq<Column>) returns (n: nat)
      requires Valid()
      ensures n == |Uncovered(Keys(), cols, |cols|)|
    {
      n := 0;
      for i := 0 to |cols|
        invariant n == |Uncovered(Keys(), cols, i)|
      {
        var has := HasColumn(terms, nKeyCol, i);
        if !has && !cols[i].isVirtual {
          n := n + 1;
        }
      }
    }

    method FillColumns(cols: seq<Column>)
      requires Valid() && nColumn == nKeyCol + |Uncovered(Keys(), cols, |cols|)|
      modifies this`terms
      ensures Valid() && Columns() == old(Keys()) + Uncovered(old(Keys()), cols, |cols|)
    {
      ghost var pk := Keys();
      var j := nKeyCol;
      UncoveredGrows(pk, cols, 0, |cols|);
      for i := 0 to |cols|
        invariant |terms| == |old(terms)|
        invariant j == nKeyCol + |Uncovered(pk, cols, i)| <= nColumn && terms[..j] == pk + Uncovered(pk, cols, i)
      {
        UncoveredGrows(pk, cols, i + 1, |cols|);
        OnlyInKey(pk, cols, i);
        var has := HasColumn(terms, j, i);
        if !has && !cols[i].isVirtual {
          terms := terms[j := Term(i, cols[i].coll)];
          j := j + 1;
          assert terms[..j] == terms[..j - 1] + [Term(i, cols[i].coll)];
        }
      }
    }
  }

  lemma {:induction false} MissingGrows(keys: seq<Term>, pk: seq<Term>, i: nat, j: nat)
    requires i <= j <= |pk|
    ensures |Missing(keys, pk, i)| <= |Missing(keys, pk, j)|
    decreases j - i
  {
    if i < j {
      MissingGrows(keys, pk, i, j - 1);
    }
  }

  lemma {:induction false} UncoveredGrows(pk: seq<Term>, cols: seq<Column>, i: nat, j: nat)
    requires i <= j <= |cols|
    ensures |Uncovered(pk, cols, i)| <= |Uncovered(pk, cols, j)|
    decreases j - i
  {
    if i < j {
      UncoveredGrows(pk, cols, i, j - 1);
    }
  }

  /** The columns added so far do not make a later one look present. */
  lemma OnlyInKey(pk: seq<Term>, cols: seq<Column>, i: nat)
    requires i < |cols|
    ensures HasCol(pk + Uncovered(pk, cols, i), i) <==> HasCol(pk, i)
  {
    UncoveredColumns(pk, cols, i);
    var u := Uncovered(pk, cols, i);
    if HasCol(pk, i) {
      var k :| 0 <= k < |pk| && pk[k].col == i;
      assert (pk + u)[k] == pk[k];
    }
    if HasCol(pk + u, i) {
      var k :| 0 <= k < |pk + u| && (pk + u)[k].col == i;
      assert k >= |pk| ==> u[k - |pk|] in u;
    }
  }

  /** What the conversion is for: every index identifies its row by the primary key. */
  ghost predicate HasAllTerms(ts: seq<Term>, pk: seq<Term>) {
    forall k :: 0 <= k < |pk| ==> HasTerm(ts, pk[k])
  }

  /** An index of a rowid table: its keys, and at most the rowid after them. */
  ghost predicate Plain(x: Index, keys: seq<Term>)
    reads x
  {
    x.Valid() && x.nColumn <= x.nKeyCol + 1 && x.Keys() == keys
  }

  /** The same index of the WITHOUT ROWID table with primary key pk. */
  ghost predicate Converted(x: Index, keys: seq<Term>, pk: seq<Term>)
    reads x
  {
    && x.Valid() && x.Keys() == keys
    && x.Columns() == keys + Missing(keys, pk, |pk|)
    && HasAllTerms(x.Columns(), pk)
  }

  method ConvertIndex(x: Index, pk: seq<Term>, malloc: bool, ghost keys: seq<Term>) returns (ok: bool)
    requires Plain(x, keys) && NoRepeats(pk)
    modifies x
    ensures ok ==> Converted(x, keys, pk)
  {
    MissingTerms(keys, pk, |pk|);
    ok := x.AppendKey(pk, malloc);
  }

  ghost predicate AllPlain(indexes: seq<Index>, keys: seq<seq<Term>>, n: nat)
    reads indexes
  {
    |keys| == |indexes| && forall k {:trigger indexes[k]} :: n <= k < |indexes| ==> Plain(indexes[k], keys[k])
  }

  ghost predicate AllConverted(indexes: seq<Index>, keys: seq<seq<Term>>, pk: seq<Term>, n: nat)
    requires n <= |indexes| == |keys|
    reads indexes
  {
    forall k {:trigger indexes[k]} :: 0 <= k < n ==> Converted(indexes[k], keys[k], pk)
  }

  /** The primary key index and the other indexes of the table, whose keys are
      `keys`.  `malloc` says which resize allocations succeed: one for each index,
      then one for the primary key. */
  method Convert(pk: Index, indexes: seq<Index>, cols: seq<Column>, malloc: seq<bool>, ghost keys: seq<seq<Term>>)
    returns (ok: bool)
    requires pk.Valid() && pk.nKeyCol > 0 && AllPlain(indexes, keys, 0) && |malloc| == |indexes| + 1
    requires pk !in indexes && forall i, j :: 0 <= i < j < |indexes| ==> indexes[i] != indexes[j]
    modifies pk, indexes
    ensures pk.Valid() && pk.Keys() == Deduped(old(pk.Keys()), old(pk.nKeyCol))
    ensures NoRepeats(pk.Keys()) && HasAllTerms(pk.Keys(), old(pk.Keys()))
    ensures ok ==> pk.Columns() == pk.Keys() + Uncovered(pk.Keys(), cols, |cols|)
    ensures ok ==> forall c :: 0 <= c < |cols| && !cols[c].isVirtual ==> HasCol(pk.Columns(), c)
    ensures ok ==> AllConverted(indexes, keys, pk.Keys(), |indexes|)
  {
    ghost var given := pk.Keys();
    DedupedTerms(given, |given|);
    pk.RemoveRedundant();
    var key := pk.terms[..pk.nKeyCol];
    ok := ConvertIndexes(pk, indexes, key, malloc, keys);
    if ok {
      UncoveredColumns(key, cols, |cols|);
      ok := pk.AddTableColumns(cols, malloc[|indexes|]);
    }
  }

  method ConvertIndexes(pk: Index, indexes: seq<Index>, key: seq<Term>, malloc: seq<bool>, ghost keys: seq<seq<Term>>)
    returns (ok: bool)
    requires NoRepeats(key) && AllPlain(indexes, keys, 0) && |malloc| >= |indexes|
    requires pk !in indexes && forall i, j :: 0 <= i < j < |indexes| ==> indexes[i] != indexes[j]
    modifies indexes
    ensures ok ==> AllConverted(indexes, keys, key, |indexes|)
  {
    hide Converted;
    for n := 0 to |indexes|
      invariant AllPlain(indexes, keys, n) && AllConverted(indexes, keys, key, n)
    {
      ok := ConvertIndex(indexes[n], key, malloc[n], keys[n]);
      if !ok {
        return;
      }
    }
    ok := true;
  }
}
