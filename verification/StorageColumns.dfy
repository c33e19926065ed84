/** Table columns and storage columns, where virtual columns come last. */
module StorageColumns {

  /** The columns of a table, by whether they are virtual. */
  class Table {
    const isVirtual: seq<bool>
    const nNVCol: nat
    const hasVirtual: bool

    constructor (isVirtual: seq<bool>)
      ensures this.isVirtual == isVirtual && Valid()
    {
      this.isVirtual := isVirtual;
      nNVCol := Normal(isVirtual, |isVirtual|);
      hasVirtual := exists i :: 0 <= i < |isVirtual| && isVirtual[i];
    }

    ghost predicate Valid() {
      nNVCol == Normal(isVirtual, |isVirtual|) && (hasVirtual <==> exists i :: 0 <= i < |isVirtual| && isVirtual[i])
    }

    method TableColumnToStorage(iCol: int) returns (r: int)
      requires Valid() && iCol < |isVirtual|
      ensures r == if iCol < 0 then iCol else ToStorage(isVirtual, iCol)
    {
      if !hasVirtual || iCol < 0 {
        if iCol >= 0 {
          NoneVirtual(isVirtual, iCol);
        }
        return iCol;
      }
      var n := 0;
      for i := 0 to iCol
        invariant n == Normal(isVirtual, i)
      {
        if !isVirtual[i] {
          n := n + 1;
        }
      }
      r := if isVirtual[iCol] then nNVCol + iCol - n else n;
    }

    /** The loop's bound moves up by one for every virtual column passed. */
    method StorageColumnToTable(iCol: int) returns (r: int)
      requires Valid() && iCol < nNVCol
      ensures iCol < 0 ==> r == iCol
      ensures iCol >= 0 ==> 0 <= r < |isVirtual| && !isVirtual[r] && ToStorage(isVirtual, r) == iCol
    {
      r := iCol;
      if hasVirtual {
        var i := 0;
        while i <= r
          invariant 0 <= i && (iCol < 0 ==> r == iCol && i == 0)
          invariant iCol >= 0 ==> i <= r + 1 && i <= |isVirtual| && r == iCol + i - Normal(isVirtual, i)
          invariant iCol >= 0 && i == r + 1 ==> i > 0 && !isVirtual[i - 1]
          decreases |isVirtual| - i
        {
          if isVirtual[i] {
            r := r + 1;
          }
          i := i + 1;
        }
      } else if iCol >= 0 {
        NormalIsAll(isVirtual, |isVirtual|);
        NoneVirtual(isVirtual, iCol);
      }
    }
  }

  /** Number of columns before i that are not virtual. */
  function Normal(isVirtual: seq<bool>, i: nat): nat
    requires i <= |isVirtual|
  {
    if i == 0 then 0 else Normal(isVirtual, i - 1) + if isVirtual[i - 1] then 0 else 1
  }

  /** The storage column: normal columns first, virtual ones after them, both in order. */
  function ToStorage(isVirtual: seq<bool>, i: nat): int
    requires i < |isVirtual|
  {
    if isVirtual[i] then Normal(isVirtual, |isVirtual|) + i - Normal(isVirtual, i) else Normal(isVirtual, i)
  }

  lemma {:induction false} NormalIsAll(isVirtual: seq<bool>, i: nat)
    requires i <= |isVirtual| && forall k :: 0 <= k < |isVirtual| ==> !isVirtual[k]
    ensures Normal(isVirtual, i) == i
  {
    if i > 0 {
      NormalIsAll(isVirtual, i - 1);
    }
  }

  lemma NoneVirtual(isVirtual: seq<bool>, i: nat)
    requires i < |isVirtual| && forall k :: 0 <= k < |isVirtual| ==> !isVirtual[k]
    ensures ToStorage(isVirtual, i) == i
  {
    NormalIsAll(isVirtual, i);
  }

  /** The count grows by at most one for each column. */
  lemma {:induction false} NormalGrows(isVirtual: seq<bool>, i: nat, j: nat)
    requires i <= j <= |isVirtual|
    ensures Normal(isVirtual, i) <= Normal(isVirtual, j) <= Normal(isVirtual, i) + j - i
    decreases j - i
  {
    if i < j {
      NormalGrows(isVirtual, i, j - 1);
    }
  }

  lemma StorageInRange(isVirtual: seq<bool>, i: nat)
    requires i < |isVirtual|
    ensures 0 <= ToStorage(isVirtual, i) < |isVirtual|
    ensures isVirtual[i] <==> ToStorage(isVirtual, i) >= Normal(isVirtual, |isVirtual|)
  {
    NormalGrows(isVirtual, 0, i);
    NormalGrows(isVirtual, i + 1, |isVirtual|);
  }

  /** Within each kind the order of the columns is kept. */
  lemma OrderKept(isVirtual: seq<bool>, i: nat, j: nat)
    requires i < j < |isVirtual| && isVirtual[i] == isVirtual[j]
    ensures ToStorage(isVirtual, i) < ToStorage(isVirtual, j)
  {
    NormalGrows(isVirtual, i + 1, j);
  }

  /** No two columns share a storage column: with StorageInRange, a permutation. */
  lemma Injective(isVirtual: seq<bool>, i: nat, j: nat)
    requires i < |isVirtual| && j < |isVirtual| && ToStorage(isVirtual, i) == ToStorage(isVirtual, j)
    ensures i == j
  {
    StorageInRange(isVirtual, i);
    StorageInRange(isVirtual, j);
    if i < j {
      OrderKept(isVirtual, i, j);
    } else if j < i {
      OrderKept(isVirtual, j, i);
    }
  }

  /** Converting a stored column to its storage number and back changes nothing. */
  method ThereAndBack(t: Table, iCol: nat) returns (r: int)
    requires t.Valid() && iCol < |t.isVirtual| && !t.isVirtual[iCol]
    ensures r == iCol
  {
    StorageInRange(t.isVirtual, iCol);
    var s := t.TableColumnToStorage(iCol);
    r := t.StorageColumnToTable(s);
    Injective(t.isVirtual, r, iCol);
  }
}
