/** The online backup: copying steps interleaved with changes to the source. */
module Backups {
  import opened Arithmetic
  import opened BackupCopy

  // ------------------------------------------------------------ what copying keeps

  /** Copying one more page. */
  lemma CopiedNext(g: Geometry, src: seq<seq<Byte>>, d: File, e: File, k: nat, m: nat)
    requires g.Valid() && Pages(src, g.ps) && k < |src| && Copied(g, src, d, k)
    requires UnchangedOutside(d, e, k * g.ps, (k + 1) * g.ps)
    requires PageCopied(g, e, k * g.ps, src[k], (k + 1) * g.ps, false, m)
    ensures Copied(g, src, e, k + 1)
    ensures k == 0 ==> FieldIs(e, 28, m)
    ensures k > 0 ==> SameField(d, e, 28)
  {
    hide FieldIs;
    if k > 0 {
      MulMono(1, k, g.ps);
    }
    forall i, t | 0 <= i < k + 1 && i < |src| && 0 <= t < g.ps && !Exempt(g, i, t)
      ensures View(e, i * g.ps + t) == src[i][t]
    {
      if i < k {
        PagesAreDisjoint(i, k, t, g.ps);
      } else {
        assert (k + 1) * g.ps == k * g.ps + g.ps;
      }
    }
  }

  lemma FirstPageCopied(g: Geometry)
    requires g.Valid()
    ensures g.SrcPendingPage() > 1
  {
    DivMod(g.pending, g.ps);
  }

  /** The source's pending-byte page is never copied. */
  lemma CopiedPending(g: Geometry, src: seq<seq<Byte>>, d: File, k: nat)
    requires g.Valid() && Pages(src, g.ps) && Copied(g, src, d, k) && k + 1 == g.SrcPendingPage()
    ensures Copied(g, src, d, k + 1)
  {
    DivMod(g.pending, g.ps);
  }

  /** A write to the source that has been forwarded. */
  lemma CopiedForwarded(g: Geometry, src: seq<seq<Byte>>, d: File, e: File, k: nat, data: seq<Byte>, n: nat, m: nat)
    requires g.Valid() && Pages(src, g.ps) && k <= |src| && |data| == g.ps && k < n && Copied(g, src, d, n)
    requires UnchangedOutside(d, e, k * g.ps, (k + 1) * g.ps)
    requires PageCopied(g, e, k * g.ps, data, (k + 1) * g.ps, true, m)
    ensures Pages(Written(src, k, data), g.ps) && Copied(g, Written(src, k, data), e, n)
    ensures if k == 0 then CountFrom(Written(src, k, data), e) else SameField(d, e, 28)
  {
    hide CountIs;
    var s := Written(src, k, data);
    CountForwarded(g, d, e, k, data, m);
    forall i, t | 0 <= i < n && i < |s| && 0 <= t < g.ps && !Exempt(g, i, t)
      ensures View(e, i * g.ps + t) == s[i][t]
    {
      if i != k {
        assert s[i] == src[i];
        PagesAreDisjoint(i, k, t, g.ps);
      } else {
        assert (k + 1) * g.ps == k * g.ps + g.ps;
        assert data[t] == s[i][t];
      }
    }
  }

  /** The page count in the destination is that in page 1 of the source. */
  ghost predicate CountFrom(src: seq<seq<Byte>>, dest: File) {
    |src| > 0 && |src[0]| >= 512 && forall off {:trigger src[0][off]} :: 28 <= off < 32 ==>
        View(dest, off) == src[0][off]
  }

  lemma CountForwarded(g: Geometry, d: File, e: File, k: nat, data: seq<Byte>, m: nat)
    requires g.Valid() && |data| == g.ps && UnchangedOutside(d, e, k * g.ps, (k + 1) * g.ps)
    requires PageCopied(g, e, k * g.ps, data, (k + 1) * g.ps, true, m)
    ensures if k == 0 then forall off {:trigger data[off]} :: 28 <= off < 32 ==> View(e, off) == data[off]
            else SameField(d, e, 28)
  {
    if k > 0 {
      MulMono(1, k, g.ps);
    }
  }

  /** The page count the destination has been given: that of the source as it was
      when page 1 was copied, or what a forwarded write has put into page 1 since. */
  ghost predicate CountIs(src: seq<seq<Byte>>, dest: File, began: seq<seq<Byte>>, forwarded: bool) {
    if forwarded then CountFrom(src, dest) else FieldIs(dest, 28, |began|)
  }

  lemma CountAtOnce(src: seq<seq<Byte>>, d: File)
    ensures CountIs(src, d, src, false) <==> FieldIs(d, 28, |src|)
  {
  }

  lemma CountKept(src: seq<seq<Byte>>, t: seq<seq<Byte>>, d: File, e: File, began: seq<seq<Byte>>, forwarded: bool)
    requires CountIs(src, d, began, forwarded) && SameField(d, e, 28)
    requires |src| > 0 && |t| > 0 && t[0] == src[0]
    ensures CountIs(t, e, began, forwarded)
  {
    if forwarded {
      forall off | 28 <= off < 32
        ensures View(e, off) == t[0][off]
      {
        assert View(d, off) == src[0][off];
      }
    } else {
      FieldKept(d, e, 28, |began|);
    }
  }

  /** The source with page k+1 replaced or appended. */
  function Written(src: seq<seq<Byte>>, k: nat, data: seq<Byte>): seq<seq<Byte>>
    requires k <= |src|
  {
    if k < |src| then src[k := data] else src + [data]
  }

  lemma CopiedPrefix(g: Geometry, src: seq<seq<Byte>>, n: nat, d: File, k: nat)
    requires Pages(src, g.ps) && n <= |src| && Copied(g, src, d, k)
    ensures Pages(src[..n], g.ps) && Copied(g, src[..n], d, k)
  {
    var s := src[..n];
    forall i, t | 0 <= i < k && i < |s| && 0 <= t < g.ps && !Exempt(g, i, t)
      ensures View(d, i * g.ps + t) == s[i][t]
    {
      assert s[i] == src[i];
    }
  }

  lemma WrittenPages(src: seq<seq<Byte>>, k: nat, data: seq<Byte>, ps: nat)
    requires Pages(src, ps) && k <= |src| && |data| == ps
    ensures Pages(Written(src, k, data), ps)
  {
  }

  /** A write to a page that is yet to be copied, or to the pending-byte page. */
  lemma CopiedIgnoring(g: Geometry, src: seq<seq<Byte>>, d: File, k: nat, data: seq<Byte>, n: nat)
    requires g.Valid() && Pages(src, g.ps) && k <= |src| && |data| == g.ps && Copied(g, src, d, n)
    requires n <= k || k * g.ps == g.pending
    ensures Pages(Written(src, k, data), g.ps) && Copied(g, Written(src, k, data), d, n)
  {
    var s := Written(src, k, data);
    forall i, t | 0 <= i < n && i < |s| && 0 <= t < g.ps && !Exempt(g, i, t)
      ensures View(d, i * g.ps + t) == s[i][t]
    {
      assert i != k && s[i] == src[i];
    }
  }

  // ------------------------------------------------------------------ finishing

  /** The number of destination pages the finished file needs. */
  function DestTruncate(g: Geometry, nSrcPage: nat): nat
    requires g.ps > 0 && g.pd > 0 && (g.ps < g.pd ==> g.pd / g.ps > 0)
  {
    if g.ps < g.pd then
      var ratio := g.pd / g.ps;
      var n := (nSrcPage + ratio - 1) / ratio;
      if n == g.DestPendingPage() then n - 1 else n
    else
      nSrcPage * (g.ps / g.pd)
  }

  /** The bound asserted before the destination file is written directly. */
  ghost predicate TruncateBound(g: Geometry, n: nat, iSize: nat)
    requires g.pd > 0
  {
    n * g.pd >= iSize || (n == g.DestPendingPage() - 1 && g.pending <= iSize <= g.pending + g.pd)
  }

  lemma DestTruncateSmaller(g: Geometry, nSrcPage: nat)
    requires g.Valid() && nSrcPage > 0 && g.ps < g.pd
    ensures g.pd / g.ps > 0
    ensures DestTruncate(g, nSrcPage) > 0 && TruncateBound(g, DestTruncate(g, nSrcPage), nSrcPage * g.ps)
  {
    var ratio := g.pd / g.ps;
    DivMod(g.pd, g.ps);
    var n := (nSrcPage + ratio - 1) / ratio;
    CeilBounds(nSrcPage, ratio, n);
    Scaled(nSrcPage, n, ratio, g.ps);
    assert ratio * g.ps == g.pd by {
      CopySizeDivides(g);
    }
    PendingRounding(n, g.pd, g.pending, nSrcPage * g.ps);
  }

  /** Rounding up to the pending-byte page means the file ends inside it. */
  lemma PendingRounding(n: nat, pd: nat, pending: nat, iSize: nat)
    requires pd > 0 && pending % pd == 0 && pending >= pd && n > 0
    requires n * pd >= iSize >= (n - 1) * pd
    ensures n == pending / pd + 1 ==> n > 1 && pending <= iSize <= pending + pd
  {
    DivMod(pending, pd);
    assert (pending / pd + 1) * pd == pending / pd * pd + pd;
  }

  lemma DestTruncateLarger(g: Geometry, nSrcPage: nat)
    requires g.Valid() && nSrcPage > 0 && g.ps >= g.pd
    ensures DestTruncate(g, nSrcPage) > 0 && DestTruncate(g, nSrcPage) * g.pd == nSrcPage * g.ps
  {
    CopySizeDivides(g);
    var r := g.ps / g.pd;
    DivMod(g.ps, g.pd);
    Associate(nSrcPage, r, g.pd);
    assert r > 0;
    MulMono(1, r, nSrcPage);
  }

  lemma Associate(a: nat, b: nat, c: nat)
    ensures a * b * c == a * (b * c)
  {
  }

  lemma Scaled(x: nat, n: nat, r: nat, ps: nat)
    requires n > 0 && n * r >= x > (n - 1) * r
    ensures n * (r * ps) >= x * ps && x * ps >= (n - 1) * (r * ps)
  {
    Associate(n, r, ps);
    Associate(n - 1, r, ps);
    MulMono(x, n * r, ps);
    MulMono((n - 1) * r, x, ps);
  }

  lemma CeilBounds(x: nat, r: nat, n: nat)
    requires r > 0 && x > 0 && n == (x + r - 1) / r
    ensures n > 0 && n * r >= x > (n - 1) * r
  {
    DivMod(x + r - 1, r);
    assert (n - 1) * r == n * r - r;
  }

  /** Source pages that fall into the destination's pending-byte page, other than
      the source's own pending-byte page, up to page m. */
  ghost predicate ExtraCopied(g: Geometry, src: seq<seq<Byte>>, dest: File, m: nat)
    requires Pages(src, g.ps)
  {
    forall k, t {:trigger src[k][t]} ::
      (0 <= k < m && k < |src| && 0 <= t < g.ps && g.pending < k * g.ps < g.pending + g.pd) ==>
        View(dest, k * g.ps + t) == src[k][t]
  }

  lemma ExtraNext(g: Geometry, src: seq<seq<Byte>>, d: File, m: nat)
    requires Pages(src, g.ps) && m < |src| && ExtraCopied(g, src, d, m)
    ensures ExtraCopied(g, src, Write(d, m * g.ps, src[m]), m + 1)
  {
    var e := Write(d, m * g.ps, src[m]);
    forall k, t | 0 <= k < m + 1 && k < |src| && 0 <= t < g.ps && g.pending < k * g.ps < g.pending + g.pd
      ensures View(e, k * g.ps + t) == src[k][t]
    {
      if k < m {
        PagesAreDisjoint(k, m, t, g.ps);
        assert (m + 1) * g.ps == m * g.ps + g.ps;
      }
    }
  }

  /** Write the extra pages directly into the file. */
  method WriteExtraPages(g: Geometry, src: seq<seq<Byte>>, d: File) returns (rc: Rc, dest: File)
    requires g.Valid() && g.ps < g.pd && Pages(src, g.ps)
    ensures rc == Ok || rc == Error
    ensures UnchangedOutside(d, dest, g.pending, g.pending + g.pd)
    ensures rc == Ok ==> ExtraCopied(g, src, dest, |src|)
  {
    var iSize := |src| * g.ps;
    var iEnd := if g.pending + g.pd < iSize then g.pending + g.pd else iSize;
    rc, dest := Ok, d;
    var iOff := g.pending + g.ps;
    ghost var m := g.pending / g.ps + 1;
    FirstExtra(g, src, d, m);
    while rc == Ok && iOff < iEnd
      invariant rc == Ok || rc == Error
      invariant iOff == m * g.ps && iOff >= g.pending + g.ps
      invariant UnchangedOutside(d, dest, g.pending, g.pending + g.pd)
      invariant rc == Ok ==> ExtraCopied(g, src, dest, m)
      decreases iEnd - iOff
    {
      ExtraPageInRange(g, |src|, m);
      rc, dest := WriteExtraPage(g, src, dest, iOff, m);
      assert (m + 1) * g.ps == m * g.ps + g.ps;
      iOff := iOff + g.ps;
      m := m + 1;
    }
    if rc == Ok {
      LastExtra(g, src, dest, m);
    }
  }

  method WriteExtraPage(g: Geometry, src: seq<seq<Byte>>, d: File, iOff: nat, ghost m: nat) returns (rc: Rc, dest: File)
    requires g.ps > 0 && Pages(src, g.ps) && m < |src| && iOff == m * g.ps && iOff / g.ps == m
    requires ExtraCopied(g, src, d, m)
    ensures rc == Ok || rc == Error
    ensures UnchangedOutside(d, dest, iOff, iOff + g.ps)
    ensures rc == Ok ==> ExtraCopied(g, src, dest, m + 1)
  {
    dest := d;
    rc := PageOp();
    if rc == Ok {
      ExtraNext(g, src, dest, m);
      dest := Write(dest, iOff, src[iOff / g.ps]);
    }
  }

  lemma FirstExtra(g: Geometry, src: seq<seq<Byte>>, d: File, m: nat)
    requires g.Valid() && Pages(src, g.ps) && m == g.pending / g.ps + 1
    ensures m * g.ps == g.pending + g.ps && ExtraCopied(g, src, d, m)
  {
    DivMod(g.pending, g.ps);
    forall k: nat | k < m
      ensures k * g.ps <= g.pending
    {
      MulMono(k, m - 1, g.ps);
    }
  }

  lemma ExtraPageInRange(g: Geometry, n: nat, m: nat)
    requires g.Valid() && g.ps < g.pd && g.pending < m * g.ps < g.pending + g.pd && m * g.ps < n * g.ps
    ensures m < n && (m * g.ps) / g.ps == m && m * g.ps + g.ps <= g.pending + g.pd
  {
    StepBelow(m, n, g.ps);
    QuotientUnique(m * g.ps, g.ps, m, 0);
    SmallerDivides(g.ps, g.pd);
    var p := PagesUpTo(g.pending, g.pd, g.ps);
    StepBelow(m, p, g.ps);
  }

  lemma PagesUpTo(a: nat, b: nat, x: nat) returns (p: nat)
    requires x > 0 && a % x == 0 && b % x == 0
    ensures a + b == p * x
  {
    MultipleStep(a, b, x);
    p := (a + b) / x;
    DivMod(a + b, x);
  }

  lemma LastExtra(g: Geometry, src: seq<seq<Byte>>, dest: File, m: nat)
    requires g.Valid() && Pages(src, g.ps) && ExtraCopied(g, src, dest, m)
    requires m * g.ps >= g.pending + g.pd || m * g.ps >= |src| * g.ps
    ensures ExtraCopied(g, src, dest, |src|)
  {
    forall k: nat | m <= k < |src|
      ensures !(g.pending < k * g.ps < g.pending + g.pd)
    {
      NotExtra(m, k, |src|, g.ps, g.pending + g.pd);
    }
  }

  lemma NotExtra(m: nat, k: nat, n: nat, ps: nat, end: nat)
    requires m <= k < n && ps > 0 && (m * ps >= end || m * ps >= n * ps)
    ensures k * ps >= end
  {
    MulMono(m, k, ps);
    StepAbove(k, n, ps);
  }

  /** Only header fields differ. */
  ghost predicate HeaderOnly(d: File, e: File, wal: bool) {
    forall off: nat {:trigger View(e, off)} :: !Rewritten(off, wal) ==> View(e, off) == View(d, off)
  }

  /** The fields a finished destination has been given. */
  ghost predicate HeaderIs(dest: File, iDestSchema: nat, wal: bool, counter: nat, version: nat) {
    && FieldIs(dest, 40, iDestSchema + 1) && FieldIs(dest, 24, counter)
    && FieldIs(dest, 92, counter) && FieldIs(dest, 96, version)
    && (wal ==> View(dest, 18) == View(dest, 19) == 2)
  }

  /** The schema cookie, the file format and the change counters, as written when
      the destination is committed. */
  method UpdateHeader(d: File, iDestSchema: nat, wal: bool, counter: nat, version: nat) returns (rc: Rc, dest: File)
    ensures rc == Ok || rc == Error
    ensures HeaderOnly(d, dest, wal)
    ensures rc == Ok ==> HeaderIs(dest, iDestSchema, wal, counter, version)
  {
    hide FieldIs;
    rc, dest := UpdateMeta(d, iDestSchema, wal);
    if rc == Ok {
      ghost var e := dest;
      dest := Write(dest, 24, Big4(counter));
      FieldWritten(e, 24, counter);
      dest := CommitVersion(dest, counter, version);
      FieldKept(e, dest, 40, iDestSchema + 1);
      FieldKept(Write(e, 24, Big4(counter)), dest, 24, counter);
    }
  }

  /** sqlite3BtreeUpdateMeta, and sqlite3BtreeSetVersion in WAL mode. */
  method UpdateMeta(d: File, iDestSchema: nat, wal: bool) returns (rc: Rc, dest: File)
    ensures rc == Ok || rc == Error
    ensures forall off: nat {:trigger View(dest, off)} :: !(40 <= off < 44) && !(wal && 18 <= off < 20) ==>
              View(dest, off) == View(d, off)
    ensures rc == Ok ==> FieldIs(dest, 40, iDestSchema + 1) && (wal ==> View(dest, 18) == View(dest, 19) == 2)
  {
    hide FieldIs;
    dest := d;
    rc := PageOp();
    if rc == Ok {
      dest := Write(dest, 40, Big4(iDestSchema + 1));
      FieldWritten(d, 40, iDestSchema + 1);
      if wal {
        rc := PageOp();
        if rc == Ok {
          ghost var e := dest;
          dest := Write(dest, 18, [2, 2]);
          FieldKept(e, dest, 40, iDestSchema + 1);
        }
      }
    }
  }

  /** The counter again, and the number of the library that wrote it. */
  method CommitVersion(d: File, counter: nat, version: nat) returns (dest: File)
    ensures UnchangedOutside(d, dest, 92, 100)
    ensures FieldIs(dest, 92, counter) && FieldIs(dest, 96, version)
  {
    hide FieldIs;
    dest := Write(d, 92, Big4(counter) + Big4(version));
    FieldWritten(d, 92, counter);
    FieldWritten(d, 96, version);
    FieldKept(Write(d, 92, Big4(counter)), dest, 92, counter);
    FieldKept(Write(d, 96, Big4(version)), dest, 96, version);
  }

  /** A byte of a source page other than the pending-byte page that falls into the
      destination's pending-byte page is one of the extra bytes. */
  lemma ExtraByte(g: Geometry, k: nat, t: nat)
    requires g.Valid() && t < g.ps && k * g.ps != g.pending && g.pending <= k * g.ps + t < g.pending + g.pd
    ensures g.ps < g.pd && g.pending < k * g.ps < g.pending + g.pd
  {
    DivMod(g.pending, g.ps);
    PagesApart(k, g.pending / g.ps, g.ps);
  }

  lemma PagesApart(k: nat, p: nat, ps: nat)
    requires k * ps != p * ps
    ensures k * ps + ps <= p * ps || p * ps + ps <= k * ps
  {
    if k < p {
      MulMono(k + 1, p, ps);
    } else if k > p {
      MulMono(p + 1, k, ps);
    }
  }

  /** All pages copied, header rewritten, extra pages written, file truncated:
      the destination is a copy. */
  lemma FinishedIsCopy(g: Geometry, src: seq<seq<Byte>>, copied: File, header: File, extra: File, wal: bool)
    requires g.Valid() && Pages(src, g.ps) && Copied(g, src, copied, |src|) && HeaderOnly(copied, header, wal)
    requires UnchangedOutside(header, extra, g.pending, g.pending + g.pd)
    requires if g.ps < g.pd then ExtraCopied(g, src, extra, |src|) else extra == header
    ensures IsCopy(g, src, Truncate(extra, |src| * g.ps), wal)
  {
    hide HeaderOnly;
    hide Copied;
    hide ExtraCopied;
    hide UnchangedOutside;
    var dest := Truncate(extra, |src| * g.ps);
    forall k, t | 0 <= k < |src| && 0 <= t < g.ps && k * g.ps != g.pending && !Rewritten(k * g.ps + t, wal)
      && !CountField(k * g.ps + t)
      ensures View(dest, k * g.ps + t) == src[k][t]
    {
      StepAbove(k, |src|, g.ps);
      assert View(dest, k * g.ps + t) == View(extra, k * g.ps + t);
      ByteCopied(g, src, copied, header, extra, wal, k, t, k * g.ps + t);
    }
  }

  lemma ByteCopied(g: Geometry, src: seq<seq<Byte>>, copied: File, header: File, extra: File, wal: bool, k: nat, t: nat,
                   off: nat)
    requires g.Valid() && Pages(src, g.ps) && Copied(g, src, copied, |src|) && HeaderOnly(copied, header, wal)
    requires UnchangedOutside(header, extra, g.pending, g.pending + g.pd)
    requires if g.ps < g.pd then ExtraCopied(g, src, extra, |src|) else extra == header
    requires k < |src| && t < g.ps && off == k * g.ps + t && k * g.ps != g.pending
    requires !Rewritten(off, wal) && !CountField(off)
    ensures View(extra, off) == src[k][t]
  {
    if g.pending <= off < g.pending + g.pd {
      ExtraByte(g, k, t);
    } else {
      assert !Exempt(g, k, t);
      assert View(copied, off) == src[k][t];
    }
  }

  /** Writing the extra pages and truncating leaves page 1 alone. */
  lemma HeaderSurvives(header: File, extra: File, lo: nat, hi: nat, size: nat, off: nat)
    requires UnchangedOutside(header, extra, lo, hi) && lo >= 512 && size >= 512 && off < 512
    ensures View(Truncate(extra, size), off) == View(header, off)
  {
    assert View(extra, off) == View(header, off);
  }

  lemma HeaderKept(d: File, e: File, iDestSchema: nat, wal: bool, counter: nat, version: nat)
    requires HeaderIs(d, iDestSchema, wal, counter, version)
    requires forall off: nat {:trigger View(e, off)} :: off < 512 ==> View(e, off) == View(d, off)
    ensures HeaderIs(e, iDestSchema, wal, counter, version)
  {
    FieldKept(d, e, 40, iDestSchema + 1);
    FieldKept(d, e, 24, counter);
    FieldKept(d, e, 92, counter);
    FieldKept(d, e, 96, version);
  }

  /** The end of a step that has copied the last page. */
  method Finish(g: Geometry, src: seq<seq<Byte>>, d: File, iDestSchema: nat, wal: bool, counter: nat, version: nat)
    returns (rc: Rc, dest: File)
    requires g.Valid() && Pages(src, g.ps) && |src| > 0 && Copied(g, src, d, |src|)
    ensures rc == Done || rc == Error
    ensures rc == Done ==> IsCopy(g, src, dest, wal) && HeaderIs(dest, iDestSchema, wal, counter, version)
    ensures rc == Done ==> SameField(d, dest, 28)
  {
    hide FieldIs;
    rc, dest := UpdateHeader(d, iDestSchema, wal, counter, version);
    if rc != Ok {
      return;
    }
    ghost var header := dest;
    var size := |src| * g.ps;
    if g.ps < g.pd {
      DestTruncateSmaller(g, |src|);
      assert TruncateBound(g, DestTruncate(g, |src|), size);
      rc, dest := WriteExtraPages(g, src, dest);
    } else {
      DestTruncateLarger(g, |src|);
      size := DestTruncate(g, |src|) * g.pd;
    }
    if rc == Ok {
      FinishedIsCopy(g, src, d, header, dest, wal);
      MulMono(1, |src|, g.ps);
      forall off: nat | off < 512
        ensures View(Truncate(dest, size), off) == View(header, off)
      {
        HeaderSurvives(header, dest, g.pending, g.pending + g.pd, size, off);
      }
      HeaderKept(header, Truncate(dest, size), iDestSchema, wal, counter, version);
      dest := Truncate(dest, size);
      rc := PageOp();
    }
    if rc == Ok {
      rc := Done;
    }
  }

  // --------------------------------------------------------------------- the object

  class Backup {
    const g: Geometry
    var src: seq<seq<Byte>>    // the source as its pager sees it
    var dest: File
    var iNext: nat
    var rc: Rc
    var isAttached: bool       // registered for callbacks of the source pager
    var bDestLocked: bool

    /** The source at the moment a step returned SQLITE_DONE. */
    ghost var snapshot: seq<seq<Byte>>

    /** Whether the destination was in WAL mode then. */
    ghost var snapshotWal: bool

    /** The source when page 1 was copied, and whether page 1 was written since. */
    ghost var began: seq<seq<Byte>>
    ghost var forwarded: bool

    ghost predicate Valid()
      reads this
    {
      && g.Valid() && Pages(src, g.ps) && iNext >= 1
      && (!IsFatal(rc) ==> Copied(g, src, dest, iNext - 1))
      && (!IsFatal(rc) && iNext > 1 ==> isAttached && bDestLocked)
      && (!IsFatal(rc) && iNext > 1 && |src| > 0 ==> CountIs(src, dest, began, forwarded))
      && (rc == Done && snapshot != [] ==>
            && Pages(snapshot, g.ps) && IsCopy(g, snapshot, dest, snapshotWal)
            && CountIs(snapshot, dest, began, forwarded))
    }

    constructor (g: Geometry, src: seq<seq<Byte>>, dest: File)
      requires g.Valid() && Pages(src, g.ps)
      ensures Valid() && this.g == g && this.src == src && rc == Ok && began == [] && !forwarded
    {
      this.g, this.src, this.dest := g, src, dest;
      iNext, rc, isAttached, bDestLocked := 1, Ok, false, false;
      snapshot, snapshotWal := [], false;
      began, forwarded := [], false;
    }

    /** What can happen while the locks for a step are being obtained: the source
        is being written, a lock is not available, an error occurs, or the page
        sizes do not match where they must. */
    method Prepare() returns (r: Rc)
      requires Valid()
      modifies `bDestLocked
      ensures Valid() && (r == Ok ==> bDestLocked) && r != Done
    {
      var srcInWrite: bool, source: Rc, destination: Rc, mismatch: bool := *, *, *, *;
      r := if srcInWrite then Busy else Ok;
      if r == Ok && source != Done {
        r := source;
      }
      if r == Ok && !bDestLocked {
        r := if destination == Done then Error else destination;
        if r == Ok {
          bDestLocked := true;
        }
      }
      if r == Ok && mismatch && g.ps != g.pd {
        r := Error;
      }
    }

    /** Copy up to nPage pages (all of them if nPage is negative). */
    method CopyPages(nPage: int) returns (r: Rc)
      requires g.Valid() && Pages(src, g.ps) && iNext >= 1 && bDestLocked && Copied(g, src, dest, iNext - 1)
      modifies `dest, `iNext
      ensures r == Ok || r == Error
      ensures iNext >= old(iNext)
      ensures r == Ok ==> Copied(g, src, dest, iNext - 1)
      ensures r == Ok && iNext <= |src| ==> nPage >= 0 && iNext == old(iNext) + nPage
      ensures r == Ok && iNext > old(iNext) == 1 ==> FieldIs(dest, 28, |src|)
      ensures r == Ok && old(iNext) > 1 ==> SameField(old(dest), dest, 28)
    {
      hide FieldIs;
      FirstPageCopied(g);
      r := Ok;
      var ii := 0;
      while (nPage < 0 || ii < nPage) && iNext <= |src| && r == Ok
        invariant r == Ok || r == Error
        invariant iNext == old(iNext) + ii && 0 <= ii && (nPage < 0 || ii <= nPage)
        invariant r == Ok ==> Copied(g, src, dest, iNext - 1)
        invariant r == Ok && iNext > old(iNext) == 1 ==> FieldIs(dest, 28, |src|)
        invariant r == Ok && old(iNext) > 1 ==> SameField(old(dest), dest, 28)
        decreases |src| + 1 - iNext
      {
        var iSrcPg := iNext;
        if iSrcPg != g.SrcPendingPage() {
          r := PageOp();
          if r == Ok {
            ghost var before := dest;
            r, dest := BackupOnePage(g, dest, iSrcPg, src[iSrcPg - 1], false, |src|);
            if r == Ok {
              CopiedNext(g, src, before, dest, iSrcPg - 1, |src|);
              if old(iNext) == 1 < iSrcPg {
                FieldKept(before, dest, 28, |src|);
              }
            }
          }
        } else {
          CopiedPending(g, src, dest, iSrcPg - 1);
        }
        iNext := iNext + 1;
        ii := ii + 1;
      }
    }

    /** sqlite3_backup_step. */
    method Step(nPage: int, iDestSchema: nat, wal: bool, counter: nat, version: nat) returns (r: Rc)
      requires Valid()
      modifies this
      ensures Valid() && src == old(src) && r == rc
      ensures old(IsFatal(rc)) ==>
                r == old(rc) && dest == old(dest) && iNext == old(iNext) && snapshot == old(snapshot)
                  && snapshotWal == old(snapshotWal) && began == old(began) && forwarded == old(forwarded)
      ensures !old(IsFatal(rc)) ==>
                began == (if old(iNext) == 1 then src else old(began))
                  && forwarded == (old(iNext) > 1 && old(forwarded))
      ensures !old(IsFatal(rc)) && r == Done ==> snapshot == src && snapshotWal == wal
      ensures !old(IsFatal(rc)) && r == Done && |src| > 0 ==>
                IsCopy(g, src, dest, wal) && HeaderIs(dest, iDestSchema, wal, counter, version)
      ensures !old(IsFatal(rc)) && r == Done && |src| > 0 && old(iNext) == 1 ==> FieldIs(dest, 28, |src|)
      ensures r == Ok ==> nPage >= 0 && iNext == old(iNext) + nPage <= |src| && isAttached
    {
      hide FieldIs;
      hide HeaderIs;
      hide CountIs;
      hide Copied;
      hide IsCopy;
      hide Pages;
      hide Geometry.Valid;
      if IsFatal(rc) {
        return rc;
      }
      r := Prepare();
      if iNext == 1 {
        began, forwarded := src, false;
      }
      if r == Ok {
        r := Proceed(nPage, iDestSchema, wal, counter, version);
      }
      rc := r;
    }

    /** The part of a step that runs under the locks. */
    method Proceed(nPage: int, iDestSchema: nat, wal: bool, counter: nat, version: nat) returns (r: Rc)
      requires Valid() && !IsFatal(rc) && bDestLocked && (iNext == 1 ==> began == src && !forwarded)
      modifies this
      ensures Valid() && src == old(src) && r == rc && began == old(began) && forwarded == old(forwarded)
      ensures r == Done ==> snapshot == src && snapshotWal == wal
      ensures r == Done && |src| > 0 ==>
                IsCopy(g, src, dest, wal) && HeaderIs(dest, iDestSchema, wal, counter, version)
      ensures r == Done && |src| > 0 && old(iNext) == 1 ==> FieldIs(dest, 28, |src|)
      ensures r == Ok ==> nPage >= 0 && iNext == old(iNext) + nPage <= |src| && isAttached
    {
      hide FieldIs;
      hide HeaderIs;
      hide CountIs;
      hide Copied;
      hide IsCopy;
      ghost var before, from := dest, iNext;
      r := CopyPages(nPage);
      if r == Ok {
        if |src| > 0 && from > 1 {
          CountKept(src, src, before, dest, began, forwarded);
        } else {
          CountAtOnce(src, dest);
        }
        if iNext > |src| {
          ghost var copied := dest;
          r := FinishStep(iDestSchema, wal, counter, version);
          if r == Done && |src| > 0 {
            CountKept(src, src, copied, dest, began, forwarded);
            CountAtOnce(src, dest);
          }
        } else if !isAttached {
          isAttached := true;
        }
      }
      rc := r;
    }

    method FinishStep(iDestSchema: nat, wal: bool, counter: nat, version: nat) returns (r: Rc)
      requires g.Valid() && Pages(src, g.ps) && iNext > |src| && Copied(g, src, dest, iNext - 1)
      modifies `dest, `snapshot, `snapshotWal
      ensures r == Done || r == Error
      ensures r == Done ==> snapshot == src && snapshotWal == wal
      ensures r == Done && src != [] ==>
                IsCopy(g, snapshot, dest, wal) && HeaderIs(dest, iDestSchema, wal, counter, version)
      ensures r == Done && src != [] ==> SameField(old(dest), dest, 28)
    {
      snapshot, snapshotWal := src, wal;
      if |src| == 0 {
        // sqlite3BtreeNewDb writes a new, empty database
        var empty: File := *;
        dest := empty;
        r := PageOp();
        r := if r == Ok then Done else r;
      } else {
        assert Copied(g, src, dest, |src|);
        r, dest := Finish(g, src, dest, iDestSchema, wal, counter, version);
      }
    }

    /** A page of the source is written through its pager, which tells every
        attached backup (backupUpdate). */
    method SourceWrite(iPage: nat, data: seq<Byte>)
      requires Valid() && 1 <= iPage <= |src| + 1 && iPage != g.SrcPendingPage() && |data| == g.ps
      modifies this
      ensures Valid() && src == Written(old(src), iPage - 1, data)
      ensures IsFatal(old(rc)) ==> rc == old(rc) && dest == old(dest)
      ensures iNext == old(iNext) && isAttached == old(isAttached) && snapshot == old(snapshot)
      ensures snapshotWal == old(snapshotWal) && began == old(began)
      ensures forwarded == (old(forwarded) || (iPage == 1 < iNext && isAttached && !IsFatal(old(rc))))
      ensures rc == Done <==> old(rc) == Done
    {
      hide IsCopy;
      hide Copied;
      hide CountIs;
      if isAttached && !IsFatal(rc) && iPage < iNext {
        var r := Forward(iPage, data);
        if r != Ok {
          rc := r;
        }
        forwarded := forwarded || iPage == 1;
      } else if !IsFatal(rc) {
        CopiedIgnoring(g, src, dest, iPage - 1, data, iNext - 1);
        if iNext > 1 {
          CountKept(src, Written(src, iPage - 1, data), dest, dest, began, forwarded);
        }
      }
      WrittenPages(src, iPage - 1, data, g.ps);
      src := if iPage <= |src| then src[iPage - 1 := data] else src + [data];
    }

    /** backupUpdate on a page that has been copied. */
    method Forward(iPage: nat, data: seq<Byte>) returns (r: Rc)
      requires Valid() && isAttached && !IsFatal(rc) && 1 <= iPage < iNext && iPage <= |src| + 1
      requires iPage != g.SrcPendingPage() && |data| == g.ps
      modifies `dest
      ensures r == Ok || r == Error
      ensures var s := Written(src, iPage - 1, data);
              r == Ok ==>
                  Pages(s, g.ps) && Copied(g, s, dest, iNext - 1) && CountIs(s, dest, began, forwarded || iPage == 1)
    {
      hide IsCopy;
      hide Copied;
      hide FieldIs;
      hide View;
      ghost var d := dest;
      r, dest := BackupOnePage(g, dest, iPage, data, true, 0);
      if r == Ok {
        CopiedForwarded(g, src, d, dest, iPage - 1, data, iNext - 1, 0);
        if iPage > 1 {
          CountKept(src, Written(src, iPage - 1, data), d, dest, began, forwarded);
        }
      }
    }

    /** The source grows past its pending-byte page, whose content is never used. */
    method SourceSkipsPendingPage(data: seq<Byte>)
      requires Valid() && |src| + 1 == g.SrcPendingPage() && |data| == g.ps
      modifies `src
      ensures Valid() && src == old(src) + [data]
    {
      hide Copied;
      hide IsCopy;
      hide FieldIs;
      DivMod(g.pending, g.ps);
      if !IsFatal(rc) {
        CopiedIgnoring(g, src, dest, |src|, data, iNext - 1);
      }
      src := src + [data];
    }

    method SourceTruncate(n: nat)
      requires Valid() && n <= |src|
      modifies `src
      ensures Valid() && src == old(src)[..n]
    {
      hide Copied;
      hide CountIs;
      hide IsCopy;
      if !IsFatal(rc) {
        CopiedPrefix(g, src, n, dest, iNext - 1);
        if iNext > 1 && n > 0 {
          CountKept(src, src[..n], dest, dest, began, forwarded);
        }
      }
      src := src[..n];
    }

    /** The pager finds that another process has changed the source: anything may
        be different, and attached backups start again (sqlite3BackupRestart). */
    method SourceReplaced(pages: seq<seq<Byte>>)
      requires Valid() && Pages(pages, g.ps)
      modifies `src, `iNext
      ensures Valid() && src == pages && (isAttached ==> iNext == 1)
    {
      hide CountIs;
      hide IsCopy;
      src := pages;
      if isAttached {
        iNext := 1;
      }
    }
  }

  // ---------------------------------------------------------------------- whole runs

  /** What may happen between the creation and the end of a backup. */
  datatype Event =
    | StepCall(nPage: int, iDestSchema: nat, wal: bool, counter: nat, version: nat)
    | PageWrite(iPage: nat, data: seq<Byte>)
    | SkipPending(data: seq<Byte>)
    | Shrink(n: nat)
    | Replace(pages: seq<seq<Byte>>)

  ghost predicate EventsFit(events: seq<Event>, ps: nat) {
    forall i :: 0 <= i < |events| ==>
      match events[i]
      case PageWrite(_, data) => |data| == ps
      case SkipPending(data) => |data| == ps
      case Replace(pages) => Pages(pages, ps)
      case _ => true
  }

  /** Any mixture of backup steps, forwarded writes, changes of size and external
      changes; events that do not apply to the current source are passed over.
      While no fatal error is recorded every page before iNext is up to date; once
      a step has returned SQLITE_DONE the destination stays a copy of the source
      as it was at that moment. */
  method RunBackup(g: Geometry, initial: seq<seq<Byte>>, target: File, events: seq<Event>)
    returns (rc: Rc, iNext: nat, attached: bool, src: seq<seq<Byte>>, dest: File, atDone: seq<seq<Byte>>, wal: bool,
             atStart: seq<seq<Byte>>, rewritten: bool)
    requires g.Valid() && Pages(initial, g.ps) && EventsFit(events, g.ps)
    ensures Pages(src, g.ps) && Pages(atDone, g.ps) && iNext >= 1
    ensures !IsFatal(rc) ==> Copied(g, src, dest, iNext - 1)
    ensures iNext > 1 ==> attached || IsFatal(rc)
    ensures rc == Done && atDone != [] ==> IsCopy(g, atDone, dest, wal) && CountIs(atDone, dest, atStart, rewritten)
  {
    hide IsFatal;
    var p := new Backup(g, initial, target);
    atDone, wal, atStart, rewritten := [], false, [], false;
    for i := 0 to |events|
      invariant p.Valid() && fresh(p) && p.g == g
      invariant Pages(atDone, g.ps) && (p.rc == Done ==> atDone == p.snapshot && wal == p.snapshotWal)
      invariant atStart == p.began && rewritten == p.forwarded
    {
      match events[i]
      case StepCall(nPage, iDestSchema, inWal, counter, version) =>
        var wasOver := IsFatal(p.rc);
        if !wasOver && p.iNext == 1 {
          atStart, rewritten := p.src, false;
        }
        var r := p.Step(nPage, iDestSchema, inWal, counter, version);
        if r == Done && !wasOver {
          atDone, wal := p.src, inWal;
        }
      case PageWrite(iPage, data) =>
        if 1 <= iPage <= |p.src| + 1 && iPage != g.SrcPendingPage() {
          rewritten := rewritten || (iPage == 1 < p.iNext && p.isAttached && !IsFatal(p.rc));
          p.SourceWrite(iPage, data);
        }
      case SkipPending(data) =>
        if |p.src| + 1 == g.SrcPendingPage() {
          p.SourceSkipsPendingPage(data);
        }
      case Shrink(n) =>
        if n <= |p.src| {
          p.SourceTruncate(n);
        }
      case Replace(pages) =>
        p.SourceReplaced(pages);
    }
    rc, iNext, attached, src, dest := p.rc, p.iNext, p.isAttached, p.src, p.dest;
  }
}
