/** Copying pages between database files whose page sizes may differ. */
module BackupCopy {
  import opened Arithmetic

  type Byte = b: int | 0 <= b < 256

  /** Page sizes of the two files and the offset of the pending byte. */
  datatype Geometry = Geometry(ps: nat, pd: nat, pending: nat) {
    ghost predicate Valid() {
      && ps >= 512 && pd >= 512 && (ps % pd == 0 || pd % ps == 0)
      && pending % ps == 0 && pending % pd == 0 && pending >= ps && pending >= pd
    }
    /** PENDING_BYTE_PAGE of each file. */
    function SrcPendingPage(): nat
      requires ps > 0
    { pending / ps + 1 }
    function DestPendingPage(): nat
      requires pd > 0
    { pending / pd + 1 }
  }

  const PENDING_BYTE: nat := 0x40000000

  predicate IsPageSize(n: nat) {
    n in {512, 1024, 2048, 4096, 8192, 16384, 32768, 65536}
  }

  /** Any two page sizes SQLite supports fit together. */
  lemma PageSizesFit(ps: nat, pd: nat)
    requires IsPageSize(ps) && IsPageSize(pd)
    ensures Geometry(ps, pd, PENDING_BYTE).Valid()
  {
  }

  /** The destination file, byte by byte; bytes never written read as zero. */
  type File = map<nat, Byte>

  function View(d: File, off: nat): Byte {
    if off in d then d[off] else 0
  }

  /** memcpy into the file. */
  function Write(d: File, at: nat, data: seq<Byte>): (r: File)
    ensures forall off: nat :: View(r, off) == if at <= off < at + |data| then data[off - at] else View(d, off)
    ensures forall off: nat :: off in r <==> off in d || at <= off < at + |data|
    decreases |data|
  {
    if data == [] then d else Write(d[at := data[0]], at + 1, data[1..])
  }

  function Truncate(d: File, size: nat): File {
    map i | i in d && i < size :: d[i]
  }

  /** Page-1 fields written when a backup is finished and committed: the change
      counter, the schema cookie and the version-valid-for fields, and in WAL mode
      the file format versions. */
  predicate Rewritten(off: nat, wal: bool) {
    (wal && 18 <= off < 20) || 24 <= off < 28 || 40 <= off < 44 || 92 <= off < 100
  }

  /** The page-count field of page 1, filled in by the backup while copying. */
  predicate CountField(off: nat) {
    28 <= off < 32
  }

  ghost predicate Pages(src: seq<seq<Byte>>, ps: nat) {
    forall k :: 0 <= k < |src| ==> |src[k]| == ps
  }

  /** Byte t of source page k+1 has no counterpart the page copier maintains. */
  predicate Exempt(g: Geometry, k: nat, t: nat) {
    k * g.ps == g.pending || g.pending <= k * g.ps + t < g.pending + g.pd || CountField(k * g.ps + t)
  }

  /** The first n source pages have been copied. */
  ghost predicate Copied(g: Geometry, src: seq<seq<Byte>>, dest: File, n: nat)
    requires Pages(src, g.ps)
  {
    forall k, t {:trigger src[k][t]} :: 0 <= k < n && k < |src| && 0 <= t < g.ps && !Exempt(g, k, t) ==>
      View(dest, k * g.ps + t) == src[k][t]
  }

  /** The destination is a copy of the source: same bytes outside the source's
      pending-byte page, the rewritten header fields and the page count, and no
      further bytes. */
  ghost predicate IsCopy(g: Geometry, src: seq<seq<Byte>>, dest: File, wal: bool)
    requires Pages(src, g.ps)
  {
    && (forall k, t {:trigger src[k][t]} ::
          0 <= k < |src| && 0 <= t < g.ps && k * g.ps != g.pending ==>
            Rewritten(k * g.ps + t, wal) || CountField(k * g.ps + t) || View(dest, k * g.ps + t) == src[k][t])
    && forall off :: off in dest ==> off < |src| * g.ps
  }

  // ----------------------------------------------------------------- arithmetic

  /** Bytes of different pages have different offsets. */
  lemma PagesAreDisjoint(k: nat, m: nat, t: nat, ps: nat)
    requires k != m && t < ps
    ensures !(m * ps <= k * ps + t < (m + 1) * ps)
  {
    if k < m {
      MulMono(k + 1, m, ps);
    } else {
      MulMono(m + 1, k, ps);
    }
  }

  lemma ModInPage(off: nat, k: nat, ps: nat)
    requires ps > 0 && k * ps <= off < (k + 1) * ps
    ensures off / ps == k && off % ps == off - k * ps
  {
    var q := off / ps;
    assert off == q * ps + off % ps;
    if q < k {
      MulMono(q + 1, k, ps);
    } else if k < q {
      MulMono(k + 1, q, ps);
    }
  }

  /** A block of size b at a multiple of b stays within one page of size a. */
  lemma BlockFits(off: nat, a: nat, b: nat)
    requires a > 0 && b > 0 && a % b == 0 && off % b == 0
    ensures off % a + b <= a
  {
    var q, m, n := off / a, off / b, a / b;
    assert off == m * b && a == n * b && off == q * a + off % a;
    BlockWithin(m, q, n, b, off % a);
  }

  lemma BlockWithin(m: nat, q: nat, n: nat, b: nat, r: nat)
    requires b > 0 && m * b == q * (n * b) + r && r < n * b
    ensures r + b <= n * b
  {
    assert q * (n * b) == (q * n) * b;
    var s := m - q * n;
    assert s * b == m * b - (q * n) * b == r;
    if s >= n {
      MulMono(n, s, b);
    } else if s >= 0 {
      MulMono(s + 1, n, b);
      assert (s + 1) * b == s * b + b;
    }
  }

  lemma MultipleStep(off: nat, step: nat, b: nat)
    requires b > 0 && off % b == 0 && step % b == 0
    ensures (off + step) % b == 0
  {
    var m, n := off / b, step / b;
    assert off + step == (m + n) * b;
    MultipleMod(m + n, b);
  }

  // --------------------------------------------------------------- one page

  datatype Rc = Ok | Busy | Locked | Done | Error

  /** Everything but SQLITE_OK, SQLITE_BUSY and SQLITE_LOCKED ends a backup. */
  predicate IsFatal(rc: Rc) {
    rc != Ok && rc != Busy && rc != Locked
  }

  /** Page operations under the locks held during a backup: they succeed or fail
      for good. */
  method PageOp() returns (rc: Rc)
    ensures rc == Ok || rc == Error
  {
    var b: bool := *;
    rc := if b then Ok else Error;
  }

  /** sqlite3Put4byte: 32 bits, most significant byte first. */
  function Big4(n: nat): (r: seq<Byte>)
    ensures |r| == 4
  {
    [n / 0x1000000 % 256, n / 0x10000 % 256, n / 0x100 % 256, n % 256]
  }

  /** The bytes of the source page that starts at offset lo are in the destination, up
      to offset `end`, except for the page count when it is filled in. */
  ghost predicate BytesCopied(g: Geometry, dest: File, lo: nat, data: seq<Byte>, end: nat, bUpdate: bool) {
    forall t {:trigger data[t]} ::
      (0 <= t < |data| && lo + t < end && !(g.pending <= lo + t < g.pending + g.pd)) ==>
        View(dest, lo + t) == data[t] || (CountField(lo + t) && !bUpdate)
  }

  /** That is the number of source pages, unless the page is copied because of an
      update. */
  ghost predicate PageCopied(g: Geometry, dest: File, lo: nat, data: seq<Byte>, end: nat, bUpdate: bool,
                             nSrcPage: nat) {
    && BytesCopied(g, dest, lo, data, end, bUpdate)
    && (!bUpdate && lo == 0 < end ==> FieldIs(dest, 28, nSrcPage))
  }

  /** The number four bytes stand for, most significant byte first. */
  function Value4(a: int, b: int, c: int, d: int): int {
    0x1000000 * a + 0x10000 * b + 0x100 * c + d
  }

  lemma FourBytes(n: nat)
    ensures var r := Big4(n); Value4(r[0], r[1], r[2], r[3]) == n % 0x1_0000_0000
  {
    var a, b, c := n / 0x100, n / 0x10000, n / 0x1000000;
    Shorter(n, a, b, c);
    var d := c / 0x100;
    var low := Value4(c % 0x100, b % 0x100, a % 0x100, n % 0x100);
    assert n == d * 0x1_0000_0000 + low;
    QuotientUnique(n, 0x1_0000_0000, d, low);
  }

  lemma Shorter(n: nat, a: nat, b: nat, c: nat)
    requires a == n / 0x100 && b == n / 0x10000 && c == n / 0x1000000
    ensures n == 0x100 * a + n % 0x100 && a == 0x100 * b + a % 0x100 && b == 0x100 * c + b % 0x100
  {
  }

  /** The four bytes at offset `at` hold n, most significant byte first. */
  ghost predicate FieldIs(dest: File, at: nat, n: nat) {
    Value4(View(dest, at), View(dest, at + 1), View(dest, at + 2), View(dest, at + 3)) == n % 0x1_0000_0000
  }

  lemma FieldWritten(d: File, at: nat, n: nat)
    ensures FieldIs(Write(d, at, Big4(n)), at, n)
  {
    FourBytes(n);
  }

  /** The bytes of the field are the same in both files. */
  predicate SameField(d: File, e: File, at: nat) {
    View(d, at) == View(e, at) && View(d, at + 1) == View(e, at + 1)
    && View(d, at + 2) == View(e, at + 2) && View(d, at + 3) == View(e, at + 3)
  }

  lemma FieldKept(d: File, e: File, at: nat, n: nat)
    requires FieldIs(d, at, n) && SameField(d, e, at)
    ensures FieldIs(e, at, n)
  {
  }

  ghost predicate UnchangedOutside(d: File, e: File, lo: nat, hi: nat) {
    && (forall off: nat {:trigger View(e, off)} :: !(lo <= off < hi) ==> View(e, off) == View(d, off))
    && (forall off: nat {:trigger off in e} :: off in e ==> off in d || lo <= off < hi)
  }

  /** How many bytes are copied at a time. */
  function CopySize(g: Geometry): nat {
    if g.ps < g.pd then g.ps else g.pd
  }

  lemma CopySizeDivides(g: Geometry)
    requires g.Valid()
    ensures CopySize(g) > 0 && g.ps % CopySize(g) == 0 && g.pd % CopySize(g) == 0
  {
    if g.ps < g.pd {
      SmallerDivides(g.ps, g.pd);
    } else {
      SmallerDivides(g.pd, g.ps);
    }
  }

  lemma SmallerDivides(a: nat, b: nat)
    requires 0 < a <= b && (a % b == 0 || b % a == 0)
    ensures a % a == 0 && b % a == 0
  {
    QuotientUnique(a, a, 1, 0);
    if a < b {
      QuotientUnique(a, b, 0, a);
    }
  }

  lemma PageStartAligned(g: Geometry, k: nat)
    requires g.Valid()
    ensures (k * g.ps) % CopySize(g) == 0
  {
    CopySizeDivides(g);
    var b := CopySize(g);
    var n := g.ps / b;
    assert g.ps == n * b && k * (n * b) == (k * n) * b;
    MultipleMod(k * n, b);
  }

  lemma BlockInSource(g: Geometry, k: nat, lo: nat, off: nat)
    requires g.Valid() && lo == k * g.ps && lo <= off < lo + g.ps && off % CopySize(g) == 0
    ensures off % g.ps == off - lo && off + CopySize(g) <= lo + g.ps
  {
    CopySizeDivides(g);
    ModInPage(off, k, g.ps);
    BlockFits(off, g.ps, CopySize(g));
  }

  lemma NotBelowBlock(off: nat, b: nat)
    requires b > 0 && off % b == 0
    ensures off == 0 || off >= b
  {
  }

  /** A block lies inside one destination page, which is the pending-byte page or
      does not meet it. */
  lemma BlockInDest(g: Geometry, off: nat, b: nat)
    requires g.Valid() && b > 0 && g.pd % b == 0 && off % b == 0
    ensures off % g.pd + b <= g.pd && off / g.pd * g.pd + off % g.pd == off
    ensures off / g.pd + 1 == g.DestPendingPage() ==> g.pending <= off && off + b <= g.pending + g.pd
    ensures off / g.pd + 1 != g.DestPendingPage() ==> off + b <= g.pending || g.pending + g.pd <= off
  {
    BlockFits(off, g.pd, b);
    var q, p, r := off / g.pd, g.pending / g.pd, off % g.pd;
    DivMod(off, g.pd);
    DivMod(g.pending, g.pd);
    PageOrder(q, p, g.pd, r, b);
  }

  lemma PageOrder(q: nat, p: nat, pd: nat, r: nat, b: nat)
    requires r + b <= pd
    ensures q == p ==> p * pd <= q * pd + r && q * pd + r + b <= p * pd + pd
    ensures q != p ==> q * pd + r + b <= p * pd || p * pd + pd <= q * pd + r
  {
    if q < p {
      MulMono(q + 1, p, pd);
    } else if p < q {
      MulMono(p + 1, q, pd);
    }
  }

  lemma BytesWritten(g: Geometry, d: File, lo: nat, data: seq<Byte>, off: nat, n: nat, bUpdate: bool)
    requires lo <= off && off - lo + n <= |data| && BytesCopied(g, d, lo, data, off, bUpdate)
    ensures BytesCopied(g, Write(d, off, data[off - lo..off - lo + n]), lo, data, off + n, bUpdate)
  {
    var block := data[off - lo..off - lo + n];
    var e := Write(d, off, block);
    forall t | 0 <= t < |data| && lo + t < off + n && !(g.pending <= lo + t < g.pending + g.pd)
      ensures View(e, lo + t) == data[t] || (CountField(lo + t) && !bUpdate)
    {
      if lo + t >= off {
        assert block[lo + t - off] == data[t];
      } else {
        assert View(e, lo + t) == View(d, lo + t);
      }
    }
  }

  lemma CountWritten(g: Geometry, e: File, data: seq<Byte>, end: nat, m: nat)
    requires BytesCopied(g, e, 0, data, end, false)
    ensures PageCopied(g, Write(e, 28, Big4(m)), 0, data, end, false, m)
  {
    FieldWritten(e, 28, m);
    hide FieldIs;
    var f := Write(e, 28, Big4(m));
    forall t | 0 <= t < |data| && t < end && !(g.pending <= t < g.pending + g.pd)
      ensures View(f, t) == data[t] || CountField(t)
    {
      assert CountField(t) || View(f, t) == View(e, t);
    }
  }

  /** Writing one block of the page extends what has been copied. */
  lemma BlockCopied(g: Geometry, d: File, lo: nat, data: seq<Byte>, off: nat, n: nat, bUpdate: bool, m: nat)
    requires lo <= off && off - lo + n <= |data| && (off == 0 || off >= 512) && n > 0
    requires PageCopied(g, d, lo, data, off, bUpdate, m)
    ensures var e := Write(d, off, data[off - lo..off - lo + n]);
            var f := if off == 0 && !bUpdate then Write(e, 28, Big4(m)) else e;
            PageCopied(g, f, lo, data, off + n, bUpdate, m)
  {
    hide BytesCopied;
    hide FieldIs;
    var e := Write(d, off, data[off - lo..off - lo + n]);
    BytesWritten(g, d, lo, data, off, n, bUpdate);
    if !bUpdate && lo == 0 {
      if off == 0 {
        CountWritten(g, e, data, off + n, m);
      } else {
        FieldKept(d, e, 28, m);
      }
    }
  }

  /** backupOnePage: copy source page iSrcPg to wherever its bytes belong. */
  method BackupOnePage(g: Geometry, d: File, iSrcPg: nat, data: seq<Byte>, bUpdate: bool, nSrcPage: nat)
    returns (rc: Rc, dest: File)
    requires g.Valid() && iSrcPg > 0 && |data| == g.ps && iSrcPg != g.SrcPendingPage()
    ensures rc == Ok || rc == Error
    ensures UnchangedOutside(d, dest, (iSrcPg - 1) * g.ps, iSrcPg * g.ps)
    ensures rc == Ok ==> PageCopied(g, dest, (iSrcPg - 1) * g.ps, data, iSrcPg * g.ps, bUpdate, nSrcPage)
  {
    hide FieldIs;
    ghost var k := iSrcPg - 1;
    ghost var lo := k * g.ps;
    var nCopy := if g.ps < g.pd then g.ps else g.pd;
    var iEnd := iSrcPg * g.ps;
    assert iEnd == lo + g.ps;
    rc, dest := Ok, d;
    var iOff := iEnd - g.ps;
    PageStartAligned(g, k);
    CopySizeDivides(g);
    while rc == Ok && iOff < iEnd
      invariant rc == Ok || rc == Error
      invariant lo <= iOff && iOff % nCopy == 0
      invariant UnchangedOutside(d, dest, lo, iEnd)
      invariant rc == Ok ==> PageCopied(g, dest, lo, data, if iOff < iEnd then iOff else iEnd, bUpdate, nSrcPage)
      decreases iEnd - iOff
    {
      BlockInSource(g, k, lo, iOff);
      BlockInDest(g, iOff, nCopy);
      var iDest := iOff / g.pd + 1;
      var skip := iDest == g.DestPendingPage();
      var at := (iDest - 1) * g.pd + iOff % g.pd;
      NotBelowBlock(iOff, nCopy);
      rc, dest := CopyBlock(g, dest, lo, data, iOff % g.ps, at, nCopy, skip, bUpdate, nSrcPage);
      MultipleStep(iOff, g.pd, nCopy);
      iOff := iOff + g.pd;
    }
  }

  /** Store the block of the page at position `from` at offset `at` of the
      destination, unless that is in its pending-byte page. */
  method CopyBlock(g: Geometry, d: File, ghost lo: nat, data: seq<Byte>, from: nat, at: nat, n: nat,
                   skip: bool, bUpdate: bool, nSrcPage: nat)
    returns (rc: Rc, dest: File)
    requires at == lo + from && from + n <= |data| && n >= 512 && (at == 0 || at >= 512) && g.pending >= 512
    requires skip ==> 512 <= g.pending <= at && at + n <= g.pending + g.pd
    requires PageCopied(g, d, lo, data, at, bUpdate, nSrcPage)
    ensures rc == Ok || rc == Error
    ensures UnchangedOutside(d, dest, at, at + n)
    ensures rc == Ok ==> PageCopied(g, dest, lo, data, at + n, bUpdate, nSrcPage)
  {
    rc, dest := Ok, d;
    if skip {
      return;
    }
    rc := PageOp();
    if rc == Ok {
      rc := PageOp();
    }
    if rc == Ok {
      BlockCopied(g, d, lo, data, at, n, bUpdate, nSrcPage);
      dest := Write(d, at, data[from..from + n]);
      if at == 0 && !bUpdate {
        assert at + 28 == 28;
        dest := Write(dest, at + 28, Big4(nSrcPage));
      }
    }
  }
}
