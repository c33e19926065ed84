/** A fixed-size set of page numbers in one of three representations. */
module Bitvecs {
  import opened Arithmetic
  import opened ProbeTable

  /** How a Bitvec is laid out: bytes of the bitmap, slots of the hash table and
      pointers to sub-bitvecs that fit in the same space. */
  datatype Layout = Layout(nElem: nat, nInt: nat, nPtr: nat) {
    predicate Valid() { nElem >= 1 && nInt >= 2 && nPtr >= 2 }
    function NBit(): nat { nElem * 8 }
    function MxHash(): nat { nInt / 2 }
  }

  /** BITVEC_SZ is 512 bytes, of which three 32-bit words are the header. */
  const LAYOUT_64 := Layout(496, 124, 62)
  const LAYOUT_32 := Layout(500, 125, 125)

  /** Both layouts the source can be built with are covered. */
  lemma LayoutsValid()
    ensures LAYOUT_64.Valid() && LAYOUT_64.NBit() == 3968 && LAYOUT_64.MxHash() == 62
    ensures LAYOUT_32.Valid() && LAYOUT_32.NBit() == 4000 && LAYOUT_32.MxHash() == 62
  {
  }

  const U32_LIMIT: nat := 0x1_0000_0000

  datatype Rc = Ok | NoMem

  function Or(a: Rc, b: Rc): Rc {
    if a.Ok? then b else a
  }

  /** Under memory pressure any allocation may fail; otherwise none does. */
  method Malloc(pressure: bool) returns (ok: bool)
    ensures !pressure ==> ok
  {
    ok := *;
    ok := ok || !pressure;
  }

  // ------------------------------------------------------------------- bitmaps

  /** 1 << k in one byte. */
  function Mask(k: nat): bv8
    requires k < 8
  {
    match k
    case 0 => 0x01 case 1 => 0x02 case 2 => 0x04 case 3 => 0x08
    case 4 => 0x10 case 5 => 0x20 case 6 => 0x40 case 7 => 0x80
  }

  predicate On(x: bv8, k: nat)
    requires k < 8
  {
    x & Mask(k) != 0
  }

  function Put(x: bv8, k: nat): bv8
    requires k < 8
  {
    x | Mask(k)
  }

  function Cut(x: bv8, k: nat): bv8
    requires k < 8
  {
    x & !Mask(k)
  }

  lemma MaskBits(x: bv8, k: nat, m: nat)
    requires k < 8 && m < 8
    ensures On(Put(x, k), m) <==> m == k || On(x, m)
    ensures On(Cut(x, k), m) <==> m != k && On(x, m)
  {
    var p, q := Mask(k), Mask(m);
    if k != m {
      assert p & q == 0;
      assert !p & q == q;
    } else {
      assert p & q == q;
    }
  }

  /** Value v is recorded as bit v-1. */
  predicate HasBit(bits: seq<bv8>, v: nat)
    requires 1 <= v <= |bits| * 8
  {
    On(bits[(v - 1) / 8], (v - 1) % 8)
  }

  ghost function BitSet(bits: seq<bv8>, n: nat): set<nat>
    requires n <= |bits| * 8
  {
    set v: nat | 1 <= v <= n && HasBit(bits, v)
  }

  lemma BitUpdate(bits: seq<bv8>, i: nat, v: nat, k: nat, r: nat, q: nat, s: nat)
    requires 1 <= i <= |bits| * 8 && 1 <= v <= |bits| * 8
    requires k == (i - 1) / 8 && r == (i - 1) % 8 && q == (v - 1) / 8 && s == (v - 1) % 8
    ensures On(bits[k := Put(bits[k], r)][q], s) <==> v == i || On(bits[q], s)
    ensures On(bits[k := Cut(bits[k], r)][q], s) <==> v != i && On(bits[q], s)
  {
    if q == k {
      MaskBits(bits[k], r, s);
    }
  }

  lemma BitmapUpdate(bits: seq<bv8>, n: nat, i: nat, k: nat, r: nat)
    requires 1 <= i <= n <= |bits| * 8 && k == (i - 1) / 8 && r == (i - 1) % 8
    ensures BitSet(bits[k := Put(bits[k], r)], n) == BitSet(bits, n) + {i}
    ensures BitSet(bits[k := Cut(bits[k], r)], n) == BitSet(bits, n) - {i}
  {
    var on, off := bits[k := Put(bits[k], r)], bits[k := Cut(bits[k], r)];
    forall v: nat | 1 <= v <= n
      ensures HasBit(on, v) <==> v == i || HasBit(bits, v)
      ensures HasBit(off, v) <==> v != i && HasBit(bits, v)
    {
      BitUpdate(bits, i, v, k, r, (v - 1) / 8, (v - 1) % 8);
    }
  }

  // ---------------------------------------------------------------- sub-bitvecs

  /** Number of values each sub-bitvec handles. */
  function Divisor(iSize: nat, c: Layout): (d: nat)
    requires c.Valid()
    ensures d > 0
  {
    var d := if iSize % c.nPtr != 0 then iSize / c.nPtr + 1 else iSize / c.nPtr;
    if d < c.NBit() then c.NBit() else d
  }

  /** Sub-bitvecs are strictly smaller, and together they are large enough. */
  lemma DivisorFits(iSize: nat, c: Layout)
    requires c.Valid() && iSize > c.NBit()
    ensures Divisor(iSize, c) < iSize <= Divisor(iSize, c) * c.nPtr
  {
    var q, r := iSize / c.nPtr, iSize % c.nPtr;
    assert iSize == q * c.nPtr + r;
    assert q * 2 <= q * c.nPtr by { MulMono(2, c.nPtr, q); }
    var d := if r != 0 then q + 1 else q;
    assert d * c.nPtr >= iSize;
    MulMono(d, Divisor(iSize, c), c.nPtr);
  }

  /** Which sub-bitvec handles value v, and as which of its own values. */
  function Bin(v: nat, d: nat): nat
    requires v > 0 && d > 0
  {
    (v - 1) / d
  }

  function Rem(v: nat, d: nat): (r: nat)
    requires v > 0 && d > 0
    ensures 1 <= r <= d
  {
    (v - 1) % d + 1
  }

  lemma BinInRange(v: nat, d: nat, n: nat)
    requires d > 0 && 1 <= v <= d * n
    ensures Bin(v, d) < n
  {
    assert v - 1 == d * Bin(v, d) + (v - 1) % d;
    if Bin(v, d) >= n {
      MulMono(n, Bin(v, d), d);
    }
  }

  /** Sub-bitvecs of size d are smaller than the whole, and nPtr of them cover it. */
  ghost predicate Divides(iSize: nat, d: nat, nPtr: nat) {
    0 < d < iSize && forall v: nat :: 1 <= v <= iSize ==> Bin(v, d) < nPtr
  }

  lemma DivisorDivides(iSize: nat, c: Layout)
    requires c.Valid() && iSize > c.NBit()
    ensures Divides(iSize, Divisor(iSize, c), c.nPtr)
  {
    DivisorFits(iSize, c);
    forall v: nat | 1 <= v <= iSize
      ensures Bin(v, Divisor(iSize, c)) < c.nPtr
    {
      BinInRange(v, Divisor(iSize, c), c.nPtr);
    }
  }

  lemma SplitUnique(v: nat, w: nat, d: nat)
    requires v > 0 && w > 0 && d > 0 && Bin(v, d) == Bin(w, d) && Rem(v, d) == Rem(w, d)
    ensures v == w
  {
    assert v - 1 == (v - 1) / d * d + (v - 1) % d;
    assert w - 1 == (w - 1) / d * d + (w - 1) % d;
  }

  /** `contents` is the union of the parts, each shifted to its place. */
  ghost predicate Joined(contents: set<nat>, iSize: nat, d: nat, parts: seq<set<nat>>)
    requires d > 0
  {
    forall v: nat :: v in contents <==>
      1 <= v <= iSize && Bin(v, d) < |parts| && Rem(v, d) in parts[Bin(v, d)]
  }

  /** Changing one value in its part changes that value in the whole. */
  lemma JoinedUpdate(contents: set<nat>, iSize: nat, d: nat, parts: seq<set<nat>>, v: nat, part: set<nat>)
    requires d > 0 && Joined(contents, iSize, d, parts) && 1 <= v <= iSize && Bin(v, d) < |parts|
    ensures part == parts[Bin(v, d)] + {Rem(v, d)} ==>
              Joined(contents + {v}, iSize, d, parts[Bin(v, d) := part])
    ensures part == parts[Bin(v, d)] - {Rem(v, d)} ==>
              Joined(contents - {v}, iSize, d, parts[Bin(v, d) := part])
  {
    forall w: nat | w > 0 && Bin(w, d) == Bin(v, d) && Rem(w, d) == Rem(v, d)
      ensures w == v
    {
      SplitUnique(v, w, d);
    }
  }

  /** The whole that the parts make up. */
  ghost function JoinOf(iSize: nat, d: nat, parts: seq<set<nat>>): (c: set<nat>)
    requires d > 0
    ensures Joined(c, iSize, d, parts)
  {
    set v: nat | 1 <= v <= iSize && Bin(v, d) < |parts| && Rem(v, d) in parts[Bin(v, d)]
  }

  /** Losing values of one part loses values of the whole. */
  lemma JoinedShrinks(contents: set<nat>, iSize: nat, d: nat, parts: seq<set<nat>>, v: nat, part: set<nat>)
    requires d > 0 && Joined(contents, iSize, d, parts) && 1 <= v <= iSize && Bin(v, d) < |parts|
    requires part <= parts[Bin(v, d)] + {Rem(v, d)}
    ensures JoinOf(iSize, d, parts[Bin(v, d) := part]) <= contents + {v}
    ensures part == parts[Bin(v, d)] + {Rem(v, d)} ==> JoinOf(iSize, d, parts[Bin(v, d) := part]) == contents + {v}
  {
    var c := JoinOf(iSize, d, parts[Bin(v, d) := part]);
    forall w | w in c
      ensures w in contents + {v}
    {
      if Bin(w, d) == Bin(v, d) && Rem(w, d) == Rem(v, d) {
        SplitUnique(v, w, d);
      }
    }
    if part == parts[Bin(v, d)] + {Rem(v, d)} {
      JoinedUpdate(contents, iSize, d, parts, v, part);
    }
  }

  /** The three representations share one area of memory. */
  datatype Union = Bitmap(bits: seq<bv8>) | Hash(slots: seq<nat>) | Sub(apSub: seq<Bitvec?>)

  class Bitvec {
    const cfg: Layout
    const iSize: nat
    var nSet: nat
    var iDivisor: nat
    var u: Union

    ghost var Contents: set<nat>
    ghost var parts: seq<set<nat>>    // the contents of the sub-bitvecs
    ghost var Repr: set<object>

    ghost predicate BitmapOk()
      requires u.Bitmap?
      reads this
    {
      && iSize <= cfg.NBit() && iDivisor == 0 && Repr == {this}
      && |u.bits| == cfg.nElem && Contents == BitSet(u.bits, iSize)
    }

    ghost predicate HashOk()
      requires u.Hash?
      reads this
    {
      && iSize > cfg.NBit() && iDivisor == 0 && Repr == {this}
      && |u.slots| == cfg.nInt && NoGap(u.slots)
      && nSet == Used(u.slots) && nSet < cfg.nInt
      && Contents == Values(u.slots)
      && forall v :: v in Contents ==> 1 <= v <= iSize
    }

    /** The sub-bitvecs that exist have the right size and separate memory. */
    ghost predicate SubShape(parts: seq<set<nat>>, Repr: set<object>)
      requires u.Sub? && cfg.Valid()
      reads this, u.apSub
    {
      && iSize > cfg.NBit() && Divides(iSize, iDivisor, cfg.nPtr)
      && |u.apSub| == |parts| == cfg.nPtr
      && (forall b :: 0 <= b < cfg.nPtr && u.apSub[b] != null ==>
            var p := u.apSub[b];
            && p in Repr && p.Repr <= Repr && this !in p.Repr
            && p.cfg == cfg && p.iSize == iDivisor && p.Contents == parts[b])
      && (forall b :: 0 <= b < cfg.nPtr && u.apSub[b] == null ==> parts[b] == {})
      && (forall b, c ::
            0 <= b < cfg.nPtr && 0 <= c < cfg.nPtr && b != c && u.apSub[b] != null && u.apSub[c] != null ==>
            u.apSub[b].Repr !! u.apSub[c].Repr)
    }

    ghost predicate Valid()
      reads this, Repr
      decreases Repr
      ensures Valid() ==> this in Repr
    {
      && this in Repr && cfg.Valid() && iSize < U32_LIMIT
      && (u.Bitmap? ==> BitmapOk())
      && (u.Hash? ==> HashOk())
      && (u.Sub? ==>
            && (forall b :: 0 <= b < |u.apSub| && u.apSub[b] != null ==> u.apSub[b] in Repr)
            && SubShape(parts, Repr) && Joined(Contents, iSize, iDivisor, parts)
            && forall b :: 0 <= b < cfg.nPtr && u.apSub[b] != null ==> u.apSub[b].Valid())
    }

    /** The fields that tell the representations apart, and the range of values. */
    lemma Kind()
      requires Valid()
      ensures iDivisor != 0 <==> u.Sub?
      ensures forall v :: v in Contents ==> 1 <= v <= iSize
    {
    }

    constructor (cfg: Layout, iSize: nat)
      requires cfg.Valid() && iSize < U32_LIMIT
      ensures Valid() && Contents == {} && fresh(Repr)
      ensures this.cfg == cfg && this.iSize == iSize
    {
      this.cfg, this.iSize := cfg, iSize;
      nSet, iDivisor := 0, 0;
      if iSize <= cfg.NBit() {
        u := Bitmap(seq(cfg.nElem, _ => 0));
      } else {
        var empty: seq<nat> := seq(cfg.nInt, _ => 0);
        UsedOfEmpty(empty);
        u := Hash(empty);
      }
      Contents, parts, Repr := {}, [], {this};
    }

    /** sqlite3BitvecTestNotNull: `i` is any 32-bit number, 0 included. */
    method Test(i: nat) returns (r: bool)
      requires Valid() && i < U32_LIMIT
      ensures r <==> i in Contents
    {
      Kind();
      // i-1 wraps around to the largest 32-bit number for i == 0
      if (if i == 0 then U32_LIMIT - 1 else i - 1) >= iSize {
        return false;
      }
      r := TestInRange(i);
    }

    method TestInRange(i: nat) returns (r: bool)
      requires Valid() && 1 <= i <= iSize
      ensures r <==> i in Contents
    {
      var p: Bitvec, v := this, i;
      p.Kind();
      while p.iDivisor != 0
        invariant p.Valid() && 1 <= v <= p.iSize && (p.iDivisor != 0 <==> p.u.Sub?)
        invariant v in p.Contents <==> i in Contents
        decreases p.iSize
      {
        var q, w := p.Descend(v);
        if q == null {
          return false;
        }
        p, v := q, w;
        p.Kind();
      }
      r := p.TestLeaf(v);
    }

    /** The sub-bitvec that handles v, if it exists, and v's place in it. */
    method Descend(v: nat) returns (p: Bitvec?, r: nat)
      requires Valid() && u.Sub? && 1 <= v <= iSize
      ensures p == null ==> v !in Contents
      ensures p != null ==> p.Valid() && p.iSize < iSize && 1 <= r <= p.iSize && (v in Contents <==> r in p.Contents)
    {
      p, r := u.apSub[Bin(v, iDivisor)], Rem(v, iDivisor);
    }

    /** Value v in a Bitvec that has no sub-bitvecs. */
    method TestLeaf(v: nat) returns (r: bool)
      requires Valid() && !u.Sub? && 1 <= v <= iSize
      ensures r <==> v in Contents
    {
      if iSize <= cfg.NBit() {
        assert v in BitSet(u.bits, iSize) <==> HasBit(u.bits, v);
        return On(u.bits[(v - 1) / 8], (v - 1) % 8);
      }
      r := Lookup(u.slots, v);
    }

    /** sqlite3BitvecSet. */
    method Set(i: nat, pressure: bool) returns (rc: Rc)
      requires Valid() && 1 <= i <= iSize
      modifies Repr
      ensures Valid() && fresh(Repr - old(Repr))
      ensures rc.Ok? ==> Contents == old(Contents) + {i}
      ensures !pressure ==> rc.Ok?
      ensures Contents <= old(Contents) + {i}
      ensures old(u.Sub?) ==> u.Sub?
      decreases iSize, if u.Hash? then 1 else 0
    {
      if iSize > cfg.NBit() && iDivisor != 0 {
        rc := SetInSub(i, pressure);
        return;
      }
      if iSize <= cfg.NBit() {
        SetBit(i);
        return Ok;
      }
      rc := SetInHash(i, pressure);
    }

    method SetInHash(i: nat, pressure: bool) returns (rc: Rc)
      requires Valid() && u.Hash? && 1 <= i <= iSize
      modifies Repr
      ensures Valid() && fresh(Repr - old(Repr))
      ensures rc.Ok? ==> Contents == old(Contents) + {i}
      ensures !pressure ==> rc.Ok?
      ensures Contents <= old(Contents) + {i}
      decreases iSize, 0, 7
    {
      var h := Home(i, cfg.nInt);
      var crowded := true;
      if u.slots[h] == 0 {
        ProbedStart(u.slots, i);
        crowded := nSet >= cfg.nInt - 1;
      } else {
        h := Probe(u.slots, i);
        if u.slots[h] == i {
          assert Contents == Contents + {i};
          return Ok;
        }
      }
      if crowded && nSet >= cfg.MxHash() {
        var ok := Malloc(pressure);
        if !ok {
          return NoMem;
        }
        rc := Subdivide(i, pressure);
        return;
      }
      Store(i, h);
      return Ok;
    }

    /** Put i into the empty slot h at the end of its probe path. */
    method Store(i: nat, h: nat)
      requires Valid() && u.Hash? && 1 <= i <= iSize && h < cfg.nInt && Probed(u.slots, i, h) && u.slots[h] == 0
      requires nSet + 1 < cfg.nInt
      modifies this
      ensures Valid() && u.Hash? && Repr == old(Repr) && Contents == old(Contents) + {i}
    {
      InsertKeepsWalks(u.slots, i, h);
      nSet := nSet + 1;
      u := Hash(u.slots[h := i]);
      Contents := Contents + {i};
    }

    method SetBit(i: nat)
      requires Valid() && u.Bitmap? && 1 <= i <= iSize
      modifies this
      ensures Valid() && u.Bitmap? && Repr == old(Repr) && Contents == old(Contents) + {i}
    {
      var j := i - 1;
      BitmapUpdate(u.bits, iSize, i, j / 8, j % 8);
      u := Bitmap(u.bits[j / 8 := Put(u.bits[j / 8], j % 8)]);
      Contents := Contents + {i};
    }

    /** The sub-bitvec at `bin`, created if need be; null if that fails. */
    method SubFor(bin: nat, pressure: bool) returns (p: Bitvec?)
      requires Valid() && u.Sub? && bin < cfg.nPtr
      modifies this
      ensures Valid() && u.Sub? && Contents == old(Contents) && parts == old(parts)
      ensures fresh(Repr - old(Repr)) && iDivisor == old(iDivisor)
      ensures p == u.apSub[bin] && (!pressure ==> p != null)
    {
      if u.apSub[bin] == null {
        var ok := Malloc(pressure);
        if !ok {
          return null;
        }
        var q := new Bitvec(cfg, iDivisor);
        u := Sub(u.apSub[bin := q]);
        Repr := Repr + q.Repr;
      }
      p := u.apSub[bin];
    }

    method SetInSub(i: nat, pressure: bool) returns (rc: Rc)
      requires Valid() && u.Sub? && 1 <= i <= iSize
      modifies Repr
      ensures Valid() && u.Sub? && fresh(Repr - old(Repr))
      ensures rc.Ok? ==> Contents == old(Contents) + {i}
      ensures !pressure ==> rc.Ok?
      ensures Contents <= old(Contents) + {i}
      decreases iSize, 0, 4
    {
      var bin := Bin(i, iDivisor);
      ghost var before := parts;
      rc := SetAt(bin, Rem(i, iDivisor), pressure);
      JoinedShrinks(old(Contents), iSize, iDivisor, before, i, parts[bin]);
    }

    /** Set value r of the sub-bitvec at `bin`, creating it if need be. */
    method SetAt(bin: nat, r: nat, pressure: bool) returns (rc: Rc)
      requires Valid() && u.Sub? && bin < cfg.nPtr && 1 <= r <= iDivisor < iSize
      modifies Repr
      ensures Valid() && u.Sub? && fresh(Repr - old(Repr)) && iDivisor == old(iDivisor)
      ensures parts == old(parts)[bin := parts[bin]] && parts[bin] <= old(parts)[bin] + {r}
      ensures rc.Ok? ==> parts[bin] == old(parts)[bin] + {r}
      ensures !pressure ==> rc.Ok?
      ensures Contents == JoinOf(iSize, iDivisor, parts)
      decreases iSize, 0, 3
    {
      ghost var before := parts;
      var p := SubFor(bin, pressure);
      if p == null {
        assert parts == before[bin := parts[bin]];
        assert Contents == JoinOf(iSize, iDivisor, parts);
        return NoMem;
      }
      rc := SetExisting(bin, r, pressure);
    }

    method SetExisting(bin: nat, r: nat, pressure: bool) returns (rc: Rc)
      requires Valid() && u.Sub? && bin < cfg.nPtr && u.apSub[bin] != null && 1 <= r <= iDivisor < iSize
      modifies Repr
      ensures Valid() && u.Sub? && fresh(Repr - old(Repr)) && iDivisor == old(iDivisor)
      ensures parts == old(parts)[bin := parts[bin]] && parts[bin] <= old(parts)[bin] + {r}
      ensures rc.Ok? ==> parts[bin] == old(parts)[bin] + {r}
      ensures !pressure ==> rc.Ok?
      ensures Contents == JoinOf(iSize, iDivisor, parts)
      decreases iSize, 0, 2
    {
      rc := CallSet(bin, r, pressure);
      TakeNote(bin);
    }

    /** The ghost fields after a change to one sub-bitvec. */
    ghost method TakeNote(bin: nat)
      requires this in Repr && cfg.Valid() && iSize < U32_LIMIT && u.Sub? && bin < cfg.nPtr == |u.apSub| == |parts|
      requires u.apSub[bin] != null && SubShape(parts[bin := u.apSub[bin].Contents], Repr + u.apSub[bin].Repr)
      requires forall b :: 0 <= b < cfg.nPtr && u.apSub[b] != null ==> u.apSub[b].Valid()
      modifies `parts, `Repr, `Contents
      ensures Valid() && parts == old(parts)[bin := u.apSub[bin].Contents]
      ensures Repr == old(Repr) + u.apSub[bin].Repr && Contents == JoinOf(iSize, iDivisor, parts)
    {
      hide Layout.NBit;
      hide Joined;
      parts := parts[bin := u.apSub[bin].Contents];
      Repr := Repr + u.apSub[bin].Repr;
      Contents := JoinOf(iSize, iDivisor, parts);
    }

    /** The recursive call; this object has yet to take note of the change. */
    method CallSet(bin: nat, r: nat, pressure: bool) returns (rc: Rc)
      requires Valid() && u.Sub? && bin < cfg.nPtr && u.apSub[bin] != null && 1 <= r <= iDivisor < iSize
      modifies u.apSub[bin].Repr
      ensures u.apSub[bin].Contents <= parts[bin] + {r}
      ensures rc.Ok? ==> u.apSub[bin].Contents == parts[bin] + {r}
      ensures !pressure ==> rc.Ok?
      ensures fresh(u.apSub[bin].Repr - old(u.apSub[bin].Repr))
      ensures SubShape(parts[bin := u.apSub[bin].Contents], Repr + u.apSub[bin].Repr)
      ensures forall b :: 0 <= b < cfg.nPtr && u.apSub[b] != null ==> u.apSub[b].Valid()
      decreases iSize, 0, 0
    {
      rc := u.apSub[bin].Set(r, pressure);
    }

    /** Overwrite the hash table with null pointers and choose the divisor. */
    method Reset()
      requires Valid() && u.Hash?
      modifies this
      ensures Valid() && u.Sub? && Repr == old(Repr) && Contents == {}
    {
      DivisorDivides(iSize, cfg);
      u := Sub(seq(cfg.nPtr, _ => null));
      iDivisor := iSize / cfg.nPtr;
      if iSize % cfg.nPtr != 0 {
        iDivisor := iDivisor + 1;
      }
      if iDivisor < cfg.NBit() {
        iDivisor := cfg.NBit();
      }
      assert iDivisor == Divisor(iSize, cfg);
      Contents, parts := {}, seq(cfg.nPtr, _ => {});
    }

    /** Turn a full hash table into sub-bitvecs and store everything again. */
    method Subdivide(i: nat, pressure: bool) returns (rc: Rc)
      requires Valid() && u.Hash? && 1 <= i <= iSize
      modifies Repr
      ensures Valid() && u.Sub? && fresh(Repr - old(Repr))
      ensures rc.Ok? ==> Contents == old(Contents) + {i}
      ensures !pressure ==> rc.Ok?
      ensures Contents <= old(Contents) + {i}
      decreases iSize, 0, 6
    {
      var aiValues := u.slots;
      ghost var values := Contents;
      ValuesBound(aiValues, iSize);
      rc := Restart(i, pressure);
      rc := Refill(aiValues, rc, values, pressure);
    }

    /** Empty the table, subdivide it and set the new value. */
    method Restart(i: nat, pressure: bool) returns (rc: Rc)
      requires Valid() && u.Hash? && 1 <= i <= iSize
      modifies Repr
      ensures Valid() && u.Sub? && fresh(Repr - old(Repr))
      ensures Contents <= {i} && (rc.Ok? ==> Contents == {i}) && (!pressure ==> rc.Ok?)
      decreases iSize, 0, 5
    {
      Reset();
      rc := SetInSub(i, pressure);
      assert {} + {i} == {i};
    }

    /** Set all the values of an old hash table. */
    method Refill(aiValues: seq<nat>, rc0: Rc, ghost values: set<nat>, pressure: bool) returns (rc: Rc)
      requires Valid() && u.Sub? && values == Values(aiValues)
      requires forall s :: 0 <= s < |aiValues| ==> aiValues[s] <= iSize
      modifies Repr
      ensures Valid() && u.Sub? && fresh(Repr - old(Repr))
      ensures Contents <= old(Contents) + values
      ensures rc.Ok? ==> rc0.Ok? && Contents == old(Contents) + values
      ensures !pressure && rc0.Ok? ==> rc.Ok?
      decreases iSize, 0, 5
    {
      rc := rc0;
      for j := 0 to |aiValues|
        invariant Valid() && u.Sub? && fresh(Repr - old(Repr))
        invariant Contents <= old(Contents) + Values(aiValues[..j])
        invariant rc.Ok? ==> rc0.Ok? && Contents == old(Contents) + Values(aiValues[..j])
        invariant !pressure && rc0.Ok? ==> rc.Ok?
      {
        ValuesTake(aiValues, j);
        if aiValues[j] != 0 {
          var rc' := SetInSub(aiValues[j], pressure);
          rc := Or(rc, rc');
        }
      }
      assert aiValues[..|aiValues|] == aiValues;
    }

    /** sqlite3BitvecClear. */
    method Clear(i: nat)
      requires Valid() && 1 <= i <= iSize
      modifies Repr
      ensures Valid() && Repr == old(Repr) && Contents == old(Contents) - {i}
      decreases iSize
    {
      if iDivisor != 0 {
        ClearInSub(i);
        return;
      }
      if iSize <= cfg.NBit() {
        ClearBit(i);
      } else {
        var slots;
        slots, nSet := Rebuild(u.slots, i);
        u := Hash(slots);
        Contents := Contents - {i};
      }
    }

    method ClearInSub(i: nat)
      requires Valid() && u.Sub? && 1 <= i <= iSize
      modifies Repr
      ensures Valid() && Repr == old(Repr) && Contents == old(Contents) - {i}
      decreases iSize, 0, 1
    {
      var bin, r := Bin(i, iDivisor), Rem(i, iDivisor);
      JoinedUpdate(Contents, iSize, iDivisor, parts, i, parts[bin] - {r});
      ghost var now := parts[bin := parts[bin] - {r}];
      if u.apSub[bin] != null {
        CallClear(bin, r);
      } else {
        assert parts[bin] - {r} == {} == parts[bin];
        assert now == parts;
      }
      NoteCleared(now, Contents - {i});
    }

    /** The ghost fields after one bit has been cleared. */
    ghost method NoteCleared(now: seq<set<nat>>, contents: set<nat>)
      requires this in Repr && cfg.Valid() && iSize < U32_LIMIT && u.Sub? && |u.apSub| == |parts| == |now| == cfg.nPtr
      requires SubShape(now, Repr) && Joined(contents, iSize, iDivisor, now)
      requires forall b :: 0 <= b < cfg.nPtr && u.apSub[b] != null ==> u.apSub[b].Valid()
      modifies `parts, `Contents
      ensures Valid() && parts == now && Contents == contents
    {
      parts := now;
      Contents := contents;
    }

    /** The recursive call; this object has yet to take note of the change. */
    method CallClear(bin: nat, r: nat)
      requires Valid() && u.Sub? && bin < cfg.nPtr && u.apSub[bin] != null && 1 <= r <= iDivisor < iSize
      modifies u.apSub[bin].Repr
      ensures u.apSub[bin].Contents == parts[bin] - {r} && u.apSub[bin].Repr == old(u.apSub[bin].Repr)
      ensures SubShape(parts[bin := parts[bin] - {r}], Repr)
      ensures forall b :: 0 <= b < cfg.nPtr && u.apSub[b] != null ==> u.apSub[b].Valid()
      decreases iSize, 0, 0
    {
      u.apSub[bin].Clear(r);
    }

    method ClearBit(i: nat)
      requires Valid() && u.Bitmap? && 1 <= i <= iSize
      modifies this
      ensures Valid() && Repr == old(Repr) && Contents == old(Contents) - {i}
    {
      var j := i - 1;
      BitmapUpdate(u.bits, iSize, i, j / 8, j % 8);
      u := Bitmap(u.bits[j / 8 := Cut(u.bits[j / 8], j % 8)]);
      Contents := Contents - {i};
    }
  }

  // -------------------------------------------------------------- whole programs

  datatype Op = SetBit(i: nat) | ClearBit(i: nat)

  /** What a program of operations leaves in a linear array of bits. */
  function Linear(ops: seq<Op>): set<nat> {
    if ops == [] then {} else
    var before := Linear(ops[..|ops| - 1]);
    match ops[|ops| - 1]
    case SetBit(i) => before + {i}
    case ClearBit(i) => before - {i}
  }

  datatype Answer = OutOfMemory | Is(bit: bool)

  /** Run a program on a new Bitvec and test one bit, as the built-in self-test
      does: unless an allocation fails, the Bitvec and the linear array agree. */
  method RunProgram(cfg: Layout, sz: nat, ops: seq<Op>, i: nat, pressure: bool) returns (r: Answer)
    requires cfg.Valid() && sz < U32_LIMIT && i < U32_LIMIT
    requires forall k :: 0 <= k < |ops| ==> 1 <= ops[k].i <= sz
    ensures r.Is? ==> (r.bit <==> i in Linear(ops))
    ensures !pressure ==> r.Is?
  {
    var p := new Bitvec(cfg, sz);
    for pc := 0 to |ops|
      invariant p.Valid() && fresh(p.Repr) && p.iSize == sz
      invariant p.Contents == Linear(ops[..pc])
    {
      assert ops[..pc + 1][..pc] == ops[..pc];
      match ops[pc]
      case SetBit(k) =>
        var rc := p.Set(k, pressure);
        if rc.NoMem? {
          return OutOfMemory;
        }
      case ClearBit(k) =>
        p.Clear(k);
    }
    assert ops[..|ops|] == ops;
    var bit := p.Test(i);
    return Is(bit);
  }

  /** A program that carries on after failed allocations may lose bits, but never
      makes up any: a bit that tests true is set in the linear array. */
  method RunThroughFailures(cfg: Layout, sz: nat, ops: seq<Op>, i: nat, pressure: bool) returns (bit: bool)
    requires cfg.Valid() && sz < U32_LIMIT && i < U32_LIMIT
    requires forall k :: 0 <= k < |ops| ==> 1 <= ops[k].i <= sz
    ensures bit ==> i in Linear(ops)
    ensures !pressure ==> (bit <==> i in Linear(ops))
  {
    var p := new Bitvec(cfg, sz);
    for pc := 0 to |ops|
      invariant p.Valid() && fresh(p.Repr) && p.iSize == sz
      invariant p.Contents <= Linear(ops[..pc]) && (!pressure ==> p.Contents == Linear(ops[..pc]))
    {
      assert ops[..pc + 1][..pc] == ops[..pc];
      match ops[pc]
      case SetBit(k) =>
        var _ := p.Set(k, pressure);
      case ClearBit(k) =>
        p.Clear(k);
    }
    assert ops[..|ops|] == ops;
    bit := p.Test(i);
  }
}
