/** Strings as section 7 of RFC 8259 writes them, and what the parser makes of them. */
module JsonEscapes {
  import opened Options
  import opened Json
  import opened JsonBuffers

  // ------------------------------------------------------------------------ UTF-8

  /** The number that UTF-8 bytes stand for, by the bits of section 3 of RFC 3629. */
  function Utf8Value(t: string): nat
    requires 1 <= |t| <= 4
  {
    var lead := t[0] as nat;
    if |t| == 1 then lead
    else if |t| == 2 then lead % 32 * 64 + t[1] as nat % 64
    else if |t| == 3 then (lead % 16 * 64 + t[1] as nat % 64) * 64 + t[2] as nat % 64
    else ((lead % 8 * 64 + t[1] as nat % 64) * 64 + t[2] as nat % 64) * 64 + t[3] as nat % 64
  }

  /** The bytes written stand for the code point, as few as can, with the marks
      of continuation bytes. */
  lemma Utf8Means(cp: nat)
    requires cp < 0x110000
    ensures |Utf8(cp)| == (if cp < 0x80 then 1 else if cp < 0x800 then 2 else if cp < 0x10000 then 3 else 4)
    ensures Utf8Value(Utf8(cp)) == cp
    ensures forall k :: 1 <= k < |Utf8(cp)| ==> 0x80 <= Utf8(cp)[k] as nat < 0xc0
  {
    Continuations(cp);
    if 0x10000 <= cp {
      FourBytes(cp, cp / 64, cp / 64 / 64);
    } else if 0x800 <= cp {
      ThreeBytes(cp, cp / 64);
    } else if 0x80 <= cp {
      TwoBytes(cp);
    }
  }

  lemma Continuations(cp: nat)
    requires cp < 0x110000
    ensures forall k :: 1 <= k < |Utf8(cp)| ==> 0x80 <= Utf8(cp)[k] as nat < 0xc0
  {
  }

  lemma TwoBytes(cp: nat)
    requires 0x80 <= cp < 0x800
    ensures Utf8Value(Utf8(cp)) == cp
  {
    Six(cp);
  }

  lemma ThreeBytes(cp: nat, c: nat)
    requires 0x800 <= cp < 0x10000 && c == cp / 64
    ensures Utf8Value(Utf8(cp)) == cp
  {
    Six(cp);
    Six(c);
    assert (0xe0 + c / 64) % 16 == c / 64;
    QuotientsNest(cp);
  }

  lemma FourBytes(cp: nat, c: nat, d: nat)
    requires 0x10000 <= cp < 0x110000 && c == cp / 64 && d == c / 64
    ensures Utf8Value(Utf8(cp)) == cp
  {
    Six(cp);
    Six(c);
    Six(d);
    assert (0xf0 + d / 64) % 8 == d / 64;
    QuotientsNest(cp);
  }

  lemma Six(x: nat)
    ensures (0x80 + x % 64) % 64 == x % 64 && x == x / 64 * 64 + x % 64
  {
  }

  lemma QuotientsNest(x: nat)
    ensures x / 4096 == x / 64 / 64 && x / 262144 == x / 64 / 64 / 64
  {
  }

  // ------------------------------------------------------------ hexadecimal digits

  predicate IsHex(c: char) {
    HexDigit(c).Some?
  }

  predicate IsHex4(h: string) {
    |h| == 4 && IsHex(h[0]) && IsHex(h[1]) && IsHex(h[2]) && IsHex(h[3])
  }

  /** The number four digits of either case stand for. */
  function HexNumber(h: string): (n: nat)
    requires IsHex4(h)
    ensures n < 0x10000
  {
    ((HexDigit(h[0]).value * 16 + HexDigit(h[1]).value) * 16 + HexDigit(h[2]).value) * 16 + HexDigit(h[3]).value
  }

  /** parse_hex4 reads four digits as their number, and anything else as zero. */
  lemma Hex4Reads(s: string, i: nat)
    requires i + 4 <= |s|
    ensures Hex4(s, i) == if IsHex4(s[i..i + 4]) then HexNumber(s[i..i + 4]) else 0
    ensures Hex4(s, i) < 0x10000
  {
    var a, b, c, d := HexDigit(s[i]), HexDigit(s[i + 1]), HexDigit(s[i + 2]), HexDigit(s[i + 3]);
    assert HexValue(s, i, 0) == Some(0);
    assert HexValue(s, i + 1, 1) == a;
    assert HexValue(s, i + 2, 2) == if a.Some? && b.Some? then Some(16 * a.value + b.value) else None;
    assert HexValue(s, i + 3, 3) ==
           if a.Some? && b.Some? && c.Some? then Some(16 * (16 * a.value + b.value) + c.value) else None;
    assert HexValue(s, i + 4, 4) ==
           if a.Some? && b.Some? && c.Some? && d.Some?
           then Some(16 * (16 * (16 * a.value + b.value) + c.value) + d.value) else None;
  }

  predicate IsHigh(u: nat) {
    0xd800 <= u <= 0xdbff
  }

  predicate IsLow(u: nat) {
    0xdc00 <= u <= 0xdfff
  }

  function Combined(high: nat, low: nat): nat
    requires IsHigh(high) && IsLow(low)
  {
    0x10000 + (high - 0xd800) * 0x400 + (low - 0xdc00)
  }

  // ------------------------------------------------------------------- one literal

  /** Four digits follow \u at i, and they are no half of a surrogate pair. */
  predicate IsUnit(s: string, i: nat, end: nat)
    requires end <= |s|
  {
    && i + 6 <= end && IsHex4(s[i + 2..i + 6])
    && !IsHigh(HexNumber(s[i + 2..i + 6])) && !IsLow(HexNumber(s[i + 2..i + 6]))
  }

  /** Two literals at i make up a surrogate pair. */
  predicate IsPair(s: string, i: nat, end: nat)
    requires end <= |s|
  {
    && i + 12 <= end && IsHex4(s[i + 2..i + 6]) && IsHigh(HexNumber(s[i + 2..i + 6]))
    && s[i + 6] == '\\' && s[i + 7] == 'u' && IsHex4(s[i + 8..i + 12]) && IsLow(HexNumber(s[i + 8..i + 12]))
  }

  /** What becomes of every \u literal.  It is read as section 7 says exactly if its
      four characters, or eight for a pair, are digits of a scalar value.  With room
      for four characters that are not all digits it reads as NUL; otherwise, that
      is for an unpaired surrogate or a literal cut short, it fails. */
  lemma LiteralExactly(s: string, i: nat, end: nat)
    requires end <= |s|
    ensures IsUnit(s, i, end) ==> Utf16(s, i, end) == Parsed(HexNumber(s[i + 2..i + 6]), i + 6)
    ensures IsPair(s, i, end) ==>
              Utf16(s, i, end) == Parsed(Combined(HexNumber(s[i + 2..i + 6]), HexNumber(s[i + 8..i + 12])), i + 12)
    ensures i + 6 <= end && !IsHex4(s[i + 2..i + 6]) ==> Utf16(s, i, end) == Parsed(0, i + 6)
    ensures !IsUnit(s, i, end) && !IsPair(s, i, end) && !(i + 6 <= end && !IsHex4(s[i + 2..i + 6])) ==>
              Utf16(s, i, end) == Failed
  {
    if i + 6 <= end {
      Hex4Reads(s, i + 2);
      if IsHex4(s[i + 2..i + 6]) && IsHigh(HexNumber(s[i + 2..i + 6])) {
        HighExactly(s, i, end, HexNumber(s[i + 2..i + 6]));
      }
    }
  }

  lemma HighExactly(s: string, i: nat, end: nat, high: nat)
    requires i + 6 <= end <= |s| && IsHex4(s[i + 2..i + 6]) && HexNumber(s[i + 2..i + 6]) == Hex4(s, i + 2) == high
    requires IsHigh(high)
    ensures IsPair(s, i, end) ==> Utf16(s, i, end) == Parsed(Combined(high, HexNumber(s[i + 8..i + 12])), i + 12)
    ensures !IsPair(s, i, end) ==> Utf16(s, i, end) == Failed
  {
    if i + 12 <= end {
      Hex4Reads(s, i + 8);
      if IsPair(s, i, end) {
        CombinedIs(high, HexNumber(s[i + 8..i + 12]));
      }
    }
  }

  lemma CombinedIs(high: nat, low: nat)
    requires IsHigh(high) && IsLow(low)
    ensures 0x10000 + high % 0x400 * 0x400 + low % 0x400 == Combined(high, low)
  {
    assert high % 0x400 == high - 0xd800 && low % 0x400 == low - 0xdc00;
  }

  /** A literal that is read stands for a character, never for half a surrogate pair. */
  lemma NeverSurrogate(s: string, i: nat, end: nat)
    requires end <= |s| && Utf16(s, i, end).Parsed?
    ensures !IsHigh(Utf16(s, i, end).value) && !IsLow(Utf16(s, i, end).value)
  {
  }

  /** The string "\uZZZZ" is accepted, and is empty. */
  lemma NotHexadecimal(strict: bool)
    ensures Parse("\"\\uZZZZ\"", strict) == Some(Text(""))
  {
    var t := "\"\\uZZZZ\"";
    var s := t + "\0";
    NoNulKept(t, 0);
    assert UpToNul(t) == t;
    assert s[1] == '\\' && s[2] == 'u' && s[3] == s[4] == s[5] == s[6] == 'Z' && s[7] == '"' && s[8] == '\0';
    BadLiteral(s, 0);
    assert Blanks(s, 8) == |s|;
    FirstDecides(s, 0);
    NoBom(s);
  }

  /** A quoted literal with a character that is no digit, nor a quote or backslash. */
  lemma BadLiteral(s: string, i: nat)
    requires i + 7 < |s| && s[i] == s[i + 7] == '"' && s[i + 1] == '\\' && s[i + 2] == 'u'
    requires forall k :: i + 3 <= k < i + 7 ==> s[k] != '"' && s[k] != '\\'
    requires !IsHex4(s[i + 3..i + 7])
    ensures ParseString(s, i) == Parsed("", i + 8)
  {
    assert StringEnd(s, i + 3) == StringEnd(s, i + 4) == StringEnd(s, i + 5) == StringEnd(s, i + 6) == Some(i + 7);
    LiteralExactly(s, i + 1, i + 7);
    assert [] + Utf8(0) == "\0";
    assert Unescaped(s, i + 7, i + 7, "\0") == Some("\0");
    assert UpToNul("\0") == "";
  }

  // ------------------------------------------------------------------ whole strings

  /** A part of a string: how it is written, and the bytes it stands for. */
  datatype Piece = Piece(written: string, bytes: string)

  predicate IsRaw(p: Piece) {
    |p.written| == 1 && p.written[0] != '"' && p.written[0] != '\\' && p.bytes == p.written
  }

  /** The two-character escapes of section 7 of RFC 8259: c after a backslash
      stands for the byte b. */
  predicate Abbreviates(c: char, b: nat) {
    || (c == '"' && b == 0x22) || (c == '\\' && b == 0x5c) || (c == '/' && b == 0x2f) || (c == 'b' && b == 0x08)
    || (c == 'f' && b == 0x0c) || (c == 'n' && b == 0x0a) || (c == 'r' && b == 0x0d) || (c == 't' && b == 0x09)
  }

  lemma ShortEscapes(c: char, b: char)
    ensures Unescape(c) == Some(b) <==> Abbreviates(c, b as nat)
  {
  }

  predicate IsShort(p: Piece) {
    && |p.written| == 2 && p.written[0] == '\\'
    && |p.bytes| == 1 && Abbreviates(p.written[1], p.bytes[0] as nat)
  }

  predicate IsUnitPiece(p: Piece) {
    && |p.written| == 6 && p.written[0] == '\\' && p.written[1] == 'u'
    && IsUnit(p.written, 0, 6) && p.bytes == Utf8(HexNumber(p.written[2..6]))
  }

  predicate IsPairPiece(p: Piece) {
    && |p.written| == 12 && p.written[0] == '\\' && p.written[1] == 'u'
    && IsPair(p.written, 0, 12) && p.bytes == Utf8(Combined(HexNumber(p.written[2..6]), HexNumber(p.written[8..12])))
  }

  /** What the parser takes for a part of a string: a character as it is, a
      backslash and one character, a \u literal, or two of them for a character
      beyond U+FFFF. */
  predicate IsPiece(p: Piece) {
    IsRaw(p) || IsShort(p) || IsUnitPiece(p) || IsPairPiece(p)
  }

  /** What section 7 of RFC 8259 allows: the same, but characters below U+0020 must
      be escaped.  (That bytes from 128 on form UTF-8 is not its concern.) */
  predicate IsAllowed(p: Piece) {
    IsPiece(p) && (IsRaw(p) ==> p.written[0] as int >= 32)
  }

  ghost predicate AreAllowed(ps: seq<Piece>) {
    forall k {:trigger IsAllowed(ps[k])} :: 0 <= k < |ps| ==> IsAllowed(ps[k])
  }

  ghost predicate ArePieces(ps: seq<Piece>) {
    forall k {:trigger IsPiece(ps[k])} :: 0 <= k < |ps| ==> IsPiece(ps[k])
  }

  /** The text of the pieces from k on. */
  function Spelled(ps: seq<Piece>, k: nat): string
    decreases |ps| - k
  {
    if k >= |ps| then "" else ps[k].written + Spelled(ps, k + 1)
  }

  function Bytes(ps: seq<Piece>, k: nat): string
    decreases |ps| - k
  {
    if k >= |ps| then "" else ps[k].bytes + Bytes(ps, k + 1)
  }

  /** Every \u that the second pass meets from i on has four digits. */
  ghost predicate HexOk(s: string, i: nat, end: nat)
    requires end < |s|
    decreases end - i
  {
    if i >= end then true
    else if s[i] != '\\' then HexOk(s, i + 1, end)
    else if s[i + 1] != 'u' then HexOk(s, i + 2, end)
    else i + 6 <= end && IsHex4(s[i + 2..i + 6]) && HexOk(s, i + 6, end)
  }

  /** Both passes go over a piece from i to j. */
  ghost predicate Passed(s: string, i: nat, j: nat, end: nat, done: string, bytes: string)
    requires end < |s|
  {
    && StringEnd(s, i) == StringEnd(s, j)
    && Unescaped(s, i, end, done) == Unescaped(s, j, end, done + bytes)
    && (HexOk(s, i, end) <==> HexOk(s, j, end))
  }

  lemma PiecePassed(p: Piece, s: string, i: nat, end: nat, done: string)
    requires IsPiece(p) && Holds(s, i, p.written) && i + |p.written| <= end < |s|
    ensures Passed(s, i, i + |p.written|, end, done, p.bytes)
  {
    if IsRaw(p) {
      HoldsChar(s, i, p.written, 0);
      assert p.bytes == [s[i]];
    } else if IsShort(p) {
      HoldsChar(s, i, p.written, 0);
      HoldsChar(s, i, p.written, 1);
      ShortEscapes(p.written[1], p.bytes[0]);
      assert p.bytes == [p.bytes[0]];
    } else if IsUnitPiece(p) {
      UnitPassed(p, s, i, end, done);
    } else {
      PairPassed(p, s, i, end, done);
    }
  }

  /** Digits are neither quotes nor backslashes. */
  lemma DigitsInString(s: string, i: nat)
    requires i + 4 <= |s| && IsHex4(s[i..i + 4])
    ensures StringEnd(s, i) == StringEnd(s, i + 4)
  {
    var h := s[i..i + 4];
    assert s[i] == h[0] && s[i + 1] == h[1] && s[i + 2] == h[2] && s[i + 3] == h[3];
    assert StringEnd(s, i + 1) == StringEnd(s, i + 2) == StringEnd(s, i + 3) == StringEnd(s, i + 4);
  }

  /** Four characters of a text that stands at i. */
  lemma HoldsDigits(s: string, i: nat, t: string, k: nat)
    requires Holds(s, i, t) && k + 4 <= |t|
    ensures s[i + k..i + k + 4] == t[k..k + 4]
  {
    assert s[i..i + |t|] == t;
    SliceOfSlice(s, i, |t|, k, k + 4);
    assert i + (k + 4) == i + k + 4;
  }

  lemma SliceOfSlice(s: string, i: nat, n: nat, a: nat, b: nat)
    requires i + n <= |s| && a <= b <= n
    ensures s[i..i + n][a..b] == s[i + a..i + b]
  {
    var r := s[i..i + n];
    forall k | 0 <= k < b - a ensures r[a..b][k] == s[i + a..i + b][k] {
      assert r[a + k] == s[i + a + k];
    }
  }

  lemma UnitPassed(p: Piece, s: string, i: nat, end: nat, done: string)
    requires IsUnitPiece(p) && Holds(s, i, p.written) && i + 6 <= end < |s|
    ensures Passed(s, i, i + 6, end, done, p.bytes)
  {
    HoldsChar(s, i, p.written, 0);
    HoldsChar(s, i, p.written, 1);
    HoldsDigits(s, i, p.written, 2);
    DigitsInString(s, i + 2);
    UnitStep(s, i, end, done);
  }

  lemma UnitStep(s: string, i: nat, end: nat, done: string)
    requires end < |s| && IsUnit(s, i, end) && s[i] == '\\' && s[i + 1] == 'u'
    ensures Unescaped(s, i, end, done) == Unescaped(s, i + 6, end, done + Utf8(HexNumber(s[i + 2..i + 6])))
  {
    LiteralExactly(s, i, end);
  }

  lemma PairPassed(p: Piece, s: string, i: nat, end: nat, done: string)
    requires IsPairPiece(p) && Holds(s, i, p.written) && i + 12 <= end < |s|
    ensures Passed(s, i, i + 12, end, done, p.bytes)
  {
    HoldsChar(s, i, p.written, 0);
    HoldsChar(s, i, p.written, 1);
    HoldsDigits(s, i, p.written, 2);
    HoldsChar(s, i, p.written, 6);
    HoldsChar(s, i, p.written, 7);
    HoldsDigits(s, i, p.written, 8);
    LiteralExactly(s, i, end);
    assert IsPair(s, i, end);
    DigitsInString(s, i + 2);
    DigitsInString(s, i + 8);
  }

  lemma {:induction false} PiecesPassed(ps: seq<Piece>, k: nat, s: string, i: nat, end: nat, done: string)
    requires ArePieces(ps) && k <= |ps| && Holds(s, i, Spelled(ps, k)) && end == i + |Spelled(ps, k)| < |s|
    requires s[end] == '"'
    ensures StringEnd(s, i) == Some(end) && Unescaped(s, i, end, done) == Some(done + Bytes(ps, k)) && HexOk(s, i, end)
    decreases |ps| - k
  {
    if k < |ps| {
      var p := ps[k];
      HoldsParts(s, i, p.written, Spelled(ps, k + 1));
      assert IsPiece(p);
      PiecePassed(p, s, i, end, done);
      PiecesPassed(ps, k + 1, s, i + |p.written|, end, done + p.bytes);
      assert done + p.bytes + Bytes(ps, k + 1) == done + (p.bytes + Bytes(ps, k + 1));
    } else {
      assert done + "" == done;
    }
  }

  /** Every string made of such pieces, which takes in all that section 7 of RFC
      8259 allows, is read as the bytes its pieces stand for, up to the first NUL
      among them. */
  lemma StringRead(ps: seq<Piece>, s: string, i: nat)
    requires ArePieces(ps) && Holds(s, i, "\"" + Spelled(ps, 0) + "\"")
    ensures i < |s| && ParseString(s, i) == Parsed(UpToNul(Bytes(ps, 0)), i + |Spelled(ps, 0)| + 2)
    ensures HexOk(s, i + 1, i + |Spelled(ps, 0)| + 1)
  {
    var end := Quotes(Spelled(ps, 0), s, i);
    PiecesPassed(ps, 0, s, i + 1, end, []);
    assert [] + Bytes(ps, 0) == Bytes(ps, 0);
  }

  lemma {:induction false} SpelledRest(p: Piece, ps: seq<Piece>, k: nat)
    ensures Spelled([p] + ps, k + 1) == Spelled(ps, k)
    decreases |ps| - k
  {
    if k < |ps| {
      SpelledRest(p, ps, k + 1);
    }
  }

  /** The piece at i, in a text that both passes accept and whose literals have digits. */
  lemma PieceAt(s: string, i: nat, end: nat, done: string) returns (p: Piece)
    requires i < end < |s| && StringEnd(s, i) == Some(end) && Unescaped(s, i, end, done).Some? && HexOk(s, i, end)
    ensures IsPiece(p) && 0 < |p.written| <= end - i && s[i..i + |p.written|] == p.written
  {
    if s[i] != '\\' {
      p := Piece([s[i]], [s[i]]);
    } else if s[i + 1] != 'u' {
      p := Piece(s[i..i + 2], [Unescape(s[i + 1]).value]);
      ShortEscapes(s[i + 1], p.bytes[0]);
    } else {
      LiteralExactly(s, i, end);
      if IsUnit(s, i, end) {
        p := UnitAt(s, i, end);
      } else {
        p := PairAt(s, i, end);
      }
    }
  }

  lemma UnitAt(s: string, i: nat, end: nat) returns (p: Piece)
    requires end <= |s| && IsUnit(s, i, end) && s[i] == '\\' && s[i + 1] == 'u'
    ensures IsUnitPiece(p) && p.written == s[i..i + 6]
  {
    var w := s[i..i + 6];
    SliceOfSlice(s, i, 6, 2, 6);
    p := Piece(w, Utf8(HexNumber(w[2..6])));
  }

  lemma PairAt(s: string, i: nat, end: nat) returns (p: Piece)
    requires end <= |s| && IsPair(s, i, end) && s[i] == '\\' && s[i + 1] == 'u'
    ensures IsPairPiece(p) && p.written == s[i..i + 12]
  {
    var w := s[i..i + 12];
    SliceOfSlice(s, i, 12, 2, 6);
    SliceOfSlice(s, i, 12, 8, 12);
    assert w[6] == s[i + 6];
    assert w[7] == s[i + 7];
    p := Piece(w, Utf8(Combined(HexNumber(w[2..6]), HexNumber(w[8..12]))));
  }

  lemma {:induction false} Decomposed(s: string, i: nat, end: nat, done: string) returns (ps: seq<Piece>)
    requires i <= end < |s| && StringEnd(s, i) == Some(end) && Unescaped(s, i, end, done).Some? && HexOk(s, i, end)
    ensures ArePieces(ps) && s[i..end] == Spelled(ps, 0)
    decreases end - i
  {
    ps := [];
    if i < end {
      var p := PieceAt(s, i, end, done);
      PiecePassed(p, s, i, end, done);
      var rest := Decomposed(s, i + |p.written|, end, done + p.bytes);
      ps := [p] + rest;
      OnePieceMore(p, rest, s, i, end);
    }
  }

  lemma OnePieceMore(p: Piece, rest: seq<Piece>, s: string, i: nat, end: nat)
    requires IsPiece(p) && ArePieces(rest) && i + |p.written| <= end <= |s|
    requires s[i..i + |p.written|] == p.written && s[i + |p.written|..end] == Spelled(rest, 0)
    ensures ArePieces([p] + rest) && s[i..end] == Spelled([p] + rest, 0)
  {
    SpelledRest(p, rest, 0);
    assert s[i..end] == s[i..i + |p.written|] + s[i + |p.written|..end];
    forall k | 0 <= k < |rest| + 1 ensures IsPiece(([p] + rest)[k]) {
      assert k > 0 ==> IsPiece(rest[k - 1]);
    }
  }

  predicate NoControl(t: string) {
    forall k :: 0 <= k < |t| ==> t[k] as int >= 32
  }

  lemma AllowedNoControl(p: Piece)
    requires IsPiece(p)
    ensures IsAllowed(p) <==> NoControl(p.written)
  {
    hide HexDigit;
    if IsUnitPiece(p) {
      HexNoControl(p.written, 2);
    } else if IsPairPiece(p) {
      HexNoControl(p.written, 2);
      HexNoControl(p.written, 8);
    }
  }

  lemma HexNoControl(t: string, k: nat)
    requires k + 4 <= |t| && IsHex4(t[k..k + 4])
    ensures forall j :: k <= j < k + 4 ==> t[j] as int >= 32
  {
    var h := t[k..k + 4];
    assert t[k] == h[0] && t[k + 1] == h[1] && t[k + 2] == h[2] && t[k + 3] == h[3];
  }

  lemma NoControlParts(a: string, b: string)
    ensures NoControl(a + b) <==> NoControl(a) && NoControl(b)
  {
    if NoControl(a + b) {
      forall k | 0 <= k < |a| ensures a[k] as int >= 32 {
        assert (a + b)[k] == a[k];
      }
      forall k | 0 <= k < |b| ensures b[k] as int >= 32 {
        assert (a + b)[|a| + k] == b[k];
      }
    }
  }

  lemma NoControlInNothing()
    ensures NoControl("")
  {
  }

  /** The pieces are allowed exactly if no control character is among their text. */
  lemma {:induction false} AllAllowed(ps: seq<Piece>, k: nat)
    requires ArePieces(ps) && k <= |ps|
    ensures NoControl(Spelled(ps, k)) <==> forall j {:trigger IsAllowed(ps[j])} :: k <= j < |ps| ==> IsAllowed(ps[j])
    decreases |ps| - k
  {
    hide IsPiece;
    hide IsAllowed;
    hide NoControl;
    NoControlInNothing();
    if k < |ps| {
      assert IsPiece(ps[k]);
      AllowedNoControl(ps[k]);
      NoControlParts(ps[k].written, Spelled(ps, k + 1));
      AllAllowed(ps, k + 1);
    }
  }

  /** A string of pieces stands at i. */
  ghost predicate IsSpelled(s: string, i: nat) {
    exists ps: seq<Piece> :: ArePieces(ps) && Holds(s, i, "\"" + Spelled(ps, 0) + "\"")
  }

  /** A string written as section 7 of RFC 8259 allows stands at i. */
  ghost predicate IsSectionSeven(s: string, i: nat) {
    exists ps: seq<Piece> :: ArePieces(ps) && AreAllowed(ps) && Holds(s, i, "\"" + Spelled(ps, 0) + "\"")
  }

  /** The parser accepts the strings section 7 allows, and these are all it accepts
      but for raw control characters and for literals without four digits. */
  lemma AcceptedExactly(s: string, i: nat)
    requires i < |s|
    ensures IsSectionSeven(s, i) <==>
            && ParseString(s, i).Parsed? && HexOk(s, i + 1, ParseString(s, i).next - 1)
            && NoControl(s[i + 1..ParseString(s, i).next - 1])
  {
    if IsSectionSeven(s, i) {
      var ps: seq<Piece> :| ArePieces(ps) && AreAllowed(ps) && Holds(s, i, "\"" + Spelled(ps, 0) + "\"");
      StringRead(ps, s, i);
      AllAllowed(ps, 0);
      BetweenQuotes(s, i, Spelled(ps, 0));
    }
    if ParseString(s, i).Parsed? && HexOk(s, i + 1, ParseString(s, i).next - 1) {
      var end := ParseString(s, i).next - 1;
      var ps := AcceptedPieces(s, i, end);
      AllAllowed(ps, 0);
    }
  }

  /** With raw control characters it is just the digits that matter. */
  lemma AcceptedWithControls(s: string, i: nat)
    requires i < |s|
    ensures IsSpelled(s, i) <==> ParseString(s, i).Parsed? && HexOk(s, i + 1, ParseString(s, i).next - 1)
  {
    if IsSpelled(s, i) {
      var ps: seq<Piece> :| ArePieces(ps) && Holds(s, i, "\"" + Spelled(ps, 0) + "\"");
      StringRead(ps, s, i);
    }
    if ParseString(s, i).Parsed? && HexOk(s, i + 1, ParseString(s, i).next - 1) {
      var _ := AcceptedPieces(s, i, ParseString(s, i).next - 1);
    }
  }

  /** A raw newline in a string is accepted, though section 7 does not allow it. */
  lemma RawNewline()
    ensures ParseString("\"\n\"\0", 0) == Parsed("\n", 3) && !IsSectionSeven("\"\n\"\0", 0)
  {
    var s := "\"\n\"\0";
    assert StringEnd(s, 1) == StringEnd(s, 2) == Some(2);
    assert [] + [s[1]] == "\n";
    assert Unescaped(s, 1, 2, []) == Unescaped(s, 2, 2, "\n") == Some("\n");
    NoNulKept("\n", 0);
    assert UpToNul("\n") == "\n";
    AcceptedExactly(s, 0);
    assert s[1..2][0] == '\n';
  }

  lemma BetweenQuotes(s: string, i: nat, inner: string)
    requires Holds(s, i, "\"" + inner + "\"")
    ensures s[i + 1..i + 1 + |inner|] == inner
  {
    var _ := Quotes(inner, s, i);
  }

  lemma AcceptedPieces(s: string, i: nat, end: nat) returns (ps: seq<Piece>)
    requires i < |s| && ParseString(s, i).Parsed? && end + 1 == ParseString(s, i).next && HexOk(s, i + 1, end)
    ensures i < end < |s| && ArePieces(ps) && s[i + 1..end] == Spelled(ps, 0)
    ensures Holds(s, i, "\"" + Spelled(ps, 0) + "\"")
  {
    EndIsQuote(s, i + 1);
    ps := Decomposed(s, i + 1, end, []);
    InQuotes(s, i, end, Spelled(ps, 0));
  }

  lemma {:induction false} EndIsQuote(s: string, i: nat)
    requires StringEnd(s, i).Some?
    ensures s[StringEnd(s, i).value] == '"'
    decreases |s| - i
  {
    if s[i] != '"' {
      EndIsQuote(s, if s[i] == '\\' then i + 2 else i + 1);
    }
  }

  lemma InQuotes(s: string, i: nat, end: nat, inner: string)
    requires i < end < |s| && s[i] == s[end] == '"' && s[i + 1..end] == inner
    ensures Holds(s, i, "\"" + inner + "\"")
  {
    assert s[i..end + 1] == [s[i]] + s[i + 1..end] + [s[end]];
  }

  // -------------------------------------------------------------- every character

  function HexChar(d: nat, upper: bool): char
    requires d < 16
  {
    if d < 10 then ('0' as nat + d) as char else ((if upper then 'A' else 'a') as nat + d - 10) as char
  }

  function Hex(u: nat, upper: bool): string
    requires u < 0x10000
  {
    [HexChar(u / 4096, upper), HexChar(u / 256 % 16, upper), HexChar(u / 16 % 16, upper), HexChar(u % 16, upper)]
  }

  /** The literal of a character. */
  function PieceOf(cp: nat, upper: bool): Piece
    requires cp < 0x110000
  {
    if cp < 0x10000 then Piece("\\u" + Hex(cp, upper), Utf8(cp))
    else
      var q, r := (cp - 0x10000) / 0x400, (cp - 0x10000) % 0x400;
      Piece("\\u" + Hex(0xd800 + q, upper) + "\\u" + Hex(0xdc00 + r, upper), Utf8(cp))
  }

  lemma HexReadsBack(u: nat, upper: bool)
    requires u < 0x10000
    ensures IsHex4(Hex(u, upper)) && HexNumber(Hex(u, upper)) == u
  {
    DigitReadsBack(u / 4096, upper);
    DigitReadsBack(u / 256 % 16, upper);
    DigitReadsBack(u / 16 % 16, upper);
    DigitReadsBack(u % 16, upper);
    FourDigits(u);
  }

  lemma DigitReadsBack(d: nat, upper: bool)
    requires d < 16
    ensures HexDigit(HexChar(d, upper)) == Some(d)
  {
  }

  lemma FourDigits(u: nat)
    ensures u == ((u / 4096 * 16 + u / 256 % 16) * 16 + u / 16 % 16) * 16 + u % 16
  {
    var a := u / 16;
    var b := a / 16;
    Nibbles(u);
    assert u == a * 16 + u % 16 && a == b * 16 + a % 16 && b == b / 16 * 16 + b % 16;
  }

  lemma Nibbles(u: nat)
    ensures u / 256 == u / 16 / 16 && u / 4096 == u / 16 / 16 / 16
  {
  }

  /** Every character has a literal, in either case, and it stands for its UTF-8 bytes. */
  lemma EveryCharacter(cp: nat, upper: bool)
    requires cp < 0x110000 && !IsHigh(cp) && !IsLow(cp)
    ensures IsPiece(PieceOf(cp, upper)) && PieceOf(cp, upper).bytes == Utf8(cp)
  {
    if cp < 0x10000 {
      HexReadsBack(cp, upper);
      OneUnit(Hex(cp, upper), PieceOf(cp, upper));
    } else {
      var q, r := (cp - 0x10000) / 0x400, (cp - 0x10000) % 0x400;
      HexReadsBack(0xd800 + q, upper);
      HexReadsBack(0xdc00 + r, upper);
      TwoUnits(Hex(0xd800 + q, upper), Hex(0xdc00 + r, upper), PieceOf(cp, upper));
    }
  }

  lemma OneUnit(h: string, p: Piece)
    requires IsHex4(h) && !IsHigh(HexNumber(h)) && !IsLow(HexNumber(h)) && p == Piece("\\u" + h, Utf8(HexNumber(h)))
    ensures IsUnitPiece(p)
  {
    assert p.written[2..6] == h;
  }

  lemma TwoUnits(h: string, l: string, p: Piece)
    requires IsHex4(h) && IsHigh(HexNumber(h)) && IsHex4(l) && IsLow(HexNumber(l))
    requires p == Piece("\\u" + h + "\\u" + l, Utf8(Combined(HexNumber(h), HexNumber(l))))
    ensures IsPairPiece(p)
  {
    assert p.written[2..6] == h && p.written[8..12] == l && p.written[6] == '\\' && p.written[7] == 'u';
  }

  // ------------------------------------------------------- a string on its own

  lemma {:induction false} HexValueLocal(t: string, s: string, i: nat, k: nat, n: nat)
    requires Holds(s, i, t) && n <= k <= |t| && n <= 4
    ensures HexValue(s, i + k, n) == HexValue(t, k, n)
    decreases n
  {
    if n > 0 {
      HexValueLocal(t, s, i, k - 1, n - 1);
      HoldsChar(s, i, t, k - 1);
    }
  }

  function Shifted<T>(r: Parsed<T>, i: nat): Parsed<T> {
    match r
    case Failed => Failed
    case Parsed(x, next) => Parsed(x, next + i)
  }

  lemma LiteralLocal(t: string, s: string, i: nat, k: nat, end: nat)
    requires Holds(s, i, t) && k <= end <= |t|
    ensures Utf16(s, i + k, i + end) == Shifted(Utf16(t, k, end), i)
  {
    hide HexValue;
    if k + 6 <= end {
      HexValueLocal(t, s, i, k + 6, 4);
      assert i + (k + 6) == (i + k + 2) + 4;
      if k + 12 <= end {
        HoldsChar(s, i, t, k + 6);
        HoldsChar(s, i, t, k + 7);
        HexValueLocal(t, s, i, k + 12, 4);
        assert i + (k + 12) == (i + k + 8) + 4;
      }
    }
  }

  lemma {:induction false} UnescapedLocal(t: string, s: string, i: nat, k: nat, end: nat, done: string)
    requires Holds(s, i, t) && k <= end < |t|
    ensures Unescaped(s, i + k, i + end, done) == Unescaped(t, k, end, done)
    decreases end - k
  {
    if k < end {
      HoldsChar(s, i, t, k);
      HoldsChar(s, i, t, k + 1);
      if t[k] != '\\' {
        UnescapedLocal(t, s, i, k + 1, end, done + [t[k]]);
      } else if t[k + 1] == 'u' {
        LiteralLocal(t, s, i, k, end);
        var r := Utf16(t, k, end);
        if r.Parsed? {
          UnescapedLocal(t, s, i, r.next, end, done + Utf8(r.value));
        }
      } else if Unescape(t[k + 1]).Some? {
        ShortLocal(t, s, i, k, end, done);
      }
    }
  }

  lemma ShortLocal(t: string, s: string, i: nat, k: nat, end: nat, done: string)
    requires Holds(s, i, t) && k < end < |t| && s[i + k] == t[k] == '\\' && s[i + k + 1] == t[k + 1] != 'u'
    requires Unescape(t[k + 1]).Some?
    ensures Unescaped(s, i + k, i + end, done) == Unescaped(t, k, end, done)
    decreases end - k, 0
  {
    var c := Unescape(t[k + 1]).value;
    if k + 2 <= end {
      UnescapedLocal(t, s, i, k + 2, end, done + [c]);
    } else {
      assert Unescaped(t, k + 2, end, done + [c]) == Some(done + [c]);
    }
  }

  lemma {:induction false} EndLocal(t: string, s: string, i: nat, k: nat)
    requires Holds(s, i, t)
    ensures StringEnd(t, k).Some? ==> StringEnd(s, i + k) == Some(i + StringEnd(t, k).value)
    ensures StringEnd(s, i + k).Some? && StringEnd(s, i + k).value < i + |t| ==>
              StringEnd(t, k) == Some(StringEnd(s, i + k).value - i)
    decreases |t| - k
  {
    if k < |t| {
      HoldsChar(s, i, t, k);
      if t[k] == '\\' {
        EndLocal(t, s, i, k + 2);
      } else if t[k] != '"' {
        EndLocal(t, s, i, k + 1);
      }
    }
  }

  /** Whether and how a text is read as a string does not depend on where it stands. */
  lemma StringLocal(t: string, s: string, i: nat, x: string)
    requires Holds(s, i, t) && t != ""
    ensures i < |s| && (ParseString(s, i) == Parsed(x, i + |t|) <==> ParseString(t, 0) == Parsed(x, |t|))
  {
    HoldsChar(s, i, t, 0);
    EndLocal(t, s, i, 1);
    var end := |t| - 1;
    if |t| > 1 {
      UnescapedLocal(t, s, i, 1, end, []);
    }
    assert i + 1 + (end - 1) == i + end;
  }
}
