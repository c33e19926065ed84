/** cJSON takes nothing but documents: whatever it reads is the text of one. */
module JsonAcceptance {
  import opened Options
  import opened Json
  import opened JsonBuffers
  import opened JsonEscapes
  import opened JsonGrammar

  lemma HoldsJoin(s: string, i: nat, a: string, b: string)
    requires Holds(s, i, a) && Holds(s, i + |a|, b)
    ensures Holds(s, i, a + b)
  {
    assert s[i..i + |a| + |b|] == s[i..i + |a|] + s[i + |a|..i + |a| + |b|];
  }

  lemma HoldsSlice(s: string, i: nat, j: nat)
    requires i <= j <= |s|
    ensures Holds(s, i, s[i..j])
  {
  }

  lemma {:induction false} BlanksWhite(s: string, i: nat, j: nat)
    requires i <= j <= |s| && j <= Blanks(s, i)
    ensures IsWhite(s[i..j])
    decreases j - i
  {
    if i < j {
      BlanksWhite(s, i + 1, j);
      assert s[i..j] == [s[i]] + s[i + 1..j];
    }
  }

  /** What is skipped is white space. */
  lemma SkipWhite(s: string, i: nat)
    requires i <= |s|
    ensures Skip(s, i) <= |s| && IsWhite(s[i..Skip(s, i)])
  {
    if i < |s| {
      BlanksWhite(s, i, Skip(s, i));
    }
  }

  /** The document d stands at i and is what has been read there. */
  ghost predicate ReadsAs(d: Doc, s: string, i: nat, depth: nat, r: Parsed<Value>) {
    && WellFormed(d) && Holds(s, i, Spell(d)) && r == Parsed(Meaning(d), i + |Spell(d)|)
    && depth + Nesting(d) <= NESTING_LIMIT && (d.Numeral? ==> NumberOver(s, i + |Spell(d)|))
  }

  // --------------------------------------------------------------- strings and numbers

  lemma {:induction false} FirstNulOfPrefix(t: string, k: nat, n: nat)
    requires k <= |t| && n == FirstNul(t, k)
    ensures FirstNul(t[..n], k) == n
    decreases n - k
  {
    if k < n {
      FirstNulOfPrefix(t, k + 1, n);
    }
  }

  /** A C string has no NUL to end at. */
  lemma UpToNulTwice(t: string)
    ensures UpToNul(UpToNul(t)) == UpToNul(t)
  {
    FirstNulOfPrefix(t, 0, FirstNul(t, 0));
  }

  /** Whatever is read as a string is one piece between quotes. */
  lemma StringSound(s: string, i: nat) returns (ps: seq<Piece>)
    requires i < |s| && ParseString(s, i).Parsed?
    ensures IsString(ps) && Holds(s, i, QuotedPieces(ps))
    ensures ParseString(s, i) == Parsed(UpToNul(Bytes(ps, 0)), i + |QuotedPieces(ps)|)
  {
    var r := ParseString(s, i);
    var end := r.next - 1;
    EndIsQuote(s, i + 1);
    var inner := s[i + 1..end];
    ps := [Piece(inner, r.value)];
    OnePiece(inner, r.value);
    InQuotes(s, i, end, inner);
    var y := Unescaped(s, i + 1, end, []).value;
    UpToNulTwice(y);
    StringLocal(QuotedPieces(ps), s, i, r.value);
  }

  lemma OnePiece(inner: string, x: string)
    ensures Spelled([Piece(inner, x)], 0) == inner && Bytes([Piece(inner, x)], 0) == x
  {
    assert Spelled([Piece(inner, x)], 1) == "" && Bytes([Piece(inner, x)], 1) == "";
  }

  lemma {:induction false} DigitsBetween(s: string, i: nat, k: nat)
    requires i <= k < |s| && k < DigitsEnd(s, i)
    ensures IsDigit(s[k])
    decreases k - i
  {
    if i < k {
      DigitsBetween(s, i + 1, k);
    }
  }

  lemma {:induction false} DigitsStop(s: string, i: nat)
    requires i <= |s|
    ensures DigitsEnd(s, i) < |s| ==> !IsDigit(s[DigitsEnd(s, i)])
    decreases |s| - i
  {
    if i < |s| && IsDigit(s[i]) {
      DigitsStop(s, i + 1);
    }
  }

  lemma NumberSound(s: string, i: nat) returns (d: Doc)
    requires i < |s| && ParseNumber(s, i).Parsed?
    ensures d.Numeral? && WellFormed(d) && Holds(s, i, Spell(d)) && NumberOver(s, i + |Spell(d)|)
    ensures ParseNumber(s, i) == Parsed(Meaning(d), i + |Spell(d)|)
  {
    hide PlaceValue;
    var minus := s[i] == '-';
    var start := if minus then i + 1 else i;
    var end := DigitsEnd(s, start);
    var digits := s[start..end];
    d := Numeral(minus, digits);
    forall k | 0 <= k < |digits| ensures 0x30 <= digits[k] as int <= 0x39 {
      DigitsBetween(s, start, start + k);
    }
    DigitsStop(s, start);
    HoldsSlice(s, start, end);
    PlacesRead(digits, s, start);
    if minus {
      assert s[i..end] == "-" + digits;
    }
  }

  // ------------------------------------------------------------------------- values

  /** Whatever is read as a value is the text of a document that means it. */
  lemma {:induction false} ValueSound(s: string, i: nat, depth: nat) returns (d: Doc)
    requires depth <= NESTING_LIMIT && ParseValue(s, i, depth).Parsed?
    ensures ReadsAs(d, s, i, depth, ParseValue(s, i, depth))
    decreases |s| - i, 3
  {
    if Holds(s, i, "null") || Holds(s, i, "false") || Holds(s, i, "true") {
      d := WordSound(s, i, depth);
    } else {
      ByFirst(s, i, depth);
      hide ParseValue;
      OtherFirst(s, i, depth);
      if s[i] == '"' {
        var ps := StringSound(s, i);
        d := Quotation(ps);
      } else if s[i] == '[' {
        d := ListSound(s, i, depth);
      } else if s[i] == '{' {
        d := DictionarySound(s, i, depth);
      } else {
        d := NumberSound(s, i);
      }
    }
  }

  lemma WordSound(s: string, i: nat, depth: nat) returns (d: Doc)
    requires depth <= NESTING_LIMIT && (Holds(s, i, "null") || Holds(s, i, "false") || Holds(s, i, "true"))
    ensures ReadsAs(d, s, i, depth, ParseValue(s, i, depth))
  {
    d := if Holds(s, i, "null") then NullWord else if Holds(s, i, "false") then FalseWord else TrueWord;
    WordSpelled();
    WordsRead(s, i, depth);
    hide ParseValue;
  }

  /** A value that is no word starts with one of these characters. */
  lemma OtherFirst(s: string, i: nat, depth: nat)
    requires ParseValue(s, i, depth).Parsed? && !Holds(s, i, "null") && !Holds(s, i, "false") && !Holds(s, i, "true")
    ensures i < |s| && (s[i] in "\"[{-" || IsDigit(s[i]))
  {
    hide ParseString;
    hide ParseNumber;
    hide ParseArray;
    hide ParseObject;
  }

  // -------------------------------------------------------------------------- lists

  function MeaningsOf(items: seq<Item>): seq<Value> {
    seq(|items|, k requires 0 <= k < |items| => Meaning(items[k].doc))
  }

  lemma {:induction false} ItemsShift(x: Item, rest: seq<Item>, k: nat)
    ensures k < |rest| ==> SpellItems([x] + rest, k + 1) == SpellItems(rest, k)
    ensures ItemsNesting([x] + rest, k + 1) == ItemsNesting(rest, k)
    decreases |rest| - k
  {
    if k < |rest| {
      ItemsShift(x, rest, k + 1);
    }
  }

  /** The items stand from offset i to n and mean the values. */
  ghost predicate ItemsStand(items: seq<Item>, s: string, i: nat, n: nat, depth: nat, values: seq<Value>) {
    && items != [] && ItemsOk(items) && Holds(s, i, SpellItems(items, 0)) && n == i + |SpellItems(items, 0)|
    && MeaningsOf(items) == values && depth + ItemsNesting(items, 0) <= NESTING_LIMIT
  }

  lemma OneItem(x: Item, s: string, i: nat, depth: nat)
    requires IsWhite(x.before) && WellFormed(x.doc) && IsWhite(x.after) && depth + Nesting(x.doc) <= NESTING_LIMIT
    requires Holds(s, i, x.before + (Spell(x.doc) + x.after))
    ensures ItemsStand([x], s, i, i + |x.before + (Spell(x.doc) + x.after)|, depth, [Meaning(x.doc)])
  {
    assert x.after + "" == x.after;
    assert ItemsNesting([x], 1) == 0;
  }

  lemma MoreItems(x: Item, rest: seq<Item>, s: string, i: nat, n: nat, depth: nat, values: seq<Value>)
    requires IsWhite(x.before) && WellFormed(x.doc) && IsWhite(x.after) && depth + Nesting(x.doc) <= NESTING_LIMIT
    requires Holds(s, i, x.before + (Spell(x.doc) + x.after))
    requires var j := i + |x.before + (Spell(x.doc) + x.after)|;
             j < |s| && s[j] == ',' && ItemsStand(rest, s, j + 1, n, depth, values)
    ensures ItemsStand([x] + rest, s, i, n, depth, [Meaning(x.doc)] + values)
  {
    hide Holds;
    hide Spell;
    hide Meaning;
    hide Nesting;
    hide WellFormed;
    hide IsWhite;
    var head, j := x.before + (Spell(x.doc) + x.after), i + |x.before + (Spell(x.doc) + x.after)|;
    var tail := "," + SpellItems(rest, 0);
    ItemsShift(x, rest, 0);
    HoldsSlice(s, j, j + 1);
    assert s[j..j + 1] == ",";
    HoldsJoin(s, j, ",", SpellItems(rest, 0));
    HoldsJoin(s, i, head, tail);
    assert head + tail == x.before + (Spell(x.doc) + (x.after + tail));
    assert MeaningsOf([x] + rest) == [Meaning(x.doc)] + MeaningsOf(rest);
  }

  /** One round of the loop in parse_array that does not fail. */
  lemma ItemsRound(s: string, p: nat, depth: nat, done: seq<Value>)
    requires p < |s| && ParseItems(s, p, depth, done).Parsed?
    ensures var start := Skip(s, p + 1);
            var r := ParseValue(s, start, depth);
            && r.Parsed? && p < start < r.next <= |s|
            && var n := Skip(s, r.next);
               ParseItems(s, p, depth, done)
                 == if n < |s| && s[n] == ',' then ParseItems(s, n, depth, done + [r.value])
                    else Parsed(done + [r.value], n)
  {
    hide ParseValue;
    hide Skip;
  }

  lemma {:induction false} ItemsSound(s: string, p: nat, depth: nat, done: seq<Value>)
    returns (items: seq<Item>, vs: seq<Value>)
    requires p < |s| && depth <= NESTING_LIMIT && ParseItems(s, p, depth, done).Parsed?
    ensures ItemsStand(items, s, p + 1, ParseItems(s, p, depth, done).next, depth, vs)
    ensures ParseItems(s, p, depth, done).value == done + vs
    decreases |s| - p, 1
  {
    hide ParseValue;
    hide ParseItems;
    hide ItemsStand;
    hide Skip;
    hide WellFormed;
    ItemsRound(s, p, depth, done);
    var start := Skip(s, p + 1);
    var r := ParseValue(s, start, depth);
    var d := ValueSound(s, start, depth);
    SkipWhite(s, p + 1);
    SkipWhite(s, r.next);
    var n := Skip(s, r.next);
    var x := Item(s[p + 1..start], d, s[r.next..n]);
    ItemStands(x, s, p + 1, start, r.next, n, depth, r);
    if n < |s| && s[n] == ',' {
      var rest, more := ItemsSound(s, n, depth, done + [r.value]);
      items, vs := [x] + rest, [r.value] + more;
      MoreItems(x, rest, s, p + 1, ParseItems(s, p, depth, done).next, depth, more);
      assert done + [r.value] + more == done + vs;
    } else {
      items, vs := [x], [r.value];
      OneItem(x, s, p + 1, depth);
    }
  }

  lemma ItemStands(x: Item, s: string, i: nat, start: nat, k: nat, n: nat, depth: nat, r: Parsed<Value>)
    requires i <= start <= k <= |s| && Skip(s, i) == start && Skip(s, k) == n
    requires ReadsAs(x.doc, s, start, depth, r) && r == Parsed(r.value, k)
    requires n <= |s| && x.before == s[i..start] && x.after == s[k..n]
    ensures IsWhite(x.before) && WellFormed(x.doc) && IsWhite(x.after) && depth + Nesting(x.doc) <= NESTING_LIMIT
    ensures Holds(s, i, x.before + (Spell(x.doc) + x.after)) && n == i + |x.before + (Spell(x.doc) + x.after)|
    ensures Meaning(x.doc) == r.value
  {
    hide Spell;
    hide Meaning;
    hide WellFormed;
    SkipWhite(s, i);
    SkipWhite(s, k);
    HoldsSlice(s, i, start);
    HoldsSlice(s, k, n);
    HoldsJoin(s, start, Spell(x.doc), x.after);
    HoldsJoin(s, i, x.before, Spell(x.doc) + x.after);
  }

  lemma ListSound(s: string, i: nat, depth: nat) returns (d: Doc)
    requires depth <= NESTING_LIMIT && i < |s| && s[i] == '[' && ParseArray(s, i, depth).Parsed?
    ensures d.List? && ReadsAs(d, s, i, depth, ParseArray(s, i, depth))
    decreases |s| - i, 2
  {
    hide ParseItems;
    var j := Skip(s, i + 1);
    SkipWhite(s, i + 1);
    if s[j] == ']' {
      d := List(s[i + 1..j], []);
      EmptyListSound(d.inner, s, i, j, depth);
    } else {
      var items, vs := ItemsSound(s, j - 1, depth + 1, []);
      d := FullListSound(items, s, i, j, ParseItems(s, j - 1, depth + 1, []).next, depth, vs);
      assert [] + vs == vs;
    }
  }

  lemma Bracketed(s: string, i: nat, open: string, body: string, close: string)
    requires |open| == |close| == 1 && i + |body| + 1 < |s| && s[i] == open[0] && s[i + 1 + |body|] == close[0]
    requires Holds(s, i + 1, body)
    ensures Holds(s, i, open + (body + close))
  {
    assert s[i..i + 1] == open;
    assert s[i + 1 + |body|..i + 2 + |body|] == close;
    HoldsJoin(s, i + 1, body, close);
    HoldsJoin(s, i, open, body + close);
  }

  lemma EmptyListSound(inner: string, s: string, i: nat, j: nat, depth: nat)
    requires i < j < |s| && s[i] == '[' && s[j] == ']' && inner == s[i + 1..j] && IsWhite(inner)
    requires depth < NESTING_LIMIT
    ensures ReadsAs(List(inner, []), s, i, depth, Parsed(Array([]), j + 1))
  {
    Bracketed(s, i, "[", inner, "]");
    assert Meaning(List(inner, [])).items == [];
    assert ItemsNesting([], 0) == 0;
  }

  lemma FullListSound(items: seq<Item>, s: string, i: nat, j: nat, n: nat, depth: nat, vs: seq<Value>) returns (d: Doc)
    requires i < j <= |s| && s[i] == '[' && IsWhite(s[i + 1..j]) && depth < NESTING_LIMIT
    requires ItemsStand(items, s, j, n, depth + 1, vs) && n < |s| && s[n] == ']'
    ensures d.List? && ReadsAs(d, s, i, depth, Parsed(Array(vs), n + 1))
  {
    var xs := items[0 := items[0].(before := s[i + 1..j] + items[0].before)];
    d := List("", xs);
    HoldsSlice(s, i + 1, j);
    HoldsJoin(s, i + 1, s[i + 1..j], SpellItems(items, 0));
    LeadingWhite(items, xs, s[i + 1..j]);
    Bracketed(s, i, "[", SpellItems(xs, 0), "]");
    assert Meaning(d).items == MeaningsOf(xs) == MeaningsOf(items);
  }

  /** White space put in front of the first item. */
  lemma LeadingWhite(items: seq<Item>, xs: seq<Item>, w: string)
    requires items != [] && ItemsOk(items) && IsWhite(w) && xs == items[0 := items[0].(before := w + items[0].before)]
    ensures ItemsOk(xs) && SpellItems(xs, 0) == w + SpellItems(items, 0)
    ensures ItemsNesting(xs, 0) == ItemsNesting(items, 0) && MeaningsOf(xs) == MeaningsOf(items)
  {
    SameTail(items, xs, 1);
    var x := items[0];
    var rest := Spell(x.doc) + (x.after + LaterItems(items, 0));
    assert w + (x.before + rest) == (w + x.before) + rest;
  }

  lemma {:induction false} SameTail(items: seq<Item>, xs: seq<Item>, k: nat)
    requires 0 < k && |xs| == |items| && forall j :: 0 < j < |items| ==> xs[j] == items[j]
    ensures k < |items| ==> SpellItems(xs, k) == SpellItems(items, k)
    ensures ItemsNesting(xs, k) == ItemsNesting(items, k)
    decreases |items| - k
  {
    if k < |items| {
      SameTail(items, xs, k + 1);
    }
  }

  // ------------------------------------------------------------------- dictionaries

  function MembersOf(pairs: seq<Pair>): seq<Member> {
    seq(|pairs|, k requires 0 <= k < |pairs| => MeaningOf(pairs[k]))
  }

  lemma {:induction false} PairsShift(x: Pair, rest: seq<Pair>, k: nat)
    ensures k < |rest| ==> SpellPairs([x] + rest, k + 1) == SpellPairs(rest, k)
    ensures PairsNesting([x] + rest, k + 1) == PairsNesting(rest, k)
    decreases |rest| - k
  {
    if k < |rest| {
      PairsShift(x, rest, k + 1);
    }
  }

  ghost predicate PairsStand(pairs: seq<Pair>, s: string, i: nat, n: nat, depth: nat, members: seq<Member>) {
    && pairs != [] && PairsOk(pairs) && Holds(s, i, SpellPairs(pairs, 0)) && n == i + |SpellPairs(pairs, 0)|
    && MembersOf(pairs) == members && depth + PairsNesting(pairs, 0) <= NESTING_LIMIT
  }

  /** The text of a pair after its leading white space. */
  function PairText(x: Pair, more: string): string {
    QuotedPieces(x.name) + (x.mid + (":" + (x.post + (Spell(x.doc) + (x.after + more)))))
  }

  ghost predicate PairOk(x: Pair) {
    && IsWhite(x.before) && IsString(x.name) && IsWhite(x.mid) && IsWhite(x.post)
    && WellFormed(x.doc) && IsWhite(x.after)
  }

  lemma PairTextGrows(x: Pair, more: string)
    ensures PairText(x, "") + more == PairText(x, more)
  {
    hide Spell;
    hide QuotedPieces;
    var a := Spell(x.doc) + (x.after + more);
    assert Spell(x.doc) + (x.after + "") + more == a;
    var b := x.post + a;
    assert x.post + (Spell(x.doc) + (x.after + "")) + more == b;
    var c := x.mid + (":" + b);
    assert x.mid + (":" + (x.post + (Spell(x.doc) + (x.after + "")))) + more == c;
  }

  lemma OnePair(x: Pair, s: string, i: nat, depth: nat)
    requires PairOk(x) && depth + Nesting(x.doc) <= NESTING_LIMIT && Holds(s, i, x.before + PairText(x, ""))
    ensures PairsStand([x], s, i, i + |x.before + PairText(x, "")|, depth, [MeaningOf(x)])
  {
    assert PairsNesting([x], 1) == 0;
  }

  lemma MorePairs(x: Pair, rest: seq<Pair>, s: string, i: nat, n: nat, depth: nat, members: seq<Member>)
    requires PairOk(x) && depth + Nesting(x.doc) <= NESTING_LIMIT && Holds(s, i, x.before + PairText(x, ""))
    requires var j := i + |x.before + PairText(x, "")|;
             j < |s| && s[j] == ',' && PairsStand(rest, s, j + 1, n, depth, members)
    ensures PairsStand([x] + rest, s, i, n, depth, [MeaningOf(x)] + members)
  {
    hide Spell;
    hide MeaningOf;
    hide Nesting;
    hide WellFormed;
    hide IsWhite;
    hide IsString;
    hide QuotedPieces;
    hide PairText;
    hide Holds;
    var head, j := x.before + PairText(x, ""), i + |x.before + PairText(x, "")|;
    var tail := "," + SpellPairs(rest, 0);
    PairsShift(x, rest, 0);
    CommaStands(s, j, SpellPairs(rest, 0));
    HoldsJoin(s, i, head, tail);
    PairTextGrows(x, tail);
    Regroup(x.before, PairText(x, ""), tail);
    SpelledFirst(x, rest, tail);
    hide SpellPairs;
    PairsWith(x, rest);
  }

  lemma CommaStands(s: string, j: nat, rest: string)
    requires j < |s| && s[j] == ',' && Holds(s, j + 1, rest)
    ensures Holds(s, j, "," + rest)
  {
    assert s[j..j + 1] == ",";
    HoldsJoin(s, j, ",", rest);
  }

  lemma Regroup(a: string, b: string, c: string)
    ensures (a + b) + c == a + (b + c)
  {
  }

  lemma PairsWith(x: Pair, rest: seq<Pair>)
    requires PairOk(x) && PairsOk(rest)
    ensures PairsOk([x] + rest) && MembersOf([x] + rest) == [MeaningOf(x)] + MembersOf(rest)
  {
    hide IsString;
    hide IsWhite;
    hide MeaningOf;
    hide WellFormed;
  }

  lemma SpelledFirst(x: Pair, rest: seq<Pair>, tail: string)
    requires rest != [] && tail == "," + SpellPairs([x] + rest, 1)
    ensures SpellPairs([x] + rest, 0) == x.before + PairText(x, tail)
  {
  }

  /** One round of the loop in parse_object that does not fail. */
  lemma PairsRound(s: string, p: nat, depth: nat, done: seq<Member>)
    requires p < |s| && ParseMembers(s, p, depth, done).Parsed?
    ensures ParseName(s, p).Parsed?
    ensures var name := ParseName(s, p);
            var r := ParseValue(s, name.next, depth);
            && r.Parsed? && p < name.next < r.next <= |s|
            && var n, m := Skip(s, r.next), Member(name.value, r.value);
               ParseMembers(s, p, depth, done)
                 == if n < |s| && s[n] == ',' then ParseMembers(s, n, depth, done + [m]) else Parsed(done + [m], n)
  {
    hide ParseValue;
    hide ParseName;
    hide Skip;
  }

  /** The offsets that parse_object goes through before a value. */
  lemma NameRound(s: string, p: nat)
    requires p < |s| && ParseName(s, p).Parsed?
    ensures var q := Skip(s, p + 1);
            && q < |s| && ParseString(s, q).Parsed?
            && var c, x := ParseString(s, q).next, ParseString(s, q).value;
               var colon := Skip(s, c);
               && p < q < c <= colon < |s| && s[colon] == ':'
               && ParseName(s, p) == Parsed(x, Skip(s, colon + 1)) && colon < Skip(s, colon + 1)
  {
    hide ParseString;
    hide Skip;
  }

  /** The parts in front of a value that has been read. */
  lemma NameSound(s: string, p: nat) returns (x: Pair)
    requires p < |s| && ParseName(s, p).Parsed? && ParseName(s, p).next <= |s|
    ensures IsWhite(x.before) && IsString(x.name) && IsWhite(x.mid) && IsWhite(x.post)
    ensures ParseName(s, p).value == UpToNul(Bytes(x.name, 0))
    ensures var head := x.before + (QuotedPieces(x.name) + (x.mid + (":" + x.post)));
            Holds(s, p + 1, head) && p + 1 + |head| == ParseName(s, p).next
  {
    hide ParseString;
    hide Skip;
    hide IsString;
    hide QuotedPieces;
    hide ParseName;
    NameRound(s, p);
    var q := Skip(s, p + 1);
    var r := ParseString(s, q);
    var colon, start := Skip(s, r.next), ParseName(s, p).next;
    SkipWhite(s, p + 1);
    SkipWhite(s, r.next);
    SkipWhite(s, colon + 1);
    var ps := StringSound(s, q);
    x := Pair(s[p + 1..q], ps, s[r.next..colon], s[colon + 1..start], NullWord, "");
    HeadStands(s, p + 1, q, r.next, colon, start, QuotedPieces(ps));
  }

  lemma HeadStands(s: string, i: nat, q: nat, c: nat, colon: nat, start: nat, name: string)
    requires i <= q <= c <= colon < start <= |s| && s[colon] == ':' && Holds(s, q, name) && c == q + |name|
    ensures var head := s[i..q] + (name + (s[c..colon] + (":" + s[colon + 1..start])));
            Holds(s, i, head) && i + |head| == start
  {
    HoldsSlice(s, colon + 1, start);
    assert s[colon..colon + 1] == ":";
    HoldsJoin(s, colon, ":", s[colon + 1..start]);
    HoldsSlice(s, c, colon);
    HoldsJoin(s, c, s[c..colon], ":" + s[colon + 1..start]);
    HoldsJoin(s, q, name, s[c..colon] + (":" + s[colon + 1..start]));
    HoldsSlice(s, i, q);
    HoldsJoin(s, i, s[i..q], name + (s[c..colon] + (":" + s[colon + 1..start])));
  }

  /** The pair whose parts these are. */
  lemma PairStands(y: Pair, d: Doc, s: string, i: nat, start: nat, k: nat, n: nat, depth: nat, r: Parsed<Value>)
    returns (x: Pair)
    requires IsWhite(y.before) && IsString(y.name) && IsWhite(y.mid) && IsWhite(y.post)
    requires var head := y.before + (QuotedPieces(y.name) + (y.mid + (":" + y.post)));
             Holds(s, i, head) && i + |head| == start
    requires start <= k <= n <= |s| && Skip(s, k) == n && ReadsAs(d, s, start, depth, r) && r == Parsed(r.value, k)
    ensures PairOk(x) && depth + Nesting(x.doc) <= NESTING_LIMIT
    ensures MeaningOf(x) == Member(UpToNul(Bytes(y.name, 0)), r.value)
    ensures Holds(s, i, x.before + PairText(x, "")) && n == i + |x.before + PairText(x, "")|
  {
    hide Spell;
    hide WellFormed;
    hide IsString;
    hide QuotedPieces;
    hide IsWhite;
    hide Meaning;
    x := y.(doc := d, after := s[k..n]);
    SkipWhite(s, k);
    HoldsSlice(s, k, n);
    HoldsJoin(s, start, Spell(d), x.after);
    HoldsJoin(s, i, y.before + (QuotedPieces(y.name) + (y.mid + (":" + y.post))), Spell(d) + x.after);
    HeadThenValue(y.before, QuotedPieces(y.name), y.mid, y.post, Spell(d), x.after);
  }

  lemma HeadThenValue(before: string, name: string, mid: string, post: string, t: string, after: string)
    ensures before + (name + (mid + (":" + post))) + (t + after)
              == before + (name + (mid + (":" + (post + (t + (after + ""))))))
  {
    assert t + (after + "") == t + after;
    assert (":" + post) + (t + after) == ":" + (post + (t + after));
    assert (mid + (":" + post)) + (t + after) == mid + (":" + (post + (t + after)));
    assert (name + (mid + (":" + post))) + (t + after) == name + (mid + (":" + (post + (t + after))));
  }

  lemma {:induction false} PairsSound(s: string, p: nat, depth: nat, done: seq<Member>)
    returns (pairs: seq<Pair>, ms: seq<Member>)
    requires p < |s| && depth <= NESTING_LIMIT && ParseMembers(s, p, depth, done).Parsed?
    ensures PairsStand(pairs, s, p + 1, ParseMembers(s, p, depth, done).next, depth, ms)
    ensures ParseMembers(s, p, depth, done).value == done + ms
    decreases |s| - p, 1
  {
    hide ParseValue;
    hide ParseMembers;
    hide ParseName;
    hide PairsStand;
    hide PairOk;
    hide PairText;
    hide Skip;
    hide WellFormed;
    hide MeaningOf;
    hide IsString;
    hide QuotedPieces;
    PairsRound(s, p, depth, done);
    var start := ParseName(s, p).next;
    var r := ParseValue(s, start, depth);
    var y := NameSound(s, p);
    var d := ValueSound(s, start, depth);
    SkipWhite(s, r.next);
    var n := Skip(s, r.next);
    var x := PairStands(y, d, s, p + 1, start, r.next, n, depth, r);
    var m := Member(ParseName(s, p).value, r.value);
    if n < |s| && s[n] == ',' {
      var rest, more := PairsSound(s, n, depth, done + [m]);
      pairs, ms := [x] + rest, [m] + more;
      MorePairs(x, rest, s, p + 1, ParseMembers(s, p, depth, done).next, depth, more);
      assert done + [m] + more == done + ms;
    } else {
      pairs, ms := [x], [m];
      OnePair(x, s, p + 1, depth);
    }
  }

  lemma DictionarySound(s: string, i: nat, depth: nat) returns (d: Doc)
    requires depth <= NESTING_LIMIT && i < |s| && s[i] == '{' && ParseObject(s, i, depth).Parsed?
    ensures d.Dictionary? && ReadsAs(d, s, i, depth, ParseObject(s, i, depth))
    decreases |s| - i, 2
  {
    hide ParseMembers;
    var j := Skip(s, i + 1);
    SkipWhite(s, i + 1);
    if s[j] == '}' {
      d := Dictionary(s[i + 1..j], []);
      EmptyDictionarySound(d.inner, s, i, j, depth);
    } else {
      var pairs, ms := PairsSound(s, j - 1, depth + 1, []);
      d := FullDictionarySound(pairs, s, i, j, ParseMembers(s, j - 1, depth + 1, []).next, depth, ms);
      assert [] + ms == ms;
    }
  }

  lemma EmptyDictionarySound(inner: string, s: string, i: nat, j: nat, depth: nat)
    requires i < j < |s| && s[i] == '{' && s[j] == '}' && inner == s[i + 1..j] && IsWhite(inner)
    requires depth < NESTING_LIMIT
    ensures ReadsAs(Dictionary(inner, []), s, i, depth, Parsed(Object([]), j + 1))
  {
    Bracketed(s, i, "{", inner, "}");
    assert Meaning(Dictionary(inner, [])).members == [];
    assert PairsNesting([], 0) == 0;
  }

  lemma FullDictionarySound(pairs: seq<Pair>, s: string, i: nat, j: nat, n: nat, depth: nat, ms: seq<Member>)
    returns (d: Doc)
    requires i < j <= |s| && s[i] == '{' && IsWhite(s[i + 1..j]) && depth < NESTING_LIMIT
    requires PairsStand(pairs, s, j, n, depth + 1, ms) && n < |s| && s[n] == '}'
    ensures d.Dictionary? && ReadsAs(d, s, i, depth, Parsed(Object(ms), n + 1))
  {
    var xs := pairs[0 := pairs[0].(before := s[i + 1..j] + pairs[0].before)];
    d := Dictionary("", xs);
    HoldsSlice(s, i + 1, j);
    HoldsJoin(s, i + 1, s[i + 1..j], SpellPairs(pairs, 0));
    WhiteBeforePairs(pairs, xs, s[i + 1..j]);
    Bracketed(s, i, "{", SpellPairs(xs, 0), "}");
    assert Meaning(d).members == MembersOf(xs) == MembersOf(pairs);
  }

  lemma WhiteBeforePairs(pairs: seq<Pair>, xs: seq<Pair>, w: string)
    requires pairs != [] && PairsOk(pairs) && IsWhite(w) && xs == pairs[0 := pairs[0].(before := w + pairs[0].before)]
    ensures PairsOk(xs) && SpellPairs(xs, 0) == w + SpellPairs(pairs, 0)
    ensures PairsNesting(xs, 0) == PairsNesting(pairs, 0) && MembersOf(xs) == MembersOf(pairs)
  {
    hide QuotedPieces;
    hide Spell;
    hide WellFormed;
    hide IsString;
    SamePairs(pairs, xs, 1);
    var x := pairs[0];
    var rest := PairText(x, LaterPairs(pairs, 0));
    assert w + (x.before + rest) == (w + x.before) + rest;
  }

  lemma {:induction false} SamePairs(pairs: seq<Pair>, xs: seq<Pair>, k: nat)
    requires 0 < k && |xs| == |pairs| && forall j :: 0 < j < |pairs| ==> xs[j] == pairs[j]
    ensures k < |pairs| ==> SpellPairs(xs, k) == SpellPairs(pairs, k)
    ensures PairsNesting(xs, k) == PairsNesting(pairs, k)
    decreases |pairs| - k
  {
    if k < |pairs| {
      SamePairs(pairs, xs, k + 1);
    }
  }

  // ----------------------------------------------------------- exactly the documents

  /** A document that means v, nested at most 1000 deep, stands between i and j; after a
      number nothing follows that could belong to it. */
  ghost predicate DocumentAt(s: string, i: nat, j: nat, v: Value) {
    exists d: Doc :: WellFormed(d) && Nesting(d) <= 1000 && Meaning(d) == v
                     && Holds(s, i, Spell(d)) && j == i + |Spell(d)| && (d.Numeral? ==> NumberOver(s, j))
  }

  /** A value is read from i to j exactly if a document that means it stands there. */
  lemma ValueExactly(s: string, i: nat, j: nat, v: Value)
    ensures ParseValue(s, i, 0) == Parsed(v, j) <==> DocumentAt(s, i, j, v)
  {
    hide WellFormed;
    hide ParseValue;
    if ParseValue(s, i, 0) == Parsed(v, j) {
      var d := ValueSound(s, i, 0);
    }
    if DocumentAt(s, i, j, v) {
      var d: Doc :| WellFormed(d) && Nesting(d) <= 1000 && Meaning(d) == v
                    && Holds(s, i, Spell(d)) && j == i + |Spell(d)| && (d.Numeral? ==> NumberOver(s, j));
      DocRead(d, s, i, 0);
    }
  }

  /** A whole text, with its NUL: white space from `start` on, the document, and, if
      the text has to end there, nothing but white space after it. */
  ghost predicate TextIs(s: string, start: nat, strict: bool, v: Value) {
    exists i: nat, j: nat {:trigger DocumentAt(s, i, j, v)} ::
      start <= i <= j <= |s| && IsWhite(s[start..i]) && DocumentAt(s, i, j, v)
        && (strict ==> j < |s| && IsWhite(s[j..]))
  }

  /** Every text of cJSON_ParseWithOpts, and every value it may give: the value is given
      exactly if the text, after a byte order mark if there is one, is such a text. */
  lemma ParsedExactly(text: string, strict: bool, v: Value)
    ensures var s := UpToNul(text) + "\0";
            Parse(text, strict) == Some(v) <==>
            TextIs(s, if 4 < |s| && Holds(s, 0, BOM) then 3 else 0, strict, v)
  {
    hide Blanks;
    var s := UpToNul(text) + "\0";
    var start := if 4 < |s| && Holds(s, 0, BOM) then 3 else 0;
    hide UpToNul;
    hide ParseValue;
    hide DocumentAt;
    if Parse(text, strict) == Some(v) {
      var i := Skip(s, start);
      var j := ParseValue(s, i, 0).next;
      SkipWhite(s, start);
      ValueExactly(s, i, j, v);
      if strict {
        WhiteUpToNul(s, j);
      }
    }
    if TextIs(s, start, strict, v) {
      var i: nat, j: nat :| start <= i <= j <= |s| && IsWhite(s[start..i]) && DocumentAt(s, i, j, v)
                            && (strict ==> j < |s| && IsWhite(s[j..]));
      FoundAt(s, start, i, j, v);
      ValueExactly(s, i, j, v);
      if strict {
        WhiteToTheEnd(s, j);
      }
    }
  }

  lemma WhiteUpToNul(s: string, j: nat)
    requires j <= |s| && Skip(s, j) < |s| && s[Skip(s, j)] == '\0'
    ensures IsWhite(s[j..])
  {
    BlankOrNot(s, j);
    BlanksWhite(s, j, |s|);
    assert s[j..] == s[j..|s|];
  }

  lemma {:induction false} BlankOrNot(s: string, j: nat)
    requires j <= |s|
    ensures Blanks(s, j) < |s| ==> !IsBlank(s[Blanks(s, j)])
    decreases |s| - j
  {
    if j < |s| && IsBlank(s[j]) {
      BlankOrNot(s, j + 1);
    }
  }

  lemma WhiteToTheEnd(s: string, j: nat)
    requires j < |s| && IsWhite(s[j..])
    ensures Skip(s, j) == |s| - 1
  {
    HoldsSlice(s, j, |s|);
    assert s[j..|s|] == s[j..];
    WhiteSkipped(s, j, s[j..]);
  }

  /** The document is found behind the white space. */
  lemma FoundAt(s: string, start: nat, i: nat, j: nat, v: Value)
    requires start <= i <= j <= |s| && IsWhite(s[start..i]) && DocumentAt(s, i, j, v)
    ensures Skip(s, start) == i
  {
    hide Spell;
    var d: Doc :| WellFormed(d) && Nesting(d) <= 1000 && Meaning(d) == v
                  && Holds(s, i, Spell(d)) && j == i + |Spell(d)| && (d.Numeral? ==> NumberOver(s, j));
    FirstIsPlain(d);
    HoldsChar(s, i, Spell(d), 0);
    HoldsSlice(s, start, i);
    WhiteUpTo(s, start, s[start..i]);
  }
}
