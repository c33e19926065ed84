/** Documents as RFC 8259 writes them, with integers for numbers, and the theorem that
    cJSON reads each of them as what it means. */
module JsonGrammar {
  import opened Options
  import opened Json
  import opened JsonBuffers
  import opened JsonEscapes

  // ------------------------------------------------------------------- the grammar

  /** How a value is written; `before`, `after` and so on are white space. */
  datatype Doc =
    | NullWord
    | FalseWord
    | TrueWord
    | Numeral(minus: bool, digits: string)
    | Quotation(ps: seq<Piece>)
    | List(inner: string, items: seq<Item>)
    | Dictionary(inner: string, pairs: seq<Pair>)

  datatype Item = Item(before: string, doc: Doc, after: string)

  datatype Pair = Pair(before: string, name: seq<Piece>, mid: string, post: string, doc: Doc, after: string)

  // What RFC 8259 allows.

  /** Section 2: space, tab, line feed and carriage return. */
  predicate IsSpace(w: string) {
    forall k :: 0 <= k < |w| ==> w[k] as int == 0x20 || w[k] as int == 9 || w[k] as int == 10 || w[k] as int == 13
  }

  /** Section 6: digits without a leading zero. */
  predicate IsInteger(digits: string) {
    AreDigits(digits) && (|digits| > 1 ==> digits[0] as int != 0x30)
  }

  /** Section 7. */
  predicate IsQuotable(ps: seq<Piece>) {
    forall k :: 0 <= k < |ps| ==> IsAllowed(ps[k])
  }

  predicate IsJson(d: Doc)
    decreases d
  {
    match d
    case Numeral(_, digits) => IsInteger(digits)
    case Quotation(ps) => IsQuotable(ps)
    case List(inner, items) =>
      IsSpace(inner) && forall k :: 0 <= k < |items| ==>
        IsSpace(items[k].before) && IsJson(items[k].doc) && IsSpace(items[k].after)
    case Dictionary(inner, pairs) =>
      IsSpace(inner) && forall k :: 0 <= k < |pairs| ==>
        && IsSpace(pairs[k].before) && IsQuotable(pairs[k].name) && IsSpace(pairs[k].mid) && IsSpace(pairs[k].post)
        && IsJson(pairs[k].doc) && IsSpace(pairs[k].after)
    case _ => true
  }

  // What cJSON takes: any character up to the space for white space, leading zeros, and
  // whatever it reads as a string.

  predicate IsWhite(w: string) {
    forall k :: 0 <= k < |w| ==> w[k] as int <= 0x20
  }

  predicate AreDigits(digits: string) {
    digits != "" && forall k :: 0 <= k < |digits| ==> 0x30 <= digits[k] as int <= 0x39
  }

  predicate IsString(ps: seq<Piece>) {
    ParseString(QuotedPieces(ps), 0) == Parsed(UpToNul(Bytes(ps, 0)), |QuotedPieces(ps)|)
  }

  predicate WellFormed(d: Doc)
    decreases d
  {
    match d
    case Numeral(_, digits) => AreDigits(digits)
    case Quotation(ps) => IsString(ps)
    case List(inner, items) =>
      IsWhite(inner) && forall k :: 0 <= k < |items| ==>
        IsWhite(items[k].before) && WellFormed(items[k].doc) && IsWhite(items[k].after)
    case Dictionary(inner, pairs) =>
      IsWhite(inner) && forall k :: 0 <= k < |pairs| ==>
        && IsWhite(pairs[k].before) && IsString(pairs[k].name) && IsWhite(pairs[k].mid) && IsWhite(pairs[k].post)
        && WellFormed(pairs[k].doc) && IsWhite(pairs[k].after)
    case _ => true
  }

  lemma SpaceIsWhite(w: string)
    requires IsSpace(w)
    ensures IsWhite(w)
  {
  }

  lemma QuotableIsString(ps: seq<Piece>)
    requires IsQuotable(ps)
    ensures IsString(ps)
  {
    forall k | 0 <= k < |ps| ensures IsPiece(ps[k]) {
      assert IsAllowed(ps[k]);
    }
    assert QuotedPieces(ps)[0..|QuotedPieces(ps)|] == QuotedPieces(ps);
    StringRead(ps, QuotedPieces(ps), 0);
  }

  /** Every document of RFC 8259 is one that cJSON takes. */
  lemma {:induction false} JsonIsWellFormed(d: Doc)
    requires IsJson(d)
    ensures WellFormed(d)
    decreases d
  {
    match d
    case Quotation(ps) =>
      QuotableIsString(ps);
    case List(_, items) =>
      forall k | 0 <= k < |items| ensures WellFormed(items[k].doc) {
        JsonIsWellFormed(items[k].doc);
      }
    case Dictionary(_, pairs) =>
      forall k | 0 <= k < |pairs| ensures WellFormed(pairs[k].doc) && IsString(pairs[k].name) {
        JsonIsWellFormed(pairs[k].doc);
        QuotableIsString(pairs[k].name);
      }
    case _ =>
  }

  function QuotedPieces(ps: seq<Piece>): string {
    "\"" + Spelled(ps, 0) + "\""
  }

  /** The text of a document. */
  function Spell(d: Doc): string
    decreases d
  {
    match d
    case NullWord => "null"
    case FalseWord => "false"
    case TrueWord => "true"
    case Numeral(minus, digits) => if minus then "-" + digits else digits
    case Quotation(ps) => QuotedPieces(ps)
    case List(inner, items) => "[" + ((if items == [] then inner else SpellItems(items, 0)) + "]")
    case Dictionary(inner, pairs) => "{" + ((if pairs == [] then inner else SpellPairs(pairs, 0)) + "}")
  }

  function SpellItems(items: seq<Item>, k: nat): string
    requires k < |items|
    decreases items, |items| - k
  {
    var x := items[k];
    x.before + (Spell(x.doc) + (x.after + if k + 1 < |items| then "," + SpellItems(items, k + 1) else ""))
  }

  function SpellPairs(pairs: seq<Pair>, k: nat): string
    requires k < |pairs|
    decreases pairs, |pairs| - k
  {
    var x := pairs[k];
    x.before + (QuotedPieces(x.name) + (x.mid + (":" + (x.post + (Spell(x.doc) + (x.after +
      if k + 1 < |pairs| then "," + SpellPairs(pairs, k + 1) else ""))))))
  }

  /** What digits stand for: each place counts ten times the next. */
  function PlaceValue(digits: string): int {
    if digits == "" then 0
    else 10 * PlaceValue(digits[..|digits| - 1]) + (digits[|digits| - 1] as int - 0x30)
  }

  /** The value a document stands for; a string ends at its first NUL, as in C. */
  function Meaning(d: Doc): Value
    decreases d
  {
    match d
    case NullWord => Null
    case FalseWord => False
    case TrueWord => True
    case Numeral(minus, digits) => Number(if minus then -PlaceValue(digits) else PlaceValue(digits))
    case Quotation(ps) => Text(UpToNul(Bytes(ps, 0)))
    case List(_, items) => Array(seq(|items|, k requires 0 <= k < |items| => Meaning(items[k].doc)))
    case Dictionary(_, pairs) => Object(seq(|pairs|, k requires 0 <= k < |pairs| => MeaningOf(pairs[k])))
  }

  function MeaningOf(x: Pair): Member
    decreases x
  {
    Member(UpToNul(Bytes(x.name, 0)), Meaning(x.doc))
  }

  /** How deep lists and dictionaries are nested. */
  function Nesting(d: Doc): nat
    decreases d
  {
    match d
    case List(_, items) => 1 + ItemsNesting(items, 0)
    case Dictionary(_, pairs) => 1 + PairsNesting(pairs, 0)
    case _ => 0
  }

  function ItemsNesting(items: seq<Item>, k: nat): nat
    decreases items, |items| - k
  {
    if k >= |items| then 0
    else
      var m, n := Nesting(items[k].doc), ItemsNesting(items, k + 1);
      if m < n then n else m
  }

  function PairsNesting(pairs: seq<Pair>, k: nat): nat
    decreases pairs, |pairs| - k
  {
    if k >= |pairs| then 0
    else
      var m, n := Nesting(pairs[k].doc), PairsNesting(pairs, k + 1);
      if m < n then n else m
  }

  // -------------------------------------------------------------------- white space

  lemma {:induction false} WhiteSkipped(s: string, i: nat, w: string)
    requires Holds(s, i, w) && IsWhite(w)
    ensures i + |w| <= |s| && Blanks(s, i) == Blanks(s, i + |w|)
    decreases |w|
  {
    if w != "" {
      assert w == w[..1] + w[1..];
      HoldsParts(s, i, w[..1], w[1..]);
      HoldsChar(s, i, w, 0);
      BlankSkipped(s, i);
      WhiteSkipped(s, i + 1, w[1..]);
    }
  }

  /** White space up to a character that is none. */
  lemma WhiteUpTo(s: string, i: nat, w: string)
    requires Holds(s, i, w) && IsWhite(w) && i + |w| < |s| && !IsBlank(s[i + |w|])
    ensures Skip(s, i) == i + |w|
  {
    WhiteSkipped(s, i, w);
    NoSkip(s, i + |w|);
    SkipIsBlanks(s, i);
  }

  /** White space, then a comma or a bracket: no number goes on. */
  lemma WhiteEnds(s: string, i: nat, w: string)
    requires Holds(s, i, w) && IsWhite(w) && i + |w| < |s| && s[i + |w|] in ",]}"
    ensures Ended(s, i) && Skip(s, i) == i + |w|
  {
    WhiteUpTo(s, i, w);
    if w != "" {
      HoldsChar(s, i, w, 0);
    }
  }

  // ------------------------------------------------------------------------- values

  /** A document starts with a character that tells its kind. */
  lemma FirstOf(d: Doc)
    requires WellFormed(d)
    ensures Spell(d) != ""
    ensures var c := Spell(d)[0];
            match d
            case NullWord => c == 'n'
            case FalseWord => c == 'f'
            case TrueWord => c == 't'
            case Numeral(_, _) => c == '-' || IsDigit(c)
            case Quotation(_) => c == '"'
            case List(_, _) => c == '['
            case Dictionary(_, _) => c == '{'
  {
  }

  /** Nothing that could belong to a number follows. */
  predicate NumberOver(s: string, j: nat) {
    j >= |s| || (!IsDigit(s[j]) && s[j] !in ".eE")
  }

  lemma EndedIsOver(s: string, j: nat)
    requires Ended(s, j)
    ensures NumberOver(s, j)
  {
  }

  lemma {:induction false} PlacesRead(digits: string, s: string, i: nat)
    requires Holds(s, i, digits)
    ensures DigitsValue(s, i, i + |digits|) == PlaceValue(digits)
    decreases |digits|
  {
    if digits != "" {
      var n := |digits| - 1;
      HoldsChar(s, i, digits, n);
      assert digits == digits[..n] + digits[n..];
      HoldsParts(s, i, digits[..n], digits[n..]);
      PlacesRead(digits[..n], s, i);
    }
  }

  lemma NumeralRead(minus: bool, digits: string, s: string, i: nat)
    requires AreDigits(digits) && Holds(s, i, Spell(Numeral(minus, digits)))
    requires NumberOver(s, i + |Spell(Numeral(minus, digits))|)
    ensures i < |s| && (s[i] == '-' || IsDigit(s[i]))
    ensures ParseNumber(s, i) == Parsed(Meaning(Numeral(minus, digits)), i + |Spell(Numeral(minus, digits))|)
  {
    hide DigitsEnd;
    var start := if minus then i + 1 else i;
    if minus {
      HoldsParts(s, i, "-", digits);
      HoldsChar(s, i, "-", 0);
    }
    forall k | start <= k < start + |digits| ensures IsDigit(s[k]) {
      HoldsChar(s, start, digits, k - start);
    }
    DigitsEndAt(s, start, start + |digits|);
    PlacesRead(digits, s, start);
  }

  lemma QuotationRead(ps: seq<Piece>, s: string, i: nat)
    requires IsString(ps) && Holds(s, i, QuotedPieces(ps))
    ensures i < |s| && s[i] == '"' && ParseString(s, i) == Parsed(UpToNul(Bytes(ps, 0)), i + |QuotedPieces(ps)|)
  {
    hide ParseString;
    HoldsChar(s, i, QuotedPieces(ps), 0);
    StringLocal(QuotedPieces(ps), s, i, UpToNul(Bytes(ps, 0)));
  }

  /** The first character decides which of the other functions parse_value calls. */
  lemma ByFirst(s: string, i: nat, depth: nat)
    requires i < |s|
    ensures s[i] == '"' ==> ParseValue(s, i, depth) == AsText(ParseString(s, i))
    ensures s[i] == '-' || IsDigit(s[i]) ==> ParseValue(s, i, depth) == ParseNumber(s, i)
    ensures s[i] == '[' ==> ParseValue(s, i, depth) == ParseArray(s, i, depth)
    ensures s[i] == '{' ==> ParseValue(s, i, depth) == ParseObject(s, i, depth)
  {
    hide ParseString;
    hide ParseNumber;
    hide ParseArray;
    hide ParseObject;
    FirstDecides(s, i);
  }

  lemma WordsRead(s: string, i: nat, depth: nat)
    ensures Holds(s, i, "null") ==> ParseValue(s, i, depth) == Parsed(Null, i + 4)
    ensures Holds(s, i, "false") ==> ParseValue(s, i, depth) == Parsed(False, i + 5)
    ensures Holds(s, i, "true") ==> ParseValue(s, i, depth) == Parsed(True, i + 4)
  {
    if i < |s| {
      FirstDecides(s, i);
    }
  }

  lemma WordSpelled()
    ensures Spell(NullWord) == "null" && Spell(FalseWord) == "false" && Spell(TrueWord) == "true"
    ensures Meaning(NullWord) == Null && Meaning(FalseWord) == False && Meaning(TrueWord) == True
    ensures Nesting(NullWord) == Nesting(FalseWord) == Nesting(TrueWord) == 0
  {
  }

  /** What reading a document is to give. */
  function Reading(d: Doc, i: nat, depth: nat): Parsed<Value> {
    if depth + Nesting(d) <= NESTING_LIMIT then Parsed(Meaning(d), i + |Spell(d)|) else Failed
  }

  /** Every document is read as what it means, up to its end, unless it is nested too
      deeply; then it is refused. */
  lemma {:induction false} DocRead(d: Doc, s: string, i: nat, depth: nat)
    requires WellFormed(d) && Holds(s, i, Spell(d)) && depth <= NESTING_LIMIT
    requires d.Numeral? ==> NumberOver(s, i + |Spell(d)|)
    ensures ParseValue(s, i, depth) == Reading(d, i, depth)
    decreases d, 1
  {
    StartOf(d, s, i);
    ByFirst(s, i, depth);
    match d
    case Numeral(minus, digits) =>
      NumeralRead(minus, digits, s, i);
      FlatReading(d, i, depth);
    case Quotation(ps) =>
      QuotationRead(ps, s, i);
      FlatReading(d, i, depth);
    case List(inner, items) =>
      ListRead(inner, items, s, i, depth);
    case Dictionary(inner, pairs) =>
      DictionaryRead(inner, pairs, s, i, depth);
    case _ =>
      WordSpelled();
      hide Spell;
      hide Meaning;
      WordsRead(s, i, depth);
  }

  lemma FlatReading(d: Doc, i: nat, depth: nat)
    requires (d.Numeral? || d.Quotation?) && depth <= NESTING_LIMIT
    ensures Reading(d, i, depth) == Parsed(Meaning(d), i + |Spell(d)|)
  {
  }

  lemma StartOf(d: Doc, s: string, i: nat)
    requires WellFormed(d) && Holds(s, i, Spell(d))
    ensures i < |s| && Spell(d) != "" && s[i] == Spell(d)[0]
    ensures d.Numeral? ==> s[i] == '-' || IsDigit(s[i])
    ensures d.Quotation? ==> s[i] == '"'
    ensures d.List? ==> s[i] == '['
    ensures d.Dictionary? ==> s[i] == '{'
  {
    FirstOf(d);
    HoldsChar(s, i, Spell(d), 0);
  }

  // -------------------------------------------------------------------------- lists

  predicate ItemsOk(items: seq<Item>) {
    forall k :: 0 <= k < |items| ==>
      IsWhite(items[k].before) && WellFormed(items[k].doc) && IsWhite(items[k].after)
  }

  lemma ListRead(inner: string, items: seq<Item>, s: string, i: nat, depth: nat)
    requires WellFormed(List(inner, items)) && Holds(s, i, Spell(List(inner, items))) && depth <= NESTING_LIMIT
    ensures i < |s| && ParseArray(s, i, depth) == Reading(List(inner, items), i, depth)
    decreases items, |items| + 1, 1
  {
    hide IsString;
    hide ParseArray;
    hide Reading;
    var body := if items == [] then inner else SpellItems(items, 0);
    Enclosed(s, i, "[", body, "]");
    if items == [] {
      WhiteEnds(s, i + 1, inner);
      EmptyList(inner, s, i, depth, i + 1 + |body|);
    } else {
      SomeItemsRead(inner, items, s, i, depth, i + 1 + |body|);
    }
  }

  lemma SomeItemsRead(inner: string, items: seq<Item>, s: string, i: nat, depth: nat, end: nat)
    requires items != [] && ItemsOk(items) && depth <= NESTING_LIMIT
    requires Holds(s, i + 1, SpellItems(items, 0)) && end == i + 1 + |SpellItems(items, 0)| < |s| && s[end] == ']'
    ensures ParseArray(s, i, depth) == Reading(List(inner, items), i, depth)
    decreases items, |items| + 1, 0
  {
    hide ParseArray;
    hide ParseItems;
    hide Skip;
    hide Holds;
    hide Reading;
    hide Spell;
    var all := Meaning(List(inner, items)).items;
    var start := i + 1 + |items[0].before|;
    ItemStart(items, 0, s, i + 1);
    if depth < NESTING_LIMIT {
      NoSkip(s, start);
      ItemsRead(items, 0, s, start - 1, i + 1, end, depth + 1, all);
      assert all[..0] == [];
    }
    FullList(inner, items, s, i, start, depth, end);
  }

  lemma Enclosed(s: string, i: nat, open: string, body: string, close: string)
    requires Holds(s, i, open + (body + close)) && |open| == |close| == 1
    ensures i + |body| + 2 <= |s| && s[i] == open[0] && Holds(s, i + 1, body) && s[i + 1 + |body|] == close[0]
  {
    HoldsParts(s, i, open, body + close);
    HoldsParts(s, i + 1, body, close);
    HoldsChar(s, i, open, 0);
    HoldsChar(s, i + 1 + |body|, close, 0);
  }

  lemma EmptyList(inner: string, s: string, i: nat, depth: nat, end: nat)
    requires i < end < |s| && Skip(s, i + 1) == end && s[end] == ']' && end == i + 1 + |inner|
    ensures ParseArray(s, i, depth) == Reading(List(inner, []), i, depth)
  {
    assert Meaning(List(inner, [])).items == [];
    assert ItemsNesting([], 0) == 0;
  }

  /** parse_array, around its loop. */
  lemma FullList(inner: string, items: seq<Item>, s: string, i: nat, start: nat, depth: nat, end: nat)
    requires items != [] && end == i + 1 + |SpellItems(items, 0)| < |s| && s[end] == ']'
    requires i < start < |s| && Skip(s, i + 1) == start && s[start] != ']'
    requires depth < NESTING_LIMIT ==>
               ParseItems(s, start - 1, depth + 1, [])
                 == ItemsReading(items, 0, end, depth + 1, Meaning(List(inner, items)).items)
    ensures ParseArray(s, i, depth) == Reading(List(inner, items), i, depth)
  {
    AroundItems(inner, items);
    hide Spell;
    hide Meaning;
    hide Nesting;
    hide ItemsNesting;
    hide SpellItems;
    hide Skip;
    hide ParseItems;
  }

  lemma AroundItems(inner: string, items: seq<Item>)
    requires items != []
    ensures var d := List(inner, items);
            && |Spell(d)| == |SpellItems(items, 0)| + 2 && Nesting(d) == 1 + ItemsNesting(items, 0)
            && Meaning(d).Array?
  {
  }

  /** The first character of an item after its white space. */
  lemma ItemStart(items: seq<Item>, k: nat, s: string, i: nat)
    requires k < |items| && ItemsOk(items) && Holds(s, i, SpellItems(items, k))
    ensures var start := i + |items[k].before|;
            Skip(s, i) == start < |s| && s[start] == Spell(items[k].doc)[0] && !IsBlank(s[start]) && s[start] != ']'
  {
    var x := items[k];
    FirstInList(x.doc);
    hide Spell;
    hide IsString;
    hide WellFormed;
    hide Skip;
    hide IsBlank;
    ItemHead(items, k, s, i);
    hide SpellItems;
    hide Holds;
    HoldsChar(s, i + |x.before|, Spell(x.doc), 0);
    WhiteUpTo(s, i, x.before);
  }

  lemma FirstInList(d: Doc)
    requires WellFormed(d)
    ensures Spell(d) != "" && !IsBlank(Spell(d)[0]) && Spell(d)[0] != ']'
  {
    FirstOf(d);
  }

  /** The parts of an item, and what is left of the text. */
  lemma ItemParts(s: string, i: nat, before: string, text: string, after: string, more: string)
    requires Holds(s, i, before + (text + (after + more)))
    ensures Holds(s, i, before) && Holds(s, i + |before|, text) && Holds(s, i + |before| + |text|, after)
    ensures Holds(s, i + |before| + |text| + |after|, more)
  {
    HoldsParts(s, i, before, text + (after + more));
    HoldsParts(s, i + |before|, text, after + more);
    HoldsParts(s, i + |before| + |text|, after, more);
  }

  /** After a value there is white space, then a comma and more, or the bracket. */
  lemma AfterValue(s: string, j: nat, after: string, more: string, rest: string, end: nat)
    requires Holds(s, j, after) && IsWhite(after) && Holds(s, j + |after|, more)
    requires end == j + |after| + |more| < |s| && s[end] in "]}" && (more == "" || more == "," + rest)
    ensures var n := j + |after|;
            && Ended(s, j) && Skip(s, j) == n < |s| && s[n] == (if more == "" then s[end] else ',')
            && (more != "" ==> Holds(s, n + 1, rest) && end == n + 1 + |rest|)
  {
    if more != "" {
      HoldsParts(s, j + |after|, ",", rest);
      HoldsChar(s, j + |after|, ",", 0);
    }
    WhiteEnds(s, j, after);
  }

  /** The items after the k-th, with the comma in front of them. */
  function LaterItems(items: seq<Item>, k: nat): string
    requires k < |items|
  {
    if k + 1 < |items| then "," + SpellItems(items, k + 1) else ""
  }

  lemma ItemHead(items: seq<Item>, k: nat, s: string, i: nat)
    requires k < |items| && Holds(s, i, SpellItems(items, k))
    ensures var x := items[k]; var j := i + |x.before| + |Spell(x.doc)|;
            && Holds(s, i, x.before) && Holds(s, i + |x.before|, Spell(x.doc)) && Holds(s, j, x.after)
            && Holds(s, j + |x.after|, LaterItems(items, k))
            && i + |SpellItems(items, k)| == j + |x.after| + |LaterItems(items, k)|
  {
    hide Spell;
    var x := items[k];
    ItemParts(s, i, x.before, Spell(x.doc), x.after, LaterItems(items, k));
  }

  /** Where the k-th item ends, and what follows it. */
  lemma ItemLayout(items: seq<Item>, k: nat, s: string, i: nat, end: nat) returns (j: nat, n: nat)
    requires k < |items| && ItemsOk(items) && Holds(s, i, SpellItems(items, k))
    requires end == i + |SpellItems(items, k)| < |s| && s[end] == ']'
    ensures Holds(s, i + |items[k].before|, Spell(items[k].doc)) && j == i + |items[k].before| + |Spell(items[k].doc)|
    ensures Ended(s, j) && Skip(s, j) == n < |s|
    ensures k + 1 < |items| ==>
              s[n] == ',' && Holds(s, n + 1, SpellItems(items, k + 1)) && end == n + 1 + |SpellItems(items, k + 1)|
    ensures k + 1 == |items| ==> n == end
  {
    hide Spell;
    hide SpellItems;
    hide Ended;
    hide Skip;
    hide Holds;
    hide IsWhite;
    var x := items[k];
    ItemHead(items, k, s, i);
    j := i + |x.before| + |Spell(x.doc)|;
    n := j + |x.after|;
    AfterValue(s, j, x.after, LaterItems(items, k), if k + 1 < |items| then SpellItems(items, k + 1) else "", end);
  }

  function ItemsReading(items: seq<Item>, k: nat, end: nat, depth: nat, all: seq<Value>): Parsed<seq<Value>> {
    if depth + ItemsNesting(items, k) <= NESTING_LIMIT then Parsed(all, end) else Failed
  }

  /** The loop of parse_array, from an item on before which p is the bracket or comma,
      or the last of the white space after it. */
  lemma {:induction false} ItemsRead(items: seq<Item>, k: nat, s: string, p: nat, i: nat, end: nat, depth: nat,
                                     all: seq<Value>)
    requires k < |items| && ItemsOk(items) && Holds(s, i, SpellItems(items, k)) && depth <= NESTING_LIMIT
    requires end == i + |SpellItems(items, k)| < |s| && s[end] == ']'
    requires p < |s| && Skip(s, p + 1) == i + |items[k].before|
    requires |all| == |items| && forall x :: 0 <= x < |items| ==> all[x] == Meaning(items[x].doc)
    ensures ParseItems(s, p, depth, all[..k]) == ItemsReading(items, k, end, depth, all)
    decreases items, |items| - k
  {
    hide Spell;
    hide ParseValue;
    hide ParseItems;
    hide Skip;
    hide Ended;
    hide Holds;
    hide ItemsReading;
    var j, n := ItemLayout(items, k, s, i, end);
    EndedIsOver(s, j);
    DocRead(items[k].doc, s, i + |items[k].before|, depth);
    if k + 1 < |items| {
      ItemStart(items, k + 1, s, n + 1);
      ItemsRead(items, k + 1, s, n, n + 1, end, depth, all);
    }
    ItemStep(items, k, s, p, i + |items[k].before|, j, n, end, depth, all);
  }

  /** One round of that loop. */
  lemma ItemStep(items: seq<Item>, k: nat, s: string, p: nat, start: nat, j: nat, n: nat, end: nat, depth: nat,
                 all: seq<Value>)
    requires k < |items| == |all| && p < |s| && Skip(s, p + 1) == start && Skip(s, j) == n < |s|
    requires all[k] == Meaning(items[k].doc) && j == start + |Spell(items[k].doc)|
    requires ParseValue(s, start, depth) == Reading(items[k].doc, start, depth)
    requires k + 1 < |items| ==>
               s[n] == ',' && ParseItems(s, n, depth, all[..k + 1]) == ItemsReading(items, k + 1, end, depth, all)
    requires k + 1 == |items| ==> n == end && s[end] != ','
    ensures ParseItems(s, p, depth, all[..k]) == ItemsReading(items, k, end, depth, all)
  {
    hide Spell;
    hide Skip;
    hide ParseValue;
    assert all[..k] + [all[k]] == all[..k + 1];
    assert k + 1 == |items| ==> all[..k + 1] == all;
    if ParseValue(s, start, depth).Parsed? {
      assert ParseItems(s, p, depth, all[..k])
          == if s[n] == ',' then ParseItems(s, n, depth, all[..k + 1]) else Parsed(all[..k + 1], n);
      assert ItemsReading(items, k, end, depth, all) == ItemsReading(items, k + 1, end, depth, all);
    }
  }

  // ------------------------------------------------------------------- dictionaries

  predicate PairsOk(pairs: seq<Pair>) {
    forall k :: 0 <= k < |pairs| ==>
      && IsWhite(pairs[k].before) && IsString(pairs[k].name) && IsWhite(pairs[k].mid) && IsWhite(pairs[k].post)
      && WellFormed(pairs[k].doc) && IsWhite(pairs[k].after)
  }

  lemma DictionaryRead(inner: string, pairs: seq<Pair>, s: string, i: nat, depth: nat)
    requires WellFormed(Dictionary(inner, pairs)) && Holds(s, i, Spell(Dictionary(inner, pairs)))
    requires depth <= NESTING_LIMIT
    ensures i < |s| && ParseObject(s, i, depth) == Reading(Dictionary(inner, pairs), i, depth)
    decreases pairs, |pairs| + 1, 1
  {
    hide IsString;
    hide ParseObject;
    hide Reading;
    var body := if pairs == [] then inner else SpellPairs(pairs, 0);
    Enclosed(s, i, "{", body, "}");
    if pairs == [] {
      WhiteEnds(s, i + 1, inner);
      EmptyDictionary(inner, s, i, depth, i + 1 + |body|);
    } else {
      SomePairsRead(inner, pairs, s, i, depth, i + 1 + |body|);
    }
  }

  lemma SomePairsRead(inner: string, pairs: seq<Pair>, s: string, i: nat, depth: nat, end: nat)
    requires pairs != [] && PairsOk(pairs) && depth <= NESTING_LIMIT
    requires Holds(s, i + 1, SpellPairs(pairs, 0)) && end == i + 1 + |SpellPairs(pairs, 0)| < |s| && s[end] == '}'
    ensures ParseObject(s, i, depth) == Reading(Dictionary(inner, pairs), i, depth)
    decreases pairs, |pairs| + 1, 0
  {
    hide ParseObject;
    hide ParseMembers;
    hide Skip;
    hide Holds;
    hide Reading;
    hide Spell;
    var all := Meaning(Dictionary(inner, pairs)).members;
    var start := i + 1 + |pairs[0].before|;
    PairStart(pairs, 0, s, i + 1);
    if depth < NESTING_LIMIT {
      NoSkip(s, start);
      PairsRead(pairs, 0, s, start - 1, i + 1, end, depth + 1, all);
      assert all[..0] == [];
    }
    FullDictionary(inner, pairs, s, i, start, depth, end);
  }

  lemma EmptyDictionary(inner: string, s: string, i: nat, depth: nat, end: nat)
    requires i < end < |s| && Skip(s, i + 1) == end && s[end] == '}' && end == i + 1 + |inner|
    ensures ParseObject(s, i, depth) == Reading(Dictionary(inner, []), i, depth)
  {
    assert Meaning(Dictionary(inner, [])).members == [];
    assert PairsNesting([], 0) == 0;
  }

  /** parse_object, around its loop. */
  lemma FullDictionary(inner: string, pairs: seq<Pair>, s: string, i: nat, start: nat, depth: nat, end: nat)
    requires pairs != [] && end == i + 1 + |SpellPairs(pairs, 0)| < |s| && s[end] == '}'
    requires i < start < |s| && Skip(s, i + 1) == start && s[start] != '}'
    requires depth < NESTING_LIMIT ==>
               ParseMembers(s, start - 1, depth + 1, [])
                 == PairsReading(pairs, 0, end, depth + 1, Meaning(Dictionary(inner, pairs)).members)
    ensures ParseObject(s, i, depth) == Reading(Dictionary(inner, pairs), i, depth)
  {
    hide ParseMembers;
    AroundPairs(inner, pairs);
    hide Spell;
    hide Meaning;
    hide Nesting;
    hide PairsNesting;
    hide SpellPairs;
    hide Skip;
  }

  lemma AroundPairs(inner: string, pairs: seq<Pair>)
    requires pairs != []
    ensures var d := Dictionary(inner, pairs);
            && |Spell(d)| == |SpellPairs(pairs, 0)| + 2 && Nesting(d) == 1 + PairsNesting(pairs, 0)
            && Meaning(d).Object?
  {
  }

  /** The first character of a pair after its white space is a quote. */
  lemma PairStart(pairs: seq<Pair>, k: nat, s: string, i: nat)
    requires k < |pairs| && PairsOk(pairs) && Holds(s, i, SpellPairs(pairs, k))
    ensures var start := i + |pairs[k].before|; Skip(s, i) == start < |s| && s[start] == '"'
  {
    hide IsString;
    hide WellFormed;
    hide Spell;
    hide Spelled;
    var x := pairs[k];
    var rest := x.mid + (":" + (x.post + (Spell(x.doc) + (x.after +
      if k + 1 < |pairs| then "," + SpellPairs(pairs, k + 1) else ""))));
    HoldsParts(s, i, x.before, QuotedPieces(x.name) + rest);
    HoldsParts(s, i + |x.before|, QuotedPieces(x.name), rest);
    HoldsChar(s, i + |x.before|, QuotedPieces(x.name), 0);
    WhiteUpTo(s, i, x.before);
  }

  /** A name, white space, a colon and white space, up to where the value starts. */
  lemma NameRead(name: seq<Piece>, mid: string, post: string, rest: string, s: string, p: nat, q: nat)
    returns (start: nat)
    requires IsString(name) && IsWhite(mid) && IsWhite(post) && rest != "" && !IsBlank(rest[0])
    requires Holds(s, q, QuotedPieces(name) + (mid + (":" + (post + rest)))) && p < |s| && Skip(s, p + 1) == q
    ensures start == q + |QuotedPieces(name)| + |mid| + 1 + |post| && Holds(s, start, rest)
    ensures ParseName(s, p) == Parsed(UpToNul(Bytes(name, 0)), start)
  {
    hide Holds;
    hide Utf8;
    hide QuotedPieces;
    hide ParseName;
    hide ParseString;
    hide IsString;
    hide IsWhite;
    var c := q + |QuotedPieces(name)|;
    HoldsParts(s, q, QuotedPieces(name), mid + (":" + (post + rest)));
    HoldsParts(s, c, mid, ":" + (post + rest));
    HoldsParts(s, c + |mid|, ":", post + rest);
    HoldsParts(s, c + |mid| + 1, post, rest);
    HoldsChar(s, c + |mid|, ":", 0);
    start := c + |mid| + 1 + |post|;
    HoldsChar(s, start, rest, 0);
    QuotationRead(name, s, q);
    WhiteUpTo(s, c, mid);
    WhiteUpTo(s, c + |mid| + 1, post);
    NameStep(s, p, q, UpToNul(Bytes(name, 0)), c, c + |mid|, start);
  }

  lemma NameStep(s: string, p: nat, q: nat, name: string, c: nat, colon: nat, start: nat)
    requires p < |s| && Skip(s, p + 1) == q < |s| && ParseString(s, q) == Parsed(name, c)
    requires Skip(s, c) == colon < |s| && s[colon] == ':' && Skip(s, colon + 1) == start
    ensures ParseName(s, p) == Parsed(name, start)
  {
    hide ParseString;
  }

  /** The pairs after the k-th, with the comma in front of them. */
  function LaterPairs(pairs: seq<Pair>, k: nat): string
    requires k < |pairs|
  {
    if k + 1 < |pairs| then "," + SpellPairs(pairs, k + 1) else ""
  }

  /** Where the value of the k-th pair starts. */
  lemma PairHead(pairs: seq<Pair>, k: nat, s: string, p: nat, i: nat) returns (start: nat)
    requires k < |pairs| && PairsOk(pairs) && Holds(s, i, SpellPairs(pairs, k))
    requires p < |s| && Skip(s, p + 1) == i + |pairs[k].before|
    ensures ParseName(s, p) == Parsed(UpToNul(Bytes(pairs[k].name, 0)), start)
    ensures Holds(s, start, Spell(pairs[k].doc) + (pairs[k].after + LaterPairs(pairs, k)))
    ensures i + |SpellPairs(pairs, k)| == start + |Spell(pairs[k].doc)| + |pairs[k].after| + |LaterPairs(pairs, k)|
  {
    hide Spell;
    var x := pairs[k];
    FirstOf(x.doc);
    hide Skip;
    hide ParseName;
    hide QuotedPieces;
    hide IsWhite;
    hide IsString;
    var rest := Spell(x.doc) + (x.after + LaterPairs(pairs, k));
    assert rest[0] == Spell(x.doc)[0];
    HoldsParts(s, i, x.before, QuotedPieces(x.name) + (x.mid + (":" + (x.post + rest))));
    start := NameRead(x.name, x.mid, x.post, rest, s, p, i + |x.before|);
  }

  /** Where it ends, and what follows it. */
  lemma PairLayout(pairs: seq<Pair>, k: nat, s: string, p: nat, i: nat, end: nat) returns (start: nat, j: nat, n: nat)
    requires k < |pairs| && PairsOk(pairs) && Holds(s, i, SpellPairs(pairs, k))
    requires end == i + |SpellPairs(pairs, k)| < |s| && s[end] == '}'
    requires p < |s| && Skip(s, p + 1) == i + |pairs[k].before|
    ensures ParseName(s, p) == Parsed(UpToNul(Bytes(pairs[k].name, 0)), start)
    ensures Holds(s, start, Spell(pairs[k].doc)) && j == start + |Spell(pairs[k].doc)|
    ensures Ended(s, j) && Skip(s, j) == n < |s|
    ensures k + 1 < |pairs| ==>
              s[n] == ',' && Holds(s, n + 1, SpellPairs(pairs, k + 1)) && end == n + 1 + |SpellPairs(pairs, k + 1)|
    ensures k + 1 == |pairs| ==> n == end
  {
    hide Spell;
    hide SpellPairs;
    hide Ended;
    hide Skip;
    hide ParseName;
    hide IsWhite;
    var x, more := pairs[k], LaterPairs(pairs, k);
    start := PairHead(pairs, k, s, p, i);
    HoldsParts(s, start, Spell(x.doc), x.after + more);
    j := start + |Spell(x.doc)|;
    n := j + |x.after|;
    HoldsParts(s, j, x.after, more);
    AfterValue(s, j, x.after, more, if k + 1 < |pairs| then SpellPairs(pairs, k + 1) else "", end);
  }

  function PairsReading(pairs: seq<Pair>, k: nat, end: nat, depth: nat, all: seq<Member>): Parsed<seq<Member>> {
    if depth + PairsNesting(pairs, k) <= NESTING_LIMIT then Parsed(all, end) else Failed
  }

  /** The loop of parse_object. */
  lemma {:induction false} PairsRead(pairs: seq<Pair>, k: nat, s: string, p: nat, i: nat, end: nat, depth: nat,
                                     all: seq<Member>)
    requires k < |pairs| && PairsOk(pairs) && Holds(s, i, SpellPairs(pairs, k)) && depth <= NESTING_LIMIT
    requires end == i + |SpellPairs(pairs, k)| < |s| && s[end] == '}'
    requires p < |s| && Skip(s, p + 1) == i + |pairs[k].before|
    requires |all| == |pairs| && forall x :: 0 <= x < |pairs| ==> all[x] == MeaningOf(pairs[x])
    ensures ParseMembers(s, p, depth, all[..k]) == PairsReading(pairs, k, end, depth, all)
    decreases pairs, |pairs| - k
  {
    hide SpellPairs;
    hide Spell;
    hide ParseValue;
    hide ParseMembers;
    hide ParseName;
    hide Skip;
    hide Ended;
    hide Holds;
    hide MeaningOf;
    hide PairsReading;
    var start, j, n := PairLayout(pairs, k, s, p, i, end);
    EndedIsOver(s, j);
    DocRead(pairs[k].doc, s, start, depth);
    if k + 1 < |pairs| {
      PairStart(pairs, k + 1, s, n + 1);
      PairsRead(pairs, k + 1, s, n, n + 1, end, depth, all);
    }
    PairStep(pairs, k, s, p, start, j, n, end, depth, all);
  }

  /** One round of that loop. */
  lemma PairStep(pairs: seq<Pair>, k: nat, s: string, p: nat, start: nat, j: nat, n: nat, end: nat, depth: nat,
                 all: seq<Member>)
    requires k < |pairs| == |all| && p < |s| && Skip(s, j) == n < |s|
    requires ParseName(s, p) == Parsed(UpToNul(Bytes(pairs[k].name, 0)), start)
    requires all[k] == MeaningOf(pairs[k]) && j == start + |Spell(pairs[k].doc)|
    requires ParseValue(s, start, depth) == Reading(pairs[k].doc, start, depth)
    requires k + 1 < |pairs| ==>
               s[n] == ',' && ParseMembers(s, n, depth, all[..k + 1]) == PairsReading(pairs, k + 1, end, depth, all)
    requires k + 1 == |pairs| ==> n == end && s[end] != ','
    ensures ParseMembers(s, p, depth, all[..k]) == PairsReading(pairs, k, end, depth, all)
  {
    hide Spell;
    hide Skip;
    hide ParseValue;
    hide ParseName;
    assert all[..k] + [all[k]] == all[..k + 1];
    assert k + 1 == |pairs| ==> all[..k + 1] == all;
    if ParseValue(s, start, depth).Parsed? {
      assert ParseMember(s, p, depth) == Parsed(all[k], n);
      assert ParseMembers(s, p, depth, all[..k])
          == if s[n] == ',' then ParseMembers(s, n, depth, all[..k + 1]) else Parsed(all[..k + 1], n);
      assert PairsReading(pairs, k, end, depth, all) == PairsReading(pairs, k + 1, end, depth, all);
    }
  }

  // ---------------------------------------------------------------- whole documents

  predicate NoNul(t: string) {
    forall k :: 0 <= k < |t| ==> t[k] != '\0'
  }

  lemma NoNulTwo(a: string, b: string)
    ensures NoNul(a + b) <==> NoNul(a) && NoNul(b)
  {
    if NoNul(a + b) {
      forall k | 0 <= k < |a| ensures a[k] != '\0' {
        assert (a + b)[k] == a[k];
      }
      forall k | 0 <= k < |b| ensures b[k] != '\0' {
        assert (a + b)[|a| + k] == b[k];
      }
    }
  }

  lemma QuotedNoNul(ps: seq<Piece>)
    requires IsQuotable(ps)
    ensures NoNul(QuotedPieces(ps))
  {
    forall k | 0 <= k < |ps| ensures IsPiece(ps[k]) {
      assert IsAllowed(ps[k]);
    }
    AllAllowed(ps, 0);
    assert NoControl(Spelled(ps, 0));
  }

  /** No document contains a NUL. */
  lemma {:induction false} DocNoNul(d: Doc)
    requires IsJson(d)
    ensures NoNul(Spell(d))
    decreases d, 1
  {
    hide SpellPairs;
    match d
    case Quotation(ps) =>
      QuotedNoNul(ps);
    case List(inner, items) =>
      if items != [] {
        ItemsNoNul(items, 0);
      }
      EnclosedNoNul("[", if items == [] then inner else SpellItems(items, 0), "]");
    case Dictionary(inner, pairs) =>
      if pairs != [] {
        PairsNoNul(pairs, 0);
      }
      EnclosedNoNul("{", if pairs == [] then inner else SpellPairs(pairs, 0), "}");
    case _ =>
  }

  lemma EnclosedNoNul(a: string, b: string, c: string)
    requires NoNul(a) && NoNul(b) && NoNul(c)
    ensures NoNul(a + (b + c))
  {
    NoNulTwo(b, c);
    NoNulTwo(a, b + c);
  }

  predicate JsonItems(items: seq<Item>) {
    forall k :: 0 <= k < |items| ==> IsSpace(items[k].before) && IsJson(items[k].doc) && IsSpace(items[k].after)
  }

  predicate JsonPairs(pairs: seq<Pair>) {
    forall k :: 0 <= k < |pairs| ==>
      && IsSpace(pairs[k].before) && IsQuotable(pairs[k].name) && IsSpace(pairs[k].mid) && IsSpace(pairs[k].post)
      && IsJson(pairs[k].doc) && IsSpace(pairs[k].after)
  }

  lemma {:induction false} ItemsNoNul(items: seq<Item>, k: nat)
    requires k < |items| && JsonItems(items)
    ensures NoNul(SpellItems(items, k))
    decreases items, |items| - k
  {
    var x := items[k];
    var more := LaterItems(items, k);
    DocNoNul(x.doc);
    if k + 1 < |items| {
      ItemsNoNul(items, k + 1);
      NoNulTwo(",", SpellItems(items, k + 1));
    }
    hide Spell;
    EnclosedNoNul(Spell(x.doc), x.after, more);
    NoNulTwo(x.before, Spell(x.doc) + (x.after + more));
  }

  lemma {:induction false} PairsNoNul(pairs: seq<Pair>, k: nat)
    requires k < |pairs| && JsonPairs(pairs)
    ensures NoNul(SpellPairs(pairs, k))
    decreases pairs, |pairs| - k
  {
    var x, more := pairs[k], LaterPairs(pairs, k);
    DocNoNul(x.doc);
    QuotedNoNul(x.name);
    if k + 1 < |pairs| {
      PairsNoNul(pairs, k + 1);
      NoNulTwo(",", SpellPairs(pairs, k + 1));
    }
    hide Spell;
    hide QuotedPieces;
    EnclosedNoNul(Spell(x.doc), x.after, more);
    NoNulTwo(x.post, Spell(x.doc) + (x.after + more));
    EnclosedNoNul(x.mid, ":", x.post + (Spell(x.doc) + (x.after + more)));
    EnclosedNoNul(x.before, QuotedPieces(x.name), x.mid + (":" + (x.post + (Spell(x.doc) + (x.after + more)))));
  }

  /** A text in the buffer that cJSON_ParseWithOpts works on. */
  function BufferOf(mark: string, before: string, t: string, after: string): string {
    mark + (before + (t + (after + "\0")))
  }

  lemma TextOfBuffer(mark: string, before: string, t: string, after: string)
    requires NoNul(mark) && NoNul(t) && IsSpace(before) && IsSpace(after)
    ensures var text := mark + (before + (t + after)); UpToNul(text) + "\0" == BufferOf(mark, before, t, after)
  {
    var text := mark + (before + (t + after));
    NoNulTwo(t, after);
    NoNulTwo(before, t + after);
    NoNulTwo(mark, before + (t + after));
    NoNulKept(text, 0);
    assert text[..|text|] == text;
    assert (t + after) + "\0" == t + (after + "\0");
    assert (before + (t + after)) + "\0" == before + (t + (after + "\0"));
  }

  lemma BufferParts(mark: string, before: string, t: string, after: string)
    ensures var s, i := BufferOf(mark, before, t, after), |mark| + |before|;
            && Holds(s, 0, mark) && Holds(s, |mark|, before) && Holds(s, i, t) && Holds(s, i + |t|, after)
            && Holds(s, i + |t| + |after|, "\0") && |s| == i + |t| + |after| + 1
  {
    var s, i := BufferOf(mark, before, t, after), |mark| + |before|;
    assert s == s[0..|s|];
    HoldsParts(s, 0, mark, before + (t + (after + "\0")));
    ItemParts(s, |mark|, before, t, after, "\0");
  }

  lemma BufferLayout(mark: string, before: string, t: string, after: string)
    requires IsWhite(before) && IsWhite(after) && t != "" && !IsBlank(t[0])
    ensures var s, i := BufferOf(mark, before, t, after), |mark| + |before|;
            Holds(s, 0, mark) && Skip(s, |mark|) == i && Holds(s, i, t)
    ensures var s, j := BufferOf(mark, before, t, after), |mark| + |before| + |t|;
            Ended(s, j) && Skip(s, j) == |s| - 1 && |s| > j && s[|s| - 1] == '\0'
  {
    var s, i, j := BufferOf(mark, before, t, after), |mark| + |before|, |mark| + |before| + |t|;
    BufferParts(mark, before, t, after);
    hide BufferOf;
    HoldsChar(s, i, t, 0);
    HoldsChar(s, j + |after|, "\0", 0);
    WhiteUpTo(s, |mark|, before);
    WhiteToEnd(s, j, after);
  }

  /** White space up to the NUL at the end: no number goes on there. */
  lemma WhiteToEnd(s: string, j: nat, w: string)
    requires Holds(s, j, w) && IsWhite(w) && j + |w| + 1 == |s| && s[|s| - 1] == '\0'
    ensures Ended(s, j) && Skip(s, j) == |s| - 1
  {
    WhiteSkipped(s, j, w);
    BlankSkipped(s, |s| - 1);
    if w != "" {
      HoldsChar(s, j, w, 0);
    }
  }

  /** The byte order mark is found exactly if it is there. */
  lemma MarkFound(bom: bool, before: string, t: string, after: string)
    requires IsWhite(before) && t != "" && t[0] != '\U{ef}'
    ensures var s := BufferOf(if bom then BOM else "", before, t, after); 4 < |s| && Holds(s, 0, BOM) <==> bom
  {
    var s := BufferOf(if bom then BOM else "", before, t, after);
    if bom {
      assert s[0..3] == BOM;
    } else {
      assert s[0] == if before != "" then before[0] else t[0];
      NoBom(s);
    }
  }

  /** A document with white space around it, and a byte order mark in front or not, is
      read as what it means, unless it is nested more than 1000 deep. */
  lemma DocumentRead(d: Doc, bom: bool, before: string, after: string, strict: bool)
    requires IsJson(d) && IsSpace(before) && IsSpace(after)
    ensures Parse((if bom then BOM else "") + (before + (Spell(d) + after)), strict)
              == if Nesting(d) <= 1000 then Some(Meaning(d)) else None
  {
    hide ParseValue;
    hide WellFormed;
    hide IsJson;
    hide BufferOf;
    JsonIsWellFormed(d);
    SpaceIsWhite(before);
    SpaceIsWhite(after);
    DocNoNul(d);
    FirstIsPlain(d);
    var mark := if bom then BOM else "";
    hide Spell;
    hide Meaning;
    hide Nesting;
    hide Holds;
    hide Skip;
    hide Ended;
    hide NoNul;
    hide IsWhite;
    hide Parse;
    BufferLayout(mark, before, Spell(d), after);
    EndedIsOver(BufferOf(mark, before, Spell(d), after), |mark| + |before| + |Spell(d)|);
    DocRead(d, BufferOf(mark, before, Spell(d), after), |mark| + |before|, 0);
    TextAround(Spell(d), bom, before, after, strict, Reading(d, |mark| + |before|, 0));
  }

  lemma FirstIsPlain(d: Doc)
    requires WellFormed(d)
    ensures Spell(d) != "" && !IsBlank(Spell(d)[0]) && Spell(d)[0] != '\U{ef}'
  {
    FirstOf(d);
  }

  lemma MarkNoNul()
    ensures NoNul(BOM) && NoNul("")
  {
    assert |BOM| == 3 && BOM[0] != '\0' && BOM[1] != '\0' && BOM[2] != '\0';
  }

  lemma TextAround(t: string, bom: bool, before: string, after: string, strict: bool, r: Parsed<Value>)
    requires t != "" && !IsBlank(t[0]) && t[0] != '\U{ef}' && NoNul(t) && IsSpace(before) && IsSpace(after)
    requires var mark := if bom then BOM else "";
             && ParseValue(BufferOf(mark, before, t, after), |mark| + |before|, 0) == r
             && (r.Parsed? ==> r.next == |mark| + |before| + |t|)
    ensures Parse((if bom then BOM else "") + (before + (t + after)), strict)
              == if r.Parsed? then Some(r.value) else None
  {
    hide BufferOf;
    hide NoNul;
    hide IsSpace;
    hide IsWhite;
    hide Holds;
    hide Ended;
    hide Skip;
    hide Parse;
    hide ParseValue;
    hide UpToNul;
    var mark := if bom then BOM else "";
    SpaceIsWhite(before);
    SpaceIsWhite(after);
    MarkNoNul();
    TextOfBuffer(mark, before, t, after);
    BufferLayout(mark, before, t, after);
    MarkFound(bom, before, t, after);
    TextRead(mark + (before + (t + after)), BufferOf(mark, before, t, after), |mark|, |mark| + |before|, r, strict);
  }

  /** cJSON_ParseWithOpts, from the parts of the buffer. */
  lemma TextRead(text: string, s: string, start: nat, i: nat, r: Parsed<Value>, strict: bool)
    requires s == UpToNul(text) + "\0" && start == (if 4 < |s| && Holds(s, 0, BOM) then 3 else 0)
    requires Skip(s, start) == i && ParseValue(s, i, 0) == r
    requires r.Parsed? ==> Skip(s, r.next) == |s| - 1 && s[|s| - 1] == '\0'
    ensures Parse(text, strict) == if r.Parsed? then Some(r.value) else None
  {
    hide ParseValue;
    hide Skip;
    hide UpToNul;
  }
}
