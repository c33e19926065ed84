/** What cJSON prints, as documents of the grammar: printing followed by parsing gives
    every value back. */
module JsonRoundTrip {
  import opened Options
  import opened Json
  import opened JsonBuffers
  import opened JsonEscapes
  import opened JsonGrammar

  // ------------------------------------------------------------------------ strings

  function PiecesFor(t: string): seq<Piece> {
    seq(|t|, k requires 0 <= k < |t| => Piece(Escape(t[k]), [t[k]]))
  }

  lemma {:induction false} PiecesSpelled(t: string, k: nat)
    requires k <= |t|
    ensures Spelled(PiecesFor(t), k) == Escaped(t, k) && Bytes(PiecesFor(t), k) == t[k..]
    decreases |t| - k
  {
    if k < |t| {
      PiecesSpelled(t, k + 1);
      assert [t[k]] + t[k + 1..] == t[k..];
    }
  }

  /** An escape is used exactly where section 7 does not allow the character itself. */
  lemma EscapeAllowed(c: char)
    requires IsPlainChar(c)
    ensures IsAllowed(Piece(Escape(c), [c]))
    ensures if c == '"' || c == '\\' || c as int < 0x20 then |Escape(c)| == 2 else Escape(c) == [c]
  {
    if |Escape(c)| == 2 {
      ShortEscapes(Escape(c)[1], c);
    }
  }

  /** A printed string is a quotation of section 7 and stands for the string. */
  lemma QuotedAsSpelled(t: string)
    requires IsPlainString(t)
    ensures QuotedPieces(PiecesFor(t)) == Quoted(t)
    ensures IsQuotable(PiecesFor(t)) && UpToNul(Bytes(PiecesFor(t), 0)) == t
  {
    PiecesSpelled(t, 0);
    forall k | 0 <= k < |t| ensures IsAllowed(PiecesFor(t)[k]) {
      assert IsPlainChar(t[k]);
      EscapeAllowed(t[k]);
    }
    assert t[0..] == t;
    NoNulKept(t, 0);
    assert t[..|t|] == t;
  }

  // ------------------------------------------------------------------------ numbers

  /** A printed integer has digits of section 6, which stand for it. */
  lemma {:induction false} DigitsMean(n: nat)
    ensures IsInteger(Digits(n)) && PlaceValue(Digits(n)) == n && (n > 0 ==> Digits(n)[0] != '0')
  {
    var last := [DigitChar(n % 10)];
    if n >= 10 {
      DigitsMean(n / 10);
      assert Digits(n)[..|Digits(n)| - 1] == Digits(n / 10);
      assert Digits(n)[0] == Digits(n / 10)[0];
    } else {
      assert Digits(n)[..0] == "" && PlaceValue("") == 0;
    }
  }

  // ---------------------------------------------------------------------- documents

  function Gap(format: bool, depth: nat): string {
    if format then "\n" + Tabs(depth) else ""
  }

  /** The document that is printed for a value. */
  function DocOf(v: Value, format: bool, depth: nat): Doc
    decreases v
  {
    match v
    case Null => NullWord
    case False => FalseWord
    case True => TrueWord
    case Number(n) => Numeral(n < 0, Digits(if n < 0 then -n else n))
    case Text(t) => Quotation(PiecesFor(t))
    case Array(items) =>
      List("", seq(|items|, k requires 0 <= k < |items| =>
                     Item(if format && k > 0 then " " else "", DocOf(items[k], format, depth + 1), "")))
    case Object(members) =>
      Dictionary(Gap(format, depth), seq(|members|, k requires 0 <= k < |members| =>
                   PairOf(members[k], k + 1 == |members|, format, depth)))
  }

  function PairOf(m: Member, last: bool, format: bool, depth: nat): Pair
    decreases m
  {
    Pair(Gap(format, depth + 1), PiecesFor(m.name), "", if format then "\t" else "", DocOf(m.value, format, depth + 1),
         if last then Gap(format, depth) else "")
  }

  lemma {:induction false} TabsAreSpace(n: nat)
    ensures IsSpace(Tabs(n))
  {
    if n > 0 {
      TabsAreSpace(n - 1);
    }
  }

  /** It is well formed, means the value and is nested as deep. */
  lemma {:induction false} DocMeans(v: Value, format: bool, depth: nat)
    requires IsPlain(v)
    ensures IsJson(DocOf(v, format, depth)) && Meaning(DocOf(v, format, depth)) == v
    decreases v
  {
    match v
    case Number(n) =>
      DigitsMean(if n < 0 then -n else n);
    case Text(t) =>
      QuotedAsSpelled(t);
    case Array(items) =>
      ArrayMeans(items, format, depth);
    case Object(members) =>
      ObjectMeans(members, format, depth);
    case _ =>
  }

  lemma ArrayMeans(items: seq<Value>, format: bool, depth: nat)
    requires ArePlain(items)
    ensures var d := DocOf(Array(items), format, depth); IsJson(d) && Meaning(d) == Array(items)
    decreases items
  {
    var d := DocOf(Array(items), format, depth);
    forall k | 0 <= k < |items|
      ensures IsJson(d.items[k].doc) && Meaning(d.items[k].doc) == items[k]
    {
      DocMeans(items[k], format, depth + 1);
    }
    assert Meaning(d).items == items;
  }

  lemma ObjectMeans(members: seq<Member>, format: bool, depth: nat)
    requires ArePlainMembers(members)
    ensures var d := DocOf(Object(members), format, depth); IsJson(d) && Meaning(d) == Object(members)
    decreases members
  {
    var d := DocOf(Object(members), format, depth);
    TabsAreSpace(depth);
    forall k | 0 <= k < |members|
      ensures JsonPairs([d.pairs[k]]) && MeaningOf(d.pairs[k]) == members[k]
    {
      PairMeans(members[k], k + 1 == |members|, format, depth);
    }
    AllJsonPairs(d.pairs);
    assert Meaning(d).members == members;
  }

  lemma AllJsonPairs(pairs: seq<Pair>)
    requires forall k :: 0 <= k < |pairs| ==> JsonPairs([pairs[k]])
    ensures JsonPairs(pairs)
  {
    forall k | 0 <= k < |pairs|
      ensures IsSpace(pairs[k].before) && IsQuotable(pairs[k].name) && IsSpace(pairs[k].mid) && IsSpace(pairs[k].post)
      ensures IsJson(pairs[k].doc) && IsSpace(pairs[k].after)
    {
      assert [pairs[k]][0] == pairs[k];
    }
  }

  lemma PairMeans(m: Member, last: bool, format: bool, depth: nat)
    requires IsPlainString(m.name) && IsPlain(m.value)
    ensures JsonPairs([PairOf(m, last, format, depth)]) && MeaningOf(PairOf(m, last, format, depth)) == m
    decreases m
  {
    TabsAreSpace(depth);
    TabsAreSpace(depth + 1);
    DocMeans(m.value, format, depth + 1);
    QuotedAsSpelled(m.name);
  }

  // ----------------------------------------------------------------- printed as spelled

  /** What is printed for a value is the text of its document. */
  lemma {:induction false} PrintedAsSpelled(v: Value, format: bool, depth: nat)
    requires IsPlain(v) && Printed(v, format, depth).Some?
    ensures Printed(v, format, depth).value == Spell(DocOf(v, format, depth))
    decreases v, 1
  {
    match v
    case Text(t) =>
      QuotedAsSpelled(t);
    case Array(items) =>
      if items != [] {
        ItemsAsSpelled(items, 0, format, depth);
      }
      ArrayAsSpelled(items, format, depth);
    case Object(members) =>
      if members != [] {
        MembersAsSpelled(members, 0, format, depth);
      }
      ObjectAsSpelled(members, format, depth);
    case _ =>
  }

  lemma ArrayAsSpelled(items: seq<Value>, format: bool, depth: nat)
    requires depth < NESTING_LIMIT && PrintedItems(items, 0, format, depth + 1).Some?
    requires var d := DocOf(Array(items), format, depth);
             items != [] ==> SpellItems(d.items, 0) == PrintedItems(items, 0, format, depth + 1).value
    ensures Printed(Array(items), format, depth) == Some(Spell(DocOf(Array(items), format, depth)))
  {
    var t := PrintedItems(items, 0, format, depth + 1).value;
    assert "[" + (t + "]") == "[" + t + "]";
  }

  lemma {:induction false} ItemsAsSpelled(items: seq<Value>, k: nat, format: bool, depth: nat)
    requires k < |items| && ArePlain(items) && PrintedItems(items, k, format, depth + 1).Some?
    ensures var d := DocOf(Array(items), format, depth);
            SpellItems(d.items, k)
              == (if format && k > 0 then " " else "") + PrintedItems(items, k, format, depth + 1).value
    decreases items, |items| - k
  {
    var d := DocOf(Array(items), format, depth);
    PrintedAsSpelled(items[k], format, depth + 1);
    if k + 1 < |items| {
      ItemsAsSpelled(items, k + 1, format, depth);
    }
    ItemAsSpelled(items, k, format, depth, d.items);
  }

  lemma ItemAsSpelled(items: seq<Value>, k: nat, format: bool, depth: nat, xs: seq<Item>)
    requires k < |items| == |xs| && PrintedItems(items, k, format, depth + 1).Some?
    requires xs[k].before == (if format && k > 0 then " " else "") && xs[k].after == ""
    requires Printed(items[k], format, depth + 1) == Some(Spell(xs[k].doc))
    requires k + 1 < |items| ==>
               SpellItems(xs, k + 1)
                 == (if format then " " else "") + PrintedItems(items, k + 1, format, depth + 1).value
    ensures SpellItems(xs, k)
              == (if format && k > 0 then " " else "") + PrintedItems(items, k, format, depth + 1).value
  {
    hide Printed;
    hide Spell;
    hide DocOf;
    var rest := PrintedItems(items, k + 1, format, depth + 1).value;
    var tail := if k + 1 < |items| then "," + SpellItems(xs, k + 1) else "";
    if k + 1 < |items| {
      CommaFirst(format, rest);
    }
    ItemLine(xs[k].before, Spell(xs[k].doc), Separator(k + 1 < |items|, format), rest, tail);
  }

  lemma CommaFirst(format: bool, rest: string)
    ensures "," + ((if format then " " else "") + rest) == Separator(true, format) + rest
  {
  }

  lemma ItemLine(before: string, t: string, separator: string, rest: string, tail: string)
    requires tail == separator + rest
    ensures before + (t + ("" + tail)) == before + (t + separator + rest)
  {
    assert t + ("" + tail) == t + separator + rest;
  }

  lemma ObjectAsSpelled(members: seq<Member>, format: bool, depth: nat)
    requires depth < NESTING_LIMIT && PrintedMembers(members, 0, format, depth + 1).Some?
    requires var d := DocOf(Object(members), format, depth);
             members != [] ==>
               SpellPairs(d.pairs, 0)
                 == (if format then "\n" else "") + PrintedMembers(members, 0, format, depth + 1).value
                      + (if format then Tabs(depth) else "")
    ensures Printed(Object(members), format, depth) == Some(Spell(DocOf(Object(members), format, depth)))
  {
    hide DocOf;
    var t := PrintedMembers(members, 0, format, depth + 1).value;
    EmptyObject(format, depth);
    BracesAround(t, format, depth);
    SpelledObject(members, format, depth, t);
  }

  lemma EmptyObject(format: bool, depth: nat)
    ensures PrintedMembers([], 0, format, depth + 1) == Some("")
    ensures DocOf(Object([]), format, depth) == Dictionary(Gap(format, depth), [])
  {
  }

  lemma BracesAround(t: string, format: bool, depth: nat)
    ensures "{" + (((if format then "\n" else "") + t + (if format then Tabs(depth) else "")) + "}")
              == if format then "{\n" + t + Tabs(depth) + "}" else "{" + t + "}"
  {
    if format {
      assert "{" + (("\n" + t + Tabs(depth)) + "}") == "{\n" + t + Tabs(depth) + "}";
    } else {
      assert ("" + t) + "" == t;
    }
  }

  lemma SpelledObject(members: seq<Member>, format: bool, depth: nat, t: string)
    requires var d := DocOf(Object(members), format, depth);
             members != [] ==>
               SpellPairs(d.pairs, 0) == (if format then "\n" else "") + t + (if format then Tabs(depth) else "")
    requires members == [] ==> t == ""
    ensures Spell(DocOf(Object(members), format, depth))
              == "{" + (((if format then "\n" else "") + t + (if format then Tabs(depth) else "")) + "}")
  {
    assert members == [] ==>
             Gap(format, depth) == (if format then "\n" else "") + t + (if format then Tabs(depth) else "");
  }

  lemma {:induction false} MembersAsSpelled(members: seq<Member>, k: nat, format: bool, depth: nat)
    requires k < |members| && ArePlainMembers(members) && PrintedMembers(members, k, format, depth + 1).Some?
    ensures var d := DocOf(Object(members), format, depth);
            SpellPairs(d.pairs, k)
              == (if format then "\n" else "") + PrintedMembers(members, k, format, depth + 1).value
                   + (if format then Tabs(depth) else "")
    decreases members, |members| - k
  {
    var d := DocOf(Object(members), format, depth);
    PrintedAsSpelled(members[k].value, format, depth + 1);
    QuotedAsSpelled(members[k].name);
    if k + 1 < |members| {
      MembersAsSpelled(members, k + 1, format, depth);
    }
    MemberAsSpelled(members, k, format, depth, d.pairs);
  }

  lemma MemberAsSpelled(members: seq<Member>, k: nat, format: bool, depth: nat, xs: seq<Pair>)
    requires k < |members| == |xs| && PrintedMembers(members, k, format, depth + 1).Some?
    requires xs[k].before == Gap(format, depth + 1) && QuotedPieces(xs[k].name) == Quoted(members[k].name)
    requires xs[k].mid == "" && xs[k].post == (if format then "\t" else "")
    requires xs[k].after == if k + 1 == |members| then Gap(format, depth) else ""
    requires Printed(members[k].value, format, depth + 1) == Some(Spell(xs[k].doc))
    requires k + 1 < |members| ==>
               SpellPairs(xs, k + 1)
                 == (if format then "\n" else "") + PrintedMembers(members, k + 1, format, depth + 1).value
                      + (if format then Tabs(depth) else "")
    ensures SpellPairs(xs, k) == (if format then "\n" else "") + PrintedMembers(members, k, format, depth + 1).value
                                   + (if format then Tabs(depth) else "")
  {
    hide Printed;
    hide Spell;
    hide Quoted;
    hide QuotedPieces;
    hide Tabs;
    var q, t, more := Quoted(members[k].name), Spell(xs[k].doc), k + 1 < |members|;
    var rest := PrintedMembers(members, k + 1, format, depth + 1).value;
    var tail := xs[k].after + if more then "," + SpellPairs(xs, k + 1) else "";
    if format {
      LineEnds(more, rest, Tabs(depth));
      FormattedLine(Tabs(depth + 1), q, t, Trailer(more, true), rest, Tabs(depth), tail);
    } else {
      LineEnds(more, rest, Tabs(depth));
      PlainLine(q, t, Trailer(more, false), rest, tail);
    }
  }

  lemma LineEnds(more: bool, rest: string, last: string)
    ensures more ==> "" + ("," + ("\n" + rest + last)) == Trailer(true, true) + rest + last
    ensures !more && rest == "" ==> ("\n" + last) + "" == Trailer(false, true) + rest + last
    ensures more ==> "" + ("," + ("" + rest + "")) == Trailer(true, false) + rest
    ensures !more && rest == "" ==> "" + "" == Trailer(false, false) + rest
  {
  }

  lemma FormattedLine(tabs: string, q: string, t: string, trailer: string, rest: string, last: string, tail: string)
    requires tail == trailer + rest + last
    ensures "\n" + tabs + (q + ("" + (":" + ("\t" + (t + tail)))))
              == "\n" + (tabs + q + ":\t" + t + trailer + rest) + last
  {
    assert ":" + ("\t" + (t + tail)) == ":\t" + t + trailer + rest + last;
  }

  lemma PlainLine(q: string, t: string, trailer: string, rest: string, tail: string)
    requires tail == trailer + rest
    ensures "" + (q + ("" + (":" + ("" + (t + tail))))) == "" + (q + ":" + t + trailer + rest) + ""
  {
  }
}
