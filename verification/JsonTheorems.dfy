/** Whole texts: the round trip and the nesting limit. */
module JsonTheorems {
  import opened Options
  import opened Json
  import opened JsonBuffers
  import opened JsonGrammar
  import opened JsonRoundTrip
  import JsonParser
  import JsonPrinter

  // --------------------------------------------------------------- nesting depth

  function Max(a: nat, b: nat): nat {
    if a < b then b else a
  }

  function Depth(v: Value): nat
    decreases v
  {
    match v
    case Array(items) => 1 + ItemsDepth(items, 0)
    case Object(members) => 1 + MembersDepth(members, 0)
    case _ => 0
  }

  function ItemsDepth(items: seq<Value>, k: nat): nat
    decreases items, |items| - k
  {
    if k >= |items| then 0 else Max(Depth(items[k]), ItemsDepth(items, k + 1))
  }

  function MembersDepth(members: seq<Member>, k: nat): nat
    decreases members, |members| - k
  {
    if k >= |members| then 0 else Max(Depth(members[k].value), MembersDepth(members, k + 1))
  }

  /** Printing fails exactly on values nested too deeply. */
  lemma {:induction false} PrintsIffShallow(v: Value, format: bool, depth: nat)
    requires depth <= NESTING_LIMIT
    ensures Printed(v, format, depth).Some? <==> depth + Depth(v) <= 1000
    decreases v
  {
    match v
    case Array(items) =>
      if depth < NESTING_LIMIT {
        ItemsPrintIffShallow(items, 0, format, depth + 1);
      }
    case Object(members) =>
      if depth < NESTING_LIMIT {
        MembersPrintIffShallow(members, 0, format, depth + 1);
      }
    case _ =>
  }

  lemma {:induction false} ItemsPrintIffShallow(items: seq<Value>, k: nat, format: bool, depth: nat)
    requires depth <= NESTING_LIMIT
    ensures PrintedItems(items, k, format, depth).Some? <==> depth + ItemsDepth(items, k) <= NESTING_LIMIT
    decreases items, |items| - k
  {
    if k < |items| {
      PrintsIffShallow(items[k], format, depth);
      ItemsPrintIffShallow(items, k + 1, format, depth);
    }
  }

  lemma {:induction false} MembersPrintIffShallow(members: seq<Member>, k: nat, format: bool, depth: nat)
    requires depth <= NESTING_LIMIT
    ensures PrintedMembers(members, k, format, depth).Some? <==> depth + MembersDepth(members, k) <= NESTING_LIMIT
    decreases members, |members| - k
  {
    if k < |members| {
      PrintsIffShallow(members[k].value, format, depth);
      MembersPrintIffShallow(members, k + 1, format, depth);
    }
  }

  /** A value is printed as a document nested as deep as the value. */
  lemma {:induction false} NestingIsDepth(v: Value, format: bool, depth: nat)
    ensures Nesting(DocOf(v, format, depth)) == Depth(v)
    decreases v
  {
    match v
    case Array(items) =>
      ItemsNestingIsDepth(items, 0, format, depth);
    case Object(members) =>
      PairsNestingIsDepth(members, 0, format, depth);
    case _ =>
  }

  lemma {:induction false} ItemsNestingIsDepth(items: seq<Value>, k: nat, format: bool, depth: nat)
    ensures ItemsNesting(DocOf(Array(items), format, depth).items, k) == ItemsDepth(items, k)
    decreases items, |items| - k
  {
    if k < |items| {
      NestingIsDepth(items[k], format, depth + 1);
      ItemsNestingIsDepth(items, k + 1, format, depth);
    }
  }

  lemma {:induction false} PairsNestingIsDepth(members: seq<Member>, k: nat, format: bool, depth: nat)
    ensures PairsNesting(DocOf(Object(members), format, depth).pairs, k) == MembersDepth(members, k)
    decreases members, |members| - k
  {
    if k < |members| {
      NestingIsDepth(members[k].value, format, depth + 1);
      PairsNestingIsDepth(members, k + 1, format, depth);
    }
  }

  // --------------------------------------------------------------- the round trip

  /** What is printed for a plain value is a document of the grammar, without a NUL,
      that means the value. */
  lemma PrintedIsDocument(v: Value, format: bool, depth: nat)
    requires IsPlain(v) && Printed(v, format, depth).Some?
    ensures var d := DocOf(v, format, depth);
            && IsJson(d) && Meaning(d) == v && Spell(d) == Printed(v, format, depth).value
            && NoNul(Printed(v, format, depth).value)
  {
    DocMeans(v, format, depth);
    PrintedAsSpelled(v, format, depth);
    DocNoNul(DocOf(v, format, depth));
  }

  /** Every plain value within the nesting limit prints, formatted or not, and
      parsing the text gives the value back, whether or not the text has to end there. */
  lemma RoundTrip(v: Value, format: bool, strict: bool)
    requires IsPlain(v) && Depth(v) <= 1000
    ensures Printed(v, format, 0).Some? && Parse(Printed(v, format, 0).value, strict) == Some(v)
  {
    PrintsIffShallow(v, format, 0);
    PrintedIsDocument(v, format, 0);
    NestingIsDepth(v, format, 0);
    hide Printed;
    hide DocOf;
    hide Parse;
    var d := DocOf(v, format, 0);
    DocumentRead(d, false, "", "", strict);
    assert "" + ("" + (Spell(d) + "")) == Spell(d);
  }

  /** What cJSON_Print writes, cJSON_Parse reads; only nesting can make it fail. */
  method PrintThenParse(v: Value, format: bool, strict: bool) returns (r: Option<Value>)
    requires IsPlain(v)
    ensures r == if Depth(v) <= 1000 then Some(v) else None
  {
    PrintsIffShallow(v, format, 0);
    var text := JsonPrinter.PrintText(v, format);
    if text == None {
      return None;
    }
    RoundTrip(v, format, strict);
    r := JsonParser.ParseText(text.value, strict);
  }

  /** Printing is injective on plain values. */
  lemma PrintedApart(v: Value, w: Value, format: bool, format': bool)
    requires IsPlain(v) && IsPlain(w) && Depth(v) <= 1000 && Depth(w) <= 1000
    requires Printed(v, format, 0) == Printed(w, format', 0)
    ensures v == w
  {
    RoundTrip(v, format, false);
    RoundTrip(w, format', false);
  }
}
