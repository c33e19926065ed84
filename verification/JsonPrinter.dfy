/** The printer of cJSON.c, writing into a growing buffer. */
module JsonPrinter {
  import opened Options
  import opened Json

  // ---------------------------------------------------------------------- strings

  /** Number of characters of t, from k on, that need a backslash. */
  function EscapeCount(t: string, k: nat): nat
    decreases |t| - k
  {
    if k >= |t| then 0 else (if |Escape(t[k])| == 2 then 1 else 0) + EscapeCount(t, k + 1)
  }

  /** The length computed before the text is written is the length it has. */
  lemma {:induction false} EscapedLength(t: string, k: nat)
    requires k <= |t|
    ensures |Escaped(t, k)| == |t| - k + EscapeCount(t, k)
    decreases |t| - k
  {
    if k < |t| {
      EscapedLength(t, k + 1);
    }
  }

  lemma {:induction false} NothingEscaped(t: string, k: nat)
    requires k <= |t| && EscapeCount(t, k) == 0
    ensures Escaped(t, k) == t[k..]
    decreases |t| - k
  {
    if k < |t| {
      NothingEscaped(t, k + 1);
    }
  }

  predicate NeedsEscape(c: char) {
    c in "\"\\\U{8}\U{c}\n\r\t"
  }

  /** The first pass over the string. */
  method CountEscapes(t: string) returns (n: nat)
    ensures n == EscapeCount(t, 0)
  {
    n := 0;
    for k := 0 to |t|
      invariant n + EscapeCount(t, k) == EscapeCount(t, 0)
    {
      if NeedsEscape(t[k]) {
        n := n + 1;
      }
    }
  }

  /** The second pass, into a buffer of the computed length. */
  method WriteEscaped(t: string, output: array<char>)
    requires IsPlainString(t) && output.Length == |Escaped(t, 0)| + 2
    modifies output
    ensures output[..] == Quoted(t)
  {
    hide Escape;
    output[0] := '"';
    var p: nat := 1;
    for k := 0 to |t|
      invariant p <= output.Length && output[..p] + Escaped(t, k) == "\"" + Escaped(t, 0)
    {
      assert IsPlainChar(t[k]);
      Regroup3(output[..p], Escape(t[k]), Escaped(t, k + 1));
      p := WriteChar(output, p, t[k]);
    }
    assert output[..p] == "\"" + Escaped(t, 0);
    output[p] := '"';
    assert output[..] == output[..p] + "\"";
  }

  /** One character, or a backslash and a letter. */
  method WriteChar(output: array<char>, p: nat, c: char) returns (q: nat)
    requires IsPlainChar(c) && p + |Escape(c)| <= output.Length
    modifies output
    ensures q == p + |Escape(c)| && output[..q] == old(output[..p]) + Escape(c)
  {
    q := p;
    if c as int > 31 && c != '"' && c != '\\' {
      output[q] := c;
    } else {
      output[q] := '\\';
      q := q + 1;
      output[q] := Letter(c);
    }
    q := q + 1;
  }

  function Letter(c: char): char {
    match c
    case '\U{8}' => 'b'
    case '\U{c}' => 'f'
    case '\n' => 'n'
    case '\r' => 'r'
    case '\t' => 't'
    case _ => c
  }

  lemma Regroup3(a: string, b: string, c: string)
    ensures a + (b + c) == a + b + c
  {
  }

  lemma Regroup4(a: string, b: string, c: string, d: string)
    ensures a + (b + c + d) == a + b + c + d
  {
  }

  lemma Regroup5(a: string, b: string, c: string, d: string, e: string)
    ensures a + (b + c + d + e) == a + b + c + d + e
  {
  }

  // ----------------------------------------------------------------------- values

  /** Text printed so far, followed by a part that may fail to print. */
  ghost function After(done: string, r: Option<string>): Option<string> {
    match r
    case None => None
    case Some(t) => Some(done + t)
  }

  lemma AfterNothing(r: Option<string>)
    ensures After("", r) == r
  {
    if r.Some? {
      assert "" + r.value == r.value;
    }
  }

  class PrintBuffer {
    const format: bool
    var text: string
    var depth: nat

    constructor (format: bool)
      ensures this.format == format && text == "" && depth == 0
    {
      this.format := format;
      text, depth := "", 0;
    }

    /** The buffer has grown by what the function on values says. */
    twostate predicate Grew(ok: bool, spec: Option<string>)
      reads this
    {
      ok == spec.Some? && (ok ==> text == old(text) + spec.value && depth == old(depth))
    }

    method PrintString(t: string)
      requires IsPlainString(t)
      modifies this`text
      ensures text == old(text) + Quoted(t)
    {
      var escapes := CountEscapes(t);
      EscapedLength(t, 0);
      if escapes == 0 {
        NothingEscaped(t, 0);
        text := text + ("\"" + t + "\"");
        return;
      }
      var output := new char[|t| + escapes + 2];
      WriteEscaped(t, output);
      text := text + output[..];
    }

    method PrintTabs(n: nat)
      modifies this`text
      ensures text == old(text) + Tabs(n)
    {
      for i := 0 to n
        invariant text + Tabs(n - i) == old(text) + Tabs(n)
      {
        assert text + ("\t" + Tabs(n - i - 1)) == text + "\t" + Tabs(n - i - 1);
        text := text + "\t";
      }
    }

    method PrintValue(v: Value) returns (ok: bool)
      requires IsPlain(v)
      modifies this
      ensures Grew(ok, Printed(v, format, old(depth)))
      decreases v, 2
    {
      ok := true;
      match v
      case Null => text := text + "null";
      case False => text := text + "false";
      case True => text := text + "true";
      case Number(n) => text := text + Decimal(n);
      case Text(t) => PrintString(t);
      case Array(items) => ok := PrintArray(items);
      case Object(members) => ok := PrintObject(members);
    }

    method PrintArray(items: seq<Value>) returns (ok: bool)
      requires ArePlain(items)
      modifies this
      ensures Grew(ok, Printed(Array(items), format, old(depth)))
      decreases items, 1
    {
      if depth >= NESTING_LIMIT {
        return false;
      }
      text := text + "[";
      depth := depth + 1;
      ok := PrintItems(items);
      if !ok {
        return;
      }
      text := text + "]";
      depth := depth - 1;
      Regroup4(old(text), "[", PrintedItems(items, 0, format, depth + 1).value, "]");
    }

    method PrintItems(items: seq<Value>) returns (ok: bool)
      requires ArePlain(items)
      modifies this
      ensures Grew(ok, PrintedItems(items, 0, format, old(depth)))
      decreases items, 0
    {
      AfterNothing(PrintedItems(items, 0, format, depth));
      ghost var done := "";
      for k := 0 to |items|
        invariant depth == old(depth) && text == old(text) + done
        invariant PrintedItems(items, 0, format, depth) == After(done, PrintedItems(items, k, format, depth))
      {
        ok := PrintItem(items[k], k + 1 < |items|);
        if !ok {
          return;
        }
        ghost var t := Printed(items[k], format, depth).value;
        ItemDone(items, k, format, depth, done);
        Regroup4(old(text), done, t, Separator(k + 1 < |items|, format));
        done := done + t + Separator(k + 1 < |items|, format);
      }
      ok := true;
    }

    method PrintItem(v: Value, more: bool) returns (ok: bool)
      requires IsPlain(v)
      modifies this
      ensures ok <==> Printed(v, format, old(depth)).Some?
      ensures ok ==>
                text == old(text) + Printed(v, format, old(depth)).value + Separator(more, format)
                  && depth == old(depth)
      decreases v, 3
    {
      ok := PrintValue(v);
      if ok {
        text := text + Separator(more, format);
      }
    }

    method PrintObject(members: seq<Member>) returns (ok: bool)
      requires ArePlainMembers(members)
      modifies this
      ensures Grew(ok, Printed(Object(members), format, old(depth)))
      decreases members, 1
    {
      if depth >= NESTING_LIMIT {
        return false;
      }
      text := text + if format then "{\n" else "{";
      depth := depth + 1;
      ok := PrintMembers(members);
      if !ok {
        return;
      }
      ghost var inner := PrintedMembers(members, 0, format, depth).value;
      if format {
        Regroup5(old(text), "{\n", inner, Tabs(depth - 1), "}");
        PrintTabs(depth - 1);
      } else {
        Regroup4(old(text), "{", inner, "}");
      }
      text := text + "}";
      depth := depth - 1;
    }

    method PrintMembers(members: seq<Member>) returns (ok: bool)
      requires ArePlainMembers(members)
      modifies this
      ensures Grew(ok, PrintedMembers(members, 0, format, old(depth)))
      decreases members, 0
    {
      AfterNothing(PrintedMembers(members, 0, format, depth));
      ghost var done := "";
      for k := 0 to |members|
        invariant depth == old(depth) && text == old(text) + done
        invariant PrintedMembers(members, 0, format, depth) == After(done, PrintedMembers(members, k, format, depth))
      {
        ok := PrintMember(members[k], k + 1 < |members|);
        if !ok {
          return;
        }
        ghost var line := Line(members[k], k + 1 < |members|, format, depth);
        MemberDone(members, k, format, depth, done);
        Regroup3(old(text), done, line);
        done := done + line;
      }
      ok := true;
    }

    method PrintMember(m: Member, more: bool) returns (ok: bool)
      requires IsPlainString(m.name) && IsPlain(m.value)
      modifies this
      ensures ok <==> Printed(m.value, format, old(depth)).Some?
      ensures ok ==> text == old(text) + Line(m, more, format, old(depth)) && depth == old(depth)
      decreases m.value, 3
    {
      PrintLeader(m.name);
      ok := PrintValue(m.value);
      if !ok {
        return;
      }
      Regroup4(old(text), Leader(m.name, format, depth), Printed(m.value, format, depth).value, Trailer(more, format));
      PrintTrailer(more);
    }

    method PrintTrailer(more: bool)
      modifies this`text
      ensures text == old(text) + Trailer(more, format)
    {
      if more {
        text := text + ",";
      }
      if format {
        text := text + "\n";
      }
    }

    method PrintLeader(name: string)
      requires IsPlainString(name)
      modifies this`text
      ensures text == old(text) + Leader(name, format, depth)
    {
      if format {
        PrintTabs(depth);
      }
      PrintString(name);
      text := text + ":";
      if format {
        text := text + "\t";
      }
    }
  }

  lemma ItemDone(items: seq<Value>, k: nat, format: bool, depth: nat, done: string)
    requires k < |items| && Printed(items[k], format, depth).Some?
    ensures After(done, PrintedItems(items, k, format, depth))
              == After(done + Printed(items[k], format, depth).value + Separator(k + 1 < |items|, format),
                       PrintedItems(items, k + 1, format, depth))
  {
    match PrintedItems(items, k + 1, format, depth)
    case None =>
    case Some(rest) =>
      Regroup4(done, Printed(items[k], format, depth).value, Separator(k + 1 < |items|, format), rest);
  }

  ghost function Line(m: Member, more: bool, format: bool, depth: nat): string
    requires Printed(m.value, format, depth).Some?
  {
    Leader(m.name, format, depth) + Printed(m.value, format, depth).value + Trailer(more, format)
  }

  lemma MemberDone(members: seq<Member>, k: nat, format: bool, depth: nat, done: string)
    requires k < |members| && Printed(members[k].value, format, depth).Some?
    ensures After(done, PrintedMembers(members, k, format, depth))
              == After(done + Line(members[k], k + 1 < |members|, format, depth),
                       PrintedMembers(members, k + 1, format, depth))
  {
    match PrintedMembers(members, k + 1, format, depth)
    case None =>
    case Some(rest) =>
      Regroup3(done, Line(members[k], k + 1 < |members|, format, depth), rest);
  }

  /** cJSON_Print and cJSON_PrintUnformatted */
  method PrintText(v: Value, format: bool) returns (r: Option<string>)
    requires IsPlain(v)
    ensures r == Printed(v, format, 0)
  {
    var buffer := new PrintBuffer(format);
    var ok := buffer.PrintValue(v);
    AfterNothing(Printed(v, format, 0));
    r := if ok then Some(buffer.text) else None;
  }
}
