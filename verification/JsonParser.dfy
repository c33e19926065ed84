/** The recursive-descent parser of cJSON.c, moving an offset through a buffer. */
module JsonParser {
  import opened Options
  import opened Json

  /** r and the new offset and depth are what the function on texts says. */
  ghost predicate Agrees<T(!new)>(r: Option<T>, spec: Parsed<T>, offset: nat, depth: nat, depth': nat) {
    match spec
    case Failed => r == None
    case Parsed(v, next) => r == Some(v) && offset == next && depth' == depth
  }

  // ---------------------------------------------------------------------- strings

  method ParseHex4(s: string, i: nat) returns (h: nat)
    requires i + 4 <= |s|
    ensures h == Hex4(s, i)
  {
    h := 0;
    for k := 0 to 4
      invariant HexValue(s, i + k, k) == Some(h)
    {
      var d := HexDigit(s[i + k]);
      if d == None {
        DigitsFail(s, i, k);
        return 0;
      }
      h := 16 * h + d.value;
    }
  }

  lemma DigitsFail(s: string, i: nat, k: nat)
    requires i + 4 <= |s| && k < 4 && HexDigit(s[i + k]) == None
    ensures Hex4(s, i) == 0
  {
    assert HexValue(s, i + k + 1, k + 1) == None;
    if k < 3 {
      assert HexValue(s, i + k + 2, k + 2) == None;
    }
    if k < 2 {
      assert HexValue(s, i + k + 3, k + 3) == None;
    }
    if k < 1 {
      assert HexValue(s, i + k + 4, k + 4) == None;
    }
  }

  /** Six bits at a time, last byte first. */
  method EncodeUtf8(cp: nat) returns (t: string)
    requires cp < 0x110000
    ensures t == Utf8(cp)
  {
    hide Utf8;
    var length, mark := 1, 0;
    if cp >= 0x10000 {
      length, mark := 4, 0xf0;
    } else if cp >= 0x800 {
      length, mark := 3, 0xe0;
    } else if cp >= 0x80 {
      length, mark := 2, 0xc0;
    }
    t := [];
    var rest := cp;
    var position := length - 1;
    while position > 0
      invariant 0 <= position < length
      invariant rest == Shifted(cp, length - 1 - position)
      invariant t == Continuation(cp, length - 1 - position)
    {
      t := [(0x80 + rest % 64) as char] + t;
      rest := rest / 64;
      position := position - 1;
    }
    assert position == 0;
    Lead(cp, rest, length);
    t := [(mark + rest) as char] + t;
  }

  function Shifted(cp: nat, n: nat): nat {
    if n == 0 then cp else Shifted(cp, n - 1) / 64
  }

  function Continuation(cp: nat, n: nat): string {
    if n == 0 then [] else [(0x80 + Shifted(cp, n - 1) % 64) as char] + Continuation(cp, n - 1)
  }

  lemma Lead(cp: nat, rest: nat, length: nat)
    requires cp < 0x110000 && 1 <= length <= 4 && rest == Shifted(cp, length - 1)
    requires length == if cp >= 0x10000 then 4 else if cp >= 0x800 then 3 else if cp >= 0x80 then 2 else 1
    ensures rest < (if length == 1 then 0x80 else if length == 2 then 32 else if length == 3 then 16 else 8)
    ensures Utf8(cp) == [((if length == 1 then 0 else if length == 2 then 0xc0
                           else if length == 3 then 0xe0 else 0xf0) + rest) as char]
                          + Continuation(cp, length - 1)
  {
    assert Shifted(cp, 0) == cp && Continuation(cp, 0) == [];
    var a := Shifted(cp, 1);
    assert a == cp / 64;
    var b := Shifted(cp, 2);
    assert b == a / 64 == cp / 4096;
    var c := Shifted(cp, 3);
    assert c == b / 64 == cp / 262144;
    assert Continuation(cp, 1) == [(0x80 + cp % 64) as char];
    assert Continuation(cp, 2) == [(0x80 + a % 64) as char] + Continuation(cp, 1);
    assert Continuation(cp, 3) == [(0x80 + b % 64) as char] + Continuation(cp, 2);
  }

  method LiteralToUtf8(s: string, i: nat, end: nat) returns (length: nat, bytes: string)
    requires i < end <= |s|
    ensures match Utf16(s, i, end)
            case Failed => length == 0
            case Parsed(cp, next) => length == next - i && length > 0 && bytes == Utf8(cp)
  {
    length, bytes := 0, [];
    if end - i < 6 {
      return;
    }
    var first := ParseHex4(s, i + 2);
    if 0xdc00 <= first <= 0xdfff {
      return;
    }
    var cp := first;
    length := 6;
    if 0xd800 <= first <= 0xdbff {
      if end - (i + 6) < 6 || s[i + 6] != '\\' || s[i + 7] != 'u' {
        return 0, [];
      }
      var second := ParseHex4(s, i + 8);
      if second < 0xdc00 || second > 0xdfff {
        return 0, [];
      }
      length := 12;
      cp := 0x10000 + first % 0x400 * 0x400 + second % 0x400;
    }
    bytes := EncodeUtf8(cp);
  }

  /** The first pass: find the closing quote. */
  method FindEnd(s: string, start: nat) returns (end: Option<nat>)
    ensures end == StringEnd(s, start)
  {
    var i: nat := start;
    while i < |s| && s[i] != '"'
      invariant StringEnd(s, start) == StringEnd(s, i)
      decreases |s| - i
    {
      if s[i] == '\\' {
        if i + 1 >= |s| {
          return None;
        }
        i := i + 1;
      }
      i := i + 1;
    }
    end := if i >= |s| then None else Some(i);
  }

  /** The second pass: copy, replacing escapes. */
  method CopyUnescaped(s: string, start: nat, end: nat) returns (r: Option<string>)
    requires end < |s|
    ensures r == Unescaped(s, start, end, [])
  {
    var i: nat, output := start, [];
    while i < end
      invariant Unescaped(s, start, end, []) == Unescaped(s, i, end, output)
      decreases end - i
    {
      if s[i] != '\\' {
        output := output + [s[i]];
        i := i + 1;
      } else if s[i + 1] == 'u' {
        var length, bytes := LiteralToUtf8(s, i, end);
        if length == 0 {
          return None;
        }
        output := output + bytes;
        i := i + length;
      } else {
        var c := Unescape(s[i + 1]);
        if c == None {
          return None;
        }
        output := output + [c.value];
        i := i + 2;
      }
    }
    r := Some(output);
  }

  class ParseBuffer {
    const content: string
    var offset: nat
    var depth: nat

    constructor (content: string)
      ensures this.content == content && offset == 0 && depth == 0
    {
      this.content := content;
      offset, depth := 0, 0;
    }

    method SkipWhitespace()
      modifies this`offset
      ensures offset == Skip(content, old(offset))
    {
      if offset >= |content| {
        return;
      }
      while offset < |content| && IsBlank(content[offset])
        invariant old(offset) <= offset <= |content| && Blanks(content, old(offset)) == Blanks(content, offset)
        decreases |content| - offset
      {
        offset := offset + 1;
      }
      if offset == |content| {
        offset := offset - 1;
      }
    }

    predicate At(c: char)
      reads this
    {
      offset < |content| && content[offset] == c
    }

    method ParseNumberHere() returns (r: Option<Value>)
      requires offset < |content|
      modifies this`offset
      ensures Agrees(r, ParseNumber(content, old(offset)), offset, depth, depth)
    {
      var negative := content[offset] == '-';
      var start: nat := if negative then offset + 1 else offset;
      var i, n := start, 0;
      while i < |content| && IsDigit(content[i])
        invariant start <= i <= |content| && DigitsEnd(content, start) == DigitsEnd(content, i)
        invariant n == DigitsValue(content, start, i)
        decreases |content| - i
      {
        n := 10 * n + (content[i] as int - '0' as int);
        i := i + 1;
      }
      if i == start || (i < |content| && content[i] in ".eE") {
        return None;
      }
      offset := i;
      r := Some(Number(if negative then -n else n));
    }

    method ParseStringHere() returns (r: Option<string>)
      requires offset < |content|
      modifies this`offset
      ensures Agrees(r, ParseString(content, old(offset)), offset, depth, depth)
    {
      if content[offset] != '"' {
        return None;
      }
      var end := FindEnd(content, offset + 1);
      if end == None {
        return None;
      }
      var text := CopyUnescaped(content, offset + 1, end.value);
      if text == None {
        return None;
      }
      offset := end.value + 1;
      r := Some(UpToNul(text.value));
    }

    method ParseValueHere() returns (r: Option<Value>)
      modifies this
      ensures Agrees(r, ParseValue(content, old(offset), old(depth)), offset, old(depth), depth)
      decreases |content| - offset, 3
    {
      if Holds(content, offset, "null") {
        offset := offset + 4;
        return Some(Null);
      }
      if Holds(content, offset, "false") {
        offset := offset + 5;
        return Some(False);
      }
      if Holds(content, offset, "true") {
        offset := offset + 4;
        return Some(True);
      }
      if offset >= |content| {
        return None;
      }
      var c := content[offset];
      if c == '"' {
        var t := ParseStringHere();
        r := if t == None then None else Some(Text(t.value));
      } else if c == '-' || IsDigit(c) {
        r := ParseNumberHere();
      } else if c == '[' {
        r := ParseArrayHere();
      } else if c == '{' {
        r := ParseObjectHere();
      } else {
        r := None;
      }
    }

    method ParseArrayHere() returns (r: Option<Value>)
      requires offset < |content|
      modifies this
      ensures Agrees(r, ParseArray(content, old(offset), old(depth)), offset, old(depth), depth)
      decreases |content| - offset, 2
    {
      if depth >= NESTING_LIMIT {
        return None;
      }
      depth := depth + 1;
      offset := offset + 1;
      SkipWhitespace();
      if offset >= |content| {
        return None;
      }
      var items: seq<Value> := [];
      if !At(']') {
        offset := offset - 1;
        var list := ParseItemsHere();
        if list == None || !At(']') {
          return None;
        }
        items := list.value;
      }
      depth := depth - 1;
      offset := offset + 1;
      r := Some(Array(items));
    }

    /** The loop over the comma separated elements. */
    method ParseItemsHere() returns (r: Option<seq<Value>>)
      requires offset < |content|
      modifies this
      ensures Agrees(r, ParseItems(content, old(offset), old(depth), []), offset, old(depth), depth)
      decreases |content| - offset, 1
    {
      var items: seq<Value>, more := [], true;
      ghost var start, d := offset, depth;
      while more
        invariant start <= offset && depth == d && (more ==> offset < |content|)
        invariant more ==> ParseItems(content, start, d, []) == ParseItems(content, offset, d, items)
        invariant !more ==> ParseItems(content, start, d, []) == Parsed(items, offset)
        decreases more, |content| - offset
      {
        offset := offset + 1;
        SkipWhitespace();
        var v := ParseValueHere();
        if v == None {
          return None;
        }
        SkipWhitespace();
        items := items + [v.value];
        more := At(',');
      }
      r := Some(items);
    }

    method ParseObjectHere() returns (r: Option<Value>)
      requires offset < |content|
      modifies this
      ensures Agrees(r, ParseObject(content, old(offset), old(depth)), offset, old(depth), depth)
      decreases |content| - offset, 2
    {
      if depth >= NESTING_LIMIT {
        return None;
      }
      depth := depth + 1;
      offset := offset + 1;
      SkipWhitespace();
      if offset >= |content| {
        return None;
      }
      var members: seq<Member> := [];
      if !At('}') {
        offset := offset - 1;
        var list := ParseMembersHere();
        if list == None || !At('}') {
          return None;
        }
        members := list.value;
      }
      depth := depth - 1;
      offset := offset + 1;
      r := Some(Object(members));
    }

    method ParseMembersHere() returns (r: Option<seq<Member>>)
      requires offset < |content|
      modifies this
      ensures Agrees(r, ParseMembers(content, old(offset), old(depth), []), offset, old(depth), depth)
      decreases |content| - offset, 1
    {
      var members: seq<Member>, more := [], true;
      ghost var start, d := offset, depth;
      while more
        invariant start <= offset && depth == d && (more ==> offset < |content|)
        invariant more ==> ParseMembers(content, start, d, []) == ParseMembers(content, offset, d, members)
        invariant !more ==> ParseMembers(content, start, d, []) == Parsed(members, offset)
        decreases more, |content| - offset
      {
        var m := ParseMemberHere();
        if m == None {
          return None;
        }
        members := members + [m.value];
        more := At(',');
      }
      r := Some(members);
    }

    method ParseMemberHere() returns (r: Option<Member>)
      requires offset < |content|
      modifies this
      ensures Agrees(r, ParseMember(content, old(offset), old(depth)), offset, old(depth), depth)
      decreases |content| - offset, 0
    {
      var name := ParseNameHere();
      if name == None {
        return None;
      }
      var v := ParseValueHere();
      if v == None {
        return None;
      }
      SkipWhitespace();
      r := Some(Member(name.value, v.value));
    }

    /** The name of a member, and what comes before its value. */
    method ParseNameHere() returns (r: Option<string>)
      requires offset < |content|
      modifies this`offset
      ensures Agrees(r, ParseName(content, old(offset)), offset, depth, depth)
    {
      if offset + 1 >= |content| {
        return None;
      }
      offset := offset + 1;
      SkipWhitespace();
      r := ParseStringHere();
      if r == None {
        return None;
      }
      SkipWhitespace();
      if !At(':') {
        return None;
      }
      offset := offset + 1;
      SkipWhitespace();
    }
  }

  /** cJSON_ParseWithOpts */
  method ParseText(text: string, strict: bool) returns (r: Option<Value>)
    ensures r == Parse(text, strict)
  {
    var buffer := new ParseBuffer(UpToNul(text) + "\0");
    if 4 < |buffer.content| && Holds(buffer.content, 0, BOM) {
      buffer.offset := 3;
    }
    buffer.SkipWhitespace();
    r := buffer.ParseValueHere();
    if r != None && strict {
      buffer.SkipWhitespace();
      if !buffer.At('\0') {
        r := None;
      }
    }
  }
}
