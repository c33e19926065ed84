/** JSON values and the texts cJSON reads and prints, as functions on strings
    whose characters stand for bytes. */
module Json {
  import opened Options

  datatype Value =
    | Null
    | False
    | True
    | Number(n: int)
    | Text(s: string)
    | Array(items: seq<Value>)
    | Object(members: seq<Member>)

  datatype Member = Member(name: string, value: Value)

  const NESTING_LIMIT: nat := 1000

  /** Outcome of parsing at some offset: failure, or a value and the offset after it. */
  datatype Parsed<T> = Failed | Parsed(value: T, next: nat)

  /** The text t stands at offset i of s. */
  predicate Holds(s: string, i: nat, t: string) {
    i + |t| <= |s| && s[i..i + |t|] == t
  }

  // ------------------------------------------------------------------ white space

  predicate IsBlank(c: char) {
    c as int <= 32
  }

  function Blanks(s: string, i: nat): (j: nat)
    requires i <= |s|
    ensures i <= j <= |s|
    decreases |s| - i
  {
    if i < |s| && IsBlank(s[i]) then Blanks(s, i + 1) else i
  }

  /** buffer_skip_whitespace; at the end of the buffer it steps back by one. */
  function Skip(s: string, i: nat): (j: nat)
    ensures i <= j && (i < |s| ==> j < |s|)
  {
    if i >= |s| then i
    else if Blanks(s, i) == |s| then |s| - 1 else Blanks(s, i)
  }

  // ---------------------------------------------------------------------- numbers

  predicate IsDigit(c: char) {
    '0' <= c <= '9'
  }

  function DigitsEnd(s: string, i: nat): (j: nat)
    requires i <= |s|
    ensures i <= j <= |s|
    decreases |s| - i
  {
    if i < |s| && IsDigit(s[i]) then DigitsEnd(s, i + 1) else i
  }

  /** The number written by the digits from i to j. */
  function DigitsValue(s: string, i: nat, j: nat): int
    requires j <= |s|
  {
    if j <= i then 0 else 10 * DigitsValue(s, i, j - 1) + (s[j - 1] as int - '0' as int)
  }

  /** An integer with neither fraction nor exponent. */
  function ParseNumber(s: string, i: nat): (r: Parsed<Value>)
    requires i < |s|
    ensures r.Parsed? ==> i < r.next <= |s|
  {
    var start := if s[i] == '-' then i + 1 else i;
    var end := DigitsEnd(s, start);
    if end == start || (end < |s| && s[end] in ".eE") then Failed
    else
      var n := DigitsValue(s, start, end);
      Parsed(Number(if s[i] == '-' then -n else n), end)
  }

  // ---------------------------------------------------------------------- strings

  /** The offset of the closing quote, counting two for every backslash. */
  function StringEnd(s: string, i: nat): (r: Option<nat>)
    ensures r.Some? ==> i <= r.value < |s|
    decreases |s| - i
  {
    if i >= |s| then None
    else if s[i] == '"' then Some(i)
    else if s[i] != '\\' then StringEnd(s, i + 1)
    else if i + 1 >= |s| then None
    else StringEnd(s, i + 2)
  }

  function HexDigit(c: char): Option<nat> {
    if '0' <= c <= '9' then Some(c as nat - '0' as nat)
    else if 'A' <= c <= 'F' then Some(10 + c as nat - 'A' as nat)
    else if 'a' <= c <= 'f' then Some(10 + c as nat - 'a' as nat)
    else None
  }

  /** The value of the n hexadecimal digits that end before offset i, if they are digits. */
  function HexValue(s: string, i: nat, n: nat): (r: Option<nat>)
    requires n <= i <= |s| && n <= 4
    ensures r.Some? ==> r.value < (if n == 0 then 1 else if n == 1 then 16 else if n == 2 then 256
                                   else if n == 3 then 4096 else 65536)
  {
    if n == 0 then Some(0)
    else
      match (HexValue(s, i - 1, n - 1), HexDigit(s[i - 1]))
      case (Some(h), Some(d)) => Some(16 * h + d)
      case _ => None
  }

  /** parse_hex4: zero if one of the four is no digit. */
  function Hex4(s: string, i: nat): nat
    requires i + 4 <= |s|
  {
    match HexValue(s, i + 4, 4)
    case Some(h) => h
    case None => 0
  }

  function Utf8(cp: nat): string
    requires cp < 0x110000
  {
    if cp < 0x80 then [cp as char]
    else if cp < 0x800 then [(0xc0 + cp / 64) as char, (0x80 + cp % 64) as char]
    else if cp < 0x10000 then
      [(0xe0 + cp / 4096) as char, (0x80 + cp / 64 % 64) as char, (0x80 + cp % 64) as char]
    else
      [(0xf0 + cp / 262144) as char, (0x80 + cp / 4096 % 64) as char, (0x80 + cp / 64 % 64) as char,
       (0x80 + cp % 64) as char]
  }

  /** The code point of a \uXXXX literal, or of two making up a surrogate pair. */
  function Utf16(s: string, i: nat, end: nat): (r: Parsed<nat>)
    requires end <= |s|
    ensures r.Parsed? ==> i < r.next <= end && r.value < 0x110000
  {
    if i + 6 > end then Failed
    else
      var first := Hex4(s, i + 2);
      if 0xdc00 <= first <= 0xdfff then Failed
      else if 0xd800 <= first <= 0xdbff then
        if i + 12 > end || s[i + 6] != '\\' || s[i + 7] != 'u' then Failed
        else
          var second := Hex4(s, i + 8);
          if second < 0xdc00 || second > 0xdfff then Failed
          else Parsed(0x10000 + first % 0x400 * 0x400 + second % 0x400, i + 12)
      else Parsed(first, i + 6)
  }

  /** What a backslash and c stand for, other than a \u literal. */
  function Unescape(c: char): Option<char> {
    match c
    case 'b' => Some('\U{8}')
    case 'f' => Some('\U{c}')
    case 'n' => Some('\n')
    case 'r' => Some('\r')
    case 't' => Some('\t')
    case '"' => Some('"')
    case '\\' => Some('\\')
    case '/' => Some('/')
    case _ => None
  }

  /** The text between two quotes, with its escapes replaced, after `done`. */
  function Unescaped(s: string, i: nat, end: nat, done: string): Option<string>
    requires end < |s|
    decreases end - i
  {
    if i >= end then Some(done)
    else if s[i] != '\\' then Unescaped(s, i + 1, end, done + [s[i]])
    else if s[i + 1] == 'u' then
      match Utf16(s, i, end)
      case Failed => None
      case Parsed(cp, next) => Unescaped(s, next, end, done + Utf8(cp))
    else
      match Unescape(s[i + 1])
      case None => None
      case Some(c) => Unescaped(s, i + 2, end, done + [c])
  }

  function FirstNul(t: string, k: nat): (n: nat)
    requires k <= |t|
    ensures k <= n <= |t|
    decreases |t| - k
  {
    if k == |t| || t[k] == '\0' then k else FirstNul(t, k + 1)
  }

  /** What a buffer holds when read as a C string. */
  function UpToNul(t: string): string {
    t[..FirstNul(t, 0)]
  }

  function ParseString(s: string, i: nat): (r: Parsed<string>)
    requires i < |s|
    ensures r.Parsed? ==> i < r.next <= |s|
  {
    if s[i] != '"' then Failed
    else
      match StringEnd(s, i + 1)
      case None => Failed
      case Some(end) =>
        match Unescaped(s, i + 1, end, [])
        case None => Failed
        case Some(t) => Parsed(UpToNul(t), end + 1)
  }

  // ----------------------------------------------------------------------- values

  function AsText(r: Parsed<string>): Parsed<Value> {
    match r
    case Failed => Failed
    case Parsed(t, next) => Parsed(Text(t), next)
  }

  function ParseValue(s: string, i: nat, depth: nat): (r: Parsed<Value>)
    ensures r.Parsed? ==> i < r.next <= |s|
    decreases |s| - i, 3
  {
    if Holds(s, i, "null") then Parsed(Null, i + 4)
    else if Holds(s, i, "false") then Parsed(False, i + 5)
    else if Holds(s, i, "true") then Parsed(True, i + 4)
    else if i >= |s| then Failed
    else if s[i] == '"' then AsText(ParseString(s, i))
    else if s[i] == '-' || IsDigit(s[i]) then ParseNumber(s, i)
    else if s[i] == '[' then ParseArray(s, i, depth)
    else if s[i] == '{' then ParseObject(s, i, depth)
    else Failed
  }

  function ParseArray(s: string, i: nat, depth: nat): (r: Parsed<Value>)
    requires i < |s|
    ensures r.Parsed? ==> i < r.next <= |s|
    decreases |s| - i, 2
  {
    if depth >= NESTING_LIMIT then Failed
    else
      var j := Skip(s, i + 1);
      if j >= |s| then Failed
      else if s[j] == ']' then Parsed(Array([]), j + 1)
      else
        match ParseItems(s, j - 1, depth + 1, [])
        case Failed => Failed
        case Parsed(vs, n) => if n < |s| && s[n] == ']' then Parsed(Array(vs), n + 1) else Failed
  }

  /** Values separated by commas, after `done`; p is the offset before the first. */
  function ParseItems(s: string, p: nat, depth: nat, done: seq<Value>): (r: Parsed<seq<Value>>)
    requires p < |s|
    ensures r.Parsed? ==> p < r.next
    decreases |s| - p, 1
  {
    match ParseValue(s, Skip(s, p + 1), depth)
    case Failed => Failed
    case Parsed(v, k) =>
      var n := Skip(s, k);
      if n < |s| && s[n] == ',' then ParseItems(s, n, depth, done + [v]) else Parsed(done + [v], n)
  }

  function ParseObject(s: string, i: nat, depth: nat): (r: Parsed<Value>)
    requires i < |s|
    ensures r.Parsed? ==> i < r.next <= |s|
    decreases |s| - i, 2
  {
    if depth >= NESTING_LIMIT then Failed
    else
      var j := Skip(s, i + 1);
      if j >= |s| then Failed
      else if s[j] == '}' then Parsed(Object([]), j + 1)
      else
        match ParseMembers(s, j - 1, depth + 1, [])
        case Failed => Failed
        case Parsed(ms, n) => if n < |s| && s[n] == '}' then Parsed(Object(ms), n + 1) else Failed
  }

  function ParseMembers(s: string, p: nat, depth: nat, done: seq<Member>): (r: Parsed<seq<Member>>)
    requires p < |s|
    ensures r.Parsed? ==> p < r.next
    decreases |s| - p, 1
  {
    match ParseMember(s, p, depth)
    case Failed => Failed
    case Parsed(m, n) =>
      if n < |s| && s[n] == ',' then ParseMembers(s, n, depth, done + [m]) else Parsed(done + [m], n)
  }

  /** A name and a colon; the next offset is that of the value. */
  function ParseName(s: string, p: nat): (r: Parsed<string>)
    requires p < |s|
    ensures r.Parsed? ==> p < r.next
  {
    if p + 1 >= |s| then Failed
    else
      match ParseString(s, Skip(s, p + 1))
      case Failed => Failed
      case Parsed(name, k) =>
        var colon := Skip(s, k);
        if colon >= |s| || s[colon] != ':' then Failed else Parsed(name, Skip(s, colon + 1))
  }

  /** A name, a colon and a value; the next offset is past the blanks after it. */
  function ParseMember(s: string, p: nat, depth: nat): (r: Parsed<Member>)
    requires p < |s|
    ensures r.Parsed? ==> p < r.next
    decreases |s| - p, 0
  {
    match ParseName(s, p)
    case Failed => Failed
    case Parsed(name, start) =>
      match ParseValue(s, start, depth)
      case Failed => Failed
      case Parsed(v, n) => Parsed(Member(name, v), Skip(s, n))
  }

  const BOM: string := "\U{ef}\U{bb}\U{bf}"

  /** cJSON_ParseWithOpts: the buffer is the C string with its terminating NUL. */
  function Parse(text: string, strict: bool): Option<Value> {
    var s := UpToNul(text) + "\0";
    var start := if 4 < |s| && Holds(s, 0, BOM) then 3 else 0;
    match ParseValue(s, Skip(s, start), 0)
    case Failed => None
    case Parsed(v, next) =>
      var n := Skip(s, next);
      if strict && (n >= |s| || s[n] != '\0') then None else Some(v)
  }

  // --------------------------------------------------------------------- printing

  function Digits(n: nat): string {
    if n < 10 then [DigitChar(n)] else Digits(n / 10) + [DigitChar(n % 10)]
  }

  function DigitChar(d: nat): char
    requires d < 10
  {
    ('0' as int + d) as char
  }

  function Decimal(n: int): string {
    if n < 0 then "-" + Digits(-n) else Digits(n)
  }

  function Escape(c: char): string {
    match c
    case '"' => "\\\""
    case '\\' => "\\\\"
    case '\U{8}' => "\\b"
    case '\U{c}' => "\\f"
    case '\n' => "\\n"
    case '\r' => "\\r"
    case '\t' => "\\t"
    case _ => [c]
  }

  function Escaped(t: string, k: nat): string
    decreases |t| - k
  {
    if k >= |t| then "" else Escape(t[k]) + Escaped(t, k + 1)
  }

  function Quoted(t: string): string {
    "\"" + Escaped(t, 0) + "\""
  }

  function Tabs(n: nat): (t: string)
    ensures |t| == n
  {
    if n == 0 then "" else "\t" + Tabs(n - 1)
  }

  /** Bytes that print as themselves or as a two-character escape. */
  predicate IsPlainChar(c: char) {
    32 <= c as int < 256 || c in "\U{8}\U{c}\n\r\t"
  }

  predicate IsPlainString(t: string) {
    forall k :: 0 <= k < |t| ==> IsPlainChar(t[k])
  }

  /** Trees of null, booleans, 32-bit integers, plain strings, arrays and objects. */
  predicate IsPlain(v: Value) {
    match v
    case Number(n) => -0x8000_0000 <= n < 0x8000_0000
    case Text(t) => IsPlainString(t)
    case Array(items) => forall k :: 0 <= k < |items| ==> IsPlain(items[k])
    case Object(members) =>
      forall k :: 0 <= k < |members| ==> IsPlainString(members[k].name) && IsPlain(members[k].value)
    case _ => true
  }

  ghost predicate ArePlain(items: seq<Value>) {
    forall k :: 0 <= k < |items| ==> IsPlain(items[k])
  }

  ghost predicate ArePlainMembers(members: seq<Member>) {
    forall k :: 0 <= k < |members| ==> IsPlainString(members[k].name) && IsPlain(members[k].value)
  }

  function Printed(v: Value, format: bool, depth: nat): Option<string>
    decreases v
  {
    match v
    case Null => Some("null")
    case False => Some("false")
    case True => Some("true")
    case Number(n) => Some(Decimal(n))
    case Text(t) => Some(Quoted(t))
    case Array(items) =>
      if depth >= NESTING_LIMIT then None
      else (
        match PrintedItems(items, 0, format, depth + 1)
        case None => None
        case Some(t) => Some("[" + t + "]")
      )
    case Object(members) =>
      if depth >= NESTING_LIMIT then None
      else
        match PrintedMembers(members, 0, format, depth + 1)
        case None => None
        case Some(t) => Some(if format then "{\n" + t + Tabs(depth) + "}" else "{" + t + "}")
  }

  function Separator(more: bool, format: bool): string {
    if !more then "" else if format then ", " else ","
  }

  /** The items from the k-th on. */
  function PrintedItems(items: seq<Value>, k: nat, format: bool, depth: nat): Option<string>
    decreases items, |items| - k
  {
    if k >= |items| then Some("")
    else
      match (Printed(items[k], format, depth), PrintedItems(items, k + 1, format, depth))
      case (Some(t), Some(rest)) => Some(t + Separator(k + 1 < |items|, format) + rest)
      case _ => None
  }

  function Leader(name: string, format: bool, depth: nat): string {
    if format then Tabs(depth) + Quoted(name) + ":\t" else Quoted(name) + ":"
  }

  function Trailer(more: bool, format: bool): string {
    if more then (if format then ",\n" else ",") else if format then "\n" else ""
  }

  function PrintedMembers(members: seq<Member>, k: nat, format: bool, depth: nat): Option<string>
    decreases members, |members| - k
  {
    if k >= |members| then Some("")
    else
      match (Printed(members[k].value, format, depth), PrintedMembers(members, k + 1, format, depth))
      case (Some(t), Some(rest)) =>
        Some(Leader(members[k].name, format, depth) + t + Trailer(k + 1 < |members|, format) + rest)
      case _ => None
  }
}
