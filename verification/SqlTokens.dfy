/** Quoting, and the simultaneous replacement of tokens in a text. */
module SqlTokens {

  /** A token: offset and length in the SQL text. */
  datatype Token = Token(off: nat, n: nat)

  // ---------------------------------------------------------------------- quoting

  /** Every q in t from k on written twice. */
  function Doubled(t: string, q: char, k: nat): string
    decreases |t| - k
  {
    if k >= |t| then "" else (if t[k] == q then [q, q] else [t[k]]) + Doubled(t, q, k + 1)
  }

  function InQuotes(t: string, q: char): string {
    [q] + Doubled(t, q, 0) + [q]
  }

  /** sqlite3Dequote past the opening quote q: up to a q that is not doubled. */
  function Dequoted(t: string, q: char, k: nat): string
    decreases |t| - k
  {
    if k >= |t| then ""
    else if t[k] != q then [t[k]] + Dequoted(t, q, k + 1)
    else if k + 1 < |t| && t[k + 1] == q then [q] + Dequoted(t, q, k + 2)
    else ""
  }

  lemma {:induction false} DoubledSize(t: string, q: char, k: nat)
    requires k <= |t|
    ensures |t| - k <= |Doubled(t, q, k)| <= 2 * (|t| - k)
    decreases |t| - k
  {
    if k < |t| {
      DoubledSize(t, q, k + 1);
    }
  }

  lemma {:induction false} DequotedSize(t: string, q: char, k: nat)
    requires k < |t| && t[|t| - 1] == q
    ensures |Dequoted(t, q, k)| <= |t| - 1 - k
    decreases |t| - k
  {
    if k + 1 < |t| && t[k] != q {
      DequotedSize(t, q, k + 1);
    } else if k + 2 < |t| && t[k + 1] == q {
      DequotedSize(t, q, k + 2);
    }
  }

  /** Text in quotes is read back as it was, if no further quote follows. */
  lemma {:induction false} QuotesUndone(t: string, q: char, k: nat, s: string, i: nat, rest: string)
    requires k <= |t| && i <= |s| && s[i..] == Doubled(t, q, k) + [q] + rest
    requires rest == "" || rest[0] != q
    ensures Dequoted(s, q, i) == t[k..]
    decreases |t| - k
  {
    var r := s[i..];
    assert |s| == i + |r|;
    if k < |t| {
      assert s[i] == r[0] == t[k];
      if t[k] == q {
        assert s[i + 1] == r[1] == q;
        assert s[i + 2..] == r[2..] == Doubled(t, q, k + 1) + [q] + rest;
        QuotesUndone(t, q, k + 1, s, i + 2, rest);
      } else {
        assert s[i + 1..] == r[1..] == Doubled(t, q, k + 1) + [q] + rest;
        QuotesUndone(t, q, k + 1, s, i + 1, rest);
      }
      assert [t[k]] + t[k + 1..] == t[k..];
    } else {
      assert s[i] == r[0] == q;
      assert rest != "" ==> s[i + 1] == r[1] == rest[0];
    }
  }

  lemma InQuotesUndone(t: string, q: char, rest: string)
    requires rest == "" || rest[0] != q
    ensures Dequoted(InQuotes(t, q) + rest, q, 1) == t
  {
    var s := InQuotes(t, q) + rest;
    assert s[1..] == Doubled(t, q, 0) + [q] + rest;
    QuotesUndone(t, q, 0, s, 1, rest);
    assert t[0..] == t;
  }

  // --------------------------------------------------------- what replaces a token

  /** The two uses of renameEditSql: a new name, always in quotes or only where
      the token was; and turning double-quoted strings into single-quoted ones. */
  datatype Mode = Rename(name: string, quote: bool) | FixQuotes

  predicate IsIdChar(c: char) {
    'a' <= c <= 'z' || 'A' <= c <= 'Z' || '0' <= c <= '9' || c == '_' || c == '$' || c >= '\U{80}'
  }

  /** The character after a token; the text ends with a NUL. */
  function CharAfter(sql: string, t: Token): char {
    if t.off + t.n < |sql| then sql[t.off + t.n] else '\0'
  }

  predicate Inside(sql: string, t: Token) {
    t.n >= 1 && t.off + t.n <= |sql|
  }

  function Replacement(sql: string, mode: Mode, t: Token): string
  {
    if !Inside(sql, t) then ""
    else
      match mode
      case Rename(name, quote) =>
        if !quote && IsIdChar(sql[t.off]) then name
        else InQuotes(name, '"') + if CharAfter(sql, t) == '"' then " " else ""
      case FixQuotes =>
        InQuotes(Dequoted(sql[t.off..t.off + t.n], '"', 1), '\'') + if CharAfter(sql, t) == '\'' then " " else ""
  }

  /** Tokens that can be replaced: in the text, and whole "strings" in FixQuotes mode. */
  predicate Replaceable(sql: string, t: Token, mode: Mode) {
    && Inside(sql, t)
    && (mode.FixQuotes? ==> t.n >= 2 && sql[t.off] == '"' && sql[t.off + t.n - 1] == '"')
  }

  /** A replacement is at most nQuot longer than its token, or less than twice as long. */
  lemma ReplacementSize(sql: string, t: Token, mode: Mode)
    requires Replaceable(sql, t, mode)
    ensures mode.Rename? ==> |Replacement(sql, mode, t)| <= |InQuotes(mode.name, '"')| + t.n
    ensures mode.FixQuotes? ==> |Replacement(sql, mode, t)| < 2 * t.n
  {
    match mode
    case Rename(name, quote) =>
      DoubledSize(name, '"', 0);
    case FixQuotes =>
      var text := sql[t.off..t.off + t.n];
      DequotedSize(text, '"', 1);
      DoubledSize(Dequoted(text, '"', 1), '\'', 0);
  }

  /** In FixQuotes mode the replacement, with whatever text followed the token,
      starts with a literal for the same string. */
  lemma SameString(sql: string, t: Token, rest: string)
    requires Replaceable(sql, t, FixQuotes) && (rest == "" || rest[0] == CharAfter(sql, t))
    ensures Dequoted(Replacement(sql, FixQuotes, t) + rest, '\'', 1) == Dequoted(sql[t.off..t.off + t.n], '"', 1)
  {
    var x := Dequoted(sql[t.off..t.off + t.n], '"', 1);
    SpacedQuotes(x, '\'', CharAfter(sql, t) == '\'', rest);
  }

  /** The length of the identifier at the start of a text. */
  function IdLength(s: string, k: nat): nat
    decreases |s| - k
  {
    if k < |s| && IsIdChar(s[k]) then IdLength(s, k + 1) else k
  }

  /** The name that a text starts with: what its quotes enclose, or its identifier. */
  function NameRead(s: string): string {
    if s != "" && s[0] == '"' then Dequoted(s, '"', 1)
    else if IdLength(s, 0) <= |s| then s[..IdLength(s, 0)] else ""
  }

  predicate IsIdentifier(name: string) {
    name != "" && forall k :: 0 <= k < |name| ==> IsIdChar(name[k])
  }

  lemma {:induction false} IdEndsAt(name: string, rest: string, k: nat)
    requires k <= |name| && (forall j :: k <= j < |name| ==> IsIdChar(name[j])) && (rest == "" || !IsIdChar(rest[0]))
    ensures IdLength(name + rest, k) == |name|
    decreases |name| - k
  {
    if k < |name| {
      IdEndsAt(name, rest, k + 1);
    }
  }

  /** What is put in the place of a token is read as the new name, whatever text
      follows: in quotes where the caller asks for it or the token does not start like
      an identifier, and as an identifier elsewhere. */
  lemma SameName(sql: string, t: Token, name: string, quote: bool, rest: string)
    requires Inside(sql, t) && (rest == "" || rest[0] == CharAfter(sql, t))
    requires !quote && IsIdChar(sql[t.off]) ==> IsIdentifier(name) && !IsIdChar(CharAfter(sql, t))
    ensures NameRead(Replacement(sql, Rename(name, quote), t) + rest) == name
  {
    var text := Replacement(sql, Rename(name, quote), t) + rest;
    if !quote && IsIdChar(sql[t.off]) {
      IdEndsAt(name, rest, 0);
      assert text[0] == name[0];
      assert text[..|name|] == name;
    } else {
      SpacedQuotes(name, '"', CharAfter(sql, t) == '"', rest);
      assert text[0] == '"';
    }
  }

  lemma SpacedQuotes(x: string, q: char, space: bool, rest: string)
    requires q != ' ' && (rest == "" || space || rest[0] != q)
    ensures Dequoted(InQuotes(x, q) + (if space then " " else "") + rest, q, 1) == x
  {
    var tail := (if space then " " else "") + rest;
    assert InQuotes(x, q) + (if space then " " else "") + rest == InQuotes(x, q) + tail;
    InQuotesUndone(x, q, tail);
  }

  /** The space is added only where it is needed: without it the quote after the token
      would go on the string. */
  lemma SpaceIsNeeded(x: string, q: char, rest: string)
    requires rest != "" && rest[0] == q
    ensures Dequoted(InQuotes(x, q) + rest, q, 1) != x
  {
    var s := InQuotes(x, q) + rest;
    assert s[1..] == Doubled(x, q, 0) + [q] + rest;
    GoesOn(x, q, 0, s, 1, rest);
    assert x[0..] == x;
  }

  lemma {:induction false} GoesOn(t: string, q: char, k: nat, s: string, i: nat, rest: string)
    requires k <= |t| && i <= |s| && s[i..] == Doubled(t, q, k) + [q] + rest && rest != "" && rest[0] == q
    ensures |Dequoted(s, q, i)| > |t| - k
    decreases |t| - k
  {
    var r := s[i..];
    assert |s| == i + |r|;
    if k < |t| {
      assert s[i] == r[0] == t[k];
      if t[k] == q {
        assert s[i + 1] == r[1] == q;
        assert s[i + 2..] == r[2..] == Doubled(t, q, k + 1) + [q] + rest;
        GoesOn(t, q, k + 1, s, i + 2, rest);
      } else {
        assert s[i + 1..] == r[1..] == Doubled(t, q, k + 1) + [q] + rest;
        GoesOn(t, q, k + 1, s, i + 1, rest);
      }
    } else {
      assert s[i] == r[0] == q && s[i + 1] == r[1] == rest[0];
    }
  }

  // --------------------------------------------------- simultaneous substitution

  ghost predicate Disjoint(t: Token, u: Token) {
    t.off + t.n <= u.off || u.off + u.n <= t.off
  }

  /** Non-empty tokens of the text that do not overlap. */
  ghost predicate Spaced(sql: string, ts: set<Token>) {
    && (forall t {:trigger t in ts} :: t in ts ==> Inside(sql, t))
    && (forall t, u {:trigger t in ts, u in ts} :: t in ts && u in ts && t != u ==> Disjoint(t, u))
  }

  ghost predicate StartsAt(ts: set<Token>, p: nat) {
    exists t {:trigger t in ts} :: t in ts && t.off == p
  }

  ghost function TokenAt(ts: set<Token>, p: nat): (t: Token)
    requires StartsAt(ts, p)
    ensures t in ts && t.off == p
  {
    var t :| t in ts && t.off == p;
    t
  }

  /** The text from p on, with every token t in ts replaced by r(t), reading left
      to right. */
  ghost function Substituted(sql: string, ts: set<Token>, r: Token -> string, p: nat): string
    requires Spaced(sql, ts)
    decreases |sql| - p
  {
    if p >= |sql| then ""
    else if StartsAt(ts, p) then r(TokenAt(ts, p)) + Substituted(sql, ts, r, p + TokenAt(ts, p).n)
    else [sql[p]] + Substituted(sql, ts, r, p + 1)
  }

  lemma OnlyStart(sql: string, ts: set<Token>, t: Token)
    requires Spaced(sql, ts) && t in ts
    ensures t.off < |sql| && StartsAt(ts, t.off) && TokenAt(ts, t.off) == t
  {
    assert StartsAt(ts, t.off);
    var u := TokenAt(ts, t.off);
    assert u == t || Disjoint(u, t);
  }

  lemma AtToken(sql: string, ts: set<Token>, r: Token -> string, t: Token)
    requires Spaced(sql, ts) && t in ts
    ensures Substituted(sql, ts, r, t.off) == r(t) + Substituted(sql, ts, r, t.off + t.n)
  {
    OnlyStart(sql, ts, t);
  }

  lemma NoToken(sql: string, ts: set<Token>, r: Token -> string, p: nat)
    requires Spaced(sql, ts) && p < |sql| && !StartsAt(ts, p)
    ensures Substituted(sql, ts, r, p) == [sql[p]] + Substituted(sql, ts, r, p + 1)
  {
  }

  lemma NothingInFront(gap: string, rest: string)
    requires gap == ""
    ensures gap + rest == rest
  {
  }

  lemma OneMoreInFront(sql: string, p: nat, q: nat, rest: string)
    requires p < q <= |sql|
    ensures [sql[p]] + (sql[p + 1..q] + rest) == sql[p..q] + rest
  {
  }

  /** Where no token starts, the text is unchanged. */
  lemma {:induction false} GapKept(sql: string, ts: set<Token>, r: Token -> string, p: nat, q: nat)
    requires Spaced(sql, ts) && p <= q <= |sql|
    requires forall t {:trigger t in ts} :: t in ts ==> t.off < p || q <= t.off
    ensures Substituted(sql, ts, r, p) == sql[p..q] + Substituted(sql, ts, r, q)
    decreases q - p
  {
    hide Substituted;
    hide Spaced;
    if p < q {
      assert !StartsAt(ts, p);
      NoToken(sql, ts, r, p);
      GapKept(sql, ts, r, p + 1, q);
      OneMoreInFront(sql, p, q, Substituted(sql, ts, r, q));
    } else {
      NothingInFront(sql[p..q], Substituted(sql, ts, r, q));
    }
  }

  /** Tokens before p do not matter after p. */
  lemma {:induction false} EarlierIgnored(sql: string, ts: set<Token>, all: set<Token>, r: Token -> string, p: nat)
    requires Spaced(sql, ts) && Spaced(sql, all) && ts <= all
    requires forall t {:trigger t in all} :: t in all && t !in ts ==> t.off < p
    ensures Substituted(sql, all, r, p) == Substituted(sql, ts, r, p)
    decreases |sql| - p
  {
    if p < |sql| {
      if StartsAt(ts, p) {
        var t := TokenAt(ts, p);
        AtToken(sql, ts, r, t);
        AtToken(sql, all, r, t);
        EarlierIgnored(sql, ts, all, r, p + t.n);
      } else {
        assert !StartsAt(all, p);
        EarlierIgnored(sql, ts, all, r, p + 1);
      }
    }
  }

  lemma FirstToken(sql: string, ts: set<Token>, b: Token)
    requires Spaced(sql, ts + {b}) && b !in ts
    requires forall t {:trigger t in ts} :: t in ts ==> b.off < t.off
    ensures Spaced(sql, ts) && Inside(sql, b)
    ensures forall t {:trigger t in ts} :: t in ts ==> b.off + b.n <= t.off
    ensures forall t {:trigger t in ts + {b}} :: t in ts + {b} ==> b.off <= t.off
  {
    assert b in ts + {b};
    assert forall t {:trigger t in ts} :: t in ts ==> t in ts + {b};
    assert forall t {:trigger t in ts} :: t in ts ==> Disjoint(t, b);
  }

  /** Replacing one more token, in front of all others, is one edit of the text. */
  lemma OneMore(sql: string, ts: set<Token>, r: Token -> string, b: Token)
    requires Spaced(sql, ts + {b}) && b !in ts
    requires forall t {:trigger t in ts} :: t in ts ==> b.off < t.off
    ensures Spaced(sql, ts) && Inside(sql, b)
    ensures var was := Substituted(sql, ts, r, 0);
            && |was| >= b.off + b.n
            && Substituted(sql, ts + {b}, r, 0) == was[..b.off] + r(b) + was[b.off + b.n..]
  {
    hide Substituted;
    var end := b.off + b.n;
    FirstToken(sql, ts, b);
    GapKept(sql, ts, r, 0, end);
    GapKept(sql, ts + {b}, r, 0, b.off);
    AtToken(sql, ts + {b}, r, b);
    EarlierIgnored(sql, ts, ts + {b}, r, end);
    Cut(sql, b.off, end, Substituted(sql, ts, r, end));
  }

  lemma Cut(sql: string, off: nat, end: nat, rest: string)
    requires off <= end <= |sql|
    ensures (sql[0..end] + rest)[..off] == sql[0..off] && (sql[0..end] + rest)[end..] == rest
  {
  }

  lemma NothingReplaced(sql: string, r: Token -> string)
    ensures Substituted(sql, {}, r, 0) == sql
  {
    GapKept(sql, {}, r, 0, |sql|);
  }

  /** A single token is replaced where it stands, and nothing else changes. */
  lemma OneToken(sql: string, r: Token -> string, t: Token)
    requires Inside(sql, t)
    ensures Spaced(sql, {t}) && Substituted(sql, {t}, r, 0) == sql[..t.off] + r(t) + sql[t.off + t.n..]
  {
    assert {} + {t} == {t};
    OneMore(sql, {}, r, t);
    NothingReplaced(sql, r);
  }

  /** Of any set of tokens, each is replaced by what is meant for it, with the rest of
      the edited text after it. */
  lemma Placed(sql: string, ts: set<Token>, r: Token -> string, t: Token) returns (u: string)
    requires Spaced(sql, ts) && t in ts
    ensures Substituted(sql, ts, r, 0) == u + (r(t) + Substituted(sql, ts, r, t.off + t.n))
  {
    u := TextBefore(sql, ts, r, t, 0);
    AtToken(sql, ts, r, t);
  }

  lemma {:induction false} TextBefore(sql: string, ts: set<Token>, r: Token -> string, t: Token, p: nat)
    returns (u: string)
    requires Spaced(sql, ts) && t in ts && p <= t.off
    requires forall s {:trigger s in ts} :: s in ts ==> s.off + s.n <= p || p <= s.off
    ensures Substituted(sql, ts, r, p) == u + Substituted(sql, ts, r, t.off)
    decreases t.off - p
  {
    hide Substituted;
    if p == t.off {
      u := "";
      NothingInFront(u, Substituted(sql, ts, r, p));
    } else if StartsAt(ts, p) {
      var s := TokenAt(ts, p);
      PastToken(sql, ts, s, t);
      var v := TextBefore(sql, ts, r, t, p + s.n);
      AtToken(sql, ts, r, s);
      u := r(s) + v;
      Regroup(r(s), v, Substituted(sql, ts, r, t.off));
    } else {
      var v := TextBefore(sql, ts, r, t, p + 1);
      NoToken(sql, ts, r, p);
      u := [sql[p]] + v;
      Regroup([sql[p]], v, Substituted(sql, ts, r, t.off));
    }
  }

  lemma PastToken(sql: string, ts: set<Token>, s: Token, t: Token)
    requires Spaced(sql, ts) && s in ts && t in ts && s.off < t.off
    ensures s.off + s.n <= t.off
    ensures forall x {:trigger x in ts} :: x in ts ==> x.off + x.n <= s.off + s.n || s.off + s.n <= x.off
  {
  }

  lemma Regroup(a: string, b: string, c: string)
    ensures a + (b + c) == (a + b) + c
  {
  }

  /** What follows a token that no other token follows at once starts as before. */
  lemma FollowedAsBefore(sql: string, ts: set<Token>, r: Token -> string, t: Token)
    requires Spaced(sql, ts) && t in ts && !StartsAt(ts, t.off + t.n)
    ensures var rest := Substituted(sql, ts, r, t.off + t.n); rest == "" || rest[0] == CharAfter(sql, t)
  {
  }

  ghost function Replacer(sql: string, mode: Mode): Token -> string {
    t => Replacement(sql, mode, t)
  }

  /** In the edited text, the new name is read in the place of every token. */
  lemma RenamedEverywhere(sql: string, ts: set<Token>, name: string, quote: bool, t: Token) returns (p: nat)
    requires Spaced(sql, ts) && t in ts && !StartsAt(ts, t.off + t.n)
    requires !quote && IsIdChar(sql[t.off]) ==> IsIdentifier(name) && !IsIdChar(CharAfter(sql, t))
    ensures var text := Substituted(sql, ts, Replacer(sql, Rename(name, quote)), 0);
            && p <= |text| && NameRead(text[p..]) == name
            && text[p..] == Replacement(sql, Rename(name, quote), t)
                              + Substituted(sql, ts, Replacer(sql, Rename(name, quote)), t.off + t.n)
  {
    hide Substituted;
    var r := Replacer(sql, Rename(name, quote));
    var u := Placed(sql, ts, r, t);
    var rest := Substituted(sql, ts, r, t.off + t.n);
    FollowedAsBefore(sql, ts, r, t);
    SameName(sql, t, name, quote, rest);
    p := |u|;
    assert (u + (r(t) + rest))[p..] == r(t) + rest;
  }

  /** One token that is an identifier, renamed without quotes. */
  lemma OneNameReplaced(sql: string, t: Token, name: string)
    requires Inside(sql, t) && IsIdChar(sql[t.off])
    ensures Spaced(sql, {t})
    ensures Substituted(sql, {t}, Replacer(sql, Rename(name, false)), 0) == sql[..t.off] + name + sql[t.off + t.n..]
  {
    OneToken(sql, Replacer(sql, Rename(name, false)), t);
  }
}
