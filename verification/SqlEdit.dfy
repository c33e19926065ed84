/** renameEditSql: the tokens are replaced in place, the last one first. */
module SqlEdit {
  import opened Sequences
  import opened SqlTokens

  /** The list of tokens still to be replaced. */
  class RenameCtx {
    var list: seq<Token>

    constructor (list: seq<Token>)
      ensures this.list == list
    {
      this.list := list;
    }

    /** Take the token with the greatest offset out of the list. */
    method TokenNext() returns (best: Token, ghost k: nat)
      requires list != []
      modifies this
      ensures k < |old(list)| && best == old(list)[k] && list == Removed(old(list), k)
      ensures forall j :: 0 <= j < |old(list)| ==> old(list)[j].off <= best.off
    {
      best := list[0];
      for i := 1 to |list|
        invariant best in list
        invariant forall j :: 0 <= j < i ==> list[j].off <= best.off
      {
        if list[i].off > best.off {
          best := list[i];
        }
      }
      var i: nat := 0;
      while list[i] != best
        invariant i < |list| && best in list[i..]
        decreases |list| - i
      {
        i := i + 1;
      }
      k := i;
      list := list[..i] + list[i + 1..];
    }
  }

  /** memmove: what follows the token moves to where its replacement will end. */
  method MoveTail(out: array<char>, from: nat, to: nat, end: nat)
    requires from <= end <= out.Length && to + (end - from) <= out.Length
    modifies out
    ensures out[to..to + (end - from)] == old(out[from..end])
    ensures forall i :: 0 <= i < to ==> out[i] == old(out[i])
  {
    forall i | to <= i < to + (end - from) {
      out[i] := out[i - to + from];
    }
  }

  /** memcpy */
  method CopyIn(out: array<char>, off: nat, r: string)
    requires off + |r| <= out.Length
    modifies out
    ensures out[off..off + |r|] == r
    ensures forall i :: 0 <= i < out.Length && !(off <= i < off + |r|) ==> out[i] == old(out[i])
  {
    forall i | 0 <= i < |r| {
      out[off + i] := r[i];
    }
  }

  /** Make the n characters at `off` of the first nOut into m. */
  method OpenGap(out: array<char>, nOut: nat, off: nat, n: nat, m: nat) returns (nOut': nat)
    requires off + n <= nOut < out.Length && nOut + m - n < out.Length
    modifies out
    ensures nOut' == nOut + m - n
    ensures out[..off] == old(out[..off]) && out[off + m..nOut'] == old(out[off + n..nOut])
  {
    nOut' := nOut;
    if n != m {
      MoveTail(out, off + n, off + m, nOut);
      nOut' := nOut + m - n;
      out[nOut'] := '\0';
    }
  }

  /** Replace n characters at `off` of the first nOut by r. */
  method Splice(out: array<char>, nOut: nat, off: nat, n: nat, r: string) returns (nOut': nat)
    requires off + n <= nOut < out.Length && nOut + |r| - n < out.Length
    modifies out
    ensures nOut' == nOut + |r| - n
    ensures out[..nOut'] == old(out[..off]) + r + old(out[off + n..nOut])
  {
    nOut' := OpenGap(out, nOut, off, n, |r|);
    ghost var front, tail := out[..off], out[off + |r|..nOut'];
    CopyIn(out, off, r);
    assert out[..off] == front && out[off + |r|..nOut'] == tail;
    assert out[..nOut'] == out[..off] + out[off..off + |r|] + out[off + |r|..nOut'];
  }

  ghost function Tokens(list: seq<Token>): set<Token> {
    set t | t in list
  }

  /** Room for the text that renameEditSql allocates, not counting the final NUL. */
  function Capacity(sql: string, mode: Mode, n: nat): nat {
    match mode
    case Rename(name, _) => |sql| + n * |InQuotes(name, '"')|
    case FixQuotes => 2 * |sql|
  }

  /** How long the text can be with `left` tokens still to come, all before q. */
  ghost function Limit(sql: string, mode: Mode, n: nat, left: nat, q: nat): int {
    match mode
    case Rename(name, _) => |sql| + (n - left) * |InQuotes(name, '"')|
    case FixQuotes => 2 * |sql| - q
  }

  lemma StaysWithin(sql: string, mode: Mode, n: nat, left: nat, q: nat, b: Token, nOut: nat)
    requires 0 < left <= n && Replaceable(sql, b, mode) && b.off + b.n <= q <= |sql| && b.off + b.n <= nOut
    requires nOut <= Limit(sql, mode, n, left, q)
    ensures nOut + |Replacement(sql, mode, b)| - b.n <= Limit(sql, mode, n, left - 1, b.off) <= Capacity(sql, mode, n)
  {
    ReplacementSize(sql, b, mode);
    if mode.Rename? {
      var w := |InQuotes(mode.name, '"')|;
      assert (n - (left - 1)) * w == (n - left) * w + w;
      assert (n - (left - 1)) * w <= n * w;
    }
  }

  ghost predicate AllReplaceable(sql: string, list: seq<Token>, mode: Mode) {
    forall t {:trigger t in list} :: t in list ==> Replaceable(sql, t, mode)
  }

  /** Disjoint tokens of the text, each listed once. */
  ghost predicate Listed(sql: string, list: seq<Token>, mode: Mode) {
    Distinct(list) && Spaced(sql, Tokens(list)) && AllReplaceable(sql, list, mode)
  }

  /** The tokens in `list` end by q, and those already replaced start at q or later. */
  ghost predicate Split(list: seq<Token>, done: set<Token>, all: set<Token>, q: nat) {
    && Distinct(list) && Tokens(list) + done == all
    && (forall t :: t in list ==> t.off + t.n <= q)
    && (forall t :: t in done ==> q <= t.off)
  }

  lemma TakeLast(sql: string, list: seq<Token>, done: set<Token>, all: set<Token>, q: nat, mode: Mode, k: nat)
    requires Spaced(sql, all) && Split(list, done, all, q) && AllReplaceable(sql, list, mode) && k < |list|
    requires forall j :: 0 <= j < |list| ==> list[j].off <= list[k].off
    ensures Replaceable(sql, list[k], mode) && list[k] !in done && list[k].off + list[k].n <= q
    ensures forall t :: t in done ==> list[k].off < t.off
    ensures Split(Removed(list, k), done + {list[k]}, all, list[k].off) && AllReplaceable(sql, Removed(list, k), mode)
    ensures Spaced(sql, done + {list[k]})
  {
    var b := list[k];
    assert b in list && b in Tokens(list) && b in all;
    RemovedMembers(list, k);
    assert Distinct(Removed(list, k));
    forall t | t in Removed(list, k) ensures t.off + t.n <= b.off {
      assert t in list && t in Tokens(list) && t in all && t != b && Disjoint(t, b);
    }
    assert Tokens(Removed(list, k)) + (done + {b}) == all;
    assert forall t {:trigger t in done + {b}} :: t in done + {b} ==> t in all;
  }

  method ReplaceOne(out: array<char>, nOut: nat, b: Token, text: string, ghost sql: string, ghost r: Token -> string,
                    ghost done: set<Token>)
    returns (nOut': nat)
    requires Spaced(sql, done + {b}) && b !in done && text == r(b)
    requires forall t {:trigger t in done} :: t in done ==> b.off < t.off
    requires Spaced(sql, done)
    requires nOut < out.Length && out[..nOut] == Substituted(sql, done, r, 0)
    requires nOut + |text| - b.n < out.Length
    modifies out
    ensures nOut' == nOut + |text| - b.n
    ensures out[..nOut'] == Substituted(sql, done + {b}, r, 0)
  {
    OneMore(sql, done, r, b);
    ghost var was := out[..nOut];
    nOut' := Splice(out, nOut, b.off, b.n, text);
    assert was[..b.off] == old(out[..b.off]) && was[b.off + b.n..] == old(out[b.off + b.n..nOut]);
  }

  /** The edited text is the text with all tokens replaced at once. */
  method RenameEditSql(ctx: RenameCtx, sql: string, mode: Mode) returns (text: string)
    requires sql != "" && Listed(sql, ctx.list, mode)
    modifies ctx
    ensures text == Substituted(sql, Tokens(old(ctx.list)), Replacer(sql, mode), 0)
    ensures |text| <= Capacity(sql, mode, |old(ctx.list)|)
  {
    hide Split;
    ghost var all, r := Tokens(ctx.list), Replacer(sql, mode);
    var n := |ctx.list|;
    Begin(sql, ctx.list, mode);
    BeginRoom(sql, mode, n);
    var out := new char[Capacity(sql, mode, n) + 1];
    forall i | 0 <= i < |sql| {
      out[i] := sql[i];
    }
    var nOut: nat := |sql|;
    ghost var done: set<Token>, q: nat := {}, |sql|;
    assert out[..nOut] == sql;
    while ctx.list != []
      invariant |ctx.list| <= n && q <= |sql| && Split(ctx.list, done, all, q) && AllReplaceable(sql, ctx.list, mode)
      invariant Spaced(sql, done)
      invariant nOut < out.Length && out[..nOut] == Substituted(sql, done, r, 0)
      invariant nOut <= Limit(sql, mode, n, |ctx.list|, q)
      decreases |ctx.list|
    {
      ghost var list := ctx.list;
      var b, k := ctx.TokenNext();
      TakeLast(sql, list, done, all, q, mode, k);
      OneMore(sql, done, r, b);
      StaysWithin(sql, mode, n, |list|, q, b, nOut);
      nOut := ReplaceOne(out, nOut, b, Replacement(sql, mode, b), sql, r, done);
      done, q := done + {b}, b.off;
    }
    text := out[..nOut];
    Finished(sql, mode, n, done, all, q);
  }

  lemma Begin(sql: string, list: seq<Token>, mode: Mode)
    requires Listed(sql, list, mode)
    ensures Split(list, {}, Tokens(list), |sql|) && Spaced(sql, {})
    ensures Substituted(sql, {}, Replacer(sql, mode), 0) == sql
  {
    NothingReplaced(sql, Replacer(sql, mode));
    forall t | t in list ensures t.off + t.n <= |sql| {
      assert t in Tokens(list);
    }
  }

  lemma BeginRoom(sql: string, mode: Mode, n: nat)
    ensures |sql| <= Limit(sql, mode, n, n, |sql|) && |sql| <= Capacity(sql, mode, n)
  {
  }

  lemma Finished(sql: string, mode: Mode, n: nat, done: set<Token>, all: set<Token>, q: nat)
    requires Split([], done, all, q)
    ensures done == all && Limit(sql, mode, n, 0, q) <= Capacity(sql, mode, n)
  {
    assert Tokens([]) == {};
  }
}
