/** Texts that stand somewhere in a buffer, and what the parser makes of their start. */
module JsonBuffers {
  import opened Options
  import opened Json

  lemma HoldsChar(s: string, i: nat, t: string, k: nat)
    requires Holds(s, i, t) && k < |t|
    ensures i + k < |s| && s[i + k] == t[k]
  {
    assert s[i..i + |t|][k] == s[i + k];
  }

  lemma HoldsParts(s: string, i: nat, a: string, b: string)
    requires Holds(s, i, a + b)
    ensures Holds(s, i, a) && Holds(s, i + |a|, b)
  {
    var r := s[i..i + |a| + |b|];
    assert r[..|a|] == a && r[|a|..] == b;
    assert s[i..i + |a|] == r[..|a|] && s[i + |a|..i + |a| + |b|] == r[|a|..];
  }

  lemma HoldsThree(s: string, i: nat, a: string, b: string, c: string)
    requires Holds(s, i, a + b + c)
    ensures Holds(s, i, a) && Holds(s, i + |a|, b) && Holds(s, i + |a| + |b|, c)
  {
    HoldsParts(s, i, a + b, c);
    HoldsParts(s, i, a, b);
  }

  lemma NoSkip(s: string, j: nat)
    requires j < |s| && !IsBlank(s[j])
    ensures Skip(s, j) == j && Blanks(s, j) == j
  {
  }

  /** A blank at j may as well be left out. */
  lemma BlankSkipped(s: string, j: nat)
    requires j < |s| && IsBlank(s[j])
    ensures Blanks(s, j) == Blanks(s, j + 1)
    ensures Blanks(s, j + 1) < |s| ==> Skip(s, j) == Blanks(s, j + 1)
  {
  }

  lemma SkipIsBlanks(s: string, j: nat)
    requires j <= |s| && Blanks(s, j) < |s|
    ensures Skip(s, j) == Blanks(s, j)
  {
  }

  // ---------------------------------------------------------------------- numbers

  lemma {:induction false} DigitsEndAt(s: string, i: nat, j: nat)
    requires i <= j <= |s| && (j < |s| ==> !IsDigit(s[j])) && forall k :: i <= k < j ==> IsDigit(s[k])
    ensures DigitsEnd(s, i) == j
    decreases j - i
  {
    if i < j {
      DigitsEndAt(s, i + 1, j);
    }
  }

  /** Something that cannot be part of a number follows. */
  predicate Ended(s: string, j: nat) {
    j < |s| && !IsDigit(s[j]) && s[j] !in ".eE"
  }

  // ---------------------------------------------------------------------- strings

  lemma {:induction false} NoNulKept(t: string, k: nat)
    requires k <= |t| && forall j :: k <= j < |t| ==> t[j] != '\0'
    ensures FirstNul(t, k) == |t|
    decreases |t| - k
  {
    if k < |t| {
      NoNulKept(t, k + 1);
    }
  }

  lemma Quotes(inner: string, s: string, i: nat) returns (end: nat)
    requires Holds(s, i, "\"" + inner + "\"")
    ensures end == i + 1 + |inner| < |s| && s[i] == '"' && s[end] == '"' && Holds(s, i + 1, inner)
  {
    end := i + 1 + |inner|;
    HoldsThree(s, i, "\"", inner, "\"");
    HoldsChar(s, i, "\"", 0);
    HoldsChar(s, end, "\"", 0);
  }

  // ----------------------------------------------------------------------- values

  /** The three words are told apart from everything else by their first letter. */
  lemma FirstDecides(s: string, i: nat)
    requires i < |s|
    ensures Holds(s, i, "null") ==> s[i] == 'n'
    ensures Holds(s, i, "false") ==> s[i] == 'f'
    ensures Holds(s, i, "true") ==> s[i] == 't'
  {
    if Holds(s, i, "null") {
      HoldsChar(s, i, "null", 0);
    }
    if Holds(s, i, "false") {
      HoldsChar(s, i, "false", 0);
    }
    if Holds(s, i, "true") {
      HoldsChar(s, i, "true", 0);
    }
  }

  lemma NoBom(s: string)
    requires |s| > 0 && s[0] != '\U{ef}'
    ensures !Holds(s, 0, BOM)
  {
    if Holds(s, 0, BOM) {
      HoldsChar(s, 0, BOM, 0);
    }
  }
}
