/** The placeholder pattern `field_regexp` and what `findall` returns for it.
    A placeholder is `${`, one or more characters from A-Z, a-z, 0-9 or
    space, then `}`. */
module FieldPattern {
  import opened Text

  /** The character class `[A-Za-z0-9 ]` (ASCII only, as in the pattern). */
  predicate IsNameChar(c: char) {
    'A' <= c <= 'Z' || 'a' <= c <= 'z' || '0' <= c <= '9' || c == ' '
  }

  /** The whole of `p` matches the pattern. */
  predicate IsPlaceholder(p: string) {
    && |p| >= 4
    && p[0] == '$' && p[1] == '{' && p[|p| - 1] == '}'
    && forall i :: 2 <= i < |p| - 1 ==> IsNameChar(p[i])
  }

  /** Length of the longest prefix of `s` made of name characters. */
  function NameRun(s: string): (n: nat)
    ensures n <= |s|
    ensures forall i :: 0 <= i < n ==> IsNameChar(s[i])
    ensures n < |s| ==> !IsNameChar(s[n])
    decreases |s|
  {
    if s != [] && IsNameChar(s[0]) then 1 + NameRun(s[1..]) else 0
  }

  /** The pattern matched at the start of `s`: the length of the match, or 0
      when there is none (MatchLenUnique: the match is the one and only
      prefix of `s` that is a placeholder). */
  function MatchLen(s: string): (n: nat)
    ensures n == 0 || (4 <= n <= |s| && IsPlaceholder(s[..n]))
  {
    if |s| >= 2 && s[0] == '$' && s[1] == '{' then
      var k := NameRun(s[2..]);
      assert forall i :: 2 <= i < |s| ==> s[i] == s[2..][i - 2];
      if k > 0 && 2 + k < |s| && s[2 + k] == '}' then k + 3 else 0
    else 0
  }

  /** A prefix of `s` that is a placeholder is the match at the start of
      `s`: the greedy run of name characters cannot stop anywhere else. */
  lemma MatchLenUnique(s: string, k: nat)
    requires k <= |s| && IsPlaceholder(s[..k])
    ensures MatchLen(s) == k
  {
    var run := NameRun(s[2..]);
    assert forall i :: 2 <= i < |s| ==> s[i] == s[2..][i - 2];
    assert forall i :: 2 <= i < k - 1 ==> IsNameChar(s[..k][i]);
    assert s[k - 1] == s[..k][k - 1] == '}';
    assert run == k - 3;
  }

  /** `field_regexp.findall(s)`: the matches, left to right, each scan
      resuming after the previous match. */
  function FindAll(s: string): (ms: seq<string>)
    ensures forall m :: m in ms ==> IsPlaceholder(m)
    decreases |s|
  {
    if s == [] then []
    else
      var n := MatchLen(s);
      if n > 0 then [s[..n]] + FindAll(s[n..]) else FindAll(s[1..])
  }

  /** `set(field_regexp.findall(s))`: the distinct placeholders of `s`. */
  function Placeholders(s: string): set<string> {
    set m | m in FindAll(s)
  }

  /** `p[2:-1]`: the text strictly between `${` and `}`. */
  function FieldName(p: string): string {
    if |p| >= 3 then p[2..|p| - 1] else []
  }

  /** The name inside a placeholder is a non-empty run of name characters,
      and the placeholder is that name between `${` and `}`. */
  lemma FieldNameOfPlaceholder(p: string)
    requires IsPlaceholder(p)
    ensures |FieldName(p)| > 0 && p == "${" + FieldName(p) + "}"
    ensures forall i :: 0 <= i < |FieldName(p)| ==> IsNameChar(FieldName(p)[i])
  {
  }

  /** Every `$` of `s` starts a placeholder. Templates of this shape are the
      ones whose substitution does not depend on the order of the
      replacements. */
  predicate WellFormed(s: string) {
    forall i :: 0 <= i < |s| && s[i] == '$' ==> MatchLen(s[i..]) > 0
  }

  /** A placeholder holds `$` only at its start. */
  lemma DollarOnlyAtStart(p: string)
    requires IsPlaceholder(p)
    ensures '$' !in p[1..]
  {
    forall i | 0 <= i < |p[1..]| ensures p[1..][i] != '$' {
      assert p[1..][i] == p[i + 1];
    }
  }

  /** A placeholder written from a name: the name comes back out of it, and
      it matches the pattern exactly when the name is a non-empty run of
      name characters. */
  lemma PlaceholderOfName(name: string)
    ensures FieldName("${" + name + "}") == name
    ensures IsPlaceholder("${" + name + "}") <==>
              |name| > 0 && forall i :: 0 <= i < |name| ==> IsNameChar(name[i])
  {
    var p := "${" + name + "}";
    assert p[2..|p| - 1] == name;
    assert forall i :: 0 <= i < |name| ==> p[i + 2] == name[i];
  }

  /** The scan of `s` unfolded once: the match at the start, if any, then the
      matches of what follows it. */
  lemma FindAllStep(s: string)
    requires s != []
    ensures MatchLen(s) > 0 ==> FindAll(s) == [s[..MatchLen(s)]] + FindAll(s[MatchLen(s)..])
    ensures MatchLen(s) == 0 ==> FindAll(s) == FindAll(s[1..])
  {
  }

  /** The distinct matches of `s`, unfolded once. */
  lemma PlaceholdersStep(s: string)
    requires s != []
    ensures MatchLen(s) > 0 ==> Placeholders(s) == {s[..MatchLen(s)]} + Placeholders(s[MatchLen(s)..])
    ensures MatchLen(s) == 0 ==> Placeholders(s) == Placeholders(s[1..])
  {
    FindAllStep(s);
  }

  /** Every match is an occurrence of a placeholder. */
  lemma {:induction false} MatchesOccur(s: string, p: string)
    requires p in Placeholders(s)
    ensures IsPlaceholder(p) && Occurs(p, s)
    decreases |s|
  {
    var n := MatchLen(s);
    FindAllStep(s);
    if n > 0 && p == s[..n] {
      assert StartsWith(s[0..], p);
    } else {
      var next := if n > 0 then n else 1;
      var rest := s[next..];
      assert p in Placeholders(rest);
      MatchesOccur(rest, p);
      var j :| 0 <= j <= |rest| && StartsWith(rest[j..], p);
      assert rest[j..] == s[j + next..];
    }
  }

  /** Every occurrence of a placeholder is a match. */
  lemma {:induction false} OccurrencesMatch(s: string, p: string, i: nat)
    requires IsPlaceholder(p) && i <= |s| && StartsWith(s[i..], p)
    ensures p in Placeholders(s)
    decreases |s|
  {
    var n := MatchLen(s);
    FindAllStep(s);
    if i == 0 {
      assert s[..|p|] == p by { assert s[0..] == s; }
      MatchLenUnique(s, |p|);
    } else {
      var next := if n > 0 then n else 1;
      if i < next {
        assert s[i] == '$' by { assert s[i..][0] == p[0]; }
        assert s[..n][1..][i - 1] == s[i];
        DollarOnlyAtStart(s[..n]);
      } else {
        var rest := s[next..];
        assert s[i..] == rest[i - next..];
        OccurrencesMatch(rest, p, i - next);
      }
    }
  }

  /** The matches of `s` are exactly the placeholder-shaped strings that occur
      in `s`: matches cannot overlap, so `findall` misses none. */
  lemma PlaceholdersAreOccurrences(s: string, p: string)
    ensures p in Placeholders(s) <==> IsPlaceholder(p) && Occurs(p, s)
  {
    if p in Placeholders(s) {
      MatchesOccur(s, p);
    }
    if IsPlaceholder(p) && Occurs(p, s) {
      var i :| 0 <= i <= |s| && StartsWith(s[i..], p);
      OccurrencesMatch(s, p, i);
    }
  }

  /** A template with no `$` has no placeholder. */
  lemma {:induction false} NoDollarNoPlaceholders(s: string)
    requires '$' !in s
    ensures Placeholders(s) == {}
    decreases |s|
  {
    if s != [] {
      assert s[0] != '$';
      assert '$' !in s[1..];
      NoDollarNoPlaceholders(s[1..]);
    }
  }

  /** A template that is one placeholder has itself as its only match. */
  lemma PlaceholdersOfPlaceholder(p: string)
    requires IsPlaceholder(p)
    ensures FindAll(p) == [p]
    ensures Placeholders(p) == {p}
  {
    assert p[..|p|] == p;
    MatchLenUnique(p, |p|);
    assert p[|p|..] == [];
  }

  /** The `$`-structure of a suffix is that of the original. */
  lemma WellFormedSuffix(s: string, k: nat)
    requires WellFormed(s) && k <= |s|
    ensures WellFormed(s[k..])
  {
    forall i | 0 <= i < |s[k..]| && s[k..][i] == '$' ensures MatchLen(s[k..][i..]) > 0 {
      assert s[k..][i..] == s[k + i..];
    }
  }
}
