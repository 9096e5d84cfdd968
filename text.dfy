/** The Python string operations the transformer relies on, `str.replace`
    and `str.join`, and the two that state what they do, `str.find` and
    `str.split`, written out over `seq<char>`. */
module Text {

  /** `s` begins with `p` (Python's `s.startswith(p)`). */
  predicate StartsWith(s: string, p: string) {
    |p| <= |s| && s[..|p|] == p
  }

  /** `p` occurs somewhere in `s` (Python's `p in s`). */
  ghost predicate Occurs(p: string, s: string) {
    exists i :: 0 <= i <= |s| && StartsWith(s[i..], p)
  }

  /** Position of the leftmost occurrence of `p` in `s`, or `|s|` when there
      is none (Python's `s.find(p)`, with `|s|` standing for -1). */
  function IndexOf(s: string, p: string): (r: nat)
    requires |p| > 0
    ensures r <= |s|
    ensures r < |s| ==> StartsWith(s[r..], p)
    ensures forall j :: 0 <= j < r ==> !StartsWith(s[j..], p)
    decreases |s|
  {
    if s == [] || StartsWith(s, p) then 0
    else
      var r := 1 + IndexOf(s[1..], p);
      assert forall j :: 1 <= j <= |s| ==> s[j..] == s[1..][j - 1..];
      r
  }

  /** Python's `s.replace(p, v)`: scan left to right and replace every
      occurrence of `p` that does not overlap an earlier replaced one. */
  function ReplaceAll(s: string, p: string, v: string): string
    requires |p| > 0
    decreases |s|
  {
    if s == [] then []
    else if StartsWith(s, p) then v + ReplaceAll(s[|p|..], p, v)
    else [s[0]] + ReplaceAll(s[1..], p, v)
  }

  /** Python's `sep.join(xs)`. */
  function Join(xs: seq<string>, sep: string): string
    decreases |xs|
  {
    if xs == [] then []
    else if |xs| == 1 then xs[0]
    else xs[0] + sep + Join(xs[1..], sep)
  }

  /** Python's `s.split(sep)` for a non-empty separator: never empty, one
      piece more than there are (non-overlapping) separators. */
  function Split(s: string, sep: string): (r: seq<string>)
    requires |sep| > 0
    ensures |r| > 0
    decreases |s|
  {
    var i := IndexOf(s, sep);
    if i == |s| then [s] else [s[..i]] + Split(s[i + |sep|..], sep)
  }

  /** Copying a prefix that holds no occurrence start leaves it untouched. */
  lemma {:induction false} ReplaceSkipsPrefix(s: string, p: string, v: string, k: nat)
    requires |p| > 0 && k <= |s|
    requires forall j :: 0 <= j < k ==> !StartsWith(s[j..], p)
    ensures ReplaceAll(s, p, v) == s[..k] + ReplaceAll(s[k..], p, v)
    decreases k
  {
    if k > 0 {
      ReplaceSkipsPrefix(s, p, v, k - 1);
      var t := s[k - 1..];
      assert t != [] && !StartsWith(t, p);
      assert t[1..] == s[k..];
      assert ReplaceAll(t, p, v) == [s[k - 1]] + ReplaceAll(s[k..], p, v);
      assert s[..k] == s[..k - 1] + [s[k - 1]];
    } else {
      assert s[..0] == [] && s[0..] == s;
    }
  }

  /** Replacing up to and including the leftmost occurrence at `i`. */
  lemma {:induction false} ReplaceAtFirst(s: string, p: string, v: string, i: nat)
    requires |p| > 0 && i == IndexOf(s, p) && i < |s|
    ensures ReplaceAll(s, p, v) == s[..i] + v + ReplaceAll(s[i + |p|..], p, v)
  {
    var t := s[i..];
    var w := ReplaceAll(s[i + |p|..], p, v);
    assert ReplaceAll(t, p, v) == v + w by {
      assert t != [] && StartsWith(t, p);
      assert t[|p|..] == s[i + |p|..];
    }
    ReplaceSkipsPrefix(s, p, v, i);
    assert s[..i] + (v + w) == s[..i] + v + w;
  }

  /** `s.replace(p, v) == v.join(s.split(p))`: the replacement is exactly the
      split pieces glued back with `v`, so every occurrence found by the
      split is replaced and nothing else changes. */
  lemma {:induction false} ReplaceIsSplitJoin(s: string, p: string, v: string)
    requires |p| > 0
    ensures ReplaceAll(s, p, v) == Join(Split(s, p), v)
    decreases |s|
  {
    var i := IndexOf(s, p);
    if i == |s| {
      ReplaceSkipsPrefix(s, p, v, i);
      assert s[..i] == s;
      assert s[i..] == [];
    } else {
      var rest := s[i + |p|..];
      ReplaceAtFirst(s, p, v, i);
      ReplaceIsSplitJoin(rest, p, v);
      JoinCons(s[..i], Split(rest, p), v);
    }
  }

  /** Joining a piece in front of a non-empty list puts one separator between. */
  lemma JoinCons(x: string, ys: seq<string>, sep: string)
    requires |ys| > 0
    ensures Join([x] + ys, sep) == x + sep + Join(ys, sep)
  {
    assert ([x] + ys)[1..] == ys;
  }

  /** A string with no occurrence of `p` comes back from `replace` unchanged. */
  lemma ReplaceWithoutOccurrence(s: string, p: string, v: string)
    requires |p| > 0 && !Occurs(p, s)
    ensures ReplaceAll(s, p, v) == s
  {
    ReplaceSkipsPrefix(s, p, v, |s|);
    assert s[..|s|] == s;
  }

  /** A prefix that does not contain the separator's first character holds
      no occurrence of the separator. */
  lemma {:induction false} IndexOfAfterPlain(x: string, rest: string, sep: string)
    requires |sep| > 0 && sep[0] !in x
    ensures IndexOf(x + rest, sep) == |x| + IndexOf(rest, sep)
    decreases |x|
  {
    if x != [] {
      assert (x + rest)[0] == x[0];
      assert !StartsWith(x + rest, sep);
      assert (x + rest)[1..] == x[1..] + rest;
      IndexOfAfterPlain(x[1..], rest, sep);
    } else {
      assert x + rest == rest;
    }
  }

  /** A piece without the separator's first character splits to itself. */
  lemma SplitPlain(x: string, sep: string)
    requires |sep| > 0 && sep[0] !in x
    ensures Split(x, sep) == [x]
  {
    IndexOfAfterPlain(x, [], sep);
    assert x + [] == x;
  }

  /** Splitting stops at the separator right after a plain first piece. */
  lemma SplitAfterPlain(x: string, tail: string, sep: string)
    requires |sep| > 0 && sep[0] !in x
    ensures Split(x + sep + tail, sep) == [x] + Split(tail, sep)
  {
    var s := x + sep + tail;
    assert s == x + (sep + tail);
    assert IndexOf(sep + tail, sep) == 0 by {
      assert (sep + tail)[..|sep|] == sep;
    }
    IndexOfAfterPlain(x, sep + tail, sep);
    assert s[..|x|] == x;
    assert s[|x| + |sep|..] == tail;
  }

  /** `split` undoes `join` when no piece contains the separator's first
      character: the pieces come back, in order, one for one. */
  lemma {:induction false} SplitJoin(xs: seq<string>, sep: string)
    requires |sep| > 0 && |xs| > 0
    requires forall k :: 0 <= k < |xs| ==> sep[0] !in xs[k]
    ensures Split(Join(xs, sep), sep) == xs
    decreases |xs|
  {
    if |xs| == 1 {
      SplitPlain(xs[0], sep);
    } else {
      SplitAfterPlain(xs[0], Join(xs[1..], sep), sep);
      SplitJoin(xs[1..], sep);
      assert xs == [xs[0]] + xs[1..];
    }
  }
}
