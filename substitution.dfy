/** The first half of `evaluate_transform`: every distinct placeholder found
    in a transform template is replaced, everywhere, by the row's value for
    the name inside it. The text produced is what the script hands to
    `eval`. */
module Substitution {
  import opened Failures
  import opened Text
  import opened FieldPattern

  /** One csv row: column name to the text in that column. */
  type Row = map<string, string>

  /** One left-to-right pass over `t` that replaces each match that is a key
      of `repl` by its value and copies everything else. */
  function Expand(t: string, repl: map<string, string>): string
    decreases |t|
  {
    if t == [] then []
    else
      var n := MatchLen(t);
      if n > 0 then
        var m := t[..n];
        (if m in repl then repl[m] else m) + Expand(t[n..], repl)
      else [t[0]] + Expand(t[1..], repl)
  }

  /** The reference substitution: one left-to-right pass that replaces every
      match by the row's value for its name. A name that is not a column of
      the row is a lookup failure (the leftmost such name is reported). */
  function Substitute(t: string, row: Row): (r: Result<string>)
    ensures r.Ok? <==> forall p :: p in Placeholders(t) ==> FieldName(p) in row
    ensures r.Err? ==> && r.error.UnknownField? && r.error.name !in row
                       && exists p :: p in Placeholders(t) && FieldName(p) == r.error.name
    decreases |t|
  {
    if t == [] then Ok([])
    else
      var n := MatchLen(t);
      PlaceholdersStep(t);
      if n > 0 then
        var name := FieldName(t[..n]);
        if name !in row then Err(UnknownField(name))
        else
          var rest :- Substitute(t[n..], row);
          Ok(row[name] + rest)
      else
        var rest :- Substitute(t[1..], row);
        Ok([t[0]] + rest)
  }

  /** What the loop has replaced once it has handled the placeholders `ps`. */
  function Replacements(ps: set<string>, row: Row): map<string, string>
    requires forall p :: p in ps ==> FieldName(p) in row
  {
    map p | p in ps :: row[FieldName(p)]
  }

  /** The templates whose substitution does not depend on the order in which
      the set of placeholders is visited: every `$` starts a placeholder and
      no value put in for a placeholder brings a `$` with it. */
  predicate OrderIndependent(t: string, row: Row) {
    && WellFormed(t)
    && forall p :: p in Placeholders(t) && FieldName(p) in row ==> '$' !in row[FieldName(p)]
  }

  /** `order` lists every element of `ps` exactly once. */
  ghost predicate Enumerates(order: seq<string>, ps: set<string>) {
    && (forall q :: q in order <==> q in ps)
    && forall i, j :: 0 <= i < j < |order| ==> order[i] != order[j]
  }

  /** The text the loop has built after visiting `order`, every name found:
      one `replace` of the whole text per placeholder. It peels the last
      placeholder off, which is the form the loop invariant of
      `SubstituteFields` grows by; `LoopResult` below peels the first one off
      and also covers the raising lookup, and `LoopResultAfter` ties the two. */
  function ReplaceInOrder(t: string, order: seq<string>, row: Row): string
    requires forall q :: q in order ==> |q| > 0 && FieldName(q) in row
    decreases |order|
  {
    if order == [] then t
    else
      var last := order[|order| - 1];
      ReplaceAll(ReplaceInOrder(t, order[..|order| - 1], row), last, row[FieldName(last)])
  }

  /** The outcome of the loop when the set yields its elements in `order`:
      each placeholder in turn is replaced everywhere in the text, and the
      first one whose name is not a column of the row raises. */
  function LoopResult(t: string, row: Row, order: seq<string>): Result<string>
    requires forall q :: q in order ==> |q| > 0
    decreases |order|
  {
    if order == [] then Ok(t)
    else
      var name := FieldName(order[0]);
      if name !in row then Err(UnknownField(name))
      else LoopResult(ReplaceAll(t, order[0], row[name]), row, order[1..])
  }

  /** The substitution loop of `evaluate_transform`. Python visits the set in
      hash order, which the model leaves open: each step takes any element
      not yet visited, and `order` records the order of the visit (completed
      by the unvisited elements when the loop raises). */
  method SubstituteFields(template: string, row: Row) returns (r: Result<string>, ghost order: seq<string>)
    ensures Enumerates(order, Placeholders(template))
    ensures forall q :: q in order ==> IsPlaceholder(q)
    ensures r == LoopResult(template, row, order)
    ensures r.Ok? <==> forall p :: p in Placeholders(template) ==> FieldName(p) in row
    ensures r.Err? ==> && r.error.UnknownField? && r.error.name !in row
                       && exists p :: p in Placeholders(template) && FieldName(p) == r.error.name
    ensures r.Ok? && OrderIndependent(template, row) ==> r == Substitute(template, row)
  {
    var found := set m | m in FindAll(template);
    var remaining := found;
    var transform := template;
    ghost var done: set<string> := {};
    ghost var visited: seq<string> := [];
    while remaining != {}
      invariant done <= found && remaining == found - done
      invariant Enumerates(visited, done)
      invariant forall q :: q in visited ==> IsPlaceholder(q) && FieldName(q) in row
      invariant transform == ReplaceInOrder(template, visited, row)
      decreases remaining
    {
      var p :| p in remaining;
      var name := FieldName(p);
      if name !in row {
        order := RaisingOrder(template, row, visited, done, found, p);
        return Err(UnknownField(name)), order;
      }
      ReplaceInOrderSnoc(template, visited, p, row);
      EnumeratesExtend(visited, done, p);
      transform := ReplaceAll(transform, p, row[name]);
      assert (found - done) - {p} == found - (done + {p});
      visited := visited + [p];
      done := done + {p};
      remaining := remaining - {p};
    }
    assert done == found;
    order := visited;
    LoopResultAfter(template, row, visited, []);
    assert visited + [] == visited;
    r := Ok(transform);
    if OrderIndependent(template, row) {
      OrderIrrelevant(template, row, order);
    }
  }

  /** The loop's text after one more step. */
  lemma ReplaceInOrderSnoc(t: string, order: seq<string>, p: string, row: Row)
    requires forall q :: q in order ==> |q| > 0 && FieldName(q) in row
    requires |p| > 0 && FieldName(p) in row
    ensures ReplaceInOrder(t, order + [p], row) == ReplaceAll(ReplaceInOrder(t, order, row), p, row[FieldName(p)])
  {
    assert (order + [p])[..|order|] == order;
  }

  /** Listing one more element keeps the list an enumeration. */
  lemma EnumeratesExtend(order: seq<string>, done: set<string>, p: string)
    requires Enumerates(order, done) && p !in done
    ensures Enumerates(order + [p], done + {p})
  {
  }

  /** The order of a visit that raises at `p`: the placeholders visited so
      far, then `p`, then the rest of the set. */
  ghost function RaisingOrder(template: string, row: Row, visited: seq<string>, done: set<string>,
                              found: set<string>, p: string): (order: seq<string>)
    requires found == Placeholders(template) && done <= found && p in found - done
    requires Enumerates(visited, done)
    requires forall q :: q in visited ==> IsPlaceholder(q) && FieldName(q) in row
    requires FieldName(p) !in row
    ensures Enumerates(order, found)
    ensures forall q :: q in order ==> IsPlaceholder(q)
    ensures LoopResult(template, row, order) == Err(UnknownField(FieldName(p)))
  {
    var rest := [p] + EnumerationOf(found - done - {p});
    assert Enumerates([p], {p});
    EnumeratesJoin([p], {p}, EnumerationOf(found - done - {p}), found - done - {p});
    EnumeratesJoin(visited, done, rest, {p} + (found - done - {p}));
    assert done + ({p} + (found - done - {p})) == found;
    PlaceholdersArePlaceholders(template);
    LoopResultAfter(template, row, visited, rest);
    assert rest[0] == p;
    visited + rest
  }

  /** Every element of the placeholder set is a placeholder. */
  lemma PlaceholdersArePlaceholders(t: string)
    ensures forall q :: q in Placeholders(t) ==> IsPlaceholder(q)
  {
  }

  /** Some order of visiting a finite set. */
  ghost function EnumerationOf(ps: set<string>): (order: seq<string>)
    ensures Enumerates(order, ps)
    decreases |ps|
  {
    if ps == {} then []
    else
      var x :| x in ps;
      var rest := EnumerationOf(ps - {x});
      assert forall i :: 0 < i < |[x] + rest| ==> ([x] + rest)[i] == rest[i - 1];
      [x] + rest
  }

  /** Two enumerations of disjoint sets, one after the other, enumerate the
      union. */
  lemma EnumeratesJoin(a: seq<string>, sa: set<string>, b: seq<string>, sb: set<string>)
    requires Enumerates(a, sa) && Enumerates(b, sb) && sa !! sb
    ensures Enumerates(a + b, sa + sb)
  {
    var ab := a + b;
    forall i, j | 0 <= i < j < |ab|
      ensures ab[i] != ab[j]
    {
      if j < |a| {
        assert ab[i] == a[i] && ab[j] == a[j];
      } else if i >= |a| {
        assert ab[i] == b[i - |a|] && ab[j] == b[j - |a|];
      } else {
        assert ab[i] == a[i] && a[i] in sa;
        assert ab[j] == b[j - |a|] && b[j - |a|] in sb;
      }
    }
  }

  /** Visiting `order` then `rest` is visiting `rest` from the text that
      visiting `order` leaves, once every name in `order` is a column. */
  lemma {:induction false} LoopResultAfter(t: string, row: Row, order: seq<string>, rest: seq<string>)
    requires forall q :: q in order ==> |q| > 0 && FieldName(q) in row
    requires forall q :: q in rest ==> |q| > 0
    ensures LoopResult(t, row, order + rest) == LoopResult(ReplaceInOrder(t, order, row), row, rest)
    decreases |order|
  {
    if order == [] {
      assert order + rest == rest;
    } else {
      var n := |order| - 1;
      var front := order[..n];
      var last := order[n];
      assert order == front + [last];
      assert order + rest == front + ([last] + rest);
      assert forall q :: q in front ==> q in order;
      LoopResultAfter(t, row, front, [last] + rest);
      assert ([last] + rest)[0] == last && ([last] + rest)[1..] == rest;
    }
  }

  /** The loop runs to its end exactly when every name in the order is a
      column of the row; otherwise it raises on a name from the order that
      is not one. */
  lemma {:induction false} LoopResultOutcome(t: string, row: Row, order: seq<string>)
    requires forall q :: q in order ==> |q| > 0
    ensures LoopResult(t, row, order).Ok? <==> forall q :: q in order ==> FieldName(q) in row
    ensures LoopResult(t, row, order).Err? ==>
              var e := LoopResult(t, row, order).error;
              e.UnknownField? && e.name !in row && exists q :: q in order && FieldName(q) == e.name
    decreases |order|
  {
    if order != [] {
      var name := FieldName(order[0]);
      assert forall q :: q in order <==> q == order[0] || q in order[1..] by {
        assert order == [order[0]] + order[1..];
      }
      if name in row {
        LoopResultOutcome(ReplaceAll(t, order[0], row[name]), row, order[1..]);
      }
    }
  }

  /** The loop's outcome for any visiting order: it succeeds exactly when
      every placeholder names a column of the row, and otherwise raises on a
      name, taken from a placeholder, that is not one. */
  lemma LoopOutcome(t: string, row: Row, order: seq<string>)
    requires Enumerates(order, Placeholders(t)) && forall q :: q in order ==> |q| > 0
    ensures LoopResult(t, row, order).Ok? <==> forall p :: p in Placeholders(t) ==> FieldName(p) in row
    ensures LoopResult(t, row, order).Err? ==>
              var e := LoopResult(t, row, order).error;
              e.UnknownField? && e.name !in row && exists p :: p in Placeholders(t) && FieldName(p) == e.name
  {
    LoopResultOutcome(t, row, order);
  }

  /** A template without placeholders is handed on unchanged. */
  lemma LoopWithoutPlaceholders(t: string, row: Row, order: seq<string>)
    requires Enumerates(order, Placeholders(t)) && Placeholders(t) == {}
    ensures LoopResult(t, row, order) == Ok(t)
  {
    EnumeratesNone(order);
  }

  /** A template that is one placeholder becomes the row's value for it. */
  lemma LoopOnPlaceholder(t: string, row: Row, order: seq<string>)
    requires Enumerates(order, Placeholders(t)) && IsPlaceholder(t) && FieldName(t) in row
    ensures forall q :: q in order ==> |q| > 0
    ensures LoopResult(t, row, order) == Ok(row[FieldName(t)])
  {
    PlaceholdersOfPlaceholder(t);
    EnumeratesOne(order, t);
    ReplaceInOrderSingle(t, row);
    LoopResultAfter(t, row, [t], []);
    assert [t] + [] == [t];
  }

  /** On an order-independent template, every visiting order gives the
      single-pass substitution. */
  lemma OrderIrrelevant(t: string, row: Row, order: seq<string>)
    requires Enumerates(order, Placeholders(t))
    requires OrderIndependent(t, row)
    requires forall p :: p in Placeholders(t) ==> FieldName(p) in row
    ensures forall q :: q in order ==> |q| > 0
    ensures LoopResult(t, row, order) == Substitute(t, row)
  {
    PlaceholdersArePlaceholders(t);
    IndependentPrefix(t, row, order, Placeholders(t));
    SubstituteAgrees(t, row, Replacements(Placeholders(t), row));
    LoopResultAfter(t, row, order, []);
    assert order + [] == order;
  }

  /** On an order-independent template, visiting part of the set in any
      order gives the single pass that replaces just that part. */
  lemma {:induction false} IndependentPrefix(t: string, row: Row, order: seq<string>, done: set<string>)
    requires OrderIndependent(t, row)
    requires Enumerates(order, done) && done <= Placeholders(t)
    requires forall q :: q in done ==> IsPlaceholder(q) && FieldName(q) in row
    ensures ReplaceInOrder(t, order, row) == Expand(t, Replacements(done, row))
    decreases |order|
  {
    if order == [] {
      EnumeratesNone(order);
      ExpandNothing(t);
      assert Replacements({}, row) == map[];
    } else {
      var n := |order| - 1;
      var last := order[n];
      EnumeratesFront(order, done);
      IndependentPrefix(t, row, order[..n], done - {last});
      IndependentStep(t, row, done - {last}, last);
      assert done - {last} + {last} == done;
    }
  }

  /** Dropping the last element of an enumeration. */
  lemma EnumeratesFront(order: seq<string>, ps: set<string>)
    requires Enumerates(order, ps) && order != []
    ensures order[|order| - 1] in ps
    ensures Enumerates(order[..|order| - 1], ps - {order[|order| - 1]})
  {
    var n := |order| - 1;
    var front := order[..n];
    assert forall i :: 0 <= i < n ==> front[i] == order[i];
    assert order == front + [order[n]];
    assert forall q :: q in front <==> q in order && q != order[n];
  }

  /** With a single placeholder the loop runs once and replaces all of it. */
  lemma ReplaceInOrderSingle(t: string, row: Row)
    requires IsPlaceholder(t) && FieldName(t) in row
    ensures ReplaceInOrder(t, [t], row) == row[FieldName(t)]
  {
    var v := row[FieldName(t)];
    assert [t][..0] == [];
    assert ReplaceInOrder(t, [t], row) == ReplaceAll(t, t, v);
    ReplaceAtStart(t, [], v);
    assert t + [] == t;
  }

  /** An enumeration is as long as the set it lists: the loop runs once per
      distinct placeholder. */
  lemma {:induction false} EnumeratesCount(order: seq<string>, ps: set<string>)
    requires Enumerates(order, ps)
    ensures |order| == |ps|
    decreases |order|
  {
    if order == [] {
      assert forall q :: q !in ps;
      assert ps == {};
    } else {
      var n := |order| - 1;
      var last := order[n];
      var front := order[..n];
      assert forall q :: q in front <==> q in order && q != last by {
        assert forall i :: 0 <= i < n ==> front[i] == order[i];
        assert order == front + [last];
      }
      EnumeratesCount(front, ps - {last});
    }
  }

  /** The only enumeration of the empty set is the empty list. */
  lemma EnumeratesNone(order: seq<string>)
    requires Enumerates(order, {})
    ensures order == []
  {
    EnumeratesCount(order, {});
  }

  /** The only enumeration of a singleton lists its element once. */
  lemma EnumeratesOne(order: seq<string>, x: string)
    requires Enumerates(order, {x})
    ensures order == [x]
  {
    EnumeratesCount(order, {x});
    assert order[0] in order;
  }

  /** One loop step, on an order-independent template, in terms of the
      single pass. */
  lemma IndependentStep(t: string, row: Row, done: set<string>, p: string)
    requires OrderIndependent(t, row)
    requires done <= Placeholders(t) && p in Placeholders(t) && p !in done
    requires forall q :: q in done ==> FieldName(q) in row
    requires FieldName(p) in row
    ensures ReplaceAll(Expand(t, Replacements(done, row)), p, row[FieldName(p)])
            == Expand(t, Replacements(done + {p}, row))
  {
    var repl := Replacements(done, row);
    ReplaceExpanded(t, repl, p, row[FieldName(p)]);
    assert repl[p := row[FieldName(p)]] == Replacements(done + {p}, row);
  }

  /** Replacing nothing copies the template. */
  lemma {:induction false} ExpandNothing(t: string)
    ensures Expand(t, map[]) == t
    decreases |t|
  {
    if t != [] {
      var n := MatchLen(t);
      if n > 0 {
        ExpandNothing(t[n..]);
        assert t == t[..n] + t[n..];
      } else {
        ExpandNothing(t[1..]);
        assert t == [t[0]] + t[1..];
      }
    }
  }

  /** `replace` steps over text that holds no `$` when the placeholder begins
      with one. */
  lemma SkipPlain(a: string, b: string, p: string, v: string)
    requires '$' !in a && IsPlaceholder(p)
    ensures ReplaceAll(a + b, p, v) == a + ReplaceAll(b, p, v)
  {
    var s := a + b;
    forall j | 0 <= j < |a| ensures !StartsWith(s[j..], p) {
      assert s[j..][0] == a[j];
    }
    ReplaceSkipsPrefix(s, p, v, |a|);
    assert s[..|a|] == a && s[|a|..] == b;
  }

  /** Two different placeholders never start at the same place. */
  lemma NotAtStart(m: string, rest: string, p: string)
    requires IsPlaceholder(m) && IsPlaceholder(p) && m != p
    ensures !StartsWith(m + rest, p)
  {
    var s := m + rest;
    assert s[..|m|] == m;
    MatchLenUnique(s, |m|);
    if |p| <= |s| && s[..|p|] == p {
      MatchLenUnique(s, |p|);
    }
  }

  /** How far the single pass advances at the start of `t`. */
  function HeadLen(t: string): (k: nat)
    requires t != []
    ensures 0 < k <= |t|
  {
    if MatchLen(t) > 0 then MatchLen(t) else 1
  }

  /** What the single pass writes for the start of `t`. */
  function HeadOut(t: string, repl: map<string, string>): string
    requires t != []
  {
    var head := t[..HeadLen(t)];
    if MatchLen(t) > 0 && head in repl then repl[head] else head
  }

  /** The single pass, unfolded once. */
  lemma ExpandHead(t: string, repl: map<string, string>)
    requires t != []
    ensures Expand(t, repl) == HeadOut(t, repl) + Expand(t[HeadLen(t)..], repl)
  {
    assert t[..1] == [t[0]];
  }

  /** `replace` rewrites an occurrence at the very start. */
  lemma ReplaceAtStart(p: string, rest: string, v: string)
    requires |p| > 0
    ensures ReplaceAll(p + rest, p, v) == v + ReplaceAll(rest, p, v)
  {
    assert StartsWith(p + rest, p);
    assert (p + rest)[|p|..] == rest;
  }

  /** `replace` of one placeholder copies a different placeholder. */
  lemma ReplaceSkipsOther(m: string, rest: string, p: string, v: string)
    requires IsPlaceholder(m) && IsPlaceholder(p) && m != p
    ensures ReplaceAll(m + rest, p, v) == m + ReplaceAll(rest, p, v)
  {
    NotAtStart(m, rest, p);
    assert (m + rest)[1..] == m[1..] + rest;
    DollarOnlyAtStart(m);
    SkipPlain(m[1..], rest, p, v);
    assert m == [m[0]] + m[1..];
  }

  /** `replace` of `p` by `v` handles the start of the partly substituted
      text exactly as the single pass that also replaces `p` would. */
  lemma ReplaceHead(t: string, repl: map<string, string>, p: string, v: string, rest: string)
    requires t != []
    requires t[0] == '$' ==> MatchLen(t) > 0
    requires IsPlaceholder(p) && p !in repl
    requires '$' !in v
    requires forall q :: q in repl ==> '$' !in repl[q]
    ensures ReplaceAll(HeadOut(t, repl) + rest, p, v) == HeadOut(t, repl[p := v]) + ReplaceAll(rest, p, v)
  {
    var m := t[..HeadLen(t)];
    if MatchLen(t) > 0 {
      if m in repl {
        assert HeadOut(t, repl) == repl[m] == HeadOut(t, repl[p := v]);
        SkipPlain(repl[m], rest, p, v);
      } else if m == p {
        assert HeadOut(t, repl) == p && HeadOut(t, repl[p := v]) == v;
        ReplaceAtStart(p, rest, v);
      } else {
        assert HeadOut(t, repl) == m == HeadOut(t, repl[p := v]);
        ReplaceSkipsOther(m, rest, p, v);
      }
    } else {
      assert m == [t[0]] && HeadOut(t, repl) == m == HeadOut(t, repl[p := v]);
      SkipPlain(m, rest, p, v);
    }
  }

  /** One step of the loop on an order-independent template: replacing one
      more placeholder everywhere in the partly substituted text is the same
      as substituting it in the same single pass as the others. */
  lemma {:induction false} ReplaceExpanded(t: string, repl: map<string, string>, p: string, v: string)
    requires WellFormed(t)
    requires IsPlaceholder(p) && p !in repl
    requires '$' !in v
    requires forall q :: q in repl ==> '$' !in repl[q]
    ensures ReplaceAll(Expand(t, repl), p, v) == Expand(t, repl[p := v])
    decreases |t|
  {
    if t != [] {
      var k := HeadLen(t);
      assert t[0..] == t;
      WellFormedSuffix(t, k);
      ExpandHead(t, repl);
      ExpandHead(t, repl[p := v]);
      ReplaceHead(t, repl, p, v, Expand(t[k..], repl));
      ReplaceExpanded(t[k..], repl, p, v);
    }
  }

  /** The single pass that replaces every match is the reference
      substitution. */
  lemma {:induction false} SubstituteAgrees(t: string, row: Row, repl: map<string, string>)
    requires forall q :: q in Placeholders(t) ==> q in repl && FieldName(q) in row && repl[q] == row[FieldName(q)]
    ensures Substitute(t, row) == Ok(Expand(t, repl))
    decreases |t|
  {
    if t != [] {
      var n := MatchLen(t);
      FindAllStep(t);
      if n > 0 {
        assert t[..n] in Placeholders(t);
        assert forall q :: q in Placeholders(t[n..]) ==> q in Placeholders(t);
        SubstituteAgrees(t[n..], row, repl);
      } else {
        assert Placeholders(t) == Placeholders(t[1..]);
        SubstituteAgrees(t[1..], row, repl);
      }
    }
  }

  /** On an order-independent template, substitution leaves no `$` behind,
      so no placeholder survives into the text handed to `eval`. */
  lemma {:induction false} SubstitutedHasNoDollar(t: string, row: Row)
    requires OrderIndependent(t, row) && Substitute(t, row).Ok?
    ensures '$' !in Substitute(t, row).value
    ensures Placeholders(Substitute(t, row).value) == {}
    decreases |t|
  {
    var s := Substitute(t, row).value;
    if t != [] {
      var n := MatchLen(t);
      PlaceholdersStep(t);
      if n > 0 {
        var p := t[..n];
        assert p in Placeholders(t);
        WellFormedSuffix(t, n);
        SubstitutedHasNoDollar(t[n..], row);
        assert s == row[FieldName(p)] + Substitute(t[n..], row).value;
      } else {
        assert t[0..] == t;
        WellFormedSuffix(t, 1);
        SubstitutedHasNoDollar(t[1..], row);
        assert s == [t[0]] + Substitute(t[1..], row).value;
      }
    }
    NoDollarNoPlaceholders(s);
  }

  /** The placeholders of `${a}${b}` are its two halves. */
  lemma TwoPlaceholders(a: string, b: string)
    requires IsPlaceholder(a) && IsPlaceholder(b)
    ensures Placeholders(a + b) == {a, b}
  {
    var t := a + b;
    assert t[..|a|] == a && t[|a|..] == b;
    MatchLenUnique(t, |a|);
    PlaceholdersStep(t);
    PlaceholdersOfPlaceholder(b);
  }

  /** Replacing the first of two placeholders by the second. */
  lemma ReplaceFirstOfTwo(a: string, b: string, v: string)
    requires IsPlaceholder(a) && IsPlaceholder(b) && a != b
    ensures ReplaceAll(a + b, a, v) == v + b
  {
    ReplaceAtStart(a, b, v);
    ReplaceSkipsOther(b, [], a, v);
    assert b + [] == b;
    assert ReplaceAll([], a, v) == [];
  }

  /** Replacing the second of two placeholders. */
  lemma ReplaceSecondOfTwo(a: string, b: string, v: string)
    requires IsPlaceholder(a) && IsPlaceholder(b) && a != b
    ensures ReplaceAll(a + b, b, v) == a + v
  {
    ReplaceSkipsOther(a, b, b, v);
    ReplaceAtStart(b, [], v);
    assert b + [] == b;
    assert ReplaceAll([], b, v) == [];
  }

  /** Without the order-independence condition the result depends on the
      order in which the set is visited: in the template `a + b` with `b` as
      the value of `a`'s name, visiting `a` first builds a second `b` that the
      later visit of `b` also replaces, while visiting `b` first does not. */
  lemma OrderMatters(a: string, b: string, v: string)
    requires IsPlaceholder(a) && IsPlaceholder(b) && FieldName(a) != FieldName(b)
    requires '$' !in v
    ensures var row := map[FieldName(a) := b, FieldName(b) := v];
            && Placeholders(a + b) == {a, b}
            && !OrderIndependent(a + b, row)
            && Enumerates([a, b], Placeholders(a + b))
            && Enumerates([b, a], Placeholders(a + b))
            && LoopResult(a + b, row, [a, b]) == Ok(v + v)
            && LoopResult(a + b, row, [b, a]) == Ok(b + v)
            && v + v != b + v
  {
    var row := map[FieldName(a) := b, FieldName(b) := v];
    TwoPlaceholders(a, b);
    assert a in Placeholders(a + b) && row[FieldName(a)] == b && b[0] == '$';
    VisitFirstThenSecond(a, b, v, row);
    VisitSecondThenFirst(a, b, v, row);
    DollarFirst(v, b);
  }

  /** The loop over a two-element order. */
  lemma LoopTwo(t: string, row: Row, p: string, q: string)
    requires |p| > 0 && |q| > 0 && FieldName(p) in row && FieldName(q) in row
    ensures LoopResult(t, row, [p, q]) == Ok(ReplaceAll(ReplaceAll(t, p, row[FieldName(p)]), q, row[FieldName(q)]))
  {
    var t1 := ReplaceAll(t, p, row[FieldName(p)]);
    assert [p, q][0] == p && [p, q][1..] == [q];
    assert LoopResult(t, row, [p, q]) == LoopResult(t1, row, [q]);
    assert [q][0] == q && [q][1..] == [];
    assert LoopResult(t1, row, [q]) == LoopResult(ReplaceAll(t1, q, row[FieldName(q)]), row, []);
  }

  /** Visiting `a` first in `a + b`, where `a`'s value is `b` itself. */
  lemma VisitFirstThenSecond(a: string, b: string, v: string, row: Row)
    requires IsPlaceholder(a) && IsPlaceholder(b) && a != b
    requires FieldName(a) in row && row[FieldName(a)] == b
    requires FieldName(b) in row && row[FieldName(b)] == v
    ensures LoopResult(a + b, row, [a, b]) == Ok(v + v)
  {
    LoopTwo(a + b, row, a, b);
    ReplaceFirstOfTwo(a, b, b);
    ReplaceAtStart(b, [], v);
    assert b + [] == b;
    assert ReplaceAll([], b, v) == [];
    assert ReplaceAll(b, b, v) == v;
    ReplaceAtStart(b, b, v);
  }

  /** Visiting `b` first in `a + b`: the later visit of `a` cannot reach the
      `b` its value brings in. */
  lemma VisitSecondThenFirst(a: string, b: string, v: string, row: Row)
    requires IsPlaceholder(a) && IsPlaceholder(b) && a != b && '$' !in v
    requires FieldName(a) in row && row[FieldName(a)] == b
    requires FieldName(b) in row && row[FieldName(b)] == v
    ensures LoopResult(a + b, row, [b, a]) == Ok(b + v)
  {
    LoopTwo(a + b, row, b, a);
    ReplaceSecondOfTwo(a, b, v);
    ReplaceAtStart(a, v, b);
    ReplaceWithoutDollar(v, a, b);
  }

  /** A text starting with `$` differs from one without `$`. */
  lemma DollarFirst(v: string, b: string)
    requires '$' !in v && b != [] && b[0] == '$'
    ensures v + v != b + v
  {
    assert (b + v)[0] == '$';
    if v != [] {
      assert (v + v)[0] == v[0];
    }
  }

  /** A text without `$` holds no placeholder to replace. */
  lemma ReplaceWithoutDollar(s: string, p: string, v: string)
    requires IsPlaceholder(p) && '$' !in s
    ensures ReplaceAll(s, p, v) == s
  {
    ReplaceSkipsPrefix(s, p, v, |s|);
    assert s[..|s|] == s;
  }
}
