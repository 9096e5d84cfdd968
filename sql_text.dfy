/** The SQL statements the transformer sends to SQLite, built as the script
    builds them (`'\n'.join` of their lines), and a reader that takes a
    statement apart again into its column list and its value list. */
module SqlText {
  import opened Failures
  import opened Text
  import opened SqlValues

  /** What separates two entries of a column or value list: the comma that
      ends a line and the four spaces that indent the next. */
  const ListSep: string := ",\n    "

  /** The lines around the column definitions of the CREATE statement,
      `'CREATE TABLE products'` and `'('` before, `')'` after, each on a line
      of its own, the list indented by four spaces. */
  const CreateHead: string := "CREATE TABLE products\n(\n    "
  const InsertHead: string := "INSERT INTO products\n(\n    "
  const ValuesMarker: string := "\n) VALUES (\n    "
  const Tail: string := "\n)"

  /** The text `init_db` builds: `'\n'.join` of the lines `CREATE TABLE
      products`, `(`, the indented definitions and `)`. */
  function CreateTableText(defs: seq<string>): string {
    CreateHead + (Join(defs, ListSep) + Tail)
  }

  /** The text built for each row: `'\n'.join` of the lines `INSERT INTO
      products`, `(`, the indented column names, `) VALUES (`, the indented
      literals and `)`. */
  function InsertText(names: seq<string>, literals: seq<string>): string {
    InsertHead + (Join(names, ListSep) + (ValuesMarker + (Join(literals, ListSep) + Tail)))
  }

  /** A character that can be part of a bare list entry. */
  predicate IsEntryChar(c: char) {
    c != ',' && c != '\n'
  }

  /** Length of the bare entry `s` begins with. */
  function EntryRun(s: string): (n: nat)
    ensures n <= |s|
    decreases |s|
  {
    if s == [] || !IsEntryChar(s[0]) then 0 else 1 + EntryRun(s[1..])
  }

  /** The bare entry (a column name or a column definition) at the start of
      `s`: everything up to the first comma or line break. */
  function ReadEntry(s: string): (r: Option<(string, nat)>)
    ensures r.Some? && r.value.1 <= |s| && r.value.0 == s[..r.value.1]
  {
    var n := EntryRun(s);
    Some((s[..n], n))
  }

  /** A list of items at the start of `s`, each taken by `read` and the next
      one after the separator `sep`, with the number of characters they
      take. A reading that claims more than there is counts as no reading. */
  function ReadList<T>(s: string, read: string -> Option<(T, nat)>, sep: string): (r: Option<(seq<T>, nat)>)
    requires |sep| > 0
    ensures r.Some? ==> r.value.1 <= |s|
    decreases |s|
  {
    var first := read(s);
    if first.None? || first.value.1 > |s| then None
    else
      var n := first.value.1;
      if !StartsWith(s[n..], sep) then Some(([first.value.0], n))
      else
        var more := ReadList(s[n + |sep|..], read, sep);
        if more.None? then None
        else Some(([first.value.0] + more.value.0, n + |sep| + more.value.1))
  }

  /** The column definitions of a CREATE statement. */
  function ParseCreate(text: string): Option<seq<string>> {
    if !StartsWith(text, CreateHead) then None
    else
      var body := text[|CreateHead|..];
      match ReadList(body, ReadEntry, ListSep)
      case None => None
      case Some((defs, k)) => if body[k..] == Tail then Some(defs) else None
  }

  /** The column names and the values of an INSERT statement. */
  function ParseInsert(text: string): Option<(seq<string>, seq<SqlLiteral>)> {
    if !StartsWith(text, InsertHead) then None
    else
      var body := text[|InsertHead|..];
      match ReadList(body, ReadEntry, ListSep)
      case None => None
      case Some((names, k)) =>
        match ParseValues(body[k..])
        case None => None
        case Some(lits) => Some((names, lits))
  }

  /** The value list of an INSERT statement, from the line break that closes
      its column list to the end of the text. */
  function ParseValues(rest: string): Option<seq<SqlLiteral>> {
    if !StartsWith(rest, ValuesMarker) then None
    else
      var values := rest[|ValuesMarker|..];
      match ReadList(values, ReadLiteral, ListSep)
      case None => None
      case Some((lits, m)) => if values[m..] == Tail then Some(lits) else None
  }

  /** An entry holding neither a comma nor a line break. */
  predicate BareEntry(x: string) {
    forall c :: c in x ==> IsEntryChar(c)
  }

  /** Entries a list reader can take apart again. */
  predicate BareEntries(xs: seq<string>) {
    forall k :: 0 <= k < |xs| ==> BareEntry(xs[k])
  }

  /** A literal that reads back as itself: no quote inside a text. */
  predicate SafeLiteral(l: SqlLiteral) {
    l.TextLit? ==> '\'' !in l.s
  }

  /** Literals a list reader can take apart again. */
  predicate QuoteFree(lits: seq<SqlLiteral>) {
    forall k :: 0 <= k < |lits| ==> SafeLiteral(lits[k])
  }

  /** The SQL text of each literal. */
  function RenderAll(lits: seq<SqlLiteral>): (r: seq<string>)
    ensures |r| == |lits|
    ensures forall k :: 0 <= k < |lits| ==> r[k] == Render(lits[k])
    decreases |lits|
  {
    if lits == [] then [] else [Render(lits[0])] + RenderAll(lits[1..])
  }

  /** An entry rendered as itself. */
  function Verbatim(x: string): string {
    x
  }

  /** A separator as the list readers need it: it starts with the comma
      that ends an entry. */
  predicate IsSeparator(sep: string) {
    |sep| > 0 && sep[0] == ','
  }

  /** Where a list ends: at the end of the text or before a line break. */
  predicate ListEnd(rest: string) {
    rest == [] || rest[0] == '\n'
  }

  /** The rendered items, separated, with `rest` after the last. */
  function RenderedList<T>(items: seq<T>, render: T -> string, rest: string, sep: string): string
    requires |items| > 0
    decreases |items|
  {
    if |items| == 1 then render(items[0]) + rest
    else render(items[0]) + (sep + RenderedList(items[1..], render, rest, sep))
  }

  /** `read` takes every item of a rendered list back, with what follows it
      in the list. */
  ghost predicate ReadsEach<T>(read: string -> Option<(T, nat)>, render: T -> string,
                               items: seq<T>, rest: string, sep: string)
    requires |items| > 0
    decreases |items|
  {
    read(RenderedList(items, render, rest, sep)) == Some((items[0], |render(items[0])|))
    && (|items| > 1 ==> ReadsEach(read, render, items[1..], rest, sep))
  }

  /** The end of a list is no separator. */
  lemma NotAtSeparator(rest: string, sep: string)
    requires ListEnd(rest) && IsSeparator(sep)
    ensures !StartsWith(rest, sep)
  {
    assert rest != [] ==> rest[0] != sep[0];
  }

  /** Text that continues with a separator at `n`. */
  lemma AtSeparator(s: string, n: nat, after: string, sep: string)
    requires n <= |s| && s[n..] == sep + after
    ensures StartsWith(s[n..], sep) && n + |sep| <= |s| && s[n + |sep|..] == after
  {
    assert (sep + after)[..|sep|] == sep;
    assert s[n + |sep|..] == after;
  }

  /** The last item of a list: the reader takes it and stops. */
  lemma ReadLastItem<T>(read: string -> Option<(T, nat)>, x: string, l: T, rest: string, sep: string)
    requires IsSeparator(sep) && ListEnd(rest)
    requires read(x + rest) == Some((l, |x|))
    ensures ReadList(x + rest, read, sep) == Some(([l], |x|))
  {
    var s := x + rest;
    assert s[|x|..] == rest;
    NotAtSeparator(rest, sep);
  }

  /** One step of the list reader: the first item ends where a separator
      begins, and the rest of the list is read after the separator. */
  lemma ReadListStep<T>(read: string -> Option<(T, nat)>, s: string, n: nat, l: T, after: string,
                        more: seq<T>, k: nat, sep: string)
    requires |sep| > 0
    requires read(s) == Some((l, n)) && n <= |s| && s[n..] == sep + after
    requires ReadList(after, read, sep) == Some((more, k))
    ensures ReadList(s, read, sep) == Some(([l] + more, n + |sep| + k))
  {
    AtSeparator(s, n, after, sep);
  }

  /** Reading the rendered items gives them back, and the reading stops
      where the list ends, before a line break. */
  lemma {:induction false} ReadRenderedList<T>(read: string -> Option<(T, nat)>, render: T -> string,
                                               items: seq<T>, rest: string, sep: string)
    requires IsSeparator(sep) && ListEnd(rest)
    requires |items| > 0 && ReadsEach(read, render, items, rest, sep)
    ensures ReadList(RenderedList(items, render, rest, sep), read, sep)
            == Some((items, |RenderedList(items, render, rest, sep)| - |rest|))
    decreases |items|
  {
    if |items| == 1 {
      ReadLastItem(read, render(items[0]), items[0], rest, sep);
      assert [items[0]] == items;
    } else {
      ReadRenderedList(read, render, items[1..], rest, sep);
      ReadRenderedCons(read, render, items, rest, sep);
    }
  }

  /** A list of two or more rendered items: the first is read, then the rest. */
  lemma ReadRenderedCons<T>(read: string -> Option<(T, nat)>, render: T -> string,
                            items: seq<T>, rest: string, sep: string)
    requires |items| > 1 && |sep| > 0
    requires read(RenderedList(items, render, rest, sep)) == Some((items[0], |render(items[0])|))
    requires ReadList(RenderedList(items[1..], render, rest, sep), read, sep)
             == Some((items[1..], |RenderedList(items[1..], render, rest, sep)| - |rest|))
    ensures ReadList(RenderedList(items, render, rest, sep), read, sep)
            == Some((items, |RenderedList(items, render, rest, sep)| - |rest|))
  {
    var x := render(items[0]);
    var tail := items[1..];
    var after := RenderedList(tail, render, rest, sep);
    var s := RenderedList(items, render, rest, sep);
    assert s[|x|..] == sep + after by {
      assert s == x + (sep + after);
    }
    ReadListStep(read, s, |x|, items[0], after, tail, |after| - |rest|, sep);
    assert [items[0]] + tail == items;
  }

  /** `sep.join` of the renderings, followed by `rest`, is the rendered list. */
  lemma {:induction false} JoinIsRenderedList<T>(strs: seq<string>, items: seq<T>, render: T -> string,
                                                 rest: string, sep: string)
    requires |items| > 0 && |strs| == |items|
    requires forall k :: 0 <= k < |items| ==> strs[k] == render(items[k])
    ensures Join(strs, sep) + rest == RenderedList(items, render, rest, sep)
    decreases |items|
  {
    if |items| > 1 {
      JoinIsRenderedList(strs[1..], items[1..], render, rest, sep);
      var j := Join(strs[1..], sep);
      assert strs[0] + sep + j + rest == strs[0] + (sep + (j + rest));
    }
  }

  lemma {:induction false} EntryRunOf(x: string, rest: string)
    requires BareEntry(x)
    requires rest == [] || !IsEntryChar(rest[0])
    ensures EntryRun(x + rest) == |x|
    decreases |x|
  {
    if x == [] {
      assert x + rest == rest;
    } else {
      assert (x + rest)[0] == x[0];
      assert (x + rest)[1..] == x[1..] + rest;
      EntryRunOf(x[1..], rest);
    }
  }

  /** A bare entry is read back whole, up to the comma or line break after it. */
  lemma ReadBareEntry(x: string, rest: string)
    requires BareEntry(x)
    requires rest == [] || !IsEntryChar(rest[0])
    ensures ReadEntry(x + rest) == Some((x, |x|))
  {
    EntryRunOf(x, rest);
    assert (x + rest)[..|x|] == x;
  }

  /** The entry reader takes back each entry of a list of bare entries. */
  lemma {:induction false} EntriesReadBack(xs: seq<string>, rest: string, sep: string)
    requires |xs| > 0 && BareEntries(xs)
    requires ListEnd(rest) && IsSeparator(sep)
    ensures ReadsEach(ReadEntry, Verbatim, xs, rest, sep)
    decreases |xs|
  {
    if |xs| == 1 {
      ReadBareEntry(xs[0], rest);
    } else {
      var tail := xs[1..];
      assert BareEntries(tail) by {
        assert forall k :: 0 <= k < |tail| ==> tail[k] == xs[k + 1];
      }
      EntriesReadBack(tail, rest, sep);
      ReadBareEntry(xs[0], sep + RenderedList(tail, Verbatim, rest, sep));
    }
  }

  /** The SQL literal reader takes back each literal of a quote-free list. */
  lemma {:induction false} LiteralsReadBack(lits: seq<SqlLiteral>, rest: string, sep: string)
    requires |lits| > 0 && QuoteFree(lits)
    requires ListEnd(rest) && IsSeparator(sep)
    ensures ReadsEach(ReadLiteral, Render, lits, rest, sep)
    decreases |lits|
  {
    if |lits| == 1 {
      ReadRender(lits[0], rest);
    } else {
      var tail := lits[1..];
      assert QuoteFree(tail) by {
        assert forall k :: 0 <= k < |tail| ==> tail[k] == lits[k + 1];
      }
      LiteralsReadBack(tail, rest, sep);
      ReadRender(lits[0], sep + RenderedList(tail, Render, rest, sep));
    }
  }

  /** Reading a joined list of bare entries gives the entries back, and the
      reading stops where the list ends, before a line break. */
  lemma ReadEntriesJoin(xs: seq<string>, rest: string)
    requires |xs| > 0 && BareEntries(xs) && ListEnd(rest)
    ensures ReadList(Join(xs, ListSep) + rest, ReadEntry, ListSep) == Some((xs, |Join(xs, ListSep)|))
  {
    assert IsSeparator(ListSep);
    EntriesReadBack(xs, rest, ListSep);
    JoinIsRenderedList(xs, xs, Verbatim, rest, ListSep);
    ReadRenderedList(ReadEntry, Verbatim, xs, rest, ListSep);
  }

  /** Reading a joined list of rendered literals gives the literals back, and
      the reading stops where the list ends, before a line break. */
  lemma ReadLiteralsJoin(lits: seq<SqlLiteral>, rest: string)
    requires |lits| > 0 && QuoteFree(lits) && ListEnd(rest)
    ensures ReadList(Join(RenderAll(lits), ListSep) + rest, ReadLiteral, ListSep)
            == Some((lits, |Join(RenderAll(lits), ListSep)|))
  {
    assert IsSeparator(ListSep);
    LiteralsReadBack(lits, rest, ListSep);
    JoinIsRenderedList(RenderAll(lits), lits, Render, rest, ListSep);
    ReadRenderedList(ReadLiteral, Render, lits, rest, ListSep);
  }

  /** The CREATE statement gives its column definitions back. */
  lemma ParseCreateText(defs: seq<string>)
    requires |defs| > 0 && BareEntries(defs)
    ensures ParseCreate(CreateTableText(defs)) == Some(defs)
  {
    var j := Join(defs, ListSep);
    var text := CreateHead + (j + Tail);
    assert text[..|CreateHead|] == CreateHead;
    assert text[|CreateHead|..] == j + Tail;
    ReadEntriesJoin(defs, Tail);
    assert (j + Tail)[|j|..] == Tail;
  }

  /** The value part of an INSERT statement gives its values back. */
  lemma ParseValuesText(lits: seq<SqlLiteral>)
    requires |lits| > 0 && QuoteFree(lits)
    ensures ParseValues(ValuesMarker + (Join(RenderAll(lits), ListSep) + Tail)) == Some(lits)
  {
    var jl := Join(RenderAll(lits), ListSep);
    var rest := ValuesMarker + (jl + Tail);
    assert rest[..|ValuesMarker|] == ValuesMarker;
    assert rest[|ValuesMarker|..] == jl + Tail;
    ReadLiteralsJoin(lits, Tail);
    assert (jl + Tail)[|jl|..] == Tail;
  }

  /** An INSERT text whose column list and value part each read back. */
  lemma ParseInsertParts(jn: string, after: string, names: seq<string>, lits: seq<SqlLiteral>)
    requires ReadList(jn + after, ReadEntry, ListSep) == Some((names, |jn|))
    requires ParseValues(after) == Some(lits)
    ensures ParseInsert(InsertHead + (jn + after)) == Some((names, lits))
  {
    var text := InsertHead + (jn + after);
    assert text[..|InsertHead|] == InsertHead;
    assert text[|InsertHead|..] == jn + after;
    assert (jn + after)[|jn|..] == after;
  }

  /** The INSERT statement gives its column names and its values back, in
      order and one for one: the `k`-th value is read as the `k`-th column's. */
  lemma ParseInsertText(names: seq<string>, lits: seq<SqlLiteral>)
    requires |names| > 0 && BareEntries(names)
    requires |lits| > 0 && QuoteFree(lits)
    ensures ParseInsert(InsertText(names, RenderAll(lits))) == Some((names, lits))
  {
    var jn := Join(names, ListSep);
    var after := ValuesMarker + (Join(RenderAll(lits), ListSep) + Tail);
    ReadEntriesJoin(names, after);
    ParseValuesText(lits);
    ParseInsertParts(jn, after, names, lits);
  }
}
