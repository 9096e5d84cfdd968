/** The transformer's main path: the CREATE statement built from the
    configured output fields, and for every csv row the INSERT statement
    whose values come from evaluating each field's transform on the row. */
module Transformer {
  import opened Failures
  import opened Text
  import opened FieldPattern
  import opened Substitution
  import opened SqlValues
  import opened SqlText

  /** One entry of the configuration's `output-fields`: the column name, its
      `Type` and its `Transform`, in the order the configuration lists them. */
  datatype OutputField = OutputField(name: string, tag: ConfiguredTag, transform: string)

  /** The entry for a configured column name, `Type` string and `Transform`. */
  function FieldOf(name: string, typeName: string, transform: string): (f: OutputField)
    ensures TagName(f.tag) == typeName
    ensures ColumnType(f.tag).Ok? <==> typeName in KnownTags
  {
    TagNameOfParse(typeName);
    OutputField(name, ParseTag(typeName), transform)
  }

  /** The column names, in configuration order. */
  function Names(fields: seq<OutputField>): seq<string> {
    seq(|fields|, k requires 0 <= k < |fields| => fields[k].name)
  }

  /** The column definitions `name type` of the CREATE statement, in the
      list comprehension's order. */
  function ColumnDefs(fields: seq<OutputField>): Result<seq<string>>
    decreases |fields|
  {
    if fields == [] then Ok([])
    else
      var ty :- ColumnType(fields[0].tag);
      var rest :- ColumnDefs(fields[1..]);
      Ok([fields[0].name + " " + ty] + rest)
  }

  /** The definitions exist exactly when every configured type has an SQL
      column type, and are then `name type` for each field in order; else the
      first field, in order, whose type has none raises the `KeyError`. */
  lemma {:induction false} ColumnDefsOutcome(fields: seq<OutputField>)
    ensures var r := ColumnDefs(fields);
            && (r.Ok? <==> forall k :: 0 <= k < |fields| ==> !fields[k].tag.OtherType?)
            && (r.Ok? ==> && |r.value| == |fields|
                          && forall k :: 0 <= k < |fields| ==>
                               r.value[k] == fields[k].name + " " + ColumnType(fields[k].tag).value)
            && (r.Err? ==> exists k :: && 0 <= k < |fields| && fields[k].tag.OtherType?
                                       && r.error == UnknownType(fields[k].tag.name)
                                       && forall j :: 0 <= j < k ==> !fields[j].tag.OtherType?)
    decreases |fields|
  {
    if fields != [] {
      ColumnDefsOutcome(fields[1..]);
      assert forall k :: 1 <= k < |fields| ==> fields[1..][k - 1] == fields[k];
      var r := ColumnDefs(fields);
      if r.Err? && !fields[0].tag.OtherType? {
        var k :| && 0 <= k < |fields[1..]| && fields[1..][k].tag.OtherType?
                 && ColumnDefs(fields[1..]).error == UnknownType(fields[1..][k].tag.name)
                 && forall j :: 0 <= j < k ==> !fields[1..][j].tag.OtherType?;
        assert fields[k + 1].tag.OtherType? && forall j :: 0 <= j < k + 1 ==> !fields[j].tag.OtherType?;
      }
    }
  }

  /** The statement `init_db` executes. */
  function CreateStatement(fields: seq<OutputField>): Result<string> {
    var defs :- ColumnDefs(fields);
    Ok(CreateTableText(defs))
  }

  /** The value `eval` gives for a substituted template, or the failure of
      the substitution. */
  function Evaluated(sub: Result<string>, eval: string -> Result<Value>): Result<Value> {
    match sub
    case Err(e) => Err(e)
    case Ok(t) => eval(t)
  }

  /** `order` is an order in which the substitution loop may visit the
      placeholders of `template`. */
  ghost predicate Visits(template: string, order: seq<string>) {
    && Enumerates(order, Placeholders(template))
    && forall q :: q in order ==> IsPlaceholder(q)
  }

  /** `sub` is what the substitution loop gives for `template` on `row` when
      it visits the placeholders in `order`. */
  ghost predicate Substituted(template: string, row: Row, order: seq<string>, sub: Result<string>) {
    Visits(template, order) && sub == LoopResult(template, row, order)
  }

  /** `evaluate_transform`: substitute the row's values into the template,
      then evaluate the text. A placeholder naming no column raises before
      `eval` is reached; on an order-independent template the text evaluated
      is the single-pass substitution. `eval` sees the substituted text only:
      the script's `eval` could also read the function's locals and the
      module's globals, which are left out. */
  method EvaluateTransform(transform: string, row: Row, eval: string -> Result<Value>)
    returns (v: Result<Value>, ghost order: seq<string>)
    ensures Visits(transform, order)
    ensures v == Evaluated(LoopResult(transform, row, order), eval)
    ensures (exists p :: p in Placeholders(transform) && FieldName(p) !in row) ==>
              v.Err? && v.error.UnknownField? && v.error.name !in row
    ensures (forall p :: p in Placeholders(transform) ==> FieldName(p) in row)
            && OrderIndependent(transform, row)
            ==> v == eval(Substitute(transform, row).value)
  {
    var s;
    s, order := SubstituteFields(transform, row);
    if s.Err? {
      v := Err(s.error);
    } else {
      v := eval(s.value);
    }
  }

  /** The SQL text `prepare_value_for_db_insert` gives for one field, or the
      exception raised on the way to it. */
  function FieldOutcome(f: OutputField, sub: Result<string>, eval: string -> Result<Value>): Result<Option<string>> {
    match Evaluated(sub, eval)
    case Err(e) => Err(e)
    case Ok(v) => PrepareForInsert(v, f.tag)
  }

  /** The list comprehension over the fields: every field's SQL text, in
      order, or the exception of the first field that raises one. */
  function Prepared(fields: seq<OutputField>, subs: seq<Result<string>>, eval: string -> Result<Value>)
    : Result<seq<Option<string>>>
    requires |subs| == |fields|
    decreases |fields|
  {
    if fields == [] then Ok([])
    else
      var first :- FieldOutcome(fields[0], subs[0], eval);
      var rest :- Prepared(fields[1..], subs[1..], eval);
      Ok([first] + rest)
  }

  /** The comprehension succeeds exactly when every field does, and then
      lists their texts in order; otherwise it raises the exception of the
      first field, in order, that raises one. */
  lemma {:induction false} PreparedOutcome(fields: seq<OutputField>, subs: seq<Result<string>>, eval: string -> Result<Value>)
    requires |subs| == |fields|
    ensures var r := Prepared(fields, subs, eval);
            && (r.Ok? <==> forall k :: 0 <= k < |fields| ==> FieldOutcome(fields[k], subs[k], eval).Ok?)
            && (r.Ok? ==> && |r.value| == |fields|
                          && forall k :: 0 <= k < |fields| ==> Ok(r.value[k]) == FieldOutcome(fields[k], subs[k], eval))
            && (r.Err? ==> exists k :: && 0 <= k < |fields|
                                       && FieldOutcome(fields[k], subs[k], eval) == Err(r.error)
                                       && forall j :: 0 <= j < k ==> FieldOutcome(fields[j], subs[j], eval).Ok?)
    decreases |fields|
  {
    if fields != [] {
      PreparedOutcome(fields[1..], subs[1..], eval);
      assert forall k :: 1 <= k < |fields| ==> fields[1..][k - 1] == fields[k] && subs[1..][k - 1] == subs[k];
      var r := Prepared(fields, subs, eval);
      if r.Err? && FieldOutcome(fields[0], subs[0], eval).Ok? {
        var k :| && 0 <= k < |fields[1..]|
                 && FieldOutcome(fields[1..][k], subs[1..][k], eval) == Err(Prepared(fields[1..], subs[1..], eval).error)
                 && forall j :: 0 <= j < k ==> FieldOutcome(fields[1..][j], subs[1..][j], eval).Ok?;
        assert FieldOutcome(fields[k + 1], subs[k + 1], eval) == Err(r.error);
        assert forall j :: 0 <= j < k + 1 ==> FieldOutcome(fields[j], subs[j], eval).Ok?;
      }
    }
  }

  /** The texts of a list in which every entry is present. */
  function Present(os: seq<Option<string>>): (r: seq<string>)
    requires forall k :: 0 <= k < |os| ==> os[k].Some?
    ensures |r| == |os|
    ensures forall k :: 0 <= k < |os| ==> os[k] == Some(r[k])
    decreases |os|
  {
    if os == [] then [] else [os[0].value] + Present(os[1..])
  }

  /** The INSERT statement from the fields' SQL texts: a `TypeError` from
      `join` when some field gave `None`, else the statement text. */
  function RowText(fields: seq<OutputField>, os: seq<Option<string>>): Result<string> {
    if exists k :: 0 <= k < |os| && os[k].None? then Err(NotAString)
    else Ok(InsertText(Names(fields), Present(os)))
  }

  /** The INSERT statement for one row, once the substitution of each field
      is known: the first exception in field order, else the statement the
      fields' texts give. */
  function RowStatement(fields: seq<OutputField>, subs: seq<Result<string>>, eval: string -> Result<Value>)
    : Result<string>
    requires |subs| == |fields|
  {
    var os :- Prepared(fields, subs, eval);
    RowText(fields, os)
  }

  /** The INSERT statement of one row (the list built for `sql_query` in the
      row loop). Fields are computed in configuration order and the first
      exception stops the row; `subs` holds the substitution results of the
      fields reached. */
  method BuildInsert(fields: seq<OutputField>, row: Row, eval: string -> Result<Value>)
    returns (r: Result<string>, ghost orders: seq<seq<string>>, ghost subs: seq<Result<string>>)
    ensures RowRun(fields, row, eval, orders, subs)
    ensures r == RowResult(fields, subs, eval)
    ensures IndependentRow(fields, row) ==> r == ReferenceRow(fields, row, eval)
  {
    var literals: seq<Option<string>> := [];
    orders, subs := [], [];
    var i := 0;
    while i < |fields|
      invariant i <= |fields| && |subs| == i && |literals| == i
      invariant AllSubstituted(fields, row, orders, subs)
      invariant forall k :: 0 <= k < i ==> FieldOutcome(fields[k], subs[k], eval) == Ok(literals[k])
    {
      var out: Result<Option<string>>;
      ghost var order: seq<string>, sub: Result<string>;
      out, order, sub := FieldText(fields[i], row, eval);
      if out.Err? {
        RowStops(fields, row, eval, orders, subs, order, sub);
        return Err(out.error), orders + [order], subs + [sub];
      }
      SubstitutedSnoc(fields, row, orders, subs, order, sub);
      orders, subs := orders + [order], subs + [sub];
      literals := literals + [out.value];
      i := i + 1;
    }
    RowCompletes(fields, row, eval, orders, subs, literals);
    r := RowText(fields, literals);
  }

  /** A row whose every field gives a text has the statement those texts
      give; on a row where every template is resolvable, that is also the
      statement of the single-pass substitution. */
  lemma RowCompletes(fields: seq<OutputField>, row: Row, eval: string -> Result<Value>,
                     orders: seq<seq<string>>, subs: seq<Result<string>>, os: seq<Option<string>>)
    requires |subs| == |fields| == |os| && AllSubstituted(fields, row, orders, subs)
    requires forall k :: 0 <= k < |fields| ==> FieldOutcome(fields[k], subs[k], eval) == Ok(os[k])
    ensures RowRun(fields, row, eval, orders, subs)
    ensures RowResult(fields, subs, eval) == RowText(fields, os)
    ensures IndependentRow(fields, row) ==> RowText(fields, os) == ReferenceRow(fields, row, eval)
  {
    assert fields[..|subs|] == fields;
    PreparedAll(fields, subs, eval, os);
    if IndependentRow(fields, row) {
      RowDeterministic(fields, row, orders, subs, eval);
    }
  }

  /** One element of the comprehension: the field's transform evaluated on
      the row and prepared for the statement. */
  method FieldText(f: OutputField, row: Row, eval: string -> Result<Value>)
    returns (out: Result<Option<string>>, ghost order: seq<string>, ghost sub: Result<string>)
    ensures Substituted(f.transform, row, order, sub)
    ensures out == FieldOutcome(f, sub, eval)
  {
    var v: Result<Value>;
    v, order := EvaluateTransform(f.transform, row, eval);
    sub := LoopResult(f.transform, row, order);
    if v.Err? {
      out := Err(v.error);
    } else {
      out := PrepareForInsert(v.value, f.tag);
    }
  }

  /** For each field reached, `orders` holds the order the substitution loop
      visited its transform's placeholders in and `subs` what it gave. */
  ghost predicate AllSubstituted(fields: seq<OutputField>, row: Row, orders: seq<seq<string>>, subs: seq<Result<string>>) {
    && |subs| == |orders| <= |fields|
    && forall k :: 0 <= k < |subs| ==> Substituted(fields[k].transform, row, orders[k], subs[k])
  }

  /** The substitutions of the fields reached, one field further. */
  lemma SubstitutedSnoc(fields: seq<OutputField>, row: Row, orders: seq<seq<string>>, subs: seq<Result<string>>,
                        order: seq<string>, sub: Result<string>)
    requires |subs| < |fields| && AllSubstituted(fields, row, orders, subs)
    requires Substituted(fields[|subs|].transform, row, order, sub)
    ensures AllSubstituted(fields, row, orders + [order], subs + [sub])
  {
    forall k | 0 <= k < |subs| + 1
      ensures Substituted(fields[k].transform, row, (orders + [order])[k], (subs + [sub])[k])
    {
      if k < |subs| {
        assert (orders + [order])[k] == orders[k] && (subs + [sub])[k] == subs[k];
      } else {
        assert (orders + [order])[k] == order && (subs + [sub])[k] == sub;
      }
    }
  }

  /** The comprehension stops at the first field that raises. */
  lemma PreparedFirstError(fields: seq<OutputField>, subs: seq<Result<string>>, eval: string -> Result<Value>, i: nat)
    requires |subs| == |fields| && i < |fields|
    requires forall k :: 0 <= k < i ==> FieldOutcome(fields[k], subs[k], eval).Ok?
    requires FieldOutcome(fields[i], subs[i], eval).Err?
    ensures Prepared(fields, subs, eval) == Err(FieldOutcome(fields[i], subs[i], eval).error)
  {
    PreparedOutcome(fields, subs, eval);
  }

  /** The comprehension lists every field's text when none raises. */
  lemma PreparedAll(fields: seq<OutputField>, subs: seq<Result<string>>, eval: string -> Result<Value>,
                    os: seq<Option<string>>)
    requires |subs| == |fields| == |os|
    requires forall k :: 0 <= k < |fields| ==> FieldOutcome(fields[k], subs[k], eval) == Ok(os[k])
    ensures Prepared(fields, subs, eval) == Ok(os)
  {
    PreparedOutcome(fields, subs, eval);
    assert Prepared(fields, subs, eval).value == os;
  }

  /** What the script does over a whole csv file: the CREATE statement
      followed by one INSERT statement per row, in row order. The first
      exception ends the run: `statements` holds what was executed before
      it and `failure` the exception. `subs[j]` holds the substitution
      results for row `j`. */
  method Run(fields: seq<OutputField>, rows: seq<Row>, eval: string -> Result<Value>)
    returns (statements: seq<string>, failure: Option<Error>,
             ghost orders: seq<seq<seq<string>>>, ghost subs: seq<seq<Result<string>>>)
    ensures CreateStatement(fields).Err? ==> statements == [] && failure == Some(CreateStatement(fields).error)
    ensures CreateStatement(fields).Ok? ==>
              && |statements| > 0 && statements[0] == CreateStatement(fields).value
              && |subs| <= |rows|
              && |statements| == |subs| + (if failure.None? then 1 else 0)
              && (failure.None? ==> |subs| == |rows|)
              && |orders| == |subs|
              && forall j :: 0 <= j < |subs| ==> RowRun(fields, rows[j], eval, orders[j], subs[j])
    ensures CreateStatement(fields).Ok? ==>
              forall j :: 0 <= j < |statements| - 1 ==>
                j < |subs| && |subs[j]| <= |fields| && RowResult(fields, subs[j], eval) == Ok(statements[j + 1])
    ensures CreateStatement(fields).Ok? && failure.Some? ==>
              && |subs| > 0 && |subs[|subs| - 1]| <= |fields|
              && RowResult(fields, subs[|subs| - 1], eval) == Err(failure.value)
  {
    orders, subs := [], [];
    var create := CreateStatement(fields);
    if create.Err? {
      return [], Some(create.error), orders, subs;
    }
    statements := [create.value];
    failure := None;
    var j := 0;
    while j < |rows|
      invariant j <= |rows| && |subs| == j && |orders| == j && |statements| == j + 1
      invariant statements[0] == create.value
      invariant forall i :: 0 <= i < j ==> RowRun(fields, rows[i], eval, orders[i], subs[i])
      invariant forall i :: 0 <= i < j ==> RowResult(fields, subs[i], eval) == Ok(statements[i + 1])
    {
      var r: Result<string>;
      ghost var order: seq<seq<string>>, sub: seq<Result<string>>;
      r, order, sub := BuildInsert(fields, rows[j], eval);
      RowRunSnoc(fields, rows, eval, orders, subs, order, sub);
      orders, subs := orders + [order], subs + [sub];
      if r.Err? {
        failure := Some(r.error);
        return;
      }
      statements := statements + [r.value];
      j := j + 1;
    }
  }

  /** The rows handled, one row further. */
  lemma RowRunSnoc(fields: seq<OutputField>, rows: seq<Row>, eval: string -> Result<Value>,
                   orders: seq<seq<seq<string>>>, subs: seq<seq<Result<string>>>,
                   order: seq<seq<string>>, sub: seq<Result<string>>)
    requires |subs| < |rows| && |orders| == |subs|
    requires forall j :: 0 <= j < |subs| ==> RowRun(fields, rows[j], eval, orders[j], subs[j])
    requires RowRun(fields, rows[|subs|], eval, order, sub)
    ensures forall j :: 0 <= j < |subs| + 1 ==>
              RowRun(fields, rows[j], eval, (orders + [order])[j], (subs + [sub])[j])
  {
    forall j | 0 <= j < |subs| + 1
      ensures RowRun(fields, rows[j], eval, (orders + [order])[j], (subs + [sub])[j])
    {
      if j < |subs| {
        assert (orders + [order])[j] == orders[j] && (subs + [sub])[j] == subs[j];
      } else {
        assert (orders + [order])[j] == order && (subs + [sub])[j] == sub;
      }
    }
  }

  /** The outcome of a row whose fields reached are substituted as `sub`. */
  function RowResult(fields: seq<OutputField>, sub: seq<Result<string>>, eval: string -> Result<Value>)
    : Result<string>
    requires |sub| <= |fields|
  {
    RowStatement(fields[..|sub|], sub, eval)
  }

  /** `sub` is what the row loop may have substituted on `row`: one result per
      field reached, and the row stops early only on an exception. */
  ghost predicate RowRun(fields: seq<OutputField>, row: Row, eval: string -> Result<Value>,
                         orders: seq<seq<string>>, sub: seq<Result<string>>) {
    && |sub| <= |fields|
    && AllSubstituted(fields, row, orders, sub)
    && (|sub| < |fields| ==> RowResult(fields, sub, eval).Err?)
  }

  /** `type_map` covers every configured type exactly when the CREATE
      statement can be built, and then every value renders: no row can fail
      on a `None` from `prepare_value_for_db_insert`. */
  lemma CreatedMeansNoNone(fields: seq<OutputField>, subs: seq<Result<string>>, eval: string -> Result<Value>)
    requires |subs| == |fields|
    requires CreateStatement(fields).Ok? && Prepared(fields, subs, eval).Ok?
    ensures RowStatement(fields, subs, eval).Ok?
  {
    PreparedOutcome(fields, subs, eval);
    ColumnDefsOutcome(fields);
    var os := Prepared(fields, subs, eval).value;
    forall k | 0 <= k < |os|
      ensures os[k].Some?
    {
      var v := Evaluated(subs[k], eval);
      assert !fields[k].tag.OtherType?;
      assert Ok(os[k]) == FieldOutcome(fields[k], subs[k], eval);
      assert v.Ok?;
      NoneOnlyForUnknownType(v.value, fields[k].tag);
    }
  }

  /** The new row's values reach the table in full: every field's value has
      the literal it is meant to be, and no text among them holds a quote. */
  ghost predicate LiteralsIntended(fields: seq<OutputField>, subs: seq<Result<string>>, eval: string -> Result<Value>)
    requires |subs| == |fields|
  {
    forall k :: 0 <= k < |fields| ==>
      && Evaluated(subs[k], eval).Ok?
      && Intended(Evaluated(subs[k], eval).value, fields[k].tag).Some?
      && SafeLiteral(Intended(Evaluated(subs[k], eval).value, fields[k].tag).value)
  }

  /** The literal each field is meant to put into the table. */
  function IntendedLiterals(fields: seq<OutputField>, subs: seq<Result<string>>, eval: string -> Result<Value>)
    : (r: seq<SqlLiteral>)
    requires |subs| == |fields| && LiteralsIntended(fields, subs, eval)
    ensures |r| == |fields|
    ensures forall k :: 0 <= k < |fields| ==> r[k] == Intended(Evaluated(subs[k], eval).value, fields[k].tag).value
    decreases |fields|
  {
    if fields == [] then []
    else
      assert LiteralsIntended(fields[1..], subs[1..], eval) by {
        assert forall k :: 0 <= k < |fields| - 1 ==> fields[1..][k] == fields[k + 1] && subs[1..][k] == subs[k + 1];
      }
      [Intended(Evaluated(subs[0], eval).value, fields[0].tag).value] + IntendedLiterals(fields[1..], subs[1..], eval)
  }

  /** In the INSERT statement of a row, columns and values line up: read
      back, it names the configured columns in order and gives, one for one,
      the literal each field's value is meant to be. */
  lemma InsertLinesUp(fields: seq<OutputField>, subs: seq<Result<string>>, eval: string -> Result<Value>,
                      text: string)
    requires |subs| == |fields| && |fields| > 0
    requires RowStatement(fields, subs, eval) == Ok(text)
    requires forall k :: 0 <= k < |fields| ==> BareEntry(fields[k].name)
    requires LiteralsIntended(fields, subs, eval)
    ensures ParseInsert(text) == Some((Names(fields), IntendedLiterals(fields, subs, eval)))
  {
    PreparedOutcome(fields, subs, eval);
    var os := Prepared(fields, subs, eval).value;
    var lits := IntendedLiterals(fields, subs, eval);
    forall k | 0 <= k < |fields|
      ensures os[k] == Some(Render(lits[k]))
    {
      var v := Evaluated(subs[k], eval).value;
      PrepareRendersIntended(v, fields[k].tag);
      assert Ok(os[k]) == FieldOutcome(fields[k], subs[k], eval);
    }
    assert Present(os) == RenderAll(lits);
    assert QuoteFree(lits);
    assert BareEntries(Names(fields));
    ParseInsertText(Names(fields), lits);
  }

  /** A column definition made of a bare name and a column type is bare. */
  lemma BareDefinition(name: string, tag: Tag)
    requires BareEntry(name) && !tag.OtherType?
    ensures BareEntry(name + " " + ColumnType(tag).value)
  {
    var ty := ColumnType(tag).value;
    assert ty == "integer" || ty == "text" || ty == "real";
    assert forall c :: c in ty ==> IsEntryChar(c);
  }

  /** The CREATE statement read back gives the column definitions, one
      `name type` per configured field, in order. */
  lemma CreateLinesUp(fields: seq<OutputField>, text: string)
    requires |fields| > 0 && forall k :: 0 <= k < |fields| ==> BareEntry(fields[k].name)
    requires CreateStatement(fields) == Ok(text)
    ensures ColumnDefs(fields).Ok? && ParseCreate(text) == Some(ColumnDefs(fields).value)
  {
    DefinitionsBare(fields);
    ParseCreateText(ColumnDefs(fields).value);
  }

  /** Column definitions built from bare names are bare. */
  lemma DefinitionsBare(fields: seq<OutputField>)
    requires forall k :: 0 <= k < |fields| ==> BareEntry(fields[k].name)
    requires ColumnDefs(fields).Ok?
    ensures BareEntries(ColumnDefs(fields).value)
  {
    ColumnDefsOutcome(fields);
    var defs := ColumnDefs(fields).value;
    forall k | 0 <= k < |defs|
      ensures BareEntry(defs[k])
    {
      BareDefinition(fields[k].name, fields[k].tag);
    }
  }

  /** With every placeholder a column of the row and every template
      independent of the visiting order, the row's statement does not depend
      on the order Python's set yields the placeholders in: it is the one
      the single left-to-right substitution gives. */
  lemma RowDeterministic(fields: seq<OutputField>, row: Row, orders: seq<seq<string>>, subs: seq<Result<string>>,
                         eval: string -> Result<Value>)
    requires |subs| == |fields| && AllSubstituted(fields, row, orders, subs)
    requires IndependentRow(fields, row)
    ensures RowStatement(fields, subs, eval) == ReferenceRow(fields, row, eval)
  {
    SubsAreReference(fields, row, orders, subs);
    assert ReferenceSubs(fields, row)[..|subs|] == ReferenceSubs(fields, row);
  }

  /** The row stops at the first field that raises, with that field's
      exception; on a row where every template is resolvable, the
      single-pass substitution of every field stops there too. */
  lemma RowStops(fields: seq<OutputField>, row: Row, eval: string -> Result<Value>,
                 orders: seq<seq<string>>, subs: seq<Result<string>>, order: seq<string>, sub: Result<string>)
    requires AllSubstituted(fields, row, orders, subs) && |subs| < |fields|
    requires Substituted(fields[|subs|].transform, row, order, sub)
    requires forall k :: 0 <= k < |subs| ==> FieldOutcome(fields[k], subs[k], eval).Ok?
    requires FieldOutcome(fields[|subs|], sub, eval).Err?
    ensures RowRun(fields, row, eval, orders + [order], subs + [sub])
    ensures RowResult(fields, subs + [sub], eval) == Err(FieldOutcome(fields[|subs|], sub, eval).error)
    ensures IndependentRow(fields, row) ==> ReferenceRow(fields, row, eval) == Err(FieldOutcome(fields[|subs|], sub, eval).error)
  {
    var n := |subs|;
    var all := subs + [sub];
    assert forall k :: 0 <= k <= n ==> fields[..n + 1][k] == fields[k];
    assert forall k :: 0 <= k < n ==> all[k] == subs[k];
    PreparedFirstError(fields[..n + 1], all, eval, n);
    SubstitutedSnoc(fields, row, orders, subs, order, sub);
    if IndependentRow(fields, row) {
      var refs := ReferenceSubs(fields, row);
      SubsAreReference(fields, row, orders + [order], all);
      assert forall k :: 0 <= k <= n ==> refs[k] == all[k];
      PreparedFirstError(fields, refs, eval, n);
    }
  }

  /** Every placeholder of `template` names a column of `row`, and the
      template is independent of the order the placeholders are visited in. */
  predicate Resolvable(template: string, row: Row) {
    && OrderIndependent(template, row)
    && forall p :: p in Placeholders(template) ==> FieldName(p) in row
  }

  /** Every field's template is resolvable on `row`. */
  predicate IndependentRow(fields: seq<OutputField>, row: Row) {
    forall k :: 0 <= k < |fields| ==> Resolvable(fields[k].transform, row)
  }

  /** On a row where every template is resolvable, each field reached was
      substituted as the single-pass substitution does it. */
  lemma SubsAreReference(fields: seq<OutputField>, row: Row, orders: seq<seq<string>>, subs: seq<Result<string>>)
    requires AllSubstituted(fields, row, orders, subs) && IndependentRow(fields, row)
    ensures subs == ReferenceSubs(fields, row)[..|subs|]
  {
    forall k | 0 <= k < |subs|
      ensures subs[k] == ReferenceSubs(fields, row)[k]
    {
      assert Substituted(fields[k].transform, row, orders[k], subs[k]);
      assert Resolvable(fields[k].transform, row);
      OrderIrrelevant(fields[k].transform, row, orders[k]);
    }
  }

  /** The row's statement when every template is substituted in one pass. */
  function ReferenceRow(fields: seq<OutputField>, row: Row, eval: string -> Result<Value>): Result<string> {
    RowStatement(fields, ReferenceSubs(fields, row), eval)
  }

  /** The single-pass substitution of every field's template. */
  function ReferenceSubs(fields: seq<OutputField>, row: Row): (r: seq<Result<string>>)
    ensures |r| == |fields|
    ensures forall k :: 0 <= k < |fields| ==> r[k] == Substitute(fields[k].transform, row)
  {
    seq(|fields|, k requires 0 <= k < |fields| => Substitute(fields[k].transform, row))
  }
}
