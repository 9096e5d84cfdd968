/** Rendering of computed values as SQL text: `type_map` and
    `prepare_value_for_db_insert`, and the reading of an SQL literal that
    says what a rendering stands for. */
module SqlValues {
  import opened Failures
  import opened Decimal

  /** The values `eval` hands back, as far as the model follows them. */
  datatype Value = IntValue(i: int) | StrValue(s: string)

  /** Python's `str(v)`, which is also what `'{}'.format(v)` inserts. */
  function PyStr(v: Value): string {
    match v
    case IntValue(i) => IntToString(i)
    case StrValue(s) => s
  }

  /** The configured types `type_map` has an entry for. */
  const KnownTags: set<string> := {"INTEGER", "STRING", "FLOAT", "DATE"}

  /** A field's configured `Type`, as `type_map` and
      `prepare_value_for_db_insert` tell the types apart; any other string
      is kept as it was written. */
  datatype Tag = IntegerType | StringType | FloatType | DateType | OtherType(name: string)

  /** The string a tag stands for in the configuration. */
  function TagName(t: Tag): string {
    match t
    case IntegerType => "INTEGER"
    case StringType => "STRING"
    case FloatType => "FLOAT"
    case DateType => "DATE"
    case OtherType(name) => name
  }

  /** The tags a configured `Type` string can classify as: a string that
      names one of the known types always gets that type's own tag. */
  type ConfiguredTag = t: Tag | t.OtherType? ==> t.name !in KnownTags witness IntegerType

  /** The tag of a configured `Type` string. */
  function ParseTag(s: string): (t: ConfiguredTag)
    ensures t.OtherType? <==> s !in KnownTags
  {
    if s == "INTEGER" then IntegerType
    else if s == "STRING" then StringType
    else if s == "FLOAT" then FloatType
    else if s == "DATE" then DateType
    else OtherType(s)
  }

  /** Classifying a configured `Type` keeps the string it came from. */
  lemma TagNameOfParse(s: string)
    ensures TagName(ParseTag(s)) == s
  {
  }

  /** Every tag a configuration can give is the tag of its own name. */
  lemma ParseOfTagName(t: ConfiguredTag)
    ensures ParseTag(TagName(t)) == t
  {
  }

  /** `type_map[type]`: the SQLite column type of a configured type; any
      other type is a lookup failure. */
  function ColumnType(t: Tag): (r: Result<string>)
    ensures r.Ok? <==> !t.OtherType?
    ensures r.Err? ==> r.error == UnknownType(t.name)
  {
    match t
    case IntegerType => Ok("integer")
    case StringType => Ok("text")
    case FloatType => Ok("real")
    case DateType => Ok("text")
    case OtherType(name) => Err(UnknownType(name))
  }

  /** `prepare_value_for_db_insert(value, type)`: the SQL text for one value.
      INTEGER and FLOAT paste `str(value)`, STRING wraps it in single quotes
      without escaping, DATE calls `strftime`, which neither an `int` nor a
      `str` has, and any other type falls off the end of the function and
      gives `None`. */
  function PrepareForInsert(v: Value, t: Tag): (r: Result<Option<string>>)
    ensures r.Err? <==> t == DateType
    ensures r.Err? ==> r.error == NoStrftime
    ensures r == Ok(None) <==> t.OtherType?
  {
    match t
    case IntegerType => Ok(Some(PyStr(v)))
    case StringType => Ok(Some("'" + PyStr(v) + "'"))
    case FloatType => Ok(Some(PyStr(v)))
    case DateType => Err(NoStrftime)
    case OtherType(_) => Ok(None)
  }

  /** The text of a prepared value: `str(value)` itself under INTEGER and
      FLOAT, and between single quotes under STRING. */
  lemma PreparedText(v: Value, t: Tag)
    requires t == IntegerType || t == StringType || t == FloatType
    ensures PrepareForInsert(v, t).Ok? && PrepareForInsert(v, t).value.Some?
    ensures var s := PrepareForInsert(v, t).value.value;
            if t == StringType then
              |s| == |PyStr(v)| + 2 && s[0] == '\'' && s[|s| - 1] == '\'' && s[1..|s| - 1] == PyStr(v)
            else s == PyStr(v)
  {
  }

  /** A value as SQLite reads it back from the statement text. */
  datatype SqlLiteral = IntLit(i: int) | TextLit(s: string)

  /** The SQL text of a literal. */
  function Render(l: SqlLiteral): string {
    match l
    case IntLit(i) => IntToString(i)
    case TextLit(s) => "'" + s + "'"
  }

  /** SQLite's integers are signed 64-bit: a decimal literal outside this
      range is read as a floating point value instead. */
  const MinSqlInt: int := -0x8000_0000_0000_0000
  const MaxSqlInt: int := 0x7FFF_FFFF_FFFF_FFFF

  /** The literal a prepared value is meant to be: an integer in SQLite's
      range under INTEGER or FLOAT, the text under STRING. A string under
      INTEGER or FLOAT is pasted into the statement as it is and is no
      literal of its own, an integer outside the range becomes a floating
      point value, and a quote inside a STRING value ends the literal early. */
  function Intended(v: Value, t: Tag): Option<SqlLiteral> {
    if t == IntegerType || t == FloatType then
      match v
      case IntValue(i) => if MinSqlInt <= i <= MaxSqlInt then Some(IntLit(i)) else None
      case StrValue(_) => None
    else if t == StringType && '\'' !in PyStr(v) then Some(TextLit(PyStr(v)))
    else None
  }

  /** The body of a quoted SQL string after its opening quote: characters up
      to the closing quote, where two quotes in a row stand for one quote.
      Also returns how many characters were read, the closing quote included. */
  function ReadQuotedBody(s: string): (r: Option<(string, nat)>)
    ensures r.Some? ==> 0 < r.value.1 <= |s|
    decreases |s|
  {
    if s == [] then None
    else if s[0] == '\'' then
      if |s| > 1 && s[1] == '\'' then
        match ReadQuotedBody(s[2..])
        case None => None
        case Some((body, n)) => Some(("'" + body, n + 2))
      else Some(([], 1))
    else
      match ReadQuotedBody(s[1..])
      case None => None
      case Some((body, n)) => Some(([s[0]] + body, n + 1))
  }

  /** A literal at the start of SQL text with the number of characters it
      takes: a quoted string, or else an integer. */
  function ReadLiteral(s: string): (r: Option<(SqlLiteral, nat)>)
    ensures r.Some? ==> 0 < r.value.1 <= |s|
  {
    if s != [] && s[0] == '\'' then
      match ReadQuotedBody(s[1..])
      case None => None
      case Some((body, n)) => Some((TextLit(body), n + 1))
    else
      match ReadInt(s)
      case None => None
      case Some((i, n)) => Some((IntLit(i), n))
  }

  /** Number of quote characters in `s`. */
  function QuoteCount(s: string): nat
    decreases |s|
  {
    if s == [] then 0 else (if s[0] == '\'' then 1 else 0) + QuoteCount(s[1..])
  }

  /** Every quote inside a quoted string costs two characters of text. */
  lemma {:induction false} ReadQuotedLength(s: string)
    requires ReadQuotedBody(s).Some?
    ensures var (body, n) := ReadQuotedBody(s).value; n == |body| + QuoteCount(body) + 1
    decreases |s|
  {
    if s[0] == '\'' {
      if |s| > 1 && s[1] == '\'' {
        ReadQuotedLength(s[2..]);
        var (body, n) := ReadQuotedBody(s[2..]).value;
        assert ("'" + body)[1..] == body;
      }
    } else {
      ReadQuotedLength(s[1..]);
      var (body, n) := ReadQuotedBody(s[1..]).value;
      assert ([s[0]] + body)[1..] == body;
    }
  }

  /** A quote-free text followed by the closing quote reads back whole. */
  lemma {:induction false} ReadQuotedPlain(x: string, rest: string)
    requires '\'' !in x && (rest == [] || rest[0] != '\'')
    ensures ReadQuotedBody(x + "'" + rest) == Some((x, |x| + 1))
    decreases |x|
  {
    var s := x + "'" + rest;
    if x == [] {
      assert s == "'" + rest;
      assert |s| > 1 ==> s[1] == rest[0];
    } else {
      assert s[0] == x[0];
      assert s[1..] == x[1..] + "'" + rest;
      ReadQuotedPlain(x[1..], rest);
      assert [x[0]] + x[1..] == x;
    }
  }

  /** A quoted string without quotes inside reads back as that string. */
  lemma ReadQuoted(x: string, rest: string)
    requires '\'' !in x && (rest == [] || rest[0] != '\'')
    ensures ReadLiteral("'" + x + "'" + rest) == Some((TextLit(x), |x| + 2))
  {
    var s := "'" + x + "'" + rest;
    assert s[1..] == x + "'" + rest;
    ReadQuotedPlain(x, rest);
  }

  /** A STRING value with a quote inside is not read back as itself: the quote
      ends the literal or pairs up with its neighbour, so the text or the
      extent the reader finds differs from the value. */
  lemma QuoteBreaksLiteral(x: string, rest: string)
    requires '\'' in x
    ensures ReadLiteral("'" + x + "'" + rest) != Some((TextLit(x), |x| + 2))
  {
    var s := "'" + x + "'" + rest;
    assert s[1..] == x + "'" + rest;
    if ReadQuotedBody(s[1..]).Some? {
      ReadQuotedLength(s[1..]);
      QuoteCountPositive(x);
    }
  }

  lemma {:induction false} QuoteCountPositive(x: string)
    requires '\'' in x
    ensures QuoteCount(x) > 0
    decreases |x|
  {
    if x[0] != '\'' {
      assert '\'' in x[1..];
      QuoteCountPositive(x[1..]);
    }
  }

  /** Whenever a value has an intended literal, `prepare_value_for_db_insert`
      renders exactly that literal. */
  lemma PrepareRendersIntended(v: Value, t: Tag)
    requires Intended(v, t).Some?
    ensures PrepareForInsert(v, t) == Ok(Some(Render(Intended(v, t).value)))
  {
  }

  /** Rendering and reading are inverse: a rendered literal reads back as
      itself and the reading stops at its end, provided what follows starts
      with neither a digit nor a quote. */
  lemma ReadRender(l: SqlLiteral, rest: string)
    requires l.TextLit? ==> '\'' !in l.s
    requires rest == [] || (!IsDigit(rest[0]) && rest[0] != '\'')
    ensures ReadLiteral(Render(l) + rest) == Some((l, |Render(l)|))
  {
    match l
    case IntLit(i) =>
      ReadIntToString(i, rest);
      var s := IntToString(i) + rest;
      assert s != [] && s[0] != '\'' by {
        assert s[0] == IntToString(i)[0];
        if i >= 0 {
          DigitsAreDigits(i);
        }
      }
    case TextLit(x) =>
      ReadQuoted(x, rest);
  }

  /** The prepared text of a value reads back as its intended literal. */
  lemma PreparedReadsBack(v: Value, t: Tag, rest: string)
    requires Intended(v, t).Some?
    requires rest == [] || (!IsDigit(rest[0]) && rest[0] != '\'')
    ensures var s := PrepareForInsert(v, t).value.value;
            ReadLiteral(s + rest) == Some((Intended(v, t).value, |s|))
  {
    PrepareRendersIntended(v, t);
    ReadRender(Intended(v, t).value, rest);
  }

  /** The `None` of an unknown tag only arises where `type_map` has no
      column type either: once the table exists, every value renders. */
  lemma NoneOnlyForUnknownType(v: Value, t: Tag)
    ensures PrepareForInsert(v, t) == Ok(None) <==> ColumnType(t).Err?
  {
  }
}
