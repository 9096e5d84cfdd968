# crispy transformer: a verified Dafny model

`src/transformer.py` loads rows from a csv file into an SQLite table. A YAML
configuration lists the output fields. Each field has a column name, a `Type`
(`INTEGER`, `STRING`, `FLOAT` or `DATE`) and a `Transform`, which is a Python
expression template with `${name}` placeholders. The script then:

- creates the table with one column per output field, using `type_map` for
  the column types;
- for every csv row, replaces each placeholder of each field's template with
  the row's value for `name`, hands the resulting text to `eval`, and renders
  the value with `prepare_value_for_db_insert`;
- joins the rendered values into one `INSERT` statement per row.

The model follows that path, one module per stage:

- `Failures`: the exceptions the path can raise, as a `Result` type:
  - `KeyError` on a column or type name;
  - `AttributeError` for `strftime`;
  - `TypeError` from joining `None`;
  - any failure of `eval`.
- `Text`: the Python string operations the script relies on, and two that
  state what those do:
  - `str.replace`, which rewrites every occurrence, scanning left to right;
  - `str.join`;
  - `str.find` and `str.split`, which state what `replace` and `join` do.
- `FieldPattern`: the pattern `\$\{[A-Za-z0-9 ]+\}` and its `findall`. It
  proves that the set of matches is exactly the set of placeholder-shaped
  strings occurring in the template.
- `Substitution`: the loop of `evaluate_transform`, as a method over the set
  of matches. A Python set has no fixed order, so the method may visit its
  elements in any order. It records the order it used as a ghost output, and
  its result is proved equal to `LoopResult` for that order. Lemmas about
  `LoopResult` say:
  - which rows make the loop raise;
  - that for a template whose every `$` starts a placeholder, and a row whose
    values contain no `$`, every order gives the same single left-to-right
    substitution (`Substitute`);
  - that otherwise the order can change the text handed to `eval`: a
    concrete template and row give two different results (`OrderMatters`).
- `Decimal`: Python's `str` on integers, and reading an SQL integer literal
  back.
- `SqlValues`:
  - the configured type as a `Tag`;
  - `type_map`;
  - `prepare_value_for_db_insert`;
  - a reader for SQL literals, which takes a quoted string or a decimal
    integer apart again. A value's intended literal is an integer within
    SQLite's signed 64-bit range, or a quote-free text; an integer outside
    the range has none, since SQLite reads such a literal as a floating point
    value. A `STRING` value is quoted but never escaped, so a value
    containing `'` does not read back as itself (`QuoteBreaksLiteral`).
- `SqlText`: the `CREATE TABLE` and `INSERT` texts, with readers that recover
  the column list and the value list from them.
- `Transformer`: the CREATE statement, `evaluate_transform`, the per-row
  list comprehension, the per-row `INSERT` statement, and the loop over the
  rows. When read back, the statements name the configured columns in order
  and give each field's intended literal in the same position.

`eval` is a parameter of type `string -> Result<Value>`. Its values are
limited to integers and strings. The csv reader, the YAML loader and SQLite
are not modelled. Rows arrive as maps from column name to text. The
statements the script would execute are returned as a sequence.

## Model

| member | source | states |
|---|---|---|
| Text.ReplaceIsSplitJoin | src/transformer.py:52 | `ReplaceAll` (`str.replace`) rewrites every occurrence of the placeholder: the result is the template split at the placeholder and joined with the value |
| Text.ReplaceWithoutOccurrence | src/transformer.py:52 | a template in which the placeholder does not occur comes back from `ReplaceAll` (`str.replace`) unchanged |
| Text.SplitJoin | src/transformer.py:40 | `Join` (`str.join`) loses nothing: splitting a joined list at the separator gives the list back, provided no piece contains the separator's first character |
| FieldPattern.MatchLen | src/transformer.py:12 | the match at the start of a text is either absent or a prefix of at least four characters that is a whole placeholder `${…}` with name characters `[A-Za-z0-9 ]` in between |
| FieldPattern.MatchLenUnique | src/transformer.py:12 | the match is unique: every placeholder-shaped prefix is the match at that position |
| FieldPattern.FindAll | src/transformer.py:50 | every string `findall` returns is a placeholder |
| FieldPattern.PlaceholdersAreOccurrences | src/transformer.py:50 | a string is in `Placeholders(t)`, the set of matches `set(findall(t))`, exactly when it is placeholder-shaped and occurs in the template (both directions) |
| FieldPattern.NoDollarNoPlaceholders | src/transformer.py:50 | a template without `$` has no matches |
| FieldPattern.PlaceholdersOfPlaceholder | src/transformer.py:50 | a template that is one placeholder has itself as its only match |
| FieldPattern.FieldNameOfPlaceholder | src/transformer.py:52 | `FieldName(i)`, which is `i[2:-1]`, of a match is a non-empty run of name characters, and the match is `${` + name + `}` |
| FieldPattern.PlaceholderOfName | src/transformer.py:52 | the name written into a placeholder comes back out of it, and the text is a placeholder exactly when the name is a non-empty run of name characters |
| Substitution.Substitute | src/transformer.py:49-52 | the reference single-pass substitution succeeds exactly when every placeholder names a column of the row; otherwise it fails with a `KeyError` naming a placeholder's name that is not a column |
| Substitution.SubstituteFields | src/transformer.py:49-52 | the ghost `order` lists every distinct placeholder once, each a placeholder, the visited ones first (on the raising path the one that raised comes next, then those never reached); the result is what `LoopResult` gives for that order; it succeeds exactly when every placeholder names a column of the row, otherwise it raises `KeyError` on a name some placeholder carries that is not a column; on an order-independent template its text is the single-pass substitution |
| Substitution.LoopResultAfter | src/transformer.py:51-52 | visiting `order` and then `rest` is visiting `rest` on the text the first part of the loop produced |
| Substitution.LoopOutcome | src/transformer.py:50-52 | in every visiting order the loop succeeds exactly when every placeholder names a column of the row, and otherwise raises `KeyError` on a missing name taken from a placeholder |
| Substitution.LoopWithoutPlaceholders | src/transformer.py:50-52 | a template without placeholders is handed on unchanged |
| Substitution.LoopOnPlaceholder | src/transformer.py:49-52 | a transform that is exactly `${x}` becomes the row's value for `x`, in every visiting order |
| Substitution.OrderIrrelevant | src/transformer.py:50-52 | when every `$` of the template starts a placeholder and no value put in holds a `$`, every visiting order gives the single-pass substitution |
| Substitution.IndependentPrefix | src/transformer.py:51-52 | on such a template, the text after visiting some of the placeholders in any order is the single pass that replaces just those placeholders |
| Substitution.EnumeratesCount | src/transformer.py:50-51 | the loop makes one replacement per distinct placeholder, so repeated placeholders are replaced once |
| Substitution.SubstitutedHasNoDollar | src/transformer.py:52-53 | on such a template no `$`, and so no placeholder, is left in the text handed to `eval` |
| Substitution.OrderMatters | src/transformer.py:50-52 | for the template `${a}${b}`, with `${b}` as the row's value for `a` and a `$`-free text `v` as its value for `b`, the two visiting orders give `v + v` and `${b}` + `v`, which differ: the result depends on the set's order |
| Decimal.DigitsValueOfDigits | src/transformer.py:57 | the digits `IntToString` (`str`) writes for a natural number spell that number |
| Decimal.ReadIntToString | src/transformer.py:57 | `IntToString(i)`, which is `str(i)`, read back as an SQL integer literal is `i`, and the reading stops exactly at the end of the rendering |
| Decimal.IntToStringInjective | src/transformer.py:57 | different integers render differently |
| SqlValues.ParseTag | src/transformer.py:30-35 | a configured `Type` gets a tag of its own exactly when it is one of the four keys of `type_map` |
| SqlValues.TagNameOfParse | src/transformer.py:30-35 | classifying a configured `Type` keeps the string it came from |
| Transformer.FieldOf | src/transformer.py:30-35 | a configured entry keeps its `Type` string, and has a column type exactly when that string is one of the keys of `type_map` |
| SqlValues.ParseOfTagName | src/transformer.py:30-35 | every tag a configuration can produce is the tag of its own name |
| SqlValues.ColumnType | src/transformer.py:30-35 | `type_map[type]` has a column type exactly for the four known types; any other type is a `KeyError` naming it |
| SqlValues.PrepareForInsert | src/transformer.py:55-63 | rendering fails exactly for `DATE` (an `int` or `str` has no `strftime`), and gives `None` exactly for a type none of the branches names |
| SqlValues.PreparedText | src/transformer.py:55-61 | under `INTEGER` and `FLOAT` the text is `str(value)`; under `STRING` it is `str(value)` between single quotes |
| SqlValues.PrepareRendersIntended | src/transformer.py:55-61 | whenever a value has an intended SQL literal, the rendering is exactly that literal's text |
| SqlValues.ReadRender | src/transformer.py:57-61 | rendering and reading are inverse: a rendered literal reads back as itself, and the reading stops at its end, provided a text literal holds no `'` and what follows starts with neither a digit nor a quote |
| SqlValues.PreparedReadsBack | src/transformer.py:55-61 | the text of a prepared value that has an intended literal (an integer within SQLite's 64-bit range, or a quote-free text) reads back as that literal |
| SqlValues.QuoteBreaksLiteral | src/transformer.py:59 | a `STRING` value containing `'` is not read back as itself, because the quote ends the literal or pairs with its neighbour |
| SqlValues.NoneOnlyForUnknownType | src/transformer.py:30-63 | `prepare_value_for_db_insert` gives `None` exactly for the types `type_map` has no entry for |
| SqlText.ParseCreateText | src/transformer.py:37-42 | read back, the CREATE text gives the column definitions it was built from |
| SqlText.ParseValuesText | src/transformer.py:105-110 | read back, the `VALUES` part gives the literals it was built from, in order |
| SqlText.ParseInsertText | src/transformer.py:101-111 | read back, the INSERT text gives its column names and its literals, in order |
| Transformer.ColumnDefsOutcome | src/transformer.py:40 | the definitions `ColumnDefs` exist exactly when every configured type is in `type_map`; they are `name type`, one per field, in order; otherwise the first unknown type, in order, is the `KeyError` |
| Transformer.EvaluateTransform | src/transformer.py:49-53 | the value is `eval` of the loop's text for the order visited; a placeholder naming no column raises `KeyError` before `eval`; on an order-independent template the value is `eval` of the single-pass substitution |
| Transformer.FieldText | src/transformer.py:106-109 | one element of the comprehension: the field's transform goes through the substitution loop in some visiting order, and the loop's text is evaluated and rendered under the field's type |
| Transformer.PreparedOutcome | src/transformer.py:106-109 | the comprehension, `Prepared`, succeeds exactly when every field does, lists their texts in order, and otherwise fails with the first field's exception |
| Transformer.BuildInsert | src/transformer.py:101-111 | the row's statement is built field by field, in order, stopping at the first exception; the result is the statement for the fields reached; a row that stops early has failed; when every template of the row is order-independent and every placeholder names a column, the result is the statement the single-pass substitution gives |
| Transformer.RowStops | src/transformer.py:106-109 | the row fails with the exception of the first field that raises; on a row where every template is resolvable the single-pass substitution fails there with the same exception |
| Transformer.RowCompletes | src/transformer.py:104-111 | a row whose every field gives a text has the INSERT statement `RowText` builds from those texts (a `TypeError` if one is `None`), and on a resolvable row it is the single-pass statement |
| Transformer.Run | src/transformer.py:89-115 | a failing CREATE ends the run before any row; otherwise the statements are the CREATE statement and then each row's INSERT, in row order; the first row that raises ends the run with its exception |
| Transformer.CreatedMeansNoNone | src/transformer.py:30-63 | once the table exists, no row fails on a `None` rendering: a row whose fields all render has a statement |
| Transformer.CreateLinesUp | src/transformer.py:37-42 | for at least one field and column names free of `,` and line breaks, the CREATE statement `CreateStatement` builds reads back as `name type` for each configured field, in order |
| Transformer.InsertLinesUp | src/transformer.py:101-111 | for at least one field, column names free of `,` and line breaks, and every value with an intended literal that holds no `'`, a row's INSERT statement, read back, names the configured columns in order and gives, one for one, the literal each field's value is meant to be |
| Transformer.RowDeterministic | src/transformer.py:99-111 | when every placeholder names a column and every template is order-independent, the row's statement is the same in every visiting order: it is the one the single-pass substitution gives |

## Left out

- The csv reader, the YAML loader, `lines_in_file` (which runs `wc`), `argparse`, `tqdm` and `print` are I/O. Rows are maps from column name to text, and the configuration is a sequence of output fields in configuration order.
- SQLite is not modelled. The statements are returned instead of executed, so a failure of `execute` or `commit`, and the `sqlite3.Error` handler around `init_db`, are not part of the model.
- `eval` is a parameter. Its results are limited to `int` and `str`. Floating point values, `datetime` values and the `strftime` call that succeeds on them are left out. `DATE` is modelled as what happens to an `int` or `str` value: `AttributeError`.
- SqlValues.PrepareForInsert: under `FLOAT` only `str` of an integer or a string is rendered, because floating point values are not modelled.
- Python's set iteration order depends on string hashing. It is left open: `SubstituteFields` may visit the matches in any order and reports the order it used as a ghost output.
- `evaluate_transform` calls `eval` without explicit globals or locals, so the evaluated text could also read its locals (`type`, `source_dict`, `replacement_set`, and `i`, the placeholder visited last) and the module's globals (`datetime`, `re`, …). The model's `eval` is a function of the substituted text only. Transforms that name those locals or globals are outside the model, and the `type` argument is left out.
- SqlValues.PrepareForInsert: Python's limit on converting an integer to decimal text (`sys.int_max_str_digits`, 4300 digits by default on recent releases, where `str` and `format` raise `ValueError` beyond it) is not modelled; every integer renders.
- Transformer.EvaluateTransform: the value on an order-independent template is the single-pass one only for transforms that read none of those locals or globals; a transform such as `'${a}${b}' + i` depends on the visiting order through `i`.
- Transformer.BuildInsert: the row's statement on a resolvable row is the single-pass one only for transforms that read none of `evaluate_transform`'s locals or the module's globals.
- Transformer.RowDeterministic: "the same in every visiting order" holds only for transforms that read none of `evaluate_transform`'s locals or the module's globals.
- `csv.DictReader` fills the missing cells of a short row with `None`, and a placeholder naming such a cell makes `replace` raise `TypeError`. Rows are maps from column name to text, so this case is not modelled.
- The configuration's `output-fields` keys are taken to be strings. A non-string key (YAML allows one) makes `join` raise `TypeError`, and that is not modelled.
- Text is a sequence of characters. Whatever encoding the csv file and SQLite use is not modelled.
- The script casts no input field by type, has no reject stream for failing rows, and counts neither successes nor failures. The first exception ends the run (`Transformer.Run`).
