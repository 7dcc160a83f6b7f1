# csv2mysql `convert`, one file: a Dafny model

csv2mysql turns a pipe-delimited CSV file into MySQL statements. For each input
file, `ConvertCommand::executeOne` does the following:

- It takes the table name from the file name.
- It reads the header row into one column profile per retained header field.
- It runs every data row that has the header's field count through five regular
  expression tests: unsigned integer, signed integer, float, datetime and date.
  These narrow each column's candidate types and track its longest value and its
  `maxint`.
- It resolves each column to a MySQL definition, which gives an ordered
  `$schemaCols` map and the list of `*_id` columns to index.
- It writes a `CREATE TABLE IF NOT EXISTS` statement, optionally preceded by a
  `DROP TABLE`, and an `ALTER TABLE ... ADD [PRIMARY] KEY` statement.
- Unless `--schema` is given, it prints `INSERT` commands. These are packed
  greedily under a budget of `--max-command-length` KiB.

The model works on the file already split into records. Each record is a sequence of
fields, and a field is a PHP byte string: a `seq<char>` with one character per byte.
The modules follow the method's phases:

| module | phase |
|---|---|
| `Strings` | `implode`, line splitting, the two `preg_replace` identifier sanitisers, decimal digits |
| `TypeTests` | the five type tags, their precedence and the anchored regular expressions |
| `Profiler` | the header loop and the data-row scan (lines 125-184) |
| `Schema` | type resolution, MySQL widths, definitions, `$schemaCols`, `$indexCols` (lines 186-275) |
| `Ddl` | table name, `CREATE TABLE`, `ALTER TABLE` (lines 96-98, 277-308) |
| `Inserts` | value rendering, tuples, the `INSERT` preamble and the packing loop (lines 326-377) |
| `Convert` | the whole method, as written (`Convert.Convert`) and as intended (`Convert.ConvertIntended`) |
| `Findings` | the integer-width defects, stated against the profile the code computes |

Several points in the code are modelled exactly as written:

- The leftover loop variable `$test_type` decides whether `maxint` moves. It is threaded
  through the scan as `lastTested`.
- The duplicate-header test on line 133 compares a header string with an array of
  column records, so it never fires. Repeated names therefore all become columns,
  and they collapse in `$schemaCols`: the first position is kept and the last
  definition wins.
- PCRE's `$` also matches before one final newline, so each test looks at the value
  with at most one trailing `"\n"` removed.

An all-empty column keeps every candidate tag, so it resolves to `TINYINT UNSIGNED`
without `NOT NULL`, not to a zero-length `VARCHAR`.

## Model

| member | source | states |
|---|---|---|
| Profiler.Retained | src/Command/ConvertCommand.php:128-133 | the retained header positions are exactly the fields outside the skip set `^`/empty, strictly increasing |
| Profiler.RetainedCovers | src/Command/ConvertCommand.php:128-133 | every header field outside the skip set is retained, so repeated names are not dropped |
| Profiler.ColumnsOfHeader | src/Command/ConvertCommand.php:125-153 | each retained field yields a fresh profile with every tag, empty, zero statistics and the sanitised header as name, in field order, and every non-skipped field has one |
| Profiler.ColumnNamesAreIdentifiers | src/Command/ConvertCommand.php:137 | every column name holds only letters, digits and `_` |
| Profiler.Keep | src/Command/ConvertCommand.php:168-175 | after one value, a tag stays a candidate iff it was one and the value passes its test; precedence order is kept |
| Profiler.ProfileCell | src/Command/ConvertCommand.php:159-183 | an empty value changes nothing; otherwise `empty` clears, the candidates are those that pass, the byte and character maxima grow to cover the value, and `maxint` only moves to a larger integer value |
| Profiler.MaxIntOnlyFromIntegers | src/Command/ConvertCommand.php:176-177 | when the `$test_type` left by a column is an integer tag and the column stays typed, the value was an integer and `maxint` becomes the larger of the two |
| Profiler.ProfileRow | src/Command/ConvertCommand.php:159-183 | a counted row updates every column from its own field only, keeping positions and names |
| Profiler.ProfileCharacterised | src/Command/ConvertCommand.php:125-184 | a finished column's candidates are exactly the tags, in precedence order, that all its non-empty counted values pass; it is empty iff it has no such value; its byte maximum is the longest value and bounds the character maximum; `maxint` is at least 0 |
| Profiler.ScanNarrows | src/Command/ConvertCommand.php:156-175 | later rows only remove candidate tags: a tag that survives the whole file survived every prefix of it |
| Profiler.ScanIgnoresUncountedRows | src/Command/ConvertCommand.php:156 | rows whose field count differs from the header's leave the profile unchanged |
| Profiler.SurvivorsDependOnValueSet | src/Command/ConvertCommand.php:168-171 | the candidate tags depend only on which values occur, not on their order or repetition |
| Profiler.ScanKeepsMaxIntWhileFloatSurvives | src/Command/ConvertCommand.php:168-178 | while `float` remains a candidate the leftover `$test_type` is no integer tag, so `maxint` never moves |
| Profiler.ScanMaxIntFromValues | src/Command/ConvertCommand.php:176-177 | `maxint` is its initial 0 or the integer of one of the column's values |
| TypeTests.ShapeLattice | src/Command/ConvertCommand.php:112-118 | an unsigned integer also passes the signed and float tests; a signed non-unsigned value is non-positive and no float; a date-shaped value passes no number test; no value is both date and datetime |
| TypeTests.PrecedenceOrdered | src/Command/ConvertCommand.php:138-144 | the initial candidate list is in precedence order without repetition |
| Strings.SanitizeShape | src/Command/ConvertCommand.php:137 | a sanitised name holds only kept characters and single `_` separators, is empty only for the empty input and is no longer than it |
| Strings.SanitizeIdempotent | src/Command/ConvertCommand.php:137 | sanitising a sanitised name changes nothing |
| Strings.SanitizeCollapsesRuns | src/Command/ConvertCommand.php:137 | sanitising copies every kept character in order and replaces each maximal run of other characters by exactly one `_`, as a one-pass reading of the pattern does |
| Strings.SanitizeExample | src/Command/ConvertCommand.php:137 | the header field `a -b` becomes the column name `a_b` |
| Strings.NatToStringRoundTrip | src/Command/ConvertCommand.php:208 | the decimal text of the VARCHAR length reads back as the length |
| Strings.SplitJoin | src/Command/ConvertCommand.php:308 | lines joined by a newline split back into the same lines when none contains a newline |
| Schema.ResolvedIsFirstPassingTag | src/Command/ConvertCommand.php:186-192 | the resolved type is the tag of least precedence that every value passes, and text iff no tag does |
| Schema.ResolutionIgnoresRowOrder | src/Command/ConvertCommand.php:186-192 | two columns with the same set of values resolve to the same type |
| Schema.UnsignedWidth | src/Command/ConvertCommand.php:214-224 | the unsigned width chosen for `maxint` holds it, or is BIGINT, and no narrower width holds it |
| Schema.SignedWidth | src/Command/ConvertCommand.php:230-240 | the signed width chosen for `maxint` holds it, or is BIGINT, and no narrower width holds it |
| Schema.FittingWidthHoldsEveryValue | src/Command/ConvertCommand.php:214-245 | the corrected width holds every value of the column, short of BIGINT's limits, and every narrower width misses one |
| Schema.VarcharLength | src/Command/ConvertCommand.php:207-208 | the VARCHAR length is the character maximum plus 10%, rounded down: at least the maximum and within one of 1.1 times it |
| Schema.TextWidth | src/Command/ConvertCommand.php:199-209 | MEDIUMTEXT iff more than 65535 bytes, TEXT iff 256 to 65535 bytes, VARCHAR otherwise, with room for the longest value's characters |
| Schema.TextWidthHoldsLongest | src/Command/ConvertCommand.php:199-209 | the text type chosen can store the longest value, up to MEDIUMTEXT's own limit |
| Schema.DefinitionRules | src/Command/ConvertCommand.php:199-274 | text is NOT NULL; numbers default to 0 and datetimes to CURRENT_TIMESTAMP exactly when the column had a value; dates are nullable; only `id` in any letter case is the primary key |
| Schema.DefinitionIsOneLine | src/Command/ConvertCommand.php:199-274 | no definition, as written or corrected, contains a line break |
| Schema.SchemaOfLastWins | src/Command/ConvertCommand.php:270-273 | every `$schemaCols` entry holds the definition of the last column with its name |
| Schema.SchemaOfFirstOrder | src/Command/ConvertCommand.php:270 | the entries appear in the order of each name's first column |
| Schema.SchemaOfCoversColumns | src/Command/ConvertCommand.php:270 | every column's name has an entry |
| Schema.SchemaOfNames | src/Command/ConvertCommand.php:270 | the map's names, in order, depend only on the column names, not on the definitions |
| Schema.IndexPositions | src/Command/ConvertCommand.php:186-196 | the positions of the columns ending in `_id`: strictly increasing, and every such column's position is among them |
| Schema.IndexColumnsExact | src/Command/ConvertCommand.php:186-196 | entry `i` of the index list is the name of the column at the `i`-th `_id` position, so the list holds exactly those columns, one entry per column, in column order |
| Schema.NoIndexColumnsIff | src/Command/ConvertCommand.php:194-196 | the index list is empty iff no column name ends in `_id` |
| Ddl.BaseName | src/Command/ConvertCommand.php:96 | the base name holds no `/` |
| Ddl.BaseNameOfPath | src/Command/ConvertCommand.php:96 | the base name of `dir/name`, with any trailing slashes, is `name` |
| Ddl.FileName | src/Command/ConvertCommand.php:96 | the file name is the base name up to its last dot, or all of it when it has no dot |
| Ddl.TableNameIsIdentifier | src/Command/ConvertCommand.php:96-98 | the table name contains only letters, digits and `_`, equals the file name when that already does, and holds no line break |
| Ddl.ColumnListIsJoin | src/Command/ConvertCommand.php:284-293 | the column loop's text is the lines joined by a comma, newline and two spaces after the first prefix |
| Ddl.CreateStatementLines | src/Command/ConvertCommand.php:277-294 | line by line, the CREATE text is the DROP statement or two blank lines, the CREATE line, one indented line per entry with all but the last ending in a comma, and `);` |
| Ddl.IndexStatement | src/Command/ConvertCommand.php:296-308 | as written, the index statement fails exactly when there is no `_id` column |
| Ddl.IndexStatementLines | src/Command/ConvertCommand.php:296-308 | line by line, the ALTER text is the ALTER line and one clause per index column, comma-separated and ended by `;` |
| Ddl.PrimaryClauseIff | src/Command/ConvertCommand.php:301-305 | a clause adds the primary key iff the column is named `<table>_id` |
| Ddl.IndexStatementIntended | src/Command/ConvertCommand.php:296-308 | the intended index statement is absent iff there is no `_id` column, and otherwise is the statement as written |
| Inserts.Escape | src/Command/ConvertCommand.php:354 | escaping adds one byte per double quote, plus one per backslash when backslashes are escaped |
| Inserts.RenderValue | src/Command/ConvertCommand.php:345-355 | a numeric column passes the value through, with an empty one as `NULL`; any other column gets a double-quoted literal of the escaped value |
| Inserts.RenderValueReadsBack | src/Command/ConvertCommand.php:352-355 | MySQL reads a rendered text literal back as the original value, always when backslashes are escaped and otherwise when the value has none |
| Inserts.TrailingBackslashBreaksLiteral | src/Command/ConvertCommand.php:354 | as written, the value `a\` renders as a literal MySQL cannot read |
| Inserts.TupleLength | src/Command/ConvertCommand.php:358 | a tuple's length is its values' lengths plus the commas and the two parentheses |
| Inserts.TupleSplitsIntoValues | src/Command/ConvertCommand.php:343-358 | between its parentheses, a tuple of comma-free fields splits at `,` into one rendered value per map entry, in map order |
| Inserts.PreambleListsNames | src/Command/ConvertCommand.php:326-328 | the preamble names the table, and its column list, with backquotes and spaces removed and split at `,`, reads back as the map's names in order |
| Inserts.Commands | src/Command/ConvertCommand.php:362-377 | every emitted command starts with the `INSERT` preamble and ends with `;` and a newline |
| Inserts.PackCorrect | src/Command/ConvertCommand.php:331-377 | when every tuple fits, every tuple lands in exactly one command, in order; otherwise the loop stops at the first oversized tuple after the commands already flushed; commands are closed only when the next tuple overruns them and stay within the budget plus the slack |
| Inserts.PackAsWrittenOverrunsBudget | src/Command/ConvertCommand.php:362 | as written, a command can end one byte over the budget because the separator is not counted |
| Inserts.PackStrictWithinBudget | src/Command/ConvertCommand.php:359-369 | counting the separator keeps every command within the budget |
| Inserts.PackStrictSplitsExample | src/Command/ConvertCommand.php:362 | counting the separator moves the tuple that caused the overrun into a command of its own |
| Inserts.PackDelivers | src/Command/ConvertCommand.php:341-377 | the corrected loop's commands deliver the tuples: within the budget, all in order when none is oversized, a prefix before the oversized one otherwise |
| Convert.Convert | src/Command/ConvertCommand.php:296-341 | as written, a file fails iff no column name ends in `_id`; otherwise there is an index statement, and the insert output is empty iff `--schema` is set |
| Convert.ConvertStatementLines | src/Command/ConvertCommand.php:277-308 | line by line, both statements of a converted file have one line per map entry or index column, since no name or definition can break a line |
| Convert.SchemaIsOneLinePerEntry | src/Command/ConvertCommand.php:290-293 | no name or definition in `$schemaCols` contains a line break |
| Convert.HeaderDecidesNames | src/Command/ConvertCommand.php:125-154 | the column names and the map's names depend on the header row alone |
| Convert.InsertsIgnoreDataRows | src/Command/ConvertCommand.php:341-377 | as written, the insert output depends on the header alone: it is one command, the preamble with no tuple |
| Convert.ConvertIntended | src/Command/ConvertCommand.php:296-323 | the intended pass has no index statement iff no column name ends in `_id`, and no insert output under `--schema` |
| Convert.ConvertIntendedDeliversRows | src/Command/ConvertCommand.php:326-377 | in the intended pass, every counted data row's tuple is delivered in order within the budget, or the output stops before the first oversized one |
| Convert.ConvertIntendedValuesReadBack | src/Command/ConvertCommand.php:341-358 | in the intended pass, every text value of a row reads back as the value in the file |
| Convert.ConvertIntendedNumbersValidated | src/Command/ConvertCommand.php:343-350 | a value of a numeric column is written bare only when it passed that column's type test; an empty one is written as `NULL` |
| Convert.ConvertIntendedPreambleNames | src/Command/ConvertCommand.php:326-328 | the preamble's column list reads back as the map's names in order, because every name is a sanitised header field |
| Convert.ConvertIntendedIntegersFit | src/Command/ConvertCommand.php:214-245 | in the intended pass, an integer column's type holds all its values, short of BIGINT's limits, and no narrower type would |
| Findings.UnsignedColumnStaysTiny | src/Command/ConvertCommand.php:176-229 | as written, an unsigned integer column keeps `maxint` at 0 and becomes TINYINT UNSIGNED, which misses every value above 255 |
| Findings.SignedColumnIgnoresNegatives | src/Command/ConvertCommand.php:176-245 | as written, a signed column's `maxint` lies between 0 and its greatest value; a column with no positive value becomes TINYINT SIGNED, which misses every value below -128 |
| Findings.UnsignedExample | src/Command/ConvertCommand.php:214-217 | the file `n` / `1000` gets the type TINYINT UNSIGNED |
| Findings.SignedExample | src/Command/ConvertCommand.php:230-233 | the file `n` / `-1000` gets the type TINYINT SIGNED |

## Left out

- File existence, readability and open errors (lines 76-91) are not modelled. The model starts from the records the CSV reader returns, and the reader's parsing with the `|` delimiter is outside it.
- `execute`, `configure` and the directory walk are not modelled. Nor are the progress bars, console `writeln` and `appendToFile`. These are I/O; the model returns the texts each would receive.
- The `RuntimeException` for an unexpected type (line 267) is not modelled. The resolved type is always one of the six handled ones, so the branch is unreachable.
- Profiler.MbLength: counts the bytes that are not UTF-8 continuation bytes. This equals `mb_strlen` for valid UTF-8 and does not model its handling of invalid sequences.
- Schema.VarcharLength: uses the integer `(11 * m) / 10` for the double product `(int) (1.10 * m)`. The two agree for the character maxima that reach this branch (at most 255); floating point is not modelled.
- Profiler.ProfileCell: `maxint` moves only when the value is integer-shaped. The source also compares a non-integer value when the leftover `$test_type` is an integer tag. In that case the column then has no candidate left, becomes text, and its `maxint` is never read (Profiler.MaxIntOnlyFromIntegers).
- Ddl.IndexStatement: models PHP 8, where `implode` on the undefined list raises a `TypeError`. Under PHP 7 it warns and yields an `ALTER TABLE` with no clause.
- Ddl.BaseName: models `pathinfo` for `/`-separated paths. Locale-dependent multibyte handling is not modelled.
- Inserts.TupleSplitsIntoValues: covers rows whose fields hold no comma. A comma inside a quoted text value would also be cut by a plain split.
- Inserts.RenderValue: does not model the `NO_BACKSLASH_ESCAPES` SQL mode. The reader in `Inserts` follows MySQL's default mode.
- `Convert.ConvertIntended` renders one tuple per counted data row, reading each field at its map entry's position. The as-written loop iterates undefined variables, so the corrected pass takes the counted data rows as its row source and reads each field at its map entry's position in place of the property access `$row->$header`.
- Schema.FittingWidthHoldsEveryValue: BIGINT's own range is not checked. A value beyond it is out of range for every type the code can choose.

## Findings

| source | as written | input that shows it | evidently intended | confidence | as-written member | corrected member |
|---|---|---|---|---|---|---|
| src/Command/ConvertCommand.php:176-229 | `maxint` moves only when the leftover `$test_type` is an integer tag. An unsigned column keeps `float`, so it never moves, and every unsigned column is TINYINT UNSIGNED | the file `n` / `1000` | the width that holds the column's largest value (INT(10) UNSIGNED for 1000) | not executed | Findings.UnsignedExample | Convert.ConvertIntendedIntegersFit |
| src/Command/ConvertCommand.php:176-245 | the signed width comes from `maxint`, which starts at 0 and only grows, so negative values play no part | the file `n` / `-1000` | a width chosen from the least and greatest values (INT(10) SIGNED for -1000) | not executed | Findings.SignedColumnIgnoresNegatives | Convert.ConvertIntendedIntegersFit |
| src/Command/ConvertCommand.php:362 | the flush test adds the tuple to the command but not the comma before it | preamble `P`, budget 7 bytes, tuples `(1)` and `(2)`: the command `P(1),(2)` has 8 bytes | no command longer than the budget | not executed | Inserts.PackAsWrittenOverrunsBudget | Inserts.PackStrictWithinBudget |
| src/Command/ConvertCommand.php:298-308 | line 298 fills `$index_lines`, but line 308 implodes `$index_line`, which is undefined when no column ends in `_id` | a file whose header is `a` | no index statement for a table without index columns | not executed | Ddl.IndexStatement | Ddl.IndexStatementIntended |
| src/Command/ConvertCommand.php:341-343 | the insert loop iterates `$records` and `$cols`, which are never assigned, so no data row is written | a file with header `a_id` and a data row `1` gives only the preamble and `;` | one tuple per data row | not executed | Convert.InsertsIgnoreDataRows | Convert.ConvertIntendedDeliversRows |
| src/Command/ConvertCommand.php:354 | quotes are escaped but backslashes are not | the text value `a\` renders as `"a\"`, whose closing quote is escaped | a literal that reads back as the value | not executed | Inserts.TrailingBackslashBreaksLiteral | Inserts.RenderValueReadsBack |
