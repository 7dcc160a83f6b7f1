/** `ConvertCommand::executeOne` end to end: one CSV file, already split into
    records, becomes the CREATE and ALTER statements and the INSERT commands.
    `Convert` follows the source as written; `ConvertIntended` is the same pass
    with the corrected integer widths, value escaping, index statement and
    insert loop. */
module Convert {
  import opened Wrappers
  import opened Strings
  import opened TypeTests
  import opened Profiler
  import opened Schema
  import opened Ddl
  import opened Inserts

  /** The options `executeOne` reads: `--drop`, `--schema` and
      `--max-command-length` (in KiB). */
  datatype Options = Options(drop: bool, schemaOnly: bool, maxCommandKB: nat)

  /** What one file produces: the CREATE statement and the index statement
      (written to the SQL file and the console), the INSERT commands (console)
      and the position, among the counted data rows, of the row whose tuple could
      not fit a command. */
  datatype Output = Output(schemaSql: string, indexSql: Option<string>, inserts: seq<string>, oversized: Option<nat>)

  /** The command budget in bytes. */
  function Budget(opts: Options): (r: nat) { 1024 * opts.maxCommandKB }

  /** `$schemaCols` as the resolver loop leaves it. */
  function SchemaMap(records: seq<seq<string>>): (r: seq<SchemaEntry>) {
    SchemaOf(Entries(Profile(records)))
  }

  /** The pass as written. The index statement fails when no column name ends in
      `_id`, before anything is written; the insert loop iterates the undefined
      `$records`, so its only command is the preamble closed with `;`. */
  function Convert(path: string, records: seq<seq<string>>, opts: Options): (r: Result<Output, DdlError>)
    ensures r.Failure? <==> forall k :: 0 <= k < |Profile(records)| ==> !IsIndexName(Profile(records)[k].name)
    ensures r.Success? ==> r.value.indexSql.Some? && r.value.oversized.None?
    ensures r.Success? ==> (r.value.inserts == [] <==> opts.schemaOnly)
  {
    var cols := Profile(records);
    var table := TableName(path);
    var schema := SchemaMap(records);
    NoIndexColumnsIff(cols);
    match IndexStatement(table, IndexColumns(cols))
    case Failure(e) => Failure(e)
    case Success(indexSql) =>
      var inserts := if opts.schemaOnly then [] else Commands(Preamble(table, schema), [[]]);
      Success(Output(CreateStatement(table, schema, opts.drop), Some(indexSql), inserts, None))
  }

  // ---------------------------------------------------------------------------
  // The corrected pass
  // ---------------------------------------------------------------------------

  /** The data rows the profiler counts. */
  function DataRows(records: seq<seq<string>>): (rows: seq<seq<string>>)
    ensures forall i :: 0 <= i < |rows| ==> |records| > 0 && |rows[i]| == |records[0]|
  {
    if records == [] then [] else CountedRows(|records[0]|, records[1..])
  }

  /** The non-empty values of the column at `k`. */
  function ValuesOf(records: seq<seq<string>>, k: nat): (r: seq<string>)
    requires k < |Profile(records)|
  {
    ColumnValues(|records[0]|, records[1..], Profile(records)[k].index)
  }

  /** The entries of the corrected resolver loop, one per column. */
  function IntendedEntries(records: seq<seq<string>>): (es: seq<SchemaEntry>)
    ensures |es| == |Profile(records)|
    ensures forall k :: 0 <= k < |es| ==> es[k].index < |records[0]|
  {
    var cols := Profile(records);
    seq(|cols|, k requires 0 <= k < |cols| => IntendedEntry(cols[k], ValuesOf(records, k)))
  }

  /** `$schemaCols` with the corrected definitions. */
  function IntendedSchema(records: seq<seq<string>>): (schema: seq<SchemaEntry>)
    ensures forall i :: 0 <= i < |schema| ==> |records| > 0 && schema[i].index < |records[0]|
  {
    var es := IntendedEntries(records);
    SchemaOfLastWins(es);
    SchemaOf(es)
  }

  /** One tuple per row, with backslashes escaped. */
  function Tuples(entries: seq<SchemaEntry>, rows: seq<seq<string>>): (ts: seq<string>)
    requires forall i :: 0 <= i < |rows| ==> Covers(entries, rows[i])
    ensures |ts| == |rows|
  {
    seq(|rows|, i requires 0 <= i < |rows| => Tuple(entries, rows[i], true))
  }

  /** The tuples of every counted data row under the corrected schema. */
  function IntendedTuples(records: seq<seq<string>>): (ts: seq<string>)
    ensures |ts| == |DataRows(records)|
  {
    Tuples(IntendedSchema(records), DataRows(records))
  }

  /** The pass as intended: integer columns take the width that holds every
      value, no index statement is produced when there is no index column, every
      counted data row becomes a tuple with quotes and backslashes escaped, and a
      command is flushed before the separator would take it over the budget. */
  function ConvertIntended(path: string, records: seq<seq<string>>, opts: Options): (r: Output)
    ensures r.indexSql.None? <==> forall k :: 0 <= k < |Profile(records)| ==> !IsIndexName(Profile(records)[k].name)
    ensures opts.schemaOnly ==> r.inserts == [] && r.oversized.None?
  {
    var cols := Profile(records);
    var table := TableName(path);
    var schema := IntendedSchema(records);
    var pre := Preamble(table, schema);
    var packing := Pack(pre, Budget(opts), true, IntendedTuples(records));
    NoIndexColumnsIff(cols);
    Output(CreateStatement(table, schema, opts.drop),
           IndexStatementIntended(table, IndexColumns(cols)),
           if opts.schemaOnly then [] else Commands(pre, packing.groups),
           if opts.schemaOnly then None else packing.oversized)
  }

  // ---------------------------------------------------------------------------
  // Properties of the pass as written
  // ---------------------------------------------------------------------------

  /** Read line by line, the CREATE statement is the opening lines, one line per
      entry of the schema map and the closing `);`, and the index statement is
      `ALTER TABLE` and one clause per `_id` column: no name or definition can
      break a line. */
  lemma ConvertStatementLines(path: string, records: seq<seq<string>>, opts: Options)
    requires Convert(path, records, opts).Success?
    ensures var out := Convert(path, records, opts).value;
            var table := TableName(path);
            && Split(out.schemaSql, '\n') == HeadLines(opts.drop, table) + BodyLines(SchemaMap(records)) + [");", ""]
            && Split(out.indexSql.value, '\n') ==
                 ["ALTER TABLE `" + table + "`"] + Lines("", IndexClauses(table, IndexColumns(Profile(records))), ",", ";") + [""]
  {
    var table := TableName(path);
    TableNameIsIdentifier(path);
    SchemaIsOneLinePerEntry(records);
    CreateStatementLines(table, SchemaMap(records), opts.drop);
    var cols := Profile(records);
    var names := IndexColumns(cols);
    IndexColumnsExact(cols);
    forall k | 0 <= k < |names| ensures !Contains(names[k], '\n') {
      assert names[k] in names;
      var j :| 0 <= j < |cols| && cols[j].name == names[k] && IsIndexName(names[k]);
      ColumnNameIsOneLine(records, j);
    }
    IndexStatementLines(table, names);
  }

  lemma ColumnNameIsOneLine(records: seq<seq<string>>, k: nat)
    requires k < |Profile(records)|
    ensures !Contains(Profile(records)[k].name, '\n')
  {
    var header := records[0];
    ColumnsOfHeader(header);
    NoNewlineAfterSanitize(header[Columns(header)[k].index], false);
  }

  lemma SchemaIsOneLinePerEntry(records: seq<seq<string>>)
    ensures NoNewlines(SchemaMap(records))
  {
    var cols := Profile(records);
    var es := Entries(cols);
    SchemaOfLastWins(es);
    forall i | 0 <= i < |SchemaMap(records)|
      ensures !Contains(SchemaMap(records)[i].name, '\n') && !Contains(RenderDef(SchemaMap(records)[i].def), '\n')
    {
      var j := LastNamed(es, SchemaMap(records)[i].name);
      ColumnNameIsOneLine(records, j);
      DefinitionIsOneLine(cols[j], []);
    }
  }

  /** The INSERT output does not depend on the data rows at all: it is what the
      header alone produces, a single command with no tuple. */
  lemma InsertsIgnoreDataRows(path: string, records: seq<seq<string>>, opts: Options)
    requires |records| > 0 && Convert(path, records, opts).Success? && !opts.schemaOnly
    ensures Convert(path, records[..1], opts).Success?
    ensures Convert(path, records, opts).value.inserts == Convert(path, records[..1], opts).value.inserts
    ensures Convert(path, records, opts).value.inserts == [CommandText(Preamble(TableName(path), SchemaMap(records)), []) + ";\n"]
  {
    var m1, m2 := SchemaMap(records), SchemaMap(records[..1]);
    HeaderDecidesNames(records);
    assert Convert(path, records[..1], opts).Success? by { HeaderDecidesSuccess(path, records, opts); }
    assert Names(m1) == Names(m2);
    var t := TableName(path);
    assert Convert(path, records, opts).value.inserts == [CommandText(Preamble(t, m1), []) + ";\n"] by {
      ConvertInserts(path, records, opts);
    }
    assert Convert(path, records[..1], opts).value.inserts == [CommandText(Preamble(t, m2), []) + ";\n"] by {
      ConvertInserts(path, records[..1], opts);
    }
  }

  lemma HeaderDecidesSuccess(path: string, records: seq<seq<string>>, opts: Options)
    requires |records| > 0 && Convert(path, records, opts).Success?
    ensures Convert(path, records[..1], opts).Success?
  {
    HeaderDecidesNames(records);
    var k :| 0 <= k < |Profile(records)| && IsIndexName(Profile(records)[k].name);
    assert IsIndexName(Profile(records[..1])[k].name);
  }

  lemma ConvertInserts(path: string, records: seq<seq<string>>, opts: Options)
    requires Convert(path, records, opts).Success? && !opts.schemaOnly
    ensures Convert(path, records, opts).value.inserts == [CommandText(Preamble(TableName(path), SchemaMap(records)), []) + ";\n"]
  {
    var pre := Preamble(TableName(path), SchemaMap(records));
    assert Convert(path, records, opts).value.inserts == Commands(pre, [[]]);
    SingleEmptyCommand(pre);
  }

  lemma SingleEmptyCommand(pre: string)
    ensures Commands(pre, [[]]) == [CommandText(pre, []) + ";\n"]
  {
    assert Commands(pre, [[]])[0] == CommandText(pre, []) + ";\n";
  }

  /** The schema map's names come from the header row alone. */
  lemma HeaderDecidesNames(records: seq<seq<string>>)
    requires |records| > 0
    ensures |Profile(records[..1])| == |Profile(records)|
    ensures forall k :: 0 <= k < |Profile(records)| ==> Profile(records[..1])[k].name == Profile(records)[k].name
    ensures |SchemaMap(records[..1])| == |SchemaMap(records)|
    ensures forall i :: 0 <= i < |SchemaMap(records)| ==> SchemaMap(records[..1])[i].name == SchemaMap(records)[i].name
  {
    assert records[..1][0] == records[0];
    SchemaOfNames(Entries(Profile(records)), Entries(Profile(records[..1])));
  }

  // ---------------------------------------------------------------------------
  // Properties of the corrected pass
  // ---------------------------------------------------------------------------

  /** Every counted data row lands in exactly one command, in row order, when
      no tuple is too long; every command starts with the preamble, ends with
      `;` and stays within the budget; a too-long tuple stops the output before
      it. */
  lemma ConvertIntendedDeliversRows(path: string, records: seq<seq<string>>, opts: Options)
    requires !opts.schemaOnly
    ensures var out := ConvertIntended(path, records, opts);
            Delivers(Preamble(TableName(path), IntendedSchema(records)), Budget(opts), IntendedTuples(records),
                     out.inserts, out.oversized)
  {
    ConvertIntendedInserts(path, records, opts);
    PackDelivers(Preamble(TableName(path), IntendedSchema(records)), Budget(opts), IntendedTuples(records));
  }

  lemma ConvertIntendedInserts(path: string, records: seq<seq<string>>, opts: Options)
    requires !opts.schemaOnly
    ensures var pre := Preamble(TableName(path), IntendedSchema(records));
            var p := Pack(pre, Budget(opts), true, IntendedTuples(records));
            && ConvertIntended(path, records, opts).inserts == Commands(pre, p.groups)
            && ConvertIntended(path, records, opts).oversized == p.oversized
  {
  }

  /** Every text value of a row reads back, through MySQL's string-literal rules,
      as the value in the file. */
  lemma ConvertIntendedValuesReadBack(records: seq<seq<string>>, i: nat, k: nat)
    requires i < |DataRows(records)| && k < |IntendedSchema(records)|
    requires !IsNumeric(IntendedSchema(records)[k].ty)
    ensures var e := IntendedSchema(records)[k];
            var row := DataRows(records)[i];
            ReadLiteral(TupleValues(IntendedSchema(records), row, true)[k]) == Some(row[e.index])
  {
    var e := IntendedSchema(records)[k];
    RenderValueReadsBack(e.ty, DataRows(records)[i][e.index], true);
  }

  /** The corrected INSERT preamble lists the schema map's names in map order:
      they are sanitised header fields, so the column list reads back exactly. */
  lemma ConvertIntendedPreambleNames(path: string, records: seq<seq<string>>)
    requires IntendedSchema(records) != []
    ensures var p := Preamble(TableName(path), IntendedSchema(records));
            var head := "INSERT INTO `" + TableName(path) + "` (";
            var tail := ") VALUES \n";
            && |head| + |tail| <= |p|
            && Split(Unquote(p[|head|..|p| - |tail|]), ',') == Names(IntendedSchema(records))
  {
    SchemaNamesAreIdentifiers(records);
    PreambleListsNames(TableName(path), IntendedSchema(records));
  }

  lemma SchemaNamesAreIdentifiers(records: seq<seq<string>>)
    ensures forall i :: 0 <= i < |IntendedSchema(records)| ==> IsIdentifier(IntendedSchema(records)[i].name)
  {
    var schema := IntendedSchema(records);
    var es := IntendedEntries(records);
    ColumnNamesAreIdentifiers(records);
    forall i | 0 <= i < |schema| ensures IsIdentifier(schema[i].name) {
      var j: nat := LastNamed(es, schema[i].name);
      assert j < |Profile(records)| && schema[i] == es[j] by { SchemaOfLastWins(es); }
      assert es[j].name == Profile(records)[j].name;
    }
  }

  /** A value of a numeric column goes into the tuple without quotes only because
      it passed that column's shape test: the field is empty and becomes `NULL`,
      or it matches the column's tag and is copied as it is. */
  lemma ConvertIntendedNumbersValidated(records: seq<seq<string>>, i: nat, k: nat)
    requires i < |DataRows(records)| && k < |IntendedSchema(records)|
    requires IsNumeric(IntendedSchema(records)[k].ty)
    ensures var e := IntendedSchema(records)[k];
            var row := DataRows(records)[i];
            var r := TupleValues(IntendedSchema(records), row, true)[k];
            (row[e.index] == "" && r == "NULL") || (Matches(e.ty.tag, row[e.index]) && r == row[e.index])
  {
    var e := IntendedSchema(records)[k];
    var row := DataRows(records)[i];
    var v := row[e.index];
    if v != "" {
      var es := IntendedEntries(records);
      var j: nat := LastNamed(es, e.name);
      assert j < |Profile(records)| && e == es[j] by { SchemaOfLastWins(es); }
      var c := Profile(records)[j];
      var vals := ColumnValues(|records[0]|, records[1..], c.index);
      assert e.ty == ResolveType(c.tests) && e.index == c.index;
      assert c.tests == Survivors(Precedence, vals) by { ProfileCharacterised(records, j); }
      assert c.tests[0] in c.tests;
      assert v in vals by { CountedCellIsValue(|records[0]|, records[1..], c.index, i); }
    }
  }

  /** An integer column of the corrected schema holds every one of its values
      (short of BIGINT's own limits), and no narrower type would. */
  lemma ConvertIntendedIntegersFit(records: seq<seq<string>>, k: nat)
    requires k < |Profile(records)|
    requires ResolveType(Profile(records)[k].tests) in {Typed(UnsignedInt), Typed(SignedInt)}
    ensures var signed := ResolveType(Profile(records)[k].tests) == Typed(SignedInt);
            var vals := ValuesOf(records, k);
            exists w ::
              && IntendedEntries(records)[k].def.base == IntBase(w, signed)
              && (w == BigInt || forall i :: 0 <= i < |vals| ==> Holds(w, signed, IntValue(vals[i])))
              && (forall w' :: WidthRank(w') < WidthRank(w) ==>
                    exists i :: 0 <= i < |vals| && !Holds(w', signed, IntValue(vals[i])))
  {
    var c := Profile(records)[k];
    var vals := ValuesOf(records, k);
    var signed := ResolveType(c.tests) == Typed(SignedInt);
    ProfileCharacterised(records, k);
    ResolvedIsFirstPassingTag(vals);
    if !signed {
      forall i | 0 <= i < |vals| ensures IntValue(vals[i]) >= 0 {
        ShapeLattice(vals[i]);
      }
    }
    FittingWidthHoldsEveryValue(signed, vals);
    assert IntendedEntries(records)[k].def.base == IntBase(FittingWidth(signed, vals), signed);
  }
}
