/** The DDL text of `ConvertCommand::executeOne`: the table name taken from the
    input path, the optional `DROP TABLE`, the `CREATE TABLE IF NOT EXISTS`
    statement and the `ALTER TABLE ... ADD [PRIMARY] KEY` statement. */
module Ddl {
  import opened Strings
  import opened Wrappers
  import opened Schema

  // ---------------------------------------------------------------------------
  // Table name: `pathinfo($csvFilename)['filename']`, then sanitised
  // ---------------------------------------------------------------------------

  /** The path without its trailing slashes. */
  function TrimTrailingSlashes(path: string): (r: string)
    ensures |r| <= |path| && r == path[..|r|]
    ensures |r| > 0 ==> r[|r| - 1] != '/'
    ensures forall j :: |r| <= j < |path| ==> path[j] == '/'
  {
    if path == [] || path[|path| - 1] != '/' then path
    else
      var r := TrimTrailingSlashes(path[..|path| - 1]);
      assert forall j :: 0 <= j < |path| - 1 ==> path[..|path| - 1][j] == path[j];
      r
  }

  /** `basename`: the last path component. */
  function BaseName(path: string): (b: string)
    ensures !Contains(b, '/')
  {
    var t := TrimTrailingSlashes(path);
    var i := LastIndexOf(t, '/');
    if i < |t| then t[i + 1..] else t
  }

  /** The base name of `dir/name`, with any trailing slashes, is `name`. */
  lemma BaseNameOfPath(dir: string, name: string, slashes: string)
    requires name != [] && !Contains(name, '/')
    requires forall i :: 0 <= i < |slashes| ==> slashes[i] == '/'
    ensures BaseName(dir + "/" + name + slashes) == name
  {
    var u := dir + "/" + name;
    var path := u + slashes;
    assert u[|u| - 1] == name[|name| - 1];
    assert TrimTrailingSlashes(path) == u by { TrimmedPath(u, slashes); }
    var i := LastIndexOf(u, '/');
    assert u[|dir|] == '/';
    forall j | |dir| < j < |u| ensures u[j] != '/' {
      assert u[j] == name[j - |dir| - 1];
    }
    assert i == |dir|;
    assert u[i + 1..] == name;
  }

  /** Trimming the slashes after a path that does not end in one gives the path. */
  lemma TrimmedPath(u: string, slashes: string)
    requires u != [] && u[|u| - 1] != '/'
    requires forall i :: 0 <= i < |slashes| ==> slashes[i] == '/'
    ensures TrimTrailingSlashes(u + slashes) == u
  {
    assert (u + slashes)[..|u|] == u;
  }

  /** `pathinfo(...)['filename']`: the base name without its last `.extension`;
      a base name without a dot is kept whole. */
  function FileName(path: string): (f: string)
    ensures var b := BaseName(path);
            && StartsWith(b, f)
            && (|f| == |b| <==> !Contains(b, '.'))
            && (|f| < |b| ==> b[|f|] == '.' && !Contains(b[|f| + 1..], '.'))
  {
    var b := BaseName(path);
    var i := LastIndexOf(b, '.');
    if i < |b| then b[..i] else b
  }

  /** `$tableName`: the file name with every run of characters outside
      `[a-zA-Z0-9_]` replaced by `_`. */
  function TableName(path: string): (r: string) {
    Sanitize(FileName(path), true)
  }

  /** The table name is a plain identifier, safe inside backquotes, and it is the
      file name itself whenever that already is one. */
  lemma TableNameIsIdentifier(path: string)
    ensures forall i :: 0 <= i < |TableName(path)| ==> IsAlnum(TableName(path)[i]) || TableName(path)[i] == '_'
    ensures (forall i :: 0 <= i < |FileName(path)| ==> IsAlnum(FileName(path)[i]) || FileName(path)[i] == '_') ==>
              TableName(path) == FileName(path)
    ensures !Contains(TableName(path), '\n')
  {
    SanitizeShape(FileName(path), true);
    NoNewlineAfterSanitize(FileName(path), true);
    if forall i :: 0 <= i < |FileName(path)| ==> IsAlnum(FileName(path)[i]) || FileName(path)[i] == '_' {
      SanitizeFixpoint(FileName(path), true);
    }
  }

  // ---------------------------------------------------------------------------
  // CREATE TABLE
  // ---------------------------------------------------------------------------

  /** One column line of the body: "`name` definition". */
  function ColumnLine(e: SchemaEntry): (r: string) {
    "`" + e.name + "` " + RenderDef(e.def)
  }

  function ColumnLines(entries: seq<SchemaEntry>): (ls: seq<string>)
    ensures |ls| == |entries|
  {
    seq(|entries|, k requires 0 <= k < |entries| => ColumnLine(entries[k]))
  }

  /** The column loop: the first line follows `prefix`, every later one
      follows ",\n  ". */
  function ColumnList(lines: seq<string>, prefix: string): (r: string) {
    if lines == [] then ""
    else prefix + lines[0] + ColumnList(lines[1..], ",\n  ")
  }

  /** What `$schemaSQL` holds before `CREATE`: a blank pair of lines, or the
      `DROP TABLE` statement with the `drop` option. */
  function DropPrefix(drop: bool, table: string): (r: string) {
    if drop then "DROP TABLE IF EXISTS `" + table + "`;\n" else "\n\n"
  }

  /** `$schemaSQL` */
  function CreateStatement(table: string, entries: seq<SchemaEntry>, drop: bool): (r: string) {
    DropPrefix(drop, table) + CreateHead(table) + ColumnList(ColumnLines(entries), "  ") + "\n);\n"
  }

  function CreateHead(table: string): (r: string) {
    "CREATE TABLE IF NOT EXISTS `" + table + "` (\n"
  }

  /** The column loop is `implode` of the column lines, indented by two spaces. */
  lemma {:induction false} ColumnListIsJoin(lines: seq<string>, prefix: string)
    requires |lines| > 0
    ensures ColumnList(lines, prefix) == prefix + Join(",\n  ", lines)
    decreases |lines|
  {
    if |lines| > 1 {
      ColumnListIsJoin(lines[1..], ",\n  ");
    }
  }

  /** The statement's opening lines. */
  function HeadLines(drop: bool, table: string): (r: seq<string>) {
    (if drop then ["DROP TABLE IF EXISTS `" + table + "`;"] else ["", ""])
      + ["CREATE TABLE IF NOT EXISTS `" + table + "` ("]
  }

  /** The body lines: one per column, indented, all but the last followed by a
      comma; a single empty line when there are no columns. */
  function BodyLines(entries: seq<SchemaEntry>): (r: seq<string>) {
    if entries == [] then [""] else Lines("  ", ColumnLines(entries), ",", "")
  }

  predicate NoNewlines(entries: seq<SchemaEntry>) {
    forall k :: 0 <= k < |entries| ==> !Contains(entries[k].name, '\n') && !Contains(RenderDef(entries[k].def), '\n')
  }

  /** Read line by line, the statement is the opening lines, one line per column
      in map order, and the closing `);`. */
  lemma CreateStatementLines(table: string, entries: seq<SchemaEntry>, drop: bool)
    requires !Contains(table, '\n') && NoNewlines(entries)
    ensures Split(CreateStatement(table, entries, drop), '\n') == HeadLines(drop, table) + BodyLines(entries) + [");", ""]
  {
    var all := HeadLines(drop, table) + BodyLines(entries) + [");", ""];
    CreateStatementIsJoin(table, entries, drop);
    forall k | 0 <= k < |all| ensures !Contains(all[k], '\n') {
      LinesHaveNoNewline(table, entries, drop, k);
    }
    SplitJoin(all, '\n');
  }

  lemma CreateStatementIsJoin(table: string, entries: seq<SchemaEntry>, drop: bool)
    ensures Join("\n", HeadLines(drop, table) + BodyLines(entries) + [");", ""]) == CreateStatement(table, entries, drop)
  {
    var create := "CREATE TABLE IF NOT EXISTS `" + table + "` (";
    HeadJoin(drop, table);
    BodyJoin(entries);
    JoinOpenBodyClose(HeadLines(drop, table), BodyLines(entries));
    assert CreateHead(table) == create + "\n";
    CloseShape(DropPrefix(drop, table), create, ColumnList(ColumnLines(entries), "  "));
  }

  /** Joining opening lines, body lines and the closing `);` line. */
  lemma JoinOpenBodyClose(head: seq<string>, body: seq<string>)
    requires |head| > 0 && |body| > 0
    ensures Join("\n", head + body + [");", ""]) == Join("\n", head) + "\n" + Join("\n", body) + "\n);\n"
  {
    JoinConcat("\n", head, body);
    JoinConcat("\n", head + body, [");", ""]);
    assert Join("\n", [");", ""]) == ");\n";
    var x := Join("\n", head) + "\n" + Join("\n", body);
    assert x + "\n" + ");\n" == x + "\n);\n";
  }

  lemma CloseShape(p: string, c: string, l: string)
    ensures (p + c) + "\n" + l + "\n);\n" == p + (c + "\n") + l + "\n);\n"
  {
  }

  lemma HeadJoin(drop: bool, table: string)
    ensures Join("\n", HeadLines(drop, table)) == DropPrefix(drop, table) + ("CREATE TABLE IF NOT EXISTS `" + table + "` (")
  {
    var head := HeadLines(drop, table);
    var create := "CREATE TABLE IF NOT EXISTS `" + table + "` (";
    assert Join("\n", [create]) == create;
    if drop {
      var d := "DROP TABLE IF EXISTS `" + table + "`;";
      assert head == [d, create] && head[1..] == [create];
      assert d + "\n" == DropPrefix(drop, table);
    } else {
      assert head == ["", "", create] && head[1..] == ["", create] && head[1..][1..] == [create];
      assert Join("\n", ["", create]) == "\n" + create;
    }
  }

  lemma BodyJoin(entries: seq<SchemaEntry>)
    ensures Join("\n", BodyLines(entries)) == ColumnList(ColumnLines(entries), "  ")
  {
    if entries != [] {
      ColumnListIsJoin(ColumnLines(entries), "  ");
      JoinAsLines("  ", ColumnLines(entries), ",", "");
      assert "," + "\n" + "  " == ",\n  ";
      var j := Join(",\n  ", ColumnLines(entries));
      assert "  " + j + "" == "  " + j;
    }
  }

  lemma LinesHaveNoNewline(table: string, entries: seq<SchemaEntry>, drop: bool, k: nat)
    requires !Contains(table, '\n') && NoNewlines(entries)
    requires k < |HeadLines(drop, table) + BodyLines(entries) + [");", ""]|
    ensures !Contains((HeadLines(drop, table) + BodyLines(entries) + [");", ""])[k], '\n')
  {
    var head := HeadLines(drop, table);
    var body := BodyLines(entries);
    if k < |head| {
      HeadLineHasNoNewline(table, drop, k);
      assert (head + body + [");", ""])[k] == head[k];
    } else if k < |head| + |body| && entries != [] {
      BodyLineHasNoNewline(entries, k - |head|);
      assert (head + body + [");", ""])[k] == body[k - |head|];
    }
  }

  lemma HeadLineHasNoNewline(table: string, drop: bool, k: nat)
    requires !Contains(table, '\n') && k < |HeadLines(drop, table)|
    ensures !Contains(HeadLines(drop, table)[k], '\n')
  {
    ContainsConcat("CREATE TABLE IF NOT EXISTS `", table, '\n');
    ContainsConcat("CREATE TABLE IF NOT EXISTS `" + table, "` (", '\n');
    ContainsConcat("DROP TABLE IF EXISTS `", table, '\n');
    ContainsConcat("DROP TABLE IF EXISTS `" + table, "`;", '\n');
  }

  lemma BodyLineHasNoNewline(entries: seq<SchemaEntry>, j: nat)
    requires NoNewlines(entries) && j < |entries|
    ensures !Contains(BodyLines(entries)[j], '\n')
  {
    var e := entries[j];
    var col := "`" + e.name + "` " + RenderDef(e.def);
    var end := if j + 1 < |entries| then "," else "";
    assert BodyLines(entries)[j] == "  " + col + end;
    ContainsConcat("`", e.name, '\n');
    ContainsConcat("`" + e.name, "` ", '\n');
    ContainsConcat("`" + e.name + "` ", RenderDef(e.def), '\n');
    ContainsConcat("  ", col, '\n');
    ContainsConcat("  " + col, end, '\n');
  }

  // ---------------------------------------------------------------------------
  // ALTER TABLE ... ADD KEY
  // ---------------------------------------------------------------------------

  /** One index clause: the primary key when the column is named `<table>_id`. */
  function IndexClause(table: string, column: string): (r: string) {
    "\tADD " + (if table + "_id" == column then "PRIMARY KEY" else "KEY")
      + " `" + column + "` (`" + column + "`)"
  }

  function IndexClauses(table: string, columns: seq<string>): (cs: seq<string>)
    ensures |cs| == |columns|
  {
    seq(|columns|, k requires 0 <= k < |columns| => IndexClause(table, columns[k]))
  }

  /** Why the index statement cannot be built. */
  datatype DdlError =
    /** `$index_line` was never assigned because no column name ends in `_id`;
        `implode` then raises a `TypeError`. */
    UndefinedIndexList

  /** `$indexSQL`, as written: the clause list lives in `$index_line`, which only
      the clause loop assigns; line 298 fills `$index_lines` instead. */
  function IndexStatement(table: string, columns: seq<string>): (r: Result<string, DdlError>)
    ensures r.Failure? <==> columns == []
  {
    if columns == [] then Failure(UndefinedIndexList)
    else Success("ALTER TABLE `" + table + "`\n" + Join(",\n", IndexClauses(table, columns)) + ";\n")
  }

  /** Read line by line, the index statement is `ALTER TABLE`, then one clause per
      index column in order, each but the last followed by a comma and the last by
      the semicolon. */
  lemma IndexStatementLines(table: string, columns: seq<string>)
    requires |columns| > 0
    requires !Contains(table, '\n') && forall k :: 0 <= k < |columns| ==> !Contains(columns[k], '\n')
    ensures Split(IndexStatement(table, columns).value, '\n') ==
              ["ALTER TABLE `" + table + "`"] + Lines("", IndexClauses(table, columns), ",", ";") + [""]
  {
    var clauses := IndexClauses(table, columns);
    var body := Lines("", clauses, ",", ";");
    var all := ["ALTER TABLE `" + table + "`"] + body + [""];
    IndexStatementIsJoin(table, columns);
    forall k | 0 <= k < |all| ensures !Contains(all[k], '\n') {
      if k == 0 {
        ContainsConcat("ALTER TABLE `", table, '\n');
        ContainsConcat("ALTER TABLE `" + table, "`", '\n');
      } else if k <= |body| {
        ClauseHasNoNewline(table, columns[k - 1]);
        ContainsConcat(clauses[k - 1], if k < |body| then "," else ";", '\n');
      }
    }
    SplitJoin(all, '\n');
  }

  lemma IndexStatementIsJoin(table: string, columns: seq<string>)
    requires |columns| > 0
    ensures Join("\n", ["ALTER TABLE `" + table + "`"] + Lines("", IndexClauses(table, columns), ",", ";") + [""])
              == IndexStatement(table, columns).value
  {
    StatementJoin("ALTER TABLE `" + table + "`", IndexClauses(table, columns));
    assert "ALTER TABLE `" + table + "`" + "\n" == "ALTER TABLE `" + table + "`\n";
  }

  /** A header line, then clauses separated by commas and ended by `;`. */
  lemma StatementJoin(alter: string, clauses: seq<string>)
    requires |clauses| > 0
    ensures Join("\n", [alter] + Lines("", clauses, ",", ";") + [""]) == alter + "\n" + Join(",\n", clauses) + ";\n"
  {
    var j := Join(",\n", clauses);
    var body := Lines("", clauses, ",", ";");
    assert Join("\n", body) == j + ";" by { ClauseLinesJoin(clauses); }
    assert Join("\n", [alter] + body + [""]) == alter + "\n" + (j + ";") + "\n" by {
      FramedJoin(alter, body, j + ";");
    }
    AppendSemicolonLine(alter + "\n", j);
  }

  lemma AppendSemicolonLine(p: string, j: string)
    ensures p + (j + ";") + "\n" == p + j + ";\n"
  {
  }

  lemma ClauseLinesJoin(clauses: seq<string>)
    requires |clauses| > 0
    ensures Join("\n", Lines("", clauses, ",", ";")) == Join(",\n", clauses) + ";"
  {
    JoinAsLines("", clauses, ",", ";");
    assert "," + "\n" + "" == ",\n";
    var j := Join(",\n", clauses);
    assert "" + j + ";" == j + ";";
  }

  lemma FramedJoin(first: string, body: seq<string>, joined: string)
    requires |body| > 0 && Join("\n", body) == joined
    ensures Join("\n", [first] + body + [""]) == first + "\n" + joined + "\n"
  {
    JoinConcat("\n", [first], body);
    JoinConcat("\n", [first] + body, [""]);
    assert Join("\n", [first]) == first;
    assert Join("\n", [""]) == "";
  }

  lemma ClauseHasNoNewline(table: string, column: string)
    requires !Contains(column, '\n')
    ensures !Contains(IndexClause(table, column), '\n')
  {
    var kw := if table + "_id" == column then "PRIMARY KEY" else "KEY";
    ContainsConcat("\tADD ", kw, '\n');
    ContainsConcat("\tADD " + kw, " `", '\n');
    ContainsConcat("\tADD " + kw + " `", column, '\n');
    ContainsConcat("\tADD " + kw + " `" + column, "` (`", '\n');
    ContainsConcat("\tADD " + kw + " `" + column + "` (`", column, '\n');
    ContainsConcat("\tADD " + kw + " `" + column + "` (`" + column, "`)", '\n');
  }

  /** The clause of a column is the primary key exactly when the column is named
      after the table. */
  lemma PrimaryClauseIff(table: string, column: string)
    ensures StartsWith(IndexClause(table, column), "\tADD PRIMARY KEY") <==> column == table + "_id"
  {
    var c := IndexClause(table, column);
    if column != table + "_id" {
      assert c[5..8] == "KEY";
      assert c[5] != "\tADD PRIMARY KEY"[5];
    }
  }

  /** The intended index statement: none when there is no index column. */
  function IndexStatementIntended(table: string, columns: seq<string>): (r: Option<string>)
    ensures r.None? <==> columns == []
    ensures columns != [] ==> r.value == IndexStatement(table, columns).value
  {
    if columns == [] then None else Some(IndexStatement(table, columns).value)
  }
}
