/** The insert pass of `ConvertCommand::executeOne`: value rendering, value
    tuples, the `INSERT` preamble, and the greedy packing of tuples into commands
    under a byte budget. */
module Inserts {
  import opened Strings
  import opened Wrappers
  import opened Schema

  // ---------------------------------------------------------------------------
  // Values
  // ---------------------------------------------------------------------------

  /** `str_replace('"', '\\"', $v)`: every double quote gets a backslash. With
      `escapeBackslash`, every backslash is doubled as well, which the source does
      not do. */
  function Escape(v: string, escapeBackslash: bool): (r: string)
    ensures |r| == |v| + Count('"', v) + (if escapeBackslash then Count('\\', v) else 0)
  {
    if v == [] then [] else EscapeChar(v[0], escapeBackslash) + Escape(v[1..], escapeBackslash)
  }

  function EscapeChar(c: char, escapeBackslash: bool): (r: string) {
    if c == '"' then "\\\"" else if c == '\\' && escapeBackslash then "\\\\" else [c]
  }

  /** One rendered value: numeric columns pass the text through, with an empty
      value as `NULL`; every other column gets a double-quoted literal. */
  function RenderValue(ty: ColumnType, v: string, escapeBackslash: bool): (r: string)
    ensures IsNumeric(ty) && v == "" ==> r == "NULL"
    ensures IsNumeric(ty) && v != "" ==> r == v
    ensures !IsNumeric(ty) ==> && |r| == |v| + Count('"', v) + (if escapeBackslash then Count('\\', v) else 0) + 2
                               && r[0] == '"' && r[|r| - 1] == '"'
  {
    if IsNumeric(ty) then (if v == "" then "NULL" else v)
    else "\"" + Escape(v, escapeBackslash) + "\""
  }

  // ---------------------------------------------------------------------------
  // How MySQL reads a double-quoted literal (MySQL reference manual, section
  // "String Literals", with the default SQL mode: backslash escapes are on)
  // ---------------------------------------------------------------------------

  /** The text MySQL reads for the escape sequence `\c`. */
  function Unescape(c: char): (r: string) {
    match c
    case '0' => [0 as char]
    case 'b' => [8 as char]
    case 'n' => "\n"
    case 'r' => "\r"
    case 't' => "\t"
    case 'Z' => [26 as char]
    case '%' => "\\%"
    case '_' => "\\_"
    case _ => [c]
  }

  function Prepend(s: string, r: Option<string>): (res: Option<string>) {
    if r.Some? then Some(s + r.value) else None
  }

  /** Reads the rest of a literal after its opening quote; the closing quote must
      be the last character. `None` when the literal is not closed or text follows
      the closing quote. */
  function ReadQuoted(body: string): (r: Option<string>)
    decreases |body|
  {
    if body == [] then None
    else if body[0] == '"' then
      if |body| == 1 then Some("")
      else if body[1] == '"' then Prepend("\"", ReadQuoted(body[2..]))
      else None
    else if body[0] == '\\' then
      if |body| == 1 then None else Prepend(Unescape(body[1]), ReadQuoted(body[2..]))
    else Prepend([body[0]], ReadQuoted(body[1..]))
  }

  /** The string a whole double-quoted literal denotes, if it is one. */
  function ReadLiteral(s: string): (r: Option<string>) {
    if |s| > 0 && s[0] == '"' then ReadQuoted(s[1..]) else None
  }

  lemma {:induction false} ReadEscaped(v: string, escapeBackslash: bool)
    requires escapeBackslash || !Contains(v, '\\')
    ensures ReadQuoted(Escape(v, escapeBackslash) + "\"") == Some(v)
    decreases |v|
  {
    if v != [] {
      NoBackslashInTail(v, escapeBackslash);
      ReadEscaped(v[1..], escapeBackslash);
      var rest := Escape(v[1..], escapeBackslash) + "\"";
      assert Escape(v, escapeBackslash) + "\"" == EscapeChar(v[0], escapeBackslash) + rest;
      ReadOneEscaped(v[0], rest, escapeBackslash);
      assert [v[0]] + v[1..] == v;
    }
  }

  lemma NoBackslashInTail(v: string, escapeBackslash: bool)
    requires v != [] && (escapeBackslash || !Contains(v, '\\'))
    ensures escapeBackslash || (v[0] != '\\' && !Contains(v[1..], '\\'))
  {
    if !escapeBackslash {
      forall i | 0 <= i < |v[1..]| ensures v[1..][i] != '\\' { assert v[1..][i] == v[i + 1]; }
    }
  }

  /** One escaped character followed by a readable rest reads as the character
      followed by what the rest reads as. */
  lemma ReadOneEscaped(c: char, rest: string, escapeBackslash: bool)
    requires escapeBackslash || c != '\\'
    requires ReadQuoted(rest).Some?
    ensures ReadQuoted(EscapeChar(c, escapeBackslash) + rest) == Some([c] + ReadQuoted(rest).value)
  {
    if c == '"' {
      ReadPair('\\', '"', rest);
      assert Unescape('"') == [c];
    } else if c == '\\' {
      ReadPair('\\', '\\', rest);
      assert Unescape('\\') == [c];
    } else {
      ReadPlain(c, rest);
    }
  }

  lemma ReadPair(a: char, b: char, rest: string)
    requires a == '\\' && ReadQuoted(rest).Some?
    ensures ReadQuoted([a, b] + rest) == Some(Unescape(b) + ReadQuoted(rest).value)
  {
    assert ([a, b] + rest)[2..] == rest;
  }

  lemma ReadPlain(c: char, rest: string)
    requires c != '"' && c != '\\' && ReadQuoted(rest).Some?
    ensures ReadQuoted([c] + rest) == Some([c] + ReadQuoted(rest).value)
  {
    assert ([c] + rest)[1..] == rest;
  }

  /** A rendered text value reads back as the original value: always when
      backslashes are escaped, and otherwise as long as the value holds none. */
  lemma RenderValueReadsBack(ty: ColumnType, v: string, escapeBackslash: bool)
    requires !IsNumeric(ty) && (escapeBackslash || !Contains(v, '\\'))
    ensures ReadLiteral(RenderValue(ty, v, escapeBackslash)) == Some(v)
  {
    ReadEscaped(v, escapeBackslash);
    assert RenderValue(ty, v, escapeBackslash)[1..] == Escape(v, escapeBackslash) + "\"";
  }

  /** As written, a text value ending in a backslash yields a literal whose closing
      quote is escaped: MySQL reads no string from it. */
  lemma TrailingBackslashBreaksLiteral()
    ensures RenderValue(Text, "a\\", false) == "\"a\\\""
    ensures ReadLiteral(RenderValue(Text, "a\\", false)) == None
  {
    assert Escape("\\", false) == "\\";
    assert Escape("a\\", false) == "a\\";
    assert ReadQuoted("\\\"") == None;
    assert ReadQuoted("a\\\"") == None;
  }

  // ---------------------------------------------------------------------------
  // Tuples and the preamble
  // ---------------------------------------------------------------------------

  predicate Covers(entries: seq<SchemaEntry>, row: seq<string>) {
    forall k :: 0 <= k < |entries| ==> entries[k].index < |row|
  }

  /** The rendered values of a row, one per schema entry, read from the entry's
      field position. */
  function TupleValues(entries: seq<SchemaEntry>, row: seq<string>, escapeBackslash: bool): (vs: seq<string>)
    requires Covers(entries, row)
    ensures |vs| == |entries|
  {
    seq(|entries|, k requires 0 <= k < |entries| => RenderValue(entries[k].ty, row[entries[k].index], escapeBackslash))
  }

  /** `'(' . implode(',', $data) . ')'` */
  function Tuple(entries: seq<SchemaEntry>, row: seq<string>, escapeBackslash: bool): (t: string)
    requires Covers(entries, row)
  {
    "(" + Join(",", TupleValues(entries, row, escapeBackslash)) + ")"
  }

  /** Escaping only adds backslashes and keeps every other character's presence. */
  lemma {:induction false} EscapeKeepsOthers(v: string, escapeBackslash: bool, c: char)
    requires c != '"' && c != '\\'
    ensures Contains(Escape(v, escapeBackslash), c) <==> Contains(v, c)
    decreases |v|
  {
    if v != [] {
      EscapeKeepsOthers(v[1..], escapeBackslash, c);
      ContainsConcat(EscapeChar(v[0], escapeBackslash), Escape(v[1..], escapeBackslash), c);
      ContainsConcat([v[0]], v[1..], c);
      assert v == [v[0]] + v[1..];
    }
  }

  /** A rendered value holds a comma only when its field does. */
  lemma RenderValueComma(ty: ColumnType, v: string, escapeBackslash: bool)
    requires !Contains(v, ',')
    ensures !Contains(RenderValue(ty, v, escapeBackslash), ',')
  {
    if !IsNumeric(ty) {
      EscapeKeepsOthers(v, escapeBackslash, ',');
      ContainsConcat("\"" + Escape(v, escapeBackslash), "\"", ',');
      ContainsConcat("\"", Escape(v, escapeBackslash), ',');
    } else if v == "" {
      assert "NULL" == ['N', 'U', 'L', 'L'];
    }
  }

  /** A tuple of comma-free fields is read back by splitting between its
      parentheses at `,`: one rendered value per schema entry, in entry order. */
  lemma TupleSplitsIntoValues(entries: seq<SchemaEntry>, row: seq<string>, escapeBackslash: bool)
    requires Covers(entries, row) && |entries| > 0
    requires forall k :: 0 <= k < |entries| ==> !Contains(row[entries[k].index], ',')
    ensures var t := Tuple(entries, row, escapeBackslash);
            && |t| >= 2 && t[0] == '(' && t[|t| - 1] == ')'
            && Split(t[1..|t| - 1], ',') == TupleValues(entries, row, escapeBackslash)
  {
    var vs := TupleValues(entries, row, escapeBackslash);
    forall k | 0 <= k < |vs| ensures !Contains(vs[k], ',') {
      RenderValueComma(entries[k].ty, row[entries[k].index], escapeBackslash);
    }
    SplitJoin(vs, ',');
    var t := Tuple(entries, row, escapeBackslash);
    assert t[1..|t| - 1] == Join(",", vs);
  }

  /** A tuple is its values, a comma between each two, and the parentheses. */
  lemma TupleLength(entries: seq<SchemaEntry>, row: seq<string>, escapeBackslash: bool)
    requires Covers(entries, row) && |entries| > 0
    ensures |Tuple(entries, row, escapeBackslash)| == SumLengths(TupleValues(entries, row, escapeBackslash)) + |entries| + 1
  {
    JoinLength(",", TupleValues(entries, row, escapeBackslash));
  }

  function Names(entries: seq<SchemaEntry>): (ns: seq<string>)
    ensures |ns| == |entries|
  {
    seq(|entries|, k requires 0 <= k < |entries| => entries[k].name)
  }

  /** `$insert`: the command head naming every column of the map, in order. */
  function Preamble(table: string, entries: seq<SchemaEntry>): (p: string) {
    "INSERT INTO `" + table + "` (`" + Join("`, `", Names(entries)) + "`) VALUES \n"
  }

  /** The column list with its backquotes and spaces removed. */
  function Unquote(s: string): (r: string)
    ensures |r| <= |s|
  {
    if s == [] then [] else (if s[0] == '`' || s[0] == ' ' then "" else [s[0]]) + Unquote(s[1..])
  }

  lemma {:induction false} UnquoteConcat(a: string, b: string)
    ensures Unquote(a + b) == Unquote(a) + Unquote(b)
    decreases |a|
  {
    if a != [] {
      var x := if a[0] == '`' || a[0] == ' ' then "" else [a[0]];
      assert (a + b)[0] == a[0] && (a + b)[1..] == a[1..] + b;
      UnquoteConcat(a[1..], b);
      calc {
        Unquote(a + b);
        x + Unquote(a[1..] + b);
        x + (Unquote(a[1..]) + Unquote(b));
        (x + Unquote(a[1..])) + Unquote(b);
      }
    } else {
      assert a + b == b;
    }
  }

  lemma {:induction false} UnquoteIdentifier(s: string)
    requires IsIdentifier(s)
    ensures Unquote(s) == s
    decreases |s|
  {
    if s != [] {
      assert IsIdentifier(s[1..]) by {
        assert forall i :: 0 <= i < |s| - 1 ==> s[1..][i] == s[i + 1];
      }
      UnquoteIdentifier(s[1..]);
    }
  }

  /** Unquoting the backquoted list leaves the names joined by plain commas. */
  lemma {:induction false} UnquoteJoin(ns: seq<string>)
    requires forall k :: 0 <= k < |ns| ==> IsIdentifier(ns[k])
    ensures Unquote(Join("`, `", ns)) == Join(",", ns)
    decreases |ns|
  {
    if |ns| == 1 {
      UnquoteIdentifier(ns[0]);
    } else if |ns| > 1 {
      var rest := Join("`, `", ns[1..]);
      UnquoteJoin(ns[1..]);
      UnquoteConcat(ns[0] + "`, `", rest);
      UnquoteConcat(ns[0], "`, `");
      UnquoteIdentifier(ns[0]);
      assert Unquote("`, `") == ",";
    }
  }

  /** The preamble names the table and then lists the schema's names in order:
      with plain identifiers as names, the text between `(` and `) VALUES` reads
      back, once unquoted and split at `,`, as the names. */
  lemma PreambleListsNames(table: string, entries: seq<SchemaEntry>)
    requires forall k :: 0 <= k < |entries| ==> IsIdentifier(entries[k].name)
    ensures var p := Preamble(table, entries);
            var head := "INSERT INTO `" + table + "` (";
            var tail := ") VALUES \n";
            && |head| + |tail| <= |p|
            && p[..|head|] == head && p[|p| - |tail|..] == tail
            && (entries == [] ==> p[|head|..|p| - |tail|] == "``")
            && (entries != [] ==> Split(Unquote(p[|head|..|p| - |tail|]), ',') == Names(entries))
  {
    var ns := Names(entries);
    var head := "INSERT INTO `" + table + "` (";
    var tail := ") VALUES \n";
    var mid := "`" + Join("`, `", ns) + "`";
    var p := Preamble(table, entries);
    assert p == head + mid + tail;
    assert p[|head|..|p| - |tail|] == mid;
    if entries != [] {
      assert Unquote(mid) == Join(",", ns) by { UnquoteList(ns); }
      assert forall k :: 0 <= k < |ns| ==> !Contains(ns[k], ',') by { IdentifiersHaveNoComma(ns); }
      SplitJoin(ns, ',');
    }
  }

  lemma UnquoteList(ns: seq<string>)
    requires forall k :: 0 <= k < |ns| ==> IsIdentifier(ns[k])
    ensures Unquote("`" + Join("`, `", ns) + "`") == Join(",", ns)
  {
    var j := Join("`, `", ns);
    var q := "`";
    assert Unquote(q) == [];
    UnquoteJoin(ns);
    UnquoteConcat(q, j);
    assert Unquote(q + j) == Join(",", ns);
    UnquoteConcat(q + j, q);
  }

  lemma IdentifiersHaveNoComma(ns: seq<string>)
    requires forall k :: 0 <= k < |ns| ==> IsIdentifier(ns[k])
    ensures forall k :: 0 <= k < |ns| ==> !Contains(ns[k], ',')
  {
  }

  // ---------------------------------------------------------------------------
  // Packing tuples into commands
  // ---------------------------------------------------------------------------

  /** `$command` while it holds `group`: the preamble and the tuples, comma-separated. */
  function CommandText(preamble: string, group: seq<string>): (r: string) {
    preamble + Join(",", group)
  }

  /** A tuple short enough to go into a command of its own: `$maxValuesLength`. */
  predicate FitsAlone(preamble: string, max: int, d: string) {
    |d| <= max - |preamble|
  }

  /** The flush test at line 362, which leaves the separator out; `strict` adds
      the separator's byte when the command already holds a tuple. */
  predicate Overflows(preamble: string, max: int, strict: bool, group: seq<string>, d: string) {
    |d| + |CommandText(preamble, group)| + (if strict && group != [] then 1 else 0) > max
  }

  /** The bytes a command may exceed the budget by: the uncounted separator. */
  function Slack(strict: bool): (r: nat) { if strict then 0 else 1 }

  /** The outcome of the loop: the tuple groups of the commands emitted, and the
      position of the tuple that was too long, if the loop stopped at one. */
  datatype Packing = Packing(groups: seq<seq<string>>, oversized: Option<nat>)

  /** The loop from tuple `i` on, with the commands `flushed` so far and the open
      command holding `current`. */
  function PackFrom(preamble: string, max: int, strict: bool, tuples: seq<string>, i: nat,
                    flushed: seq<seq<string>>, current: seq<string>): (p: Packing)
    requires i <= |tuples|
    decreases |tuples| - i
  {
    if i == |tuples| then Packing(flushed + [current], None)
    else
      var d := tuples[i];
      if !FitsAlone(preamble, max, d) then Packing(flushed, Some(i))
      else if Overflows(preamble, max, strict, current, d) then
        PackFrom(preamble, max, strict, tuples, i + 1, flushed + [current], [d])
      else PackFrom(preamble, max, strict, tuples, i + 1, flushed, current + [d])
  }

  /** Lines 341-377 over the tuples `tuples` with budget `max` bytes. */
  function Pack(preamble: string, max: int, strict: bool, tuples: seq<string>): (r: Packing) {
    PackFrom(preamble, max, strict, tuples, 0, [], [])
  }

  /** The emitted commands, each closed with `";\n"`. */
  function Commands(preamble: string, groups: seq<seq<string>>): (cs: seq<string>)
    ensures |cs| == |groups|
    ensures forall k :: 0 <= k < |cs| ==> StartsWith(cs[k], preamble) && EndsWith(cs[k], ";\n")
  {
    seq(|groups|, k requires 0 <= k < |groups| => CommandText(preamble, groups[k]) + ";\n")
  }

  /** The groups concatenated in order. */
  function Flatten(groups: seq<seq<string>>): (r: seq<string>) {
    if groups == [] then [] else Flatten(groups[..|groups| - 1]) + groups[|groups| - 1]
  }

  /** The shape greedy packing leaves: every command but the last holds a tuple
      and was closed only because the next tuple would have overrun it; every
      command with a tuple is within the budget plus the slack. */
  predicate WellPacked(preamble: string, max: int, strict: bool, groups: seq<seq<string>>) {
    && (forall k :: 0 <= k < |groups| - 1 ==> ClosedFull(preamble, max, strict, groups, k))
    && (forall k :: 0 <= k < |groups| ==>
          groups[k] != [] ==> |CommandText(preamble, groups[k])| <= max + Slack(strict))
  }

  /** Command `k` holds a tuple and could not take the first tuple of command `k + 1`. */
  predicate ClosedFull(preamble: string, max: int, strict: bool, groups: seq<seq<string>>, k: nat)
    requires k + 1 < |groups|
  {
    groups[k] != [] && groups[k + 1] != [] && Overflows(preamble, max, strict, groups[k], groups[k + 1][0])
  }

  predicate PackInv(preamble: string, max: int, strict: bool, tuples: seq<string>, i: nat,
                    flushed: seq<seq<string>>, current: seq<string>)
    requires i <= |tuples|
  {
    && WellPacked(preamble, max, strict, flushed + [current])
    && (current == [] ==> flushed == [])
    && Flatten(flushed + [current]) == tuples[..i]
    && (forall j :: 0 <= j < i ==> FitsAlone(preamble, max, tuples[j]))
  }

  /** What the loop guarantees: without an oversized tuple every tuple lands in
      exactly one command, in order; the loop stops at the first tuple that cannot
      fit alone, having emitted only commands it had closed before; commands are
      greedily packed. */
  predicate PackSpec(preamble: string, max: int, strict: bool, tuples: seq<string>, r: Packing) {
    && WellPacked(preamble, max, strict, r.groups)
    && (r.oversized.None? <==> forall j :: 0 <= j < |tuples| ==> FitsAlone(preamble, max, tuples[j]))
    && (r.oversized.None? ==>
          && Flatten(r.groups) == tuples
          && |r.groups| > 0
          && (r.groups[|r.groups| - 1] == [] <==> tuples == []))
    && (r.oversized.Some? ==>
          && r.oversized.value < |tuples|
          && !FitsAlone(preamble, max, tuples[r.oversized.value])
          && (forall j :: 0 <= j < r.oversized.value ==> FitsAlone(preamble, max, tuples[j]))
          && |Flatten(r.groups)| <= r.oversized.value
          && Flatten(r.groups) == tuples[..|Flatten(r.groups)|]
          && (forall k :: 0 <= k < |r.groups| ==> r.groups[k] != []))
  }

  lemma {:induction false} PackFromSound(preamble: string, max: int, strict: bool, tuples: seq<string>, i: nat,
                                         flushed: seq<seq<string>>, current: seq<string>)
    requires i <= |tuples|
    requires PackInv(preamble, max, strict, tuples, i, flushed, current)
    ensures PackSpec(preamble, max, strict, tuples, PackFrom(preamble, max, strict, tuples, i, flushed, current))
    decreases |tuples| - i
  {
    if i == |tuples| {
      PackDone(preamble, max, strict, tuples, flushed, current);
    } else {
      var d := tuples[i];
      if !FitsAlone(preamble, max, d) {
        PackStops(preamble, max, strict, tuples, i, flushed, current);
      } else if Overflows(preamble, max, strict, current, d) {
        FlushStep(preamble, max, strict, tuples, i, flushed, current);
        PackFromSound(preamble, max, strict, tuples, i + 1, flushed + [current], [d]);
      } else {
        AppendStep(preamble, max, strict, tuples, i, flushed, current);
        PackFromSound(preamble, max, strict, tuples, i + 1, flushed, current + [d]);
      }
    }
  }

  lemma PackDone(preamble: string, max: int, strict: bool, tuples: seq<string>,
                 flushed: seq<seq<string>>, current: seq<string>)
    requires PackInv(preamble, max, strict, tuples, |tuples|, flushed, current)
    ensures PackSpec(preamble, max, strict, tuples, Packing(flushed + [current], None))
  {
    assert tuples[..|tuples|] == tuples;
    if current == [] {
      assert Flatten([current]) == [];
    } else {
      assert Flatten(flushed + [current]) == Flatten(flushed) + current;
    }
  }

  lemma PackStops(preamble: string, max: int, strict: bool, tuples: seq<string>, i: nat,
                  flushed: seq<seq<string>>, current: seq<string>)
    requires i < |tuples|
    requires PackInv(preamble, max, strict, tuples, i, flushed, current)
    requires !FitsAlone(preamble, max, tuples[i])
    ensures PackSpec(preamble, max, strict, tuples, Packing(flushed, Some(i)))
  {
    WellPackedPrefix(preamble, max, strict, flushed, current);
    assert Flatten(flushed + [current]) == Flatten(flushed) + current;
    assert tuples[..i][..|Flatten(flushed)|] == tuples[..|Flatten(flushed)|];
  }

  lemma WellPackedPrefix(preamble: string, max: int, strict: bool, flushed: seq<seq<string>>, current: seq<string>)
    requires WellPacked(preamble, max, strict, flushed + [current])
    ensures WellPacked(preamble, max, strict, flushed)
    ensures forall k :: 0 <= k < |flushed| ==> flushed[k] != []
  {
    var gs := flushed + [current];
    forall k | 0 <= k < |flushed| - 1 ensures ClosedFull(preamble, max, strict, flushed, k) {
      assert ClosedFull(preamble, max, strict, gs, k);
      assert flushed[k] == gs[k] && flushed[k + 1] == gs[k + 1];
    }
    forall k | 0 <= k < |flushed| ensures flushed[k] == gs[k] && flushed[k] != [] {
      if k + 1 < |gs| { assert ClosedFull(preamble, max, strict, gs, k); }
    }
  }

  lemma FlushStep(preamble: string, max: int, strict: bool, tuples: seq<string>, i: nat,
                  flushed: seq<seq<string>>, current: seq<string>)
    requires i < |tuples|
    requires PackInv(preamble, max, strict, tuples, i, flushed, current)
    requires FitsAlone(preamble, max, tuples[i]) && Overflows(preamble, max, strict, current, tuples[i])
    ensures PackInv(preamble, max, strict, tuples, i + 1, flushed + [current], [tuples[i]])
  {
    var d := tuples[i];
    var gs := flushed + [current];
    var gs' := gs + [[d]];
    assert current != [];
    assert Join(",", [d]) == d;
    assert |CommandText(preamble, [d])| <= max;
    forall k | 0 <= k < |gs'| - 1
      ensures ClosedFull(preamble, max, strict, gs', k)
    {
      if k < |gs| - 1 {
        assert ClosedFull(preamble, max, strict, gs, k);
        assert gs'[k] == gs[k] && gs'[k + 1] == gs[k + 1];
      } else {
        assert gs'[k] == current && gs'[k + 1] == [d];
      }
    }
    forall k | 0 <= k < |gs'| && gs'[k] != []
      ensures |CommandText(preamble, gs'[k])| <= max + Slack(strict)
    {
      if k < |gs| { assert gs'[k] == gs[k]; }
    }
    assert Flatten(gs') == Flatten(gs) + [d];
    assert tuples[..i + 1] == tuples[..i] + [d];
  }

  lemma AppendStep(preamble: string, max: int, strict: bool, tuples: seq<string>, i: nat,
                   flushed: seq<seq<string>>, current: seq<string>)
    requires i < |tuples|
    requires PackInv(preamble, max, strict, tuples, i, flushed, current)
    requires FitsAlone(preamble, max, tuples[i]) && !Overflows(preamble, max, strict, current, tuples[i])
    ensures PackInv(preamble, max, strict, tuples, i + 1, flushed, current + [tuples[i]])
  {
    var d := tuples[i];
    var gs := flushed + [current];
    var gs' := flushed + [current + [d]];
    if current == [] {
      assert current + [d] == [d];
      assert Join(",", [d]) == d;
    } else {
      JoinSnoc(",", current, d);
    }
    assert |CommandText(preamble, current + [d])| <= max + Slack(strict);
    forall k | 0 <= k < |gs'| - 1
      ensures ClosedFull(preamble, max, strict, gs', k)
    {
      assert ClosedFull(preamble, max, strict, gs, k);
      assert gs'[k] == gs[k];
      if k + 1 < |flushed| {
        assert gs'[k + 1] == gs[k + 1];
      } else {
        assert gs'[k + 1] == current + [d] && gs[k + 1] == current;
        assert (current + [d])[0] == current[0];
      }
    }
    forall k | 0 <= k < |gs'| && gs'[k] != []
      ensures |CommandText(preamble, gs'[k])| <= max + Slack(strict)
    {
      if k < |flushed| { assert gs'[k] == gs[k]; }
    }
    assert Flatten(gs') == Flatten(flushed) + (current + [d]);
    assert Flatten(gs) == Flatten(flushed) + current;
    assert tuples[..i + 1] == tuples[..i] + [d];
  }

  /** The batching loop: nothing is dropped, duplicated or split when every tuple
      fits; an oversized tuple stops it after the commands already flushed;
      commands are packed greedily and stay within the budget plus the slack. */
  lemma PackCorrect(preamble: string, max: int, strict: bool, tuples: seq<string>)
    ensures PackSpec(preamble, max, strict, tuples, Pack(preamble, max, strict, tuples))
  {
    assert Flatten([[]]) == [];
    PackFromSound(preamble, max, strict, tuples, 0, [], []);
  }

  /** With the separator left out of the test, a command can end up one byte over
      the budget. */
  lemma PackAsWrittenOverrunsBudget()
    ensures var r := Pack("P", 7, false, ["(1)", "(2)"]);
            && r == Packing([["(1)", "(2)"]], None)
            && |CommandText("P", r.groups[0])| == 7 + 1
  {
    var ts := ["(1)", "(2)"];
    assert Join(",", ["(1)"]) == "(1)";
    assert ["(1)", "(2)"][1..] == ["(2)"];
    assert Join(",", ["(1)", "(2)"]) == "(1),(2)";
    assert !Overflows("P", 7, false, [], "(1)");
    assert !Overflows("P", 7, false, ["(1)"], "(2)");
    assert [] + ["(1)"] == ["(1)"] && ["(1)"] + ["(2)"] == ts;
    calc {
      Pack("P", 7, false, ts);
      PackFrom("P", 7, false, ts, 1, [], ["(1)"]);
      PackFrom("P", 7, false, ts, 2, [], ts);
      Packing([ts], None);
    }
  }

  /** The INSERT output `commands` (with `oversized` the position of the tuple that
      stopped it, if any) carries `tuples` faithfully: the commands are the
      preamble followed by groups of tuples, each within the budget; with no
      oversized tuple the groups hold every tuple once, in order; otherwise they
      hold a prefix of the tuples before the oversized one. */
  ghost predicate Delivers(preamble: string, max: int, tuples: seq<string>, commands: seq<string>, oversized: Option<nat>) {
    exists groups ::
      && commands == Commands(preamble, groups)
      && (forall k :: 0 <= k < |groups| && groups[k] != [] ==> |CommandText(preamble, groups[k])| <= max)
      && (oversized.None? <==> forall j :: 0 <= j < |tuples| ==> FitsAlone(preamble, max, tuples[j]))
      && (oversized.None? ==> Flatten(groups) == tuples)
      && (oversized.Some? ==> oversized.value < |tuples| && |Flatten(groups)| <= oversized.value
                              && Flatten(groups) == tuples[..|Flatten(groups)|])
  }

  /** The corrected loop's output delivers its tuples. */
  lemma PackDelivers(preamble: string, max: int, tuples: seq<string>)
    ensures var r := Pack(preamble, max, true, tuples);
            Delivers(preamble, max, tuples, Commands(preamble, r.groups), r.oversized)
  {
    var r := Pack(preamble, max, true, tuples);
    PackCorrect(preamble, max, true, tuples);
    assert forall k :: 0 <= k < |r.groups| && r.groups[k] != [] ==> |CommandText(preamble, r.groups[k])| <= max;
  }

  /** Counting the separator keeps every command within the budget; on the same
      input the second tuple goes into a command of its own. */
  lemma PackStrictWithinBudget(preamble: string, max: int, tuples: seq<string>)
    ensures var r := Pack(preamble, max, true, tuples);
            forall k :: 0 <= k < |r.groups| && r.groups[k] != [] ==> |CommandText(preamble, r.groups[k])| <= max
  {
    PackCorrect(preamble, max, true, tuples);
  }

  lemma PackStrictSplitsExample()
    ensures Pack("P", 7, true, ["(1)", "(2)"]) == Packing([["(1)"], ["(2)"]], None)
  {
    var ts := ["(1)", "(2)"];
    assert Join(",", ["(1)"]) == "(1)";
    assert !Overflows("P", 7, true, [], "(1)");
    assert Overflows("P", 7, true, ["(1)"], "(2)");
    assert [] + ["(1)"] == ["(1)"];
    calc {
      Pack("P", 7, true, ts);
      PackFrom("P", 7, true, ts, 1, [], ["(1)"]);
      PackFrom("P", 7, true, ts, 2, [["(1)"]], ["(2)"]);
      Packing([["(1)"], ["(2)"]], None);
    }
  }
}
