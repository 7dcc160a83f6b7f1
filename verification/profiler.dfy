/** The column profiler of `ConvertCommand::executeOne`: the header row builds one
    profile per retained column, then every data row with the header's field count
    narrows each column's candidate tags and widens its length statistics. */
module Profiler {
  import opened Strings
  import opened Wrappers
  import opened TypeTests

  /** One entry of the source's `$columns` array. */
  datatype ColumnProfile = ColumnProfile(
    index: nat,            // field position in the row
    name: string,          // sanitised header
    tests: seq<Tag>,       // surviving candidate tags
    maxLength: nat,        // longest value in bytes (`strlen`)
    maxMbLength: nat,      // longest value in characters (`mb_strlen`)
    maxInt: int,           // `maxint`
    empty: bool)           // no non-empty value seen yet

  /** Header values that produce no column (the source's `$skipHeaders`). */
  predicate Skipped(header: string) { header == "^" || header == "" }

  /** `mb_strlen` of a UTF-8 byte string: the bytes that are not continuation
      bytes (0x80 to 0xBF). */
  function MbLength(v: string): (n: nat)
    ensures n <= |v|
  {
    if v == [] then 0
    else (if 0x80 <= v[0] as int <= 0xBF then 0 else 1) + MbLength(v[1..])
  }

  function Max(a: int, b: int): (r: int) { if a < b then b else a }

  function NewColumn(index: nat, header: string): (c: ColumnProfile) {
    ColumnProfile(index, Sanitize(header, false), Precedence, 0, 0, 0, true)
  }

  /** Every column name is a plain identifier: the header field sanitised. */
  lemma ColumnNamesAreIdentifiers(records: seq<seq<string>>)
    ensures forall k :: 0 <= k < |Profile(records)| ==> IsIdentifier(Profile(records)[k].name)
  {
    if records != [] {
      var header := records[0];
      ColumnsOfHeader(header);
      forall k | 0 <= k < |Profile(records)| ensures IsIdentifier(Profile(records)[k].name) {
        var idx := Columns(header)[k].index;
        SanitizeShape(header[idx], false);
      }
    }
  }

  /** The positions of the header fields that get a column, in field order: the
      fields outside the skip set. The duplicate-name test at line 133 compares a
      name with an array of column records and never succeeds, so repeated names
      are all retained. */
  function Retained(header: seq<string>, i: nat): (ix: seq<nat>)
    requires i <= |header|
    ensures forall k :: 0 <= k < |ix| ==> i <= ix[k] < |header| && !Skipped(header[ix[k]])
    ensures forall k, l :: 0 <= k < l < |ix| ==> ix[k] < ix[l]
    decreases |header| - i
  {
    if i == |header| then []
    else if Skipped(header[i]) then Retained(header, i + 1)
    else [i] + Retained(header, i + 1)
  }

  /** Every header field outside the skip set is retained. */
  lemma {:induction false} RetainedCovers(header: seq<string>, i: nat, j: nat)
    requires i <= j < |header| && !Skipped(header[j])
    ensures j in Retained(header, i)
    decreases |header| - i
  {
    if i < j {
      RetainedCovers(header, i + 1, j);
    }
  }

  /** The profiles built from the header row, in field order. */
  function Columns(header: seq<string>): (cols: seq<ColumnProfile>)
    ensures |cols| == |Retained(header, 0)|
    ensures forall k :: 0 <= k < |cols| ==> cols[k].index == Retained(header, 0)[k]
  {
    var ix := Retained(header, 0);
    seq(|ix|, k requires 0 <= k < |ix| => NewColumn(ix[k], header[ix[k]]))
  }

  /** The header row yields one fresh profile per field outside the skip set, in
      field order, named after the sanitised header. */
  lemma ColumnsOfHeader(header: seq<string>)
    ensures forall k :: 0 <= k < |Columns(header)| ==>
              && Columns(header)[k].index < |header|
              && !Skipped(header[Columns(header)[k].index])
              && Columns(header)[k] == NewColumn(Columns(header)[k].index, header[Columns(header)[k].index])
    ensures forall k, l :: 0 <= k < l < |Columns(header)| ==> Columns(header)[k].index < Columns(header)[l].index
    ensures forall j :: 0 <= j < |header| && !Skipped(header[j]) ==>
              exists k :: 0 <= k < |Columns(header)| && Columns(header)[k].index == j
  {
    var ix := Retained(header, 0);
    forall j | 0 <= j < |header| && !Skipped(header[j])
      ensures exists k :: 0 <= k < |Columns(header)| && Columns(header)[k].index == j
    {
      RetainedCovers(header, 0, j);
      var k :| 0 <= k < |ix| && ix[k] == j;
      assert Columns(header)[k].index == j;
    }
  }

  // ---------------------------------------------------------------------------
  // One value
  // ---------------------------------------------------------------------------

  /** The tags of `ts` whose test `v` passes, in their order (`array_diff` of the
      failing ones). */
  function Keep(ts: seq<Tag>, v: string): (r: seq<Tag>)
    ensures forall t :: t in r <==> t in ts && Matches(t, v)
    ensures |r| <= |ts|
    ensures Ordered(ts) ==> Ordered(r)
  {
    if ts == [] then []
    else
      var rest := Keep(ts[1..], v);
      assert Ordered(ts) ==> Ordered([ts[0]] + rest) by {
        if Ordered(ts) { ConsOrdered(ts, rest); }
      }
      if Matches(ts[0], v) then [ts[0]] + rest else rest
  }

  /** Putting the head of an ordered list before an ordered selection from its
      tail keeps the order. */
  lemma ConsOrdered(ts: seq<Tag>, rest: seq<Tag>)
    requires |ts| > 0 && Ordered(ts) && Ordered(rest)
    requires forall t :: t in rest ==> t in ts[1..]
    ensures Ordered([ts[0]] + rest)
  {
    forall t | t in rest ensures Rank(ts[0]) < Rank(t) {
      var j :| 0 <= j < |ts[1..]| && ts[1..][j] == t;
      assert ts[j + 1] == t;
    }
    var r := [ts[0]] + rest;
    forall i, j | 0 <= i < j < |r| ensures Rank(r[i]) < Rank(r[j]) {
      assert r[j] == rest[j - 1] && rest[j - 1] in rest;
      if i > 0 { assert r[i] == rest[i - 1]; }
    }
  }

  /** The candidate list after the value `v`: an empty value tests nothing. */
  function Narrow(ts: seq<Tag>, v: string): (r: seq<Tag>) {
    if v == "" then ts else Keep(ts, v)
  }

  /** The value of the leftover loop variable `$test_type` after the tests of one
      column ran on a non-empty value: the last tag of the list as it stood before
      this value, or, when that list is empty, whatever an earlier loop left. */
  function LastTested(tests: seq<Tag>, lastTested: Option<Tag>): (r: Option<Tag>) {
    if |tests| > 0 then Some(tests[|tests| - 1]) else lastTested
  }

  /** Profiles one field value of a counted row; returns the updated column and
      the updated `$test_type`. */
  function ProfileCell(c: ColumnProfile, v: string, lastTested: Option<Tag>): (r: (ColumnProfile, Option<Tag>))
    ensures r.0.index == c.index && r.0.name == c.name
    ensures v == "" ==> r == (c, lastTested)
    ensures r.0.empty == (c.empty && v == "")
    ensures forall t :: t in r.0.tests <==> t in c.tests && (v == "" || Matches(t, v))
    ensures Ordered(c.tests) ==> Ordered(r.0.tests)
    ensures r.0.maxLength >= c.maxLength && r.0.maxMbLength >= c.maxMbLength && r.0.maxInt >= c.maxInt
    ensures v != "" ==> r.0.maxLength >= |v| && r.0.maxMbLength >= MbLength(v)
    ensures r.0.maxLength in {c.maxLength, |v|} && r.0.maxMbLength in {c.maxMbLength, MbLength(v)}
    ensures r.0.maxInt != c.maxInt ==> Matches(SignedInt, v) && r.0.maxInt == IntValue(v)
    ensures MaxIntStep(c, r.0, v)
  {
    if v == "" then (c, lastTested)
    else
      var last := LastTested(c.tests, lastTested);
      var grows := last.Some? && IsIntTag(last.value) && Matches(SignedInt, v);
      var c' := c.(
        tests := Keep(c.tests, v),
        empty := false,
        maxInt := if grows then Max(c.maxInt, IntValue(v)) else c.maxInt,
        maxLength := Max(c.maxLength, |v|),
        maxMbLength := Max(c.maxMbLength, MbLength(v)));
      (c', last)
  }

  /** How `maxint` may move on one value: it stays, or it becomes the value's
      integer when the candidate list before the value was empty or ended in an
      integer tag. */
  predicate MaxIntStep(c: ColumnProfile, c': ColumnProfile, v: string) {
    c'.maxInt == c.maxInt
      || (v != "" && Matches(SignedInt, v) && c'.maxInt == IntValue(v) && c'.maxInt > c.maxInt
          && (c.tests == [] || IsIntTag(c.tests[|c.tests| - 1])))
  }

  /** When the candidate list before a value ends in an integer tag and the column
      keeps at least one tag, the value is an integer and `maxInt` becomes the
      larger of the two: the `maxint` update never stores a non-integer for a
      column that is still typed. */
  lemma MaxIntOnlyFromIntegers(c: ColumnProfile, v: string, lastTested: Option<Tag>)
    requires Ordered(c.tests) && |c.tests| > 0 && IsIntTag(c.tests[|c.tests| - 1])
    requires v != ""
    requires |ProfileCell(c, v, lastTested).0.tests| > 0
    ensures Matches(SignedInt, v)
    ensures ProfileCell(c, v, lastTested).0.maxInt == Max(c.maxInt, IntValue(v))
  {
    var r := ProfileCell(c, v, lastTested).0;
    var t := r.tests[0];
    assert t in c.tests && Matches(t, v);
    var j :| 0 <= j < |c.tests| && c.tests[j] == t;
    assert Rank(t) <= 1 by {
      if j < |c.tests| - 1 {
        assert Rank(c.tests[j]) < Rank(c.tests[|c.tests| - 1]);
      }
    }
    assert IsIntTag(t);
    ShapeLattice(v);
  }

  // ---------------------------------------------------------------------------
  // One row
  // ---------------------------------------------------------------------------

  /** The length statistic after `v`: an empty value is skipped. */
  function Longest(m: nat, n: nat, v: string): (r: nat) {
    if v == "" then m else Max(m, n)
  }

  /** Every field index of `cols` exists in `row`. */
  predicate Fits(cols: seq<ColumnProfile>, row: seq<string>) {
    forall k :: 0 <= k < |cols| ==> cols[k].index < |row|
  }

  /** Profiles one counted row, column by column in field order, threading the
      leftover `$test_type` from each column to the next. */
  function ProfileRow(cols: seq<ColumnProfile>, row: seq<string>, lastTested: Option<Tag>): (r: (seq<ColumnProfile>, Option<Tag>))
    requires Fits(cols, row)
    ensures |r.0| == |cols|
    ensures forall k :: 0 <= k < |cols| ==>
              var v := row[cols[k].index];
              && r.0[k].index == cols[k].index
              && r.0[k].name == cols[k].name
              && r.0[k].tests == Narrow(cols[k].tests, v)
              && r.0[k].empty == (cols[k].empty && v == "")
              && r.0[k].maxLength == Longest(cols[k].maxLength, |v|, v)
              && r.0[k].maxMbLength == Longest(cols[k].maxMbLength, MbLength(v), v)
              && r.0[k].maxInt >= cols[k].maxInt
              && MaxIntStep(cols[k], r.0[k], v)
  {
    if cols == [] then ([], lastTested)
    else
      var first := ProfileCell(cols[0], row[cols[0].index], lastTested);
      var rest := ProfileRow(cols[1..], row, first.1);
      assert forall k :: 1 <= k < |cols| ==> cols[1..][k - 1] == cols[k];
      ([first.0] + rest.0, rest.1)
  }

  // ---------------------------------------------------------------------------
  // The scan
  // ---------------------------------------------------------------------------

  /** The profiler's state between rows: the columns and `$test_type`. */
  datatype ScanState = ScanState(columns: seq<ColumnProfile>, lastTested: Option<Tag>)

  /** A row is counted when it has as many fields as the header. */
  predicate Counted(width: nat, row: seq<string>) { |row| == width }

  /** Processes the data rows in order, skipping rows with the wrong field count. */
  function Scan(width: nat, init: seq<ColumnProfile>, rows: seq<seq<string>>): (s: ScanState)
    requires forall k :: 0 <= k < |init| ==> init[k].index < width
    ensures |s.columns| == |init|
    ensures forall k :: 0 <= k < |init| ==>
              s.columns[k].index == init[k].index && s.columns[k].name == init[k].name
    decreases |rows|
  {
    if rows == [] then ScanState(init, None)
    else
      var prev := Scan(width, init, rows[..|rows| - 1]);
      var row := rows[|rows| - 1];
      if !Counted(width, row) then prev
      else
        var next := ProfileRow(prev.columns, row, prev.lastTested);
        ScanState(next.0, next.1)
  }

  /** The profiles of a whole file: the first record is the header, the rest are
      data rows. A file without records has no columns. */
  function Profile(records: seq<seq<string>>): (cols: seq<ColumnProfile>)
    ensures |records| == 0 ==> cols == []
    ensures |records| > 0 ==> |cols| == |Columns(records[0])|
    ensures |records| > 0 ==> forall k :: 0 <= k < |cols| ==>
              cols[k].index < |records[0]| && cols[k].name == Columns(records[0])[k].name
  {
    if records == [] then []
    else Scan(|records[0]|, Columns(records[0]), records[1..]).columns
  }

  // ---------------------------------------------------------------------------
  // Reference definitions: what a finished profile says about the column's values
  // ---------------------------------------------------------------------------

  /** The rows the profiler counts, in order. */
  function CountedRows(width: nat, rows: seq<seq<string>>): (r: seq<seq<string>>)
    ensures forall i :: 0 <= i < |r| ==> Counted(width, r[i])
    ensures |r| <= |rows|
  {
    if rows == [] then []
    else
      var prev := CountedRows(width, rows[..|rows| - 1]);
      var row := rows[|rows| - 1];
      if Counted(width, row) then prev + [row] else prev
  }

  /** The non-empty values of field `idx` over the counted rows, in row order. */
  function ColumnValues(width: nat, rows: seq<seq<string>>, idx: nat): (vals: seq<string>)
    requires idx < width
    ensures forall i :: 0 <= i < |vals| ==> vals[i] != ""
  {
    if rows == [] then []
    else
      var prev := ColumnValues(width, rows[..|rows| - 1], idx);
      var row := rows[|rows| - 1];
      if Counted(width, row) && row[idx] != "" then prev + [row[idx]] else prev
  }

  /** A non-empty field of a counted row is one of its column's values. */
  lemma {:induction false} CountedCellIsValue(width: nat, rows: seq<seq<string>>, idx: nat, i: nat)
    requires idx < width && i < |CountedRows(width, rows)|
    requires CountedRows(width, rows)[i][idx] != ""
    ensures CountedRows(width, rows)[i][idx] in ColumnValues(width, rows, idx)
    decreases |rows|
  {
    var prev := rows[..|rows| - 1];
    if i < |CountedRows(width, prev)| {
      CountedCellIsValue(width, prev, idx, i);
    }
  }

  /** Tag `t` passes on every value. */
  predicate AllMatch(t: Tag, vals: seq<string>) {
    forall i :: 0 <= i < |vals| ==> Matches(t, vals[i])
  }

  /** The tags of `ts` that every value passes, in their order. */
  function Survivors(ts: seq<Tag>, vals: seq<string>): (r: seq<Tag>)
    ensures forall t :: t in r <==> t in ts && AllMatch(t, vals)
    ensures Ordered(ts) ==> Ordered(r)
  {
    if ts == [] then []
    else
      var rest := Survivors(ts[1..], vals);
      assert Ordered(ts) ==> Ordered([ts[0]] + rest) by {
        if Ordered(ts) { ConsOrdered(ts, rest); }
      }
      if AllMatch(ts[0], vals) then [ts[0]] + rest else rest
  }

  /** The largest of `m` and the numbers `ns`. */
  function MaxOf(m: nat, ns: seq<nat>): (r: nat)
    ensures r >= m
    ensures forall i :: 0 <= i < |ns| ==> ns[i] <= r
    ensures r == m || exists i :: 0 <= i < |ns| && ns[i] == r
  {
    if ns == [] then m
    else
      var prev := MaxOf(m, ns[..|ns| - 1]);
      assert forall i :: 0 <= i < |ns| - 1 ==> ns[..|ns| - 1][i] == ns[i];
      if prev < ns[|ns| - 1] then ns[|ns| - 1] else prev
  }

  /** `strlen` of each value. */
  function ByteLengths(vals: seq<string>): (ns: seq<nat>)
    ensures |ns| == |vals| && forall i :: 0 <= i < |vals| ==> ns[i] == |vals[i]|
  {
    seq(|vals|, i requires 0 <= i < |vals| => |vals[i]|)
  }

  /** `mb_strlen` of each value. */
  function MbLengths(vals: seq<string>): (ns: seq<nat>)
    ensures |ns| == |vals| && forall i :: 0 <= i < |vals| ==> ns[i] == MbLength(vals[i])
  {
    seq(|vals|, i requires 0 <= i < |vals| => MbLength(vals[i]))
  }

  lemma {:induction false} KeepSurvivors(ts: seq<Tag>, vals: seq<string>, v: string)
    ensures Keep(Survivors(ts, vals), v) == Survivors(ts, vals + [v])
    decreases |ts|
  {
    if ts != [] {
      KeepSurvivors(ts[1..], vals, v);
      assert AllMatch(ts[0], vals + [v]) == (AllMatch(ts[0], vals) && Matches(ts[0], v)) by {
        assert forall i :: 0 <= i < |vals| ==> (vals + [v])[i] == vals[i];
        assert (vals + [v])[|vals|] == v;
      }
    }
  }

  /** What the scan computes for column `k`, stated against the column's non-empty
      values alone: the candidate list is the initial list filtered to the tags
      every value passes, the column is empty iff there are no values, and the
      lengths are the maxima over the values. */
  lemma {:induction false} ScanCharacterised(width: nat, init: seq<ColumnProfile>, rows: seq<seq<string>>, k: nat)
    requires forall j :: 0 <= j < |init| ==> init[j].index < width
    requires k < |init|
    ensures var c := Scan(width, init, rows).columns[k];
            var vals := ColumnValues(width, rows, init[k].index);
            && c.tests == Survivors(init[k].tests, vals)
            && c.empty == (init[k].empty && |vals| == 0)
            && c.maxLength == MaxOf(init[k].maxLength, ByteLengths(vals))
            && c.maxMbLength == MaxOf(init[k].maxMbLength, MbLengths(vals))
            && c.maxInt >= init[k].maxInt
    decreases |rows|
  {
    var idx := init[k].index;
    if rows == [] {
      SurvivorsOfNothing(init[k].tests);
    } else {
      var prefix := rows[..|rows| - 1];
      var row := rows[|rows| - 1];
      ScanCharacterised(width, init, prefix, k);
      var vals := ColumnValues(width, prefix, idx);
      var before := Scan(width, init, prefix).columns[k];
      var after := Scan(width, init, rows).columns[k];
      if Counted(width, row) {
        var v := row[idx];
        assert after.tests == Narrow(before.tests, v);
        assert after.empty == (before.empty && v == "");
        assert after.maxLength == Longest(before.maxLength, |v|, v);
        assert after.maxMbLength == Longest(before.maxMbLength, MbLength(v), v);
        if v != "" {
          assert ColumnValues(width, rows, idx) == vals + [v];
          KeepSurvivors(init[k].tests, vals, v);
          LengthsSnoc(vals, v);
          MaxOfSnoc(init[k].maxLength, ByteLengths(vals), |v|);
          MaxOfSnoc(init[k].maxMbLength, MbLengths(vals), MbLength(v));
        }
      }
    }
  }

  lemma LengthsSnoc(vals: seq<string>, v: string)
    ensures ByteLengths(vals + [v]) == ByteLengths(vals) + [|v|]
    ensures MbLengths(vals + [v]) == MbLengths(vals) + [MbLength(v)]
  {
    ByteLengthsSnoc(vals, v);
    MbLengthsSnoc(vals, v);
  }

  lemma ByteLengthsSnoc(vals: seq<string>, v: string)
    ensures ByteLengths(vals + [v]) == ByteLengths(vals) + [|v|]
  {
    var a, b := ByteLengths(vals + [v]), ByteLengths(vals) + [|v|];
    assert forall i :: 0 <= i < |vals| ==> (vals + [v])[i] == vals[i];
    assert a[|vals|] == b[|vals|];
  }

  lemma MbLengthsSnoc(vals: seq<string>, v: string)
    ensures MbLengths(vals + [v]) == MbLengths(vals) + [MbLength(v)]
  {
    var a, b := MbLengths(vals + [v]), MbLengths(vals) + [MbLength(v)];
    assert forall i :: 0 <= i < |vals| ==> (vals + [v])[i] == vals[i];
    assert a[|vals|] == b[|vals|];
  }

  lemma MaxOfSnoc(m: nat, ns: seq<nat>, x: nat)
    ensures MaxOf(m, ns + [x]) == Max(MaxOf(m, ns), x)
  {
    assert (ns + [x])[..|ns|] == ns;
  }

  lemma {:induction false} SurvivorsOfNothing(ts: seq<Tag>)
    ensures Survivors(ts, []) == ts
    decreases |ts|
  {
    if ts != [] {
      SurvivorsOfNothing(ts[1..]);
    }
  }

  /** The finished profile of a retained header column, stated against its values:
      the candidate tags are exactly the tags, in precedence order, that every
      non-empty value of a counted row passes; `empty` holds iff there is no such
      value; the two lengths are the maxima over those values. */
  lemma ProfileCharacterised(records: seq<seq<string>>, k: nat)
    requires |records| > 0 && k < |Profile(records)|
    ensures var c := Profile(records)[k];
            var header := records[0];
            var vals := ColumnValues(|header|, records[1..], c.index);
            && c.index == Columns(header)[k].index && c.name == Columns(header)[k].name
            && c.index < |header|
            && c.tests == Survivors(Precedence, vals)
            && Ordered(c.tests)
            && c.empty == (|vals| == 0)
            && (forall i :: 0 <= i < |vals| ==> |vals[i]| <= c.maxLength && MbLength(vals[i]) <= c.maxMbLength)
            && (c.maxLength == 0 || exists i :: 0 <= i < |vals| && |vals[i]| == c.maxLength)
            && c.maxMbLength <= c.maxLength
            && c.maxInt >= 0
  {
    var header := records[0];
    var init := Columns(header);
    var rows := records[1..];
    var c := Profile(records)[k];
    assert c == Scan(|header|, init, rows).columns[k];
    InitialColumn(header, k);
    ScanCharacterised(|header|, init, rows, k);
    var vals := ColumnValues(|header|, rows, c.index);
    PrecedenceOrdered();
    var lengths := ByteLengths(vals);
    var mbs := MbLengths(vals);
    assert c.maxLength == MaxOf(0, lengths);
    assert c.maxMbLength == MaxOf(0, mbs);
    if c.maxMbLength > 0 {
      var i :| 0 <= i < |mbs| && mbs[i] == c.maxMbLength;
      assert mbs[i] <= lengths[i];
    }
  }

  /** A column starts with every tag, no values and zero statistics. */
  lemma InitialColumn(header: seq<string>, k: nat)
    requires k < |Columns(header)|
    ensures var c := Columns(header)[k];
            && c.index < |header|
            && c.tests == Precedence && c.empty
            && c.maxLength == 0 && c.maxMbLength == 0 && c.maxInt == 0
  {
  }

  /** Monotone narrowing: later rows only remove candidate tags. Every tag that
      survives all rows survived every prefix of them, and a tag missing after a
      prefix stays missing. */
  lemma ScanNarrows(records: seq<seq<string>>, j: nat, k: nat)
    requires |records| > 0 && k < |Profile(records)| && 1 <= j <= |records|
    ensures |Profile(records[..j])| == |Profile(records)|
    ensures forall t :: t in Profile(records)[k].tests ==> t in Profile(records[..j])[k].tests
  {
    assert |Profile(records[..j])| == |Profile(records)| by { PrefixTests(records, j, k); }
    assert forall t :: t in Profile(records)[k].tests ==> t in Profile(records[..j])[k].tests by {
      var rows := records[1..];
      var idx := Columns(records[0])[k].index;
      var all := ColumnValues(|records[0]|, rows, idx);
      var some := ColumnValues(|records[0]|, rows[..j - 1], idx);
      ProfileTests(records, k);
      PrefixTests(records, j, k);
      ColumnValuesPrefix(|records[0]|, rows, j - 1, idx);
      SurvivorsAntitone(Precedence, some, all);
    }
  }

  /** The candidate tags of a column after the first `j` records are the tags
      every value of its first `j - 1` data rows passes. */
  lemma PrefixTests(records: seq<seq<string>>, j: nat, k: nat)
    requires |records| > 0 && k < |Profile(records)| && 1 <= j <= |records|
    ensures |Profile(records[..j])| == |Profile(records)|
    ensures Profile(records[..j])[k].tests ==
            Survivors(Precedence, ColumnValues(|records[0]|, records[1..][..j - 1], Columns(records[0])[k].index))
  {
    var prefix := records[..j];
    assert prefix[0] == records[0] && prefix[1..] == records[1..][..j - 1];
    ProfileTests(prefix, k);
  }

  /** The candidate tags of a column are the tags every counted value passes. */
  lemma ProfileTests(records: seq<seq<string>>, k: nat)
    requires |records| > 0 && k < |Profile(records)|
    ensures var idx := Columns(records[0])[k].index;
            && idx < |records[0]|
            && Profile(records)[k].tests == Survivors(Precedence, ColumnValues(|records[0]|, records[1..], idx))
  {
    var header := records[0];
    InitialColumn(header, k);
    ScanCharacterised(|header|, Columns(header), records[1..], k);
  }

  /** More values leave fewer survivors. */
  lemma SurvivorsAntitone(ts: seq<Tag>, some: seq<string>, all: seq<string>)
    requires |some| <= |all| && all[..|some|] == some
    ensures forall t :: t in Survivors(ts, all) ==> t in Survivors(ts, some)
  {
    forall t | t in Survivors(ts, all)
      ensures t in Survivors(ts, some)
    {
      assert forall i :: 0 <= i < |some| ==> some[i] == all[i];
    }
  }

  /** The values of a prefix of the rows are a prefix of the values of all rows. */
  lemma {:induction false} ColumnValuesPrefix(width: nat, rows: seq<seq<string>>, j: nat, idx: nat)
    requires idx < width && j <= |rows|
    ensures var some := ColumnValues(width, rows[..j], idx);
            var all := ColumnValues(width, rows, idx);
            |some| <= |all| && all[..|some|] == some
    decreases |rows|
  {
    if j < |rows| {
      var prefix := rows[..|rows| - 1];
      assert prefix[..j] == rows[..j];
      ColumnValuesPrefix(width, prefix, j, idx);
    } else {
      assert rows[..j] == rows;
    }
  }

  /** Rows with the wrong field count do not matter: profiling only the counted
      rows, the rows the insert pass re-reads, gives the same state. */
  lemma {:induction false} ScanIgnoresUncountedRows(width: nat, init: seq<ColumnProfile>, rows: seq<seq<string>>)
    requires forall k :: 0 <= k < |init| ==> init[k].index < width
    ensures Scan(width, init, CountedRows(width, rows)) == Scan(width, init, rows)
    decreases |rows|
  {
    if rows != [] {
      var prefix := rows[..|rows| - 1];
      var row := rows[|rows| - 1];
      ScanIgnoresUncountedRows(width, init, prefix);
      var counted := CountedRows(width, prefix);
      if Counted(width, row) {
        assert (counted + [row])[..|counted|] == counted;
      }
    }
  }

  /** The candidate list depends only on which values occurred, not on their order
      or repetition: two row sets with the same values in a column give the same
      tags. */
  lemma SurvivorsDependOnValueSet(ts: seq<Tag>, vals1: seq<string>, vals2: seq<string>)
    requires forall v :: v in vals1 <==> v in vals2
    ensures Survivors(ts, vals1) == Survivors(ts, vals2)
  {
    forall t ensures AllMatch(t, vals1) == AllMatch(t, vals2) {
      if AllMatch(t, vals1) {
        forall i | 0 <= i < |vals2| ensures Matches(t, vals2[i]) {
          assert vals2[i] in vals1;
        }
      }
      if AllMatch(t, vals2) {
        forall i | 0 <= i < |vals1| ensures Matches(t, vals1[i]) {
          assert vals1[i] in vals2;
        }
      }
    }
    SurvivorsExtensional(ts, vals1, vals2);
  }

  lemma {:induction false} SurvivorsExtensional(ts: seq<Tag>, vals1: seq<string>, vals2: seq<string>)
    requires forall t :: AllMatch(t, vals1) == AllMatch(t, vals2)
    ensures Survivors(ts, vals1) == Survivors(ts, vals2)
    decreases |ts|
  {
    if ts != [] {
      SurvivorsExtensional(ts[1..], vals1, vals2);
    }
  }

  /** While `float` stays a candidate, `maxint` never moves: the leftover
      `$test_type` is then the last candidate, which ranks at or after `float`
      and so is no integer tag. */
  lemma {:induction false} ScanKeepsMaxIntWhileFloatSurvives(width: nat, init: seq<ColumnProfile>, rows: seq<seq<string>>, k: nat)
    requires forall j :: 0 <= j < |init| ==> init[j].index < width
    requires k < |init| && Ordered(init[k].tests)
    requires Float in Scan(width, init, rows).columns[k].tests
    ensures Scan(width, init, rows).columns[k].maxInt == init[k].maxInt
    decreases |rows|
  {
    if rows != [] {
      var prefix := rows[..|rows| - 1];
      var row := rows[|rows| - 1];
      var before := Scan(width, init, prefix).columns[k];
      var after := Scan(width, init, rows).columns[k];
      if Counted(width, row) {
        var v := row[before.index];
        assert after.tests == Narrow(before.tests, v) && MaxIntStep(before, after, v);
        assert Float in before.tests;
        assert Ordered(before.tests) by { ScanCharacterised(width, init, prefix, k); }
        ScanKeepsMaxIntWhileFloatSurvives(width, init, prefix, k);
        FloatBlocksMaxInt(before, after, v);
      } else {
        ScanKeepsMaxIntWhileFloatSurvives(width, init, prefix, k);
      }
    }
  }

  /** With `float` among a column's ordered candidates, the last candidate is no
      integer tag, so a cell leaves `maxint` alone. */
  lemma FloatBlocksMaxInt(before: ColumnProfile, after: ColumnProfile, v: string)
    requires Ordered(before.tests) && Float in before.tests && MaxIntStep(before, after, v)
    ensures after.maxInt == before.maxInt
  {
    var n := |before.tests|;
    var j :| 0 <= j < n && before.tests[j] == Float;
    assert Rank(before.tests[n - 1]) >= Rank(Float) by {
      if j < n - 1 { assert Rank(before.tests[j]) < Rank(before.tests[n - 1]); }
    }
  }

  /** `maxint` is either its starting value or the integer of one of the column's
      values. */
  lemma {:induction false} ScanMaxIntFromValues(width: nat, init: seq<ColumnProfile>, rows: seq<seq<string>>, k: nat)
    requires forall j :: 0 <= j < |init| ==> init[j].index < width
    requires k < |init|
    ensures var c := Scan(width, init, rows).columns[k];
            var vals := ColumnValues(width, rows, init[k].index);
            c.maxInt == init[k].maxInt || exists i :: 0 <= i < |vals| && IntValue(vals[i]) == c.maxInt
    decreases |rows|
  {
    if rows != [] {
      var idx := init[k].index;
      var prefix := rows[..|rows| - 1];
      var row := rows[|rows| - 1];
      var before := Scan(width, init, prefix).columns[k];
      var after := Scan(width, init, rows).columns[k];
      var vals := ColumnValues(width, prefix, idx);
      ScanMaxIntFromValues(width, init, prefix, k);
      if Counted(width, row) && row[idx] != "" {
        var v := row[idx];
        assert ColumnValues(width, rows, idx) == vals + [v];
        assert MaxIntStep(before, after, v);
        if after.maxInt != before.maxInt {
          assert (vals + [v])[|vals|] == v;
        } else if before.maxInt != init[k].maxInt {
          var i :| 0 <= i < |vals| && IntValue(vals[i]) == before.maxInt;
          assert (vals + [v])[i] == vals[i];
        }
      } else {
        assert ColumnValues(width, rows, idx) == vals;
      }
    }
  }
}
