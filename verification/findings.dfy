/** Two defects of the integer-width rule of `ConvertCommand::executeOne`, stated
    against the profile the source computes. The corrected rule is
    `Schema.FittingWidth`, proved sound in `Convert.ConvertIntendedIntegersFit`. */
module Findings {
  import opened Strings
  import opened TypeTests
  import opened Profiler
  import opened Schema
  import opened Convert

  /** An unsigned integer column always becomes `TINYINT UNSIGNED`: its values
      also pass the float test, so the leftover `$test_type` is never an integer
      tag when `maxint` is examined, and `maxint` stays 0. Every value above 255
      is then out of the declared type's range. */
  lemma UnsignedColumnStaysTiny(records: seq<seq<string>>, k: nat)
    requires k < |Profile(records)|
    requires ResolveType(Profile(records)[k].tests) == Typed(UnsignedInt)
    ensures var c := Profile(records)[k];
            && c.maxInt == 0
            && Definition(c).base == "TINYINT UNSIGNED"
            && forall i :: 0 <= i < |ValuesOf(records, k)| && IntValue(ValuesOf(records, k)[i]) > 255 ==>
                 !Holds(UnsignedWidth(c.maxInt), false, IntValue(ValuesOf(records, k)[i]))
  {
    UnsignedMaxIntStaysZero(records, k);
    UnsignedTinyBase(Profile(records)[k]);
  }

  lemma UnsignedMaxIntStaysZero(records: seq<seq<string>>, k: nat)
    requires k < |Profile(records)|
    requires ResolveType(Profile(records)[k].tests) == Typed(UnsignedInt)
    ensures Profile(records)[k].maxInt == 0
  {
    UnsignedKeepsFloat(records, k);
    FloatKeepsMaxInt(records, k);
  }

  /** The values of an unsigned column all pass the float test too. */
  lemma UnsignedKeepsFloat(records: seq<seq<string>>, k: nat)
    requires k < |Profile(records)|
    requires ResolveType(Profile(records)[k].tests) == Typed(UnsignedInt)
    ensures Float in Profile(records)[k].tests
  {
    var vals := ValuesOf(records, k);
    assert Profile(records)[k].tests == Survivors(Precedence, vals) by { ProfileCharacterised(records, k); }
    assert AllMatch(UnsignedInt, vals) by { ResolvedIsFirstPassingTag(vals); }
    forall i | 0 <= i < |vals| ensures Matches(Float, vals[i]) {
      ShapeLattice(vals[i]);
    }
    assert Float in Precedence;
  }

  lemma FloatKeepsMaxInt(records: seq<seq<string>>, k: nat)
    requires k < |Profile(records)|
    requires Float in Profile(records)[k].tests
    ensures Profile(records)[k].maxInt == 0
  {
    var header := records[0];
    InitialColumn(header, k);
    PrecedenceOrdered();
    ScanKeepsMaxIntWhileFloatSurvives(|header|, Columns(header), records[1..], k);
  }

  lemma UnsignedTinyBase(c: ColumnProfile)
    requires ResolveType(c.tests) == Typed(UnsignedInt) && c.maxInt == 0
    ensures Definition(c).base == "TINYINT UNSIGNED"
  {
    assert IntBase(TinyInt, false) == "TINYINT UNSIGNED";
  }

  /** A signed integer column's width comes from `maxint`, which is at least 0
      and at most the column's greatest value: the negative values play no part.
      When no value is positive the column becomes `TINYINT SIGNED`, and every
      value below -128 is out of its range. */
  lemma SignedColumnIgnoresNegatives(records: seq<seq<string>>, k: nat)
    requires k < |Profile(records)|
    requires ResolveType(Profile(records)[k].tests) == Typed(SignedInt)
    ensures var c := Profile(records)[k];
            var vals := ValuesOf(records, k);
            && 0 <= c.maxInt <= GreatestInt(vals)
            && ((forall i :: 0 <= i < |vals| ==> IntValue(vals[i]) <= 0) ==>
                  && Definition(c).base == "TINYINT SIGNED"
                  && forall i :: 0 <= i < |vals| && IntValue(vals[i]) < -128 ==>
                       !Holds(SignedWidth(c.maxInt), true, IntValue(vals[i])))
  {
    var header := records[0];
    var c := Profile(records)[k];
    var vals := ValuesOf(records, k);
    assert c.maxInt >= 0 by { ProfileCharacterised(records, k); }
    assert c.maxInt <= GreatestInt(vals) by {
      InitialColumn(header, k);
      ScanMaxIntFromValues(|header|, Columns(header), records[1..], k);
    }
    if forall i :: 0 <= i < |vals| ==> IntValue(vals[i]) <= 0 {
      assert c.maxInt == 0;
      SignedTinyBase(c);
    }
  }

  lemma SignedTinyBase(c: ColumnProfile)
    requires ResolveType(c.tests) == Typed(SignedInt) && c.maxInt == 0
    ensures Definition(c).base == "TINYINT SIGNED"
  {
    assert IntBase(TinyInt, true) == "TINYINT SIGNED";
  }

  /** The file `n` / `1000`: a one-column table whose only value is 1000 gets the
      type `TINYINT UNSIGNED`, which stores at most 255. */
  lemma UnsignedExample()
    ensures var records := [["n"], ["1000"]];
            && ResolveType(Profile(records)[0].tests) == Typed(UnsignedInt)
            && Definition(Profile(records)[0]).base == "TINYINT UNSIGNED"
            && ValuesOf(records, 0) == ["1000"]
            && IntValue("1000") == 1000
  {
    var records := [["n"], ["1000"]];
    OneColumn(records);
    var vals := ValuesOf(records, 0);
    assert vals == ["1000"];
    Thousand();
    assert AllMatch(UnsignedInt, vals);
    assert Profile(records)[0].tests == Survivors(Precedence, vals) by { ProfileCharacterised(records, 0); }
    assert ResolveType(Profile(records)[0].tests) == Typed(UnsignedInt) by { ResolvedIsFirstPassingTag(vals); }
    UnsignedColumnStaysTiny(records, 0);
  }

  /** The file `n` / `-1000`: a one-column table whose only value is -1000 gets
      the type `TINYINT SIGNED`, which stores nothing below -128. */
  lemma SignedExample()
    ensures var records := [["n"], ["-1000"]];
            && ResolveType(Profile(records)[0].tests) == Typed(SignedInt)
            && Definition(Profile(records)[0]).base == "TINYINT SIGNED"
            && ValuesOf(records, 0) == ["-1000"]
            && IntValue("-1000") == -1000
  {
    var records := [["n"], ["-1000"]];
    OneColumn(records);
    NegativeColumnIsSigned(records);
    NegativeColumnIsTiny(records);
    Thousand();
  }

  lemma NegativeColumnIsTiny(records: seq<seq<string>>)
    requires |Profile(records)| == 1 && ValuesOf(records, 0) == ["-1000"]
    requires ResolveType(Profile(records)[0].tests) == Typed(SignedInt)
    ensures Definition(Profile(records)[0]).base == "TINYINT SIGNED"
  {
    var vals := ValuesOf(records, 0);
    assert forall i :: 0 <= i < |vals| ==> IntValue(vals[i]) <= 0 by {
      Thousand();
      assert vals[0] == "-1000";
    }
    SignedColumnIgnoresNegatives(records, 0);
  }

  lemma NegativeColumnIsSigned(records: seq<seq<string>>)
    requires |records| == 2 && records[0] == ["n"] && records[1] == ["-1000"]
    requires |Profile(records)| == 1 && ValuesOf(records, 0) == ["-1000"]
    ensures ResolveType(Profile(records)[0].tests) == Typed(SignedInt)
  {
    var vals := ValuesOf(records, 0);
    Thousand();
    assert AllMatch(SignedInt, vals);
    assert !AllMatch(UnsignedInt, vals) by { assert vals[0] == "-1000"; }
    assert Profile(records)[0].tests == Survivors(Precedence, vals) by { ProfileCharacterised(records, 0); }
    ResolvedIsFirstPassingTag(vals);
  }

  /** A file of a header `n` and one data row of one field has one column,
      holding that field. */
  lemma OneColumn(records: seq<seq<string>>)
    requires |records| == 2 && records[0] == ["n"] && |records[1]| == 1 && records[1][0] != ""
    ensures |Profile(records)| == 1
    ensures ValuesOf(records, 0) == [records[1][0]]
  {
    assert Retained(["n"], 1) == [];
    assert Retained(["n"], 0) == [0];
    assert Columns(["n"])[0].index == 0;
    assert Profile(records)[0].index == 0;
    assert records[1..] == [records[1]];
    assert [records[1]][..0] == [];
    assert ColumnValues(1, [records[1]], 0) == [] + [records[1][0]];
  }

  /** How the tests and PHP read `1000` and `-1000`. */
  lemma Thousand()
    ensures Matches(UnsignedInt, "1000") && IntValue("1000") == 1000
    ensures Matches(SignedInt, "-1000") && !Matches(UnsignedInt, "-1000") && IntValue("-1000") == -1000
  {
    assert "1000"[..3] == "100" && "100"[..2] == "10" && "10"[..1] == "1";
    assert DigitsValue("1000") == 1000;
    assert "-1000"[1..] == "1000";
    assert !IsDigit("-1000"[0]);
  }
}
