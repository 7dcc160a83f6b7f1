/** The schema resolver of `ConvertCommand::executeOne`: one MySQL column definition
    per profiled column, the ordered `$schemaCols` map, and the `*_id` index list. */
module Schema {
  import opened Strings
  import opened TypeTests
  import opened Profiler

  /** The resolved type of a column: the first surviving tag, or text. */
  datatype ColumnType = Text | Typed(tag: Tag)

  /** `array_shift` of the surviving tags, or `'text'` when none survive. */
  function ResolveType(tests: seq<Tag>): (r: ColumnType) {
    if |tests| > 0 then Typed(tests[0]) else Text
  }

  /** Type precedence: over a column's values, the resolved type is the tag of
      least rank that every value passes, and text exactly when no tag does. */
  lemma ResolvedIsFirstPassingTag(vals: seq<string>)
    ensures var ty := ResolveType(Survivors(Precedence, vals));
            && (ty == Text <==> forall t :: !AllMatch(t, vals))
            && (ty.Typed? ==> AllMatch(ty.tag, vals))
            && (ty.Typed? ==> forall t :: Rank(t) < Rank(ty.tag) ==> !AllMatch(t, vals))
  {
    var s := Survivors(Precedence, vals);
    PrecedenceOrdered();
    if |s| > 0 {
      assert s[0] in s;
    } else {
      forall t ensures !AllMatch(t, vals) {
        assert t in Precedence by { assert Precedence[Rank(t)] == t; }
      }
    }
  }

  /** The resolved type depends only on which values a column holds, not on the
      order in which rows eliminated tags. */
  lemma ResolutionIgnoresRowOrder(vals1: seq<string>, vals2: seq<string>)
    requires forall v :: v in vals1 <==> v in vals2
    ensures ResolveType(Survivors(Precedence, vals1)) == ResolveType(Survivors(Precedence, vals2))
  {
    SurvivorsDependOnValueSet(Precedence, vals1, vals2);
  }

  // ---------------------------------------------------------------------------
  // MySQL integer widths (MySQL reference manual, section "Integer Types")
  // ---------------------------------------------------------------------------

  datatype IntWidth = TinyInt | Int10 | BigInt

  function WidthRank(w: IntWidth): (r: nat) {
    match w
    case TinyInt => 0
    case Int10 => 1
    case BigInt => 2
  }

  function WidthName(w: IntWidth): (r: string) {
    match w
    case TinyInt => "TINYINT"
    case Int10 => "INT(10)"
    case BigInt => "BIGINT"
  }

  function UnsignedMax(w: IntWidth): (r: int) {
    match w
    case TinyInt => 255
    case Int10 => 4294967295
    case BigInt => 18446744073709551615
  }

  function SignedMin(w: IntWidth): (r: int) {
    match w
    case TinyInt => -128
    case Int10 => -2147483648
    case BigInt => -9223372036854775808
  }

  function SignedMax(w: IntWidth): (r: int) {
    match w
    case TinyInt => 127
    case Int10 => 2147483647
    case BigInt => 9223372036854775807
  }

  predicate InSignedRange(m: int, w: IntWidth) { SignedMin(w) <= m <= SignedMax(w) }

  /** The unsigned width for largest value `m`: the narrowest MySQL unsigned type
      that holds `m`, or `BIGINT` when none does. */
  function UnsignedWidth(m: int): (w: IntWidth)
    ensures m <= UnsignedMax(w) || w == BigInt
    ensures forall w' :: WidthRank(w') < WidthRank(w) ==> m > UnsignedMax(w')
  {
    if m <= 255 then TinyInt
    else if m <= 4294967295 then Int10
    else BigInt
  }

  /** The signed width for `m`: the narrowest MySQL signed type whose range holds
      `m`, or `BIGINT` when none does. */
  function SignedWidth(m: int): (w: IntWidth)
    ensures InSignedRange(m, w) || w == BigInt
    ensures forall w' :: WidthRank(w') < WidthRank(w) ==> !InSignedRange(m, w')
  {
    if -128 <= m <= 127 then TinyInt
    else if -2147483648 <= m <= 2147483647 then Int10
    else BigInt
  }

  function IntBase(w: IntWidth, signed: bool): (r: string) {
    WidthName(w) + (if signed then " SIGNED" else " UNSIGNED")
  }

  /** `x` lies in the range of the integer type of width `w`. */
  predicate Holds(w: IntWidth, signed: bool, x: int) {
    if signed then InSignedRange(x, w) else 0 <= x <= UnsignedMax(w)
  }

  /** The least of 0 and the numbers `xs`. */
  function Least(xs: seq<int>): (lo: int)
    ensures lo <= 0 && forall i :: 0 <= i < |xs| ==> lo <= xs[i]
    ensures lo == 0 || exists i :: 0 <= i < |xs| && xs[i] == lo
  {
    if xs == [] then 0
    else
      var rest := Least(xs[..|xs| - 1]);
      assert forall i :: 0 <= i < |xs| - 1 ==> xs[..|xs| - 1][i] == xs[i];
      if xs[|xs| - 1] < rest then xs[|xs| - 1] else rest
  }

  /** The greatest of 0 and the numbers `xs`. */
  function Greatest(xs: seq<int>): (hi: int)
    ensures hi >= 0 && forall i :: 0 <= i < |xs| ==> xs[i] <= hi
    ensures hi == 0 || exists i :: 0 <= i < |xs| && xs[i] == hi
  {
    if xs == [] then 0
    else
      var rest := Greatest(xs[..|xs| - 1]);
      assert forall i :: 0 <= i < |xs| - 1 ==> xs[..|xs| - 1][i] == xs[i];
      if xs[|xs| - 1] > rest then xs[|xs| - 1] else rest
  }

  function IntValues(vals: seq<string>): (xs: seq<int>)
    ensures |xs| == |vals| && forall i :: 0 <= i < |vals| ==> xs[i] == IntValue(vals[i])
  {
    seq(|vals|, i requires 0 <= i < |vals| => IntValue(vals[i]))
  }

  /** The least of 0 and the values' integers. */
  function LeastInt(vals: seq<string>): (lo: int)
    ensures lo <= 0 && forall i :: 0 <= i < |vals| ==> lo <= IntValue(vals[i])
    ensures lo == 0 || exists i :: 0 <= i < |vals| && IntValue(vals[i]) == lo
  {
    Least(IntValues(vals))
  }

  /** The greatest of 0 and the values' integers. */
  function GreatestInt(vals: seq<string>): (hi: int)
    ensures hi >= 0 && forall i :: 0 <= i < |vals| ==> IntValue(vals[i]) <= hi
    ensures hi == 0 || exists i :: 0 <= i < |vals| && IntValue(vals[i]) == hi
  {
    Greatest(IntValues(vals))
  }

  function Wider(a: IntWidth, b: IntWidth): (r: IntWidth) {
    if WidthRank(a) < WidthRank(b) then b else a
  }

  /** The corrected integer width: chosen from the least and the greatest value
      of the column rather than from `maxint` alone. */
  function FittingWidth(signed: bool, vals: seq<string>): (r: IntWidth) {
    if signed then Wider(SignedWidth(LeastInt(vals)), SignedWidth(GreatestInt(vals)))
    else UnsignedWidth(GreatestInt(vals))
  }

  /** The corrected width holds every value of the column (short of BIGINT's own
      limits), and every narrower width misses one of them. */
  lemma FittingWidthHoldsEveryValue(signed: bool, vals: seq<string>)
    requires !signed ==> forall i :: 0 <= i < |vals| ==> IntValue(vals[i]) >= 0
    ensures var w := FittingWidth(signed, vals);
            && (w == BigInt || forall i :: 0 <= i < |vals| ==> Holds(w, signed, IntValue(vals[i])))
            && (forall w' :: WidthRank(w') < WidthRank(w) ==> exists i :: 0 <= i < |vals| && !Holds(w', signed, IntValue(vals[i])))
  {
    var lo := LeastInt(vals);
    var hi := GreatestInt(vals);
    var w := FittingWidth(signed, vals);
    forall w' | WidthRank(w') < WidthRank(w)
      ensures exists i :: 0 <= i < |vals| && !Holds(w', signed, IntValue(vals[i]))
    {
      if signed && WidthRank(w') < WidthRank(SignedWidth(lo)) {
        assert !InSignedRange(lo, w');
        var i :| 0 <= i < |vals| && IntValue(vals[i]) == lo;
      } else {
        assert !Holds(w', signed, hi);
        var i :| 0 <= i < |vals| && IntValue(vals[i]) == hi;
      }
    }
  }

  // ---------------------------------------------------------------------------
  // Text widths
  // ---------------------------------------------------------------------------

  datatype TextKind = MediumText | PlainText | Varchar(length: nat)

  /** `(int) (1.10 * $m)`: the longest value in characters plus 10% slack, rounded
      down. The double product rounds to the same integer for every `m` that
      reaches it (at most 255). */
  function VarcharLength(m: nat): (n: nat)
    ensures m <= n && 10 * n <= 11 * m < 10 * n + 10
  {
    (11 * m) / 10
  }

  /** The text type for a column whose longest value has `maxLength` bytes and
      `maxMbLength` characters. */
  function TextWidth(maxLength: nat, maxMbLength: nat): (k: TextKind)
    ensures k == MediumText <==> maxLength > 65535
    ensures k == PlainText <==> 255 < maxLength <= 65535
    ensures k.Varchar? <==> maxLength <= 255
    ensures k.Varchar? ==> maxMbLength <= k.length && 10 * k.length <= 11 * maxMbLength
  {
    if maxLength > 65535 then MediumText
    else if maxLength > 255 then PlainText
    else Varchar(VarcharLength(maxMbLength))
  }

  /** What each text type can store: bytes for the TEXT family, characters for
      VARCHAR (MySQL reference manual, "String Type Storage Requirements"). */
  predicate TextHolds(k: TextKind, bytes: nat, chars: nat) {
    match k
    case MediumText => bytes <= 16777215
    case PlainText => bytes <= 65535
    case Varchar(n) => chars <= n
  }

  /** The text type chosen can hold the longest value, up to MEDIUMTEXT's limit. */
  lemma TextWidthHoldsLongest(maxLength: nat, maxMbLength: nat)
    requires maxLength <= 16777215
    ensures TextHolds(TextWidth(maxLength, maxMbLength), maxLength, maxMbLength)
  {
  }

  function TextBase(k: TextKind): (r: string) {
    match k
    case MediumText => "MEDIUMTEXT"
    case PlainText => "TEXT"
    case Varchar(n) => "VARCHAR(" + NatToString(n) + ")"
  }

  // ---------------------------------------------------------------------------
  // Column definitions
  // ---------------------------------------------------------------------------

  datatype Nullability = Nullable | NotNull | NotNullDefault(default: string)

  /** A column definition: the SQL type, the null clause and the primary-key flag. */
  datatype ColumnDef = ColumnDef(base: string, nullability: Nullability, primaryKey: bool)

  /** `strtolower($name) === 'id'` */
  predicate IsIdName(name: string) { Lower(name) == "id" }

  predicate IsNumeric(ty: ColumnType) {
    ty == Typed(UnsignedInt) || ty == Typed(SignedInt) || ty == Typed(Float)
  }

  function BaseType(ty: ColumnType, p: ColumnProfile): (r: string) {
    match ty
    case Text => TextBase(TextWidth(p.maxLength, p.maxMbLength))
    case Typed(UnsignedInt) => IntBase(UnsignedWidth(p.maxInt), false)
    case Typed(SignedInt) => IntBase(SignedWidth(p.maxInt), true)
    case Typed(Float) => "DECIMAL(12,4)"
    case Typed(Date) => "DATE"
    case Typed(DateTime) => "TIMESTAMP"
  }

  function NullabilityOf(ty: ColumnType, empty: bool): (r: Nullability) {
    match ty
    case Text => NotNull
    case Typed(Date) => Nullable
    case Typed(DateTime) => if empty then Nullable else NotNullDefault("CURRENT_TIMESTAMP")
    case Typed(_) => if empty then Nullable else NotNullDefault("0")
  }

  /** The definition the resolver gives a finished profile. */
  function Definition(p: ColumnProfile): (r: ColumnDef) {
    var ty := ResolveType(p.tests);
    ColumnDef(BaseType(ty, p), NullabilityOf(ty, p.empty), IsIdName(p.name))
  }

  /** The corrected definition of a column whose values are `vals`: an integer
      column takes the width that holds all of them. */
  function IntendedDefinition(p: ColumnProfile, vals: seq<string>): (r: ColumnDef) {
    var d := Definition(p);
    match ResolveType(p.tests)
    case Typed(UnsignedInt) => d.(base := IntBase(FittingWidth(false, vals), false))
    case Typed(SignedInt) => d.(base := IntBase(FittingWidth(true, vals), true))
    case _ => d
  }

  /** The null clause and key rules: text is always NOT NULL; the number types get
      a zero default and the datetime type the current timestamp exactly when the
      column had a value; a date is always nullable; only a column named `id`, in
      any letter case, is the primary key. */
  lemma DefinitionRules(p: ColumnProfile)
    ensures var ty := ResolveType(p.tests);
            var d := Definition(p);
            && (ty == Text ==> d.nullability == NotNull)
            && (IsNumeric(ty) ==> (d.nullability == NotNullDefault("0") <==> !p.empty))
            && (ty == Typed(DateTime) ==> (d.nullability == NotNullDefault("CURRENT_TIMESTAMP") <==> !p.empty))
            && (ty == Typed(Date) ==> d.nullability == Nullable)
            && (d.nullability == Nullable <==> ty == Typed(Date) || (ty != Text && p.empty))
            && (d.primaryKey <==> p.name in {"id", "Id", "iD", "ID"})
  {
    var n := p.name;
    if Lower(n) == "id" {
      assert |n| == 2 && LowerAscii(n[0]) == 'i' && LowerAscii(n[1]) == 'd';
      assert n[0] == 'i' || n[0] == 'I';
      assert n[1] == 'd' || n[1] == 'D';
      assert n == [n[0], n[1]];
    }
    if n in {"id", "Id", "iD", "ID"} {
      assert |n| == 2 && Lower(n) == [LowerAscii(n[0]), LowerAscii(n[1])];
    }
  }

  /** The suffix a null clause adds to the definition text. */
  function NullClause(n: Nullability): (r: string) {
    match n
    case Nullable => ""
    case NotNull => " NOT NULL"
    case NotNullDefault(x) => " NOT NULL DEFAULT " + x
  }

  /** The definition text stored in `$schemaCols`. */
  function RenderDef(d: ColumnDef): (r: string) {
    d.base + NullClause(d.nullability) + (if d.primaryKey then " PRIMARY KEY" else "")
  }

  /** A definition renders as a single line, as written and corrected. */
  lemma DefinitionIsOneLine(p: ColumnProfile, vals: seq<string>)
    ensures !Contains(RenderDef(Definition(p)), '\n')
    ensures !Contains(RenderDef(IntendedDefinition(p, vals)), '\n')
  {
    var ty := ResolveType(p.tests);
    var d := Definition(p);
    var d' := IntendedDefinition(p, vals);
    match ty {
      case Text =>
        TextBaseIsOneLine(TextWidth(p.maxLength, p.maxMbLength));
      case Typed(UnsignedInt) =>
        IntBaseIsOneLine(UnsignedWidth(p.maxInt), false);
        IntBaseIsOneLine(FittingWidth(false, vals), false);
      case Typed(SignedInt) =>
        IntBaseIsOneLine(SignedWidth(p.maxInt), true);
        IntBaseIsOneLine(FittingWidth(true, vals), true);
      case _ =>
    }
    RenderDefIsOneLine(d);
    RenderDefIsOneLine(d');
  }

  lemma IntBaseIsOneLine(w: IntWidth, signed: bool)
    ensures !Contains(IntBase(w, signed), '\n')
  {
    ContainsConcat(WidthName(w), if signed then " SIGNED" else " UNSIGNED", '\n');
  }

  lemma TextBaseIsOneLine(k: TextKind)
    ensures !Contains(TextBase(k), '\n')
  {
    if k.Varchar? {
      var n := NatToString(k.length);
      assert !Contains(n, '\n') by { assert forall i :: 0 <= i < |n| ==> IsDigit(n[i]); }
      ContainsConcat("VARCHAR(", n, '\n');
      ContainsConcat("VARCHAR(" + n, ")", '\n');
    }
  }

  lemma RenderDefIsOneLine(d: ColumnDef)
    requires !Contains(d.base, '\n')
    requires d.nullability.NotNullDefault? ==> d.nullability.default in {"0", "CURRENT_TIMESTAMP"}
    ensures !Contains(RenderDef(d), '\n')
  {
    var nc := NullClause(d.nullability);
    assert !Contains(nc, '\n') by { NullClauseIsOneLine(d.nullability); }
    var pk := if d.primaryKey then " PRIMARY KEY" else "";
    assert !Contains(pk, '\n') by { assert forall i :: 0 <= i < |pk| ==> pk[i] != '\n'; }
    ContainsConcat(d.base, nc, '\n');
    ContainsConcat(d.base + nc, pk, '\n');
  }

  lemma NullClauseIsOneLine(n: Nullability)
    requires n.NotNullDefault? ==> n.default in {"0", "CURRENT_TIMESTAMP"}
    ensures !Contains(NullClause(n), '\n')
  {
    var c := NullClause(n);
    match n
    case Nullable =>
    case NotNull =>
      assert forall i :: 0 <= i < |c| ==> c[i] != '\n';
    case NotNullDefault(x) =>
      var h := " NOT NULL DEFAULT ";
      assert !Contains(h, '\n') by { assert forall i :: 0 <= i < |h| ==> h[i] != '\n'; }
      assert !Contains(x, '\n') by { assert forall i :: 0 <= i < |x| ==> x[i] != '\n'; }
      ContainsConcat(h, x, '\n');
  }

  // ---------------------------------------------------------------------------
  // `$schemaCols`: an ordered map from column name to definition
  // ---------------------------------------------------------------------------

  /** One `$schemaCols` entry, with the field position and resolved type the
      insert pass needs. */
  datatype SchemaEntry = SchemaEntry(name: string, def: ColumnDef, ty: ColumnType, index: nat)

  function Entry(p: ColumnProfile): (r: SchemaEntry) {
    SchemaEntry(p.name, Definition(p), ResolveType(p.tests), p.index)
  }

  function IntendedEntry(p: ColumnProfile, vals: seq<string>): (r: SchemaEntry) {
    Entry(p).(def := IntendedDefinition(p, vals))
  }

  predicate DistinctNames(m: seq<SchemaEntry>) {
    forall i, j :: 0 <= i < j < |m| ==> m[i].name != m[j].name
  }

  /** Position of the first entry named `name`, or `|m|`. */
  function Find(m: seq<SchemaEntry>, name: string): (i: nat)
    ensures i <= |m|
    ensures i < |m| ==> m[i].name == name
    ensures forall j :: 0 <= j < i ==> m[j].name != name
  {
    if m == [] then 0 else if m[0].name == name then 0 else 1 + Find(m[1..], name)
  }

  /** `$schemaCols[$name] = $def`: a new name goes at the end; an existing one
      keeps its position and takes the new value. */
  function Put(m: seq<SchemaEntry>, e: SchemaEntry): (r: seq<SchemaEntry>)
    requires DistinctNames(m)
    ensures DistinctNames(r)
  {
    var i := Find(m, e.name);
    if i < |m| then m[i := e] else m + [e]
  }

  /** The entries the resolver loop assigns, one per column, in column order. */
  function Entries(cols: seq<ColumnProfile>): (es: seq<SchemaEntry>)
    ensures |es| == |cols|
  {
    seq(|cols|, k requires 0 <= k < |cols| => Entry(cols[k]))
  }

  /** `$schemaCols` after the resolver loop assigned the entries `es` in order. */
  function SchemaOf(es: seq<SchemaEntry>): (m: seq<SchemaEntry>)
    ensures DistinctNames(m)
  {
    if es == [] then [] else Put(SchemaOf(es[..|es| - 1]), es[|es| - 1])
  }

  /** Position of the last column named `name`, or `|es|`. */
  function LastNamed(es: seq<SchemaEntry>, name: string): (i: nat)
    ensures i <= |es|
    ensures i < |es| ==> es[i].name == name && forall j :: i < j < |es| ==> es[j].name != name
    ensures i == |es| ==> forall j :: 0 <= j < |es| ==> es[j].name != name
  {
    if es == [] then 0
    else if es[|es| - 1].name == name then |es| - 1
    else
      var i := LastNamed(es[..|es| - 1], name);
      if i == |es| - 1 then |es| else i
  }

  /** Every map entry holds the definition of the last column with its name. */
  lemma {:induction false} SchemaOfLastWins(es: seq<SchemaEntry>)
    ensures forall i :: 0 <= i < |SchemaOf(es)| ==>
              LastNamed(es, SchemaOf(es)[i].name) < |es| &&
              SchemaOf(es)[i] == es[LastNamed(es, SchemaOf(es)[i].name)]
    decreases |es|
  {
    if es != [] {
      var n := |es| - 1;
      var prev := es[..n];
      var c := es[n];
      SchemaOfLastWins(prev);
      var pm := SchemaOf(prev);
      var m := SchemaOf(es);
      var k := Find(pm, c.name);
      assert m == (if k < |pm| then pm[k := c] else pm + [c]);
      forall i | 0 <= i < |m|
        ensures LastNamed(es, m[i].name) < |es| && m[i] == es[LastNamed(es, m[i].name)]
      {
        if m[i].name == c.name {
          assert LastNamed(es, c.name) == n;
          if k < |pm| {
            assert i == k;
          } else {
            assert i == |pm|;
          }
        } else {
          assert i < |pm| && m[i] == pm[i];
          var l := LastNamed(prev, pm[i].name);
          assert l < |prev|;
          assert es[..|es| - 1] == prev && es[|es| - 1].name != m[i].name;
          assert LastNamed(es, m[i].name) == l;
          assert es[l] == prev[l];
        }
      }
    }
  }

  /** The map's names, in order, depend only on the assigned names, not on the
      definitions. */
  lemma {:induction false} SchemaOfNames(es1: seq<SchemaEntry>, es2: seq<SchemaEntry>)
    requires |es1| == |es2| && forall k :: 0 <= k < |es1| ==> es1[k].name == es2[k].name
    ensures |SchemaOf(es1)| == |SchemaOf(es2)|
    ensures forall i :: 0 <= i < |SchemaOf(es1)| ==> SchemaOf(es1)[i].name == SchemaOf(es2)[i].name
    decreases |es1|
  {
    if es1 != [] {
      var n := |es1| - 1;
      SchemaOfNames(es1[..n], es2[..n]);
      var pm1 := SchemaOf(es1[..n]);
      var pm2 := SchemaOf(es2[..n]);
      FindByNames(pm1, pm2, es1[n].name);
      var k := Find(pm1, es1[n].name);
      assert SchemaOf(es1) == if k < |pm1| then pm1[k := es1[n]] else pm1 + [es1[n]];
      assert SchemaOf(es2) == if k < |pm2| then pm2[k := es2[n]] else pm2 + [es2[n]];
    }
  }

  lemma {:induction false} FindByNames(m1: seq<SchemaEntry>, m2: seq<SchemaEntry>, name: string)
    requires |m1| == |m2| && forall i :: 0 <= i < |m1| ==> m1[i].name == m2[i].name
    ensures Find(m1, name) == Find(m2, name)
    decreases |m1|
  {
    if m1 != [] && m1[0].name != name {
      FindByNames(m1[1..], m2[1..], name);
    }
  }

  /** Every column's name has an entry in the map. */
  lemma {:induction false} SchemaOfCoversColumns(es: seq<SchemaEntry>)
    ensures forall j :: 0 <= j < |es| ==> Find(SchemaOf(es), es[j].name) < |SchemaOf(es)|
    decreases |es|
  {
    if es != [] {
      var n := |es| - 1;
      var prev := es[..n];
      var c := es[n];
      SchemaOfCoversColumns(prev);
      var pm := SchemaOf(prev);
      var m := SchemaOf(es);
      var k := Find(pm, c.name);
      forall j | 0 <= j < |es| ensures Find(m, es[j].name) < |m| {
        if j < n {
          assert es[j] == prev[j];
          if k < |pm| {
            FindUpdate(pm, k, c, es[j].name);
          } else {
            FindAppend(pm, c, es[j].name);
          }
        } else if k < |pm| {
          assert m[k].name == c.name;
        } else {
          assert m[|pm|].name == c.name;
        }
      }
    }
  }

  /** Entries appear in the order of each name's first column. */
  lemma {:induction false} SchemaOfFirstOrder(es: seq<SchemaEntry>)
    ensures forall i :: 0 <= i < |SchemaOf(es)| ==> Find(es, SchemaOf(es)[i].name) < |es|
    ensures forall i, i' :: 0 <= i < i' < |SchemaOf(es)| ==>
              Find(es, SchemaOf(es)[i].name) < Find(es, SchemaOf(es)[i'].name)
    decreases |es|
  {
    if es != [] {
      var n := |es| - 1;
      var prev := es[..n];
      SchemaOfFirstOrder(prev);
      var pm := SchemaOf(prev);
      var m := SchemaOf(es);
      FirstPositionsKept(es, prev, pm);
      if Find(pm, es[n].name) == |pm| {
        NewNameAppended(es);
      }
      FirstOrderStep(pm, m, name => Find(prev, name), name => Find(es, name), n);
    }
  }

  /** The induction step of `SchemaOfFirstOrder`, over the map before (`pm`) and
      after (`m`) the last column's assignment, with `fp` and `fe` the first
      columns before and after it and `n` the new column's position. */
  lemma FirstOrderStep(pm: seq<SchemaEntry>, m: seq<SchemaEntry>, fp: string -> nat, fe: string -> nat, n: nat)
    requires forall i :: 0 <= i < |pm| ==> fp(pm[i].name) < n
    requires forall i, i' :: 0 <= i < i' < |pm| ==> fp(pm[i].name) < fp(pm[i'].name)
    requires |m| == |pm| || (|m| == |pm| + 1 && fe(m[|pm|].name) == n)
    requires forall i :: 0 <= i < |pm| ==> m[i].name == pm[i].name && fe(pm[i].name) == fp(pm[i].name)
    ensures forall i :: 0 <= i < |m| ==> fe(m[i].name) < n + 1
    ensures forall i, i' :: 0 <= i < i' < |m| ==> fe(m[i].name) < fe(m[i'].name)
  {
    forall i, i' | 0 <= i < i' < |m|
      ensures fe(m[i].name) < fe(m[i'].name)
    {
      assert fe(m[i].name) == fp(pm[i].name) < n;
      if i' < |pm| {
        assert fe(m[i'].name) == fp(pm[i'].name);
      }
    }
  }

  /** Adding a column keeps the earlier entries, under the same first columns;
      `prev` is every column but the last and `pm` its map. */
  lemma FirstPositionsKept(es: seq<SchemaEntry>, prev: seq<SchemaEntry>, pm: seq<SchemaEntry>)
    requires es != [] && prev == es[..|es| - 1] && pm == SchemaOf(prev)
    requires forall i :: 0 <= i < |pm| ==> Find(prev, pm[i].name) < |prev|
    ensures |pm| <= |SchemaOf(es)|
    ensures |SchemaOf(es)| == |pm| || |SchemaOf(es)| == |pm| + 1
    ensures forall i :: 0 <= i < |pm| ==>
              SchemaOf(es)[i].name == pm[i].name && Find(es, pm[i].name) == Find(prev, pm[i].name)
  {
    assert SchemaOf(es) == Put(pm, es[|es| - 1]);
    PutKeepsNames(pm, es[|es| - 1]);
    PrefixFindsKept(es, prev, pm);
  }

  /** Assigning an entry keeps every earlier entry's name in its place and adds
      at most one entry. */
  lemma PutKeepsNames(m: seq<SchemaEntry>, e: SchemaEntry)
    requires DistinctNames(m)
    ensures |Put(m, e)| == |m| || |Put(m, e)| == |m| + 1
    ensures forall i :: 0 <= i < |m| ==> Put(m, e)[i].name == m[i].name
  {
  }

  /** Every name first met before the last column keeps that first column. */
  lemma PrefixFindsKept(es: seq<SchemaEntry>, prev: seq<SchemaEntry>, pm: seq<SchemaEntry>)
    requires es != [] && prev == es[..|es| - 1]
    requires forall i :: 0 <= i < |pm| ==> Find(prev, pm[i].name) < |prev|
    ensures forall i :: 0 <= i < |pm| ==> Find(es, pm[i].name) == Find(prev, pm[i].name)
  {
    forall i | 0 <= i < |pm|
      ensures Find(es, pm[i].name) == Find(prev, pm[i].name)
    {
      FindInPrefix(es, pm[i].name);
    }
  }

  /** A column whose name is new gets the last entry, and it is the name's first
      column. */
  lemma NewNameAppended(es: seq<SchemaEntry>)
    requires es != []
    requires Find(SchemaOf(es[..|es| - 1]), es[|es| - 1].name) == |SchemaOf(es[..|es| - 1])|
    ensures var pm := SchemaOf(es[..|es| - 1]);
            && SchemaOf(es) == pm + [es[|es| - 1]]
            && Find(es, es[|es| - 1].name) == |es| - 1
  {
    var n := |es| - 1;
    var prev := es[..n];
    var c := es[n];
    SchemaOfCoversColumns(prev);
    forall j | 0 <= j < n ensures es[j].name != c.name {
      assert es[j] == prev[j];
    }
  }

  /** A name met before the last column has the same first column without it. */
  lemma FindInPrefix(es: seq<SchemaEntry>, name: string)
    requires |es| > 0 && Find(es[..|es| - 1], name) < |es| - 1
    ensures Find(es, name) == Find(es[..|es| - 1], name)
  {
    var prev := es[..|es| - 1];
    var f := Find(prev, name);
    assert es[f] == prev[f];
    assert forall j :: 0 <= j < f ==> es[j] == prev[j];
  }

  lemma FindUpdate(m: seq<SchemaEntry>, k: nat, e: SchemaEntry, name: string)
    requires k < |m| && m[k].name == e.name && Find(m, name) < |m|
    ensures Find(m[k := e], name) < |m|
  {
    var i := Find(m, name);
    assert m[k := e][i].name == name;
  }

  lemma FindAppend(m: seq<SchemaEntry>, e: SchemaEntry, name: string)
    requires Find(m, name) < |m|
    ensures Find(m + [e], name) < |m| + 1
  {
    var i := Find(m, name);
    assert (m + [e])[i].name == name;
  }

  // ---------------------------------------------------------------------------
  // `$indexCols`
  // ---------------------------------------------------------------------------

  /** `preg_match("/_id$/", $name)`; a sanitised name has no newline for `$` to
      skip over. */
  predicate IsIndexName(name: string) { EndsWith(name, "_id") }

  /** The names of the columns ending in `_id`, one per column, in column order. */
  function IndexColumns(cols: seq<ColumnProfile>): (names: seq<string>)
    ensures |names| <= |cols|
    ensures forall i :: 0 <= i < |names| ==> IsIndexName(names[i])
  {
    if cols == [] then []
    else
      var prev := IndexColumns(cols[..|cols| - 1]);
      var c := cols[|cols| - 1];
      if IsIndexName(c.name) then prev + [c.name] else prev
  }

  /** The positions of the columns whose names end in `_id`: increasing, and
      covering every such column. */
  function IndexPositions(cols: seq<ColumnProfile>): (ix: seq<nat>)
    ensures forall i :: 0 <= i < |ix| ==> ix[i] < |cols| && IsIndexName(cols[ix[i]].name)
    ensures forall i, i' :: 0 <= i < i' < |ix| ==> ix[i] < ix[i']
    ensures forall j :: 0 <= j < |cols| && IsIndexName(cols[j].name) ==> j in ix
  {
    if cols == [] then []
    else
      var n := |cols| - 1;
      var prev := IndexPositions(cols[..n]);
      assert forall j :: 0 <= j < n ==> cols[..n][j] == cols[j];
      if IsIndexName(cols[n].name) then prev + [n] else prev
  }

  /** Exactly the `_id` columns are indexed, each once, in column order: entry `i`
      of the list is the name of the `i`-th column ending in `_id`. */
  lemma {:induction false} IndexColumnsExact(cols: seq<ColumnProfile>)
    ensures |IndexColumns(cols)| == |IndexPositions(cols)|
    ensures forall i :: 0 <= i < |IndexPositions(cols)| ==>
              IndexColumns(cols)[i] == cols[IndexPositions(cols)[i]].name
    ensures var names := IndexColumns(cols);
            forall name :: name in names <==> exists j :: 0 <= j < |cols| && cols[j].name == name && IsIndexName(name)
    decreases |cols|
  {
    IndexColumnsInOrder(cols);
    var names, ix := IndexColumns(cols), IndexPositions(cols);
    forall name | name in names
      ensures exists j :: 0 <= j < |cols| && cols[j].name == name && IsIndexName(name)
    {
      var i :| 0 <= i < |names| && names[i] == name;
      assert cols[ix[i]].name == name;
    }
    forall name | (exists j :: 0 <= j < |cols| && cols[j].name == name && IsIndexName(name))
      ensures name in names
    {
      var j :| 0 <= j < |cols| && cols[j].name == name && IsIndexName(name);
      var i :| 0 <= i < |ix| && ix[i] == j;
      assert names[i] == name;
    }
  }

  lemma {:induction false} IndexColumnsInOrder(cols: seq<ColumnProfile>)
    ensures |IndexColumns(cols)| == |IndexPositions(cols)|
    ensures forall i :: 0 <= i < |IndexPositions(cols)| ==>
              IndexColumns(cols)[i] == cols[IndexPositions(cols)[i]].name
    decreases |cols|
  {
    if cols != [] {
      var n := |cols| - 1;
      var prev := cols[..n];
      IndexColumnsInOrder(prev);
      var names, ix := IndexColumns(cols), IndexPositions(cols);
      forall i | 0 <= i < |ix|
        ensures names[i] == cols[ix[i]].name
      {
        if i < |IndexPositions(prev)| {
          assert names[i] == IndexColumns(prev)[i];
          assert ix[i] == IndexPositions(prev)[i];
          assert cols[ix[i]] == prev[ix[i]];
        }
      }
    }
  }

  /** The index list is empty exactly when no column name ends in `_id`. */
  lemma NoIndexColumnsIff(cols: seq<ColumnProfile>)
    ensures IndexColumns(cols) == [] <==> forall k :: 0 <= k < |cols| ==> !IsIndexName(cols[k].name)
  {
    IndexColumnsExact(cols);
    if IndexColumns(cols) != [] {
      assert IndexColumns(cols)[0] in IndexColumns(cols);
    }
  }
}
