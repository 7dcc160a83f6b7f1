/** The five candidate column types of `ConvertCommand::executeOne` and the regular
    expressions that test a value against them, written as predicates on strings. */
module TypeTests {
  import opened Strings

  /** The type tags, declared in the precedence order of the source's test list. */
  datatype Tag = UnsignedInt | SignedInt | Float | DateTime | Date

  /** The initial candidate list of every column, in precedence order. */
  const Precedence: seq<Tag> := [UnsignedInt, SignedInt, Float, DateTime, Date]

  /** Position of a tag in `Precedence`. */
  function Rank(t: Tag): (r: nat)
    ensures r < |Precedence| && Precedence[r] == t
  {
    match t
    case UnsignedInt => 0
    case SignedInt => 1
    case Float => 2
    case DateTime => 3
    case Date => 4
  }

  predicate IsIntTag(t: Tag) { t == UnsignedInt || t == SignedInt }

  /** A candidate list in precedence order without repetitions. */
  predicate Ordered(ts: seq<Tag>) {
    forall i, j :: 0 <= i < j < |ts| ==> Rank(ts[i]) < Rank(ts[j])
  }

  lemma PrecedenceOrdered()
    ensures Ordered(Precedence)
  {
    assert forall i :: 0 <= i < |Precedence| ==> Rank(Precedence[i]) == i;
  }

  // ---------------------------------------------------------------------------
  // Shapes. Every pattern is anchored with `^...$`; PCRE's `$` (no `D` flag) also
  // matches just before one final newline, so a value is tested with at most one
  // trailing "\n" removed.
  // ---------------------------------------------------------------------------

  /** The part of `v` the anchored patterns look at. */
  function Subject(v: string): (s: string)
    ensures |s| <= |v| && s == v[..|s|]
  {
    if |v| > 0 && v[|v| - 1] == '\n' then v[..|v| - 1] else v
  }

  /** `\d+` */
  predicate UnsignedShape(s: string) { |s| > 0 && AllDigits(s) }

  /** `-?\d+` */
  predicate SignedShape(s: string) {
    UnsignedShape(s) || (|s| > 1 && s[0] == '-' && AllDigits(s[1..]))
  }

  /** `\d*\.?\d*` */
  predicate DigitsDotDigits(t: string) {
    AllDigits(t) || exists k :: 0 <= k < |t| && t[k] == '.' && AllDigits(t[..k]) && AllDigits(t[k + 1..])
  }

  /** `\d+\.?\d*`: no sign, so a negative decimal is not a float. */
  predicate FloatShape(s: string) {
    |s| > 0 && IsDigit(s[0]) && DigitsDotDigits(s[1..])
  }

  /** `\d\d\d\d-\d\d-\d\d` as a prefix: a calendar-date shape, with no range check. */
  predicate DatePrefix(s: string) {
    && |s| >= 10
    && IsDigit(s[0]) && IsDigit(s[1]) && IsDigit(s[2]) && IsDigit(s[3])
    && s[4] == '-' && IsDigit(s[5]) && IsDigit(s[6])
    && s[7] == '-' && IsDigit(s[8]) && IsDigit(s[9])
  }

  /** `\d\d\d\d-\d\d-\d\d` */
  predicate DateShape(s: string) { |s| == 10 && DatePrefix(s) }

  /** `\d\d\d\d-\d\d-\d\d[T ]\d\d:\d\d:\d\d\.?\d*` */
  predicate DateTimeShape(s: string) {
    && |s| >= 19
    && DatePrefix(s)
    && (s[10] == 'T' || s[10] == ' ')
    && IsDigit(s[11]) && IsDigit(s[12]) && s[13] == ':'
    && IsDigit(s[14]) && IsDigit(s[15]) && s[16] == ':'
    && IsDigit(s[17]) && IsDigit(s[18])
    && (AllDigits(s[19..]) || (s[19] == '.' && AllDigits(s[20..])))
  }

  /** `preg_match($type_tests[$t], $v)` succeeds. */
  predicate Matches(t: Tag, v: string) {
    var s := Subject(v);
    match t
    case UnsignedInt => UnsignedShape(s)
    case SignedInt => SignedShape(s)
    case Float => FloatShape(s)
    case DateTime => DateTimeShape(s)
    case Date => DateShape(s)
  }

  /** The value PHP's numeric comparison reads from an integer-shaped value. */
  function IntValue(v: string): (r: int) {
    var s := Subject(v);
    if |s| > 0 && s[0] == '-' then -(DigitsValue(s[1..]) as int) else DigitsValue(s)
  }

  /** How the five tests relate: an unsigned integer also passes the signed and
      float tests; a value with a minus sign passes neither the unsigned nor the
      float test; nothing passes both a number test and a date test. */
  lemma ShapeLattice(v: string)
    ensures Matches(UnsignedInt, v) ==> Matches(SignedInt, v) && Matches(Float, v)
    ensures Matches(SignedInt, v) && !Matches(UnsignedInt, v) ==> !Matches(Float, v) && IntValue(v) <= 0
    ensures Matches(UnsignedInt, v) ==> IntValue(v) >= 0
    ensures Matches(Date, v) || Matches(DateTime, v) ==>
              !Matches(UnsignedInt, v) && !Matches(SignedInt, v) && !Matches(Float, v)
    ensures !(Matches(Date, v) && Matches(DateTime, v))
  {
    var s := Subject(v);
    if UnsignedShape(s) {
      assert DigitsDotDigits(s[1..]) by { assert AllDigits(s[1..]); }
    }
    if DatePrefix(s) {
      assert !AllDigits(s) by { assert !IsDigit(s[4]); }
      assert !AllDigits(s[1..]) by { assert s[1..][3] == s[4]; }
      assert !DigitsDotDigits(s[1..]) by {
        var t := s[1..];
        assert t[3] == '-';
        forall k | 0 <= k < |t| && t[k] == '.'
          ensures !(AllDigits(t[..k]) && AllDigits(t[k + 1..]))
        {
          if k > 3 { assert t[..k][3] == '-'; } else { assert t[k + 1..][2 - k] == '-'; }
        }
      }
    }
  }
}
