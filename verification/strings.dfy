/** Character classes, identifier sanitising, joining and splitting, and decimal
    numerals over PHP byte strings. A `string` here stands for a PHP string: each
    `char` is one byte, so `|s|` is PHP's `strlen($s)`. */
module Strings {

  predicate IsDigit(c: char) { '0' <= c <= '9' }

  predicate IsAlnum(c: char) { IsDigit(c) || 'a' <= c <= 'z' || 'A' <= c <= 'Z' }

  /** Every character of `s` is an ASCII digit (PCRE `\d` without the `u` flag). */
  predicate AllDigits(s: string) {
    forall i :: 0 <= i < |s| ==> IsDigit(s[i])
  }

  /** Only ASCII letters, digits and `_`: safe between backquotes, with no
      separator or space in it. */
  predicate IsIdentifier(s: string) {
    forall i :: 0 <= i < |s| ==> IsAlnum(s[i]) || s[i] == '_'
  }

  predicate EndsWith(s: string, suffix: string) {
    |suffix| <= |s| && s[|s| - |suffix|..] == suffix
  }

  predicate StartsWith(s: string, prefix: string) {
    |prefix| <= |s| && s[..|prefix|] == prefix
  }

  /** `strtolower` on one byte: only ASCII upper-case letters change. */
  function LowerAscii(c: char): (r: char) {
    if 'A' <= c <= 'Z' then (c as int + 32) as char else c
  }

  function Lower(s: string): (r: string)
    ensures |r| == |s|
    ensures forall i :: 0 <= i < |s| ==> r[i] == LowerAscii(s[i])
  {
    if s == [] then [] else [LowerAscii(s[0])] + Lower(s[1..])
  }

  /** Number of occurrences of `c` in `s`. */
  function Count(c: char, s: string): (r: nat) {
    if s == [] then 0 else (if s[0] == c then 1 else 0) + Count(c, s[1..])
  }

  predicate Contains(s: string, c: char) {
    exists i :: 0 <= i < |s| && s[i] == c
  }

  // ---------------------------------------------------------------------------
  // Identifier sanitising: `preg_replace('/[^a-zA-Z0-9]+/', '_', $s)` for column
  // names and `preg_replace('/[^a-zA-Z0-9_]+/', '_', $s)` for the table name.
  // ---------------------------------------------------------------------------

  /** The characters the pattern's negated class leaves alone. */
  predicate Kept(c: char, keepUnderscore: bool) {
    IsAlnum(c) || (keepUnderscore && c == '_')
  }

  /** Drops the maximal leading run of characters outside the kept class. */
  function DropRun(s: string, keepUnderscore: bool): (r: string)
    ensures |r| <= |s|
    ensures |s| > 0 && !Kept(s[0], keepUnderscore) ==> |r| < |s|
    ensures r == s[|s| - |r|..]
    ensures forall i :: 0 <= i < |s| - |r| ==> !Kept(s[i], keepUnderscore)
    ensures |r| > 0 ==> Kept(r[0], keepUnderscore)
  {
    if s == [] || Kept(s[0], keepUnderscore) then s else DropRun(s[1..], keepUnderscore)
  }

  /** Replaces every maximal run of characters outside the kept class by one `_`. */
  function Sanitize(s: string, keepUnderscore: bool): (r: string)
    decreases |s|
  {
    if s == [] then []
    else if Kept(s[0], keepUnderscore) then [s[0]] + Sanitize(s[1..], keepUnderscore)
    else "_" + Sanitize(DropRun(s, keepUnderscore), keepUnderscore)
  }

  /** The strings `Sanitize` leaves unchanged: only kept characters and `_`, and,
      when `_` is itself replaced, no two `_` in a row. */
  predicate IsSanitized(s: string, keepUnderscore: bool) {
    && (forall i :: 0 <= i < |s| ==> Kept(s[i], keepUnderscore) || s[i] == '_')
    && (keepUnderscore || forall i :: 0 <= i < |s| - 1 ==> !(s[i] == '_' && s[i + 1] == '_'))
  }

  /** What sanitising produces: an identifier made of kept characters and single
      `_` separators, empty only for the empty input, starting like the input when
      the input starts with a kept character. */
  lemma {:induction false} SanitizeShape(s: string, keepUnderscore: bool)
    ensures IsSanitized(Sanitize(s, keepUnderscore), keepUnderscore)
    ensures |Sanitize(s, keepUnderscore)| <= |s|
    ensures (Sanitize(s, keepUnderscore) == []) == (s == [])
    ensures |s| > 0 ==> Sanitize(s, keepUnderscore)[0] == (if Kept(s[0], keepUnderscore) then s[0] else '_')
    decreases |s|
  {
    if s == [] {
    } else if Kept(s[0], keepUnderscore) {
      SanitizeShape(s[1..], keepUnderscore);
    } else {
      var rest := DropRun(s, keepUnderscore);
      SanitizeShape(rest, keepUnderscore);
      var r := Sanitize(s, keepUnderscore);
      assert r == "_" + Sanitize(rest, keepUnderscore);
      assert |r| > 1 ==> r[1] != '_' || keepUnderscore;
    }
  }

  /** A one-pass reading of the pattern, character by character: a kept character
      is copied, and a replaced one writes `_` only when it opens a run
      (`inRun` says the previous character was replaced). */
  function Collapse(s: string, keepUnderscore: bool, inRun: bool): (r: string)
    ensures |r| <= |s|
  {
    if s == [] then []
    else if Kept(s[0], keepUnderscore) then [s[0]] + Collapse(s[1..], keepUnderscore, false)
    else if inRun then Collapse(s[1..], keepUnderscore, true)
    else "_" + Collapse(s[1..], keepUnderscore, true)
  }

  /** Inside a run, the rest of the run writes nothing. */
  lemma {:induction false} CollapseSkipsRun(s: string, keepUnderscore: bool)
    ensures Collapse(s, keepUnderscore, true) == Collapse(DropRun(s, keepUnderscore), keepUnderscore, true)
    decreases |s|
  {
    if s != [] && !Kept(s[0], keepUnderscore) {
      CollapseSkipsRun(s[1..], keepUnderscore);
    }
  }

  /** Sanitising replaces each maximal run of characters outside the kept class by
      exactly one `_` and copies every other character, in order. */
  lemma {:induction false} SanitizeCollapsesRuns(s: string, keepUnderscore: bool)
    ensures Sanitize(s, keepUnderscore) == Collapse(s, keepUnderscore, false)
    decreases |s|
  {
    if s == [] {
    } else if Kept(s[0], keepUnderscore) {
      SanitizeCollapsesRuns(s[1..], keepUnderscore);
    } else {
      var rest := DropRun(s, keepUnderscore);
      SanitizeCollapsesRuns(rest, keepUnderscore);
      assert rest == DropRun(s[1..], keepUnderscore);
      CollapseSkipsRun(s[1..], keepUnderscore);
      assert Collapse(rest, keepUnderscore, true) == Collapse(rest, keepUnderscore, false);
    }
  }

  /** The run ` -` in the header field `a -b` becomes one `_`. */
  lemma SanitizeExample()
    ensures Sanitize("a -b", false) == "a_b"
  {
    SanitizeCollapsesRuns("a -b", false);
    assert Collapse("b", false, true) == "b";
    assert Collapse("-b", false, true) == "b";
    assert Collapse(" -b", false, false) == "_b";
  }

  /** No line break or other separator survives sanitising. */
  lemma NoNewlineAfterSanitize(s: string, keepUnderscore: bool)
    ensures !Contains(Sanitize(s, keepUnderscore), '\n')
  {
    SanitizeShape(s, keepUnderscore);
  }

  lemma {:induction false} SanitizeFixpoint(s: string, keepUnderscore: bool)
    requires IsSanitized(s, keepUnderscore)
    ensures Sanitize(s, keepUnderscore) == s
    decreases |s|
  {
    if s == [] {
    } else if Kept(s[0], keepUnderscore) {
      SanitizeFixpoint(s[1..], keepUnderscore);
    } else {
      assert s[0] == '_' && !keepUnderscore;
      var rest := s[1..];
      assert DropRun(s, keepUnderscore) == rest by {
        if rest != [] {
          assert rest[0] == s[1];
          assert Kept(rest[0], keepUnderscore);
        }
      }
      SanitizeFixpoint(rest, keepUnderscore);
    }
  }

  /** Sanitising is idempotent: a sanitised identifier is its own sanitisation. */
  lemma SanitizeIdempotent(s: string, keepUnderscore: bool)
    ensures Sanitize(Sanitize(s, keepUnderscore), keepUnderscore) == Sanitize(s, keepUnderscore)
  {
    SanitizeShape(s, keepUnderscore);
    SanitizeFixpoint(Sanitize(s, keepUnderscore), keepUnderscore);
  }

  // ---------------------------------------------------------------------------
  // implode and its inverse on a one-character separator
  // ---------------------------------------------------------------------------

  /** PHP `implode($sep, $xs)`. */
  function Join(sep: string, xs: seq<string>): (r: string) {
    if |xs| == 0 then ""
    else if |xs| == 1 then xs[0]
    else xs[0] + sep + Join(sep, xs[1..])
  }

  /** Appending one more piece, as `$s .= $sep . $x` does. */
  lemma {:induction false} JoinSnoc(sep: string, xs: seq<string>, x: string)
    requires |xs| > 0
    ensures Join(sep, xs + [x]) == Join(sep, xs) + sep + x
    decreases |xs|
  {
    if |xs| == 1 {
      assert xs + [x] == [xs[0], x];
    } else {
      assert (xs + [x])[1..] == xs[1..] + [x];
      JoinSnoc(sep, xs[1..], x);
    }
  }

  lemma {:induction false} JoinLength(sep: string, xs: seq<string>)
    requires |xs| > 0
    ensures |Join(sep, xs)| == SumLengths(xs) + (|xs| - 1) * |sep|
    decreases |xs|
  {
    if |xs| > 1 {
      JoinLength(sep, xs[1..]);
    }
  }

  function SumLengths(xs: seq<string>): (r: nat) {
    if xs == [] then 0 else |xs[0]| + SumLengths(xs[1..])
  }

  lemma {:induction false} JoinConcat(sep: string, xs: seq<string>, ys: seq<string>)
    requires |xs| > 0 && |ys| > 0
    ensures Join(sep, xs + ys) == Join(sep, xs) + sep + Join(sep, ys)
    decreases |xs|
  {
    if |xs| == 1 {
      assert (xs + ys)[1..] == ys;
    } else {
      assert (xs + ys)[1..] == xs[1..] + ys;
      JoinConcat(sep, xs[1..], ys);
    }
  }

  /** The lines of a list joined by `a + "\n" + p`, between a leading `p` and a
      closing `b`: each item on its own line, indented by `p`, followed by `a`,
      the last one by `b`. */
  function Lines(p: string, xs: seq<string>, a: string, b: string): (ls: seq<string>)
    ensures |ls| == |xs|
  {
    seq(|xs|, k requires 0 <= k < |xs| => p + xs[k] + (if k + 1 < |xs| then a else b))
  }

  lemma {:induction false} JoinAsLines(p: string, xs: seq<string>, a: string, b: string)
    requires |xs| > 0
    ensures p + Join(a + "\n" + p, xs) + b == Join("\n", Lines(p, xs, a, b))
    decreases |xs|
  {
    var ls := Lines(p, xs, a, b);
    if |xs| > 1 {
      JoinAsLines(p, xs[1..], a, b);
      assert ls[1..] == Lines(p, xs[1..], a, b);
      calc {
        p + Join(a + "\n" + p, xs) + b;
        p + (xs[0] + (a + "\n" + p) + Join(a + "\n" + p, xs[1..])) + b;
        (p + xs[0] + a) + "\n" + (p + Join(a + "\n" + p, xs[1..]) + b);
        ls[0] + "\n" + Join("\n", ls[1..]);
      }
    }
  }

  lemma ContainsConcat(x: string, y: string, c: char)
    ensures Contains(x + y, c) <==> Contains(x, c) || Contains(y, c)
  {
    if Contains(x + y, c) {
      var i :| 0 <= i < |x + y| && (x + y)[i] == c;
      if i >= |x| { assert y[i - |x|] == c; }
    }
    if Contains(x, c) {
      var i :| 0 <= i < |x| && x[i] == c;
      assert (x + y)[i] == c;
    }
    if Contains(y, c) {
      var i :| 0 <= i < |y| && y[i] == c;
      assert (x + y)[|x| + i] == c;
    }
  }

  /** Index of the first `c` in `s`, or `|s|` when there is none. */
  function IndexOf(s: string, c: char): (i: nat)
    ensures i <= |s|
    ensures i < |s| ==> s[i] == c
    ensures forall j :: 0 <= j < i ==> s[j] != c
  {
    if s == [] then 0 else if s[0] == c then 0 else 1 + IndexOf(s[1..], c)
  }

  /** Index of the last `c` in `s`, or `|s|` when there is none. */
  function LastIndexOf(s: string, c: char): (i: nat)
    ensures i <= |s|
    ensures i < |s| ==> s[i] == c && forall j :: i < j < |s| ==> s[j] != c
    ensures i == |s| ==> !Contains(s, c)
  {
    if s == [] then 0
    else if s[|s| - 1] == c then |s| - 1
    else
      var k := LastIndexOf(s[..|s| - 1], c);
      assert forall j :: 0 <= j < |s| - 1 ==> s[..|s| - 1][j] == s[j];
      if k == |s| - 1 then |s| else k
  }

  /** PHP `explode($c, $s)` for a one-character separator. */
  function Split(s: string, c: char): (r: seq<string>)
    ensures |r| > 0
    decreases |s|
  {
    var i := IndexOf(s, c);
    if i == |s| then [s] else [s[..i]] + Split(s[i + 1..], c)
  }

  /** Splitting undoes joining when no piece contains the separator. */
  lemma {:induction false} SplitJoin(xs: seq<string>, c: char)
    requires |xs| > 0
    requires forall k :: 0 <= k < |xs| ==> !Contains(xs[k], c)
    ensures Split(Join([c], xs), c) == xs
    decreases |xs|
  {
    var s := Join([c], xs);
    if |xs| == 1 {
      assert s == xs[0];
    } else {
      var x := xs[0];
      assert s == x + [c] + Join([c], xs[1..]);
      assert s == x + ([c] + Join([c], xs[1..]));
      IndexOfPast(x, [c] + Join([c], xs[1..]), c);
      assert s[..|x|] == x;
      assert s[|x| + 1..] == Join([c], xs[1..]);
      SplitJoin(xs[1..], c);
    }
  }

  lemma IndexOfPast(x: string, rest: string, c: char)
    requires !Contains(x, c)
    requires |rest| > 0 && rest[0] == c
    ensures IndexOf(x + rest, c) == |x|
  {
    var s := x + rest;
    forall j | 0 <= j < |x|
      ensures s[j] != c
    {
      assert s[j] == x[j];
    }
    assert s[|x|] == c;
  }

  // ---------------------------------------------------------------------------
  // Decimal numerals
  // ---------------------------------------------------------------------------

  function DigitValue(c: char): (r: nat) { if IsDigit(c) then c as int - '0' as int else 0 }

  /** The value of a run of decimal digits, read most significant first. */
  function DigitsValue(s: string): (r: nat) {
    if s == [] then 0 else 10 * DigitsValue(s[..|s| - 1]) + DigitValue(s[|s| - 1])
  }

  /** PHP's decimal rendering of a non-negative integer. */
  function NatToString(n: nat): (r: string)
    ensures |r| > 0 && AllDigits(r)
  {
    var d := ['0' + (n % 10) as char];
    if n < 10 then d else NatToString(n / 10) + d
  }

  /** The rendering reads back as the same number. */
  lemma {:induction false} NatToStringRoundTrip(n: nat)
    ensures DigitsValue(NatToString(n)) == n
  {
    var s := NatToString(n);
    assert s[..|s| - 1] == (if n < 10 then "" else NatToString(n / 10));
    if n >= 10 {
      NatToStringRoundTrip(n / 10);
    }
  }
}
