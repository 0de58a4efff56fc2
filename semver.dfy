/**
 * Release identifiers as semantic versions.  The toolchain's releases are
 * plain `MAJOR.MINOR.PATCH` strings; this module parses and renders them and
 * gives the precedence order that `semver.satisfies` uses to test them
 * against the ranges `>=16.0.0`, `<=16.0.0` and `<=17.0.1`.
 */
module Semver {
  import opened Wrappers
  import Text

  datatype Version = Version(major: nat, minor: nat, patch: nat)

  /** Semantic-version precedence between release versions: lexicographic on the triple. */
  predicate LessEq(a: Version, b: Version) {
    || a.major < b.major
    || (a.major == b.major && a.minor < b.minor)
    || (a.major == b.major && a.minor == b.minor && a.patch <= b.patch)
  }

  lemma LessEqIsTotalOrder(a: Version, b: Version, c: Version)
    ensures LessEq(a, a)
    ensures LessEq(a, b) && LessEq(b, a) ==> a == b
    ensures LessEq(a, b) && LessEq(b, c) ==> LessEq(a, c)
    ensures LessEq(a, b) || LessEq(b, a)
  {
  }

  predicate IsDigit(c: char) {
    '0' <= c <= '9'
  }

  predicate AllDigits(s: string) {
    forall i :: 0 <= i < |s| ==> IsDigit(s[i])
  }

  function DigitChar(d: nat): (c: char)
    requires d < 10
    ensures IsDigit(c)
  {
    ('0' as int + d) as char
  }

  /** The numeric value of a string of decimal digits. */
  function ValueOf(s: string): nat
    requires AllDigits(s)
  {
    if s == [] then 0 else ValueOf(s[..|s| - 1]) * 10 + (s[|s| - 1] as int - '0' as int)
  }

  /**
   * A numeric identifier as semver's strict grammar has it: one or more
   * digits, with no leading zero unless the number is 0 itself.
   */
  predicate IsNumericIdentifier(s: string) {
    s != [] && AllDigits(s) && (s[0] == '0' ==> |s| == 1)
  }

  /** The canonical decimal spelling of `n`. */
  function Decimal(n: nat): (r: string)
    ensures IsNumericIdentifier(r)
    ensures n == 0 <==> r == "0"
  {
    if n < 10 then [DigitChar(n)] else Decimal(n / 10) + [DigitChar(n % 10)]
  }

  lemma {:induction false} ValueOfDecimal(n: nat)
    ensures ValueOf(Decimal(n)) == n
  {
    if n >= 10 {
      var d := Decimal(n / 10);
      ValueOfDecimal(n / 10);
      assert (d + [DigitChar(n % 10)])[..|d|] == d;
    }
  }

  lemma {:induction false} PositiveValue(s: string)
    requires s != [] && AllDigits(s) && s[0] != '0'
    ensures ValueOf(s) > 0
  {
    if |s| > 1 {
      PositiveValue(s[..|s| - 1]);
    }
  }

  lemma {:induction false} DecimalOfValue(s: string)
    requires IsNumericIdentifier(s)
    ensures Decimal(ValueOf(s)) == s
  {
    if |s| > 1 {
      var front := s[..|s| - 1];
      PositiveValue(s);
      PositiveValue(front);
      DecimalOfValue(front);
      assert s == front + [s[|s| - 1]];
    }
  }

  function ParseNumber(s: string): (r: Option<nat>)
    ensures r.Some? <==> IsNumericIdentifier(s)
  {
    if IsNumericIdentifier(s) then Some(ValueOf(s)) else None
  }

  /** `s.split(sep)`: the pieces between occurrences of `sep`, in order. */
  function Split(s: string, sep: char): (parts: seq<string>)
    ensures |parts| >= 1
    ensures forall i :: 0 <= i < |parts| ==> sep !in parts[i]
    decreases |s|
  {
    var f := Text.FirstField(s, sep);
    if f == s then [s] else [f] + Split(s[|f| + 1..], sep)
  }

  function JoinWith(parts: seq<string>, sep: char): string
    requires |parts| >= 1
  {
    if |parts| == 1 then parts[0] else parts[0] + [sep] + JoinWith(parts[1..], sep)
  }

  lemma {:induction false} JoinSplit(s: string, sep: char)
    ensures JoinWith(Split(s, sep), sep) == s
    decreases |s|
  {
    var f := Text.FirstField(s, sep);
    if f != s {
      var rest := s[|f| + 1..];
      var tail := Split(rest, sep);
      assert Split(s, sep) == [f] + tail;
      JoinOfCons(f, tail, sep);
      JoinSplit(rest, sep);
      FieldThenRest(s, f, sep);
    }
  }

  lemma JoinOfCons(f: string, tail: seq<string>, sep: char)
    requires |tail| >= 1
    ensures JoinWith([f] + tail, sep) == f + [sep] + JoinWith(tail, sep)
  {
    assert ([f] + tail)[1..] == tail;
  }

  /** A field that stops short of the whole string is followed by the separator and the rest. */
  lemma FieldThenRest(s: string, f: string, sep: char)
    requires Text.StartsWith(s, f) && |f| < |s| && s[|f|] == sep
    ensures s == f + [sep] + s[|f| + 1..]
  {
    assert s[..|f|] == f;
    assert s == s[..|f|] + [s[|f|]] + s[|f| + 1..];
  }

  lemma {:induction false} FirstFieldOfJoin(a: string, sep: char, b: string)
    requires sep !in a
    ensures Text.FirstField(a + [sep] + b, sep) == a
  {
    if a != [] {
      assert (a + [sep] + b)[1..] == a[1..] + [sep] + b;
      FirstFieldOfJoin(a[1..], sep, b);
    }
  }

  lemma SplitJoin(a: string, sep: char, b: string)
    requires sep !in a
    ensures Split(a + [sep] + b, sep) == [a] + Split(b, sep)
  {
    FirstFieldOfJoin(a, sep, b);
    assert (a + [sep] + b)[|a| + 1..] == b;
  }

  lemma {:induction false} SplitWhole(s: string, sep: char)
    requires sep !in s
    ensures Split(s, sep) == [s]
  {
    assert forall i :: 0 <= i < |s| ==> s[i] != sep;
  }

  /** The strict `MAJOR.MINOR.PATCH` form of a release version. */
  function Render(v: Version): string {
    Decimal(v.major) + "." + Decimal(v.minor) + "." + Decimal(v.patch)
  }

  lemma SplitThree(a: string, b: string, c: string, sep: char)
    requires sep !in a && sep !in b && sep !in c
    ensures Split(a + [sep] + b + [sep] + c, sep) == [a, b, c]
  {
    var bc := b + [sep] + c;
    var whole := a + [sep] + b + [sep] + c;
    Associate(a + [sep], b, [sep] + c);
    assert whole == a + [sep] + bc;
    SplitWhole(c, sep);
    SplitJoin(b, sep, c);
    assert Split(bc, sep) == [b, c];
    SplitJoin(a, sep, bc);
    assert Split(whole, sep) == [a] + [b, c];
  }

  lemma Associate(x: string, y: string, z: string)
    ensures x + y + z == x + (y + z)
  {
  }

  lemma NoSeparatorInNumber(s: string, sep: char)
    requires AllDigits(s) && !IsDigit(sep)
    ensures sep !in s
  {
  }

  lemma RenderSplits(v: Version)
    ensures Split(Render(v), '.') == [Decimal(v.major), Decimal(v.minor), Decimal(v.patch)]
  {
    var a, b, c := Decimal(v.major), Decimal(v.minor), Decimal(v.patch);
    NoSeparatorInNumber(a, '.');
    NoSeparatorInNumber(b, '.');
    NoSeparatorInNumber(c, '.');
    SplitThree(a, b, c, '.');
  }

  /**
   * Parses a release version; `None` for any string that is not three
   * numeric identifiers separated by dots, which `semver.satisfies` treats
   * as satisfying no range.
   */
  function Parse(s: string): (r: Option<Version>)
  {
    var parts := Split(s, '.');
    if |parts| != 3 then None
    else match (ParseNumber(parts[0]), ParseNumber(parts[1]), ParseNumber(parts[2]))
      case (Some(a), Some(b), Some(c)) => Some(Version(a, b, c))
      case _ => None
  }

  lemma {:induction false} ParseRender(v: Version)
    ensures Parse(Render(v)) == Some(v)
  {
    RenderSplits(v);
    ValueOfDecimal(v.major);
    ValueOfDecimal(v.minor);
    ValueOfDecimal(v.patch);
  }

  lemma JoinThree(parts: seq<string>, sep: char)
    requires |parts| == 3
    ensures JoinWith(parts, sep) == parts[0] + [sep] + parts[1] + [sep] + parts[2]
  {
    assert parts[1..][1..] == [parts[2]];
    assert JoinWith(parts[1..], sep) == parts[1] + [sep] + parts[2];
  }

  lemma {:induction false} RenderParse(s: string)
    requires Parse(s).Some?
    ensures Render(Parse(s).value) == s
  {
    var parts := Split(s, '.');
    var a, b, c := parts[0], parts[1], parts[2];
    assert ParseNumber(a).Some? && ParseNumber(b).Some? && ParseNumber(c).Some?;
    assert Parse(s).value == Version(ValueOf(a), ValueOf(b), ValueOf(c));
    DecimalOfValue(a);
    DecimalOfValue(b);
    DecimalOfValue(c);
    JoinSplit(s, '.');
    JoinThree(parts, '.');
  }

  /** Parsing and rendering are inverse: each version has exactly one spelling. */
  lemma ParseIffRender(s: string, v: Version)
    ensures Parse(s) == Some(v) <==> s == Render(v)
  {
    if s == Render(v) {
      ParseRender(v);
    }
    if Parse(s) == Some(v) {
      RenderParse(s);
    }
  }

  /** semver refuses version strings longer than this. */
  const MaxLength: nat := 256

  /** JavaScript's `Number.MAX_SAFE_INTEGER`, the largest component semver accepts. */
  const MaxSafeInteger: nat := 9007199254740991

  predicate InRange(v: Version) {
    v.major <= MaxSafeInteger && v.minor <= MaxSafeInteger && v.patch <= MaxSafeInteger
  }

  /**
   * The version semver builds from a release string, or `None` where it
   * refuses one: a string longer than `MaxLength`, one outside the strict
   * grammar, or a component above `MaxSafeInteger`.
   */
  function SemVerOf(s: string): (r: Option<Version>)
    ensures r.Some? ==> |s| <= MaxLength && InRange(r.value)
  {
    if |s| > MaxLength then None
    else match Parse(s)
      case Some(v) => if InRange(v) then Some(v) else None
      case None => None
  }

  function Pow10(k: nat): nat {
    if k == 0 then 1 else 10 * Pow10(k - 1)
  }

  /** A number below `10^k` has at most `k` digits. */
  lemma {:induction false} DecimalLength(n: nat, k: nat)
    requires 1 <= k && n < Pow10(k)
    ensures |Decimal(n)| <= k
  {
    if n >= 10 {
      assert Pow10(k) == 10 * Pow10(k - 1);
      DecimalLength(n / 10, k - 1);
    }
  }

  lemma SafeBelowPow10()
    ensures MaxSafeInteger < Pow10(16)
  {
    assert Pow10(4) == 10000;
    assert Pow10(8) == 10000 * Pow10(4) by {
      assert Pow10(8) == 10 * Pow10(7) && Pow10(7) == 10 * Pow10(6);
      assert Pow10(6) == 10 * Pow10(5) && Pow10(5) == 10 * Pow10(4);
    }
    assert Pow10(12) == 10000 * Pow10(8) by {
      assert Pow10(12) == 10 * Pow10(11) && Pow10(11) == 10 * Pow10(10);
      assert Pow10(10) == 10 * Pow10(9) && Pow10(9) == 10 * Pow10(8);
    }
    assert Pow10(16) == 10000 * Pow10(12) by {
      assert Pow10(16) == 10 * Pow10(15) && Pow10(15) == 10 * Pow10(14);
      assert Pow10(14) == 10 * Pow10(13) && Pow10(13) == 10 * Pow10(12);
    }
  }

  /** The spelling of a version semver accepts is far below the length limit. */
  lemma RenderLength(v: Version)
    requires InRange(v)
    ensures |Render(v)| <= 3 * 16 + 2
  {
    SafeBelowPow10();
    DecimalLength(v.major, 16);
    DecimalLength(v.minor, 16);
    DecimalLength(v.patch, 16);
  }

  /** semver accepts exactly the canonical spellings of versions whose components are safe integers. */
  lemma SemVerOfIffRender(s: string, v: Version)
    ensures SemVerOf(s) == Some(v) <==> s == Render(v) && InRange(v)
  {
    ParseIffRender(s, v);
    if InRange(v) {
      RenderLength(v);
    }
  }

  /** `semver.satisfies(s, '>=' + Render(bound))`. */
  predicate AtLeast(s: string, bound: Version) {
    match SemVerOf(s)
    case Some(v) => LessEq(bound, v)
    case None => false
  }

  /** `semver.satisfies(s, '<=' + Render(bound))`. */
  predicate AtMost(s: string, bound: Version) {
    match SemVerOf(s)
    case Some(v) => LessEq(v, bound)
    case None => false
  }

  /** Past the length limit or above the safe-integer limit, no release satisfies a range. */
  lemma LimitsRefuse(s: string, bound: Version)
    requires |s| > MaxLength || (Parse(s).Some? && !InRange(Parse(s).value))
    ensures !AtLeast(s, bound) && !AtMost(s, bound)
  {
  }
}
