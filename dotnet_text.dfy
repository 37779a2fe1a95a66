/**
 * The .NET and Python string primitives the installer leans on, written out so that
 * the model can reason about them: string.Split on a character and on a string,
 * int.Parse (NumberStyles.Integer), Int32.ToString, Path.Combine, os.path.join,
 * string.IsNullOrWhiteSpace and a case-insensitive name comparison.
 */
module DotNetText {
  import opened Wrappers

  const Int32Min: int := -0x8000_0000
  const Int32Max: int := 0x7FFF_FFFF

  predicate IsInt32(n: int) {
    Int32Min <= n <= Int32Max
  }

  /** A C# `int`. */
  type Int32 = n: int | -0x8000_0000 <= n <= 0x7FFF_FFFF

  /** Unchecked Int32 arithmetic: the mathematical result wrapped into the Int32 range. */
  function Wrap32(n: int): (r: Int32)
    ensures IsInt32(n) ==> r == n
    ensures (n - r) % 0x1_0000_0000 == 0
  {
    var m := n % 0x1_0000_0000;
    if m > Int32Max then m - 0x1_0000_0000 else m
  }

  // ---------------------------------------------------------------- string.Split(char)

  /** Number of occurrences of `c` in `s`. */
  function Occurrences(s: string, c: char): nat {
    if s == [] then 0 else (if s[0] == c then 1 else 0) + Occurrences(s[1..], c)
  }

  /**
   * `s.Split(sep)`: every occurrence of `sep` ends one piece and starts the next,
   * empty pieces are kept, so there is always one piece more than separators.
   */
  function Split(s: string, sep: char): (parts: seq<string>)
    ensures |parts| == Occurrences(s, sep) + 1
    ensures forall i :: 0 <= i < |parts| ==> sep !in parts[i]
    ensures forall i, c :: 0 <= i < |parts| && c in parts[i] ==> c in s
    decreases |s|
  {
    if s == [] then [""]
    else
      var rest := Split(s[1..], sep);
      assert forall c :: c in s[1..] ==> c in s;
      if s[0] == sep then [""] + rest
      else [[s[0]] + rest[0]] + rest[1..]
  }

  /** `string.Join(sep, parts)` */
  function Join(parts: seq<string>, sep: char): string {
    if |parts| == 0 then ""
    else if |parts| == 1 then parts[0]
    else parts[0] + [sep] + Join(parts[1..], sep)
  }

  /** Joining the pieces again gives back the split string: no character is lost. */
  lemma {:induction false} JoinSplit(s: string, sep: char)
    ensures Join(Split(s, sep), sep) == s
    decreases |s|
  {
    if s != [] {
      var rest := Split(s[1..], sep);
      JoinSplit(s[1..], sep);
      if s[0] == sep {
        assert Split(s, sep) == [""] + rest;
        assert ([""] + rest)[1..] == rest;
      } else {
        var parts := [[s[0]] + rest[0]] + rest[1..];
        assert Split(s, sep) == parts;
        if |rest| == 1 {
          assert Join(rest, sep) == rest[0];
        } else {
          assert parts[1..] == rest[1..];
          assert Join(rest, sep) == rest[0] + [sep] + Join(rest[1..], sep);
          assert Join(parts, sep) == [s[0]] + rest[0] + [sep] + Join(rest[1..], sep);
        }
      }
    }
  }

  /** A string without the separator is a single piece. */
  lemma {:induction false} SplitWithoutSeparator(s: string, sep: char)
    requires sep !in s
    ensures Split(s, sep) == [s]
    decreases |s|
  {
    if s != [] {
      assert sep !in s[1..] by {
        forall i | 0 <= i < |s[1..]| ensures s[1..][i] != sep {
          assert s[1..][i] == s[i + 1];
        }
      }
      SplitWithoutSeparator(s[1..], sep);
      assert [s[0]] + s[1..] == s;
    }
  }

  /** A separator between two strings separates their pieces. */
  lemma {:induction false} SplitAround(a: string, b: string, sep: char)
    ensures Split(a + [sep] + b, sep) == Split(a, sep) + Split(b, sep)
    decreases |a|
  {
    if a == [] {
      assert a + [sep] + b == [sep] + b;
      assert ([sep] + b)[1..] == b;
    } else {
      var s := a + [sep] + b;
      assert s[0] == a[0];
      assert s[1..] == a[1..] + [sep] + b;
      SplitAround(a[1..], b, sep);
    }
  }

  /** Splitting a join of separator-free pieces gives back the pieces. */
  lemma {:induction false} SplitJoin(parts: seq<string>, sep: char)
    requires |parts| >= 1
    requires forall i :: 0 <= i < |parts| ==> sep !in parts[i]
    ensures Split(Join(parts, sep), sep) == parts
    decreases |parts|
  {
    SplitWithoutSeparator(parts[0], sep);
    if |parts| > 1 {
      SplitJoin(parts[1..], sep);
      SplitAround(parts[0], Join(parts[1..], sep), sep);
      assert [parts[0]] + parts[1..] == parts;
    }
  }

  lemma {:induction false} SplitTwo(x: string, y: string, sep: char)
    requires sep !in x && sep !in y
    ensures Split(x + [sep] + y, sep) == [x, y]
  {
    SplitAround(x, y, sep);
    SplitWithoutSeparator(x, sep);
    SplitWithoutSeparator(y, sep);
  }

  lemma {:induction false} SplitThree(x: string, y: string, z: string, sep: char)
    requires sep !in x && sep !in y && sep !in z
    ensures Split(x + [sep] + y + [sep] + z, sep) == [x, y, z]
  {
    assert x + [sep] + y + [sep] + z == x + [sep] + (y + [sep] + z);
    SplitAround(x, y + [sep] + z, sep);
    SplitWithoutSeparator(x, sep);
    SplitTwo(y, z, sep);
  }

  // ---------------------------------------------------------------- string.Split(string)[0]

  predicate OccursAt(s: string, sub: string, i: int) {
    0 <= i && i + |sub| <= |s| && s[i..i + |sub|] == sub
  }

  /**
   * `s.Split(sub)[0]`: the text before the first occurrence of `sub` (ordinal
   * comparison), or all of `s` when `sub` does not occur.
   */
  function FirstPiece(s: string, sub: string): (r: string)
    requires |sub| > 0
    ensures r <= s
    ensures forall i :: 0 <= i <= |r| - |sub| ==> !OccursAt(s, sub, i)
    ensures |r| < |s| ==> OccursAt(s, sub, |r|)
    decreases |s|
  {
    if |s| < |sub| then s
    else if s[..|sub|] == sub then ""
    else
      var rest := FirstPiece(s[1..], sub);
      assert forall i :: 1 <= i && OccursAt(s, sub, i) ==> OccursAt(s[1..], sub, i - 1) by {
        forall i | 1 <= i && OccursAt(s, sub, i) ensures OccursAt(s[1..], sub, i - 1) {
          assert s[1..][i - 1..i - 1 + |sub|] == s[i..i + |sub|];
        }
      }
      assert OccursAt(s[1..], sub, |rest|) ==> OccursAt(s, sub, |rest| + 1) by {
        if |rest| + |sub| <= |s[1..]| {
          assert s[1..][|rest|..|rest| + |sub|] == s[|rest| + 1..|rest| + 1 + |sub|];
        }
      }
      [s[0]] + rest
  }

  /** The text before a separator that cannot start inside it is exactly that text. */
  lemma {:induction false} FirstPieceBefore(x: string, sub: string, rest: string)
    requires |sub| > 0 && sub[0] !in x
    ensures FirstPiece(x + sub + rest, sub) == x
    decreases |x|
  {
    var s := x + sub + rest;
    if x == [] {
      assert s[..|sub|] == sub;
    } else {
      assert s[0] == x[0] != sub[0];
      assert s[..|sub|][0] == s[0];
      assert s[1..] == x[1..] + sub + rest;
      FirstPieceBefore(x[1..], sub, rest);
      assert [x[0]] + x[1..] == x;
    }
  }

  // ---------------------------------------------------------------- int.Parse / Int32.ToString

  /** The white space int.Parse skips around a number: U+0009 to U+000D and U+0020. */
  predicate IsWhite(c: char) {
    c == ' ' || ('\t' <= c <= '\r')
  }

  predicate IsDigit(c: char) {
    '0' <= c <= '9'
  }

  predicate AllDigits(s: string) {
    forall i :: 0 <= i < |s| ==> IsDigit(s[i])
  }

  function TrimStart(s: string): string
    decreases |s|
  {
    if s != [] && IsWhite(s[0]) then TrimStart(s[1..]) else s
  }

  function TrimEnd(s: string): string
    decreases |s|
  {
    if s != [] && IsWhite(s[|s| - 1]) then TrimEnd(s[..|s| - 1]) else s
  }

  function DigitValue(c: char): nat
    requires IsDigit(c)
  {
    c as int - '0' as int
  }

  function DigitsValue(s: string): nat
    requires AllDigits(s)
    decreases |s|
  {
    if s == [] then 0 else 10 * DigitsValue(s[..|s| - 1]) + DigitValue(s[|s| - 1])
  }

  /** The exceptions the parsing code paths can throw. */
  datatype ParseFailure =
    | FormatError       // FormatException: not an optionally signed run of digits
    | OverflowError     // OverflowException: outside the Int32 range
    | IndexOutOfRange   // IndexOutOfRangeException: a missing section after Split

  /**
   * `int.Parse(s)` with NumberStyles.Integer and the invariant culture: optional
   * white space, an optional '+' or '-', at least one ASCII digit, optional white
   * space; the value must fit an Int32.
   */
  function ParseInt32(s: string): (r: Result<Int32, ParseFailure>)
    ensures r.Success? && '-' !in s ==> r.value >= 0
    ensures r.Failure? ==> r.error != IndexOutOfRange
  {
    var t := TrimEnd(TrimStart(s));
    if t == [] then Failure(FormatError)
    else
      var digits := if t[0] == '-' || t[0] == '+' then t[1..] else t;
      if digits == [] || !AllDigits(digits) then Failure(FormatError)
      else
        TrimmedIn(s);
        var n: int := if t[0] == '-' then 0 - DigitsValue(digits) as int else DigitsValue(digits);
        if IsInt32(n) then Success(n) else Failure(OverflowError)
  }

  /** Trimming only removes characters. */
  lemma {:induction false} TrimmedIn(s: string)
    ensures forall c :: c in TrimEnd(TrimStart(s)) ==> c in s
  {
    TrimStartIn(s);
    TrimEndIn(TrimStart(s));
  }

  lemma {:induction false} TrimStartIn(s: string)
    ensures forall c :: c in TrimStart(s) ==> c in s
    decreases |s|
  {
    if s != [] && IsWhite(s[0]) {
      TrimStartIn(s[1..]);
    }
  }

  lemma {:induction false} TrimEndIn(s: string)
    ensures forall c :: c in TrimEnd(s) ==> c in s
    decreases |s|
  {
    if s != [] && IsWhite(s[|s| - 1]) {
      TrimEndIn(s[..|s| - 1]);
    }
  }

  function DigitChar(d: nat): (c: char)
    requires d < 10
    ensures IsDigit(c) && DigitValue(c) == d
  {
    ('0' as int + d) as char
  }

  /** Int32.ToString() of a non-negative value: its decimal digits, no leading zero. */
  function NatToString(n: nat): (s: string)
    ensures |s| >= 1 && AllDigits(s)
    ensures DigitsValue(s) == n
    ensures n > 0 ==> s[0] != '0'
    decreases n
  {
    if n < 10 then [DigitChar(n)]
    else
      var s := NatToString(n / 10) + [DigitChar(n % 10)];
      assert s[..|s| - 1] == NatToString(n / 10);
      s
  }

  /** Int32.ToString() with the invariant culture: a '-' before the digits of a negative value. */
  function IntToString(n: int): (s: string)
    ensures '.' !in s && ' ' !in s
    ensures n >= 0 <==> '-' !in s
  {
    if n < 0 then "-" + NatToString(-n) else NatToString(n)
  }

  /** The leading decimal digit of a positive number. */
  function LeadingDigit(n: nat): (d: nat)
    requires n > 0
    ensures 1 <= d <= 9
    decreases n
  {
    if n < 10 then n else LeadingDigit(n / 10)
  }

  lemma {:induction false} NatToStringStartsWithLeadingDigit(n: nat)
    requires n > 0
    ensures NatToString(n)[0] == DigitChar(LeadingDigit(n))
    decreases n
  {
    if n >= 10 {
      NatToStringStartsWithLeadingDigit(n / 10);
    }
  }

  /** Parsing the decimal rendering of any Int32 gives the number back. */
  lemma {:induction false} ParseIntToString(n: int)
    requires IsInt32(n)
    ensures ParseInt32(IntToString(n)) == Success(n)
  {
    var s := IntToString(n);
    assert s != [] && !IsWhite(s[0]) && !IsWhite(s[|s| - 1]);
    assert TrimStart(s) == s;
    assert TrimEnd(s) == s;
    if n < 0 {
      assert s[1..] == NatToString(-n);
    }
  }

  // ---------------------------------------------------------------- Paths

  /** .NET Path.Combine(a, b) on Unix. */
  function CombinePath(a: string, b: string): string {
    if b == [] then a
    else if a == [] || b[0] == '/' then b
    else if a[|a| - 1] == '/' then a + b
    else a + "/" + b
  }

  /** Python's os.path.join(a, b). */
  function JoinPath(a: string, b: string): string {
    if b != [] && b[0] == '/' then b
    else if a == [] || a[|a| - 1] == '/' then a + b
    else a + "/" + b
  }

  // ---------------------------------------------------------------- Comparisons

  /** char.IsWhiteSpace: the Unicode white-space characters. */
  predicate IsWhiteSpace(c: char) {
    IsWhite(c) || c == '\U{0085}' || c == '\U{00A0}' || c == '\U{1680}'
    || ('\U{2000}' <= c <= '\U{200A}') || c == '\U{2028}' || c == '\U{2029}'
    || c == '\U{202F}' || c == '\U{205F}' || c == '\U{3000}'
  }

  /** string.IsNullOrWhiteSpace for a non-null string. */
  predicate IsWhiteSpaceOnly(s: string) {
    forall i :: 0 <= i < |s| ==> IsWhiteSpace(s[i])
  }

  function ToLowerAscii(c: char): char {
    if 'A' <= c <= 'Z' then (c as int + 32) as char else c
  }

  function LowerAscii(s: string): (r: string)
    ensures |r| == |s|
    ensures forall i :: 0 <= i < |s| ==> r[i] == ToLowerAscii(s[i])
  {
    seq(|s|, i requires 0 <= i < |s| => ToLowerAscii(s[i]))
  }

  /**
   * `a.Equals(b, StringComparison.CurrentCultureIgnoreCase)`, with case folded for
   * ASCII letters only.
   */
  predicate EqualsIgnoreCase(a: string, b: string) {
    LowerAscii(a) == LowerAscii(b)
  }

  /** Two characters that are equal, or the upper- and lower-case forms of one ASCII letter. */
  predicate SameLetterIgnoringCase(x: char, y: char) {
    || x == y
    || ('A' <= x <= 'Z' && y as int == x as int + 32)
    || ('A' <= y <= 'Z' && x as int == y as int + 32)
  }

  /**
   * Comparing without case: the strings have the same length and agree position
   * by position, up to the case of ASCII letters.
   */
  lemma EqualsIgnoreCaseMeaning(a: string, b: string)
    ensures EqualsIgnoreCase(a, b) <==>
      |a| == |b| && forall i :: 0 <= i < |a| ==> SameLetterIgnoringCase(a[i], b[i])
  {
  }
}
