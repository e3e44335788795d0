/** Character and string helpers the .NET runtime supplies to the controllers:
    `char.IsWhiteSpace`, `string.Trim`, `string.IsNullOrWhiteSpace`, ASCII case
    mapping and `int.ToString()`. */
module Text {

  /** A UTF-16 code unit, which is what a C# `char` holds. */
  type CodeUnit = x: int | 0 <= x < 0x1_0000

  /** An 8-bit byte as held in a C# `byte[]`. */
  type Byte = x: int | 0 <= x < 0x100

  /** `char.IsWhiteSpace` on a UTF-16 code unit value: the Unicode space,
      line and paragraph separators (categories Zs, Zl, Zp) plus
      U+0009..U+000D and U+0085. */
  predicate IsWhiteSpaceUnit(u: int) {
    || (0x0009 <= u <= 0x000D)
    || u == 0x0020 || u == 0x0085 || u == 0x00A0 || u == 0x1680
    || (0x2000 <= u <= 0x200A)
    || u == 0x2028 || u == 0x2029 || u == 0x202F || u == 0x205F
    || u == 0x3000
  }

  predicate IsWhiteSpace(c: char) {
    IsWhiteSpaceUnit(c as int)
  }

  /** `string.IsNullOrWhiteSpace` (a null string is modelled as ""). */
  predicate IsBlank(s: string) {
    forall i :: 0 <= i < |s| ==> IsWhiteSpace(s[i])
  }

  /** `string.IsNullOrWhiteSpace` on text held as UTF-16 code units. */
  predicate IsBlankUnits(s: seq<CodeUnit>) {
    forall i :: 0 <= i < |s| ==> IsWhiteSpaceUnit(s[i])
  }

  /** The number of UTF-16 code units a character takes. */
  function UnitWidth(c: char): nat {
    if c as int < 0x1_0000 then 1 else 2
  }

  /** `string.Length`: the UTF-16 length, in which a character above U+FFFF
      counts twice (as its surrogate pair). */
  function UnitLength(s: string): (n: nat)
    ensures |s| <= n <= 2 * |s|
    ensures n == 0 <==> |s| == 0
    ensures n == 1 <==> |s| == 1 && s[0] as int < 0x1_0000
  {
    if |s| == 0 then 0 else UnitWidth(s[0]) + UnitLength(s[1..])
  }

  /** The UTF-16 length of a concatenation is the sum of the lengths. */
  lemma {:induction false} UnitLengthAppend(a: string, b: string)
    ensures UnitLength(a + b) == UnitLength(a) + UnitLength(b)
    decreases |a|
  {
    if |a| == 0 {
      assert a + b == b;
    } else {
      assert (a + b)[0] == a[0];
      assert (a + b)[1..] == a[1..] + b;
      UnitLengthAppend(a[1..], b);
    }
  }

  /** `s` begins with `prefix`. */
  predicate StartsWith<T(==)>(s: seq<T>, prefix: seq<T>) {
    |s| >= |prefix| && s[..|prefix|] == prefix
  }

  lemma StartsWith2<T>(s: seq<T>, a: T, b: T)
    ensures StartsWith(s, [a, b]) <==> |s| >= 2 && s[0] == a && s[1] == b
  {
    if |s| >= 2 {
      assert s[..2][0] == s[0] && s[..2][1] == s[1];
    }
  }

  lemma StartsWith3<T>(s: seq<T>, a: T, b: T, c: T)
    ensures StartsWith(s, [a, b, c]) <==> |s| >= 3 && s[0] == a && s[1] == b && s[2] == c
  {
    if |s| >= 3 {
      assert s[..3][0] == s[0] && s[..3][1] == s[1] && s[..3][2] == s[2];
    }
  }

  lemma StartsWith4<T>(s: seq<T>, a: T, b: T, c: T, d: T)
    ensures StartsWith(s, [a, b, c, d]) <==> |s| >= 4 && s[0] == a && s[1] == b && s[2] == c && s[3] == d
  {
    if |s| >= 4 {
      assert s[..4][0] == s[0] && s[..4][1] == s[1] && s[..4][2] == s[2] && s[..4][3] == s[3];
    }
  }

  function TrimStart(s: string): (r: string)
    ensures |r| <= |s| && r == s[|s| - |r|..]
    ensures forall i :: 0 <= i < |s| - |r| ==> IsWhiteSpace(s[i])
    ensures |r| > 0 ==> !IsWhiteSpace(r[0])
  {
    if |s| > 0 && IsWhiteSpace(s[0]) then TrimStart(s[1..]) else s
  }

  function TrimEnd(s: string): (r: string)
    ensures |r| <= |s| && r == s[..|r|]
    ensures forall i :: |r| <= i < |s| ==> IsWhiteSpace(s[i])
    ensures |r| > 0 ==> !IsWhiteSpace(r[|r| - 1])
  {
    if |s| > 0 && IsWhiteSpace(s[|s| - 1]) then TrimEnd(s[..|s| - 1]) else s
  }

  /** `string.Trim()`: `s` without its leading and trailing white space. The
      result is empty exactly for a blank `s`, and a value with no white space
      at either end is left as it is. */
  function Trim(s: string): (r: string)
    ensures |r| <= |s|
    ensures |r| > 0 ==> !IsWhiteSpace(r[0]) && !IsWhiteSpace(r[|r| - 1])
    ensures r == "" <==> IsBlank(s)
    ensures |s| == 0 || (!IsWhiteSpace(s[0]) && !IsWhiteSpace(s[|s| - 1])) ==> r == s
    ensures exists a :: IsSpan(s, a, r)
  {
    var t := TrimStart(s);
    var r := TrimEnd(t);
    SpanBetweenWhiteSpace(s, t, r);
    r
  }

  /** `r` is the stretch of `s` from index `a`, with only white space before
      and after it. */
  predicate IsSpan(s: string, a: int, r: string) {
    && 0 <= a <= |s| && |r| <= |s[a..]| && r == s[a..][..|r|]
    && (forall i :: 0 <= i < a ==> IsWhiteSpace(s[i]))
    && (forall i :: a + |r| <= i < |s| ==> IsWhiteSpace(s[i]))
  }

  /** A white-space suffix cut from a white-space-free-prefix cut of `s`
      leaves a span of `s`. */
  lemma SpanBetweenWhiteSpace(s: string, t: string, r: string)
    requires |t| <= |s| && t == s[|s| - |t|..]
    requires forall i :: 0 <= i < |s| - |t| ==> IsWhiteSpace(s[i])
    requires |r| <= |t| && r == t[..|r|]
    requires forall i :: |r| <= i < |t| ==> IsWhiteSpace(t[i])
    ensures IsSpan(s, |s| - |t|, r)
  {
    var a := |s| - |t|;
    forall i | a + |r| <= i < |s|
      ensures IsWhiteSpace(s[i])
    {
      assert s[i] == t[i - a];
    }
  }

  /** Trimming twice is trimming once. */
  lemma TrimIdempotent(s: string)
    ensures Trim(Trim(s)) == Trim(s)
  {
  }

  function AsciiLowerChar(c: char): (r: char)
    ensures 'A' <= c <= 'Z' ==> r as int == c as int + 32
    ensures !('A' <= c <= 'Z') ==> r == c
  {
    if 'A' <= c <= 'Z' then (c as int + 32) as char else c
  }

  function AsciiUpperChar(c: char): (r: char)
    ensures 'a' <= c <= 'z' ==> r as int == c as int - 32
    ensures !('a' <= c <= 'z') ==> r == c
  {
    if 'a' <= c <= 'z' then (c as int - 32) as char else c
  }

  /** `ToLowerInvariant` restricted to the ASCII letters. */
  function AsciiLower(s: string): (r: string)
    ensures |r| == |s|
    ensures forall i :: 0 <= i < |s| ==> r[i] == AsciiLowerChar(s[i])
  {
    if |s| == 0 then [] else [AsciiLowerChar(s[0])] + AsciiLower(s[1..])
  }

  /** `ToUpperInvariant` restricted to the ASCII letters. */
  function AsciiUpper(s: string): (r: string)
    ensures |r| == |s|
    ensures forall i :: 0 <= i < |s| ==> r[i] == AsciiUpperChar(s[i])
  {
    if |s| == 0 then [] else [AsciiUpperChar(s[0])] + AsciiUpper(s[1..])
  }

  /** `StringComparer.OrdinalIgnoreCase` restricted to the ASCII letters. */
  predicate EqualsIgnoreCase(a: string, b: string) {
    AsciiUpper(a) == AsciiUpper(b)
  }

  function DigitChar(d: nat): (c: char)
    requires d < 10
    ensures '0' <= c <= '9' && c as int - '0' as int == d
  {
    ('0' as int + d) as char
  }

  /** `int.ToString()` for a non-negative value: decimal digits, no sign, no
      leading zero. */
  function DecimalString(n: nat): (r: string)
    ensures |r| > 0
    ensures forall i :: 0 <= i < |r| ==> '0' <= r[i] <= '9'
    ensures |r| > 1 ==> r[0] != '0'
  {
    if n < 10 then [DigitChar(n)] else DecimalString(n / 10) + [DigitChar(n % 10)]
  }

  /** The value denoted by a string of decimal digits. */
  function DecimalValue(s: string): nat
    requires forall i :: 0 <= i < |s| ==> '0' <= s[i] <= '9'
  {
    if |s| == 0 then 0 else 10 * DecimalValue(s[..|s| - 1]) + (s[|s| - 1] as int - '0' as int)
  }

  /** Reading back the decimal string yields the number it was made from, so
      distinct numbers get distinct strings. */
  lemma {:induction false} DecimalStringRoundTrip(n: nat)
    ensures DecimalValue(DecimalString(n)) == n
  {
    if n >= 10 {
      var r := DecimalString(n);
      DecimalStringRoundTrip(n / 10);
      assert r[..|r| - 1] == DecimalString(n / 10);
    }
  }

  lemma DecimalStringInjective(m: nat, n: nat)
    ensures DecimalString(m) == DecimalString(n) ==> m == n
  {
    DecimalStringRoundTrip(m);
    DecimalStringRoundTrip(n);
  }
}
