/** String helpers the modelled Java code takes from `java.lang.String` and
    `java.util.Formatter`: ASCII case folding, `equalsIgnoreCase`,
    `contains`, `indexOf(char)` and the `%#x` hexadecimal conversion. */
module Text {

  // ---------------------------------------------------------------------
  // Case folding (ASCII letters only)
  // ---------------------------------------------------------------------

  function ToLowerChar(c: char): char {
    if 'A' <= c <= 'Z' then (c as int + 32) as char else c
  }

  function ToUpperChar(c: char): char {
    if 'a' <= c <= 'z' then (c as int - 32) as char else c
  }

  /** `String.toLowerCase` on ASCII letters, as `Locale.ROOT` folds them;
      every other character is left as it is. */
  function ToLower(s: string): (r: string)
    ensures |r| == |s|
    ensures forall i :: 0 <= i < |s| ==> r[i] == ToLowerChar(s[i])
  {
    seq(|s|, i requires 0 <= i < |s| => ToLowerChar(s[i]))
  }

  /** Two characters match in `String.equalsIgnoreCase`: equal, equal after
      upper-casing, or equal after lower-casing. */
  predicate CharEqualsIgnoreCase(a: char, b: char) {
    a == b || ToUpperChar(a) == ToUpperChar(b) || ToLowerChar(a) == ToLowerChar(b)
  }

  /** `String.equalsIgnoreCase`, compared character by character from the front. */
  predicate EqualsIgnoreCase(a: string, b: string) {
    |a| == |b| && (|a| == 0 || (CharEqualsIgnoreCase(a[0], b[0]) && EqualsIgnoreCase(a[1..], b[1..])))
  }

  lemma CharEqualsIgnoreCaseIffLower(a: char, b: char)
    ensures CharEqualsIgnoreCase(a, b) <==> ToLowerChar(a) == ToLowerChar(b)
  {
  }

  /** Case-insensitive equality is equality of the lower-cased strings, so a
      map keyed by lower-cased names is a case-insensitive map. */
  lemma {:induction false} EqualsIgnoreCaseIffSameLower(a: string, b: string)
    ensures EqualsIgnoreCase(a, b) <==> ToLower(a) == ToLower(b)
  {
    if |a| == |b| && |a| > 0 {
      EqualsIgnoreCaseIffSameLower(a[1..], b[1..]);
      CharEqualsIgnoreCaseIffLower(a[0], b[0]);
      assert ToLower(a) == [ToLowerChar(a[0])] + ToLower(a[1..]);
      assert ToLower(b) == [ToLowerChar(b[0])] + ToLower(b[1..]);
    } else if |a| != |b| {
      assert |ToLower(a)| != |ToLower(b)|;
    }
  }

  /** Case-insensitive equality is an equivalence: symmetric and transitive. */
  lemma EqualsIgnoreCaseEquivalence(a: string, b: string, c: string)
    ensures EqualsIgnoreCase(a, b) <==> EqualsIgnoreCase(b, a)
    ensures EqualsIgnoreCase(a, b) && EqualsIgnoreCase(b, c) ==> EqualsIgnoreCase(a, c)
  {
    EqualsIgnoreCaseIffSameLower(a, b);
    EqualsIgnoreCaseIffSameLower(b, a);
    EqualsIgnoreCaseIffSameLower(b, c);
    EqualsIgnoreCaseIffSameLower(a, c);
  }

  // ---------------------------------------------------------------------
  // Searching
  // ---------------------------------------------------------------------

  predicate IsPrefix(p: string, s: string) {
    |p| <= |s| && s[..|p|] == p
  }

  /** `String.contains`: `sub` occurs somewhere in `s`. */
  predicate Contains(s: string, sub: string)
    decreases |s|
  {
    IsPrefix(sub, s) || (|s| > 0 && Contains(s[1..], sub))
  }

  /** `sub` occurs in `s` starting at offset `i`. */
  predicate OccursAt(s: string, sub: string, i: int) {
    0 <= i <= |s| - |sub| && s[i..i + |sub|] == sub
  }

  /** `Contains` holds exactly when `sub` occurs at some offset of `s`. */
  lemma {:induction false} ContainsIffOccurs(s: string, sub: string)
    ensures Contains(s, sub) <==> exists i :: OccursAt(s, sub, i)
    decreases |s|
  {
    if IsPrefix(sub, s) {
      assert OccursAt(s, sub, 0);
    }
    if |s| > 0 {
      ContainsIffOccurs(s[1..], sub);
      if Contains(s[1..], sub) {
        var i :| OccursAt(s[1..], sub, i);
        assert OccursAt(s, sub, i + 1);
      }
      if exists i :: OccursAt(s, sub, i) {
        var i :| OccursAt(s, sub, i);
        if i > 0 {
          assert OccursAt(s[1..], sub, i - 1);
        }
      }
    }
  }

  /** `String.indexOf(char)`: the first index of `c` in `s`, or -1. */
  function IndexOf(s: string, c: char): (r: int)
    ensures -1 <= r < |s|
    ensures r == -1 <==> c !in s
    ensures r >= 0 ==> s[r] == c && c !in s[..r]
  {
    if |s| == 0 then -1
    else if s[0] == c then 0
    else
      var k := IndexOf(s[1..], c);
      assert s == [s[0]] + s[1..];
      if k == -1 then -1
      else
        assert s[..k + 1] == [s[0]] + s[1..][..k];
        k + 1
  }

  // ---------------------------------------------------------------------
  // Hexadecimal rendering, as by `String.format("%#x", n)`
  // ---------------------------------------------------------------------

  const HEX_DIGITS: string := "0123456789abcdef"
  const DECIMAL_DIGITS: string := "0123456789"

  function DigitValue(c: char): nat {
    if '0' <= c <= '9' then c as int - '0' as int
    else if 'a' <= c <= 'f' then c as int - 'a' as int + 10
    else 0
  }

  /** Lower-case hexadecimal digits of `n`, most significant first, without
      leading zeros (a single "0" for zero). */
  function Hex(n: nat): (s: string)
    ensures |s| >= 1
    ensures s[0] == '0' <==> n == 0
    ensures forall i :: 0 <= i < |s| ==> s[i] in HEX_DIGITS
    decreases n
  {
    if n < 16 then [HEX_DIGITS[n]] else Hex(n / 16) + [HEX_DIGITS[n % 16]]
  }

  /** Value of a string of hexadecimal digits. */
  function ParseHex(s: string): nat
    decreases |s|
  {
    if |s| == 0 then 0 else 16 * ParseHex(s[..|s| - 1]) + DigitValue(s[|s| - 1])
  }

  lemma DigitValueOfHexDigit(d: nat)
    requires d < 16
    ensures DigitValue(HEX_DIGITS[d]) == d
  {
  }

  /** Reading back the rendered digits gives the number: `Hex` loses nothing. */
  lemma {:induction false} ParseHexOfHex(n: nat)
    ensures ParseHex(Hex(n)) == n
    decreases n
  {
    if n < 16 {
      DigitValueOfHexDigit(n);
      assert Hex(n)[..0] == [];
    } else {
      var s := Hex(n);
      assert s[..|s| - 1] == Hex(n / 16);
      ParseHexOfHex(n / 16);
      DigitValueOfHexDigit(n % 16);
    }
  }

  /** Different numbers render differently. */
  lemma HexInjective(m: nat, n: nat)
    requires Hex(m) == Hex(n)
    ensures m == n
  {
    ParseHexOfHex(m);
    ParseHexOfHex(n);
  }

  /** Decimal digits of `n`, as `Integer.toString` writes a non-negative int. */
  function Decimal(n: nat): string
    decreases n
  {
    if n < 10 then [DECIMAL_DIGITS[n]] else Decimal(n / 10) + [DECIMAL_DIGITS[n % 10]]
  }

  /** `String.format("%#x", n)`: Java always prefixes the radix indicator. */
  function Format0x(n: nat): string {
    "0x" + Hex(n)
  }
}
