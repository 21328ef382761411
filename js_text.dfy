/**
 * The pieces of ECMAScript string handling the routes rely on: the white-space
 * class that `\s` matches and `String.prototype.trim` strips, `trim` itself,
 * `startsWith`, and `Number.prototype.toString(radix)` on non-negative integers.
 */
module JsText {

  /**
   * WhiteSpace and LineTerminator code points of ECMAScript: tab, line feed,
   * vertical tab, form feed, carriage return, space, no-break space, the
   * Unicode space separators, line and paragraph separators, and the byte-order mark.
   */
  predicate IsJsSpace(c: char) {
    var n := c as int;
    n == 0x09 || n == 0x0A || n == 0x0B || n == 0x0C || n == 0x0D || n == 0x20 ||
    n == 0xA0 || n == 0x1680 || (0x2000 <= n <= 0x200A) || n == 0x2028 || n == 0x2029 ||
    n == 0x202F || n == 0x205F || n == 0x3000 || n == 0xFEFF
  }

  predicate AllSpace(s: string) {
    forall i | 0 <= i < |s| :: IsJsSpace(s[i])
  }

  /** The length of the run of white space `s` starts with. */
  function LeadingSpace(s: string): (n: nat)
    ensures n <= |s|
    ensures forall i | 0 <= i < n :: IsJsSpace(s[i])
    ensures n < |s| ==> !IsJsSpace(s[n])
  {
    if s != [] && IsJsSpace(s[0]) then 1 + LeadingSpace(s[1..]) else 0
  }

  /** The length of the run of white space `s` ends with. */
  function TrailingSpace(s: string): (n: nat)
    ensures n <= |s|
    ensures forall i | |s| - n <= i < |s| :: IsJsSpace(s[i])
    ensures n < |s| ==> !IsJsSpace(s[|s| - 1 - n])
  {
    if s != [] && IsJsSpace(s[|s| - 1]) then 1 + TrailingSpace(s[..|s| - 1]) else 0
  }

  /**
   * `String.prototype.trim`: the slice of `s` between its leading and its
   * trailing white space. It neither starts nor ends with white space, and is
   * empty exactly for an all-white-space string.
   */
  function Trim(s: string): (r: string)
    ensures var a := LeadingSpace(s); a + |r| <= |s| && r == s[a..a + |r|]
    ensures forall i | LeadingSpace(s) + |r| <= i < |s| :: IsJsSpace(s[i])
    ensures r == [] || (!IsJsSpace(r[0]) && !IsJsSpace(r[|r| - 1]))
    ensures r == [] <==> AllSpace(s)
  {
    var a := LeadingSpace(s);
    if a == |s| then []
    else
      var n := TrailingSpace(s);
      s[a..|s| - n]
  }

  /** `s.startsWith(prefix)`. */
  predicate StartsWith(s: string, prefix: string) {
    |prefix| <= |s| && s[..|prefix|] == prefix
  }

  /** The lower-case digit character for `d`: `0`-`9`, then `a`-`z`. */
  function DigitChar(d: nat): (c: char)
    requires d < 36
    ensures DigitValue(c) == d
  {
    if d < 10 then ('0' as int + d) as char else ('a' as int + d - 10) as char
  }

  /** The value of a lower-case digit character, or -1 for any other character. */
  function DigitValue(c: char): int {
    if '0' <= c <= '9' then c as int - '0' as int
    else if 'a' <= c <= 'z' then c as int - 'a' as int + 10
    else -1
  }

  predicate IsDigitString(s: string, radix: nat) {
    forall i | 0 <= i < |s| :: 0 <= DigitValue(s[i]) < radix
  }

  /**
   * `Number.prototype.toString(radix)` on a non-negative integer: its digits
   * in that radix, lower case, with no leading zero.
   */
  function NumberToString(n: nat, radix: nat): (r: string)
    requires 2 <= radix <= 36
    ensures r != [] && IsDigitString(r, radix)
    ensures DigitValue(r[0]) == 0 <==> n == 0
    ensures n == 0 ==> r == "0"
    decreases n
  {
    if n < radix then [DigitChar(n)]
    else
      DivStep(n, radix);
      NumberToString(n / radix, radix) + [DigitChar(n % radix)]
  }

  /** The number a digit string denotes in the given radix. */
  function DigitsValue(s: string, radix: nat): nat
    requires 2 <= radix <= 36 && IsDigitString(s, radix)
  {
    if s == [] then 0
    else DigitsValue(s[..|s| - 1], radix) * radix + DigitValue(s[|s| - 1])
  }

  /** Reading the digits back gives the number: the rendering loses nothing. */
  lemma {:induction false} NumberToStringRoundTrip(n: nat, radix: nat)
    requires 2 <= radix <= 36
    ensures DigitsValue(NumberToString(n, radix), radix) == n
    decreases n
  {
    var r := NumberToString(n, radix);
    if n < radix {
      assert r[..0] == [];
    } else {
      var q := n / radix;
      DivStep(n, radix);
      NumberToStringRoundTrip(q, radix);
      assert r[..|r| - 1] == NumberToString(q, radix);
      assert DigitValue(r[|r| - 1]) == n % radix;
      calc {
        DigitsValue(r, radix);
        DigitsValue(NumberToString(q, radix), radix) * radix + n % radix;
        q * radix + n % radix;
      }
    }
  }

  lemma DivStep(n: nat, radix: nat)
    requires 2 <= radix <= n
    ensures 1 <= n / radix < n && (n / radix) * radix + n % radix == n
  {
  }

  /** Two numbers render alike only when they are equal. */
  lemma NumberToStringInjective(m: nat, n: nat, radix: nat)
    requires 2 <= radix <= 36
    requires NumberToString(m, radix) == NumberToString(n, radix)
    ensures m == n
  {
    NumberToStringRoundTrip(m, radix);
    NumberToStringRoundTrip(n, radix);
  }
}
