/** Values and string helpers shared by every part of the model: the optional
    value that stands for SQL NULL and JavaScript undefined, JavaScript string
    truthiness, and the few text operations the handlers rely on (prefix tests,
    decimal rendering, `parseInt`, `trim`, `toLowerCase`). */
module Common {

  datatype Option<+T> = None | Some(value: T)

  /** A JavaScript value that may be a string, `undefined` or `null` is truthy
      exactly when it is a non-empty string. */
  predicate Truthy(o: Option<string>) {
    o.Some? && o.value != ""
  }

  /** JavaScript `o || fallback` for a possibly missing string. */
  function OrElse(o: Option<string>, fallback: string): (r: string)
    ensures Truthy(o) ==> r == o.value
    ensures !Truthy(o) ==> r == fallback
  {
    if Truthy(o) then o.value else fallback
  }

  /** JavaScript `o || null` for a possibly missing string: an empty string becomes NULL. */
  function NullIfFalsy(o: Option<string>): (r: Option<string>)
    ensures r.Some? <==> Truthy(o)
    ensures r.Some? ==> r == o
  {
    if Truthy(o) then o else None
  }

  predicate StartsWith(s: string, prefix: string) {
    |prefix| <= |s| && s[..|prefix|] == prefix
  }

  /** `sub` occurs in `s` starting at position `i`. */
  predicate OccursAt(s: string, sub: string, i: int) {
    0 <= i <= |s| - |sub| && s[i..i + |sub|] == sub
  }

  /** SQL `LIKE '%sub%'` without wildcard characters inside `sub`. */
  predicate Contains(s: string, sub: string) {
    exists i :: 0 <= i <= |s| - |sub| && OccursAt(s, sub, i)
  }

  predicate IsDigit(c: char) {
    '0' <= c <= '9'
  }

  predicate AllDigits(s: string) {
    forall i :: 0 <= i < |s| ==> IsDigit(s[i])
  }

  function DigitChar(d: nat): (c: char)
    requires d < 10
    ensures IsDigit(c)
  {
    (('0' as int) + d) as char
  }

  function DigitValue(c: char): (d: nat)
    requires IsDigit(c)
    ensures d < 10
  {
    (c as int) - ('0' as int)
  }

  /** The decimal text of a natural number, as JavaScript's template literals
      and SQL's `||` render an integer id. */
  function Decimal(n: nat): (s: string)
    ensures |s| >= 1 && AllDigits(s)
    ensures n < 10 <==> |s| == 1
    decreases n
  {
    if n < 10 then [DigitChar(n)] else Decimal(n / 10) + [DigitChar(n % 10)]
  }

  /** The value of a string of decimal digits. */
  function DigitsValue(s: string): nat
    requires AllDigits(s)
    decreases |s|
  {
    if s == [] then 0 else DigitsValue(s[..|s| - 1]) * 10 + DigitValue(s[|s| - 1])
  }

  /** The longest prefix of `s` made of decimal digits. */
  function LeadingDigits(s: string): (r: string)
    ensures |r| <= |s| && r == s[..|r|]
    ensures AllDigits(r)
    ensures |r| < |s| ==> !IsDigit(s[|r|])
    decreases |s|
  {
    if s == [] || !IsDigit(s[0]) then [] else [s[0]] + LeadingDigits(s[1..])
  }

  /** JavaScript `parseInt(s, 10)` on text without sign or leading blanks:
      the value of the leading digits, or `None` (NaN) when there are none. */
  function ParseInt(s: string): (r: Option<nat>)
    ensures r.None? <==> (s == [] || !IsDigit(s[0]))
  {
    var d := LeadingDigits(s);
    if d == [] then None else Some(DigitsValue(d))
  }

  predicate IsHexDigit(c: char) {
    IsDigit(c) || 'a' <= c <= 'f' || 'A' <= c <= 'F'
  }

  predicate AllHexDigits(s: string) {
    forall i :: 0 <= i < |s| ==> IsHexDigit(s[i])
  }

  function HexDigitValue(c: char): (d: nat)
    requires IsHexDigit(c)
    ensures d < 16
    ensures IsDigit(c) ==> d == DigitValue(c)
  {
    if IsDigit(c) then DigitValue(c)
    else if 'a' <= c <= 'f' then (c as int) - ('a' as int) + 10
    else (c as int) - ('A' as int) + 10
  }

  /** The value of a string of hexadecimal digits. */
  function HexDigitsValue(s: string): nat
    requires AllHexDigits(s)
    decreases |s|
  {
    if s == [] then 0 else HexDigitsValue(s[..|s| - 1]) * 16 + HexDigitValue(s[|s| - 1])
  }

  /** The longest prefix of `s` made of hexadecimal digits. */
  function LeadingHexDigits(s: string): (r: string)
    ensures |r| <= |s| && r == s[..|r|]
    ensures AllHexDigits(r)
    ensures |r| < |s| ==> !IsHexDigit(s[|r|])
    decreases |s|
  {
    if s == [] || !IsHexDigit(s[0]) then [] else [s[0]] + LeadingHexDigits(s[1..])
  }

  /** Text that `parseInt` without a radix reads in base 16. */
  predicate HexPrefixed(s: string) {
    |s| >= 2 && s[0] == '0' && (s[1] == 'x' || s[1] == 'X')
  }

  /** JavaScript `parseInt(s)` with no radix, on text without sign or
      leading blanks: after a `0x` or `0X` prefix the leading hexadecimal
      digits are read, NaN (`None`) when there are none; any other text is
      read as `parseInt(s, 10)`. */
  function ParseIntNoRadix(s: string): (r: Option<nat>)
    ensures !HexPrefixed(s) ==> r == ParseInt(s)
    ensures HexPrefixed(s) ==> (r.None? <==> |s| == 2 || !IsHexDigit(s[2]))
  {
    if HexPrefixed(s) then
      var h := LeadingHexDigits(s[2..]);
      if h == [] then None else Some(HexDigitsValue(h))
    else ParseInt(s)
  }

  /** On a `0x` prefix the two readings part: base 10 stops at the `x` and
      gives 0, whatever follows. */
  lemma HexPrefixReadsZeroInDecimal(s: string)
    requires HexPrefixed(s)
    ensures ParseInt(s) == Some(0)
  {
    assert LeadingDigits(s) == "0" by {
      assert LeadingDigits(s[1..]) == [];
    }
    assert DigitsValue("0") == 0 by {
      assert "0"[..0] == [];
    }
  }

  /** `"0x1f"` is 31 without a radix and 0 with radix 10, and `"0x"` is NaN
      without a radix. */
  lemma HexPrefixExamples()
    ensures ParseIntNoRadix("0x1f") == Some(31)
    ensures ParseInt("0x1f") == Some(0)
    ensures ParseIntNoRadix("0x") == None
  {
    var t := "0x1f"[2..];
    assert t == "1f";
    assert LeadingHexDigits(t) == t by {
      assert LeadingHexDigits(t[1..]) == "f" by {
        assert t[1..][1..] == [];
      }
    }
    assert HexDigitsValue("1f") == 31 by {
      assert "1f"[..1] == "1";
      assert HexDigitsValue("1") == 1 by {
        assert "1"[..0] == [];
      }
    }
    HexPrefixReadsZeroInDecimal("0x1f");
  }

  lemma {:induction false} DigitsValueOfDecimal(n: nat)
    ensures DigitsValue(Decimal(n)) == n
    decreases n
  {
    if n >= 10 {
      DigitsValueOfDecimal(n / 10);
      var s := Decimal(n);
      assert s[..|s| - 1] == Decimal(n / 10);
    }
  }

  lemma {:induction false} LeadingDigitsOfDigits(s: string)
    requires AllDigits(s)
    ensures LeadingDigits(s) == s
    decreases |s|
  {
    if s != [] {
      LeadingDigitsOfDigits(s[1..]);
    }
  }

  /** Rendering an id in decimal and parsing it back gives the id. */
  lemma ParseIntOfDecimal(n: nat)
    ensures ParseInt(Decimal(n)) == Some(n)
  {
    LeadingDigitsOfDigits(Decimal(n));
    DigitsValueOfDecimal(n);
  }

  /** An id rendered in decimal reads back the same without a radix: a
      decimal text never carries the `0x` prefix. */
  lemma ParseIntNoRadixOfDecimal(n: nat)
    ensures ParseIntNoRadix(Decimal(n)) == Some(n)
  {
    var d := Decimal(n);
    assert !HexPrefixed(d) by {
      if |d| >= 2 {
        assert IsDigit(d[1]);
      }
    }
    ParseIntOfDecimal(n);
  }

  /** Decimal rendering is injective, so distinct ids give distinct text. */
  lemma DecimalInjective(m: nat, n: nat)
    ensures Decimal(m) == Decimal(n) ==> m == n
  {
    ParseIntOfDecimal(m);
    ParseIntOfDecimal(n);
  }

  /** The white-space characters removed by `trim` (the ASCII blanks and the no-break space). */
  predicate IsSpace(c: char) {
    c == ' ' || c == '\t' || c == '\n' || c == '\r' || c == '\U{000B}' || c == '\U{000C}' || c == '\U{00A0}'
  }

  function TrimStart(s: string): (r: string)
    ensures |r| <= |s| && r == s[|s| - |r|..]
    ensures forall i :: 0 <= i < |s| - |r| ==> IsSpace(s[i])
    ensures r != [] ==> !IsSpace(r[0])
    decreases |s|
  {
    if s != [] && IsSpace(s[0]) then TrimStart(s[1..]) else s
  }

  function TrimEnd(s: string): (r: string)
    ensures |r| <= |s| && r == s[..|r|]
    ensures forall i :: |r| <= i < |s| ==> IsSpace(s[i])
    ensures r != [] ==> !IsSpace(r[|r| - 1])
    decreases |s|
  {
    if s != [] && IsSpace(s[|s| - 1]) then TrimEnd(s[..|s| - 1]) else s
  }

  /** JavaScript `trim`: the text between the leading and the trailing white space. */
  function Trim(s: string): (r: string)
    ensures Contains(s, r)
    ensures r != [] ==> !IsSpace(r[0]) && !IsSpace(r[|r| - 1])
  {
    var t := TrimStart(s);
    var r := TrimEnd(t);
    assert OccursAt(s, r, |s| - |t|);
    r
  }

  /** A string made only of white space trims to the empty string, and only such a string does. */
  lemma TrimEmptyIffBlank(s: string)
    ensures Trim(s) == [] <==> forall i :: 0 <= i < |s| ==> IsSpace(s[i])
  {
  }

  function LowerChar(c: char): char {
    if 'A' <= c <= 'Z' then ((c as int) + 32) as char else c
  }

  /** `toLowerCase` on the ASCII letters. */
  function Lower(s: string): (r: string)
    ensures |r| == |s|
    ensures forall i :: 0 <= i < |s| ==> r[i] == LowerChar(s[i])
  {
    seq(|s|, i requires 0 <= i < |s| => LowerChar(s[i]))
  }
}
