/** Decimal text of integers as Python writes and reads it: `str(n)`, the
    zero-padded `f"{n:02}"` format, and `int(s)` on a string. */
module Decimal {
  import opened Wrappers
  import opened Strings

  predicate IsDigit(c: char) {
    '0' <= c <= '9'
  }

  predicate AllDigits(s: string) {
    forall i :: 0 <= i < |s| ==> IsDigit(s[i])
  }

  function DigitChar(d: nat): (c: char)
    requires d < 10
    ensures IsDigit(c)
  {
    ('0' as int + d) as char
  }

  function DigitValue(c: char): (d: nat)
    requires IsDigit(c)
    ensures d < 10 && DigitChar(d) == c
  {
    c as int - '0' as int
  }

  /** The number a string of decimal digits denotes, most significant first. */
  function DigitsValue(s: string): nat
    requires AllDigits(s)
  {
    if |s| == 0 then 0 else DigitsValue(s[..|s| - 1]) * 10 + DigitValue(s[|s| - 1])
  }

  /** Python's `str(n)` for a non-negative `n`: digits only, and no leading
      zero unless the number is zero itself. */
  function NatToDecimal(n: nat): (s: string)
    ensures |s| >= 1 && AllDigits(s)
    ensures s[0] == '0' ==> n == 0
    decreases n
  {
    if n < 10 then [DigitChar(n)] else NatToDecimal(n / 10) + [DigitChar(n % 10)]
  }

  /** Reading back the digits `str(n)` writes gives `n`. */
  lemma {:induction false} NatToDecimalValue(n: nat)
    ensures DigitsValue(NatToDecimal(n)) == n
    decreases n
  {
    if n >= 10 {
      var s := NatToDecimal(n);
      assert s[..|s| - 1] == NatToDecimal(n / 10);
      NatToDecimalValue(n / 10);
    }
  }

  /** The number of digits `str(n)` writes for one- and two-digit numbers. */
  lemma NatToDecimalWidth(n: nat)
    ensures n < 10 ==> |NatToDecimal(n)| == 1
    ensures 10 <= n < 100 ==> |NatToDecimal(n)| == 2
  {
  }

  /** Python's `str(i)` for any integer. */
  function IntToDecimal(i: int): string
  {
    if i < 0 then "-" + NatToDecimal(-i) else NatToDecimal(i)
  }

  /** Python's `f"{n:02}"` for a non-negative `n`: its digits, padded on the
      left with zeros to a width of two. */
  function ZeroPad2(n: nat): (s: string)
    ensures AllDigits(s) && DigitsValue(s) == n
    ensures n < 100 ==> |s| == 2
    ensures n >= 10 ==> s == NatToDecimal(n)
  {
    NatToDecimalValue(n);
    NatToDecimalWidth(n);
    if n < 10 then
      assert DigitsValue(("0" + NatToDecimal(n))[..1]) == 0;
      "0" + NatToDecimal(n)
    else
      NatToDecimal(n)
  }

  /** The characters `int()` ignores at both ends of its argument: the
      ASCII white space of C (space, tab, line feed, vertical tab, form feed,
      carriage return) and the non-ASCII characters `str.isspace` accepts,
      which `int()` first turns into spaces. The ASCII separators U+001C to
      U+001F satisfy `str.isspace` but are not ignored. */
  predicate IsSpace(c: char) {
    || c == ' ' || ('\t' <= c <= '\r')
    || c == '\U{85}' || c == '\U{A0}' || c == '\U{1680}'
    || ('\U{2000}' <= c <= '\U{200A}') || c == '\U{2028}' || c == '\U{2029}'
    || c == '\U{202F}' || c == '\U{205F}' || c == '\U{3000}'
  }

  /** Python's `s.lstrip()`: leading white space removed. */
  function LStripSpace(s: string): (r: string)
    ensures |r| <= |s| && r == s[|s| - |r|..]
    ensures forall i :: 0 <= i < |s| - |r| ==> IsSpace(s[i])
    ensures |r| > 0 ==> !IsSpace(r[0])
    decreases |s|
  {
    if |s| > 0 && IsSpace(s[0]) then LStripSpace(s[1..]) else s
  }

  /** Python's `s.rstrip()`: trailing white space removed. */
  function RStripSpace(s: string): (r: string)
    ensures |r| <= |s| && r == s[..|r|]
    ensures forall i :: |r| <= i < |s| ==> IsSpace(s[i])
    ensures |r| > 0 ==> !IsSpace(r[|r| - 1])
    decreases |s|
  {
    if |s| > 0 && IsSpace(s[|s| - 1]) then RStripSpace(s[..|s| - 1]) else s
  }

  /** Python's `s.strip()`: white space removed from both ends. */
  function Trim(s: string): string
  {
    RStripSpace(LStripSpace(s))
  }

  /** Decimal digits with single underscores between them: the literal
      syntax Python's `int()` accepts for base 10. */
  predicate IsDigitGroups(s: string) {
    && |s| > 0 && IsDigit(s[0]) && IsDigit(s[|s| - 1])
    && (forall i :: 0 <= i < |s| ==> IsDigit(s[i]) || s[i] == '_')
    && forall i, j :: 0 <= i < |s| && j == i + 1 < |s| && s[i] == '_' ==> s[j] != '_'
  }

  /** The digits of `s` with the underscores removed. */
  function DropUnderscores(s: string): (r: string)
    requires forall i :: 0 <= i < |s| ==> IsDigit(s[i]) || s[i] == '_'
    ensures AllDigits(r) && |r| <= |s|
    ensures AllDigits(s) ==> r == s
  {
    if |s| == 0 then ""
    else if s[|s| - 1] == '_' then DropUnderscores(s[..|s| - 1])
    else DropUnderscores(s[..|s| - 1]) + [s[|s| - 1]]
  }

  /** Python's `int(s)` for a string in base 10, restricted to ASCII
      digits: optional white space, an optional sign, then digit groups
      joined by single underscores. Other text is a `ValueError`, here
      `None`, except that Python also reads the decimal digits of other
      scripts (Arabic-Indic, full-width, ...), which give `None` here. */
  function ParseInt(s: string): Option<int>
  {
    ParseSigned(Trim(s))
  }

  /** An optional sign, then digit groups. */
  function ParseSigned(t: string): Option<int>
  {
    if |t| > 0 && t[0] == '-' then
      var u := ParseUnsigned(t[1..]);
      if u.Some? then Some(-u.value) else None
    else if |t| > 0 && t[0] == '+' then ParseUnsigned(t[1..])
    else ParseUnsigned(t)
  }

  /** Digit groups, read as the number their digits write. */
  function ParseUnsigned(t: string): (r: Option<int>)
    ensures r.Some? ==> r.value >= 0
  {
    if IsDigitGroups(t) then Some(DigitsValue(DropUnderscores(t))) else None
  }

  /** A run of digits, leading zeros included, reads as the number it
      denotes. */
  lemma UnsignedDigits(d: string)
    requires |d| > 0 && AllDigits(d)
    ensures ParseUnsigned(d) == Some(DigitsValue(d))
  {
    DigitsAreGroups(d);
  }

  /** A run of digits, leading zeros included, parses to the number it
      denotes. */
  lemma ParseIntDigits(s: string)
    requires |s| > 0 && AllDigits(s)
    ensures ParseInt(s) == Some(DigitsValue(s))
  {
    TrimIdentity(s);
    UnsignedDigits(s);
    assert !(s[0] == '-' || s[0] == '+');
  }

  lemma DigitsAreGroups(s: string)
    requires |s| > 0 && AllDigits(s)
    ensures IsDigitGroups(s) && DropUnderscores(s) == s
  {
  }

  /** The unit separator U+001F in front of a number is not white space to
      `int()`, so the text is no integer. */
  lemma UnitSeparatorRejected()
    ensures ParseInt("\U{1F}0") == None
  {
    TrimIdentity("\U{1F}0");
  }

  /** A string that neither starts nor ends with white space is its own
      `strip()`. */
  lemma TrimIdentity(s: string)
    requires |s| > 0 ==> !IsSpace(s[0]) && !IsSpace(s[|s| - 1])
    ensures Trim(s) == s
  {
  }

  /** `int(str(i)) == i`: parsing undoes formatting for every integer. */
  lemma ParseIntDecimal(i: int)
    ensures ParseInt(IntToDecimal(i)) == Some(i)
  {
    var s := IntToDecimal(i);
    assert Trim(s) == s by {
      DecimalEnds(i);
      TrimIdentity(s);
    }
    SignedDecimal(i);
  }

  /** `str(i)` starts with a minus sign or a digit and ends with a digit. */
  lemma DecimalEnds(i: int)
    ensures var s := IntToDecimal(i);
      |s| > 0 && (s[0] == '-' || IsDigit(s[0])) && IsDigit(s[|s| - 1])
  {
    if i < 0 {
      var d := NatToDecimal(-i);
      assert IntToDecimal(i)[|d|] == d[|d| - 1];
    }
  }

  /** The sign and digits of `str(i)` read back as `i`. */
  lemma SignedDecimal(i: int)
    ensures ParseSigned(IntToDecimal(i)) == Some(i)
  {
    if i < 0 {
      SignedNegative(-i);
    } else {
      SignedNatural(i);
    }
  }

  /** `str(-n)` for a positive `n` reads back as `-n`. */
  lemma SignedNegative(n: nat)
    requires n > 0
    ensures ParseSigned(IntToDecimal(-(n as int))) == Some(-(n as int))
  {
    SignedMinusNatural(n);
  }

  /** A minus sign before `str(n)` reads back as `-n`. */
  lemma SignedMinusNatural(n: nat)
    ensures ParseSigned("-" + NatToDecimal(n)) == Some(-(n as int))
  {
    NatToDecimalValue(n);
    SignedMinusDigits(NatToDecimal(n));
  }

  /** `str(n)` for a non-negative `n` reads back as `n`. */
  lemma SignedNatural(n: nat)
    ensures ParseSigned(IntToDecimal(n)) == Some(n)
  {
    NatToDecimalValue(n);
    SignedDigits(NatToDecimal(n));
  }

  /** A minus sign before a run of digits reads as the negated number. */
  lemma SignedMinusDigits(d: string)
    requires |d| > 0 && AllDigits(d)
    ensures ParseSigned("-" + d) == Some(-(DigitsValue(d) as int))
  {
    assert ("-" + d)[1..] == d;
    UnsignedDigits(d);
  }

  /** A run of digits without a sign reads as the number it denotes. */
  lemma SignedDigits(d: string)
    requires |d| > 0 && AllDigits(d)
    ensures ParseSigned(d) == Some(DigitsValue(d))
  {
    assert IsDigit(d[0]);
    UnsignedDigits(d);
  }

  /** Text with no digit in it is never an integer. */
  lemma ParseIntNeedsDigit(s: string)
    requires forall i :: 0 <= i < |s| ==> !IsDigit(s[i])
    ensures ParseInt(s) == None
  {
    TrimKeepsNoDigit(s);
    SignedNeedsDigit(Trim(s));
  }

  /** Stripping white space brings in no digit. */
  lemma TrimKeepsNoDigit(s: string)
    requires forall i :: 0 <= i < |s| ==> !IsDigit(s[i])
    ensures forall i :: 0 <= i < |Trim(s)| ==> !IsDigit(Trim(s)[i])
  {
    var l := LStripSpace(s);
    var t := Trim(s);
    assert forall i :: 0 <= i < |t| ==> t[i] == l[i] == s[|s| - |l| + i];
  }

  /** A sign and digit groups need at least one digit. */
  lemma SignedNeedsDigit(t: string)
    requires forall i :: 0 <= i < |t| ==> !IsDigit(t[i])
    ensures ParseSigned(t) == None
  {
    if |t| > 1 {
      assert t[1..][0] == t[1];
    }
  }
}
