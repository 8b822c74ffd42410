/**
 * Chapter ids are strings. New ids are printed with String(n); existing ids are
 * read back with `parseInt(id, 10) || 0`, so a non-numeric id counts as 0.
 */
module ChapterIds {
  import opened JsString

  function DigitValue(c: char): (d: nat)
    requires IsDigit(c)
    ensures d < 10
  {
    c as int - '0' as int
  }

  /** The longest prefix of s made of decimal digits only. */
  function DigitPrefix(s: string): (r: string)
    ensures |r| <= |s| && r == s[..|r|]
    ensures forall i :: 0 <= i < |r| ==> IsDigit(r[i])
    ensures |r| == |s| || !IsDigit(s[|r|])
  {
    if s != [] && IsDigit(s[0]) then [s[0]] + DigitPrefix(s[1..]) else []
  }

  /** The value of a string of decimal digits, most significant first. */
  function DigitsValue(d: string): (n: nat)
    requires forall i :: 0 <= i < |d| ==> IsDigit(d[i])
  {
    if d == [] then 0 else 10 * DigitsValue(d[..|d| - 1]) + DigitValue(d[|d| - 1])
  }

  /**
   * `parseInt(s, 10) || 0`: skip leading white space, take an optional sign and the
   * longest run of decimal digits; no digits (NaN) and minus zero both become 0.
   */
  function ParseId(s: string): (v: int)
  {
    ParseSigned(TrimStart(s))
  }

  /** Blank text reads as 0, and only a minus sign after the leading white space gives a negative value. */
  lemma {:induction false} ParseIdSign(s: string)
    ensures TrimStart(s) == [] ==> ParseId(s) == 0
    ensures ParseId(s) < 0 ==> TrimStart(s)[0] == '-'
  {
    var t := TrimStart(s);
    assert ParseId(s) == ParseSigned(t);
  }

  /** The sign and digit part of `parseInt(_, 10) || 0`, once leading white space is gone. */
  function ParseSigned(t: string): (v: int)
  {
    var negative := t != [] && t[0] == '-';
    var u := if t != [] && (t[0] == '-' || t[0] == '+') then t[1..] else t;
    var d := DigitPrefix(u);
    if d == [] then 0 else if negative then -(DigitsValue(d) as int) else DigitsValue(d)
  }

  /** `String(n)` for a non-negative integer n: its decimal digits without leading zeros. */
  function Decimal(n: nat): (s: string)
    ensures |s| > 0 && forall i :: 0 <= i < |s| ==> IsDigit(s[i])
    ensures n > 0 ==> s[0] != '0'
  {
    if n < 10 then [DigitChar(n)] else Decimal(n / 10) + [DigitChar(n % 10)]
  }

  lemma {:induction false} DecimalValue(n: nat)
    ensures DigitsValue(Decimal(n)) == n
  {
    var s := Decimal(n);
    if n >= 10 {
      assert s[..|s| - 1] == Decimal(n / 10);
      DecimalValue(n / 10);
    }
  }

  lemma {:induction false} DigitPrefixOfDigits(s: string)
    requires forall i :: 0 <= i < |s| ==> IsDigit(s[i])
    ensures DigitPrefix(s) == s
  {
    if s != [] {
      DigitPrefixOfDigits(s[1..]);
    }
  }

  /** Reading back a printed id gives the number it was printed from. */
  lemma {:induction false} ParseDecimal(n: nat)
    ensures ParseId(Decimal(n)) == n
  {
    var s := Decimal(n);
    assert !IsSpace(s[0]) && s[0] != '-' && s[0] != '+';
    assert TrimStart(s) == s;
    DigitPrefixOfDigits(s);
    DecimalValue(n);
  }

  /** Different numbers print as different ids. */
  lemma {:induction false} DecimalInjective(m: nat, n: nat)
    ensures Decimal(m) == Decimal(n) <==> m == n
  {
    if Decimal(m) == Decimal(n) {
      ParseDecimal(m);
      ParseDecimal(n);
    }
  }

  lemma {:induction false} DigitPrefixAppend(d: string, t: string)
    requires forall i :: 0 <= i < |d| ==> IsDigit(d[i])
    requires t == [] || !IsDigit(t[0])
    ensures DigitPrefix(d + t) == d
  {
    if d == [] {
      assert d + t == t;
    } else {
      assert (d + t)[0] == d[0];
      assert (d + t)[1..] == d[1..] + t;
      DigitPrefixAppend(d[1..], t);
      assert [d[0]] + d[1..] == d;
    }
  }

  lemma {:induction false} AllSpaceTrimStart(ws: string)
    requires forall i :: 0 <= i < |ws| ==> IsSpace(ws[i])
    ensures TrimStart(ws) == []
  {
  }

  /** parseInt reads only the leading digits: text after them is ignored. */
  lemma {:induction false} ParseIdTrailingText(n: nat, t: string)
    requires t == [] || !IsDigit(t[0])
    ensures ParseId(Decimal(n) + t) == n
  {
    var d := Decimal(n);
    assert (d + t)[0] == d[0];
    LeadingDigitTrimStart(d + t);
    UnsignedValue(d, t);
    DecimalValue(n);
  }

  lemma {:induction false} LeadingDigitTrimStart(s: string)
    requires s != [] && IsDigit(s[0])
    ensures TrimStart(s) == s
  {
    assert !IsSpace(s[0]);
  }

  lemma {:induction false} UnsignedValue(d: string, t: string)
    requires d != [] && forall i :: 0 <= i < |d| ==> IsDigit(d[i])
    requires t == [] || !IsDigit(t[0])
    ensures ParseSigned(d + t) == DigitsValue(d)
  {
    assert (d + t)[0] == d[0];
    DigitPrefixAppend(d, t);
  }

  /** Leading white space is skipped and a minus sign negates the value; "-0" reads as 0. */
  lemma {:induction false} ParseIdSigned(ws: string, n: nat)
    requires forall i :: 0 <= i < |ws| ==> IsSpace(ws[i])
    ensures ParseId(ws + "-" + Decimal(n)) == -(n as int)
  {
    var signed := "-" + Decimal(n);
    assert ws + "-" + Decimal(n) == ws + signed;
    AllSpaceTrimStart(ws);
    TrimStartAppend(ws, signed);
    assert TrimStart(signed) == signed;
    assert TrimStart(ws + signed) == signed;
    SignedValue(n);
  }

  lemma {:induction false} SignedValue(n: nat)
    ensures ParseSigned("-" + Decimal(n)) == -(n as int)
  {
    var signed := "-" + Decimal(n);
    assert signed[1..] == Decimal(n);
    DigitPrefixOfDigits(Decimal(n));
    DecimalValue(n);
  }

  /** Text whose first non-space character is not a digit (NaN) reads as 0. */
  lemma {:induction false} ParseIdNonNumeric(ws: string, t: string)
    requires forall i :: 0 <= i < |ws| ==> IsSpace(ws[i])
    requires t == [] || (!IsSpace(t[0]) && !IsDigit(t[0]) && t[0] != '-' && t[0] != '+')
    ensures ParseId(ws + t) == 0
  {
    AllSpaceTrimStart(ws);
    TrimStartAppend(ws, t);
    assert TrimStart(t) == t;
    NonNumericValue(t);
  }

  lemma {:induction false} NonNumericValue(t: string)
    requires t == [] || (!IsDigit(t[0]) && t[0] != '-' && t[0] != '+')
    ensures ParseSigned(t) == 0
  {
    if t != [] {
      assert DigitPrefix(t) == [];
    }
  }
}
