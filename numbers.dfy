/** Decimal integers as text: Python's str() of an int and int() of a str. */
module Numbers {
  import opened Text

  predicate IsDigit(c: char) {
    '0' <= c <= '9'
  }

  function DigitValue(c: char): nat
    requires IsDigit(c)
  {
    c as int - '0' as int
  }

  function DigitChar(d: nat): (c: char)
    requires d < 10
    ensures IsDigit(c) && DigitValue(c) == d
  {
    ('0' as int + d) as char
  }

  /** str(n) for a natural number: its decimal digits, no leading zero. */
  function NatToString(n: nat): (s: string)
    ensures s != [] && forall i :: 0 <= i < |s| ==> IsDigit(s[i])
  {
    if n < 10 then [DigitChar(n)] else NatToString(n / 10) + [DigitChar(n % 10)]
  }

  /** str(i) for any integer: a minus sign before negative numbers. */
  function IntToString(i: int): (s: string)
    ensures s != [] && !IsSpace(s[0]) && !IsSpace(s[|s| - 1])
    ensures forall k :: 0 <= k < |s| ==> IsDigit(s[k]) || s[k] == '-'
  {
    if i < 0 then "-" + NatToString(-i) else NatToString(i)
  }

  /** The digit groups Python's int() accepts: decimal digits, with single
      underscores allowed between two digits. */
  predicate DigitGroups(s: string) {
    && s != []
    && IsDigit(s[0]) && IsDigit(s[|s| - 1])
    && (forall i :: 0 <= i < |s| ==> IsDigit(s[i]) || s[i] == '_')
    && (forall i :: 0 <= i < |s| - 1 ==> !(s[i] == '_' && s[i + 1] == '_'))
  }

  /** The value of a run of digits and underscores, underscores ignored. */
  function DigitsValue(s: string): nat
    requires forall i :: 0 <= i < |s| ==> IsDigit(s[i]) || s[i] == '_'
  {
    if s == [] then 0
    else if s[|s| - 1] == '_' then DigitsValue(s[..|s| - 1])
    else DigitsValue(s[..|s| - 1]) * 10 + DigitValue(s[|s| - 1])
  }

  /** Python's int(s) on a str: surrounding white space, an optional sign and
      digit groups; None where Python raises ValueError. */
  function ParseInt(s: string): Option<int> {
    var t := Strip(s);
    if t != [] && (t[0] == '+' || t[0] == '-') then
      var body := t[1..];
      var magnitude: int := if DigitGroups(body) then DigitsValue(body) else 0;
      if DigitGroups(body) then Some(if t[0] == '-' then -magnitude else magnitude) else None
    else if DigitGroups(t) then Some(DigitsValue(t))
    else None
  }

  lemma {:induction false} NatToStringValue(n: nat)
    ensures DigitsValue(NatToString(n)) == n
  {
    var s := NatToString(n);
    if n >= 10 {
      NatToStringValue(n / 10);
      assert s[..|s| - 1] == NatToString(n / 10);
    }
  }

  /** Digits with no sign and no surrounding space are read as they are. */
  lemma ParseIntOfDigits(t: string)
    requires DigitGroups(t)
    ensures ParseInt(t) == Some(DigitsValue(t))
  {
    StripNoEdgeSpace(t);
  }

  /** A minus sign before digit groups negates their value. */
  lemma ParseIntOfNegative(u: string)
    requires DigitGroups(u)
    ensures ParseInt("-" + u) == Some(-(DigitsValue(u) as int))
  {
    var t := "-" + u;
    StripNoEdgeSpace(t);
    assert t[1..] == u;
  }

  lemma NatToStringGroups(n: nat)
    ensures DigitGroups(NatToString(n)) && DigitsValue(NatToString(n)) == n
  {
    NatToStringValue(n);
  }

  /** Reading back what str() wrote gives the integer: int(str(i)) == i. */
  lemma ParseIntToString(i: int)
    ensures ParseInt(IntToString(i)) == Some(i)
  {
    if i < 0 {
      NatToStringGroups(-i);
      ParseIntOfNegative(NatToString(-i));
    } else {
      NatToStringGroups(i);
      ParseIntOfDigits(NatToString(i));
    }
  }

  /** A text with no digit at all is never an integer. */
  lemma ParseIntNeedsDigit(s: string)
    requires forall k :: 0 <= k < |s| ==> !IsDigit(s[k])
    ensures ParseInt(s) == None
  {
    var t := Strip(s);
    if t != [] {
      assert t[0] == s[StripStart(s)];
      assert t[|t| - 1] == s[StripStart(s) + |t| - 1];
    }
  }
}
