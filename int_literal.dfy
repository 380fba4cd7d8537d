/** Python's int() applied to a str, in base 10, restricted to ASCII digits:
    surrounding whitespace, an optional sign, then digits in which single
    underscores may separate two digits. Also the decimal rendering of an int,
    which int() reads back. */
module IntLiteral {
  import opened Wrappers
  import opened Text

  predicate IsDigit(c: char)
  {
    '0' <= c <= '9'
  }

  /** The digit body int() accepts after the sign: a non-empty run of digits
      and underscores that starts and ends with a digit and has no two
      underscores in a row. */
  predicate IsDigitRun(s: string)
  {
    && s != []
    && IsDigit(s[0])
    && IsDigit(s[|s| - 1])
    && (forall i | 0 <= i < |s| :: IsDigit(s[i]) || s[i] == '_')
    && (forall i | 0 < i < |s| :: s[i] == '_' ==> s[i - 1] != '_')
  }

  /** The value of a run of digits, underscores skipped. */
  function DigitsValue(s: string): nat
    requires forall i | 0 <= i < |s| :: IsDigit(s[i]) || s[i] == '_'
  {
    if s == [] then 0
    else
      var last := s[|s| - 1];
      assert IsDigit(last) || last == '_';
      var v := DigitsValue(s[..|s| - 1]);
      if last == '_' then v else 10 * v + (last as int - '0' as int)
  }

  /** int(s) for a str s: Some(n) when s is the literal of n, None where
      Python raises ValueError. */
  function ParseInt(s: string): Option<int>
  {
    ParseSigned(Strip(s))
  }

  /** An optional sign followed by a digit run, nothing else. */
  function ParseSigned(t: string): Option<int>
  {
    var negative := t != [] && t[0] == '-';
    var body := if t != [] && (t[0] == '-' || t[0] == '+') then t[1..] else t;
    if IsDigitRun(body) then
      var v: int := DigitsValue(body);
      Some(if negative then -v else v)
    else None
  }

  /** What int() accepts once the text is stripped: an optional sign and then
      a digit run. Leading zeros ("01") and separators ("1_0") included. */
  predicate IsSignedDigits(t: string)
  {
    || IsDigitRun(t)
    || (t != [] && (t[0] == '+' || t[0] == '-') && IsDigitRun(t[1..]))
  }

  /** The stripped text is read exactly when it is a signed digit run; its
      value is the run's value, negated after a '-'. */
  lemma {:induction false} ParseSignedExactly(t: string)
    ensures ParseSigned(t).Some? <==> IsSignedDigits(t)
    ensures ParseSigned(t).Some? && t[0] == '-' ==> ParseSigned(t) == Some(-(DigitsValue(t[1..]) as int))
    ensures ParseSigned(t).Some? && t[0] == '+' ==> ParseSigned(t) == Some(DigitsValue(t[1..]))
    ensures ParseSigned(t).Some? && t[0] != '-' && t[0] != '+' ==> ParseSigned(t) == Some(DigitsValue(t))
  {
  }

  /** A sign ("", "+" or "-") followed by a digit run is read as the run's
      value with that sign. */
  lemma {:induction false} ParseSignedDigits(sign: string, d: string)
    requires sign == "" || sign == "+" || sign == "-"
    requires IsDigitRun(d)
    ensures ParseSigned(sign + d) == Some(if sign == "-" then -(DigitsValue(d) as int) else DigitsValue(d))
  {
    var t := sign + d;
    if sign == "" {
      assert t == d;
    } else {
      assert t[0] == sign[0] && t[1..] == d;
    }
  }

  /** The decimal digits of n, without leading zeros. */
  function NatToString(n: nat): (r: string)
    ensures r != []
    ensures forall i | 0 <= i < |r| :: IsDigit(r[i])
  {
    var d := ['0' + (n % 10) as char];
    if n < 10 then d else NatToString(n / 10) + d
  }

  /** str(n): the decimal rendering of n, with a minus sign when negative. */
  function IntToString(n: int): (r: string)
    ensures r != [] && IsDigit(r[|r| - 1])
    ensures forall i | 0 <= i < |r| :: IsDigit(r[i]) || (i == 0 && r[i] == '-')
  {
    if n < 0 then "-" + NatToString(-n) else NatToString(n)
  }

  lemma {:induction false} DigitsValueOfNatToString(n: nat)
    ensures DigitsValue(NatToString(n)) == n
  {
    var r := NatToString(n);
    if n >= 10 {
      DigitsValueOfNatToString(n / 10);
      assert r[..|r| - 1] == NatToString(n / 10);
    }
  }

  /** int(str(n)) == n: reading back the rendering of any integer gives it back. */
  lemma {:induction false} ParseIntToString(n: int)
    ensures ParseInt(IntToString(n)) == Some(n)
  {
    var r := IntToString(n);
    StripOfRendering(n);
    ParseSignedToString(n);
  }

  lemma {:induction false} ParseSignedToString(n: int)
    ensures ParseSigned(IntToString(n)) == Some(n)
  {
    var r := IntToString(n);
    var m: nat := if n < 0 then -n else n;
    var digits := NatToString(m);
    assert IsDigitRun(digits);
    DigitsValueOfNatToString(m);
    if n < 0 {
      assert r[0] == '-' && r[1..] == digits;
    } else {
      assert r == digits && IsDigit(r[0]);
    }
  }

  /** The rendering of an integer has no surrounding whitespace. */
  lemma {:induction false} StripOfRendering(n: int)
    ensures Strip(IntToString(n)) == IntToString(n)
  {
    var r := IntToString(n);
    NotSpace(r[0]);
    NotSpace(r[|r| - 1]);
    StripTrimmed(r);
  }

  /** int() ignores surrounding whitespace: int(w1 + str(n) + w2) == n. */
  lemma {:induction false} ParseIntPadded(w1: string, n: int, w2: string)
    requires IsBlank(w1) && IsBlank(w2)
    ensures ParseInt(w1 + IntToString(n) + w2) == Some(n)
  {
    var r := IntToString(n);
    NotSpace(r[0]);
    NotSpace(r[|r| - 1]);
    StripUnique(w1, r, w2);
    StripOfRendering(n);
    ParseIntToString(n);
  }

  /** A string without any digit is not an integer literal: int() raises. */
  lemma {:induction false} ParseIntNeedsDigit(s: string)
    requires forall i | 0 <= i < |s| :: !IsDigit(s[i])
    ensures ParseInt(s) == None
  {
    var a := LeadingSpaces(s);
    var t := Strip(s);
    assert forall i | 0 <= i < |t| :: t[i] == s[a + i];
  }
}
