/** JavaScript's `BigInt(text)` on the texts the record route hands it: the
    conversion of a string to an integer (StringToBigInt, section 7.1.14 of
    ECMAScript 2024), restricted to decimal literals. */
module BigIntText {
  import opened Json

  predicate IsDigit(c: char) { '0' <= c <= '9' }

  predicate AllDigits(s: string) { forall i :: 0 <= i < |s| ==> IsDigit(s[i]) }

  function DigitValue(c: char): nat
    requires IsDigit(c)
  {
    c as int - '0' as int
  }

  function DigitChar(d: nat): (c: char)
    requires d < 10
    ensures IsDigit(c) && DigitValue(c) == d
  {
    ('0' as int + d) as char
  }

  /** The number a string of decimal digits denotes ("" denotes 0). */
  function DecimalValue(s: string): nat
    requires AllDigits(s)
    decreases |s|
  {
    if s == [] then 0 else 10 * DecimalValue(s[..|s| - 1]) + DigitValue(s[|s| - 1])
  }

  /** The shortest decimal text of `n`: what `n.toString()` prints. */
  function Decimal(n: nat): (s: string)
    ensures s != [] && AllDigits(s)
    ensures DecimalValue(s) == n
    ensures |s| > 1 ==> s[0] != '0'
    decreases n
  {
    if n < 10 then [DigitChar(n)]
    else
      var prefix := Decimal(n / 10);
      var s := prefix + [DigitChar(n % 10)];
      assert s[..|s| - 1] == prefix;
      s
  }

  /** The signed decimal text of `n`: what `String(n)` prints for a bigint. */
  function IntText(n: int): string
  {
    if n < 0 then "-" + Decimal(-n) else Decimal(n)
  }

  /** StrWhiteSpaceChar: the white space (every Zs character, TAB, VT, FF,
      ZWNBSP) and the line terminators that StringToBigInt strips. */
  predicate IsWhiteSpace(c: char)
  {
    c == '\t' || c == '\U{000B}' || c == '\U{000C}' || c == ' ' || c == '\U{00A0}' ||
    c == '\U{FEFF}' || c == '\n' || c == '\r' || c == '\U{2028}' || c == '\U{2029}' ||
    c == '\U{1680}' || ('\U{2000}' <= c <= '\U{200A}') || c == '\U{202F}' ||
    c == '\U{205F}' || c == '\U{3000}'
  }

  /** `s` without its leading white space: a suffix of `s`, the part cut off
      is all white space, and what remains does not start with white space. */
  function TrimStart(s: string): (t: string)
    ensures |t| <= |s| && t == s[|s| - |t|..]
    ensures forall i :: 0 <= i < |s| - |t| ==> IsWhiteSpace(s[i])
    ensures t == [] || !IsWhiteSpace(t[0])
    decreases |s|
  {
    if s != [] && IsWhiteSpace(s[0]) then TrimStart(s[1..]) else s
  }

  /** `s` without its trailing white space: a prefix of `s`, the part cut off
      is all white space, and what remains does not end with white space. */
  function TrimEnd(s: string): (t: string)
    ensures |t| <= |s| && t == s[..|t|]
    ensures forall i :: |t| <= i < |s| ==> IsWhiteSpace(s[i])
    ensures t == [] || !IsWhiteSpace(t[|t| - 1])
    decreases |s|
  {
    if s != [] && IsWhiteSpace(s[|s| - 1]) then TrimEnd(s[..|s| - 1]) else s
  }

  /** `BigInt(s)`: Some(the integer denoted) when the trimmed text is empty
      (denoting 0) or an optionally signed run of decimal digits, and None
      for every other text, where `BigInt` throws a SyntaxError except on the
      hexadecimal, octal and binary forms, which this model does not convert. */
  function ToBigInt(s: string): (r: Option<int>)
    ensures (forall i :: 0 <= i < |s| ==> IsWhiteSpace(s[i])) ==> r == Some(0)
  {
    ConvertTrimmed(TrimEnd(TrimStart(s)))
  }

  /** The conversion of the trimmed text: StrIntegerLiteral, decimal forms only. */
  function ConvertTrimmed(t: string): (r: Option<int>)
    ensures r.Some? <==> t == [] || IsSignedDigits(t)
  {
    if t == [] then Some(0)
    else if (t[0] == '-' || t[0] == '+') && |t| > 1 && AllDigits(t[1..]) then
      var magnitude: int := DecimalValue(t[1..]);
      Some(if t[0] == '-' then -magnitude else magnitude)
    else if AllDigits(t) then Some(DecimalValue(t))
    else None
  }

  predicate AllWhiteSpace(s: string) { forall i :: 0 <= i < |s| ==> IsWhiteSpace(s[i]) }

  /** The text of a decimal StrIntegerLiteral once white space is trimmed: a
      non-empty run of digits, with or without a leading sign. */
  predicate IsSignedDigits(t: string)
  {
    t != [] && (AllDigits(t) || (|t| >= 2 && (t[0] == '+' || t[0] == '-') && AllDigits(t[1..])))
  }

  /** Trimming removes only white space: every other character of the text
      is kept. */
  lemma TrimKeeps(s: string)
    ensures forall i :: 0 <= i < |s| ==> IsWhiteSpace(s[i]) || s[i] in TrimEnd(TrimStart(s))
  {
    var u := TrimStart(s);
    var t := TrimEnd(u);
    var off := |s| - |u|;
    assert u == s[off..];
    assert t == u[..|t|];
    forall i | 0 <= i < |s| && !IsWhiteSpace(s[i]) ensures s[i] in t {
      if i < off {
        assert false;
      }
      var j := i - off;
      assert s[i] == u[j];
      if j >= |t| {
        assert false;
      }
      assert t[j] == u[j];
    }
  }

  /** Text converts only when it is made of white space, digits and signs:
      any other character makes `BigInt` throw. */
  lemma ConvertsOnlyDigitsAndSigns(s: string)
    requires ToBigInt(s).Some?
    ensures forall i :: 0 <= i < |s| ==> IsWhiteSpace(s[i]) || IsDigit(s[i]) || s[i] == '-' || s[i] == '+'
  {
    TrimKeeps(s);
    var t := TrimEnd(TrimStart(s));
    forall i | 0 <= i < |s| && !IsWhiteSpace(s[i])
      ensures IsDigit(s[i]) || s[i] == '-' || s[i] == '+'
    {
      var j :| 0 <= j < |t| && t[j] == s[i];
      if j > 0 && !AllDigits(t) {
        assert t[j] == t[1..][j - 1];
      }
    }
  }

  lemma {:induction false} TrimStartWhite(w: string, x: string)
    requires AllWhiteSpace(w) && (x == [] || !IsWhiteSpace(x[0]))
    ensures TrimStart(w + x) == x
    decreases |w|
  {
    if w == [] {
      assert w + x == x;
    } else {
      assert (w + x)[0] == w[0];
      assert (w + x)[1..] == w[1..] + x;
      TrimStartWhite(w[1..], x);
    }
  }

  lemma {:induction false} TrimEndWhite(x: string, w: string)
    requires AllWhiteSpace(w) && (x == [] || !IsWhiteSpace(x[|x| - 1]))
    ensures TrimEnd(x + w) == x
    decreases |w|
  {
    if w == [] {
      assert x + w == x;
    } else {
      var xw := x + w;
      assert xw[|xw| - 1] == w[|w| - 1];
      assert xw[..|xw| - 1] == x + w[..|w| - 1];
      TrimEndWhite(x, w[..|w| - 1]);
    }
  }

  /** A trimmed literal converts to the value of its digits, negated after a minus sign. */
  lemma LiteralValue(sign: string, d: string)
    requires sign == "" || sign == "+" || sign == "-"
    requires d != [] && AllDigits(d)
    ensures ConvertTrimmed(sign + d) == Some(if sign == "-" then -(DecimalValue(d) as int) else DecimalValue(d))
  {
    var t := sign + d;
    if sign == "" {
      assert t == d;
    } else {
      assert t[1..] == d;
    }
  }

  /** White space around a text that neither starts nor ends with white
      space is exactly what trimming removes. */
  lemma TrimmedOf(w1: string, t: string, w2: string)
    requires AllWhiteSpace(w1) && AllWhiteSpace(w2)
    requires t != [] && !IsWhiteSpace(t[0]) && !IsWhiteSpace(t[|t| - 1])
    ensures TrimEnd(TrimStart(w1 + t + w2)) == t
  {
    var x := t + w2;
    assert w1 + t + w2 == w1 + x;
    assert x[0] == t[0];
    TrimStartWhite(w1, x);
    TrimEndWhite(t, w2);
  }

  /** An optionally signed run of digits, with any white space around it,
      converts to the value the digits denote, negated after a minus sign;
      leading zeros are allowed. */
  lemma SignedDigitsConvert(w1: string, sign: string, d: string, w2: string)
    requires AllWhiteSpace(w1) && AllWhiteSpace(w2)
    requires sign == "" || sign == "+" || sign == "-"
    requires d != [] && AllDigits(d)
    ensures ToBigInt(w1 + sign + d + w2) == Some(if sign == "-" then -(DecimalValue(d) as int) else DecimalValue(d))
  {
    var t := sign + d;
    assert w1 + sign + d + w2 == w1 + t + w2;
    assert IsDigit(t[0]) || t[0] == '+' || t[0] == '-';
    assert IsDigit(t[|t| - 1]) by { assert t[|t| - 1] == d[|d| - 1]; }
    TrimmedOf(w1, t, w2);
    LiteralValue(sign, d);
  }

  /** Text converts only when it is white space around either nothing or an
      optionally signed run of digits; `"1 2"`, `"1-2"`, `"--1"` or `"5+"`
      make `BigInt` throw. */
  lemma ConvertsOnlyLiterals(s: string)
    requires ToBigInt(s).Some?
    ensures exists k, m :: 0 <= k <= m <= |s| && AllWhiteSpace(s[..k]) && AllWhiteSpace(s[m..]) &&
                           (s[k..m] == [] || IsSignedDigits(s[k..m]))
  {
    var u := TrimStart(s);
    var t := TrimEnd(u);
    var k := |s| - |u|;
    var m := k + |t|;
    assert u == s[k..] && t == u[..|t|];
    assert s[k..m] == t;
    assert s[m..] == u[|t|..];
    assert AllWhiteSpace(s[..k]);
    assert AllWhiteSpace(s[m..]);
  }

  /** A run of decimal digits converts to the number it denotes. */
  lemma DigitsConvert(s: string)
    requires s != [] && AllDigits(s)
    ensures ToBigInt(s) == Some(DecimalValue(s))
  {
    assert !IsWhiteSpace(s[0]) && !IsWhiteSpace(s[|s| - 1]);
    assert TrimStart(s) == s;
    assert TrimEnd(s) == s;
  }

  /** Text without a digit and without white space makes BigInt throw. */
  lemma NoDigitsThrows(s: string)
    requires s != [] && forall i :: 0 <= i < |s| ==> !IsDigit(s[i]) && !IsWhiteSpace(s[i])
    ensures ToBigInt(s) == None
  {
    assert TrimStart(s) == s;
    assert TrimEnd(s) == s;
  }

  /** `BigInt(String(n)) == n` for every integer n. */
  lemma {:induction false} IntTextRoundTrip(n: int)
    ensures ToBigInt(IntText(n)) == Some(n)
  {
    if n < 0 {
      var d := Decimal(-n);
      var s := "-" + d;
      assert s[1..] == d;
      assert !IsWhiteSpace(s[0]) && !IsWhiteSpace(s[|s| - 1]);
      assert TrimStart(s) == s;
      assert TrimEnd(s) == s;
    } else {
      DigitsConvert(Decimal(n));
    }
  }
}
