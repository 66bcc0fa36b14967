/** The text form of a 32-bit `int` as .NET writes and reads it:
    `int.ToString()`, and the `int.TryParse` / `int.Parse` pair with the
    default number style (leading and trailing white space, an optional
    leading sign, decimal digits), under the invariant culture. */
module Int32Text {

  const MinInt32: int := -0x8000_0000
  const MaxInt32: int := 0x7FFF_FFFF

  predicate InInt32(n: int) {
    MinInt32 <= n <= MaxInt32
  }

  predicate IsDigit(c: char) {
    '0' <= c <= '9'
  }

  predicate AllDigits(s: string) {
    forall i :: 0 <= i < |s| ==> IsDigit(s[i])
  }

  /** The characters .NET number parsing skips as white space: U+0020 and U+0009..U+000D. */
  predicate IsWhite(c: char) {
    c == ' ' || '\t' <= c <= '\r'
  }

  function DigitChar(d: nat): (c: char)
    requires d < 10
    ensures IsDigit(c)
  {
    ('0' as int + d) as char
  }

  function DigitValue(c: char): (d: nat)
    requires IsDigit(c)
    ensures d < 10 && DigitChar(d) == c
  {
    c as int - '0' as int
  }

  /** Decimal digits of `n`, most significant first, no leading zero. */
  function Digits(n: nat): (s: string)
    ensures 0 < |s| && AllDigits(s)
    ensures s[0] == '0' ==> n == 0
  {
    if n < 10 then [DigitChar(n)] else Digits(n / 10) + [DigitChar(n % 10)]
  }

  /** The number a non-empty run of decimal digits denotes. */
  function DigitsValue(s: string): nat
    requires AllDigits(s)
  {
    if s == [] then 0 else DigitsValue(s[..|s| - 1]) * 10 + DigitValue(s[|s| - 1])
  }

  /** `int.ToString()`: an optional minus sign followed by the digits. */
  function Format(n: int): (s: string)
    ensures 0 < |s| && !IsWhite(s[0]) && !IsWhite(s[|s| - 1])
    ensures s[0] == '-' <==> n < 0
  {
    if n < 0 then "-" + Digits(-n) else Digits(n)
  }

  function TrimStart(s: string): (r: string)
    ensures |r| <= |s| && r == s[|s| - |r|..]
    ensures r == [] || !IsWhite(r[0])
  {
    if s != [] && IsWhite(s[0]) then TrimStart(s[1..]) else s
  }

  function TrimEnd(s: string): (r: string)
    ensures |r| <= |s| && r == s[..|r|]
    ensures r == [] || !IsWhite(r[|r| - 1])
  {
    if s != [] && IsWhite(s[|s| - 1]) then TrimEnd(s[..|s| - 1]) else s
  }

  datatype ParseOutcome = Parsed(value: int) | FormatError | OverflowError

  /** Parsing with the default integer style. A text that is not white space,
      an optional sign and at least one digit is a format error; a well-formed
      text whose value leaves the 32-bit range is an overflow (format errors
      take precedence). `int.TryParse` succeeds exactly on `Parsed`; `int.Parse`
      throws FormatException or OverflowException on the other two. */
  function Parse(s: string): (r: ParseOutcome)
    ensures r.Parsed? ==> InInt32(r.value)
  {
    ParseTrimmed(TrimEnd(TrimStart(s)))
  }

  /** Parsing of the text once the surrounding white space is gone. */
  function ParseTrimmed(t: string): (r: ParseOutcome)
    ensures r.Parsed? ==> InInt32(r.value)
  {
    var signed := t != [] && (t[0] == '-' || t[0] == '+');
    var body := if signed then t[1..] else t;
    if body == [] || !AllDigits(body) then
      FormatError
    else
      var magnitude: int := DigitsValue(body);
      var v := if signed && t[0] == '-' then -magnitude else magnitude;
      if InInt32(v) then Parsed(v) else OverflowError
  }

  lemma {:induction false} DigitsValueOfDigits(n: nat)
    ensures DigitsValue(Digits(n)) == n
  {
    if n >= 10 {
      var s := Digits(n);
      DigitsValueOfDigits(n / 10);
      assert s[..|s| - 1] == Digits(n / 10);
    }
  }

  lemma TrimmedIsIdentity(s: string)
    requires s == [] || (!IsWhite(s[0]) && !IsWhite(s[|s| - 1]))
    ensures TrimEnd(TrimStart(s)) == s
  {
  }

  /** The digits of `m`, with a minus sign when `neg`, parse to `m` or `-m`. */
  lemma ParseTrimmedDigits(m: nat, neg: bool)
    requires InInt32(if neg then -(m as int) else m)
    ensures ParseTrimmed(if neg then "-" + Digits(m) else Digits(m)) == Parsed(if neg then -(m as int) else m)
  {
    var body := Digits(m);
    DigitsValueOfDigits(m);
    if neg {
      var t := "-" + body;
      assert t[0] == '-' && t[1..] == body;
    } else {
      assert IsDigit(body[0]);
    }
  }

  /** A text with no white space at either end is parsed as it stands. */
  lemma ParseUntrimmed(s: string)
    requires s != [] && !IsWhite(s[0]) && !IsWhite(s[|s| - 1])
    ensures Parse(s) == ParseTrimmed(s)
  {
    TrimmedIsIdentity(s);
  }

  /** Every 32-bit integer reads back from the text `ToString` gives it. */
  lemma ParseFormat(n: int)
    requires InInt32(n)
    ensures Parse(Format(n)) == Parsed(n)
  {
    ParseUntrimmed(Format(n));
    if n < 0 {
      ParseTrimmedDigits(-n, true);
    } else {
      ParseTrimmedDigits(n, false);
    }
  }
}
