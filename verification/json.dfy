/** The loosely typed values that arrive in request bodies and job payloads, with
    JavaScript's truthiness, `||` defaulting and `Number(...)` conversion. */
module Json {
  import opened Wrappers
  import Text

  /** A request or payload value. `JNull` stands for both `null` and `undefined`;
      `JOther` for an object or an array. Numbers are integers in this model. */
  datatype Value = JNull | JBool(b: bool) | JNum(n: int) | JStr(s: string) | JOther

  /** JavaScript truthiness (`!!v`). */
  predicate Truthy(v: Value) {
    match v
    case JNull => false
    case JBool(b) => b
    case JNum(n) => n != 0
    case JStr(s) => s != ""
    case JOther => true
  }

  /** `v || fallback`. */
  function Or(v: Value, fallback: Value): Value {
    if Truthy(v) then v else fallback
  }

  predicate IsDigit(c: char) {
    '0' <= c <= '9'
  }

  predicate AllDigits(s: string) {
    forall i :: 0 <= i < |s| ==> IsDigit(s[i])
  }

  /** The value of a string of decimal digits. */
  function DigitsValue(s: string): nat
    requires AllDigits(s)
  {
    if |s| == 0 then 0
    else DigitsValue(s[..|s| - 1]) * 10 + (s[|s| - 1] as int - '0' as int)
  }

  /** The decimal spelling of `n`, as `String(n)` writes it. */
  function Decimal(n: nat): (s: string)
    ensures |s| > 0 && AllDigits(s)
  {
    var d := ((n % 10) + '0' as int) as char;
    if n < 10 then [d] else Decimal(n / 10) + [d]
  }

  /** The value of a digit character in bases up to 16 (either case for the letters);
      16 for any other character. */
  function DigitValue(c: char): (d: nat)
    ensures d <= 16
    ensures IsDigit(c) ==> d == c as int - '0' as int
  {
    if IsDigit(c) then c as int - '0' as int
    else if 'a' <= c <= 'f' then c as int - 'a' as int + 10
    else if 'A' <= c <= 'F' then c as int - 'A' as int + 10
    else 16
  }

  /** `s` is a non-empty string of digits of the given base. */
  predicate InRadix(s: string, base: nat) {
    |s| > 0 && forall i :: 0 <= i < |s| ==> DigitValue(s[i]) < base
  }

  /** The value of a string of digits in the given base. */
  function RadixValue(s: string, base: nat): nat {
    if |s| == 0 then 0
    else RadixValue(s[..|s| - 1], base) * base + DigitValue(s[|s| - 1])
  }

  /** The base a `0x`, `0o` or `0b` prefix (either case) announces, or 0 for none. */
  function PrefixBase(t: string): (base: nat)
    ensures base == 0 || base == 16 || base == 8 || base == 2
  {
    if |t| < 2 || t[0] != '0' then 0
    else if t[1] == 'x' || t[1] == 'X' then 16
    else if t[1] == 'o' || t[1] == 'O' then 8
    else if t[1] == 'b' || t[1] == 'B' then 2
    else 0
  }

  /** `Number` of a trimmed string, as far as it gives an integer: empty is 0; a
      prefixed binary, octal or hexadecimal integer (unsigned); decimal digits with an
      optional sign. Everything else is NaN here. */
  function StringToNumber(t: string): (r: Option<int>)
    ensures t == "" ==> r == Some(0)
    ensures AllDigits(t) ==> r == Some(DigitsValue(t))
    ensures r.Some? && PrefixBase(t) != 0 ==> r.value >= 0
    ensures r.Some? && t != "" && t[0] == '-' ==> r.value <= 0
  {
    if t == "" then Some(0)
    else if PrefixBase(t) != 0 then
      (if InRadix(t[2..], PrefixBase(t)) then Some(RadixValue(t[2..], PrefixBase(t))) else None)
    else if (t[0] == '+' || t[0] == '-') && |t| > 1 && AllDigits(t[1..]) then
      var n: int := DigitsValue(t[1..]);
      Some(if t[0] == '-' then -n else n)
    else if AllDigits(t) then Some(DigitsValue(t))
    else None
  }

  /** `Number(v)`, with `None` for NaN. A string is trimmed and read by `StringToNumber`. */
  function ToNumber(v: Value): (r: Option<int>)
    ensures v.JNull? ==> r == Some(0)
    ensures v.JNum? ==> r == Some(v.n)
    ensures v.JBool? ==> r == Some(if v.b then 1 else 0)
    ensures v.JOther? ==> r == None
  {
    match v
    case JNull => Some(0)
    case JBool(b) => Some(if b then 1 else 0)
    case JNum(n) => Some(n)
    case JStr(s) => StringToNumber(Text.Trim(s))
    case JOther => None
  }

  /** A sign in front of decimal digits is honoured: "+12" reads as 12 and "-12" as -12. */
  lemma SignedDigits(sign: char, d: string)
    requires sign == '+' || sign == '-'
    requires |d| > 0 && AllDigits(d)
    ensures sign == '+' ==> ToNumber(JStr([sign] + d)) == Some(DigitsValue(d) as int)
    ensures sign == '-' ==> ToNumber(JStr([sign] + d)) == Some(-(DigitsValue(d) as int))
  {
    SignedIsTrimmed(sign, d);
    SignedString(sign, d);
  }

  /** `StringToNumber` of a sign and decimal digits. */
  lemma SignedString(sign: char, d: string)
    requires sign == '+' || sign == '-'
    requires |d| > 0 && AllDigits(d)
    ensures sign == '+' ==> StringToNumber([sign] + d) == Some(DigitsValue(d) as int)
    ensures sign == '-' ==> StringToNumber([sign] + d) == Some(-(DigitsValue(d) as int))
  {
    var t := [sign] + d;
    assert t[0] == sign && t[1..] == d && PrefixBase(t) == 0;
  }

  /** A sign followed by digits has nothing to trim. */
  lemma SignedIsTrimmed(sign: char, d: string)
    requires sign == '+' || sign == '-'
    requires |d| > 0 && AllDigits(d)
    ensures Text.Trim([sign] + d) == [sign] + d
  {
    var s := [sign] + d;
    assert s[|s| - 1] == d[|d| - 1];
    assert !Text.IsSpace(s[0]) && !Text.IsSpace(s[|s| - 1]);
    Text.TrimOfTrimmed(s);
  }

  /** Hexadecimal, octal and binary spellings read as their value in that base:
      "0x14", "0o24" and "0b10100" are all 20. The prefix admits no sign. */
  lemma NumberOfPrefixed(x: char, d: string)
    requires x in "xXoObB"
    requires InRadix(d, PrefixBase(['0', x] + d))
    ensures ToNumber(JStr(['0', x] + d)) == Some(RadixValue(d, PrefixBase(['0', x] + d)))
    ensures ToNumber(JStr(['-', '0', x] + d)) == None
  {
    PrefixedReads(x, d);
    NegatedPrefixIsNaN(x, d);
  }

  /** A prefixed spelling reads as its digits in the announced base. */
  lemma PrefixedReads(x: char, d: string)
    requires x in "xXoObB"
    requires InRadix(d, PrefixBase(['0', x] + d))
    ensures ToNumber(JStr(['0', x] + d)) == Some(RadixValue(d, PrefixBase(['0', x] + d)))
  {
    var t := ['0', x] + d;
    assert t[2..] == d;
    assert Text.Trim(t) == t by {
      assert !Text.IsSpace(t[0]) && !Text.IsSpace(t[|t| - 1]);
      Text.TrimOfTrimmed(t);
    }
  }

  /** A minus sign in front of a prefixed spelling makes it NaN. */
  lemma NegatedPrefixIsNaN(x: char, d: string)
    requires x in "xXoObB"
    requires InRadix(d, PrefixBase(['0', x] + d))
    ensures ToNumber(JStr(['-', '0', x] + d)) == None
  {
    var u := ['-', '0', x] + d;
    assert Text.Trim(u) == u by {
      assert !Text.IsSpace(u[0]) && !Text.IsSpace(u[|u| - 1]);
      Text.TrimOfTrimmed(u);
    }
    assert PrefixBase(u) == 0;
    assert !IsDigit(u[2]) && !AllDigits(u[1..]) && !AllDigits(u);
  }

  /** Reading back a decimal spelling gives the number: `Number(String(n)) == n`. */
  lemma {:induction false} DecimalRoundTrip(n: nat)
    ensures DigitsValue(Decimal(n)) == n
  {
    var s := Decimal(n);
    if n >= 10 {
      assert s[..|s| - 1] == Decimal(n / 10);
      DecimalRoundTrip(n / 10);
    }
  }

  /** The string form of a count converts back to that count. */
  lemma NumberOfDecimal(n: nat)
    ensures ToNumber(JStr(Decimal(n))) == Some(n)
  {
    var s := Decimal(n);
    assert !Text.IsSpace(s[0]) && !Text.IsSpace(s[|s| - 1]);
    Text.TrimOfTrimmed(s);
    DecimalRoundTrip(n);
  }
}
