/**
 * The unary `+` that cpu-read.ts applies to every numeric field of a parsed
 * record: ToNumber (section 7.1.4 of ECMA-262) on the value `JSON.parse`
 * produced. A string operand is read by StringToNumber (section 7.1.4.1.1)
 * over the StringNumericLiteral grammar (section 7.1.4.1); an Int32 column
 * then applies ToInt32 (section 7.1.6): NaN becomes 0 and a number is
 * truncated toward zero before it wraps to 32 bits.
 */
module JsNumber {
  import opened Wrappers
  import opened Text

  /** A field of a parsed record; `Absent` is a property the record lacks (undefined). */
  datatype Json = Absent | Null | Bool(b: bool) | Num(n: real) | Str(s: String)

  /** StrWhiteSpaceChar: the WhiteSpace and LineTerminator code points (sections 12.2 and 12.3). */
  predicate IsSpace(c: char) {
    c in {'\t', '\n', '\U{000B}', '\U{000C}', '\r', ' ', '\U{00A0}', '\U{1680}',
          '\U{2028}', '\U{2029}', '\U{202F}', '\U{205F}', '\U{3000}', '\U{FEFF}'}
    || '\U{2000}' <= c <= '\U{200A}'
  }

  predicate AllSpace(s: String) {
    forall i :: 0 <= i < |s| ==> IsSpace(s[i])
  }

  /** The text without its leading white space. */
  function TrimStart(s: String): (r: String)
    ensures |r| <= |s| && r == s[|s| - |r|..]
    ensures r == [] || !IsSpace(r[0])
    ensures AllSpace(s[..|s| - |r|])
  {
    if s != [] && IsSpace(s[0]) then TrimStart(s[1..]) else s
  }

  /** The text without its trailing white space. */
  function TrimEnd(s: String): (r: String)
    ensures |r| <= |s| && r == s[..|r|]
    ensures r == [] || !IsSpace(r[|r| - 1])
    ensures AllSpace(s[|r|..])
  {
    if s != [] && IsSpace(s[|s| - 1]) then TrimEnd(s[..|s| - 1]) else s
  }

  function Trim(s: String): (r: String) {
    TrimEnd(TrimStart(s))
  }

  /** The value of a digit in a base up to 16; 16 for a character that is no digit. */
  function DigitValue(c: char): (d: nat)
    ensures d <= 16
    ensures d < 10 <==> '0' <= c <= '9'
  {
    if '0' <= c <= '9' then c as int - '0' as int
    else if 'a' <= c <= 'f' then c as int - 'a' as int + 10
    else if 'A' <= c <= 'F' then c as int - 'A' as int + 10
    else 16
  }

  predicate AllDigits(d: String, base: nat) {
    forall i :: 0 <= i < |d| ==> DigitValue(d[i]) < base
  }

  /** The value of a digit string, most significant digit first. */
  function DigitsValue(d: String, base: nat): (r: nat) {
    if d == [] then 0 else DigitsValue(d[..|d| - 1], base) * base + DigitValue(d[|d| - 1])
  }

  function Pow10(k: nat): (p: nat)
    ensures p >= 1
  {
    if k == 0 then 1 else 10 * Pow10(k - 1)
  }

  /** The first index of a character of `c` in `s`, or `|s|` when there is none. */
  function IndexOf(s: String, c: set<char>): (i: nat)
    ensures i <= |s|
    ensures forall j :: 0 <= j < i ==> s[j] !in c
    ensures i < |s| ==> s[i] in c
  {
    if s == [] then 0 else if s[0] in c then 0 else 1 + IndexOf(s[1..], c)
  }

  /** `DecimalDigits [. DecimalDigits]` or `. DecimalDigits`: at least one digit in all. */
  function Mantissa(m: String): (r: Option<real>) {
    var p := IndexOf(m, {'.'});
    var whole := m[..p];
    var frac := if p < |m| then m[p + 1..] else [];
    if AllDigits(whole, 10) && AllDigits(frac, 10) && |whole| + |frac| > 0 then
      Some(DigitsValue(whole, 10) as real + DigitsValue(frac, 10) as real / Pow10(|frac|) as real)
    else None
  }

  /** SignedInteger: an optional sign and at least one decimal digit. */
  function SignedDigits(x: String): (r: Option<int>) {
    if x != [] && x[0] in {'+', '-'} then
      var u := x[1..];
      var v: int := DigitsValue(u, 10);
      if u != [] && AllDigits(u, 10) then Some(if x[0] == '-' then -v else v)
      else None
    else if x != [] && AllDigits(x, 10) then Some(DigitsValue(x, 10))
    else None
  }

  function Scale(k: int): (r: real)
    ensures r > 0.0
  {
    if k >= 0 then Pow10(k) as real else 1.0 / Pow10(-k) as real
  }

  /** StrUnsignedDecimalLiteral other than `Infinity`: a mantissa and an optional exponent. */
  function UnsignedDecimal(u: String): (r: Option<real>) {
    var e := IndexOf(u, {'e', 'E'});
    var m := Mantissa(u[..e]);
    if m.None? then None
    else if e == |u| then m
    else match SignedDigits(u[e + 1..])
      case None => None
      case Some(k) => Some(m.value * Scale(k))
  }

  /** The base a NonDecimalIntegerLiteral prefix `0x`, `0o` or `0b` announces, or 0. */
  function RadixBase(t: String): (r: nat) {
    if |t| >= 2 && t[0] == '0' then
      if t[1] in {'x', 'X'} then 16
      else if t[1] in {'o', 'O'} then 8
      else if t[1] in {'b', 'B'} then 2
      else 0
    else 0
  }

  /** StrNumericLiteral on text without surrounding white space; None is NaN. */
  function NumericLiteral(t: String): (r: Option<real>) {
    var base := RadixBase(t);
    if base != 0 then
      if |t| > 2 && AllDigits(t[2..], base) then Some(DigitsValue(t[2..], base) as real) else None
    else if t != [] && t[0] == '-' then
      match UnsignedDecimal(t[1..])
      case None => None
      case Some(x) => Some(-x)
    else if t != [] && t[0] == '+' then UnsignedDecimal(t[1..])
    else UnsignedDecimal(t)
  }

  /** StringToNumber: white space around the literal is ignored and a blank string is 0. */
  function StringToNumber(s: String): (r: Option<real>) {
    var t := Trim(s);
    if t == [] then Some(0.0) else NumericLiteral(t)
  }

  /** ToNumber on a parsed field; None is NaN. */
  function ToNumber(v: Json): (r: Option<real>) {
    match v
    case Absent => None
    case Null => Some(0.0)
    case Bool(b) => Some(if b then 1.0 else 0.0)
    case Num(x) => Some(x)
    case Str(s) => StringToNumber(s)
  }

  /** Truncation toward zero, the integer step of ToInt32. */
  function Trunc(x: real): (k: int)
    ensures x >= 0.0 ==> 0 <= k && k as real <= x < k as real + 1.0
    ensures x < 0.0 ==> k <= 0 && k as real - 1.0 < x <= k as real
  {
    if x >= 0.0 then x.Floor else -((-x).Floor)
  }

  /** A number with no fractional part. */
  predicate IsIntegral(x: real) {
    x == x.Floor as real
  }

  lemma TruncIntegral(x: real)
    requires IsIntegral(x)
    ensures Trunc(x) as real == x
  {
    if x < 0.0 {
      var f := x.Floor;
      assert -x == (-f) as real;
      assert (-x).Floor == -f;
    }
  }

  // The decimal text of an integer, as `String(k)` writes it

  function DigitChar(d: nat): (c: char)
    requires d < 10
    ensures DigitValue(c) == d
  {
    ('0' as int + d) as char
  }

  /** The decimal digits of `n`, most significant first, without leading zeros. */
  function NatText(n: nat): (r: String)
    ensures |r| > 0
  {
    if n < 10 then [DigitChar(n)] else NatText(n / 10) + [DigitChar(n % 10)]
  }

  /** The decimal text of `k`, with a leading `-` when it is negative. */
  function IntText(k: int): (r: String)
    ensures |r| > 0
  {
    if k < 0 then "-" + NatText(-k) else NatText(k)
  }

  lemma {:induction false} NatTextValue(n: nat)
    ensures AllDigits(NatText(n), 10)
    ensures DigitsValue(NatText(n), 10) == n
  {
    var t := NatText(n);
    if n >= 10 {
      NatTextValue(n / 10);
      assert t[..|t| - 1] == NatText(n / 10);
    }
  }

  /** A digit string is no white space, no sign, point or exponent, and starts no radix prefix. */
  lemma DigitsAlone(d: String)
    requires |d| > 0 && AllDigits(d, 10)
    ensures Trim(d) == d
    ensures IndexOf(d, {'.'}) == |d| && IndexOf(d, {'e', 'E'}) == |d|
    ensures d[0] != '-' && d[0] != '+'
    ensures RadixBase(d) == 0
  {
    DigitAlone(d[0]);
    DigitAlone(d[|d| - 1]);
    TrimmedAlready(d);
    DigitsNoMark(d, {'.'});
    DigitsNoMark(d, {'e', 'E'});
    if |d| >= 2 {
      DigitAlone(d[1]);
    }
  }

  /** A decimal digit is no white space and none of the literal's other marks. */
  lemma DigitAlone(c: char)
    requires DigitValue(c) < 10
    ensures !IsSpace(c) && c !in {'.', 'e', 'E', '+', '-', 'x', 'X', 'o', 'O', 'b', 'B'}
  {
  }

  lemma {:induction false} DigitsNoMark(s: String, c: set<char>)
    requires AllDigits(s, 10) && c <= {'.', 'e', 'E'}
    ensures IndexOf(s, c) == |s|
  {
    if s != [] {
      DigitAlone(s[0]);
      DigitsNoMark(s[1..], c);
    }
  }

  /** The digits of a natural number read back as that number. */
  lemma NatTextNumber(n: nat)
    ensures UnsignedDecimal(NatText(n)) == Some(n as real)
  {
    NatTextValue(n);
    DigitsDecimal(NatText(n));
  }

  /** A string of decimal digits is a literal with neither point nor exponent. */
  lemma DigitsDecimal(t: String)
    requires |t| > 0 && AllDigits(t, 10)
    ensures UnsignedDecimal(t) == Some(DigitsValue(t, 10) as real)
  {
    DigitsNoMark(t, {'e', 'E'});
    assert t[..|t|] == t;
    MantissaDigits(t);
  }

  lemma MantissaDigits(t: String)
    requires |t| > 0 && AllDigits(t, 10)
    ensures Mantissa(t) == Some(DigitsValue(t, 10) as real)
  {
    DigitsNoMark(t, {'.'});
    assert t[..|t|] == t;
    assert DigitsValue([], 10) == 0;
  }

  /** Reading the decimal text of an integer gives back that integer. */
  lemma IntTextNumber(k: int)
    ensures StringToNumber(IntText(k)) == Some(k as real)
  {
    if k < 0 {
      NegTextRead(k);
    } else {
      NatTextRead(k);
      assert IntText(k) == NatText(k);
    }
  }

  lemma NatTextRead(n: nat)
    ensures StringToNumber(NatText(n)) == Some(n as real)
  {
    var t := NatText(n);
    NatTextValue(n);
    NatTextNumber(n);
    DigitsAlone(t);
    assert NumericLiteral(t) == UnsignedDecimal(t);
  }

  lemma NegTextRead(k: int)
    requires k < 0
    ensures StringToNumber(IntText(k)) == Some(k as real)
  {
    var n: nat := -k;
    assert IntText(k) == "-" + NatText(n);
    NegTextTrimmed(n);
    NegLiteral(n);
  }

  lemma NegTextTrimmed(n: nat)
    ensures Trim("-" + NatText(n)) == "-" + NatText(n)
  {
    var t := NatText(n);
    var s := "-" + t;
    assert s[|s| - 1] == t[|t| - 1];
    LastDigit(n);
    DigitAlone(t[|t| - 1]);
    assert !IsSpace(s[0]);
    TrimmedAlready(s);
  }

  lemma LastDigit(n: nat)
    ensures DigitValue(NatText(n)[|NatText(n)| - 1]) < 10
  {
  }

  lemma NegLiteral(n: nat)
    ensures NumericLiteral("-" + NatText(n)) == Some(-(n as real))
  {
    var t := NatText(n);
    var s := "-" + t;
    NatTextNumber(n);
    assert s[0] == '-' && s[1..] == t;
    assert RadixBase(s) == 0;
  }

  lemma TrimmedAlready(s: String)
    requires s != [] && !IsSpace(s[0]) && !IsSpace(s[|s| - 1])
    ensures Trim(s) == s
  {
  }

  lemma {:induction false} TrimStartSpaces(pre: String, x: String)
    requires AllSpace(pre)
    ensures TrimStart(pre + x) == TrimStart(x)
  {
    if pre != [] {
      assert (pre + x)[0] == pre[0] && IsSpace(pre[0]);
      assert (pre + x)[1..] == pre[1..] + x;
      assert AllSpace(pre[1..]) by {
        forall i | 0 <= i < |pre| - 1 ensures IsSpace(pre[1..][i]) {
          assert pre[1..][i] == pre[i + 1];
        }
      }
      TrimStartSpaces(pre[1..], x);
    } else {
      assert pre + x == x;
    }
  }

  lemma {:induction false} TrimEndSpaces(x: String, post: String)
    requires AllSpace(post)
    ensures TrimEnd(x + post) == TrimEnd(x)
  {
    if post != [] {
      var y := x + post;
      assert y[|y| - 1] == post[|post| - 1] && IsSpace(post[|post| - 1]);
      assert y[..|y| - 1] == x + post[..|post| - 1];
      assert AllSpace(post[..|post| - 1]);
      TrimEndSpaces(x, post[..|post| - 1]);
    } else {
      assert x + post == x;
    }
  }

  /** Leading white space, and the text's own, is dropped before anything else. */
  lemma TrimStartAround(pre: String, s: String, post: String)
    requires AllSpace(pre)
    ensures TrimStart(pre + s + post) == TrimStart(TrimStart(s) + post)
  {
    assert pre + s + post == pre + (s + post);
    TrimStartSpaces(pre, s + post);
    TrimStartAppend(s, post);
  }

  lemma {:induction false} TrimStartAppend(s: String, post: String)
    ensures TrimStart(s + post) == TrimStart(TrimStart(s) + post)
  {
    if s != [] && IsSpace(s[0]) {
      assert (s + post)[0] == s[0];
      assert (s + post)[1..] == s[1..] + post;
      TrimStartAppend(s[1..], post);
    }
  }

  lemma TrimAround(pre: String, s: String, post: String)
    requires AllSpace(pre) && AllSpace(post)
    ensures Trim(pre + s + post) == Trim(s)
  {
    var a := TrimStart(s);
    TrimStartAround(pre, s, post);
    if a == [] {
      assert a + post == post;
      TrimStartSpaces(post, []);
      assert post + [] == post;
    } else {
      assert (a + post)[0] == a[0];
      assert TrimStart(a + post) == a + post;
      TrimEndSpaces(a, post);
    }
  }

  /** White space around a literal does not change what it reads as. */
  lemma SpacesIgnored(pre: String, s: String, post: String)
    requires AllSpace(pre) && AllSpace(post)
    ensures StringToNumber(pre + s + post) == StringToNumber(s)
  {
    TrimAround(pre, s, post);
  }

  /** Text that starts with a character no literal can start with is NaN. */
  lemma LetterStartIsNaN(s: String)
    requires s != [] && !IsSpace(s[0]) && !IsSpace(s[|s| - 1])
    requires DigitValue(s[0]) >= 10 && s[0] !in {'+', '-', '.'}
    ensures StringToNumber(s) == None
  {
    TrimmedAlready(s);
    assert RadixBase(s) == 0;
    var e := IndexOf(s, {'e', 'E'});
    var m := s[..e];
    var p := IndexOf(m, {'.'});
    if p > 0 {
      assert m[..p][0] == s[0];
    }
    assert Mantissa(m) == None;
  }

  /** A decimal string with white space around it reads as its number. */
  lemma PaddedKeyNumber()
    ensures StringToNumber(" 12\n") == Some(12.0)
  {
    SpacesIgnored(" ", "12", "\n");
    PaddedTwelve();
    IntTextNumber(12);
    TwelveText();
  }

  lemma PaddedTwelve()
    ensures " " + "12" + "\n" == " 12\n"
  {
  }

  lemma TwelveText()
    ensures IntText(12) == "12"
  {
  }
}
