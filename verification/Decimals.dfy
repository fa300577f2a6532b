/**
 The decimal normaliser behind DynamoDB numbers (internal/dynamodb/attr.go).

 `Numeral` is the grammar of number texts, `Value` the rational a numeral denotes, and
 `Canonical` the text Tarn stores.  `CanonicalNumber` is the imperative form, which works on
 digit strings; everything else is about the meaning of those strings.
 */
module Decimals {
  import opened Integers
  import opened Strings
  import opened Wrappers

  // ---------------------------------------------------------------- digits

  function DigitChar(d: nat): (c: char)
    requires d < 10
    ensures IsDigit(c) && DigitValue(c) == d
  {
    ('0' as int + d) as char
  }

  /** The digits of a positive number, without leading zeros; empty for zero. */
  function Digits(n: nat): (s: string)
    ensures AllDigits(s) && Val(s) == n
    ensures s != "" ==> s[0] != '0'
    ensures n == 0 <==> s == ""
  {
    if n == 0 then "" else Digits(n / 10) + [DigitChar(n % 10)]
  }

  function Zeros(n: nat): (s: string)
    ensures |s| == n && AllDigits(s) && forall i :: 0 <= i < n ==> s[i] == '0'
  {
    seq(n, _ => '0')
  }

  function Pow10(n: nat): (p: nat)
    ensures p > 0
  {
    if n == 0 then 1 else 10 * Pow10(n - 1)
  }

  lemma Shift(x: nat, p: nat)
    ensures 10 * (x * p) == x * (10 * p)
  {
  }

  lemma {:induction false} ValConcat(a: string, b: string)
    requires AllDigits(a) && AllDigits(b)
    ensures AllDigits(a + b) && Val(a + b) == Val(a) * Pow10(|b|) + Val(b)
  {
    if b == "" {
      assert a + b == a;
    } else {
      var m := |b| - 1;
      ValConcat(a, b[..m]);
      assert (a + b)[..|a + b| - 1] == a + b[..m];
      Shift(Val(a), Pow10(m));
    }
  }

  lemma {:induction false} ValZeros(n: nat)
    ensures Val(Zeros(n)) == 0
  {
    if n > 0 {
      assert Zeros(n)[..n - 1] == Zeros(n - 1);
      ValZeros(n - 1);
    }
  }

  lemma DigitsSnoc(n: nat, c: char)
    requires IsDigit(c) && (n > 0 || c != '0')
    ensures Digits(10 * n + DigitValue(c)) == Digits(n) + [c]
  {
    var v := 10 * n + DigitValue(c);
    assert v / 10 == n && v % 10 == DigitValue(c);
    assert DigitChar(v % 10) == c;
  }

  /** A digit string without a leading zero is the only such text of its number. */
  lemma {:induction false} DigitsOfVal(s: string)
    requires AllDigits(s) && (s != "" ==> s[0] != '0')
    ensures Digits(Val(s)) == s
  {
    hide Digits;
    if s == "" {
      assert Digits(0) == "";
    } else {
      var m := |s| - 1;
      var t, c := s[..m], s[m];
      DigitsOfVal(t);
      assert Val(s) == 10 * Val(t) + DigitValue(c);
      assert Val(t) > 0 || c != '0' by {
        if m == 0 { assert c == s[0]; } else { assert t[0] == s[0]; }
      }
      DigitsSnoc(Val(t), c);
      assert s == t + [c];
    }
  }

  // ---------------------------------------------------------------- numerals

  datatype Exponent = Exponent(mark: char, sign: string, digits: string)

  /** A number text taken apart: spaces, sign, digits, point, digits, exponent, spaces. */
  datatype Numeral = Numeral(
    before: string, sign: string, whole: string, fraction: Option<string>,
    exponent: Option<Exponent>, after: string)

  predicate WellFormedExponent(e: Exponent) {
    (e.mark == 'e' || e.mark == 'E') && IsSign(e.sign) && e.digits != "" && AllDigits(e.digits) &&
    FitsInt64(SignedVal(e.sign, e.digits))
  }

  function FractionDigits(n: Numeral): string {
    if n.fraction.Some? then n.fraction.value else ""
  }

  predicate WellFormed(n: Numeral) {
    AllSpaces(n.before) && AllSpaces(n.after) && IsSign(n.sign) &&
    AllDigits(n.whole) && AllDigits(FractionDigits(n)) && n.whole + FractionDigits(n) != "" &&
    (n.exponent.Some? ==> WellFormedExponent(n.exponent.value))
  }

  function MantissaText(n: Numeral): string {
    n.whole + (if n.fraction.Some? then "." + n.fraction.value else "")
  }

  function ExponentText(n: Numeral): string {
    if n.exponent.Some? then [n.exponent.value.mark] + n.exponent.value.sign + n.exponent.value.digits else ""
  }

  function Text(n: Numeral): string {
    n.before + (n.sign + (MantissaText(n) + ExponentText(n))) + n.after
  }

  /** `(-1)^negative * coeff * 10^exp`. */
  datatype Decimal = Decimal(negative: bool, coeff: nat, exp: int)

  function Meaning(n: Numeral): Decimal
    requires WellFormed(n)
  {
    Decimal(n.sign == "-", Val(n.whole + FractionDigits(n)), ExponentValue(n) - |FractionDigits(n)|)
  }

  // ---------------------------------------------------------------- reading

  /** What the text before the exponent mark denotes, given the exponent. */
  function ReadMantissa(negative: bool, mantissa: string, exp: int): Option<Decimal> {
    var j := IndexAny(mantissa, {'.'});
    var whole := mantissa[..j];
    var frac := if j < |mantissa| then mantissa[j + 1..] else "";
    if whole + frac == "" || !AllDigits(whole + frac) then None
    else Some(Decimal(negative, Val(whole + frac), exp - |frac|))
  }

  function ReadUnsigned(negative: bool, t: string): Option<Decimal> {
    var i := IndexAny(t, {'e', 'E'});
    if i == |t| then ReadMantissa(negative, t, 0)
    else
      var e := Atoi(t[i + 1..]);
      if e.None? then None else ReadMantissa(negative, t[..i], e.value)
  }

  /** The number a text denotes; None for a text that is not a numeral. */
  function Read(raw: string): Option<Decimal> {
    var s := TrimSpace(raw);
    ReadUnsigned(SignOf(s) == "-", s[|SignOf(s)|..])
  }

  // -- Read accepts exactly the well-formed numerals and computes their meaning.

  lemma AtoiReads(sign: string, digits: string)
    requires IsSign(sign) && digits != "" && AllDigits(digits) && FitsInt64(SignedVal(sign, digits))
    ensures Atoi(sign + digits) == Some(SignedVal(sign, digits))
  {
    assert digits[0] != '-' && digits[0] != '+';
    assert SignOf(sign + digits) == sign;
    assert (sign + digits)[|sign|..] == digits;
  }

  lemma IndexAfter(a: string, b: string, chars: set<char>)
    requires forall i :: 0 <= i < |a| ==> a[i] !in chars
    requires b == "" || b[0] in chars
    ensures IndexAny(a + b, chars) == |a|
  {
    var s := a + b;
    assert forall k :: 0 <= k < |a| ==> s[k] == a[k];
    assert b != "" ==> s[|a|] == b[0];
  }

  lemma MantissaReads(n: Numeral, negative: bool, exp: int)
    requires WellFormed(n)
    ensures ReadMantissa(negative, MantissaText(n), exp) ==
            Some(Decimal(negative, Val(n.whole + FractionDigits(n)), exp - |FractionDigits(n)|))
    ensures forall i :: 0 <= i < |MantissaText(n)| ==> MantissaText(n)[i] == '.' || IsDigit(MantissaText(n)[i])
  {
    hide Val, IndexAny, ExponentText;
    var tail := if n.fraction.Some? then "." + n.fraction.value else "";
    IndexAfter(n.whole, tail, {'.'});
    assert MantissaText(n)[..|n.whole|] == n.whole;
    if n.fraction.Some? {
      assert MantissaText(n)[|n.whole| + 1..] == n.fraction.value;
    }
  }

  lemma MarkSplits(negative: bool, m: string, mark: char, x: string)
    requires forall i :: 0 <= i < |m| ==> m[i] !in {'e', 'E'}
    requires mark in {'e', 'E'} && Atoi(x).Some?
    ensures ReadUnsigned(negative, m + ([mark] + x)) == ReadMantissa(negative, m, Atoi(x).value)
  {
    var t := m + ([mark] + x);
    IndexAfter(m, [mark] + x, {'e', 'E'});
    assert t[|m| + 1..] == x;
    assert t[..|m|] == m;
  }

  lemma NoMark(negative: bool, m: string)
    requires forall i :: 0 <= i < |m| ==> m[i] !in {'e', 'E'}
    ensures ReadUnsigned(negative, m) == ReadMantissa(negative, m, 0)
  {
    IndexAfter(m, "", {'e', 'E'});
    assert m + "" == m;
  }

  /** The int an exponent suffix contributes, zero without one. */
  function ExponentValue(n: Numeral): int
    requires WellFormed(n)
  {
    if n.exponent.Some? then SignedVal(n.exponent.value.sign, n.exponent.value.digits) else 0
  }

  lemma ExponentReads(negative: bool, m: string, mark: char, x: string, e: int)
    requires forall i :: 0 <= i < |m| ==> m[i] !in {'e', 'E'}
    requires mark in {'e', 'E'} && Atoi(x) == Some(e)
    ensures ReadUnsigned(negative, m + ([mark] + x)) == ReadMantissa(negative, m, e)
  {
    MarkSplits(negative, m, mark, x);
  }

  lemma ExponentAtoi(n: Numeral)
    requires WellFormed(n) && n.exponent.Some?
    ensures Atoi(n.exponent.value.sign + n.exponent.value.digits) == Some(ExponentValue(n))
  {
    AtoiReads(n.exponent.value.sign, n.exponent.value.digits);
  }

  lemma UnsignedReads(n: Numeral)
    requires WellFormed(n)
    ensures ReadUnsigned(n.sign == "-", MantissaText(n) + ExponentText(n)) ==
            ReadMantissa(n.sign == "-", MantissaText(n), ExponentValue(n))
  {
    hide ReadMantissa, ReadUnsigned, Val, Atoi, MantissaText, SignedVal;
    var m := MantissaText(n);
    MantissaReads(n, false, 0);
    if n.exponent.Some? {
      var x := n.exponent.value;
      ExponentAtoi(n);
      assert [x.mark] + x.sign + x.digits == [x.mark] + (x.sign + x.digits);
      ExponentReads(n.sign == "-", m, x.mark, x.sign + x.digits, ExponentValue(n));
    } else {
      NoMark(n.sign == "-", m);
      assert m + ExponentText(n) == m;
    }
  }

  lemma BodyEnds(n: Numeral)
    requires WellFormed(n)
    ensures var body := MantissaText(n) + ExponentText(n);
      body != "" && (body[0] == '.' || IsDigit(body[0])) && !IsSpace(body[|body| - 1])
  {
    hide ReadMantissa, IndexAny, Val, SignedVal, FitsInt64;
    var m, e := MantissaText(n), ExponentText(n);
    MantissaReads(n, false, 0);
    assert m != "";
    assert (m + e)[0] == m[0];
    if n.exponent.Some? {
      var d := n.exponent.value.digits;
      assert (m + e)[|m + e| - 1] == d[|d| - 1];
    } else {
      assert m + e == m;
    }
  }

  lemma SignedReads(before: string, sign: string, body: string, after: string)
    requires AllSpaces(before) && AllSpaces(after) && IsSign(sign)
    requires body != "" && (body[0] == '.' || IsDigit(body[0])) && !IsSpace(body[|body| - 1])
    ensures Read(before + (sign + body) + after) == ReadUnsigned(sign == "-", body)
  {
    hide TrimSpace, ReadUnsigned, AllSpaces;
    var core := sign + body;
    assert core[0] == (if sign == "" then body[0] else sign[0]);
    assert core[|core| - 1] == body[|body| - 1];
    TrimSpaceStrips(before, core, after);
    assert core[|sign|..] == body;
    assert core[..1] == [core[0]];
    assert SignOf(core) == sign;
  }

  lemma TextReads(n: Numeral, body: string)
    requires WellFormed(n) && body == MantissaText(n) + ExponentText(n)
    requires body != "" && (body[0] == '.' || IsDigit(body[0])) && !IsSpace(body[|body| - 1])
    ensures Read(Text(n)) == ReadUnsigned(n.sign == "-", body)
  {
    SignedReads(n.before, n.sign, body, n.after);
  }

  /** Every well-formed numeral is read back as its meaning. */
  lemma ReadComplete(n: Numeral)
    requires WellFormed(n)
    ensures Read(Text(n)) == Some(Meaning(n))
  {
    hide Val, IndexAny, ReadUnsigned, ReadMantissa, MantissaText, ExponentText, Read, Text, AllDigits, WellFormed, FractionDigits, ExponentValue;
    var body := MantissaText(n) + ExponentText(n);
    BodyEnds(n);
    UnsignedReads(n);
    MantissaReads(n, n.sign == "-", ExponentValue(n));
    TextReads(n, body);
  }

  // ---------------------------------------------------------------- the numeral behind a text

  /** The numeral written as `before + s + after`, where `s` has no spaces at its ends. */
  function Split(before: string, s: string, after: string): Numeral {
    var sign := SignOf(s);
    var t := s[|sign|..];
    var i := IndexAny(t, {'e', 'E'});
    var m := t[..i];
    var j := IndexAny(m, {'.'});
    Numeral(before, sign, m[..j], if j < |m| then Some(m[j + 1..]) else None,
            if i < |t| then Some(Exponent(t[i], SignOf(t[i + 1..]), t[i + 1..][|SignOf(t[i + 1..])|..])) else None,
            after)
  }

  /** The numeral a readable text is written as. */
  function Parts(raw: string): Numeral {
    var left := TrimLeft(raw);
    var s := TrimRight(left);
    Split(raw[..|raw| - |left|], s, left[|s|..])
  }

  lemma Reassemble(s: string, i: nat)
    requires i <= |s|
    ensures s[..i] + s[i..] == s
  {
  }

  lemma ExponentJoin(t: string, i: nat)
    requires i < |t|
    ensures [t[i]] + SignOf(t[i + 1..]) + t[i + 1..][|SignOf(t[i + 1..])|..] == t[i..]
  {
    var rest := t[i + 1..];
    var sign := SignOf(rest);
    hide SignOf;
    assert sign + rest[|sign|..] == rest;
    assert [t[i]] + rest == t[i..];
  }

  lemma MantissaJoin(m: string, j: nat)
    requires j <= |m| && (j < |m| ==> m[j] == '.')
    ensures m[..j] + (if j < |m| then "." + m[j + 1..] else "") == m
  {
  }

  lemma SplitTexts(before: string, s: string, after: string)
    ensures var n, t := Split(before, s, after), s[|SignOf(s)|..];
      MantissaText(n) == t[..IndexAny(t, {'e', 'E'})] && ExponentText(n) == t[IndexAny(t, {'e', 'E'})..]
  {
    hide IndexAny, SignOf;
    var t := s[|SignOf(s)|..];
    var i := IndexAny(t, {'e', 'E'});
    MantissaJoin(t[..i], IndexAny(t[..i], {'.'}));
    if i < |t| {
      ExponentJoin(t, i);
    }
  }

  lemma SplitJoin(before: string, s: string, after: string)
    ensures Text(Split(before, s, after)) == before + s + after
  {
    hide IndexAny, SignOf, MantissaText, ExponentText;
    var t := s[|SignOf(s)|..];
    SplitTexts(before, s, after);
    Reassemble(t, IndexAny(t, {'e', 'E'}));
    Reassemble(s, |SignOf(s)|);
  }

  lemma PartsJoin(raw: string)
    ensures Text(Parts(raw)) == raw
  {
    hide Split, Text;
    var left := TrimLeft(raw);
    var s := TrimRight(left);
    var before := raw[..|raw| - |left|];
    SplitJoin(before, s, left[|s|..]);
    Reassemble(left, |s|);
    Reassemble(raw, |before|);
    Associate(before, s, left[|s|..]);
  }

  lemma Associate(a: string, b: string, c: string)
    ensures a + b + c == a + (b + c)
  {
  }

  lemma MantissaWellFormed(m: string, negative: bool, exp: int)
    requires ReadMantissa(negative, m, exp).Some?
    ensures var j := IndexAny(m, {'.'}); var frac := if j < |m| then m[j + 1..] else "";
      m[..j] + frac != "" && AllDigits(m[..j]) && AllDigits(frac)
  {
    hide Val, IndexAny, IsDigit, AllDigits;
    var j := IndexAny(m, {'.'});
    DigitsApart(m[..j], if j < |m| then m[j + 1..] else "");
  }

  lemma DigitsApart(a: string, b: string)
    requires AllDigits(a + b)
    ensures AllDigits(a) && AllDigits(b)
  {
    hide IsDigit;
    var d := a + b;
    assert forall i :: 0 <= i < |a| ==> a[i] == d[i];
    assert forall i :: 0 <= i < |b| ==> b[i] == d[|a| + i];
  }

  lemma ExponentWellFormed(mark: char, x: string)
    requires mark in {'e', 'E'} && Atoi(x).Some?
    ensures WellFormedExponent(Exponent(mark, SignOf(x), x[|SignOf(x)|..]))
  {
  }

  lemma SplitWellFormed(before: string, s: string, after: string)
    requires AllSpaces(before) && AllSpaces(after)
    requires ReadUnsigned(SignOf(s) == "-", s[|SignOf(s)|..]).Some?
    ensures WellFormed(Split(before, s, after))
  {
    hide SignOf, IndexAny, ReadMantissa, AllDigits, AllSpaces, WellFormedExponent, Atoi;
    var t := s[|SignOf(s)|..];
    var i := IndexAny(t, {'e', 'E'});
    if i < |t| {
      ExponentWellFormed(t[i], t[i + 1..]);
      MantissaWellFormed(t[..i], SignOf(s) == "-", Atoi(t[i + 1..]).value);
    } else {
      assert t[..i] == t;
      MantissaWellFormed(t, SignOf(s) == "-", 0);
    }
  }

  lemma PartsWellFormed(raw: string)
    requires Read(raw).Some?
    ensures WellFormed(Parts(raw))
  {
    hide Split, ReadUnsigned, WellFormed;
    var left := TrimLeft(raw);
    var s := TrimRight(left);
    SplitWellFormed(raw[..|raw| - |left|], s, left[|s|..]);
  }

  /** Every readable text is a well-formed numeral with that meaning. */
  lemma ReadSound(raw: string)
    requires Read(raw).Some?
    ensures WellFormed(Parts(raw)) && Text(Parts(raw)) == raw && Read(raw) == Some(Meaning(Parts(raw)))
  {
    PartsWellFormed(raw);
    PartsJoin(raw);
    ReadComplete(Parts(raw));
  }

  // ---------------------------------------------------------------- values

  /** Ten to any integer power. */
  function Scale(e: int): (r: real)
    ensures r > 0.0
    decreases if e < 0 then -e else e
  {
    if e == 0 then 1.0 else if e > 0 then 10.0 * Scale(e - 1) else Scale(e + 1) / 10.0
  }

  /** The rational a decimal denotes. */
  function Value(d: Decimal): real {
    var magnitude := d.coeff as real * Scale(d.exp);
    if d.negative then -magnitude else magnitude
  }

  lemma ScaleStep(e: int)
    ensures Scale(e + 1) == 10.0 * Scale(e)
  {
  }

  lemma {:induction false} ScaleSum(e: int, n: nat)
    ensures Scale(e + n) == Pow10(n) as real * Scale(e)
  {
    hide Scale, Pow10;
    if n == 0 {
      PowStep(0);
    } else {
      ScaleSum(e, n - 1);
      ScaleStep(e + n - 1);
      PowStep(n - 1);
      Tenfold(Pow10(n - 1) as real, Scale(e));
    }
  }

  lemma PowStep(n: nat)
    ensures Pow10(0) == 1 && Pow10(n + 1) as real == 10.0 * Pow10(n) as real
  {
  }

  lemma Tenfold(p: real, q: real)
    ensures 10.0 * (p * q) == 10.0 * p * q
  {
  }

  /** No trailing zero in the coefficient, and one form of zero. */
  predicate Normal(d: Decimal) {
    if d.coeff == 0 then d == Decimal(false, 0, 0) else d.coeff % 10 != 0
  }

  function Normalize(d: Decimal): (r: Decimal)
    ensures Normal(r) && Value(r) == Value(d)
    decreases d.coeff
  {
    hide Value, Scale;
    if d.coeff == 0 then
      ZeroValue(d);
      Decimal(false, 0, 0)
    else if d.coeff % 10 == 0 then
      TenthValue(d);
      Normalize(Decimal(d.negative, d.coeff / 10, d.exp + 1))
    else d
  }

  lemma ZeroValue(d: Decimal)
    requires d.coeff == 0
    ensures Value(d) == Value(Decimal(false, 0, 0)) == 0.0
  {
    hide Scale;
  }

  /** One zero less in the coefficient, one more in the exponent. */
  lemma TenthValue(d: Decimal)
    requires d.coeff % 10 == 0
    ensures Value(Decimal(d.negative, d.coeff / 10, d.exp + 1)) == Value(d)
  {
    hide Scale;
    ScaleStep(d.exp);
    var a := (d.coeff / 10) as real;
    assert d.coeff as real == 10.0 * a;
    TenTimes(a, Scale(d.exp));
  }

  lemma TenTimes(a: real, b: real)
    ensures 10.0 * a * b == a * (10.0 * b)
  {
  }

  lemma Cancel(a: real, b: real, c: real)
    requires c > 0.0 && a * c == b * c
    ensures a == b
  {
  }

  lemma Positive(d: Decimal)
    ensures d.coeff > 0 ==> d.coeff as real * Scale(d.exp) > 0.0
    ensures d.coeff == 0 ==> Value(d) == 0.0
  {
  }

  /** Equal magnitudes with ordered exponents differ by a power of ten. */
  lemma CoefficientsScale(a: Decimal, b: Decimal)
    requires a.exp >= b.exp
    requires a.coeff as real * Scale(a.exp) == b.coeff as real * Scale(b.exp)
    ensures a.coeff * Pow10(a.exp - b.exp) == b.coeff
  {
    hide Scale, Pow10;
    var p, q := Pow10(a.exp - b.exp), Scale(b.exp);
    ScaleSum(b.exp, a.exp - b.exp);
    var x := a.coeff as real;
    assert x * (p as real * q) == x * p as real * q;
    Cancel(x * p as real, b.coeff as real, q);
    assert (a.coeff * p) as real == x * p as real;
  }

  lemma NormalOrdered(a: Decimal, b: Decimal)
    requires Normal(a) && Normal(b) && Value(a) == Value(b) && a.exp >= b.exp
    ensures a == b
  {
    hide Scale;
    Positive(a);
    Positive(b);
    if a.coeff > 0 && b.coeff > 0 {
      CoefficientsScale(a, b);
      if a.exp > b.exp {
        MultipleOfTen(a.coeff, a.exp - b.exp);
      }
    }
  }

  lemma MultipleOfTen(c: nat, n: nat)
    requires n > 0
    ensures (c * Pow10(n)) % 10 == 0
  {
    assert c * Pow10(n) == 10 * (c * Pow10(n - 1));
  }

  /** Normal forms are unique: equal rationals have equal normal decimals. */
  lemma NormalUnique(a: Decimal, b: Decimal)
    requires Normal(a) && Normal(b) && Value(a) == Value(b)
    ensures a == b
  {
    if a.exp >= b.exp {
      NormalOrdered(a, b);
    } else {
      NormalOrdered(b, a);
    }
  }

  // ---------------------------------------------------------------- the canonical text

  /** `digits * 10^exp` without an exponent. */
  function Plain(digits: string, exp: int): string {
    var point := |digits| + exp;
    if digits == "" then "0"
    else if exp >= 0 then digits + Zeros(exp)
    else if point > 0 then digits[..point] + "." + digits[point..]
    else "0." + Zeros(-point) + digits
  }

  /** The plain decimal text of a normal decimal. */
  function Render(d: Decimal): string
    requires Normal(d)
  {
    var out := Plain(Digits(d.coeff), d.exp);
    if d.negative then "-" + out else out
  }

  /** DynamoDB stores at most this many significant digits. */
  const MAX_DIGITS := 38

  /** Go builds no longer text: 2^48 bytes on a 64-bit machine. */
  const MAX_TEXT := 0x1_0000_0000_0000

  /** How canonicalNumber ends; it panics when the zeros of the exponent cannot be written out. */
  datatype Outcome = Written(text: string) | Refused | Panicked

  /** The text of a normal decimal, if it has few enough digits to store. */
  function Stored(d: Decimal): Outcome
    requires Normal(d)
  {
    if |Digits(d.coeff)| > MAX_DIGITS then Refused
    else if |Render(d)| > MAX_TEXT then Panicked
    else Written(Render(d))
  }

  function Attempt(raw: string): Outcome {
    var d := Read(raw);
    if d.None? then Refused else Stored(Normalize(d.value))
  }

  /** The text Tarn stores for a number text. */
  function Canonical(raw: string): Result<string> {
    if Attempt(raw).Written? then Ok(Attempt(raw).text) else Err
  }

  /** The digits `Render` writes before the point, and those after it if there is one. */
  function WholeDigits(digits: string, exp: int): string {
    var point := |digits| + exp;
    if digits == "" then "0"
    else if exp >= 0 then digits + Zeros(exp)
    else if point > 0 then digits[..point]
    else "0"
  }

  function FractionOf(digits: string, exp: int): Option<string> {
    var point := |digits| + exp;
    if digits == "" || exp >= 0 then None
    else if point > 0 then Some(digits[point..])
    else Some(Zeros(-point) + digits)
  }

  /** The numeral `Render` writes. */
  function Rendered(d: Decimal): Numeral
    requires Normal(d)
  {
    var digits := Digits(d.coeff);
    Numeral("", if d.negative then "-" else "", WholeDigits(digits, d.exp), FractionOf(digits, d.exp), None, "")
  }

  /** A numeral without spaces and exponent is its sign and mantissa. */
  lemma PlainText(n: Numeral)
    requires n.before == n.after == "" && n.exponent.None?
    ensures Text(n) == n.sign + MantissaText(n)
  {
    hide MantissaText;
    var plain := MantissaText(n);
    assert plain + ExponentText(n) == plain;
    assert "" + (n.sign + plain) + "" == n.sign + plain;
  }

  lemma PlainSplits(digits: string, exp: int)
    ensures var f := FractionOf(digits, exp);
      WholeDigits(digits, exp) + (if f.Some? then "." + f.value else "") == Plain(digits, exp)
  {
    hide Zeros;
    var point := |digits| + exp;
    if digits != "" && exp < 0 {
      if point > 0 {
        Associate(digits[..point], ".", digits[point..]);
      } else {
        Associate("0.", Zeros(-point), digits);
        Associate("0", ".", Zeros(-point) + digits);
        assert "0" + "." == "0.";
      }
    } else {
      assert WholeDigits(digits, exp) + "" == WholeDigits(digits, exp);
    }
  }

  lemma RenderedText(d: Decimal)
    requires Normal(d)
    ensures Text(Rendered(d)) == Render(d)
  {
    hide Digits, Normal, Plain, WholeDigits, FractionOf, Text;
    var n := Rendered(d);
    PlainText(n);
    PlainSplits(Digits(d.coeff), d.exp);
    assert "" + MantissaText(n) == MantissaText(n);
  }

  lemma RenderedWellFormed(d: Decimal)
    requires Normal(d)
    ensures WellFormed(Rendered(d))
  {
    hide Digits, Normal, Scale, Val;
    var n := Rendered(d);
    assert n.whole != "";
    assert AllDigits(n.whole);
    assert AllDigits(FractionDigits(n));
  }

  lemma WholeValue(c: nat, e: nat)
    ensures Val(Digits(c) + Zeros(e)) as real * Scale(0) == c as real * Scale(e)
  {
    hide Digits, Zeros, Pow10, Val;
    ValConcat(Digits(c), Zeros(e));
    ValZeros(e);
    ScaleSum(0, e);
  }

  lemma SmallValue(c: nat, zeros: nat)
    ensures Val("0" + (Zeros(zeros) + Digits(c))) == c
  {
    hide Digits, Zeros, Pow10;
    ValConcat(Zeros(zeros), Digits(c));
    ValConcat("0", Zeros(zeros) + Digits(c));
    ValZeros(zeros);
    assert Val("0") == 0 by { assert "0"[..0] == ""; }
  }

  /** A non-negative exponent is written out as zeros; a negative one becomes the point. */
  lemma RenderedMeaning(d: Decimal)
    requires Normal(d)
    ensures WellFormed(Rendered(d))
    ensures Meaning(Rendered(d)) ==
            if d.exp >= 0 then Decimal(d.negative, Val(Digits(d.coeff) + Zeros(d.exp)), 0) else d
  {
    RenderedWellFormed(d);
    hide Digits, Scale, Zeros, Val, WellFormed, Pow10, IsDigit, FitsInt64, IsSign;
    var n, digits := Rendered(d), Digits(d.coeff);
    var point := |digits| + d.exp;
    if digits == "" {
      assert Val(Zeros(1)) == 0 && Val("") == 0 by { ValZeros(1); ValZeros(0); }
      assert n.whole + "" == Zeros(1) && digits + Zeros(0) == "";
    } else if d.exp >= 0 {
      assert n.whole + "" == digits + Zeros(d.exp);
    } else if point > 0 {
      Reassemble(digits, point);
    } else {
      SmallValue(d.coeff, -point);
    }
  }

  lemma SameMagnitude(a: Decimal, b: Decimal)
    requires a.negative == b.negative
    requires a.coeff as real * Scale(a.exp) == b.coeff as real * Scale(b.exp)
    ensures Value(a) == Value(b)
  {
  }

  lemma RenderedValue(d: Decimal)
    requires Normal(d)
    ensures WellFormed(Rendered(d)) && Value(Meaning(Rendered(d))) == Value(d)
  {
    hide Scale, WellFormed, Rendered, Meaning, Normal, Value, Digits, Val, Zeros;
    RenderedMeaning(d);
    if d.exp >= 0 {
      WholeValue(d.coeff, d.exp);
      SameMagnitude(Meaning(Rendered(d)), d);
    }
  }

  /** A rendered decimal reads back as itself, up to normalisation. */
  lemma RenderReads(d: Decimal)
    requires Normal(d)
    ensures Read(Render(d)).Some? && Value(Read(Render(d)).value) == Value(d)
    ensures Normalize(Read(Render(d)).value) == d
  {
    hide Value, Render, Rendered, Read, Text;
    RenderedText(d);
    RenderedValue(d);
    ReadComplete(Rendered(d));
    NormalUnique(Normalize(Meaning(Rendered(d))), d);
  }

  // ---------------------------------------------------------------- main results

  /** The number a readable text denotes. */
  function Number(raw: string): real
    requires Read(raw).Some?
  {
    Value(Read(raw).value)
  }

  /** The sign of a text is that of its number, and plain digits are the number they spell. */
  lemma NumberSigned(n: Numeral)
    requires WellFormed(n)
    ensures Read(Text(n)).Some?
    ensures if n.sign == "-" then Number(Text(n)) <= 0.0 else Number(Text(n)) >= 0.0
    ensures n.sign != "-" && n.fraction.None? && n.exponent.None? ==> Number(Text(n)) == Val(n.whole) as real
  {
    hide Read, Text, Val, WellFormed;
    ReadComplete(n);
    var d := Meaning(n);
    NotNegative(d.coeff as real, Scale(d.exp));
    if n.fraction.None? {
      assert n.whole + "" == n.whole;
    }
  }

  lemma NotNegative(x: real, y: real)
    requires x >= 0.0 && y >= 0.0
    ensures x * y >= 0.0
  {
  }

  /** Canonicalising keeps the number. */
  lemma CanonicalKeepsNumber(raw: string)
    requires Canonical(raw).Ok?
    ensures Read(Canonical(raw).value).Some? && Number(Canonical(raw).value) == Number(raw)
  {
    RenderReads(Normalize(Read(raw).value));
  }

  /** Canonicalising twice is canonicalising once. */
  lemma CanonicalIdempotent(raw: string)
    requires Canonical(raw).Ok?
    ensures Canonical(Canonical(raw).value) == Canonical(raw)
  {
    hide Read, Render, Digits;
    RenderReads(Normalize(Read(raw).value));
  }

  /** Two accepted texts have one canonical text exactly when they denote one number. */
  lemma CanonicalUnique(a: string, b: string)
    requires Canonical(a).Ok? && Canonical(b).Ok?
    ensures Canonical(a) == Canonical(b) <==> Number(a) == Number(b)
  {
    hide Read, Value, Render;
    CanonicalKeepsNumber(a);
    CanonicalKeepsNumber(b);
    var x, y := Normalize(Read(a).value), Normalize(Read(b).value);
    if Number(a) == Number(b) {
      NormalUnique(x, y);
    }
  }

  lemma {:induction false} DigitCount(n: nat, k: nat)
    ensures |Digits(n)| <= k <==> n < Pow10(k)
  {
    if n > 0 && k > 0 {
      DigitCount(n / 10, k - 1);
    }
  }

  /** The length of the plain text of `k` digits times ten to `exp`. */
  function WrittenLength(negative: bool, k: nat, exp: int): int {
    (if negative then 1 else 0) +
    (if k == 0 then 1 else if exp >= 0 then k + exp else if k + exp > 0 then k + 1 else 2 - exp)
  }

  lemma RenderLength(d: Decimal)
    requires Normal(d)
    ensures |Render(d)| == WrittenLength(d.negative, |Digits(d.coeff)|, d.exp)
  {
    hide Digits, Zeros;
    assert d.coeff == 0 <==> Digits(d.coeff) == "";
  }

  /** `raw` is a numeral of the number `d`. */
  ghost predicate Denotes(raw: string, d: Decimal) {
    exists n: Numeral :: WellFormed(n) && Text(n) == raw && Value(Meaning(n)) == Value(d)
  }

  lemma DenotesRead(raw: string, d: Decimal)
    requires Denotes(raw, d)
    ensures Read(raw).Some? && Normalize(Read(raw).value) == Normalize(d)
  {
    hide Value, Text, WellFormed, Read;
    var n: Numeral :| WellFormed(n) && Text(n) == raw && Value(Meaning(n)) == Value(d);
    ReadComplete(n);
    NormalUnique(Normalize(Meaning(n)), Normalize(d));
  }

  lemma ReadDenotes(raw: string)
    requires Read(raw).Some?
    ensures Denotes(raw, Normalize(Read(raw).value))
  {
    hide Value, Text, WellFormed, Read;
    ReadSound(raw);
    assert Value(Meaning(Parts(raw))) == Value(Normalize(Read(raw).value));
  }

  /** At most 38 significant digits, and a plain text that can be built. */
  predicate Storable(d: Decimal) {
    Normal(d) && d.coeff < Pow10(MAX_DIGITS) && WrittenLength(d.negative, |Digits(d.coeff)|, d.exp) <= MAX_TEXT
  }

  lemma StoredExact(d: Decimal)
    requires Normal(d)
    ensures Stored(d).Written? <==> Storable(d)
    ensures Stored(d).Panicked? <==> d.coeff < Pow10(MAX_DIGITS) && !Storable(d)
  {
    hide Render, Digits, Pow10, WrittenLength;
    RenderLength(d);
    DigitCount(d.coeff, MAX_DIGITS);
  }

  lemma {:induction false} NormalStays(d: Decimal)
    requires Normal(d)
    ensures Normalize(d) == d
  {
  }

  /**
   A text is accepted exactly when it is a numeral of at most 38 significant digits whose plain text can be built.  When
   only the digits are few enough the call panics, and any other text is refused.
   */
  lemma CanonicalAccepts(raw: string)
    ensures Canonical(raw).Ok? <==> exists d: Decimal :: Denotes(raw, d) && Storable(d)
    ensures Attempt(raw).Panicked? <==>
      exists d: Decimal :: Denotes(raw, d) && Normal(d) && d.coeff < Pow10(MAX_DIGITS) && !Storable(d)
  {
    hide Value, Read, Pow10, Stored, Storable, Denotes;
    if Read(raw).Some? {
      ReadDenotes(raw);
      StoredExact(Normalize(Read(raw).value));
    }
    forall d: Decimal | Denotes(raw, d) && Normal(d)
      ensures Read(raw).Some? && Normalize(Read(raw).value) == d
    {
      DenotesRead(raw, d);
      NormalStays(d);
    }
    assert forall d: Decimal :: Storable(d) ==> Normal(d) by { StorableNormal(); }
  }

  lemma StorableNormal()
    ensures forall d: Decimal :: Storable(d) ==> Normal(d)
  {
  }

  // -- The exponent in a 64-bit integer.

  /** What a 64-bit integer holds instead of `n`. */
  function Wrapped(n: int): (r: int)
    ensures FitsInt64(r)
  {
    (n + 0x8000_0000_0000_0000) % 0x1_0000_0000_0000_0000 - 0x8000_0000_0000_0000
  }

  lemma {:induction false} ValBounded(s: string)
    requires AllDigits(s)
    ensures Val(s) < Pow10(|s|)
  {
    if s != "" {
      ValBounded(s[..|s| - 1]);
    }
  }

  lemma {:induction false} NormalizeRaises(d: Decimal, k: nat)
    requires 0 < d.coeff < Pow10(k)
    ensures d.exp <= Normalize(d).exp <= d.exp + k
    decreases k
  {
    if d.coeff % 10 == 0 {
      NormalizeRaises(Decimal(d.negative, d.coeff / 10, d.exp + 1), k - 1);
    }
  }

  /** A text takes its exponent at most its own length away from a 64-bit integer. */
  lemma ExponentNear(raw: string)
    requires Read(raw).Some? && Read(raw).value.coeff > 0
    ensures -0x8000_0000_0000_0000 - |raw| <= Normalize(Read(raw).value).exp < 0x8000_0000_0000_0000 + |raw|
  {
    hide Read, Normalize, Val, Pow10, AllSpaces, AllDigits, SignedVal;
    ReadSound(raw);
    var n := Parts(raw);
    TextLonger(n);
    MeaningNear(n);
    ValBounded(n.whole + FractionDigits(n));
    NormalizeRaises(Meaning(n), |n.whole + FractionDigits(n)|);
  }

  lemma TextLonger(n: Numeral)
    ensures |n.whole| + |FractionDigits(n)| <= |Text(n)|
  {
  }

  lemma MeaningNear(n: Numeral)
    requires WellFormed(n)
    ensures -0x8000_0000_0000_0000 - |FractionDigits(n)| <= Meaning(n).exp < 0x8000_0000_0000_0000 - |FractionDigits(n)|
    ensures AllDigits(n.whole + FractionDigits(n)) && Meaning(n).coeff == Val(n.whole + FractionDigits(n))
  {
    hide Val;
  }

  /** A text of a length that exists ends the same when its exponent is kept in 64 bits. */
  lemma WrapHarmless(raw: string)
    requires |raw| <= MAX_TEXT && Read(raw).Some? && Read(raw).value.coeff > 0
    ensures var d := Normalize(Read(raw).value);
      Normal(d.(exp := Wrapped(d.exp))) && Attempt(raw) == Stored(d.(exp := Wrapped(d.exp)))
  {
    hide Read, Normalize, Render, Digits;
    var d := Normalize(Read(raw).value);
    ExponentNear(raw);
    NormalizePositive(Read(raw).value);
    var w := d.(exp := Wrapped(d.exp));
    RenderLength(d);
    RenderLength(w);
    if !FitsInt64(d.exp) {
      assert |Render(d)| > MAX_TEXT && |Render(w)| > MAX_TEXT;
    }
  }

  lemma {:induction false} NormalizePositive(d: Decimal)
    ensures Normalize(d).coeff > 0 <==> d.coeff > 0
    decreases d.coeff
  {
    if d.coeff > 0 && d.coeff % 10 == 0 {
      NormalizePositive(Decimal(d.negative, d.coeff / 10, d.exp + 1));
    }
  }

  // ---------------------------------------------------------------- the imperative form

  /** strings.TrimLeft(s, "0"). */
  function TrimZeros(s: string): (t: string)
    requires AllDigits(s)
    ensures AllDigits(t) && Val(t) == Val(s) && (t != "" ==> t[0] != '0')
  {
    if s != "" && s[0] == '0' then
      assert Val(s) == Val(s[1..]) by { LeadingZero(s[1..]); assert s == "0" + s[1..]; }
      TrimZeros(s[1..])
    else s
  }

  lemma LeadingZero(s: string)
    requires AllDigits(s)
    ensures AllDigits("0" + s) && Val("0" + s) == Val(s)
  {
    hide Pow10;
    ValConcat("0", s);
    assert Val("0") == 0 by { assert "0"[..0] == ""; }
  }

  /** Dropping a trailing zero digit is one step of normalisation. */
  lemma DropZero(negative: bool, digits: string, exp: int)
    requires AllDigits(digits) && digits != "" && digits[0] != '0' && digits[|digits| - 1] == '0'
    ensures AllDigits(digits[..|digits| - 1]) && digits[..|digits| - 1] != "" && digits[..|digits| - 1][0] != '0'
    ensures Normalize(Decimal(negative, Val(digits), exp)) ==
            Normalize(Decimal(negative, Val(digits[..|digits| - 1]), exp + 1))
  {
    hide Pow10, Digits;
    var t := digits[..|digits| - 1];
    assert t != "" && t[0] == digits[0] && AllDigits(t);
    NoLeadingZero(t);
    assert Val(digits) == 10 * Val(t);
    TenfoldNormal(negative, Val(t), exp);
  }

  /** A digit string that starts with another digit than zero is not zero. */
  lemma NoLeadingZero(s: string)
    requires AllDigits(s) && s != "" && s[0] != '0'
    ensures Val(s) > 0
  {
    DigitsOfVal(s);
  }

  lemma TenfoldNormal(negative: bool, n: nat, exp: int)
    requires n > 0
    ensures Normalize(Decimal(negative, 10 * n, exp)) == Normalize(Decimal(negative, n, exp + 1))
  {
  }

  /** Without a trailing zero, a digit string is the coefficient of a normal decimal. */
  lemma StripDone(negative: bool, digits: string, exp: int)
    requires AllDigits(digits) && digits != "" && digits[0] != '0' && digits[|digits| - 1] != '0'
    ensures Normalize(Decimal(negative, Val(digits), exp)) == Decimal(negative, Val(digits), exp)
    ensures Digits(Val(digits)) == digits
  {
    DigitsOfVal(digits);
    assert Val(digits) % 10 == DigitValue(digits[|digits| - 1]);
  }

  lemma StoredDigits(negative: bool, digits: string, exp: int)
    requires AllDigits(digits) && digits != "" && digits[0] != '0' && digits[|digits| - 1] != '0'
    ensures var out := if negative then "-" + Plain(digits, exp) else Plain(digits, exp);
      Stored(Normalize(Decimal(negative, Val(digits), exp))) ==
      if |digits| > MAX_DIGITS then Refused else if |out| > MAX_TEXT then Panicked else Written(out)
  {
    hide Plain, Digits, Val, Normalize;
    StripDone(negative, digits, exp);
  }

  lemma ZeroDone(negative: bool, exp: int)
    ensures Normalize(Decimal(negative, Val(""), exp)) == Decimal(false, 0, 0)
    ensures Digits(0) == "" && Stored(Decimal(false, 0, 0)) == Written("0")
  {
  }

  lemma ReadBySign(raw: string)
    ensures var s := TrimSpace(raw);
      Read(raw) == if s != "" && (s[0] == '-' || s[0] == '+') then ReadUnsigned(s[0] == '-', s[1..])
                   else ReadUnsigned(false, s)
  {
    hide TrimSpace, ReadUnsigned;
    var s := TrimSpace(raw);
    if s != "" {
      assert s[..1] == [s[0]];
    }
  }

  lemma AttemptOfRead(raw: string)
    ensures Attempt(raw) == if Read(raw).None? then Refused else Stored(Normalize(Read(raw).value))
    ensures Canonical(raw) == if Attempt(raw).Written? then Ok(Attempt(raw).text) else Err
  {
    hide Read, Stored, Normalize;
  }

  /** canonicalNumber up to the point where only digits and an exponent are left. */
  method CanonicalNumber(raw: string) returns (r: Outcome)
    ensures r == Attempt(raw)
    ensures Canonical(raw) == if r.Written? then Ok(r.text) else Err
  {
    ReadBySign(raw);
    hide Read, TrimSpace, Atoi, Val, IndexAny, AllDigits, Normalize, Stored, Canonical, Attempt;
    AttemptOfRead(raw);
    var s := TrimSpace(raw);
    var negative := false;
    if s != "" && (s[0] == '-' || s[0] == '+') {
      negative := s[0] == '-';
      s := s[1..];
    }
    var exp := 0;
    var i := IndexAny(s, {'e', 'E'});
    if i < |s| {
      var e := Atoi(s[i + 1..]);
      if e.None? {
        return Refused;
      }
      exp, s := e.value, s[..i];
    }
    assert s[..|s|] == s;
    assert ReadMantissa(negative, s, exp) == Read(raw);
    var point := IndexAny(s, {'.'});
    var frac := if point < |s| then s[point + 1..] else "";
    var digits := s[..point] + frac;
    if digits == "" || !AllDigits(digits) {
      return Refused;
    }
    r := CanonicalDigits(negative, digits, exp - |frac|);
  }

  /**
   The rest of canonicalNumber: strip zeros on both sides, then write the number out.  The exponent is an unbounded
   integer; by `WrapHarmless` a 64-bit one ends the same.
   */
  method CanonicalDigits(negative: bool, text: string, exponent: int) returns (r: Outcome)
    requires AllDigits(text)
    ensures r == Stored(Normalize(Decimal(negative, Val(text), exponent)))
  {
    hide Normalize, Val, AllDigits, Stored, Digits;
    var digits, exp := TrimZeros(text), exponent;
    while digits != "" && digits[|digits| - 1] == '0'
      invariant AllDigits(digits) && (digits != "" ==> digits[0] != '0')
      invariant Normalize(Decimal(negative, Val(digits), exp)) == Normalize(Decimal(negative, Val(text), exponent))
      decreases |digits|
    {
      DropZero(negative, digits, exp);
      digits, exp := digits[..|digits| - 1], exp + 1;
    }
    if digits == "" {
      ZeroDone(negative, exp);
      return Written("0");
    }
    r := WriteOut(negative, digits, exp);
  }

  /** The switch at the end of canonicalNumber. */
  method WriteOut(negative: bool, digits: string, exp: int) returns (r: Outcome)
    requires AllDigits(digits) && digits != "" && digits[0] != '0' && digits[|digits| - 1] != '0'
    ensures r == Stored(Normalize(Decimal(negative, Val(digits), exp)))
  {
    hide Normalize, Val, AllDigits, Stored, Digits;
    StoredDigits(negative, digits, exp);
    if |digits| > MAX_DIGITS {
      return Refused;
    }
    var out;
    var point := |digits| + exp;
    if exp >= 0 {
      out := digits + Zeros(exp);
    } else if point > 0 {
      out := digits[..point] + "." + digits[point..];
    } else {
      out := "0." + Zeros(-point) + digits;
    }
    assert out == Plain(digits, exp);
    hide *;
    if negative {
      out := "-" + out;
    }
    return if |out| > MAX_TEXT then Panicked else Written(out);
  }
}
