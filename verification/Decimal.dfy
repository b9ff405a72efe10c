/** Exact decimal arithmetic on number text: the integral function of
    coerce.go, the integer parsing it rests on, and what a JSON number text
    (section 6 of RFC 8259) is worth. */
module Decimal {
  import opened Base

  const MIN_INT32 := -0x8000_0000
  const MAX_INT32 := 0x7fff_ffff
  const MIN_INT64 := -0x8000_0000_0000_0000
  const MAX_INT64 := 0x7fff_ffff_ffff_ffff
  const EXPONENT_LIMIT := 0x10_0000

  predicate IsDigit(c: char) { '0' <= c <= '9' }

  predicate Digits(s: string) { forall i :: 0 <= i < |s| ==> IsDigit(s[i]) }

  function DigitValue(c: char): nat
    requires IsDigit(c)
  {
    c as nat - '0' as nat
  }

  function Val(s: string): nat
    requires Digits(s)
  {
    if s == "" then 0 else 10 * Val(s[..|s| - 1]) + DigitValue(s[|s| - 1])
  }

  /** m × 10^n. */
  function Shift(m: int, n: nat): int {
    if n == 0 then m else 10 * Shift(m, n - 1)
  }

  function Signed(neg: bool, v: int): int { if neg then -v else v }

  /** strconv.ParseInt(s, 10, 64) and, for a 64-bit int, strconv.Atoi. */
  function ParseInt(s: string): Option<int> {
    if s != "" && (s[0] == '-' || s[0] == '+') then ParseSigned(s[0] == '-', s[1..])
    else ParseSigned(false, s)
  }

  /** The digits behind an optional sign. */
  function ParseSigned(neg: bool, digits: string): Option<int> {
    if digits == "" || !Digits(digits) then None
    else
      var v := Signed(neg, Val(digits));
      if MIN_INT64 <= v <= MAX_INT64 then Some(v) else None
  }

  function ToLower(s: string): (r: string)
    ensures |r| == |s|
    ensures forall i :: 0 <= i < |s| ==>
      r[i] == if 'A' <= s[i] <= 'Z' then (s[i] as int + 32) as char else s[i]
  {
    seq(|s|, i requires 0 <= i < |s| =>
      if 'A' <= s[i] <= 'Z' then (s[i] as int + 32) as char else s[i])
  }

  /** A number text cut at its sign, its exponent letter and its point. */
  datatype Pieces = Pieces(neg: bool, whole: string, frac: string, exponent: Option<string>)

  function CutNumber(n: string): Pieces {
    var neg := n != "" && n[0] == '-';
    var (mantissa, exponent, hasExponent) := Cut(ToLower(if neg then n[1..] else n), 'e');
    var (whole, frac, _) := Cut(mantissa, '.');
    Pieces(neg, whole, frac, if hasExponent then Some(exponent) else None)
  }

  /** integral: the integer a JSON number text stands for, when it lies
      within [lo, hi]. */
  function Integral(n: string, lo: int, hi: int): Option<int> {
    var p := CutNumber(n);
    var e := if p.exponent.Some? then ParseInt(p.exponent.value) else Some(0);
    Assembled(p.whole + p.frac, e, |p.frac|, p.neg, lo, hi)
  }

  /** integral behind its cuts. A zero mantissa is 0 whatever its exponent,
      even one that does not fit an int. */
  function Assembled(all: string, e: Option<int>, frac: nat, neg: bool, lo: int, hi: int): Option<int> {
    var digits := TrimLeftZeros(all);
    if digits == "" then (if lo <= 0 <= hi then Some(0) else None)
    else NonZero(digits, e, frac, neg, lo, hi)
  }

  /** integral once the digits and the exponent are known: the exponent's
      cut-off keeps the arithmetic below it from overflowing. */
  function NonZero(digits: string, e: Option<int>, frac: nat, neg: bool, lo: int, hi: int): Option<int> {
    if e.None? || e.value > EXPONENT_LIMIT || e.value < -EXPONENT_LIMIT then None
    else Scaled(digits, e.value - frac, neg, lo, hi)
  }

  /** The second half of integral: digits × 10^scale, read through its
      shortest digit string. */
  function Scaled(digits: string, scale: int, neg: bool, lo: int, hi: int): Option<int> {
    var trimmed := TrimRightZeros(digits);
    var exp := scale + (|digits| - |trimmed|);
    if exp < 0 || exp > 19 - |trimmed| then None
    else
      var i := ParseSigned(neg, PadZeros(trimmed, exp));
      if i.None? || i.value < lo || i.value > hi then None else i
  }

  // ---- What a number text is worth ----

  /** The exponent of a JSON number: its letter, sign and digits. */
  datatype Exponent = Exponent(letter: char, sign: string, digits: string)

  /** A JSON number taken apart along its grammar. */
  datatype Number = Number(neg: bool, whole: string, frac: Option<string>, exp: Option<Exponent>) {
    predicate Valid() {
      && whole != "" && Digits(whole)
      && (|whole| > 1 ==> whole[0] != '0')
      && (frac.Some? ==> frac.value != "" && Digits(frac.value))
      && (exp.Some? ==>
            && exp.value.letter in "eE"
            && exp.value.sign in ["", "+", "-"]
            && exp.value.digits != "" && Digits(exp.value.digits))
    }

    function Mantissa(): string {
      whole + (if frac.Some? then "." + frac.value else "")
    }

    function ExponentText(): string {
      if exp.Some? then [exp.value.letter] + exp.value.sign + exp.value.digits else ""
    }

    function Text(): string {
      (if neg then "-" else "") + (Mantissa() + ExponentText())
    }

    function Frac(): string { if frac.Some? then frac.value else "" }

    /** All digits of the mantissa, as one number. */
    function Significand(): nat
      requires Valid()
    {
      Val(whole + Frac())
    }

    /** The power of ten the significand is scaled by. */
    function Scale(): int
      requires Valid()
    {
      (if exp.None? then 0 else Signed(exp.value.sign == "-", Val(exp.value.digits))) - |Frac()|
    }

    /** The number is exactly the integer i: ±significand × 10^scale == i. */
    ghost predicate Equals(i: int)
      requires Valid()
    {
      ScalesTo(Signed(neg, Significand()), Scale(), i)
    }
  }

  // ---- Digit strings ----

  lemma {:induction false} ShiftInside(m: int, n: nat)
    ensures Shift(10 * m, n) == Shift(m, n + 1)
    ensures Shift(-m, n) == -Shift(m, n)
    ensures Shift(0, n) == 0
    ensures m >= 1 ==> Shift(m, n) >= m
    ensures m != 0 ==> Shift(m, n) != 0
  {
    if n > 0 { ShiftInside(m, n - 1); }
  }

  lemma {:induction false} ShiftMonotone(a: int, b: int, n: nat)
    requires a <= b
    ensures Shift(a, n) <= Shift(b, n)
  {
    if n > 0 { ShiftMonotone(a, b, n - 1); }
  }

  lemma {:induction false} ShiftShift(m: int, a: nat, b: nat)
    ensures Shift(Shift(m, a), b) == Shift(m, a + b)
  {
    if b > 0 { ShiftShift(m, a, b - 1); }
  }

  /** A run of zeros before a number changes nothing, one after it shifts it. */
  lemma {:induction false} ValBehindZeros(z: string, s: string)
    requires Digits(s) && forall i :: 0 <= i < |z| ==> z[i] == '0'
    ensures Digits(z + s) && Val(z + s) == Val(s)
  {
    if s != "" {
      ValBehindZeros(z, s[..|s| - 1]);
      assert (z + s)[..|z + s| - 1] == z + s[..|s| - 1];
    } else if z != "" {
      ValBehindZeros(z[..|z| - 1], s);
      assert z + s == z && z[..|z| - 1] + s == z[..|z| - 1];
    }
  }

  lemma {:induction false} ValPadded(s: string, n: nat)
    requires Digits(s)
    ensures Digits(PadZeros(s, n)) && Val(PadZeros(s, n)) == Shift(Val(s), n)
  {
    if n > 0 { ValPadded(s, n - 1); }
  }

  lemma {:induction false} ValAtLeast(s: string)
    requires Digits(s) && s != "" && s[0] != '0'
    ensures Val(s) >= Shift(1, |s| - 1)
  {
    if |s| == 1 {
      assert s[..0] == "";
    } else {
      ValAtLeast(s[..|s| - 1]);
    }
  }

  /** Leading zeros change nothing. */
  lemma {:induction false} TrimLeftValue(s: string)
    requires Digits(s)
    ensures Digits(TrimLeftZeros(s)) && Val(TrimLeftZeros(s)) == Val(s)
    ensures TrimLeftZeros(s) == "" ==> Val(s) == 0
  {
    if s != "" && s[0] == '0' {
      TrimLeftValue(s[1..]);
      assert s == "0" + s[1..];
      ValBehindZeros("0", s[1..]);
    }
  }

  // ---- integral is exact ----

  /** m × 10^scale is the integer i. */
  ghost predicate ScalesTo(m: int, scale: int, i: int) {
    if scale >= 0 then i == Shift(m, scale) else Shift(i, -scale) == m
  }

  lemma ShiftTen(m: int, scale: int, i: int)
    ensures ScalesTo(10 * m, scale, i) <==> ScalesTo(m, scale + 1, i)
  {
    if scale >= 0 { ShiftInside(m, scale); }
  }

  /** Moving trailing zeros into the exponent keeps the value, and what is
      left does not end in a zero. */
  lemma {:induction false} TrimRightScales(s: string, scale: int, neg: bool, i: int)
    requires Digits(s)
    ensures var t := TrimRightZeros(s);
      && Digits(t)
      && (s != "" && s[0] != '0' ==> t != "" && t[0] == s[0])
      && (ScalesTo(Signed(neg, Val(s)), scale, i)
          <==> ScalesTo(Signed(neg, Val(t)), scale + (|s| - |t|), i))
  {
    if s != "" && s[|s| - 1] == '0' {
      var r := s[..|s| - 1];
      TrimRightScales(r, scale + 1, neg, i);
      ShiftTen(Signed(neg, Val(r)), scale, i);
    }
  }

  /** Digits that do not end in a zero, scaled down, are no integer. */
  lemma {:induction false} FractionLeft(t: string, scale: int, neg: bool, i: int)
    requires Digits(t) && t != "" && t[|t| - 1] != '0' && scale < 0
    ensures !ScalesTo(Signed(neg, Val(t)), scale, i)
  {
    NotTenfold(Val(t[..|t| - 1]), DigitValue(t[|t| - 1]), Shift(i, -scale - 1), neg);
  }

  lemma NotTenfold(v: nat, d: nat, q: int, neg: bool)
    requires 0 < d < 10
    ensures 10 * q != Signed(neg, 10 * v + d)
  {}

  /** strconv.ParseInt reads digits exactly, or refuses them. */
  lemma {:induction false} ParseDigits(text: string, sign: string)
    requires Digits(text) && text != "" && sign in ["", "+", "-"]
    ensures ParseInt(sign + text)
      == var v := Signed(sign == "-", Val(text));
         if MIN_INT64 <= v <= MAX_INT64 then Some(v) else None
  {
    var t := sign + text;
    if sign == "" { assert t == text; } else { assert t[1..] == text; }
  }

  /** Decimal digits behind an optional sign, worth i. */
  ghost predicate ReadsAs(text: string, i: int) {
    exists sign, digits :: text == sign + digits && SignedDigits(sign, digits, i)
  }

  ghost predicate SignedDigits(sign: string, digits: string, i: int) {
    sign in ["", "+", "-"] && digits != "" && Digits(digits) && i == Signed(sign == "-", Val(digits))
  }

  /** Exactly the 64-bit integers are read. */
  lemma ParseIntExact(text: string, i: int)
    ensures ParseInt(text) == Some(i) <==> ReadsAs(text, i) && MIN_INT64 <= i <= MAX_INT64
  {
    if sign, digits :| text == sign + digits && SignedDigits(sign, digits, i) { ParseDigits(digits, sign); }
    if ParseInt(text) == Some(i) {
      var signed := text != "" && (text[0] == '-' || text[0] == '+');
      var sign, digits := if signed then text[..1] else "", if signed then text[1..] else text;
      assert text == sign + digits;
      assert sign == "-" || sign == "+" || sign == "";
      assert SignedDigits(sign, digits, i);
    }
  }

  lemma CutMantissa(p: Number)
    requires p.Valid()
    ensures Cut(p.Mantissa(), '.').0 == p.whole && Cut(p.Mantissa(), '.').1 == p.Frac()
    ensures 'e' !in p.Mantissa() && ToLower(p.Mantissa()) == p.Mantissa()
  {
    hide Val;
    var m := p.Mantissa();
    if p.frac.Some? {
      assert m == p.whole + ['.'] + p.frac.value;
      CutAtFirst(p.whole, '.', p.frac.value);
    } else {
      assert m == p.whole;
      CutWithout(m, '.');
    }
  }

  lemma CutExponent(m: string, x: Exponent)
    requires 'e' !in m && ToLower(m) == m
    requires x.letter in "eE" && x.sign in ["", "+", "-"] && Digits(x.digits)
    ensures Cut(ToLower(m + ([x.letter] + x.sign + x.digits)), 'e') == (m, x.sign + x.digits, true)
  {
    var after := x.sign + x.digits;
    var s := m + ([x.letter] + x.sign + x.digits);
    assert forall i :: 0 <= i < |after| ==> after[i] == s[|m| + 1 + i];
    assert ToLower(s) == m + ['e'] + after;
    CutAtFirst(m, 'e', after);
  }

  /** Where the cuts fall on a number text. */
  lemma CutNumberText(p: Number)
    requires p.Valid()
    ensures CutNumber(p.Text())
      == Pieces(p.neg, p.whole, p.Frac(),
                if p.exp.Some? then Some(p.exp.value.sign + p.exp.value.digits) else None)
  {
    var n := p.Text();
    var body := p.Mantissa() + p.ExponentText();
    assert n == (if p.neg then "-" else "") + body;
    assert (if p.neg then n[1..] else n) == body;
    assert body[0] == p.whole[0];
    CutMantissa(p);
    if p.exp.Some? {
      CutExponent(p.Mantissa(), p.exp.value);
    } else {
      assert body == p.Mantissa();
      CutWithout(body, 'e');
    }
  }

  lemma Shift19()
    ensures Shift(1, 19) == 10_000_000_000_000_000_000
  {
    assert Shift(1, 4) == 10_000;
    assert Shift(1, 5) == 100_000;
    ShiftShift(1, 5, 5);
    assert Shift(100_000, 5) == 10_000_000_000;
    ShiftShift(1, 10, 5);
    assert Shift(10_000_000_000, 5) == 1_000_000_000_000_000;
    ShiftShift(1, 15, 4);
    assert Shift(1_000_000_000_000_000, 4) == 10_000_000_000_000_000_000;
  }

  /** A number of more than 19 digits is beyond 64 bits. */
  lemma {:induction false} TooLong(t: string, x: nat)
    requires Digits(t) && t != "" && t[0] != '0' && |t| + x > 19
    ensures Shift(Val(t), x) > MAX_INT64 + 1
  {
    ValAtLeast(t);
    ShiftMonotone(Shift(1, |t| - 1), Val(t), x);
    ShiftShift(1, |t| - 1, x);
    ShiftShift(1, 19, |t| - 1 + x - 19);
    Shift19();
    ShiftInside(Shift(1, 19), |t| - 1 + x - 19);
  }

  /** Reading the shortest digit string finds the value t × 10^x, or refuses
      one beyond the bounds. */
  lemma {:induction false} ScaledReads(t: string, x: nat, neg: bool, lo: int, hi: int, i: int)
    requires Digits(t) && t != "" && t[0] != '0'
    requires MIN_INT64 <= lo && hi <= MAX_INT64
    ensures var v := Signed(neg, Shift(Val(t), x));
      var r := ParseSigned(neg, PadZeros(t, x));
      if x > 19 - |t| then !(lo <= v <= hi)
      else (lo <= v <= hi ==> r == Some(v)) && (r.Some? ==> r.value == v)
  {
    if x > 19 - |t| {
      TooLong(t, x);
    } else {
      ValPadded(t, x);
    }
  }

  lemma {:induction false} ScaledExact(digits: string, scale: int, neg: bool, lo: int, hi: int, i: int)
    requires Digits(digits) && digits != "" && digits[0] != '0'
    requires MIN_INT64 <= lo && hi <= MAX_INT64
    ensures Scaled(digits, scale, neg, lo, hi) == Some(i)
      <==> ScalesTo(Signed(neg, Val(digits)), scale, i) && lo <= i <= hi
  {
    hide Val, Digits, ParseSigned, PadZeros, TrimRightZeros;
    var t := TrimRightZeros(digits);
    TrimRightScales(digits, scale, neg, i);
    var x := scale + (|digits| - |t|);
    if x < 0 {
      FractionLeft(t, x, neg, i);
    } else {
      ScaledReads(t, x, neg, lo, hi, i);
      ShiftInside(Val(t), x);
    }
  }

  /** An exponent beyond ±2^20 leaves a non-zero number either a fraction or
      beyond 64 bits, as long as the mantissa has fewer digits than that. */
  lemma FarExponent(digits: string, e: int, frac: nat, neg: bool, lo: int, hi: int)
    requires |digits| < EXPONENT_LIMIT - 32 && frac < EXPONENT_LIMIT - 32
    requires e > EXPONENT_LIMIT || e < -EXPONENT_LIMIT
    ensures Scaled(digits, e - frac, neg, lo, hi).None?
  {}

  lemma {:induction false} NonZeroExact(digits: string, e: int, frac: nat, neg: bool, lo: int, hi: int, i: int)
    requires Digits(digits) && digits != "" && digits[0] != '0'
    requires MIN_INT64 <= lo && hi <= MAX_INT64
    requires e == 0 || (|digits| < EXPONENT_LIMIT - 32 && frac < EXPONENT_LIMIT - 32)
    ensures var read := if MIN_INT64 <= e <= MAX_INT64 then Some(e) else None;
      NonZero(digits, read, frac, neg, lo, hi) == Some(i)
      <==> ScalesTo(Signed(neg, Val(digits)), e - frac, i) && lo <= i <= hi
  {
    hide Scaled, ScalesTo;
    ScaledExact(digits, e - frac, neg, lo, hi, i);
    if e > EXPONENT_LIMIT || e < -EXPONENT_LIMIT {
      FarExponent(digits, e, frac, neg, lo, hi);
    }
  }

  lemma {:induction false} AssembledExact(all: string, e: int, frac: nat, neg: bool, lo: int, hi: int, i: int)
    requires Digits(all) && MIN_INT64 <= lo && hi <= MAX_INT64
    requires e == 0 || (|all| < EXPONENT_LIMIT - 32 && frac < EXPONENT_LIMIT - 32)
    ensures var read := if MIN_INT64 <= e <= MAX_INT64 then Some(e) else None;
      Assembled(all, read, frac, neg, lo, hi) == Some(i)
      <==> ScalesTo(Signed(neg, Val(all)), e - frac, i) && lo <= i <= hi
  {
    hide NonZero, ScalesTo, Val, Digits;
    var digits := TrimLeftZeros(all);
    TrimLeftValue(all);
    if digits == "" {
      ZeroScales(e - frac, i);
    } else {
      NonZeroExact(digits, e, frac, neg, lo, hi, i);
    }
  }

  lemma MantissaDigits(p: Number)
    requires p.Valid()
    ensures Digits(p.whole + p.Frac()) && |p.whole + p.Frac()| <= |p.Text()|
    ensures p.exp.Some? ==> Digits(p.exp.value.digits)
  {}

  /** integral answers (i, true) exactly when the number's value is the
      integer i and i lies within [lo, hi]: nothing is rounded and nothing
      overflows. The bound on the text is the one the code states for its
      exponent cut-off; a text without exponent needs none. */
  lemma IntegralExact(p: Number, lo: int, hi: int, i: int)
    requires p.Valid() && MIN_INT64 <= lo && hi <= MAX_INT64
    requires p.exp.Some? ==> |p.Text()| < EXPONENT_LIMIT - 32
    ensures Integral(p.Text(), lo, hi) == Some(i) <==> p.Equals(i) && lo <= i <= hi
  {
    hide Assembled, ScalesTo, CutNumber, Val, Digits, ParseInt, Number.Text;
    CutNumberText(p);
    MantissaDigits(p);
    var e := p.Scale() + |p.Frac()|;
    if p.exp.Some? { ParseDigits(p.exp.value.digits, p.exp.value.sign); }
    AssembledExact(p.whole + p.Frac(), e, |p.Frac()|, p.neg, lo, hi, i);
  }

  lemma ZeroScales(scale: int, i: int)
    ensures ScalesTo(0, scale, i) <==> i == 0
  {
    ShiftInside(if scale < 0 then i else 0, if scale < 0 then -scale else scale);
  }

  // ---- Integer texts ----

  /** strconv.FormatInt(i, 10). */
  function IntText(i: int): string {
    if i < 0 then "-" + NatText(-i) else NatText(i)
  }

  function NatText(n: nat): (r: string)
    ensures r != "" && Digits(r) && Val(r) == n
    ensures |r| > 1 ==> r[0] != '0'
  {
    if n < 10 then [(n + '0' as int) as char]
    else
      var init := NatText(n / 10);
      assert (init + [(n % 10 + '0' as int) as char])[..|init|] == init;
      assert init[0] != '0' by { if |init| == 1 { assert init[..0] == ""; } }
      init + [(n % 10 + '0' as int) as char]
  }

  /** The plain integer text of i, taken apart. */
  function IntNumber(i: int): (p: Number)
    ensures p.Valid() && p.Text() == IntText(i) && p.exp.None? && p.Equals(i)
  {
    var p := Number(i < 0, NatText(if i < 0 then -i else i), None, None);
    assert p.whole + p.Frac() == p.whole;
    p
  }

  /** FormatInt and integral are inverse on every range that holds i. */
  lemma IntegralOfIntText(i: int, lo: int, hi: int)
    requires MIN_INT64 <= lo <= i <= hi <= MAX_INT64
    ensures Integral(IntText(i), lo, hi) == Some(i)
  {
    IntegralExact(IntNumber(i), lo, hi, i);
  }
}
