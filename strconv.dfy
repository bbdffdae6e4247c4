/**
 * Go's decimal integer conversions as the rest of the model uses them:
 * `strconv.Atoi` (the `_retryNumber` header, `GetenvInt`), `strconv.Itoa`
 * (the incremented `_retryNumber`), `%d` (consumer tags) and `%04d` (delay-queue
 * names). Go's `int` is taken to be 64 bits wide.
 */
module Strconv {

  const MaxInt64: int := 0x7fff_ffff_ffff_ffff
  const MinInt64: int := -0x8000_0000_0000_0000
  const MaxUint64: int := 0xffff_ffff_ffff_ffff

  datatype NumError = NoError | SyntaxError | RangeError

  /** What `strconv.Atoi` returns: the value and the error returned beside it. */
  datatype AtoiResult = AtoiResult(value: int, err: NumError)

  predicate IsDigit(c: char) { '0' <= c <= '9' }

  predicate AllDigits(s: string) {
    forall i :: 0 <= i < |s| ==> IsDigit(s[i])
  }

  function DigitValue(c: char): (d: nat)
    requires IsDigit(c)
    ensures d < 10
  {
    c as int - '0' as int
  }

  function DigitChar(d: nat): (c: char)
    requires d < 10
    ensures IsDigit(c) && DigitValue(c) == d
  {
    ('0' as int + d) as char
  }

  /** The decimal value of a digit string, most significant digit first; "" is 0. */
  function DigitsValue(s: string): nat
    requires AllDigits(s)
  {
    if s == [] then 0 else DigitsValue(s[..|s| - 1]) * 10 + DigitValue(s[|s| - 1])
  }

  /** The length of the longest prefix of `s` made of decimal digits. */
  function DigitRun(s: string): (n: nat)
    ensures n <= |s| && AllDigits(s[..n])
    ensures n < |s| ==> !IsDigit(s[n])
  {
    if s == [] || !IsDigit(s[0]) then 0
    else
      var m := DigitRun(s[1..]);
      assert s[..m + 1] == [s[0]] + s[1..][..m];
      m + 1
  }

  /**
   * `strconv.Atoi(s)` on a 64-bit platform. An optional sign, then digits.
   * A syntax error returns 0. A value outside int64 returns the nearest bound
   * with a range error; the overflow is detected while scanning, so it wins
   * over a non-digit that comes after the overflowing digits.
   */
  function Atoi(s: string): (r: AtoiResult)
    ensures r.err == NoError ==> MinInt64 <= r.value <= MaxInt64
    ensures r.err == SyntaxError ==> r.value == 0
    ensures r.err == RangeError ==> r.value == MaxInt64 || r.value == MinInt64
    ensures r.err == NoError ==> s != [] && AllDigits(if s[0] == '-' || s[0] == '+' then s[1..] else s)
  {
    if s == [] then AtoiResult(0, SyntaxError)
    else
      var neg := s[0] == '-';
      var u := if s[0] == '-' || s[0] == '+' then s[1..] else s;
      if u == [] then AtoiResult(0, SyntaxError)
      else
        var run := DigitRun(u);
        if DigitsValue(u[..run]) > MaxUint64 then
          // ParseUint stops with its maximum; ParseInt clamps it to the signed range.
          if neg then AtoiResult(MinInt64, RangeError) else AtoiResult(MaxInt64, RangeError)
        else if run < |u| then AtoiResult(0, SyntaxError)
        else
          assert u[..run] == u;
          var v := DigitsValue(u);
          if !neg && v > MaxInt64 then AtoiResult(MaxInt64, RangeError)
          else if neg && v > -MinInt64 then AtoiResult(MinInt64, RangeError)
          else
            var signed: int := if neg then -(v as int) else v;
            AtoiResult(signed, NoError)
  }

  /** The decimal digits of `n`, without leading zeros. */
  function NatDigits(n: nat): (s: string)
    ensures |s| >= 1 && AllDigits(s)
  {
    if n < 10 then [DigitChar(n)] else NatDigits(n / 10) + [DigitChar(n % 10)]
  }

  /** `strconv.Itoa(n)`, which is also what `%d` prints. */
  function Itoa(n: int): string {
    if n < 0 then "-" + NatDigits(-n) else NatDigits(n)
  }

  function Zeros(n: nat): (s: string)
    ensures |s| == n && AllDigits(s)
  {
    seq(n, _ => '0')
  }

  /** `fmt.Sprintf("%0<width>d", n)` for a non-negative `n`. */
  function FormatPadded(n: nat, width: nat): string {
    var d := NatDigits(n);
    if |d| < width then Zeros(width - |d|) + d else d
  }

  function Pow10(k: nat): (p: nat)
    ensures p >= 1
  {
    if k == 0 then 1 else 10 * Pow10(k - 1)
  }

  /** Reading back the digits `NatDigits` writes gives the number. */
  lemma {:induction false} NatDigitsValue(n: nat)
    ensures DigitsValue(NatDigits(n)) == n
  {
    if n >= 10 {
      var s := NatDigits(n);
      assert s[..|s| - 1] == NatDigits(n / 10);
      NatDigitsValue(n / 10);
    }
  }

  /** A number below 10^w has at most w digits. */
  lemma {:induction false} NatDigitsLength(n: nat, w: nat)
    requires w >= 1 && n < Pow10(w)
    ensures |NatDigits(n)| <= w
  {
    if n >= 10 {
      NatDigitsLength(n / 10, w - 1);
    }
  }

  lemma {:induction false} DigitRunAll(s: string)
    requires AllDigits(s)
    ensures DigitRun(s) == |s|
  {
    if s != [] {
      DigitRunAll(s[1..]);
    }
  }

  /** Leading zeros do not change a digit string's value. */
  lemma {:induction false} LeadingZeros(k: nat, s: string)
    requires AllDigits(s)
    ensures AllDigits(Zeros(k) + s) && DigitsValue(Zeros(k) + s) == DigitsValue(s)
  {
    var z := Zeros(k) + s;
    if s == [] {
      assert z == Zeros(k);
      if k > 0 {
        assert z[..|z| - 1] == Zeros(k - 1);
        LeadingZeros(k - 1, []);
        assert Zeros(k - 1) + [] == Zeros(k - 1);
      }
    } else {
      assert z[..|z| - 1] == Zeros(k) + s[..|s| - 1];
      LeadingZeros(k, s[..|s| - 1]);
    }
  }

  /**
   * `%0<width>d` writes at least `width` digits, exactly `width` when the number
   * has no more digits than that, and reading them back gives the number.
   */
  lemma FormatPaddedValue(n: nat, width: nat)
    ensures AllDigits(FormatPadded(n, width))
    ensures DigitsValue(FormatPadded(n, width)) == n
    ensures |FormatPadded(n, width)| >= width
    ensures width >= 1 && n < Pow10(width) ==> |FormatPadded(n, width)| == width
  {
    var d := NatDigits(n);
    NatDigitsValue(n);
    if |d| < width {
      LeadingZeros(width - |d|, d);
    }
    if width >= 1 && n < Pow10(width) {
      NatDigitsLength(n, width);
    }
  }

  /** `%0<width>d` never writes the same text for two different numbers. */
  lemma FormatPaddedInjective(a: nat, b: nat, width: nat)
    requires FormatPadded(a, width) == FormatPadded(b, width)
    ensures a == b
  {
    FormatPaddedValue(a, width);
    FormatPaddedValue(b, width);
  }

  /** `Itoa` never writes the same text for two different numbers. */
  lemma ItoaInjective(a: int, b: int)
    requires Itoa(a) == Itoa(b)
    ensures a == b
  {
    var x, y := if a < 0 then -a else a, if b < 0 then -b else b;
    NatDigitsValue(x);
    NatDigitsValue(y);
    var s := Itoa(a);
    assert a < 0 <==> s[0] == '-';
    assert b < 0 <==> Itoa(b)[0] == '-';
    if a < 0 && b < 0 {
      assert NatDigits(x) == s[1..] == NatDigits(y);
    }
  }

  /** Round trip: `Atoi(Itoa(n))` gives back every int64 `n` without error. */
  lemma AtoiItoa(n: int)
    requires MinInt64 <= n <= MaxInt64
    ensures Atoi(Itoa(n)) == AtoiResult(n, NoError)
  {
    var s := Itoa(n);
    var k := if n < 0 then -n else n;
    var d := NatDigits(k);
    NatDigitsValue(k);
    DigitRunAll(d);
    assert d[..|d|] == d;
    if n < 0 {
      assert s[0] == '-' && s[1..] == d;
    } else {
      assert s == d && IsDigit(s[0]);
    }
  }

  /** Round trip: `Atoi` reads a zero-padded number back without error. */
  lemma AtoiFormatPadded(n: nat, width: nat)
    requires n <= MaxInt64
    ensures Atoi(FormatPadded(n, width)) == AtoiResult(n, NoError)
  {
    var s := FormatPadded(n, width);
    FormatPaddedValue(n, width);
    NatDigitsValue(n);
    DigitRunAll(s);
    assert s[..|s|] == s;
    assert IsDigit(s[0]);
  }
}
