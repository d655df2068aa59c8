/** Decimal formatting of OTP tokens: the table of powers of ten used to
    reduce the truncated hash (otp.c:17) and the zero-padded rendering of
    `finalize` (otp.c:114-130), which prints with the format "%.Nd" into a
    buffer of N+1 bytes. */
module Decimal {

  /** DIGITS_POWER: 10^0 .. 10^8. */
  const DigitsPower: seq<int> := [1, 10, 100, 1000, 10000, 100000, 1000000, 10000000, 100000000]

  function Pow10(n: nat): (r: nat)
    ensures r >= 1
  {
    if n == 0 then 1 else 10 * Pow10(n - 1)
  }

  /** Every entry of the table is the power of ten of its index. */
  lemma DigitsPowerIsPow10(n: nat)
    requires n < |DigitsPower|
    ensures DigitsPower[n] == Pow10(n)
  {
    assert Pow10(8) == 100000000;
  }

  lemma {:induction false} Pow10Monotone(m: nat, n: nat)
    requires m <= n
    ensures Pow10(m) <= Pow10(n)
  {
    if m < n {
      Pow10Monotone(m, n - 1);
    }
  }

  predicate IsDigit(c: char) {
    '0' <= c <= '9'
  }

  predicate AllDigits(s: seq<char>) {
    forall i :: 0 <= i < |s| ==> IsDigit(s[i])
  }

  function DigitValue(c: char): (d: int)
    requires IsDigit(c)
    ensures 0 <= d < 10
  {
    c as int - '0' as int
  }

  function DigitChar(d: int): (c: char)
    requires 0 <= d < 10
    ensures IsDigit(c) && DigitValue(c) == d
  {
    ('0' as int + d) as char
  }

  /** The value of a string of decimal digits, most significant first. */
  function DecimalValue(s: seq<char>): (v: nat)
    requires AllDigits(s)
    ensures v < Pow10(|s|)
  {
    if s == [] then 0 else DecimalValue(s[..|s| - 1]) * 10 + DigitValue(s[|s| - 1])
  }

  /** What printf's "%d" prints for a non-negative value: the shortest
      numeral, "0" for zero. */
  function Numeral(n: nat): (s: seq<char>)
    ensures 1 <= |s| && AllDigits(s)
    ensures DecimalValue(s) == n
    ensures |s| > 1 ==> Pow10(|s| - 1) <= n
  {
    if n < 10 then
      [DigitChar(n)]
    else
      var s := Numeral(n / 10) + [DigitChar(n % 10)];
      assert s[..|s| - 1] == Numeral(n / 10);
      s
  }

  /** The numeral of n fits in N characters exactly when n < 10^N. */
  lemma NumeralFits(n: nat, N: nat)
    requires N >= 1
    ensures |Numeral(n)| <= N <==> n < Pow10(N)
  {
    var k := |Numeral(n)|;
    if k <= N {
      Pow10Monotone(k, N);
    } else {
      Pow10Monotone(N, k - 1);
    }
  }

  function Zeros(k: nat): (s: seq<char>)
    ensures |s| == k && AllDigits(s)
  {
    seq(k, _ => '0')
  }

  /** Leading zeros do not change the value of a numeral. */
  lemma {:induction false} LeadingZeros(k: nat, s: seq<char>)
    requires AllDigits(s)
    ensures DecimalValue(Zeros(k) + s) == DecimalValue(s)
  {
    if s == [] {
      assert Zeros(k) + s == Zeros(k);
      ZerosValue(k);
    } else {
      var t := Zeros(k) + s;
      assert t[..|t| - 1] == Zeros(k) + s[..|s| - 1];
      LeadingZeros(k, s[..|s| - 1]);
    }
  }

  lemma {:induction false} ZerosValue(k: nat)
    ensures DecimalValue(Zeros(k)) == 0
  {
    if k > 0 {
      assert Zeros(k)[..k - 1] == Zeros(k - 1);
      ZerosValue(k - 1);
    }
  }

  /** The precision of "%.Nd": pad the numeral with leading zeros to at
      least N digits. */
  function PrecisionPad(s: seq<char>, N: nat): seq<char> {
    if |s| < N then Zeros(N - |s|) + s else s
  }

  lemma PrecisionPadValue(s: seq<char>, N: nat)
    requires AllDigits(s)
    ensures AllDigits(PrecisionPad(s, N))
    ensures |PrecisionPad(s, N)| == if |s| < N then N else |s|
    ensures DecimalValue(PrecisionPad(s, N)) == DecimalValue(s)
  {
    if |s| < N {
      LeadingZeros(N - |s|, s);
    }
  }

  /** `finalize(N, tk)`: snprintf(token, N+1, "%.Nd", tk). The format string
      is assembled with a one-digit precision, and snprintf keeps at most N
      characters of the output. A token below 10^N comes out as exactly N
      digits, zero-padded, that read back as the token. */
  function Finalize(N: int, tk: int): (r: seq<char>)
    requires 1 <= N <= 9 && 0 <= tk
    ensures |r| <= N && AllDigits(r)
    ensures tk < Pow10(N) ==> |r| == N && DecimalValue(r) == tk
  {
    var printed := PrecisionPad(Numeral(tk), N);
    NumeralFits(tk, N);
    PrecisionPadValue(Numeral(tk), N);
    if |printed| <= N then printed else printed[..N]
  }
}
