/** The OTP engine of otp.c: secret normalisation, parameter checks, the
    8-byte counter block, dynamic truncation (RFC 4226 section 5.3), HOTP,
    TOTP at an explicit time (RFC 6238 section 4.2) and verification.
    HMAC and base32 decoding are foreign calls; they enter as the
    function-valued fields of a `Crypto` value. */
module Otp {
  import opened Wrappers
  import opened Bytes
  import opened Decimal

  /** Digest identifiers as libgcrypt numbers them (GCRY_MD_SHA1, ...). */
  const SHA1: int := 2
  const SHA256: int := 8
  const SHA512: int := 10

  const Sha1DigestSize: nat := 20
  const Sha256DigestSize: nat := 32
  const Sha512DigestSize: nat := 64

  /** The status codes of cotp_error_t that this engine produces. */
  datatype CotpError = Valid | InvalidB32Input | InvalidAlgo | InvalidOtp | InvalidDigits | InvalidPeriod

  predicate ValidAlgo(algo: int) {
    algo == SHA1 || algo == SHA256 || algo == SHA512
  }

  predicate ValidDigits(digits: int) {
    digits == 6 || digits == 8
  }

  predicate ValidPeriod(period: int) {
    period == 30 || period == 60
  }

  function DigestSize(algo: int): (n: nat)
    requires ValidAlgo(algo)
    ensures algo == SHA1 ==> n == 20
    ensures algo == SHA256 ==> n == 32
    ensures algo == SHA512 ==> n == 64
  {
    if algo == SHA1 then Sha1DigestSize
    else if algo == SHA256 then Sha256DigestSize
    else Sha512DigestSize
  }

  function ZeroDigest(algo: int): seq<Byte> {
    if ValidAlgo(algo) then seq(DigestSize(algo), _ => 0) else []
  }

  ghost predicate DigestSized(f: (seq<Byte>, int, seq<Byte>) -> seq<Byte>) {
    forall key, algo, msg :: ValidAlgo(algo) ==> |f(key, algo, msg)| == DigestSize(algo)
  }

  /** HMAC(key, algorithm, message): uninterpreted, except that the digest
      has the length of the algorithm's hash. */
  type Hmac = f: (seq<Byte>, int, seq<Byte>) -> seq<Byte> | DigestSized(f)
    witness (key: seq<Byte>, algo: int, msg: seq<Byte>) => ZeroDigest(algo)

  /** The two foreign calls: libgcrypt's HMAC and base32 decoding
      (RFC 4648 section 6), which fails with None on malformed input. */
  datatype Crypto = Crypto(hmac: Hmac, base32Decode: seq<char> -> Option<seq<Byte>>)

  // ---------------------------------------------------------------------
  // normalize_secret (otp.c:35-52)

  function Upper(c: char): char {
    if 'a' <= c <= 'z' then (c as int - 32) as char else c
  }

  /** What normalisation makes of one input character. */
  function NormalizeChar(c: char): seq<char> {
    if c == ' ' then [] else [Upper(c)]
  }

  /** The input with every space removed and a-z mapped to A-Z, all other
      characters kept in order. */
  function Normalized(K: seq<char>): (r: seq<char>)
    ensures |r| <= |K|
    ensures forall k :: 0 <= k < |r| ==> r[k] != ' ' && !('a' <= r[k] <= 'z')
  {
    if K == [] then [] else Normalized(K[..|K| - 1]) + NormalizeChar(K[|K| - 1])
  }

  /** Normalisation works character by character, in order. */
  lemma {:induction false} NormalizedAppend(a: seq<char>, b: seq<char>)
    ensures Normalized(a + b) == Normalized(a) + Normalized(b)
  {
    if b != [] {
      var ab := a + b;
      assert ab[..|ab| - 1] == a + b[..|b| - 1];
      NormalizedAppend(a, b[..|b| - 1]);
    } else {
      assert a + b == a;
    }
  }

  /** A string with no spaces and no lower-case letters is left as it is. */
  lemma {:induction false} NormalizedFixpoint(s: seq<char>)
    requires forall k :: 0 <= k < |s| ==> s[k] != ' ' && !('a' <= s[k] <= 'z')
    ensures Normalized(s) == s
  {
    if s != [] {
      NormalizedFixpoint(s[..|s| - 1]);
    }
  }

  /** Normalising twice is normalising once. */
  lemma NormalizedIdempotent(K: seq<char>)
    ensures Normalized(Normalized(K)) == Normalized(K)
  {
    NormalizedFixpoint(Normalized(K));
  }

  lemma NormalizedStep(K: seq<char>, i: nat)
    requires i < |K|
    ensures Normalized(K[..i + 1]) == Normalized(K[..i]) + NormalizeChar(K[i])
  {
    assert K[..i + 1][..i] == K[..i];
  }

  /** normalize_secret: copies K into a zeroed buffer of strlen(K)+1 bytes,
      skipping spaces and upper-casing a-z. K is the content of the C
      string, without its terminator. */
  method NormalizeSecret(K: seq<char>) returns (nK: seq<char>)
    ensures nK == Normalized(K)
  {
    var buf := new char[|K| + 1](_ => '\0');
    var i, j := 0, 0;
    while i < |K|
      invariant 0 <= j <= i <= |K|
      invariant buf.Length == |K| + 1
      invariant buf[..j] == Normalized(K[..i])
    {
      NormalizedStep(K, i);
      ghost var done := buf[..j];
      if K[i] != ' ' {
        if 'a' <= K[i] <= 'z' {
          buf[j] := (K[i] as int - 32) as char;
        } else {
          buf[j] := K[i];
        }
        assert buf[..j + 1] == done + [Upper(K[i])];
        j := j + 1;
      }
      i := i + 1;
    }
    assert K[..i] == K;
    nK := buf[..j];
  }

  // ---------------------------------------------------------------------
  // The counter block of compute_hmac (otp.c:96-99)

  const TwoTo64: nat := 0x1_0000_0000_0000_0000

  /** Byte j of the 64-bit two's-complement `long` C as it lies in memory on
      a little-endian host: ((unsigned char *) &C)[j]. */
  function HostByte(C: Long, j: nat): Byte
    requires j < 8
  {
    ((C % TwoTo64) / Pow256(j)) % 256
  }

  /** The 8-byte big-endian encoding of the counter, the message that is
      HMAC'ed (RFC 4226 section 5.2). */
  function CounterBytes(C: Long): (s: seq<Byte>)
    ensures |s| == 8
  {
    EncodeBE(C % TwoTo64, 8)
  }

  /** Reading the counter block back as a big-endian number gives the
      counter (as an unsigned 64-bit value). */
  lemma CounterBytesDecode(C: Long)
    ensures DecodeBE(CounterBytes(C)) == C % TwoTo64
    ensures C >= 0 ==> DecodeBE(CounterBytes(C)) == C
  {
    DecodeEncode(C % TwoTo64, 8);
    assert Pow256(8) == TwoTo64;
  }

  /** The byte-reversal loop: C_reverse_byte_order[i] = host byte j, for
      j = 0..7 and i = 7..0. */
  method ReverseCounterBytes(C: Long) returns (block: seq<Byte>)
    ensures block == CounterBytes(C)
  {
    var reversed := new Byte[8](_ => 0);
    var j, i := 0, 7;
    while j < 8 && i >= 0
      invariant 0 <= j <= 8 && i == 7 - j
      invariant forall k :: 0 <= k < j ==> reversed[7 - k] == HostByte(C, k)
    {
      reversed[i] := HostByte(C, j);
      j, i := j + 1, i - 1;
    }
    block := reversed[..];
    forall k | 0 <= k < 8
      ensures block[k] == CounterBytes(C)[k]
    {
      assert reversed[7 - (7 - k)] == HostByte(C, 7 - k);
      EncodeBEAt(C % TwoTo64, 8, 7 - k);
    }
  }

  // ---------------------------------------------------------------------
  // truncate (otp.c:55-80)

  /** `offset`: the low four bits (& 0x0f) of the digest's last byte. */
  function DynamicOffset(hmac: seq<Byte>, algo: int): (offset: nat)
    requires ValidAlgo(algo) && |hmac| == DigestSize(algo)
    ensures offset <= 15 && offset + 3 < |hmac|
    ensures offset == hmac[|hmac| - 1] % 16
  {
    if algo == SHA1 then hmac[Sha1DigestSize - 1] % 16
    else if algo == SHA256 then hmac[Sha256DigestSize - 1] % 16
    else hmac[Sha512DigestSize - 1] % 16
  }

  /** `bin_code`: the four bytes from the offset, the first masked with
      0x7f, shifted into one integer. The shifted parts occupy disjoint
      bits, so the C `|` is a sum and no shift overflows an `int`. */
  function BinCode(hmac: seq<Byte>, offset: nat): (b: int)
    requires offset + 3 < |hmac|
    ensures 0 <= b < 0x8000_0000
  {
    (hmac[offset] as int % 128) * 0x100_0000 + hmac[offset + 1] as int * 0x1_0000
      + hmac[offset + 2] as int * 0x100 + hmac[offset + 3] as int
  }

  /** Dynamic truncation as RFC 4226 section 5.3 states it: the offset is
      the low four bits of the last byte, and the result the last 31 bits of
      the four bytes from there, read as a big-endian number. */
  function RfcTruncation(digest: seq<Byte>): (v: nat)
    requires |digest| >= 19
    ensures v < 0x8000_0000
  {
    var o := digest[|digest| - 1] % 16;
    DecodeBE(digest[o..o + 4]) % 0x8000_0000
  }

  /** Masking the top bit of the first byte keeps the last 31 bits. */
  lemma BinCodeIsLast31Bits(hmac: seq<Byte>, offset: nat)
    requires offset + 3 < |hmac|
    ensures BinCode(hmac, offset) == DecodeBE(hmac[offset..offset + 4]) % 0x8000_0000
  {
    var w := hmac[offset..offset + 4];
    var a, b, c, d: int := w[0], w[1], w[2], w[3];
    assert DecodeBE(w[..1]) == a by {
      assert w[..1][..0] == [];
    }
    assert DecodeBE(w[..2]) == a * 0x100 + b by {
      assert w[..2][..1] == w[..1];
    }
    assert DecodeBE(w[..3]) == a * 0x1_0000 + b * 0x100 + c by {
      assert w[..3][..2] == w[..2];
    }
    assert DecodeBE(w) == a * 0x100_0000 + b * 0x1_0000 + c * 0x100 + d by {
      assert w[..3] == w[..|w| - 1];
    }
    var rest := b * 0x1_0000 + c * 0x100 + d;
    assert a == (a / 128) * 128 + a % 128;
    assert DecodeBE(w) == (a / 128) * 0x8000_0000 + ((a % 128) * 0x100_0000 + rest);
    LemmaModUnique(DecodeBE(w), 0x8000_0000, a / 128, (a % 128) * 0x100_0000 + rest);
  }

  /** `truncate`: the token, bin_code % DIGITS_POWER[N]; it is the RFC 4226
      HOTP value and lies below 10^N. */
  function Truncate(hmac: seq<Byte>, N: int, algo: int): (token: int)
    requires ValidAlgo(algo) && |hmac| == DigestSize(algo)
    requires 0 <= N < |DigitsPower|
    ensures 0 <= token < Pow10(N)
    ensures token == RfcTruncation(hmac) % Pow10(N)
  {
    DigitsPowerIsPow10(N);
    BinCodeIsLast31Bits(hmac, DynamicOffset(hmac, algo));
    BinCode(hmac, DynamicOffset(hmac, algo)) % DigitsPower[N]
  }

  // ---------------------------------------------------------------------
  // compute_hmac (otp.c:83-111)

  /** Normalise and base32-decode the secret, then HMAC the counter block
      with it; None when the secret is not valid base32. */
  function ComputeHmac(K: seq<char>, C: Long, algo: int, crypto: Crypto): (r: Option<seq<Byte>>)
    requires ValidAlgo(algo)
    ensures r.None? <==> crypto.base32Decode(Normalized(K)).None?
    ensures r.Some? ==> |r.value| == DigestSize(algo)
    ensures r.Some? ==> r.value == crypto.hmac(crypto.base32Decode(Normalized(K)).value, algo, CounterBytes(C))
  {
    match crypto.base32Decode(Normalized(K))
    case None => None
    case Some(secret) => Some(crypto.hmac(secret, algo, CounterBytes(C)))
  }

  // ---------------------------------------------------------------------
  // check_period, check_otp_len, check_algo (otp.c:133-161)

  function CheckPeriod(P: int): (r: CotpError)
    ensures r == Valid || r == InvalidPeriod
    ensures r == Valid <==> P == 30 || P == 60
  {
    if P != 30 && P != 60 then InvalidPeriod else Valid
  }

  function CheckOtpLen(N: int): (r: CotpError)
    ensures r == Valid || r == InvalidDigits
    ensures r == Valid <==> N == 6 || N == 8
  {
    if N != 6 && N != 8 then InvalidDigits else Valid
  }

  function CheckAlgo(algo: int): (r: CotpError)
    ensures r == Valid || r == InvalidAlgo
    ensures r == Valid <==> algo == SHA1 || algo == SHA256 || algo == SHA512
  {
    if algo != SHA1 && algo != SHA256 && algo != SHA512 then InvalidAlgo else Valid
  }

  // ---------------------------------------------------------------------
  // get_hotp (otp.c:164-190)

  /** HOTP for counter C: the algorithm is checked first, then the number of
      digits, both before any hashing; a secret that is not base32 gives
      InvalidB32Input; otherwise the token has exactly `digits` digits. */
  function GetHotp(secret: seq<char>, C: Long, digits: int, algo: int, crypto: Crypto): (r: Result<seq<char>, CotpError>)
    ensures !ValidAlgo(algo) ==> r == Failure(InvalidAlgo)
    ensures ValidAlgo(algo) && !ValidDigits(digits) ==> r == Failure(InvalidDigits)
    ensures ValidAlgo(algo) && ValidDigits(digits) ==>
              (r == Failure(InvalidB32Input) <==> crypto.base32Decode(Normalized(secret)).None?)
    ensures r.Failure? ==> r.error in {InvalidAlgo, InvalidDigits, InvalidB32Input}
    ensures r.Success? ==> |r.value| == digits && AllDigits(r.value)
  {
    if CheckAlgo(algo) == InvalidAlgo then Failure(InvalidAlgo)
    else if CheckOtpLen(digits) == InvalidDigits then Failure(InvalidDigits)
    else
      match ComputeHmac(secret, C, algo, crypto)
      case None => Failure(InvalidB32Input)
      case Some(hmac) => Success(Finalize(digits, Truncate(hmac, digits, algo)))
  }

  /** A HOTP token reads back as the RFC 4226 value of the digest of the
      counter block under the decoded secret, reduced modulo 10^digits. */
  lemma HotpMatchesRfc(secret: seq<char>, C: Long, digits: int, algo: int, crypto: Crypto)
    requires GetHotp(secret, C, digits, algo, crypto).Success?
    ensures ValidAlgo(algo) && ValidDigits(digits)
    ensures crypto.base32Decode(Normalized(secret)).Some?
    ensures var digest := crypto.hmac(crypto.base32Decode(Normalized(secret)).value, algo, CounterBytes(C));
            DecimalValue(GetHotp(secret, C, digits, algo, crypto).value)
              == RfcTruncation(digest) % Pow10(digits)
  {
  }

  // ---------------------------------------------------------------------
  // get_totp_at (otp.c:200-227)

  /** The HOTP counter of a TOTP: current_timestamp / period, with C's
      division that truncates toward zero. */
  function TimeStep(timestamp: Long, period: int): (T: Long)
    requires period > 0
    ensures timestamp >= 0 ==> T == timestamp / period
  {
    CDiv(timestamp, period)
  }

  /** TOTP at a given time: digits are checked before the period, both
      before get_hotp runs; get_hotp's result, error code included, is
      passed on unchanged. */
  function GetTotpAt(secret: seq<char>, currentTimestamp: Long, digits: int, period: int, algo: int, crypto: Crypto)
    : (r: Result<seq<char>, CotpError>)
    ensures !ValidDigits(digits) ==> r == Failure(InvalidDigits)
    ensures ValidDigits(digits) && !ValidPeriod(period) ==> r == Failure(InvalidPeriod)
    ensures ValidDigits(digits) && ValidPeriod(period) ==>
              r == GetHotp(secret, TimeStep(currentTimestamp, period), digits, algo, crypto)
    ensures r.Success? ==> |r.value| == digits && AllDigits(r.value)
  {
    if CheckOtpLen(digits) == InvalidDigits then Failure(InvalidDigits)
    else if CheckPeriod(period) == InvalidPeriod then Failure(InvalidPeriod)
    else
      var timestamp := CDiv(currentTimestamp, period);
      match GetHotp(secret, timestamp, digits, algo, crypto)
      case Failure(err) => Failure(err)
      case Success(token) => Success(token)
  }

  /** Two times in the same period window [k*period, (k+1)*period) give the
      same TOTP result. */
  lemma SameWindowSameTotp(secret: seq<char>, t1: Long, t2: Long, k: nat, digits: int, period: int, algo: int, crypto: Crypto)
    requires period > 0
    requires k * period <= t1 < (k + 1) * period
    requires k * period <= t2 < (k + 1) * period
    ensures GetTotpAt(secret, t1, digits, period, algo, crypto) == GetTotpAt(secret, t2, digits, period, algo, crypto)
  {
    if ValidDigits(digits) && ValidPeriod(period) {
      LemmaModUnique(t1, period, k, t1 - k * period);
      LemmaModUnique(t2, period, k, t2 - k * period);
    }
  }

  // ---------------------------------------------------------------------
  // totp_verify (otp.c:230-248)

  /** totp_verify at time `now`: the generation error when the current TOTP
      cannot be produced, otherwise Valid exactly when the submitted string
      equals it and InvalidOtp when it does not. */
  function TotpVerify(secret: seq<char>, userTotp: seq<char>, digits: int, period: int, algo: int, now: Long, crypto: Crypto)
    : (r: CotpError)
    ensures GetTotpAt(secret, now, digits, period, algo, crypto).Failure? ==>
              r == GetTotpAt(secret, now, digits, period, algo, crypto).error
    ensures r == Valid <==>
              GetTotpAt(secret, now, digits, period, algo, crypto) == Success(userTotp)
    ensures GetTotpAt(secret, now, digits, period, algo, crypto).Success? && r != Valid ==> r == InvalidOtp
    ensures r == Valid ==> |userTotp| == digits && AllDigits(userTotp)
  {
    match GetTotpAt(secret, now, digits, period, algo, crypto)
    case Failure(err) => err
    case Success(currentTotp) => if currentTotp != userTotp then InvalidOtp else Valid
  }
}
