/** Byte-level arithmetic shared by the daemon and the OTP engine: bytes as
    integers in [0, 256), big-endian integers of a fixed width, the range of
    a C `long` and C's integer division, which truncates toward zero. */
module Bytes {

  type Byte = b: int | 0 <= b < 256

  const LongMin: int := -0x8000_0000_0000_0000
  const LongMax: int := 0x7fff_ffff_ffff_ffff

  /** A 64-bit signed C `long` (LP64). */
  type Long = x: int | LongMin <= x <= LongMax

  function Pow256(n: nat): (r: nat)
    ensures r >= 1
  {
    if n == 0 then 1 else 256 * Pow256(n - 1)
  }

  /** The `n` low-order bytes of `x`, most significant first. */
  function EncodeBE(x: nat, n: nat): (s: seq<Byte>)
    ensures |s| == n
  {
    if n == 0 then [] else EncodeBE(x / 256, n - 1) + [x % 256]
  }

  /** The unsigned integer whose big-endian bytes are `s`. */
  function DecodeBE(s: seq<Byte>): (x: nat)
    ensures x < Pow256(|s|)
  {
    if s == [] then 0 else DecodeBE(s[..|s| - 1]) * 256 + s[|s| - 1]
  }

  /** Decoding an n-byte encoding gives back the value modulo 256^n. */
  lemma {:induction false} DecodeEncode(x: nat, n: nat)
    ensures DecodeBE(EncodeBE(x, n)) == x % Pow256(n)
  {
    if n > 0 {
      var s := EncodeBE(x, n);
      assert s[..n - 1] == EncodeBE(x / 256, n - 1);
      DecodeEncode(x / 256, n - 1);
      DivModPow256(x, n);
    }
  }

  /** x mod 256^n splits into its lowest byte and the rest. */
  lemma DivModPow256(x: nat, n: nat)
    requires n > 0
    ensures x % Pow256(n) == (x / 256) % Pow256(n - 1) * 256 + x % 256
  {
    var p := Pow256(n - 1);
    var q := x / 256;
    var r := x % 256;
    assert x == q * 256 + r;
    var a := q / p;
    var b := q % p;
    assert q == a * p + b;
    assert x == a * (256 * p) + (b * 256 + r) by {
      assert x == (a * p + b) * 256 + r;
    }
    assert 0 <= b * 256 + r < 256 * p;
    LemmaModUnique(x, 256 * p, a, b * 256 + r);
  }

  lemma LemmaModUnique(x: int, m: int, q: int, r: int)
    requires m > 0 && 0 <= r < m && x == q * m + r
    ensures x % m == r && x / m == q
  {
    var q', r' := x / m, x % m;
    if q' > q {
      MulMono(q + 1, q', m);
      assert false;
    } else if q' < q {
      MulMono(q' + 1, q, m);
      assert false;
    }
  }

  /** Byte j (counting from the least significant) of `x` sits at index
      n-1-j of its n-byte big-endian encoding. */
  lemma {:induction false} EncodeBEAt(x: nat, n: nat, j: nat)
    requires j < n
    ensures EncodeBE(x, n)[n - 1 - j] == (x / Pow256(j)) % 256
  {
    if j > 0 {
      EncodeBEAt(x / 256, n - 1, j - 1);
      assert EncodeBE(x, n)[n - 1 - j] == EncodeBE(x / 256, n - 1)[n - 1 - j];
      DivDiv(x, 256, Pow256(j - 1));
    }
  }

  lemma DivDiv(x: nat, a: nat, b: nat)
    requires a > 0 && b > 0
    ensures x / a / b == x / (a * b)
  {
    var y := x / a;
    var q, t, u := y / b, y % b, x % a;
    assert x == (q * b + t) * a + u;
    Regroup(q, b, t, a, u);
    RemainderBound(t, b, a, u);
    LemmaModUnique(x, a * b, q, t * a + u);
  }

  lemma Regroup(q: int, b: int, t: int, a: int, u: int)
    ensures (q * b + t) * a + u == q * (a * b) + (t * a + u)
  {
    MulDistrib(q * b, t, a);
    assert q * b * a == q * (a * b);
  }

  lemma RemainderBound(t: int, b: int, a: int, u: int)
    requires 0 <= t < b && 0 <= u < a
    ensures 0 <= t * a + u < a * b
  {
    MulMono(t, b - 1, a);
    assert (b - 1) * a == a * b - a;
  }

  lemma MulDistrib(p: int, q: int, a: int)
    ensures (p + q) * a == p * a + q * a
  {
  }

  lemma MulMono(s: int, t: int, a: int)
    requires a >= 0 && s <= t
    ensures s * a <= t * a
  {
  }

  /** C's `a / b` for b > 0: the quotient truncated toward zero. */
  function CDiv(a: int, b: int): (q: int)
    requires b > 0
    ensures a >= 0 ==> q * b <= a < (q + 1) * b
    ensures a < 0 ==> (q - 1) * b < a <= q * b
  {
    if a >= 0 then a / b else -((-a) / b)
  }

  /** The bytes of a sequence of chunks, in arrival order. */
  function Flatten(chunks: seq<seq<Byte>>): seq<Byte> {
    if chunks == [] then [] else Flatten(chunks[..|chunks| - 1]) + chunks[|chunks| - 1]
  }
}
