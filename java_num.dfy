/** Java's fixed-width integers, bytes and division, stated on Dafny's unbounded `int`. */
module JavaNum {

  const TWO_32: int := 0x1_0000_0000
  const TWO_64: int := 0x1_0000_0000_0000_0000

  /** A Java `int`. */
  type Int32 = x: int | -0x8000_0000 <= x < 0x8000_0000

  /** A Java `long`. */
  type Int64 = x: int | -0x8000_0000_0000_0000 <= x < 0x8000_0000_0000_0000

  /**
   * `x` is in the range of Int64. Dafny allows no `is` test on a subset type of
   * `int`, so this is how a formula asks whether a value is a `long`.
   */
  predicate InInt64(x: int) {
    -0x8000_0000_0000_0000 <= x < 0x8000_0000_0000_0000
  }

  /** A Java `byte`, held as its unsigned bit pattern: the value `b & 0xFF` has in Java. */
  type Byte = b: int | 0 <= b < 256

  type Bytes = seq<Byte>

  function Abs(x: int): nat {
    if x < 0 then -x else x
  }

  /** Two's-complement wrap-around of a 32-bit Java `int` operation. */
  function WrapInt32(x: int): (r: Int32)
    ensures (x - r) % TWO_32 == 0
    ensures -0x8000_0000 <= x < 0x8000_0000 ==> r == x
  {
    (x + 0x8000_0000) % TWO_32 - 0x8000_0000
  }

  /**
   * Java's integer `/` by a positive divisor: the quotient truncated toward
   * zero (Dafny's `/` is Euclidean and rounds a negative quotient down).
   */
  function JavaDiv(a: int, b: int): int
    requires b > 0
  {
    if a >= 0 then a / b else -((-a) / b)
  }

  /** Java's `&` with the mask 0x7FFFFFFF, which clears every bit from bit 31 up (two's complement). */
  function MaskLow31(x: int): (r: nat)
    ensures r < 0x8000_0000
    ensures (x - r) % 0x8000_0000 == 0
  {
    x % 0x8000_0000
  }

  function Pow256(n: nat): (p: nat)
    ensures p >= 1
  {
    if n == 0 then 1 else 256 * Pow256(n - 1)
  }

  function Pow10(n: nat): (p: nat)
    ensures p >= 1
  {
    if n == 0 then 1 else 10 * Pow10(n - 1)
  }

  /** The unsigned value of a big-endian byte string (the first byte is the most significant). */
  function BigEndian(s: Bytes): (v: nat)
    ensures v < Pow256(|s|)
  {
    if s == [] then 0
    else
      var prefix := BigEndian(s[..|s| - 1]);
      assert (prefix + 1) * 256 <= Pow256(|s| - 1) * 256;
      prefix * 256 + s[|s| - 1]
  }

  /** Byte number `m` of `u`, counting from the least significant byte. */
  function ByteOf(u: nat, m: nat): Byte {
    (u / Pow256(m)) % 256
  }

  /** The `n`-byte big-endian image of `u` (of `u` modulo 256^n). */
  function BigEndianBytes(u: nat, n: nat): (s: Bytes)
    ensures |s| == n
  {
    seq(n, k requires 0 <= k < n => ByteOf(u, n - 1 - k))
  }

  // ---------------------------------------------------------------------------
  // Arithmetic facts used by the proofs about bytes and division

  lemma MulAtLeast(d: int, m: int)
    requires d >= 1 && m > 0
    ensures d * m >= m
  {
    var k := d - 1;
    assert d * m == k * m + m;
    assert k * m >= 0;
  }

  lemma DivMulUnique(u: int, m: int, q: int, r: int)
    requires m > 0 && u == q * m + r && 0 <= r < m
    ensures u / m == q && u % m == r
  {
    var q', r' := u / m, u % m;
    assert u == q' * m + r';
    if q' > q {
      assert (q' - q) * m == r - r';
      MulAtLeast(q' - q, m);
    } else if q' < q {
      assert (q - q') * m == r' - r;
      MulAtLeast(q - q', m);
    }
  }

  /** Dividing by `a` then by `b` is dividing by `a * b`. */
  lemma DivDiv(u: nat, a: nat, b: nat)
    requires a > 0 && b > 0
    ensures u / a / b == u / (a * b)
    ensures u % (a * b) == (u / a) % b * a + u % a
  {
    var q, r := u / a, u % a;
    var q2, r2 := q / b, q % b;
    assert u == q2 * (a * b) + (r2 * a + r) by {
      assert u == q * a + r;
      assert q == q2 * b + r2;
      calc {
        q * a + r;
        (q2 * b + r2) * a + r;
        q2 * (a * b) + (r2 * a + r);
      }
    }
    assert r2 * a + r < a * b by {
      assert r2 <= b - 1;
      assert r2 * a <= (b - 1) * a;
    }
    DivMulUnique(u, a * b, q2, r2 * a + r);
  }

  lemma ModOfMultiple(x: int, k: nat)
    requires k > 0
    ensures (x % (256 * k)) % 256 == x % 256
  {
    var q := x / (256 * k);
    assert x == (q * k) * 256 + x % (256 * k);
    var r := x % (256 * k);
    DivMulUnique(r, 256, r / 256, r % 256);
    DivMulUnique(x, 256, q * k + r / 256, r % 256);
  }

  lemma ByteOfNext(u: nat, m: nat)
    ensures ByteOf(u, m + 1) == ByteOf(u / 256, m)
  {
    DivDiv(u, 256, Pow256(m));
  }

  /** `BigEndian` reassembles what `BigEndianBytes` takes apart, modulo 256^n. */
  lemma {:induction false} BigEndianOfBytes(u: nat, n: nat)
    ensures BigEndian(BigEndianBytes(u, n)) == u % Pow256(n)
  {
    if n > 0 {
      var s := BigEndianBytes(u, n);
      var t := BigEndianBytes(u / 256, n - 1);
      forall k | 0 <= k < n - 1
        ensures s[..n - 1][k] == t[k]
      {
        ByteOfNext(u, n - 2 - k);
      }
      assert s[..n - 1] == t;
      BigEndianOfBytes(u / 256, n - 1);
      DivDiv(u, 256, Pow256(n - 1));
      assert Pow256(0) == 1 && u / 1 == u;
      assert s[n - 1] == ByteOf(u, 0) == u % 256;
      calc {
        BigEndian(s);
        BigEndian(s[..n - 1]) * 256 + s[n - 1];
        BigEndian(t) * 256 + u % 256;
        (u / 256) % Pow256(n - 1) * 256 + u % 256;
        u % (256 * Pow256(n - 1));
      }
    }
  }

  /** `BigEndianBytes` inverts `BigEndian`: a byte string is the big-endian image of its own value. */
  lemma {:induction false} BytesOfBigEndian(s: Bytes)
    ensures BigEndianBytes(BigEndian(s), |s|) == s
  {
    if s != [] {
      var n := |s|;
      var u := BigEndian(s);
      var p := s[..n - 1];
      assert u == BigEndian(p) * 256 + s[n - 1];
      DivMulUnique(u, 256, BigEndian(p), s[n - 1]);
      BytesOfBigEndian(p);
      forall k | 0 <= k < n
        ensures BigEndianBytes(u, n)[k] == s[k]
      {
        if k < n - 1 {
          ByteOfNext(u, n - 2 - k);
          assert u / 256 == BigEndian(p);
          calc {
            BigEndianBytes(u, n)[k];
            ByteOf(u, n - 1 - k);
            ByteOf(BigEndian(p), n - 2 - k);
            BigEndianBytes(BigEndian(p), n - 1)[k];
            p[k];
          }
        } else {
          assert Pow256(0) == 1 && u / 1 == u;
          assert BigEndianBytes(u, n)[k] == ByteOf(u, 0) == u % 256;
        }
      }
    }
  }

  lemma {:induction false} Pow256Add(m: nat, n: nat)
    ensures Pow256(m) * Pow256(n) == Pow256(m + n)
  {
    if m > 0 {
      Pow256Add(m - 1, n);
      assert Pow256(m) * Pow256(n) == 256 * (Pow256(m - 1) * Pow256(n));
    }
  }

  /** Values congruent modulo `m` have the same remainder. */
  lemma ModCongruent(x: int, y: int, m: int)
    requires m > 0 && (x - y) % m == 0
    ensures x % m == y % m
  {
    var k := (x - y) / m;
    assert x - y == k * m;
    DivMulUnique(x, m, y / m + k, y % m);
  }

  /** 32-bit wrap-around depends only on the value modulo 2^32. */
  lemma WrapInt32Congruent(x: int, y: int)
    requires (x - y) % TWO_32 == 0
    ensures WrapInt32(x) == WrapInt32(y)
  {
    ModCongruent(x + 0x8000_0000, y + 0x8000_0000, TWO_32);
  }

  /** Clearing bit 31 of a wrapped value is clearing it on the unwrapped one. */
  lemma MaskLow31OfWrap(x: int)
    ensures MaskLow31(WrapInt32(x)) == MaskLow31(x)
  {
    var k := (x - WrapInt32(x)) / TWO_32;
    assert x - WrapInt32(x) == (2 * k) * 0x8000_0000;
    ModCongruent(x, WrapInt32(x), 0x8000_0000);
  }

  lemma {:induction false} Pow10Monotone(n: nat, m: nat)
    requires n <= m
    ensures Pow10(n) <= Pow10(m)
  {
    if n < m {
      Pow10Monotone(n, m - 1);
    }
  }

  /** Java truncation differs from Dafny's Euclidean division only for a negative dividend with a remainder. */
  lemma JavaDivVersusEuclidean(a: int, b: int)
    requires b > 0
    ensures a >= 0 || a % b == 0 ==> JavaDiv(a, b) == a / b
    ensures a < 0 && a % b != 0 ==> JavaDiv(a, b) == a / b + 1
  {
    if a < 0 {
      var m, r := (-a) / b, (-a) % b;
      DivMulUnique(-a, b, m, r);
      if r == 0 {
        DivMulUnique(a, b, -m, 0);
      } else {
        DivMulUnique(a, b, -m - 1, b - r);
      }
    } else {
      DivMulUnique(a, b, a / b, a % b);
    }
  }
}
