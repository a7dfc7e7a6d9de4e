/**
 * Derivation of a one-time code from a secret key and a counter: the 8-byte
 * counter message, HMAC-SHA1, and the dynamic truncation of section 5.3 of
 * RFC 4226, reduced modulo the configured code modulus.
 */
module CodeDerivation {
  import opened JavaNum
  import opened Errors
  import opened Collaborators

  /**
   * The HMAC message for a `long` counter: its 64-bit two's-complement image,
   * most significant byte first.
   */
  function CounterBytes(counter: Int64): (data: Bytes)
    ensures |data| == 8
  {
    BigEndianBytes(counter % TWO_64, 8)
  }

  /**
   * One turn of the loop that fills the message from the last byte back: when
   * `value` holds the counter shifted right by `m` bytes, `(byte) value` is
   * message byte 7 - m and `value >>>= 8` holds it shifted by m + 1 bytes.
   */
  lemma CounterByteStep(counter: Int64, value: int, m: nat)
    requires m < 8 && value % TWO_64 == (counter % TWO_64) / Pow256(m)
    ensures value % 256 == CounterBytes(counter)[7 - m]
    ensures (value % TWO_64) / 256 == (counter % TWO_64) / Pow256(m + 1) < 0x100_0000_0000_0000
  {
    var u := counter % TWO_64;
    ModOfMultiple(value, 0x100_0000_0000_0000);
    assert CounterBytes(counter)[7 - m] == BigEndianBytes(u, 8)[7 - m] == ByteOf(u, m);
    DivDiv(u, Pow256(m), 256);
    assert Pow256(m + 1) == Pow256(m) * 256;
  }

  /** Reassembling the 8 message bytes gives the counter modulo 2^64. */
  lemma CounterBytesRoundTrip(counter: Int64)
    ensures BigEndian(CounterBytes(counter)) == counter % TWO_64
    ensures counter >= 0 ==> BigEndian(CounterBytes(counter)) == counter
    ensures counter < 0 ==> BigEndian(CounterBytes(counter)) == counter + TWO_64
  {
    BigEndianOfBytes(counter % TWO_64, 8);
    assert Pow256(8) == TWO_64;
  }

  /** Two counters give the same message only if they are the same `long`. */
  lemma CounterBytesInjective(c1: Int64, c2: Int64)
    requires CounterBytes(c1) == CounterBytes(c2)
    ensures c1 == c2
  {
    CounterBytesRoundTrip(c1);
    CounterBytesRoundTrip(c2);
  }

  /**
   * The first byte carries the sign: it is at least 0x80 exactly for a negative
   * counter, and it is 0xFF for a negative counter not below -2^56.
   */
  lemma CounterBytesSign(counter: Int64)
    ensures CounterBytes(counter)[0] >= 0x80 <==> counter < 0
    ensures -0x100_0000_0000_0000 <= counter < 0 ==> CounterBytes(counter)[0] == 0xFF
  {
    var u := counter % TWO_64;
    assert Pow256(7) == 0x100_0000_0000_0000;
    assert CounterBytes(counter)[0] == ByteOf(u, 7) == (u / 0x100_0000_0000_0000) % 256;
  }

  /** A counter in [-256, 0) is seven 0xFF bytes followed by `counter + 256`. */
  lemma SmallNegativeCounterBytes(counter: Int64)
    requires -256 <= counter < 0
    ensures CounterBytes(counter) == [0xFF, 0xFF, 0xFF, 0xFF, 0xFF, 0xFF, 0xFF, counter + 256]
  {
    var u := counter % TWO_64;
    assert u == counter + TWO_64;
    var data := CounterBytes(counter);
    forall k | 0 <= k < 7
      ensures data[k] == 0xFF
    {
      assert data[k] == ByteOf(u, 7 - k);
      HighBytesAllOnes(u, 7 - k);
    }
    assert Pow256(0) == 1;
    assert data[7] == ByteOf(u, 0) == u % 256;
  }

  /** For 1 <= m <= 7 and u in [2^64 - 256, 2^64), byte m of u is 0xFF. */
  lemma HighBytesAllOnes(u: int, m: nat)
    requires 1 <= m <= 7 && TWO_64 - 256 <= u < TWO_64
    ensures (u / Pow256(m)) % 256 == 0xFF
  {
    var p, q := Pow256(m), Pow256(8 - m);
    Pow256Add(m, 8 - m);
    assert Pow256(8) == TWO_64;
    assert p >= 256 by {
      Pow256Add(1, m - 1);
    }
    assert u == (q - 1) * p + (u - TWO_64 + p);
    DivMulUnique(u, p, q - 1, u - TWO_64 + p);
    assert q == Pow256(7 - m) * 256;
    DivMulUnique(q - 1, 256, Pow256(7 - m) - 1, 255);
  }

  /** The dynamic-truncation offset: the low nibble of the last digest byte. */
  function TruncationOffset(digest: Digest): (offset: nat)
    ensures offset <= 15
    ensures offset + 3 <= 18 < |digest|
  {
    digest[|digest| - 1] % 16
  }

  /**
   * The dynamic truncation: the four bytes at the offset read big-endian, with
   * bit 31 cleared (`& 0x7FFFFFFF`).
   */
  function DynamicTruncation(digest: Digest): (binCode: nat)
    ensures binCode < 0x8000_0000
  {
    var offset := TruncationOffset(digest);
    MaskLow31(BigEndian(digest[offset..offset + 4]))
  }

  /**
   * The truncation agrees with the formula of section 5.3 of RFC 4226:
   * (d[o] & 0x7f) << 24 | d[o+1] << 16 | d[o+2] << 8 | d[o+3].
   */
  lemma DynamicTruncationIsRfc4226(digest: Digest)
    ensures var o := TruncationOffset(digest);
      DynamicTruncation(digest)
        == (digest[o] as int % 128) * 0x100_0000 + digest[o + 1] as int * 0x1_0000
           + digest[o + 2] as int * 0x100 + digest[o + 3] as int
  {
    var o := TruncationOffset(digest);
    var w: seq<int> := digest[o..o + 4];
    assert w[..3][..2][..1][..0] == [];
    assert BigEndian(w) == w[0] * 0x100_0000 + w[1] * 0x1_0000 + w[2] * 0x100 + w[3] by {
      assert w[..3][..2][..1] == [w[0]];
      assert w[..3][..2] == [w[0], w[1]];
      assert w[..3] == [w[0], w[1], w[2]];
      assert BigEndian([w[0]]) == w[0];
      assert BigEndian([w[0], w[1]]) == w[0] * 256 + w[1];
      assert BigEndian([w[0], w[1], w[2]]) == (w[0] * 256 + w[1]) * 256 + w[2];
    }
    var low := w[1] * 0x1_0000 + w[2] * 0x100 + w[3];
    assert 0 <= (w[0] % 128) * 0x100_0000 + low < 0x8000_0000;
    DivMulUnique(BigEndian(w), 0x8000_0000, w[0] / 128, (w[0] % 128) * 0x100_0000 + low);
  }

  /**
   * The one-time code for `key` at `counter` (createAuthCode on a decoded key):
   * the exception of the HMAC set-up for this key, an ArithmeticException when
   * the modulus is 0, and otherwise the truncated digest modulo `modulus`.
   */
  function AuthCode(mac: HmacSha1, modulus: Int32, key: Bytes, counter: Int64): (r: Result<Int32>)
    requires modulus >= 0
    ensures r.Ok? ==> 0 <= r.value < modulus
    ensures r.Ok? <==> mac.init(key).None? && modulus != 0
    ensures mac.init(key).Some? ==> r == Err(mac.init(key).value)
  {
    match mac.init(key)
    case Some(e) => Err(e)
    case None =>
      if modulus == 0 then Err(Arithmetic)
      else Ok(DynamicTruncation(mac.doFinal(key, CounterBytes(counter))) % modulus)
  }

  /**
   * A successful code is the RFC 4226 truncation of the HMAC-SHA1 of the
   * counter's big-endian image, reduced modulo `modulus`.
   */
  lemma AuthCodeIsHotp(mac: HmacSha1, modulus: Int32, key: Bytes, counter: Int64)
    requires modulus > 0 && mac.init(key).None?
    ensures var d := mac.doFinal(key, CounterBytes(counter));
      var o := d[19] % 16;
      && BigEndian(CounterBytes(counter)) == counter % TWO_64
      && AuthCode(mac, modulus, key, counter)
           == Ok(((d[o] as int % 128) * 0x100_0000 + d[o + 1] as int * 0x1_0000
                 + d[o + 2] as int * 0x100 + d[o + 3] as int) % modulus)
  {
    CounterBytesRoundTrip(counter);
    DynamicTruncationIsRfc4226(mac.doFinal(key, CounterBytes(counter)));
  }
}
