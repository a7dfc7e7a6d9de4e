/**
 * Enrolment: a 10-byte secret drawn from the random source, its code at
 * counter 0, and five backup codes, each made from four further random bytes.
 */
module Enrolment {
  import opened JavaNum
  import opened Errors
  import opened Collaborators
  import opened Config
  import opened Creds
  import opened CodeDerivation

  const SECRET_SIZE: nat := 10
  const BACKUP_CODE_COUNT: nat := 5

  /**
   * The Java constant `10^8`. In Java `^` is exclusive-or, not a power, so the
   * constant is 0b1010 XOR 0b1000.
   */
  const SECURE_CODE_MODULUS: int := (10 as bv32 ^ 8 as bv32) as int

  lemma SecureCodeModulusIsTwo()
    ensures SECURE_CODE_MODULUS == 2
    ensures JavaDiv(SECURE_CODE_MODULUS, 10) == 0
  {
  }

  /** A backup code from four random bytes: their big-endian value, bit 31 cleared, modulo SECURE_CODE_MODULUS. */
  function SecureCode(buffer: Bytes): (code: Int32)
    requires |buffer| == 4
    ensures 0 <= code < SECURE_CODE_MODULUS
  {
    MaskLow31(BigEndian(buffer)) % SECURE_CODE_MODULUS
  }

  /**
   * The acceptance test `code != -1 && code >= SECURE_CODE_MODULUS / 10`
   * holds for every draw, so the rejection loop never repeats.
   */
  predicate Accepted(code: int) {
    code != -1 && code >= JavaDiv(SECURE_CODE_MODULUS, 10)
  }

  /** Every backup code is 0 or 1: the low bit of the last byte drawn. */
  lemma SecureCodeIsLastBit(buffer: Bytes)
    requires |buffer| == 4
    ensures SecureCode(buffer) == buffer[3] % 2
    ensures SecureCode(buffer) == 0 || SecureCode(buffer) == 1
    ensures Accepted(SecureCode(buffer))
  {
    var v, h, b := BigEndian(buffer), BigEndian(buffer[..3]), buffer[3];
    assert v == h * 256 + b;
    var q, m := v / 0x8000_0000, v % 0x8000_0000;
    assert v == q * 0x8000_0000 + m;
    assert b == (b / 2) * 2 + b % 2;
    assert m == (h * 128 + b / 2 - q * 0x4000_0000) * 2 + b % 2;
    DivMulUnique(m, 2, h * 128 + b / 2 - q * 0x4000_0000, b % 2);
  }

  /**
   * One turn of the loop that folds four bytes into an `int`: `(code << 8) +
   * byte` in 32-bit arithmetic keeps `code` the wrapped big-endian value of
   * the bytes read so far (no wrap happens before the fourth byte).
   */
  lemma SecureCodeFoldStep(buffer: Bytes, j: nat, code: int)
    requires j < |buffer| == 4 && code == WrapInt32(BigEndian(buffer[..j]))
    ensures WrapInt32(WrapInt32(code * 256) + buffer[j]) == WrapInt32(BigEndian(buffer[..j + 1]))
  {
    var prefix := BigEndian(buffer[..j]);
    assert Pow256(j) <= 0x100_0000 by {
      assert j == 0 || j == 1 || j == 2 || j == 3;
      assert Pow256(3) == 0x100_0000;
    }
    assert code == prefix;
    assert buffer[..j + 1][..j] == buffer[..j];
    assert BigEndian(buffer[..j + 1]) == prefix * 256 + buffer[j];
    WrapInt32Congruent(WrapInt32(code * 256) + buffer[j], BigEndian(buffer[..j + 1]));
  }

  /** After the fold, masking and reducing the wrapped value gives the backup code, and it is accepted. */
  lemma SecureCodeOfFold(buffer: Bytes)
    requires |buffer| == 4
    ensures MaskLow31(WrapInt32(BigEndian(buffer))) % SECURE_CODE_MODULUS == SecureCode(buffer)
    ensures Accepted(SecureCode(buffer))
  {
    MaskLow31OfWrap(BigEndian(buffer));
    SecureCodeIsLastBit(buffer);
  }

  /** The five backup codes made from the stream, four bytes each, starting at index `from`. */
  function BackupCodes(stream: nat -> Byte, from: nat): (codes: seq<Int32>)
    ensures |codes| == BACKUP_CODE_COUNT
  {
    seq(BACKUP_CODE_COUNT, k requires 0 <= k < BACKUP_CODE_COUNT => SecureCode(Take(stream, from + 4 * k, 4)))
  }

  /**
   * createCredentials as a function of the random stream and the index of the
   * next unread byte: the outcome and the index after the call. The secret is
   * the next 10 bytes unchanged; when the code at counter 0 fails, no backup
   * code is drawn.
   */
  function IssueCredentials(config: Configuration, mac: HmacSha1, base32: Base32,
                            stream: nat -> Byte, from: nat): (Result<Credentials>, nat)
  {
    var secretKey := Take(stream, from, SECRET_SIZE);
    match AuthCode(mac, config.GetAuthCodeModulus(), secretKey, 0)
    case Err(e) => (Err(e), from + SECRET_SIZE)
    case Ok(code) =>
      var codes := BackupCodes(stream, from + SECRET_SIZE);
      (Ok(Credentials(config, base32.encode(secretKey), code, codes)), from + SECRET_SIZE + 4 * BACKUP_CODE_COUNT)
  }

  /**
   * What an enrolment hands out: the configuration it was given, the Base32
   * text of exactly the 10 bytes drawn, the code of that raw secret at counter
   * 0, and five backup codes each 0 or 1; it consumes 30 bytes. It fails, after
   * consuming only the secret, exactly when deriving the code at counter 0 fails.
   */
  lemma IssuedCredentials(config: Configuration, mac: HmacSha1, base32: Base32, stream: nat -> Byte, from: nat)
    ensures var (r, next) := IssueCredentials(config, mac, base32, stream, from);
      var secret := Take(stream, from, 10);
      var code := AuthCode(mac, config.GetAuthCodeModulus(), secret, 0);
      && (r.Err? <==> code.Err?)
      && (r.Err? ==> r.error == code.error && next == from + 10)
      && (r.Ok? ==>
            && next == from + 30
            && r.value.GetConfiguration() == config
            && r.value.GetSecretKey() == base32.encode(secret)
            && r.value.GetVerificationCode() == code.value
            && 0 <= r.value.GetVerificationCode() < config.GetAuthCodeModulus()
            && |r.value.GetRandomSecureCodes()| == 5
            && forall k :: 0 <= k < 5 ==>
                 && r.value.GetRandomSecureCodes()[k] == stream(from + 10 + 4 * k + 3) % 2
                 && (r.value.GetRandomSecureCodes()[k] == 0 || r.value.GetRandomSecureCodes()[k] == 1))
  {
    var codes := BackupCodes(stream, from + 10);
    forall k | 0 <= k < 5
      ensures codes[k] == stream(from + 10 + 4 * k + 3) % 2
    {
      SecureCodeIsLastBit(Take(stream, from + 10 + 4 * k, 4));
    }
  }
}
