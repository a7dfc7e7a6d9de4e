/**
 * The authenticator object: a configuration, a secure random generator it
 * owns, and the HMAC-SHA1 and Base32 primitives it calls. Each method follows
 * the step-by-step code of the Java class and is proved equal to the
 * specification function of its module.
 */
module Authentication {
  import opened JavaNum
  import opened Errors
  import opened Collaborators
  import opened Config
  import opened Creds
  import opened CodeDerivation
  import opened Verification
  import opened Enrolment

  class Authenticator {
    const configuration: Configuration
    const secureRandom: SecureRandom
    const mac: HmacSha1
    const base32: Base32

    /** `Authenticator(configuration)`: a fresh generator producing `randomBytes`. */
    constructor (configuration: Configuration, randomBytes: nat -> Byte, mac: HmacSha1, base32: Base32)
      ensures this.configuration == configuration && this.mac == mac && this.base32 == base32
      ensures fresh(secureRandom) && secureRandom.stream == randomBytes && secureRandom.position == 0
    {
      this.configuration := configuration;
      this.mac := mac;
      this.base32 := base32;
      secureRandom := new SecureRandom(randomBytes);
    }

    /** `Authenticator()`: the default configuration. */
    constructor Default(randomBytes: nat -> Byte, mac: HmacSha1, base32: Base32)
      ensures configuration == DefaultConfiguration() && this.mac == mac && this.base32 == base32
      ensures fresh(secureRandom) && secureRandom.stream == randomBytes && secureRandom.position == 0
    {
      configuration := DefaultConfiguration();
      this.mac := mac;
      this.base32 := base32;
      secureRandom := new SecureRandom(randomBytes);
    }

    /**
     * createAuthCode on a decoded key: fills the 8-byte message from the
     * counter, applies HMAC-SHA1 and truncates the digest.
     */
    method CreateAuthCode(decodedSecretKey: Bytes, timeMillis: Int64) returns (r: Result<Int32>)
      ensures r == AuthCode(mac, configuration.GetAuthCodeModulus(), decodedSecretKey, timeMillis)
    {
      var data := new Byte[8];
      var value: Int64 := timeMillis;
      ghost var u := timeMillis % TWO_64;
      var i := 8;
      while i > 0
        invariant 0 <= i <= 8
        invariant value % TWO_64 == u / Pow256(8 - i)
        invariant forall k :: i <= k < 8 ==> data[k] == CounterBytes(timeMillis)[k]
      {
        i := i - 1;
        CounterByteStep(timeMillis, value, 7 - i);
        data[i] := value % 256;                // (byte) value
        value := (value % TWO_64) / 256;       // value >>>= 8
      }
      assert data[..] == CounterBytes(timeMillis);

      match mac.init(decodedSecretKey) {
        case Some(e) => return Err(e);
        case None =>
      }
      var hash := mac.doFinal(decodedSecretKey, data[..]);
      var offset := hash[|hash| - 1] % 16;

      var truncatedHash: int := 0;
      for j := 0 to 4
        invariant truncatedHash == BigEndian(hash[offset..offset + j])
        modifies {}
      {
        assert hash[offset..offset + j + 1][..j] == hash[offset..offset + j];
        // truncatedHash <<= 8; truncatedHash |= hash[offset + j] & 0xFF: the low byte is clear, so `|` adds
        truncatedHash := truncatedHash * 256 + hash[offset + j];
      }
      truncatedHash := MaskLow31(truncatedHash);

      var modulus := configuration.GetAuthCodeModulus();
      if modulus == 0 {
        return Err(Arithmetic);
      }
      truncatedHash := truncatedHash % modulus;
      return Ok(truncatedHash);
    }

    /** createAuthCode on a Base32 secret and a time in milliseconds. */
    method CreateAuthCodeForTime(encodedSecretKey: string, timeInMillis: Int64) returns (r: Result<Int32>)
      ensures r == AuthCode(mac, configuration.GetAuthCodeModulus(), base32.decode(encodedSecretKey), WindowFromTime(timeInMillis))
    {
      r := CreateAuthCode(base32.decode(encodedSecretKey), WindowFromTime(timeInMillis));
    }

    /**
     * isAuthorized: argument checks, the range pre-check, then a search over
     * the window of time steps that stops at the first match.
     */
    method IsAuthorized(encodedSecretKey: Option<string>, authCode: Int32, time: Int64) returns (r: Result<bool>)
      ensures r == Authorize(mac, base32, configuration, encodedSecretKey, authCode, time)
    {
      if encodedSecretKey.None? {
        return Err(IllegalArgument);
      }
      if authCode <= 0 || authCode >= configuration.GetAuthCodeModulus() {
        return Ok(false);
      }
      var decodedSecretKey := base32.decode(encodedSecretKey.value);
      var timeWindow := WindowFromTime(time);
      var w := configuration.GetIntervalWindow();
      ghost var modulus := configuration.GetAuthCodeModulus();
      ghost var lo, hi := WindowLow(w), WindowHigh(w);
      WindowShape(w);
      var i := WindowLow(w);
      while i <= WindowHigh(w)
        invariant lo <= i && (i <= hi + 1 || i == lo)
        invariant SearchWindow(mac, modulus, decodedSecretKey, timeWindow, authCode, i, hi)
               == SearchWindow(mac, modulus, decodedSecretKey, timeWindow, authCode, lo, hi)
        decreases hi - i
      {
        StepPlusOffsetIsLong(timeWindow, i);
        SearchWindowStep(mac, modulus, decodedSecretKey, timeWindow, authCode, i, hi);
        var hash := CreateAuthCode(decodedSecretKey, timeWindow + i);
        if hash.Err? {
          return Err(hash.error);
        }
        if hash.value == authCode {
          return Ok(true);
        }
        i := i + 1;
      }
      return Ok(false);
    }

    /**
     * createRandomSecureCode: draws four bytes, folds them into a 32-bit `int`,
     * masks and reduces the value, and repeats until the value is accepted.
     * Acceptance always holds, so exactly four bytes are consumed.
     */
    method CreateRandomSecureCode() returns (secureCode: Int32)
      modifies secureRandom
      ensures secureCode == SecureCode(Take(secureRandom.stream, old(secureRandom.position), 4))
      ensures secureRandom.position == old(secureRandom.position) + 4
    {
      // while (true) { ...; if (accepted) return secureCode; }
      var accepted := false;
      secureCode := 0;
      while !accepted
        invariant !accepted ==> secureRandom.position == old(secureRandom.position)
        invariant accepted ==> secureRandom.position == old(secureRandom.position) + 4
        invariant accepted ==> secureCode == SecureCode(Take(secureRandom.stream, old(secureRandom.position), 4))
        decreases if accepted then 0 else 1
      {
        var buffer := new Byte[4];
        secureRandom.NextBytes(buffer);
        ghost var drawn := buffer[..];

        var code: Int32 := 0;
        for j := 0 to 4
          invariant code == WrapInt32(BigEndian(drawn[..j]))
          modifies {}
        {
          SecureCodeFoldStep(drawn, j, code);
          // (code << 8) + (buffer[j] & 0xff) in 32-bit arithmetic; no wrap before the fourth byte
          code := WrapInt32(WrapInt32(code * 256) + buffer[j]);
        }
        assert drawn[..4] == drawn;
        SecureCodeOfFold(drawn);
        SecureCodeModulusIsTwo();
        code := MaskLow31(code) % SECURE_CODE_MODULUS;
        if code != -1 && code >= JavaDiv(SECURE_CODE_MODULUS, 10) {
          secureCode := code;
          accepted := true;
        }
      }
    }

    /** getRandomSecureCodes: five secure codes, drawn in order. */
    method GetRandomSecureCodes() returns (codes: seq<Int32>)
      modifies secureRandom
      ensures codes == BackupCodes(secureRandom.stream, old(secureRandom.position))
      ensures secureRandom.position == old(secureRandom.position) + 4 * BACKUP_CODE_COUNT
    {
      codes := [];
      for k := 0 to BACKUP_CODE_COUNT
        invariant secureRandom.position == old(secureRandom.position) + 4 * k
        invariant codes == BackupCodes(secureRandom.stream, old(secureRandom.position))[..k]
      {
        var code := CreateRandomSecureCode();
        codes := codes + [code];
      }
    }

    /**
     * createCredentials: a 10-byte secret copied from a buffer the generator
     * fills, its Base32 text, its code at counter 0 and the backup codes.
     */
    method CreateCredentials() returns (r: Result<Credentials>)
      modifies secureRandom
      ensures (r, secureRandom.position)
           == IssueCredentials(configuration, mac, base32, secureRandom.stream, old(secureRandom.position))
    {
      var buffer := new Byte[SECRET_SIZE];
      secureRandom.NextBytes(buffer);
      var secretKey := buffer[..];                   // Arrays.copyOf(buffer, 10)
      var encodedSecretKey := base32.encode(secretKey);
      var verificationCode := CreateAuthCode(secretKey, 0);
      if verificationCode.Err? {
        return Err(verificationCode.error);
      }
      var codes := GetRandomSecureCodes();
      r := Ok(Credentials(configuration, encodedSecretKey, verificationCode.value, codes));
    }
  }
}
