# Time-based one-time password authenticator, modelled in Dafny

The Java library enrols a user and checks the codes they submit. Enrolment
creates a random 10-byte secret, encodes it in Base32, derives a verification
code from it and draws a set of backup codes. Checking a code works like this:

- The time in milliseconds is quantised into 30-second steps.
- A code is derived for each step in a small window around the current one.
- The code is derived by HMAC-SHA1 over the step counter, followed by the
  dynamic truncation of section 5.3 of RFC 4226.
- The submitted code is accepted when it equals any of those codes.

The policy object (`Configuration`) fixes three things: the code length
(hence the modulus `10^size`), the window size and the 30 s time step. The
enrolment result (`Credentials`) is an immutable bundle.

The model is split into these files:

| file | module | contents |
|---|---|---|
| `java_num.dfy` | `JavaNum` | Java's `int`, `long` and `byte` on unbounded integers: 32-bit wrap-around, truncating division, the `& 0x7FFFFFFF` mask, big-endian byte strings, and the arithmetic facts about them |
| `errors.dfy` | `Errors` | the exceptions raised or passed through, and `Result` |
| `collaborators.dfy` | `Collaborators` | HMAC-SHA1 and Base32 as function-valued parameters; `SecureRandom` as a class that reads a fixed byte stream |
| `configuration.dfy` | `Config` | `Configuration` and `(int) Math.pow(10, size)` |
| `credentials.dfy` | `Creds` | `Credentials` |
| `code_derivation.dfy` | `CodeDerivation` | the counter message, dynamic truncation, and the code as a function (`AuthCode`) |
| `verification.dfy` | `Verification` | time steps, the searched window, and `isAuthorized` as a function (`Authorize`) |
| `enrolment.dfy` | `Enrolment` | backup codes, and `createCredentials` as a function of the random stream (`IssueCredentials`) |
| `authenticator.dfy` | `Authentication` | class `Authenticator`, whose methods follow the Java loops step by step and are proved equal to the functions above |

Some details of the code are easy to misread:

- **Window.** `isAuthorized` searches the step offsets
  `-((w - 1) / 2) .. w / 2` (Java division; `w - 1` is 32-bit). That range
  includes future steps. The default `w` is 3, which gives the previous, the
  current and the next step. For a negative `w` no step is searched.
- **Backup codes.** There are 5 of them.
- **Backup-code modulus.** `SECURE_CODE_MODULUS` is `10^8`. In Java, `^` is
  exclusive-or, so the constant is 2, not 100 000 000. As a result, every
  backup code is 0 or 1: it is the lowest bit of the fourth byte drawn. The
  acceptance test `code != -1 && code >= 2 / 10` then always holds, so the
  `while (true)` loop runs exactly once.
- **Secret and digest bytes.** The secret is the 10 drawn bytes unchanged.
  Digest bytes are read with `& 0xFF`. No other normalisation is applied.
- **Modulus.** `(int) Math.pow(10, size)` is 0 for a negative size and
  `Integer.MAX_VALUE` for a size of 10 or more. With modulus 0,
  `createAuthCode` throws `ArithmeticException` after the HMAC set-up
  succeeds. `isAuthorized` refuses every
  code before reaching it.

## Model

| member | source | states |
|---|---|---|
| JavaNum.WrapInt32 | Authenticator.java:96 | the wrapped value is a Java `int` congruent to the exact value modulo 2^32, and equal to it when it is in range |
| JavaNum.MaskLow31 | Authenticator.java:62 | `& 0x7FFFFFFF` gives a value below 2^31 that agrees with its input modulo 2^31 |
| JavaNum.BigEndian | Authenticator.java:56-60 | the value of n bytes read most-significant first is below 256^n |
| JavaNum.BigEndianOfBytes | Authenticator.java:43-48 | reading back the n-byte big-endian image of u gives u modulo 256^n |
| JavaNum.BytesOfBigEndian | Authenticator.java:56-60 | every byte string is the big-endian image of its own value (the inverse direction) |
| JavaNum.JavaDiv | Authenticator.java:96 | definition of Java's `/` by a positive divisor, truncating toward zero (also lines 108 and 130); its property is stated by JavaDivVersusEuclidean and, for the time step, by WindowFromTime |
| JavaNum.BigEndianBytes | Authenticator.java:46-47 | definition of the n-byte big-endian image that `(byte) value` with `value >>>= 8` writes; it has n bytes, and BigEndianOfBytes and BytesOfBigEndian state that it inverts BigEndian |
| JavaNum.JavaDivVersusEuclidean | Authenticator.java:108 | Java's truncating `/` equals Euclidean division, except for a negative dividend with a remainder, where it is one more |
| JavaNum.MaskLow31OfWrap | Authenticator.java:125-128 | masking bit 31 off a 32-bit wrapped value gives the same result as masking the exact value |
| JavaNum.WrapInt32Congruent | Authenticator.java:125 | 32-bit wrap-around depends only on the value modulo 2^32 |
| JavaNum.Pow10Monotone | Configuration.java:23 | powers of ten grow with the exponent |
| Collaborators.Take | Authenticator.java:69-70 | a draw of n bytes is n consecutive bytes of the stream |
| Collaborators.SecureRandom.constructor | Authenticator.java:30 | `new SecureRandom()`: a generator over its byte stream with nothing drawn yet |
| Collaborators.SecureRandom.NextBytes | Authenticator.java:70 | the buffer receives the next `buffer.Length` bytes of the stream, and the position advances by that many |
| Config.CodeModulus | Configuration.java:23 | `(int) Math.pow(10, size)`: 10^size for sizes 0..9, `Integer.MAX_VALUE` above, 0 for a negative size; positive exactly when the size is not negative |
| Config.DefaultConfiguration | Configuration.java:7-8 | the no-argument configuration has 6-digit codes, modulus 1 000 000 and window 3 |
| Config.ConfigurationGetters | Configuration.java:20-40 | the getters return the constructor's arguments, the modulus 10^size and the 30 000 ms step |
| Config.EightDigitModulus | Configuration.java:23 | 8-digit codes have the modulus 100 000 000 |
| Creds.CredentialsGetters | Credentials.java:13-34 | each getter returns its constructor argument, the backup-code list with its order and length |
| CodeDerivation.CounterBytes | Authenticator.java:43-48 | the HMAC message for a counter has 8 bytes |
| CodeDerivation.CounterByteStep | Authenticator.java:46-47 | one turn of the fill loop: `(byte) value` is the next message byte from the end, and `value >>>= 8` shifts the counter one more byte |
| CodeDerivation.CounterBytesRoundTrip | Authenticator.java:43-48 | the 8 message bytes reassemble to the counter modulo 2^64: the counter itself when it is not negative, counter + 2^64 when it is negative |
| CodeDerivation.CounterBytesInjective | Authenticator.java:43-48 | distinct counters give distinct messages |
| CodeDerivation.CounterBytesSign | Authenticator.java:43-48 | the first byte is at least 0x80 exactly for a negative counter, and it is 0xFF for a negative counter not below -2^56 |
| CodeDerivation.SmallNegativeCounterBytes | Authenticator.java:43-48 | a counter in [-256, 0) is seven 0xFF bytes followed by counter + 256 |
| CodeDerivation.HighBytesAllOnes | Authenticator.java:46-47 | every byte above the lowest of a value in [2^64 - 256, 2^64) is 0xFF |
| CodeDerivation.TruncationOffset | Authenticator.java:54 | the offset is at most 15, so the four bytes read from it lie inside the 20-byte digest |
| CodeDerivation.DynamicTruncation | Authenticator.java:56-62 | the truncated value is below 2^31 |
| CodeDerivation.DynamicTruncationIsRfc4226 | Authenticator.java:53-62 | the truncation equals the RFC 4226 formula: `d[o] & 0x7f`, `d[o+1]`, `d[o+2]` and `d[o+3]` as the bytes of a 31-bit value, most significant first |
| CodeDerivation.AuthCode | Authenticator.java:40-66 | a code exists exactly when the HMAC accepts the key and the modulus is not 0; a code lies in [0, modulus); a key the HMAC rejects gives that exception |
| CodeDerivation.AuthCodeIsHotp | Authenticator.java:40-66 | a successful code is the RFC 4226 truncation of the HMAC of the counter's big-endian image, modulo the modulus |
| Authentication.Authenticator.constructor | Authenticator.java:28-31 | the authenticator keeps the given configuration and owns a fresh generator at stream position 0 |
| Authentication.Authenticator.Default | Authenticator.java:24-26 | the no-argument authenticator uses the default configuration |
| Authentication.Authenticator.CreateAuthCode | Authenticator.java:40-66 | the byte-by-byte fill loop, the HMAC call, the truncation loop, the mask and the remainder compute exactly `AuthCode` for the configured modulus, exceptions included |
| Authentication.Authenticator.CreateAuthCodeForTime | Authenticator.java:33-38 | the code of a Base32 secret at a time is `AuthCode` of the decoded key at that time's step |
| Verification.WindowFromTime | Authenticator.java:107-109 | the step is time / 30 000 truncated toward zero: rounded down for a non-negative time, rounded up for a negative time; its magnitude is strictly below 2^63 / 30 000 + 1, so adding a window offset cannot overflow a `long` |
| Verification.WindowFromTimeExamples | Authenticator.java:107-109 | 59 999 ms is step 1, 60 000 ms is step 2, -1 ms is step 0, -30 000 ms is step -1 |
| Verification.WindowFromTimeMonotone | Authenticator.java:107-109 | a later time never has an earlier step |
| Verification.WindowShape | Authenticator.java:96 | for w >= 1 the window has exactly w steps and holds the current one, with the extra step on the future side when w is even; w = 0 searches only the current step; a negative w searches nothing; every offset fits in an `int` |
| Verification.WindowLow | Authenticator.java:96 | definition of the first offset searched, `-((w - 1) / 2)` with the 32-bit `w - 1`; its properties are stated by WindowShape |
| Verification.WindowHigh | Authenticator.java:96 | definition of the last offset searched, `w / 2`; its properties are stated by WindowShape |
| Verification.DefaultWindow | Authenticator.java:96 | w = 3 searches offsets -1..1, w = 1 searches 0, w = 2 searches 0..1 |
| Verification.StepPlusOffsetIsLong | Authenticator.java:97 | `timeWindow + i` never overflows a `long` |
| Verification.SearchWindow | Authenticator.java:96-104 | definition of the loop over offsets i..hi as a recursive function; SearchWindowFindsMatch states what it answers |
| Verification.SearchWindowStep | Authenticator.java:96-102 | the offset being searched decides the outcome (exception, or a match), or the search continues at the next offset |
| Verification.SearchWindowFindsMatch | Authenticator.java:96-104 | for a key the HMAC accepts, the search answers true exactly when some offset in range has a matching code |
| Verification.Authorize | Authenticator.java:83-105 | definition of `isAuthorized` as a function of its inputs; its properties are stated by AuthorizeIffCodeInWindow, CurrentCodeAccepted, NullSecretRejected, OutOfRangeCodeRefused, NegativeWindowRejectsAll, RejectedKeyPropagates and EmptyKeyRejected |
| Verification.AuthorizeIffCodeInWindow | Authenticator.java:83-105 | for a non-null secret, a code strictly between 0 and the modulus, and a key the HMAC accepts, `isAuthorized` is true exactly when the code of some step in `[step - (w - 1) / 2, step + w / 2]` equals the submitted code |
| Verification.CurrentCodeAccepted | Authenticator.java:83-105 | the non-zero code of the current step is accepted whenever the window is not negative |
| Verification.NullSecretRejected | Authenticator.java:86-88 | a null secret raises IllegalArgumentException |
| Verification.OutOfRangeCodeRefused | Authenticator.java:90-92 | a code that is not positive or not below the modulus is refused with false, whatever the HMAC and Base32 do |
| Verification.NegativeWindowRejectsAll | Authenticator.java:96-104 | a negative window accepts nothing |
| Verification.RejectedKeyPropagates | Authenticator.java:94-97 | a key the HMAC rejects makes a well-formed request raise that exception whenever the window is not negative |
| Verification.EmptyKeyRejected | Authenticator.java:94-97 | a secret that decodes to no bytes, with an HMAC whose key set-up rejects the empty key (as `SecretKeySpec` at line 51 does), makes a well-formed request raise IllegalArgumentException whenever the window is not negative |
| Authentication.Authenticator.IsAuthorized | Authenticator.java:83-105 | the checks and the loop over the window compute exactly `Authorize`, stopping at the first match or exception |
| Enrolment.SecureCodeModulusIsTwo | Authenticator.java:19 | `10^8` in Java is 2, and 2 / 10 is 0 |
| Enrolment.SecureCode | Authenticator.java:123-128 | a backup code lies in [0, SECURE_CODE_MODULUS) |
| Enrolment.SecureCodeFoldStep | Authenticator.java:124-126 | one turn of `(secureCode << 8) + (b & 0xff)` keeps the wrapped big-endian value of the bytes read so far |
| Enrolment.SecureCodeOfFold | Authenticator.java:123-130 | the folded, masked and reduced value is the backup code, and the acceptance test holds for it |
| Enrolment.Accepted | Authenticator.java:130 | definition of the acceptance test `code != -1 && code >= SECURE_CODE_MODULUS / 10`; SecureCodeIsLastBit and SecureCodeOfFold state that every backup code passes it |
| Enrolment.SecureCodeIsLastBit | Authenticator.java:118-133 | every backup code is the lowest bit of the fourth byte drawn, hence 0 or 1, and always passes the acceptance test |
| Enrolment.BackupCodes | Authenticator.java:111-116 | the backup codes are 5 in number |
| Enrolment.IssueCredentials | Authenticator.java:68-81 | definition of `createCredentials` as a function of the random stream and the index of the next unread byte; IssuedCredentials states what it hands out |
| Enrolment.IssuedCredentials | Authenticator.java:68-81 | enrolment fails exactly when deriving the code at counter 0 fails (after drawing only the 10 secret bytes); otherwise it draws 30 bytes and returns the configuration, the Base32 text of the 10 bytes, their code at counter 0 (in range) and 5 backup codes, each the low bit of its fourth byte |
| Authentication.Authenticator.CreateRandomSecureCode | Authenticator.java:118-134 | the rejection loop draws exactly four bytes and returns their backup code |
| Authentication.Authenticator.GetRandomSecureCodes | Authenticator.java:111-116 | five draws give `BackupCodes` of the stream, in order, consuming 20 bytes |
| Authentication.Authenticator.CreateCredentials | Authenticator.java:68-81 | the outcome and the generator's new position are exactly `IssueCredentials` of the stream at its old position |

## Left out

- HMAC-SHA1 internals: the digest is a parameter (`HmacSha1.doFinal`), and the
  exceptions of `Mac.getInstance` and `Mac.init` are a parameter of the key
  (`HmacSha1.init`). Nothing about SHA-1 itself is proved.
- Base32: `encode` and `decode` are parameters. Their round trip and the
  handling of malformed text (the Base32 class) are not part of this model.
- SecureRandom: only the order in which bytes are consumed is modelled. The
  byte stream is a parameter; its distribution, seeding and thread safety are
  not modelled.
- QRCode.java: not part of this model.
- Null arguments other than the secret of `isAuthorized`. A null configuration
  makes `createAuthCode` throw a NullPointerException at line 63 of
  Authenticator.java once the HMAC set-up succeeds. It makes `isAuthorized`
  throw one at line 90 for a non-null secret and a positive code. A
  non-positive code still returns false. A null
  key in the byte overload of `createAuthCode` makes `SecretKeySpec` throw
  IllegalArgumentException. What a null text secret does in the other overload
  depends on the Base32 class. The model's types exclude null. An empty key,
  which `SecretKeySpec` also rejects, is covered by `HmacSha1.init`.
- Credentials: `Collections.unmodifiableList` is a read-only view of the
  caller's list, so a later change to that list would show through. The model
  stores the list as a value, which removes that aliasing.
- `truncatedHash |= (b & 0xFF)` after `<<= 8` is modelled as an addition.
  This is exact, because the low byte is clear after the shift.
- The Java streams pipeline in `getRandomSecureCodes` is modelled as a loop of
  five draws, in order. The returned list's mutability is not modelled.
- Concurrency: nothing about concurrent calls on one authenticator, which
  share its generator, is modelled.
