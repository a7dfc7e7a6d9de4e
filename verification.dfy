/**
 * Verification of a submitted code: time quantisation, the window of time
 * steps that is searched, and the outcome of isAuthorized as a function.
 */
module Verification {
  import opened JavaNum
  import opened Errors
  import opened Collaborators
  import opened Config
  import opened CodeDerivation

  /** One more than the largest magnitude of a time step obtained from a `long` time. */
  const MAX_STEP: int := 0x8000_0000_0000_0000 / 30_000 + 1

  /** The time step of `time` milliseconds: `time / 30000` with Java's truncating division. */
  function WindowFromTime(time: Int64): (step: int)
    ensures step * TIME_STEP_SIZE <= time < (step + 1) * TIME_STEP_SIZE || time < 0
    ensures (step - 1) * TIME_STEP_SIZE < time <= step * TIME_STEP_SIZE || time >= 0
    ensures Abs(step) < MAX_STEP
  {
    JavaDiv(time, TIME_STEP_SIZE)
  }

  /** Worked examples: 59 999 ms is step 1, 60 000 ms is step 2, and -1 ms truncates to step 0. */
  lemma WindowFromTimeExamples()
    ensures WindowFromTime(59_999) == 1
    ensures WindowFromTime(60_000) == 2
    ensures WindowFromTime(-1) == 0
    ensures WindowFromTime(-30_000) == -1
  {
  }

  /** Time steps never decrease as time advances. */
  lemma WindowFromTimeMonotone(t1: Int64, t2: Int64)
    requires t1 <= t2
    ensures WindowFromTime(t1) <= WindowFromTime(t2)
  {
  }

  /** The first offset searched: `-((w - 1) / 2)`, with the 32-bit `w - 1` and Java division. */
  function WindowLow(w: Int32): int {
    -JavaDiv(WrapInt32(w - 1), 2)
  }

  /** The last offset searched: `w / 2` with Java division. */
  function WindowHigh(w: Int32): int {
    JavaDiv(w, 2)
  }

  /**
   * The shape of the window for an interval window `w`: for w >= 1 it holds
   * exactly w consecutive steps and contains the current one, the future side
   * taking the extra step when w is even; w = 0 searches the current step
   * alone; a negative w searches nothing. All offsets fit in an `int`.
   */
  lemma WindowShape(w: Int32)
    ensures w >= 1 ==> WindowHigh(w) - WindowLow(w) + 1 == w
    ensures w >= 0 ==> WindowLow(w) <= 0 <= WindowHigh(w)
    ensures w >= 0 ==> WindowHigh(w) == -WindowLow(w) + (if w % 2 == 0 && w > 0 then 1 else 0)
    ensures w == 0 ==> WindowLow(w) == 0 == WindowHigh(w)
    ensures w < 0 ==> WindowLow(w) > WindowHigh(w)
    ensures -0x4000_0000 <= WindowLow(w) <= 0x4000_0000 && -0x4000_0000 <= WindowHigh(w) < 0x4000_0000
  {
    if w > 0 {
      JavaDivVersusEuclidean(w - 1, 2);
      JavaDivVersusEuclidean(w, 2);
    } else if w < 0 {
      JavaDivVersusEuclidean(w, 2);
      if w == -0x8000_0000 {
        assert WrapInt32(w - 1) == 0x7FFF_FFFF;
      } else {
        JavaDivVersusEuclidean(w - 1, 2);
      }
    }
  }

  /** The window for the default w = 3 is the previous, the current and the next step. */
  lemma DefaultWindow()
    ensures WindowLow(DEFAULT_INTERVAL_WINDOW) == -1 && WindowHigh(DEFAULT_INTERVAL_WINDOW) == 1
    ensures WindowLow(1) == 0 && WindowHigh(1) == 0
    ensures WindowLow(2) == 0 && WindowHigh(2) == 1
  {
  }

  /** `step + i` is a `long` for every offset `i` of any window around a time step. */
  lemma StepPlusOffsetIsLong(step: int, i: int)
    requires Abs(step) <= MAX_STEP && -0x4000_0000 <= i <= 0x4000_0000
    ensures InInt64(step + i)
  {
  }

  /** The code of step `step + i` is `authCode`. */
  predicate CodeMatchesAt(mac: HmacSha1, modulus: Int32, key: Bytes, step: int, authCode: Int32, i: int)
    requires modulus >= 0
  {
    InInt64(step + i) && AuthCode(mac, modulus, key, step + i) == Ok(authCode)
  }

  /**
   * The search over the offsets i..hi: the first HMAC exception met, true at
   * the first offset whose code equals `authCode`, false when none does.
   */
  function SearchWindow(mac: HmacSha1, modulus: Int32, key: Bytes, step: int, authCode: Int32, i: int, hi: int): Result<bool>
    requires modulus >= 0
    requires Abs(step) <= MAX_STEP && -0x4000_0000 <= i && hi <= 0x4000_0000
    decreases hi - i
  {
    if i > hi then Ok(false)
    else
      match AuthCode(mac, modulus, key, step + i)
      case Err(e) => Err(e)
      case Ok(code) => if code == authCode then Ok(true) else SearchWindow(mac, modulus, key, step, authCode, i + 1, hi)
  }

  /** One step of the search: the offset `i` decides the outcome, or the search goes on at `i + 1`. */
  lemma SearchWindowStep(mac: HmacSha1, modulus: Int32, key: Bytes, step: int, authCode: Int32, i: int, hi: int)
    requires modulus >= 0
    requires Abs(step) <= MAX_STEP && -0x4000_0000 <= i <= hi <= 0x4000_0000
    ensures var c := AuthCode(mac, modulus, key, step + i);
      && (c.Err? ==> SearchWindow(mac, modulus, key, step, authCode, i, hi) == Err(c.error))
      && (c.Ok? && c.value == authCode ==> SearchWindow(mac, modulus, key, step, authCode, i, hi) == Ok(true))
      && (c.Ok? && c.value != authCode ==>
            SearchWindow(mac, modulus, key, step, authCode, i, hi) == SearchWindow(mac, modulus, key, step, authCode, i + 1, hi))
  {
  }

  /** isAuthorized as a function of its inputs; `None` stands for a null secret. */
  function Authorize(mac: HmacSha1, base32: Base32, config: Configuration,
                     encodedSecretKey: Option<string>, authCode: Int32, time: Int64): Result<bool>
  {
    if encodedSecretKey.None? then Err(IllegalArgument)
    else if authCode <= 0 || authCode >= config.GetAuthCodeModulus() then Ok(false)
    else
      var key := base32.decode(encodedSecretKey.value);
      var w := config.GetIntervalWindow();
      WindowShape(w);
      SearchWindow(mac, config.GetAuthCodeModulus(), key, WindowFromTime(time), authCode, WindowLow(w), WindowHigh(w))
  }

  /** With a key the HMAC accepts, the search finds a match exactly when some offset in i..hi has one. */
  lemma {:induction false} SearchWindowFindsMatch(mac: HmacSha1, modulus: Int32, key: Bytes, step: int, authCode: Int32, i: int, hi: int)
    requires 0 < modulus && mac.init(key).None?
    requires Abs(step) <= MAX_STEP && -0x4000_0000 <= i && hi <= 0x4000_0000
    ensures SearchWindow(mac, modulus, key, step, authCode, i, hi)
      == Ok(exists j :: i <= j <= hi && CodeMatchesAt(mac, modulus, key, step, authCode, j))
    decreases hi - i
  {
    if i <= hi {
      StepPlusOffsetIsLong(step, i);
      if !CodeMatchesAt(mac, modulus, key, step, authCode, i) {
        SearchWindowFindsMatch(mac, modulus, key, step, authCode, i + 1, hi);
        if exists j :: i <= j <= hi && CodeMatchesAt(mac, modulus, key, step, authCode, j) {
          var j :| i <= j <= hi && CodeMatchesAt(mac, modulus, key, step, authCode, j);
          assert j != i;
        }
      }
    }
  }

  /**
   * isAuthorized, for a non-null secret, a code strictly between 0 and the
   * modulus and a key the HMAC accepts, is true exactly when the code of some
   * step in [step - (w - 1) / 2, step + w / 2] equals the submitted code.
   */
  lemma AuthorizeIffCodeInWindow(mac: HmacSha1, base32: Base32, config: Configuration,
                                 secret: string, authCode: Int32, time: Int64)
    requires 0 < authCode < config.GetAuthCodeModulus()
    requires mac.init(base32.decode(secret)).None?
    ensures var key := base32.decode(secret);
      var step := WindowFromTime(time);
      var w := config.GetIntervalWindow();
      Authorize(mac, base32, config, Some(secret), authCode, time)
        == Ok(exists i :: WindowLow(w) <= i <= WindowHigh(w)
                && CodeMatchesAt(mac, config.GetAuthCodeModulus(), key, step, authCode, i))
  {
    var w := config.GetIntervalWindow();
    WindowShape(w);
    SearchWindowFindsMatch(mac, config.GetAuthCodeModulus(), base32.decode(secret), WindowFromTime(time),
                           authCode, WindowLow(w), WindowHigh(w));
  }

  /** The code of the current step is accepted whenever the window is not negative and the code is not 0. */
  lemma CurrentCodeAccepted(mac: HmacSha1, base32: Base32, config: Configuration, secret: string, time: Int64)
    requires config.GetIntervalWindow() >= 0 && config.GetAuthCodeModulus() > 0
    requires var c := AuthCode(mac, config.GetAuthCodeModulus(), base32.decode(secret), WindowFromTime(time));
      c.Ok? && c.value != 0
    ensures Authorize(mac, base32, config, Some(secret),
                      AuthCode(mac, config.GetAuthCodeModulus(), base32.decode(secret), WindowFromTime(time)).value,
                      time) == Ok(true)
  {
    var w := config.GetIntervalWindow();
    WindowShape(w);
    AuthorizeIffCodeInWindow(mac, base32, config, secret,
      AuthCode(mac, config.GetAuthCodeModulus(), base32.decode(secret), WindowFromTime(time)).value, time);
    assert CodeMatchesAt(mac, config.GetAuthCodeModulus(), base32.decode(secret), WindowFromTime(time),
      AuthCode(mac, config.GetAuthCodeModulus(), base32.decode(secret), WindowFromTime(time)).value, 0);
  }

  /**
   * A secret that decodes to no bytes, with an HMAC whose key set-up rejects
   * the empty key as `SecretKeySpec` does, makes a well-formed request raise
   * IllegalArgumentException whenever the window is not negative.
   */
  lemma EmptyKeyRejected(mac: HmacSha1, base32: Base32, config: Configuration,
                         secret: string, authCode: Int32, time: Int64)
    requires 0 < authCode < config.GetAuthCodeModulus() && config.GetIntervalWindow() >= 0
    requires base32.decode(secret) == [] && mac.init([]) == Some(IllegalArgument)
    ensures Authorize(mac, base32, config, Some(secret), authCode, time) == Err(IllegalArgument)
  {
    RejectedKeyPropagates(mac, base32, config, secret, authCode, time);
  }

  /** A null secret is an IllegalArgumentException, whatever else is given. */
  lemma NullSecretRejected(mac: HmacSha1, base32: Base32, config: Configuration, authCode: Int32, time: Int64)
    ensures Authorize(mac, base32, config, None, authCode, time) == Err(IllegalArgument)
  {
  }

  /**
   * A code that is not positive or not below the modulus is refused before the
   * secret is decoded or any HMAC is computed: the answer is false whatever the
   * two primitives do. In particular a derived code equal to 0 is never accepted.
   */
  lemma OutOfRangeCodeRefused(mac1: HmacSha1, base1: Base32, mac2: HmacSha1, base2: Base32,
                              config: Configuration, secret: string, authCode: Int32, time: Int64)
    requires authCode <= 0 || authCode >= config.GetAuthCodeModulus()
    ensures Authorize(mac1, base1, config, Some(secret), authCode, time)
         == Authorize(mac2, base2, config, Some(secret), authCode, time)
         == Ok(false)
  {
  }

  /** A negative interval window searches no step, so nothing is accepted and the HMAC is never consulted. */
  lemma NegativeWindowRejectsAll(mac: HmacSha1, base32: Base32, config: Configuration,
                                 secret: string, authCode: Int32, time: Int64)
    requires config.GetIntervalWindow() < 0
    ensures Authorize(mac, base32, config, Some(secret), authCode, time) == Ok(false)
  {
    WindowShape(config.GetIntervalWindow());
  }

  /** A key the HMAC rejects makes a well-formed request fail with that exception when the window is not empty. */
  lemma RejectedKeyPropagates(mac: HmacSha1, base32: Base32, config: Configuration,
                              secret: string, authCode: Int32, time: Int64)
    requires 0 < authCode < config.GetAuthCodeModulus() && config.GetIntervalWindow() >= 0
    requires mac.init(base32.decode(secret)).Some?
    ensures Authorize(mac, base32, config, Some(secret), authCode, time)
         == Err(mac.init(base32.decode(secret)).value)
  {
    WindowShape(config.GetIntervalWindow());
  }
}
