/** The immutable policy object of the authenticator: code length, time step and verification window. */
module Config {
  import opened JavaNum

  const DEFAULT_AUTH_CODE_SIZE: Int32 := 6
  const DEFAULT_INTERVAL_WINDOW: Int32 := 3
  /** 30 seconds in milliseconds. */
  const TIME_STEP_SIZE: Int64 := 30_000
  const INT32_MAX: Int32 := 0x7FFF_FFFF

  /**
   * `(int) Math.pow(10, authCodeSize)`. Math.pow is exact on integral powers
   * that a double represents, so 10^n for 0 <= n <= 9 is exact; a negative n
   * gives a value in (0, 1) that the cast truncates to 0; n >= 10 gives at
   * least 10^10, which the cast saturates to Integer.MAX_VALUE.
   */
  function CodeModulus(authCodeSize: Int32): (m: Int32)
    ensures m >= 0
    ensures m > 0 <==> authCodeSize >= 0
    ensures 0 <= authCodeSize <= 9 ==> m == Pow10(authCodeSize)
    ensures authCodeSize > 9 ==> m == INT32_MAX
  {
    if authCodeSize < 0 then 0
    else if authCodeSize <= 9 then
      Pow10Monotone(authCodeSize, 9);
      Pow10(authCodeSize)
    else INT32_MAX
  }

  /**
   * A configuration built by `Configuration(authCodeSize, intervalWindow)`.
   * Its fields are final; the modulus the Java constructor stores is a
   * function of `authCodeSize`, so it is derived here rather than stored.
   */
  datatype Configuration = Configuration(authCodeSize: Int32, intervalWindow: Int32) {

    function GetIntervalWindow(): Int32 {
      intervalWindow
    }

    function GetAuthCodeSize(): Int32 {
      authCodeSize
    }

    function GetAuthCodeModulus(): Int32 {
      CodeModulus(authCodeSize)
    }

    function GetTimeStepSize(): Int64 {
      TIME_STEP_SIZE
    }
  }

  /** The no-argument constructor. */
  function DefaultConfiguration(): (c: Configuration)
    ensures c.GetAuthCodeSize() == 6 && c.GetIntervalWindow() == 3
    ensures c.GetAuthCodeModulus() == 1_000_000
  {
    Configuration(DEFAULT_AUTH_CODE_SIZE, DEFAULT_INTERVAL_WINDOW)
  }

  /** The getters return the constructor's arguments, the derived modulus and the fixed 30 s step. */
  lemma ConfigurationGetters(authCodeSize: Int32, intervalWindow: Int32)
    ensures var c := Configuration(authCodeSize, intervalWindow);
      && c.GetAuthCodeSize() == authCodeSize
      && c.GetIntervalWindow() == intervalWindow
      && c.GetTimeStepSize() == 30_000
      && (0 <= authCodeSize <= 9 ==> c.GetAuthCodeModulus() == Pow10(authCodeSize))
  {
  }

  /** Eight-digit codes have the modulus 10^8. */
  lemma EightDigitModulus(intervalWindow: Int32)
    ensures Configuration(8, intervalWindow).GetAuthCodeModulus() == 100_000_000
  {
  }
}
