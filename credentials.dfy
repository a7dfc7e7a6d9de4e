/** The immutable bundle handed out at enrolment. */
module Creds {
  import opened JavaNum
  import opened Config

  /**
   * `Credentials(configuration, secretKey, verificationCode, possibles)`: every
   * field is final and the list of backup codes is a value, so nothing can
   * change it after construction.
   */
  datatype Credentials = Credentials(
    configuration: Configuration,
    secretKey: string,
    verificationCode: Int32,
    randomSecureCodes: seq<Int32>)
  {
    function GetConfiguration(): Configuration {
      configuration
    }

    function GetSecretKey(): string {
      secretKey
    }

    function GetVerificationCode(): Int32 {
      verificationCode
    }

    function GetRandomSecureCodes(): seq<Int32> {
      randomSecureCodes
    }
  }

  /** Each getter returns the corresponding constructor argument unchanged, the list with its order. */
  lemma CredentialsGetters(configuration: Configuration, secretKey: string, verificationCode: Int32, possibles: seq<Int32>)
    ensures var c := Credentials(configuration, secretKey, verificationCode, possibles);
      && c.GetConfiguration() == configuration
      && c.GetSecretKey() == secretKey
      && c.GetVerificationCode() == verificationCode
      && |c.GetRandomSecureCodes()| == |possibles|
      && forall i :: 0 <= i < |possibles| ==> c.GetRandomSecureCodes()[i] == possibles[i]
  {
  }
}
