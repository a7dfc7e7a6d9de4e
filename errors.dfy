/** The exceptions the authenticator raises or lets through, and a result type carrying them. */
module Errors {

  datatype Error =
    | IllegalArgument   // IllegalArgumentException
    | InvalidKey        // java.security.InvalidKeyException
    | NoSuchAlgorithm   // java.security.NoSuchAlgorithmException
    | Arithmetic        // ArithmeticException: integer remainder by zero

  datatype Result<+T> = Ok(value: T) | Err(error: Error)
}
