/**
 * The primitives the authenticator consumes but does not implement: HMAC-SHA1,
 * the Base32 text encoding and a secure random byte generator. None of their
 * internals is modelled; each is a parameter of the model.
 */
module Collaborators {
  import opened JavaNum
  import opened Errors

  /** An HMAC-SHA1 output: always 20 bytes. */
  type Digest = s: Bytes | |s| == 20 witness seq(20, _ => 0)

  /**
   * HMAC-SHA1 as two uninterpreted functions. `init(key)` is the exception that
   * building the `SecretKeySpec` for `key`, obtaining the "HmacSHA1" Mac and
   * initialising it raise, or None; it depends on the key only. It covers the
   * IllegalArgumentException that `SecretKeySpec` throws for an empty key,
   * which `isAuthorized` meets when a secret decodes to no bytes.
   * `doFinal(key, message)` is the digest.
   */
  datatype HmacSha1 = HmacSha1(init: Bytes -> Option<Error>, doFinal: (Bytes, Bytes) -> Digest)

  datatype Option<+T> = None | Some(value: T)

  /** The Base32 text encoding of secret keys, both directions left opaque. */
  datatype Base32 = Base32(encode: Bytes -> string, decode: string -> Bytes)

  /** `n` consecutive bytes of `stream`, starting at index `from`. */
  function Take(stream: nat -> Byte, from: nat, n: nat): (s: Bytes)
    ensures |s| == n
    ensures forall k :: 0 <= k < n ==> s[k] == stream(from + k)
  {
    seq(n, k requires 0 <= k < n => stream(from + k))
  }

  /**
   * A secure random generator seen as the sequence of bytes it will produce,
   * `stream`, and the number of bytes drawn so far. Nothing is assumed about
   * the bytes themselves.
   */
  class SecureRandom {
    const stream: nat -> Byte
    var position: nat

    constructor (stream: nat -> Byte)
      ensures this.stream == stream && position == 0
    {
      this.stream := stream;
      position := 0;
    }

    /** Fills `buffer` with the next `buffer.Length` bytes of the stream. */
    method NextBytes(buffer: array<Byte>)
      modifies this, buffer
      ensures buffer[..] == Take(stream, old(position), buffer.Length)
      ensures position == old(position) + buffer.Length
    {
      forall k | 0 <= k < buffer.Length {
        buffer[k] := stream(position + k);
      }
      position := position + buffer.Length;
    }
  }
}
