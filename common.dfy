/**
 * Types shared by every part of the socket library model: bytes, the
 * optional and fallible result wrappers, the error taxonomy (one
 * constructor per exception the library throws) and the configuration
 * constants of the I/O loops.
 */
module Common {

  /** An octet, as `std::byte`. */
  newtype byte = x: int | 0 <= x < 256

  datatype Option<T> = None | Some(value: T)

  /** The value of an operation that returns something or throws. */
  datatype Result<T> = Ok(value: T) | Err(error: Error)

  /** The value of an operation that returns nothing or throws. */
  datatype Outcome = Pass | Fail(error: Error)

  /**
   * What the library throws.  Socket-setup failures keep the step that
   * failed; I/O failures keep the OS or engine error code they carry.
   */
  datatype Error =
    // configuration misuse
    | AlreadyConfigured
    | NotConnected
    | NotListening
    // native socket setup steps
    | CreateFailed
    | ResolveFailed
    | AddressFailed
    | BindFailed
    | NonBlockingFailed
    | ListenFailed
    | ConnectFailed
    | AcceptFailed
    // native socket I/O
    | SendFailed(code: int)
    | ReceiveFailed(code: int)
    | Disconnected
    // retry/backoff read algorithms
    | Expired
    | Excess
    // base64
    | Base64Length
    | Base64Alphabet
    // Windows socket library start-up
    | WsaStartupFailed(code: int)
    | WsaWrongVersion
    // TLS
    | ContextAllocFailed
    | SessionAllocFailed
    | SessionBindFailed
    | AlreadyHandshaken
    | HandshakeFailed
    | HandshakeError(code: int)
    | TlsTimeout
    | IncompleteWrite
    | TlsWriteError(code: int)
    | TlsReadError(code: int)
    | IncompatibleHandshakeStates
    | CertificateError
    | KeyError
    | KeyMismatch

  /**
   * The tunables of the I/O loops, all in milliseconds or bytes:
   * the minimum and maximum wait step, the packet (block) size, the
   * number of consecutive would-block retries tolerated and the TLS I/O
   * timeout.  The shipped values are 25 ms, 250 ms, 8192 bytes and 100
   * retries.
   */
  datatype Config = Config(stepMin: nat, stepMax: nat, packetSize: nat, maxRetry: nat, ioTimeout: nat)
  {
    predicate Valid() {
      0 < stepMin <= stepMax && packetSize > 0 && maxRetry > 0
    }
  }

  /** Concatenation of a sequence of byte strings, in order. */
  function Concat(chunks: seq<seq<byte>>): seq<byte>
  {
    if chunks == [] then [] else Concat(chunks[..|chunks| - 1]) + chunks[|chunks| - 1]
  }

  /** One more chunk appends that chunk. */
  lemma ConcatStep(chunks: seq<seq<byte>>, k: nat)
    requires k < |chunks|
    ensures Concat(chunks[..k + 1]) == Concat(chunks[..k]) + chunks[k]
  {
    assert chunks[..k + 1][..k] == chunks[..k];
  }

  /** The concatenation of fewer chunks is a prefix of the concatenation of more. */
  lemma {:induction false} ConcatPrefix(chunks: seq<seq<byte>>, k: nat, j: nat)
    requires k <= j <= |chunks|
    ensures |Concat(chunks[..k])| <= |Concat(chunks[..j])|
    ensures Concat(chunks[..j])[..|Concat(chunks[..k])|] == Concat(chunks[..k])
    decreases j
  {
    if k < j {
      ConcatPrefix(chunks, k, j - 1);
      ConcatStep(chunks, j - 1);
    }
  }
}
