/**
 * Shared vocabulary of the signature model: bytes, optional values and the
 * failure-carrying result used wherever the Java code throws.
 */
module Base {

  /** One octet of signature data. */
  type byte = x: int | 0 <= x < 256

  type bytes = seq<byte>

  datatype Option<+T> = None | Some(value: T)

  /**
   * The ways the core can fail. `Eof` is the "Unexpected EOF in signature
   * data" exception, `UnsupportedVersion` and `TrailingData` are the other two
   * format errors of `ScalaSig.parse`; the remaining kinds stand for the Java
   * runtime exceptions `Table.replace` can raise on inconsistent data.
   */
  datatype Error =
    | Eof
    | UnsupportedVersion(major: nat, minor: nat)
    | TrailingData
    | CyclicReference
    | IndexOutOfRange(index: nat)
    | NullPayload(index: nat)
    | NotATermName(index: nat)

  datatype Result<+T> = Success(value: T) | Failure(error: Error) {
    predicate IsFailure() {
      Failure?
    }

    function PropagateFailure<U>(): Result<U>
      requires Failure?
    {
      Failure(error)
    }

    function Extract(): T
      requires Success?
    {
      value
    }
  }

  /** A result without a value: the outcome of a Java method returning `void`. */
  datatype Outcome = Pass | Fail(error: Error) {
    predicate IsFailure() {
      Fail?
    }

    function PropagateFailure(): Outcome
      requires Fail?
    {
      this
    }
  }

  function Last<T>(s: seq<T>): T
    requires |s| > 0
  {
    s[|s| - 1]
  }

  function Init<T>(s: seq<T>): seq<T>
    requires |s| > 0
  {
    s[..|s| - 1]
  }

  /** Concatenation regrouped; stated once so that large proofs need not rediscover it. */
  lemma Associative<T>(a: seq<T>, b: seq<T>, c: seq<T>)
    ensures (a + b) + c == a + (b + c)
  {
  }
}
