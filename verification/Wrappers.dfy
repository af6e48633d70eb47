/** Values the whole model shares: optional values, results carrying one of the library's error codes,
    and octets. C++ `char` and `std::byte` are both octets here, so a text and its bytes are one value. */
module Wrappers {

  datatype Option<+T> = None | Some(value: T)

  // The codes of include/cloudevents/result.hpp; the message texts of an error are not modelled.
  datatype Errc =
    | MissingRequiredAttribute
    | InvalidAttributeName
    | ReservedAttributeName
    | InvalidAttributeValue
    | UnsupportedSpecVersion
    | InvalidTimestamp
    | InvalidContentType
    | ParseError
    | TypeMismatch
    | OutOfRange
    | DataConflict
    | InvalidBase64
    | InvalidUtf8
    | NotACloudEvent
    | InvalidArgument

  datatype Result<+T> = Ok(value: T) | Err(error: Errc) {
    predicate IsFailure() {
      Err?
    }

    function PropagateFailure<U>(): Result<U>
      requires Err?
    {
      Err(error)
    }

    function Extract(): T
      requires Ok?
    {
      value
    }
  }

  type byte = i: int | 0 <= i < 256

  type bytes = seq<byte>

  function Pow2(n: nat): (r: nat)
    ensures r > 0
  {
    if n == 0 then 1 else 2 * Pow2(n - 1)
  }

  lemma {:induction false} Pow2Sum(m: nat, n: nat)
    ensures Pow2(m + n) == Pow2(m) * Pow2(n)
  {
    if m > 0 {
      Pow2Sum(m - 1, n);
    }
  }

  /** The octets of an ASCII literal. */
  function Ascii(s: string): (b: bytes)
    requires forall i :: 0 <= i < |s| ==> s[i] < 128 as char
    ensures |b| == |s|
    ensures forall i :: 0 <= i < |s| ==> b[i] == s[i] as int
  {
    seq(|s|, i requires 0 <= i < |s| => s[i] as int)
  }
}
