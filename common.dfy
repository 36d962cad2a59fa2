// Shared vocabulary of the model: optional values (the source's `null`),
// results (the source's argument exceptions), the byte and 32-bit integer
// ranges of the C# value types, and the collection-change actions.

module Common {

  /** A reference or string that may be `null` in the source. */
  datatype Option<+T> = None | Some(value: T)

  /** The exceptions the modelled code throws at its argument checks. */
  datatype Error =
    | ArgumentNull(param: string)   // ArgumentNullException
    | ArgumentInvalid(param: string) // ArgumentException
    | NotSupported                  // NotSupportedException
    | DuplicateKey                  // ArgumentException from Dictionary.Add
    | KeyNotFound                   // KeyNotFoundException from the Dictionary indexer
    | NullReference                 // NullReferenceException from a member access on null

  /** Either the value an operation returns, or the exception it throws. */
  datatype Result<+T> = Ok(value: T) | Err(error: Error)

  /** An operation without a return value that may throw. */
  datatype Outcome = Pass | Fail(error: Error)

  /** A C# `byte`; the enums of the source that derive from `byte` take any of these values. */
  type Byte = x: int | 0 <= x < 256

  const MinInt32: int := -0x8000_0000
  const MaxInt32: int := 0x7fff_ffff

  /** A C# `int`. */
  type Int32 = x: int | MinInt32 <= x <= MaxInt32

  /** System.Collections.Specialized.NotifyCollectionChangedAction. */
  datatype ChangeAction = Add | Remove | Replace | Move | Reset

  /** `true` when no element occurs twice in `s`. */
  predicate NoDuplicates<T(==)>(s: seq<T>) {
    forall i, j :: 0 <= i < j < |s| ==> s[i] != s[j]
  }
}
