/** Failure-compatible wrappers and the exceptions the deserializer raises. */
module Base {

  datatype Option<+T> = None | Some(value: T)

  /** Why a TypeError was raised; one constructor per distinct `raise` in the source. */
  datatype Reason =
    | NotConforming          // typeguard's check_type rejected the value
    | NoUnionArm             // no arm of a Union accepted the value
    | ListArity              // a List rule without exactly one type argument
    | NotAList               // a List rule applied to a non-list
    | NotADict               // a record rule applied to a non-dict
    | AbstractClass          // the chosen class is abstract
    | NoCandidate            // no branch of the engine applies
    | NotIterable            // `key in cls`: membership test on a class object
    | Rejected(message: string)  // raised by user code (a validator or matcher)

  /** The Python exceptions that matter to control flow: only TypeError is ever caught. */
  datatype Error =
    | TypeError(reason: Reason)
    | AttributeError(name: string)
    | RecursionError
    | OtherError(kind: string)
  {
    predicate IsTypeError() { TypeError? }
  }

  datatype Result<+T> = Success(value: T) | Failure(error: Error)

  /** The outcome of a call whose return value is ignored: it either returns or raises. */
  datatype Outcome = Pass | Fail(error: Error)
}
