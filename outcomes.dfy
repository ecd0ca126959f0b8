/** Result shapes shared by the model: optional values, the ways a run of the
    cleaner stops abruptly (log.Fatalf or a runtime panic), and validation results. */
module Outcomes {

  datatype Option<+T> = None | Some(value: T) {
    function GetOr(default: T): T {
      match this
      case Some(v) => v
      case None => default
    }
  }

  /** Why the process stopped without finishing its work. */
  datatype Fatal =
    | InvalidRegex(pattern: string)   // regexp.Compile failed on a reached pattern
    | SliceOutOfRange(index: int)     // inUseCandidates[index:] with a negative index
    | ListRepositoriesFailed          // DescribeRepositoriesPages returned an error
    | ReadInputFailed                 // reading the confirmation answer failed
    | NilPushTime                     // dereferencing the push time of an image that has none

  /** A computation that either finishes with a value or aborts the process. */
  datatype Outcome<+T> = Done(value: T) | Abort(why: Fatal)

  /** A validation that either yields a value or names the first failed check. */
  datatype Result<+T, +E> = Success(value: T) | Failure(error: E)
}
