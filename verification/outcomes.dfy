/** Result shapes shared by the three components.  A Go function in the
    modelled core either returns `nil`, returns an `error`, or ends the
    process (an uncaught panic or `os.Exit(1)`); `Outcome` names the three. */
module Outcomes {

  datatype Option<+T> = None | Some(value: T)

  /** Why an operation reported an error to its caller. */
  datatype Error =
    | NotExist          // os.Stat reported the target missing
    | AlreadyOverlayed  // catalogue row present and no force
    | NotOverlayed      // no catalogue row for the path
    | NotADirectory     // copyDir's source is not a directory
    | ListFailed        // os.ReadDir on a state area failed
    | StepFailed        // a syscall, exec or file write failed

  datatype Outcome =
    | Ok
    | Fail(error: Error)
    | Crash             // panic or os.Exit(1): the process ends here
  {
    predicate IsOk() { Ok? }
  }
}
