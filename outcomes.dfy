// How a console command ends: normally, through Environment.Exit after an
// ExceptionBase is caught (its error code), or with an exception that no handler
// catches.
module Outcomes {
  import opened Wrappers
  import opened DotNetText
  import opened Components

  /** The exit code of the "directory does not exist" and "not found" paths. */
  const NotFoundCode: int := -1

  /**
   * Completed: the handler returned. Exited: Environment.Exit with the code.
   * Crashed: an installer failure that is not an ExceptionBase escapes. Unparsed:
   * the FormatException, OverflowException or IndexOutOfRangeException of a parse
   * escapes.
   */
  datatype Outcome = Completed | Exited(code: int) | Crashed(failure: Failure) | Unparsed(error: ParseFailure)

  /**
   * `catch (ExceptionBase ex) { Environment.Exit((int)ex.ErrorCode); }`: the
   * installer's own exceptions become their exit code, any other one escapes.
   */
  function Exit(failure: Failure): (o: Outcome)
    ensures o.Exited? <==> failure.UnsupportedArchitecture? || failure.VersionTooHigh?
    ensures failure.VersionTooHigh? ==> o == Exited(VersionTooHighCode)
    ensures failure.UnsupportedArchitecture? ==> o == Exited(UnsupportedArchitectureCode)
    ensures o.Crashed? ==> o.failure == failure
    ensures o != Completed
  {
    match ErrorCode(failure)
    case Some(code) => Exited(code)
    case None => Crashed(failure)
  }
}
