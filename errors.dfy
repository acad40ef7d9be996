/** Error values of the migration package.  Go's `error` interface is modelled as
    `MaybeError`: `NoError` is a nil error, `Failed(e)` a non-nil one. */
module Errors {

  datatype Error =
    /** An opaque error reported by the database driver or by a migration callback. */
    | Driver(code: nat)
    /** The database's answer to an INSERT that would break the ledger's `UNIQUE` name column. */
    | UniqueViolation(name: string)
    /** `ErrNameNotUnique`: two migrations given to a finder share a name. */
    | NameNotUnique(name: string)
    /** `ErrMigrationNotFound`: `FindOne` found no migration with the name. */
    | MigrationNotFound
    /** `ErrorPair`: an error raised while cleaning up after another one. */
    | ErrorPair(err1: Error, err2: Error)

  datatype MaybeError = NoError | Failed(error: Error)

  /** The primitive errors inside `e`, left to right: what a caller can still inspect. */
  function Causes(e: Error): seq<Error>
  {
    match e
    case ErrorPair(e1, e2) => Causes(e1) + Causes(e2)
    case _ => [e]
  }

  function AllCauses(m: MaybeError): seq<Error>
  {
    if m.NoError? then [] else Causes(m.error)
  }

  /** What a deferred cleanup step makes of the error being returned (`first`) and the
      error of the cleanup itself (`second`): a failing cleanup is paired with an earlier
      error, or becomes the error when there was none; a successful one changes nothing. */
  function Combine(first: MaybeError, second: MaybeError): (r: MaybeError)
    ensures r.NoError? <==> first.NoError? && second.NoError?
    ensures AllCauses(r) == AllCauses(first) + AllCauses(second)
    ensures second.NoError? ==> r == first
    ensures first.NoError? ==> r == second
    ensures first.Failed? && second.Failed? ==> r == Failed(ErrorPair(first.error, second.error))
  {
    if second.NoError? then first
    else if first.NoError? then second
    else Failed(ErrorPair(first.error, second.error))
  }
}
