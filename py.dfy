/** Python runtime notions shared by the three scrapers: optional values,
    raised exceptions, and arguments whose dynamic type is checked at run time. */
module Py {

  /** Python's `None` or a value. */
  datatype Option<+T> = None | Some(value: T) {
    predicate IsFailure() { None? }

    function PropagateFailure<U>(): Option<U>
      requires None?
    {
      None
    }

    function Extract(): T
      requires Some?
    {
      value
    }
  }

  /** The exceptions the scrapers raise or let escape. The library's own ones
      carry the arguments the source passes to their constructors. */
  datatype Exception =
    | TypeError
    | ValueError
    | IndexError
    | KeyError
    | AttributeError
    | AssertionError
    | InvalidLeague(league: string, site: string)
    | InvalidYear(year: string, league: string)
    | InvalidCurrency
    | ClubEloInvalidTeam(team: string)

  /** A call that returns a value or raises an exception. */
  datatype Result<+T> = Ok(value: T) | Err(error: Exception) {
    predicate IsFailure() { Err? }

    function PropagateFailure<U>(): Result<U>
      requires Err?
    {
      Err(error)
    }

    function Extract(): T
      requires Ok?
    {
      value
    }
  }

  /** An argument as Python sees it: a `str`, or a value of some other type. */
  datatype Arg = Str(s: string) | NotStr
}
