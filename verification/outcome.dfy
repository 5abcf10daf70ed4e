/** The failure channel of the linter.  A blacklisted name, a class that
    fails to load and a scan that throws an `Exception` all surface from
    `check()` as a `BwiException` carrying a message; here that exception is
    the `Fail` case of an `Outcome`, and returning normally is `Pass`.  A
    `java.lang.Error` escapes the `catch (Exception e)` unwrapped and has no
    counterpart here. */
module Outcomes {

  datatype Outcome = Pass | Fail(message: string) {

    /** Sequential composition with fail-fast semantics: `next` only runs
        when this outcome passed, like the next statement after a call that
        may throw. */
    function AndThen(next: Outcome): Outcome
    {
      if Fail? then this else next
    }
  }
}
