/** The exceptions the modelled code can raise, named after the Python exception classes. */
module Faults {

  datatype Fault =
    /** `raise_for_status()` on a response whose status code is not 2xx. */
    | HttpStatusError(status: int)
    /** `.get` called on a `properties` member that is JSON null. */
    | AttributeError
    /** A zero denominator in the Magnus formula. */
    | ZeroDivisionError
    /** `math.exp` whose result does not fit in a float. */
    | OverflowError
    /** A naive timestamp compared with the timezone-aware prune cutoff. */
    | TypeError
}
