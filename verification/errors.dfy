/** The exceptions the services raise, and the shape of a service call that
    may change a store. */
module Errors {
  import opened Wrappers

  datatype ServiceError =
    /** `RegraNegocioException`: a business rule was broken. */
    | BusinessRule(message: string)
    /** `ErroAutenticacao`: the credentials were rejected. */
    | Authentication(message: string)
    /** `NullPointerException`: a programming error, such as updating a
        release that was never saved. */
    | NullPointer
    /** The store found several rows where the query expects at most one. */
    | NonUniqueResult

  /** The store after a call together with what the call returned or raised.
      A call that raises leaves the store as it was. */
  datatype Step<S, T> = Step(store: S, result: Result<T, ServiceError>)
}
