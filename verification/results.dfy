/** Outcomes of the services: a value, or one of the exceptions they throw. */
module Results {

  datatype Option<+T> = None | Some(value: T)

  /** The exceptions the services raise. `NotFound`, `BadRequest` and `Conflict`
      are the HTTP exceptions thrown by the service code; `Invalid` is the
      validation error the store raises on save when a required path is empty;
      `StrictPopulate` is the error a query raises when asked to populate a
      path its schema does not declare. */
  datatype Error =
    | NotFound(message: string)
    | BadRequest(message: string)
    | Conflict(message: string)
    | Invalid(message: string)
    | StrictPopulate(path: string)

  datatype Result<+T> = Ok(value: T) | Err(error: Error) {

    predicate IsFailure() {
      Err?
    }

    function PropagateFailure<U>(): Result<U>
      requires Err?
    {
      Err(error)
    }

    function Extract(): T
      requires Ok?
    {
      value
    }
  }

  /** An optional field of a request body: absent (`undefined`) or given. */
  datatype Patch<+T> = Keep | Set(value: T) {

    function Apply(current: T): T {
      match this
      case Keep => current
      case Set(v) => v
    }
  }
}
