/** Failure values of the rendering pipeline. The source raises Python
    exceptions; the model returns them as values, named after the exception. */
module Results {

  datatype Error =
    | IndexError          // `layer[0]` on an empty layer, a write outside the base layer
    | ZeroDivisionError   // `index % len(color_list)` with an empty palette

  /** An optional argument that the caller may leave as `None`. */
  datatype Option<+T> = None | Some(value: T)

  datatype Result<+T> = Ok(value: T) | Err(error: Error) {

    predicate IsFailure() {
      Err?
    }

    function PropagateFailure<U>(): Result<U>
      requires Err?
    {
      Err(error)
    }

    function Extract(): T
      requires Ok?
    {
      value
    }
  }
}
