/** What the admin tables receive from the backend and show back to the operator. */
module Api {

  /** The outcome of one awaited HTTP call: the reply body, or a rejected promise
      (network failure and error status alike land in the same `catch`). */
  datatype Response<T> = Ok(data: T) | Err

  /** A value that may be missing, such as the request a declined confirmation never sends. */
  datatype Option<T> = None | Some(value: T)

  /** The notification a handler raises, identified by the translation key it
      passes to `t()`; the translated text itself is not part of the model. */
  datatype Toast = NoToast | SuccessToast(key: string) | ErrorToast(key: string)
}
