/** Values shared by the scraper modules: Python's `Optional` and the
    exceptions the scraper code lets escape to its caller. */
module Types {

  /** Python's `Optional[T]`: `None` or a value. */
  datatype Option<T> = None | Some(value: T)

  /** The exceptions that escape the scraper code uncaught. */
  datatype Error =
      /** `soup.find(...)` found no container with this class, so the
          following `.find_all` is an attribute lookup on `None`
          (Python `AttributeError`). */
    | NoContainer(cssClass: string)
      /** `time.sleep` was handed a negative duration (Python `ValueError`). */
    | NegativeSleep
      /** A call left out a required positional argument (Python `TypeError`). */
    | MissingArgument(name: string)

  /** The outcome of a Python call: a returned value or an escaping exception. */
  datatype Result<T> = Ok(value: T) | Raised(error: Error)
}
