/**
 The failure-carrying datatypes of the model: each exception path of the
 modelled operations becomes an `Error`, and every modelled operation that may
 throw returns a `Result`.
 */
module Results {

  /**
   One constructor per way the modelled code can fail, plus
   `FormatNotModelled`, which marks a format string outside the modelled
   fragment rather than an exception of the source.
   */
  datatype Error =
    | UnrecognizedLanguage(name: string)   // the constructor's IOSAutomationException
    | MissingL10NFile(path: string)        // getL10NFiles' IOSAutomationException
    | MissingKey(key: string)              // translate dereferences a null template
    | MissingFormatArgument                // String.format ran out of arguments
    | FormatNotModelled                    // outside the `%s`/`%%` fragment: Java may format or throw
    | ConversionFailed                     // the injected binary-to-JSON read step failed

  datatype Option<+T> = None | Some(value: T) {
    predicate IsFailure() { None? }

    function PropagateFailure<U>(): Option<U>
      requires None?
    {
      None
    }

    function Extract(): T
      requires Some?
    {
      value
    }
  }

  datatype Result<+T> = Ok(value: T) | Err(error: Error) {
    predicate IsFailure() { Err? }

    function PropagateFailure<U>(): Result<U>
      requires Err?
    {
      Err(error)
    }

    function Extract(): T
      requires Ok?
    {
      value
    }
  }
}
