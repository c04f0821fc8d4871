/** The Python exceptions that matter to the service and the middleware. */
module Errors {

  /**
   * An exception, tagged by the `except` clause that would catch it.
   * `OtherError` stands for any exception the service does not name.
   */
  datatype Exception =
    | ValueError(message: string)
    | KeyError
    | CroniterBadCronError
    | IndexError
    | TypeError
    | OtherError(name: string)
}
