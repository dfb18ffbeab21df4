/**
  How one call of `generatePages()` ends, as seen from the process that runs
  the script.
 */
module Outcome {
  datatype Ending =
      /** Every row was handled and the function's promise resolved. */
    | Completed
      /** The outer `catch` logged "Generation failed" and exited with status 1. */
    | Reported
      /** The function's promise rejected and nothing in the script handles the rejection. */
    | Unhandled
      /** A template could not be loaded: `loadTemplate` logged the error and exited with status 1. */
    | Exited
}
