/** The status codes of the code base. */
module Status {
  datatype StatusCode = OK | Error | NoData | NoMem | IsrYield | InvalidArg | InvalidState | Timeout | Last
}
