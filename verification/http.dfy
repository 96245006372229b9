/** What the script reads from an HTTP status code. */
module Http {

  /**
    `raise_for_status` raises for client errors (4xx) and server errors (5xx); every other
    status passes.
  */
  predicate RaisesForStatus(status: int) {
    400 <= status < 600
  }
}
