/**
 * What the three AI services have in common in app.py: a key read from the
 * configuration, and the kinds of exception their clients raise.
 */
module Config {
  import opened Wrappers

  /** `if not key`: a key is set when the variable exists and is not empty. */
  predicate KeySet(key: Option<string>) {
    key.Some? && key.value != ""
  }

  /** The kinds of exception the source tells apart, in the order its handlers catch them. */
  datatype ApiFailure = ConnectionFailure | RateLimited | StatusFailure | OtherFailure
}
