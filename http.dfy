/** What a request handler answers: a status code with a body, or an error status. */
module Http {
  import opened Wrappers

  /** `Ok(code, value)` is a 2xx answer carrying `value`; `Err(code)` is a 4xx/5xx answer.
      The JSON envelopes and messages around them are not modelled. */
  datatype Reply<T> = Ok(code: nat, value: T) | Err(code: nat)

  /** JavaScript truthiness of an optional string field: present and not empty. */
  predicate Present(s: Option<string>) {
    s.Some? && s.value != ""
  }
}
