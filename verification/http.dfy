/** The accept/reject outcome of an API handler; status codes and headers beyond
    that are not part of this model. */
module Http {
  import opened Wrappers

  datatype Response<T> =
    | Success(body: T)          // 200 with a JSON body
    | BadRequest(error: string) // 400
    | MethodNotAllowed          // 405
    | ServerError(error: string) // 500

  /** The request method, where a handler looks at it. */
  datatype Method = Get | Post | OtherMethod(name: string)

  const GenericError: string := "Server error"

  /** `err.message || "Server error"`: the text of a 500 built from a caught error. */
  function ErrorMessage(e: string): (m: string)
    ensures m != ""
    ensures e != "" ==> m == e
    ensures e == "" ==> m == GenericError
  {
    if e != "" then e else GenericError
  }

  /** A value `!value` treats as missing: absent or the empty string. */
  predicate Missing(value: Option<string>) {
    value.None? || value.value == ""
  }
}
