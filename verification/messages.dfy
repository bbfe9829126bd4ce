/** What a route handler receives once the request body has been read, and what it answers.
    Headers, CORS and the HTTP framing are not modelled; a response is a status and a JSON body. */
module Messages {
  import opened Wrappers

  /** One field of a decoded JSON object: absent (or JSON null) or a string. */
  datatype JsonField = Missing | Text(text: string)

  /** The request body as the handler sees it after `request.json()`. Text that is not JSON makes
      `request.json()` throw; JSON `null` parses, and then destructuring `const { email, password }`
      throws. Any other JSON value that is not an object (a number, string, boolean or array) yields
      two undefined fields, i.e. `Credentials(Missing, Missing)`. */
  datatype Payload =
    | NoBody                                              // the request carries no body stream
    | Unreadable                                          // not JSON (the parse throws), or JSON null (the destructuring throws)
    | Credentials(email: JsonField, password: JsonField)  // `const { email, password } = await request.json()`

  /** The request method, as far as a handler distinguishes it. */
  datatype Verb = OptionsMethod | PostMethod

  /** Failures of the database connection, which a handler meets as a thrown error. */
  datatype StoreFault = NoFault | SelectFails | InsertFails

  datatype UserView = UserView(email: string)

  /** The JSON shapes the handlers send back. */
  datatype Body =
    | Empty                                      // `new Response(null, ...)`
    | ErrorBody(error: string)                   // `{ error }`
    | SignupBody(success: bool, user: UserView)  // `{ success, user: { email } }`
    | LoginBody(message: string, user: UserView) // `{ message, user: { email } }`

  datatype Response = Response(status: nat, body: Body)

  /** The value a field binds to as a query parameter: an absent field binds as SQL NULL. */
  function Parameter(field: JsonField): (param: Option<string>)
    ensures param.None? <==> field.Missing?
    ensures field.Text? ==> param.value == field.text
  {
    if field.Missing? then None else Some(field.text)
  }

  /** JavaScript truthiness of a field that is absent, null or a string: `!field` is false exactly for a non-empty string. */
  predicate Truthy(field: JsonField) {
    field.Text? && field.text != ""
  }
}
