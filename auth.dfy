/** The session handed to every route handler and the JSON replies the
    handlers send back. The session lookup itself (the authentication
    library) is outside the model: a handler receives the session, or None. */
module Auth {

  datatype Option<+T> = None | Some(value: T) {
    function GetOr(default: T): T {
      match this
      case Some(v) => v
      case None => default
    }
  }

  /** The two roles a user can hold. */
  datatype Role = USER | ADMIN

  datatype SessionUser = SessionUser(id: string, name: Option<string>, email: string, role: Role)

  datatype Session = Session(user: SessionUser)

  /** The gate every mutating handler runs first:
      `!session || session.user.role !== "ADMIN"` rejects. */
  predicate IsAdmin(session: Option<Session>) {
    session.Some? && session.value.user.role == ADMIN
  }

  /** JavaScript truthiness of an optional string field of a request body:
      absent and empty are both falsy. */
  predicate Present(field: Option<string>) {
    field.Some? && field.value != ""
  }

  /** The falsy strings are the missing one and the empty one; every other
      string is truthy. */
  lemma PresentCases(field: Option<string>)
    ensures !Present(None) && !Present(Some(""))
    ensures Present(field) <==> field != None && field != Some("")
  {
  }

  /** A JSON reply: a value with its HTTP status, or `{ error: message }`
      with its status. */
  datatype Reply<+T> = Json(status: int, value: T) | Error(status: int, message: string)

  /** The reply of the admin gate. */
  function Unauthorized<T>(): Reply<T> {
    Error(401, "Unauthorized")
  }
}
