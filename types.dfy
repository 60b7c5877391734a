/** Shared vocabulary of the blog API: identifiers, optional values, HTTP-style responses,
    and the collaborators whose code is not part of this model (token service, password hashing,
    HTML sanitisation), passed in as function values. */
module Types {

  datatype Option<+T> = None | Some(value: T)

  /** Row identifiers, as assigned by the database (SERIAL columns start at 1). */
  type UserId = nat
  type PostId = nat
  type CommentId = nat
  type CourseId = nat
  type GroupId = nat

  /** What a route returns: the HTTP status and the "error" or "message" field of its JSON body
      (the empty string when the body carries neither, e.g. a created post). */
  datatype Response = Response(status: nat, message: string)

  const OK: nat := 200
  const CREATED: nat := 201
  const BAD_REQUEST: nat := 400
  const UNAUTHORIZED: nat := 401
  const FORBIDDEN: nat := 403
  const NOT_FOUND: nat := 404
  const SERVER_ERROR: nat := 500

  /** `get_or_404` aborts with 404; the application's 404 handler answers with this message. */
  const NotFound := Response(NOT_FOUND, "Resource not found")

  /** The collaborators the routes call but whose code is not modelled:
      - verifyToken: `User.verify_token`, the id of the user a token resolves to, or None;
      - generateToken: `user.generate_token()`, from the user's id and username;
      - hashPassword / checkPassword: `set_password` / `check_password` on a stored credential;
      - sanitizePlainText / sanitizeHtml / sanitizeCode: the bleach-based sanitisers. */
  datatype Env = Env(
    verifyToken: string -> Option<UserId>,
    generateToken: (UserId, string) -> string,
    hashPassword: string -> string,
    checkPassword: (string, string) -> bool,
    sanitizePlainText: string -> string,
    sanitizeHtml: string -> string,
    sanitizeCode: string -> string)

  /** Python truthiness of an optional JSON string: present and non-empty. */
  predicate Truthy(s: Option<string>) {
    s.Some? && s.value != ""
  }
}
