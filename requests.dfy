/**
 * The request-side inputs the web handlers share: the signed-in user the
 * session middleware attaches to the request, and multipart form fields.
 */
module Requests {
  import opened Wrappers

  /** `context.locals.user`: the id and role of the signed-in user. */
  datatype SessionUser = SessionUser(id: string, role: string)

  /** `formData.get(name)`: a missing field, a text value, or an uploaded file (which is not a string). */
  datatype FormValue = Absent | Text(text: string) | FileField

  const AdminRole: string := "admin"

  /** The guard of the admin endpoints: a signed-in user whose role is `admin`. */
  predicate IsAdmin(user: Option<SessionUser>) {
    user.Some? && user.value.role == AdminRole
  }
}
