/**
 * The errors the backend controllers raise. `ApiError(status, message)` is the
 * application's own error class, thrown with an HTTP status; the other two are
 * failures the controllers do not throw themselves but that the framework raises
 * on their behalf.
 */
module ApiErrors {

  datatype Error =
    | ApiError(status: int, message: string)
      /** Mongoose rejected a document on save because the `required` rule failed for `paths`. */
    | SchemaError(paths: set<string>)
      /** A JavaScript TypeError, such as calling a method on `undefined`. */
    | RuntimeFault

  const BadRequest := 400
  const Forbidden := 403
  const NotFound := 404
  const Conflict := 409

  const PostNotFound := ApiError(NotFound, "Post not found")
}
