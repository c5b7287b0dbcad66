/**
 * The outcome of one HTTP handler. Every handler of the service ends in exactly
 * one of these four: Ok sends 200, BadRequest 400, NotFound 404 and
 * InternalError 500.
 */
module Outcomes {
  datatype Status = Ok | BadRequest | NotFound | InternalError
}
