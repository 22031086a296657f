/** The JSON values that travel between the pages and the server, and the requests the
    pages send. */
module Api {

  datatype Value = Null | Str(s: string) | Int(i: int) | Bool(b: bool)

  /** A JSON object: a request body or a stored row. */
  type Object = map<string, Value>

  datatype Request =
    | PatchCard(id: int, body: Object)         // PATCH (or PUT) /api/cards/<id>
    | DeleteCard(id: int)                      // DELETE /api/cards/<id>
    | PostComment(cardId: int, body: Object)   // POST /api/cards/<id>/comments

  /** `response.ok`: an HTTP status in the 2xx range. */
  predicate IsOk(status: int) {
    200 <= status <= 299
  }
}
