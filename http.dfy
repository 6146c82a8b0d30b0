/** Shared vocabulary of the three HTTP handlers: the
    HTTP-style response record and the `query` parameter gate that both
    search handlers apply before doing anything else. */
module Http {
  import opened Wrappers

  /** HTTP status codes the handlers return (HTTPStatus.BAD_REQUEST, HTTPStatus.OK). */
  const BadRequest: int := 400
  const Ok: int := 200

  /** One search hit as the search service returns it: an opaque JSON record. */
  datatype Episode = Episode(fields: map<string, string>)

  /** The response body before JSON serialisation: either a plain string or
      the object `{"results": [...]}`. */
  datatype Body = Text(text: string) | Results(results: seq<Episode>)

  datatype Response = Response(statusCode: int, body: Body)

  /** The response every validation failure produces: 400 with body ''. */
  const Rejected: Response := Response(BadRequest, Text(""))

  /** `params and params.get('query')` followed by `if not query`: the query
      is usable only when the parameters map exists and holds a non-empty
      `query` entry. */
  function QueryParameter(params: Option<map<string, string>>): (q: Option<string>)
    ensures q.Some? <==> params.Some? && "query" in params.value && params.value["query"] != ""
    ensures q.Some? ==> q.value == params.value["query"] && |q.value| > 0
  {
    match params
    case None => None
    case Some(m) => if "query" in m && m["query"] != "" then Some(m["query"]) else None
  }
}
