/** The episode-search service both search handlers call, reduced to the
    request it receives; the client itself is a parameter of the handlers. */
module AudioSearch {
  import opened Wrappers
  import opened Http

  /** `client.search({'q': .., 's': .., 'from': .., 'size': ..}, entity)`;
      `sort` is absent when the request carries no `s` key. */
  datatype SearchRequest = SearchRequest(q: string, sort: Option<string>, from: int, size: int, entity: string)

  /** The service as seen by a handler: the `results` list it answers for a request. */
  type Client = SearchRequest -> seq<Episode>

  /** What one handler invocation did: the requests sent to the service, in
      order, and the response it returned. */
  datatype SearchOutcome = SearchOutcome(calls: seq<SearchRequest>, response: Response)

  const PageSize: int := 20
  const EpisodesEntity: string := "episodes"
}
