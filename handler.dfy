/** The earlier search handler (functions/handler.py): the same 400 gate as
    the normalising handler, but the raw query goes to the service as it is. */
module Handler {
  import opened Wrappers
  import opened Http
  import opened AudioSearch
  import Search

  /** The request `search` sends: no sort key, first page of 20 episodes. */
  function RawRequest(query: string): (req: SearchRequest)
    ensures req.q == query && req.sort == None && req.entity == EpisodesEntity
    ensures req.from == 0 && req.size == PageSize
  {
    SearchRequest(query, None, 0, PageSize, EpisodesEntity)
  }

  /** `search(event, _context)` with `queryStringParameters = params`. */
  function HandleSearch(params: Option<map<string, string>>, client: Client): (o: SearchOutcome)
    ensures QueryParameter(params).None? ==> o.response == Rejected && o.calls == []
    ensures QueryParameter(params).Some? ==>
      && o.calls == [RawRequest(params.value["query"])]
      && o.response == Response(Ok, Results(client(o.calls[0])))
    ensures o.response.statusCode == Ok <==> |o.calls| == 1
  {
    match QueryParameter(params)
    case None => SearchOutcome([], Rejected)
    case Some(query) =>
      var request := RawRequest(query);
      SearchOutcome([request], Response(Ok, Results(client(request))))
  }

  /** Both handlers accept and reject exactly the same parameter maps, and
      on an accepted map they send the same query text exactly when the raw
      query is already in normalised form. */
  lemma SameGateDifferentQuery(params: Option<map<string, string>>, client: Client)
    ensures HandleSearch(params, client).response.statusCode
         == Search.Main(params, client).response.statusCode
    ensures QueryParameter(params).Some? ==>
      (HandleSearch(params, client).calls[0].q == Search.Main(params, client).calls[0].q
       <==> Search.IsNormalized(params.value["query"]))
  {
    if QueryParameter(params).Some? {
      Search.NormalizeFixedPoint(params.value["query"]);
    }
  }

  /** A query holding a quote is sent unchanged here but never by the normalising handler. */
  lemma QuotedQueryReachesService(params: Option<map<string, string>>, client: Client, i: nat)
    requires QueryParameter(params).Some?
    requires 0 < i < |params.value["query"]| - 1 && params.value["query"][i] == Search.Quote
    ensures Search.Quote in HandleSearch(params, client).calls[0].q[1..|params.value["query"]| - 1]
    ensures !Search.IsNormalized(HandleSearch(params, client).calls[0].q)
  {
    var q := params.value["query"];
    assert q[1..|q| - 1][i - 1] == Search.Quote;
  }
}
