/** The search handler that normalises the query before forwarding it
    (functions/search.py): quotes in the query are deleted and the result is
    wrapped in one pair of quotes so the service does an exact-phrase match. */
module Search {
  import opened Wrappers
  import opened Http
  import opened AudioSearch

  const Quote: char := '"'
  const SortByNewest: string := "date_broadcast desc"

  /** `query.replace('"', '')`: every quote deleted, everything else kept in order. */
  function StripQuotes(s: string): (r: string)
    ensures Quote !in r
    ensures |r| <= |s|
  {
    if s == [] then []
    else if s[0] == Quote then StripQuotes(s[1..])
    else [s[0]] + StripQuotes(s[1..])
  }

  /** `'"{}"'.format(query.replace('"', ''))`. */
  function Normalize(query: string): (r: string)
    ensures IsNormalized(r)
  {
    [Quote] + StripQuotes(query) + [Quote]
  }

  /** A query already in the shape the service gets: quote, quote-free text, quote. */
  predicate IsNormalized(s: string) {
    |s| >= 2 && s[0] == Quote && s[|s| - 1] == Quote && Quote !in s[1..|s| - 1]
  }

  /** The number of quote characters in `s`. */
  function QuoteCount(s: string): nat {
    multiset(s)[Quote]
  }

  /** Deleting quotes distributes over concatenation, so it acts character by character. */
  lemma {:induction false} StripQuotesAppend(a: string, b: string)
    ensures StripQuotes(a + b) == StripQuotes(a) + StripQuotes(b)
  {
    if a == [] {
      assert a + b == b;
    } else {
      assert (a + b)[1..] == a[1..] + b;
      StripQuotesAppend(a[1..], b);
    }
  }

  /** Every non-quote character survives with its multiplicity; no quote survives. */
  lemma {:induction false} StripQuotesKeeps(s: string)
    ensures multiset(StripQuotes(s))[Quote] == 0
    ensures forall c :: c != Quote ==> multiset(StripQuotes(s))[c] == multiset(s)[c]
  {
    if s != [] {
      StripQuotesKeeps(s[1..]);
      assert s == [s[0]] + s[1..];
    }
  }

  /** A quote-free string is left as it is. */
  lemma {:induction false} StripQuotesNoQuote(s: string)
    requires Quote !in s
    ensures StripQuotes(s) == s
  {
    if s != [] {
      StripQuotesNoQuote(s[1..]);
    }
  }

  /** The normalised query has length len(query) - count('"') + 2, so never less than 2. */
  lemma {:induction false} NormalizeLength(query: string)
    ensures |Normalize(query)| == |query| - QuoteCount(query) + 2
    ensures |Normalize(query)| >= 2
  {
    StripLength(query);
  }

  lemma {:induction false} StripLength(s: string)
    ensures |StripQuotes(s)| == |s| - multiset(s)[Quote]
  {
    if s != [] {
      StripLength(s[1..]);
      assert s == [s[0]] + s[1..];
    }
  }

  /** A query without quotes is only wrapped: `some person` becomes `"some person"`. */
  lemma NormalizeWraps(query: string)
    requires Quote !in query
    ensures Normalize(query) == [Quote] + query + [Quote]
  {
    StripQuotesNoQuote(query);
  }

  /** Normalising is idempotent. */
  lemma NormalizeIdempotent(query: string)
    ensures Normalize(Normalize(query)) == Normalize(query)
  {
    var inner := StripQuotes(query);
    StripQuotesAppend([Quote] + inner, [Quote]);
    StripQuotesAppend([Quote], inner);
    StripQuotesNoQuote(inner);
  }

  /** The fixed points of normalisation are exactly the normalised strings. */
  lemma NormalizeFixedPoint(s: string)
    ensures Normalize(s) == s <==> IsNormalized(s)
  {
    if IsNormalized(s) {
      var inner := s[1..|s| - 1];
      assert s == [Quote] + inner + [Quote];
      NormalizeIdempotent(inner);
      StripQuotesNoQuote(inner);
    }
  }

  /** `perform_search(query)`: the request sent to the service, sorted newest
      first, first page of 20 episodes. */
  function PerformSearch(query: string): (req: SearchRequest)
    ensures req.q == query && req.entity == EpisodesEntity
    ensures req.from == 0 && req.size == PageSize && req.sort == Some(SortByNewest)
  {
    SearchRequest(query, Some(SortByNewest), 0, PageSize, EpisodesEntity)
  }

  /** `main(event, _context)` with `queryStringParameters = params`. */
  function Main(params: Option<map<string, string>>, client: Client): (o: SearchOutcome)
    ensures QueryParameter(params).None? ==> o.response == Rejected && o.calls == []
    ensures QueryParameter(params).Some? ==>
      && o.calls == [PerformSearch(Normalize(params.value["query"]))]
      && o.response == Response(Ok, Results(client(o.calls[0])))
    ensures o.response.statusCode == Ok <==> |o.calls| == 1
    ensures forall i :: 0 <= i < |o.calls| ==> IsNormalized(o.calls[i].q)
  {
    match QueryParameter(params)
    case None => SearchOutcome([], Rejected)
    case Some(query) =>
      var request := PerformSearch(Normalize(query));
      SearchOutcome([request], Response(Ok, Results(client(request))))
  }
}
