# Podcast finder handlers in Dafny

This project models the request handling of three serverless HTTP handlers of the podcast finder.

- **Normalising search handler** (`functions/search.py`). It rejects a request that has no `query` parameter or an empty one with 400. Otherwise it deletes every `"` from the query and wraps the rest in one pair of `"`. It sends that query once to the episode-search service and answers 200 with the service's `results` unchanged.
- **Legacy search handler** (`functions/handler.py`). It has the same 400 gate but forwards the raw query.
- **Notification-request handler** (`functions/request_notification.py`). It rejects a missing or empty body, and a body without a non-empty `email` or `query`, with 400. Otherwise it builds a confirmation link from the configured domain, the path `confirm-notification-request?` and the form-urlencoded pairs `email`, `secret`. It sends one confirmation email and answers 200.

The model is pure, as the handlers are: datatypes, functions and lemmas.

- Each handler is a function from its inputs to an outcome record. The record holds the requests sent to the search service, or the emails sent, together with the HTTP-style response.
- The collaborators are parameters:
  - the search service is a function from the request to its `results` list;
  - `json.loads` is a function from the body text to a JSON object;
  - the random token is a string;
  - the environment is a `Config` record.

`urlencode` with its default `quote_plus` is modelled as Python 3.7 and later define it (from 3.7 on, `~` is unescaped):

- Each key and value is UTF-8 encoded (`Utf8`).
- Each byte is written as itself when it is an unreserved character of section 2.3 of RFC 3986, as `+` when it is a space, and as `%XX` with upper-case hex otherwise (section 2.1 of RFC 3986).
- Each pair is written `key=value`, and the pairs are joined with `&`.
- A strict decoder, `FormEncoding.ParseQuery`, is the partner of the encoder. The round-trip lemmas show that the link's query decodes back to exactly the email address and the token, in that order.

Modules: `Wrappers` (the optional value), `Http` (shared response types and the `query` gate), `AudioSearch` (the search request), `Search`, `Handler`, `Utf8`, `FormEncoding`, `RequestNotification`.

Two details of the code a reader might not expect:

- The confirmation link is `https://` + domain + `?` + `confirm-notification-request?` + the encoded query. It has no `/` after the domain and has two `?`.
- The search query is rejected only when it is absent or empty. A query of only spaces is accepted, because the code does not trim it.

## Model

| member | source | states |
|---|---|---|
| Http.QueryParameter | functions/search.py:9-15 | a query is usable exactly when the parameters map exists and holds a non-empty `query`, and it is that entry |
| Search.StripQuotes | functions/search.py:18 | the result holds no `"` and is no longer than the input |
| Search.StripQuotesAppend | functions/search.py:18 | quote deletion distributes over concatenation, so it acts character by character and keeps the order |
| Search.StripQuotesKeeps | functions/search.py:18 | no `"` survives, and every other character survives with its multiplicity |
| Search.StripQuotesNoQuote | functions/search.py:18 | a quote-free string is left unchanged |
| Search.StripLength | functions/search.py:18 | the deletion removes exactly the `"` characters: length minus their count |
| Search.Normalize | functions/search.py:17-19 | the normalised query starts and ends with `"` and has no `"` in between |
| Search.NormalizeLength | functions/search.py:17-19 | the normalised length is len(query) - count(`"`) + 2, hence at least 2 |
| Search.NormalizeWraps | functions/search.py:17-19 | a query without quotes is only wrapped: `some person` becomes `"some person"` |
| Search.NormalizeIdempotent | functions/search.py:17-19 | normalising a normalised query changes nothing |
| Search.NormalizeFixedPoint | functions/search.py:17-19 | normalisation leaves a string unchanged if and only if it is already quote, quote-free text, quote |
| Search.PerformSearch | functions/search.py:33-46 | the request carries the given query, sort `date_broadcast desc`, offset 0, size 20 and entity `episodes` |
| Search.Main | functions/search.py:8-30 | an unusable query gives 400 with body '' and no search; otherwise exactly one search with the normalised query, and 200 with the service's results unchanged; 200 exactly when one call was made |
| Handler.RawRequest | functions/handler.py:22-24 | the request carries the raw query, no sort, offset 0, size 20 and entity `episodes` |
| Handler.HandleSearch | functions/handler.py:8-35 | same 400 gate with no call; otherwise one call with the raw query and 200 with the client's results unchanged |
| Handler.SameGateDifferentQuery | functions/handler.py:9-24 | both handlers give the same status for every parameters map, and send the same query text exactly when the raw query is already normalised |
| Handler.QuotedQueryReachesService | functions/handler.py:22-24 | an interior `"` in the query reaches the service here, so the query sent is not in normalised form |
| Utf8.EncodeChar | functions/request_notification.py:31 | each character becomes 1 to 4 bytes whose lead byte announces the length |
| Utf8.DecodeEncodeChar | functions/request_notification.py:31 | the bytes of one character decode back to that character |
| Utf8.Encode | functions/request_notification.py:31 | encoding never yields fewer bytes than characters |
| Utf8.DecodeEncode | functions/request_notification.py:31 | strict UTF-8 decoding undoes encoding |
| Utf8.EncodeAscii | functions/request_notification.py:31 | an ASCII string encodes to the byte codes of its characters |
| FormEncoding.Unreserved | functions/request_notification.py:31 | the characters `quote` never escapes are ASCII and never `%`, `+`, `&`, `=`, `?` or space |
| FormEncoding.HexDigit | functions/request_notification.py:31 | an escape digit is `0`-`9` or upper-case `A`-`F`, and its hex value is the digit |
| FormEncoding.QuoteByte | functions/request_notification.py:31 | a space becomes `+`; an unreserved ASCII byte becomes that character; any other byte becomes `%` and two upper-case hex digits whose value is the byte |
| FormEncoding.QuoteBytes | functions/request_notification.py:31 | the percent-encoded text holds only unreserved characters, `%` and `+` |
| FormEncoding.QuotePlus | functions/request_notification.py:31 | an encoded key or value holds only unreserved characters, `%` and `+`, so never a raw `&`, `=` or `?` |
| FormEncoding.UnquoteQuoteBytes | functions/request_notification.py:31 | unquoting gives back exactly the quoted bytes |
| FormEncoding.UnquotePlusQuotePlus | functions/request_notification.py:31 | unquoting and decoding gives back exactly the original string |
| FormEncoding.QuotePlusUnreserved | functions/request_notification.py:31 | a string of unreserved characters is left as it is |
| FormEncoding.QuoteAsciiBytes | functions/request_notification.py:31 | the byte codes of unreserved characters are written as those characters |
| FormEncoding.QuotePlusExample | functions/request_notification.py:31 | the address `a@b.com` is written `a%40b.com` |
| FormEncoding.QuotePlusSpace | functions/request_notification.py:31 | `a b` is written `a+b` |
| FormEncoding.QuotePlusNonAscii | functions/request_notification.py:31 | `é` is written `%C3%A9`, its UTF-8 bytes in upper-case hex |
| FormEncoding.Field | functions/request_notification.py:27-31 | a `key=value` field holds no `&` and no `?` |
| FormEncoding.Urlencode | functions/request_notification.py:27-31 | the encoded query holds no `?`, and it is empty exactly when there are no pairs |
| FormEncoding.Fields | functions/request_notification.py:27-31 | there is one field per pair |
| FormEncoding.SplitUrlencode | functions/request_notification.py:27-31 | splitting the encoded query at `&` gives back the fields in order |
| FormEncoding.ParseField | functions/request_notification.py:27-31 | a field splits at its only `=` into the quoted key and value, and both unquote to the originals |
| FormEncoding.ParseFieldsEncoded | functions/request_notification.py:27-31 | the fields parse back into the pairs, in order |
| FormEncoding.ParseUrlencode | functions/request_notification.py:27-31 | parsing the encoded query gives back exactly the pairs, in order |
| FormEncoding.SplitAppend | functions/request_notification.py:31 | splitting at a separator splits the two sides independently |
| FormEncoding.SplitNoSep | functions/request_notification.py:31 | text without the separator is one piece |
| FormEncoding.CutFirst | functions/request_notification.py:31 | text is cut at the first separator |
| RequestNotification.RequiredField | functions/request_notification.py:17-24 | a field counts exactly when it is present, not null and non-empty, and it is then the body's value |
| RequestNotification.LinkParameters | functions/request_notification.py:27-30 | exactly two pairs: (`email`, email), then (`secret`, token) |
| RequestNotification.ConfirmationLink | functions/request_notification.py:27-35 | the link is `https://`, then the domain, then `?confirm-notification-request?`, then exactly the encoded pairs |
| RequestNotification.LastQueryUrlencode | functions/request_notification.py:31-35 | after a base ending in `?`, the text past the last `?` parses back into the encoded pairs |
| RequestNotification.LinkCarriesEmailAndToken | functions/request_notification.py:26-35 | the query after the link's last `?` decodes to exactly [(`email`, email), (`secret`, token)], whatever the domain |
| RequestNotification.ConfirmationEmail | functions/request_notification.py:37-57 | source is the sender address; destination is [email]; subject is `Confirm request for notifications: ` then the query; text is `Visit this link to confirm request: ` then the link |
| RequestNotification.EmailTextCarriesEmailAndToken | functions/request_notification.py:49-52 | the email text still decodes to the email address and the token |
| RequestNotification.Main | functions/request_notification.py:10-62 | a missing or empty body, or a missing or empty `email` or `query`, gives 400 with body '' and no email; otherwise exactly one confirmation email and 200 with body ''; 200 exactly when one email was sent |
| RequestNotification.MainSendsDecodableLink | functions/request_notification.py:26-57 | on 200, the one email goes to the submitted address, and its link decodes to that address and the token |

## Left out

- The search service client is not modelled: its construction from `AUDIOSEARCH_ID` and `AUDIOSEARCH_SECRET`, its network call and its failures. The model is given a function from request to `results`. A failing call raises in the source and is not modelled.
- The SES client is not modelled: its `eu-west-1` region and the delivery of the email. The email is returned as a record, and a failing send is not modelled.
- `secrets.token_urlsafe(32)` is not modelled: the token is a parameter.
- `json.loads` is not modelled. The body is given as a map from key to string or null. Not modelled:
  - malformed JSON, and a JSON value that is not an object, both of which raise in the source;
  - falsy non-string field values (`0`, `false`, `[]`, `{}`), which the source rejects with 400 as it does null;
  - truthy non-string field values, which the source converts with `str()` before encoding.
- A JSON string holding a lone surrogate (such as `"\ud800"`) makes `quote_plus`'s strict UTF-8 encoding raise in the source. The model cannot express it: a Dafny `char` is a Unicode scalar value, never a surrogate.
- `json.dumps` of the search response is not modelled: the body is kept as the structured `Results` value.
- An event without a `queryStringParameters` or `body` key raises `KeyError` in the source and is not modelled.
- `HTTPStatus` members are the integers 400 and 200.
- FormEncoding.ParseQuery is a strict inverse written for this model, not Python's lenient `parse_qsl`. It is used only to state what the encoded query carries.
- The live tests against the search service (20 results, a known show title, newest-first order) depend on that service's data and are not modelled.
- The table-provisioning script and the test helpers that load secrets from YAML are not modelled: they are file, environment and database I/O that no handler uses.
