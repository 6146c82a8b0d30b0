/** The notification-request handler (functions/request_notification.py):
    it validates the POSTed body, builds a confirmation link that carries the
    email address and a fresh secret token, and sends one confirmation email. */
module RequestNotification {
  import opened Wrappers
  import opened Http
  import opened FormEncoding

  /** The environment the handler reads: `API_DOMAIN_NAME` and `EMAIL_SEND_ADDRESS`. */
  datatype Config = Config(domain: string, sender: string)

  /** The `send_email` call: Source, Destination.ToAddresses, Subject.Data and Body.Text.Data. */
  datatype Email = Email(source: string, toAddresses: seq<string>, subject: string, text: string)

  /** What one invocation did: the emails sent, in order, and the response. */
  datatype Outcome = Outcome(sent: seq<Email>, response: Response)

  /** The decoded JSON body: each key maps to a string, or to nothing usable (JSON null). */
  type JsonObject = map<string, Option<string>>

  const LinkPrefix: string := "https://"
  const ConfirmPath: string := "confirm-notification-request?"
  const SubjectPrefix: string := "Confirm request for notifications: "
  const TextPrefix: string := "Visit this link to confirm request: "

  /** `body.get(key)` when the result is truthy: present, not null, not empty. */
  function RequiredField(body: JsonObject, key: string): (v: Option<string>)
    ensures v.Some? <==> key in body && body[key].Some? && body[key].value != ""
    ensures v.Some? ==> body[key] == v
  {
    if key in body && body[key].Some? && body[key].value != "" then body[key] else None
  }

  /** The `[('email', email), ('secret', token)]` list handed to `urlencode`. */
  function LinkParameters(email: string, token: string): (pairs: seq<(string, string)>)
    ensures |pairs| == 2
    ensures pairs[0].0 == "email" && pairs[0].1 == email
    ensures pairs[1].0 == "secret" && pairs[1].1 == token
  {
    [("email", email), ("secret", token)]
  }

  /** `''.join(['https://', domain, '?', path, urlencode(params)])`, double `?` included. */
  function ConfirmationLink(domain: string, email: string, token: string): (link: string)
    ensures |link| > |LinkPrefix| + |domain| + 1 + |ConfirmPath|
    ensures link[..|LinkPrefix|] == LinkPrefix
    ensures link[|LinkPrefix|..|LinkPrefix| + |domain|] == domain
    ensures link[|LinkPrefix| + |domain|..|LinkPrefix| + |domain| + 1 + |ConfirmPath|] == "?" + ConfirmPath
    ensures link[|LinkPrefix| + |domain| + 1 + |ConfirmPath|..] == Urlencode(LinkParameters(email, token))
  {
    var path := "?" + ConfirmPath;
    ConcatSlices(LinkPrefix, domain, path, Urlencode(LinkParameters(email, token)));
    LinkPrefix + domain + path + Urlencode(LinkParameters(email, token))
  }

  /** Each of four joined pieces can be read back by its offsets. */
  lemma ConcatSlices(a: string, b: string, c: string, d: string)
    ensures var s := a + b + c + d;
      && |s| == |a| + |b| + |c| + |d|
      && s[..|a|] == a
      && s[|a|..|a| + |b|] == b
      && s[|a| + |b|..|a| + |b| + |c|] == c
      && s[|a| + |b| + |c|..] == d
  {
  }

  /** The text after the last `?` of a URL. */
  function LastQuery(url: string): string {
    var parts := Split(url, '?');
    parts[|parts| - 1]
  }

  /** After a base ending in `?`, the text past the last `?` parses back into the encoded pairs. */
  lemma LastQueryUrlencode(base: string, pairs: seq<(string, string)>)
    requires |base| > 0 && base[|base| - 1] == '?'
    ensures ParseQuery(LastQuery(base + Urlencode(pairs))) == Some(pairs)
  {
    var front, encoded := base[..|base| - 1], Urlencode(pairs);
    assert base + encoded == front + ['?'] + encoded;
    SplitAppend(front, '?', encoded);
    SplitNoSep(encoded, '?');
    ParseUrlencode(pairs);
  }

  /** The query after the link's last `?` decodes to exactly the email and the
      token, in that order, whatever the domain holds. */
  lemma LinkCarriesEmailAndToken(domain: string, email: string, token: string)
    ensures ParseQuery(LastQuery(ConfirmationLink(domain, email, token))) == Some(LinkParameters(email, token))
  {
    var path := "?" + ConfirmPath;
    var base := LinkPrefix + domain + path;
    assert ConfirmationLink(domain, email, token) == base + Urlencode(LinkParameters(email, token));
    assert base[|base| - 1] == path[|path| - 1];
    LastQueryUrlencode(base, LinkParameters(email, token));
  }

  /** The email `main` sends for a valid request. */
  function ConfirmationEmail(config: Config, email: string, query: string, token: string): (e: Email)
    ensures e.source == config.sender && e.toAddresses == [email]
    ensures |e.subject| >= |SubjectPrefix| && |e.text| >= |TextPrefix|
    ensures e.subject[..|SubjectPrefix|] == SubjectPrefix && e.subject[|SubjectPrefix|..] == query
    ensures e.text[..|TextPrefix|] == TextPrefix
    ensures e.text[|TextPrefix|..] == ConfirmationLink(config.domain, email, token)
  {
    Email(config.sender, [email], SubjectPrefix + query,
          TextPrefix + ConfirmationLink(config.domain, email, token))
  }

  /** The email text still yields the email and the token: the link is its tail. */
  lemma EmailTextCarriesEmailAndToken(config: Config, email: string, query: string, token: string)
    ensures ParseQuery(LastQuery(ConfirmationEmail(config, email, query, token).text))
         == Some(LinkParameters(email, token))
  {
    var path := "?" + ConfirmPath;
    var linkBase := LinkPrefix + config.domain + path;
    var encoded := Urlencode(LinkParameters(email, token));
    var base := TextPrefix + linkBase;
    assert ConfirmationEmail(config, email, query, token).text == TextPrefix + (linkBase + encoded);
    assert TextPrefix + (linkBase + encoded) == base + encoded;
    assert base[|base| - 1] == path[|path| - 1];
    LastQueryUrlencode(base, LinkParameters(email, token));
  }

  /** `main(event, _context)` with `event['body'] = rawBody`; `parse` stands
      for `json.loads` and `token` for `secrets.token_urlsafe(32)`. */
  function Main(config: Config, rawBody: Option<string>, parse: string -> JsonObject, token: string): (o: Outcome)
    ensures (rawBody.None? || rawBody.value == "") ==> o == Outcome([], Rejected)
    ensures rawBody.Some? && rawBody.value != "" ==>
      var body := parse(rawBody.value);
      if RequiredField(body, "email").None? || RequiredField(body, "query").None? then
        o == Outcome([], Rejected)
      else
        o == Outcome([ConfirmationEmail(config, body["email"].value, body["query"].value, token)],
                     Response(Ok, Text("")))
    ensures o.response.body == Text("")
    ensures o.response.statusCode == Ok <==> |o.sent| == 1
    ensures o.response.statusCode in {Ok, BadRequest}
  {
    if rawBody.None? || rawBody.value == "" then Outcome([], Rejected)
    else
      var body := parse(rawBody.value);
      match (RequiredField(body, "email"), RequiredField(body, "query"))
      case (Some(email), Some(query)) =>
        Outcome([ConfirmationEmail(config, email, query, token)], Response(Ok, Text("")))
      case _ => Outcome([], Rejected)
  }

  /** On success the one email goes to the submitted address and its link
      decodes to that address and the token; on failure nothing is sent. */
  lemma MainSendsDecodableLink(config: Config, rawBody: Option<string>, parse: string -> JsonObject, token: string)
    ensures var o := Main(config, rawBody, parse, token);
      o.response.statusCode == Ok ==>
        && o.sent[0].toAddresses == [parse(rawBody.value)["email"].value]
        && ParseQuery(LastQuery(o.sent[0].text))
           == Some([("email", parse(rawBody.value)["email"].value), ("secret", token)])
  {
    var o := Main(config, rawBody, parse, token);
    if o.response.statusCode == Ok {
      var body := parse(rawBody.value);
      EmailTextCarriesEmailAndToken(config, body["email"].value, body["query"].value, token);
    }
  }

}
