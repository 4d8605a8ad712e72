/** The HTTP side of the bridge, as decisions: which responses a request
    produces, given the server's state.  `do_GET` and `do_POST` first run
    the access guard, which can emit a 401 challenge and then, because the
    handler does not stop there, a 403; only a request that passes the
    guard is routed to the cache or to the publish path.  `do_HEAD` and
    `do_DELETE` answer 405 to everything. */
module Gateway {
  import opened Wrappers
  import opened Bytes
  import opened AccessGuard
  import opened Topics
  import opened Publish
  import Utf8

  /** The headers the handlers send (the server and date headers that the
      HTTP library adds to every response are not modelled). */
  datatype Header = Connection(option: string) | WwwAuthenticate(challenge: string) | ContentLength(length: nat)

  /** One response written to the connection: status line, headers, body. */
  datatype Response = Response(status: int, headers: seq<Header>, body: seq<byte>)

  const Close := Connection("close")
  const Realm := "Basic realm=\"REST4MQTT\""

  /** A body-less response that closes the connection. */
  function Plain(status: int): Response {
    Response(status, [Close], [])
  }

  /** The 401 challenge. */
  function Challenge(): Response {
    Response(401, [WwwAuthenticate(Realm), Close], [])
  }

  /** A 200 carrying `data`, with its length announced. */
  function Content(data: seq<byte>): Response {
    Response(200, [ContentLength(|data|), Close], data)
  }

  /** The cache: for every subscribed (or since received) topic path, the
      last payload as text, or None before any message arrived. */
  type Cache = map<string, Option<string>>

  /** The responses the guard itself writes: a challenge when the header is
      missing, then a 403 when the check fails. */
  function GuardResponses(auth: Option<string>, header: Option<string>): (sent: seq<Response>)
    ensures |sent| <= 2
    ensures sent == [] <==> CheckAuth(auth, header)
    ensures Challenge() in sent <==> NeedAuth(auth) && HeaderMissing(header)
    ensures Challenge() in sent ==> sent == [Challenge(), Plain(403)]
    ensures !(NeedAuth(auth) && HeaderMissing(header)) ==> |sent| <= 1
    ensures !CheckAuth(auth, header) ==> sent[|sent| - 1] == Plain(403)
  {
    (if NeedAuth(auth) && HeaderMissing(header) then [Challenge()] else [])
    + (if !CheckAuth(auth, header) then [Plain(403)] else [])
  }

  /** The GET route: 204 for a topic with no message yet, 200 with the
      payload's UTF-8 bytes for one with a message, 404 otherwise. */
  function ReadRoute(cache: Cache, path: string): (r: Response)
    ensures r.status == 404 <==> path !in cache
    ensures r.status == 204 <==> path in cache && cache[path].None?
    ensures r.status == 200 <==> path in cache && cache[path].Some?
    ensures r.status == 200 ==> r.body == Utf8.Encode(cache[path].value) && ContentLength(|r.body|) in r.headers
    ensures r.status != 200 ==> r.body == []
    ensures Close in r.headers
  {
    if path in cache then
      match cache[path]
      case None => Plain(204)
      case Some(text) => Content(Utf8.Encode(text))
    else Plain(404)
  }

  /** Everything `do_GET` writes. */
  function GetResponses(auth: Option<string>, header: Option<string>, cache: Cache, path: string): seq<Response>
  {
    GuardResponses(auth, header) + (if CheckAuth(auth, header) then [ReadRoute(cache, path)] else [])
  }

  /** `self.rfile.read(length)` on the request stream: -1 reads to the end,
      any other negative length raises ValueError (None), and a
      non-negative one reads up to that many bytes. */
  function ReadBody(stream: seq<byte>, length: int): (r: Option<seq<byte>>)
    ensures r.None? <==> length < -1
    ensures r.Some? ==> |r.value| <= |stream| && r.value == stream[..|r.value|]
    ensures r.Some? && length >= 0 ==> |r.value| == if length < |stream| then length else |stream|
    ensures length == -1 ==> r == Some(stream)
  {
    if length < -1 then None
    else if length == -1 then Some(stream)
    else if length < |stream| then Some(stream[..length])
    else Some(stream)
  }

  /** What a POST writes and what it hands to the MQTT client. */
  datatype Exchange = Exchange(sent: seq<Response>, published: Option<Message>)

  /** The POST route, reached once the guard passed: 404 for a path outside
      the publish set; otherwise read Content-Length bytes (0 when the
      header is absent), decode them, publish to `path[1:]` and answer
      with `mqtt_publish`'s status.  A read or decode that raises ends the
      request with nothing written and nothing published. */
  function PublishRoute(pubs: set<string>, path: string, contentLength: Option<int>, stream: seq<byte>,
                        hasClient: bool, call: ClientCall): Exchange
  {
    if path !in pubs then Exchange([Plain(404)], None)
    else
      var length := if contentLength.Some? then contentLength.value else 0;
      match ReadBody(stream, length)
      case None => Exchange([], None)
      case Some(body) =>
        match Utf8.Decode(body)
        case None => Exchange([], None)
        case Some(payload) =>
          var attempt := MqttPublish(hasClient, TopicOf(path), payload, call);
          Exchange([Plain(attempt.status)], attempt.sent)
  }

  /** Everything `do_POST` writes and publishes. */
  function PostExchange(auth: Option<string>, header: Option<string>, pubs: set<string>, path: string,
                        contentLength: Option<int>, stream: seq<byte>, hasClient: bool, call: ClientCall): Exchange
  {
    if CheckAuth(auth, header) then PublishRoute(pubs, path, contentLength, stream, hasClient, call)
    else Exchange(GuardResponses(auth, header), None)
  }

  /** `do_HEAD` and `do_DELETE`. */
  function NotAllowed(): seq<Response> {
    [Plain(405)]
  }

  // Properties of the decisions

  /** A credential is set and the header is missing: the handler writes the
      401 challenge, then a 403, and neither reads the cache nor publishes. */
  lemma MissingHeaderChallengedThenForbidden(auth: Option<string>, header: Option<string>, cache: Cache,
      pubs: set<string>, path: string, contentLength: Option<int>, stream: seq<byte>, hasClient: bool, call: ClientCall)
    requires NeedAuth(auth) && HeaderMissing(header)
    ensures GetResponses(auth, header, cache, path) == [Challenge(), Plain(403)]
    ensures PostExchange(auth, header, pubs, path, contentLength, stream, hasClient, call) == Exchange([Challenge(), Plain(403)], None)
  {
    MissingHeaderFails(auth, header);
  }

  /** A header that is present but not the token gets exactly one 403. */
  lemma WrongCredentialForbidden(auth: Option<string>, header: Option<string>, cache: Cache,
      pubs: set<string>, path: string, contentLength: Option<int>, stream: seq<byte>, hasClient: bool, call: ClientCall)
    requires NeedAuth(auth) && !HeaderMissing(header) && header != auth
    ensures GetResponses(auth, header, cache, path) == [Plain(403)]
    ensures PostExchange(auth, header, pubs, path, contentLength, stream, hasClient, call) == Exchange([Plain(403)], None)
  {
  }

  /** A request that passes the guard (the exact token, or any request when
      no credential is set) is served as if the guard were off. */
  lemma AuthorizedAsIfOpen(auth: Option<string>, header: Option<string>, cache: Cache,
      pubs: set<string>, path: string, contentLength: Option<int>, stream: seq<byte>, hasClient: bool, call: ClientCall)
    requires CheckAuth(auth, header)
    ensures GetResponses(auth, header, cache, path) == GetResponses(None, None, cache, path) == [ReadRoute(cache, path)]
    ensures PostExchange(auth, header, pubs, path, contentLength, stream, hasClient, call)
         == PostExchange(None, None, pubs, path, contentLength, stream, hasClient, call)
  {
  }

  /** Every GET ends in exactly one final response (401 is only ever
      followed by 403), every response closes the connection, and only a
      200 carries a body. */
  lemma GetShape(auth: Option<string>, header: Option<string>, cache: Cache, path: string)
    ensures var sent := GetResponses(auth, header, cache, path);
      && 1 <= |sent| <= 2
      && (|sent| == 2 ==> sent == [Challenge(), Plain(403)])
      && sent[|sent| - 1].status in {200, 204, 403, 404}
      && (forall r | r in sent :: Close in r.headers && (r.body != [] ==> r.status == 200))
  {
  }

  /** A POST never answers with a body, answers at most once past the
      guard, and publishes only after the guard passed and the path is in
      the publish set; its final status is one of 403, 404, 200, 500. */
  lemma PostShape(auth: Option<string>, header: Option<string>, pubs: set<string>, path: string,
      contentLength: Option<int>, stream: seq<byte>, hasClient: bool, call: ClientCall)
    ensures var x := PostExchange(auth, header, pubs, path, contentLength, stream, hasClient, call);
      && |x.sent| <= 2
      && (|x.sent| == 2 ==> x.sent == [Challenge(), Plain(403)])
      && (x.sent != [] ==> x.sent[|x.sent| - 1].status in {200, 403, 404, 500})
      && (forall r | r in x.sent :: r.body == [] && Close in r.headers)
      && (x.published.Some? ==> CheckAuth(auth, header) && path in pubs && hasClient)
  {
  }

  /** A POST to a path outside the publish set is a 404 once past the guard. */
  lemma PostUnknownPath(auth: Option<string>, header: Option<string>, pubs: set<string>, path: string,
      contentLength: Option<int>, stream: seq<byte>, hasClient: bool, call: ClientCall)
    requires CheckAuth(auth, header) && path !in pubs
    ensures PostExchange(auth, header, pubs, path, contentLength, stream, hasClient, call) == Exchange([Plain(404)], None)
  {
  }

  /** A POST to the path of topic t that passes the guard publishes exactly
      the bytes it read, to t itself, and answers with the publish status:
      200 only when the message went out. */
  lemma PostPublishesBody(auth: Option<string>, header: Option<string>, pubs: set<string>, t: string,
      length: nat, stream: seq<byte>, hasClient: bool, call: ClientCall)
    requires CheckAuth(auth, header) && Path(t) in pubs
    requires Utf8.Decode(ReadBody(stream, length).value).Some?
    ensures var x := PostExchange(auth, header, pubs, Path(t), Some(length), stream, hasClient, call);
      && |x.sent| == 1
      && (x.sent[0] == Plain(200) <==> hasClient && OutcomeOf(call) == Published)
      && (x.sent[0] != Plain(200) ==> x.sent[0] == Plain(500))
      && (hasClient ==> x.published == Some(Message(t, ReadBody(stream, length).value, 0, false)))
  {
    var body := ReadBody(stream, length).value;
    TopicOfPath(t);
    Utf8.EncodeDecode(body);
  }

  /** After a message with a well-formed payload has been cached under its
      topic, a GET of that topic answers 200 with exactly the bytes that
      arrived. */
  lemma ReadAfterMessage(cache: Cache, topic: string, payload: seq<byte>)
    requires Utf8.Decode(payload).Some?
    ensures ReadRoute(cache[Path(topic) := Utf8.Decode(payload)], Path(topic)) == Content(payload)
  {
    Utf8.EncodeDecode(payload);
  }
}
