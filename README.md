# rest4mqtt bridge, modelled in Dafny

rest4mqtt bridges MQTT and HTTP. Messages that arrive on subscribed MQTT
topics are cached and served by HTTP GET at `/<topic>`. An HTTP POST to
`/<topic>` publishes its body to that topic and answers with a status
code that depends on whether the broker confirmed the publish. One
optional HTTP Basic credential guards every GET and POST. HEAD and
DELETE are always refused with 405.

This project models the bridging engine in `rest4mqtt.py`:

- `Bytes`, `Wrappers`: octets and optional values (Python's `None`).
- `Utf8`: UTF-8 encoding of strings, and the strict decoding that
  Python's `bytes.decode('utf-8')` performs. The two are proved inverse
  in both directions.
- `Base64`: the encoding of section 4 of RFC 4648
  (`base64.b64encode`), with a decoder as its partner. The round trip
  and the exact output length are proved.
- `Topics`: the topic filter. It rejects empty topics and the MQTT
  wildcards `+` and `#` (section 4.7.1 of MQTT v3.1.1). It also covers
  the `"/" + topic` resource paths and the lists that the registration
  loops accept.
- `AccessGuard`: `set_auth`'s token (section 2 of RFC 7617),
  `need_auth` and `check_auth`.
- `Publish`: `mqtt_publish`, which maps a publish outcome to status 200
  or 500.
- `Gateway`: the responses each handler writes, as decisions over the
  server state. This reproduces the double response (401 then 403)
  that `do_GET` and `do_POST` write when a credential is set and the
  request has no Authorization header.
- `Bridge`: the `Server` class. It holds the shared state: the topic
  cache (`data_cache`), the publish set (`pub_topics`), the credential
  and the client. The class covers the startup registration loops, the
  MQTT message callback and the four handlers as methods. Each handler
  method is proved equal to its decision in `Gateway`.

Each response is a `Response(status, headers, body)`. A handler's
result is the sequence of responses it writes to the connection. A
cached payload is kept as text, just as the program keeps the decoded
`str`. The UTF-8 round trip then proves that a GET returns exactly the
bytes that arrived.

Three behaviours of the code shape the model:

- A GET or POST that fails the guard is answered with 403, or with 401
  then 403, and is never routed (rest4mqtt.py:48-56, 72-80). So a POST
  to a path outside the publish set gets 404 only once the guard passed
  (`Gateway.PostShape`, `Gateway.PostUnknownPath`).
- `mqtt_publish` calls `wait_for_publish()` with no timeout
  (rest4mqtt.py:139). The model takes the wait's result as an input.
- `set_auth` returns early only when both the user and the password are
  empty (rest4mqtt.py:117). A user with an empty password, or a password
  with an empty user, still turns the guard on.

## Model

| member | source | states |
|---|---|---|
| `Utf8.DecodeEncode` | rest4mqtt.py:119 | decoding the UTF-8 encoding of any string gives the string back |
| `Utf8.EncodeDecode` | rest4mqtt.py:88 | bytes that decode re-encode to exactly the same bytes (decode in the callback, encode in GET lose nothing) |
| `Utf8.EncodeInjective` | rest4mqtt.py:119 | distinct strings have distinct UTF-8 encodings |
| `Base64.EncodeLength` | rest4mqtt.py:119 | the encoding of n bytes has 4 * ceil(n / 3) characters |
| `Base64.EncodeAlphabet` | rest4mqtt.py:119 | every character of the encoding is in the Base64 alphabet or is '=', so `.decode('ascii')` cannot fail |
| `Base64.DecodeEncode` | rest4mqtt.py:119 | decoding the encoding gives back the original bytes |
| `Base64.EncodeInjective` | rest4mqtt.py:119 | distinct byte strings have distinct encodings |
| `Utf8.Encode` | rest4mqtt.py:88 | definition, no contract of its own: the UTF-8 bytes of a string, character by character (`str.encode('utf8')`); `Utf8.DecodeEncode`, `Utf8.EncodeDecode` and `Utf8.EncodeInjective` state what it does |
| `Utf8.Decode` | rest4mqtt.py:36 | definition, no contract of its own: strict UTF-8 decoding, None where Python's `decode('utf-8')` raises (a bad lead or continuation byte, an overlong form, a surrogate, a value above U+10FFFF, a truncated sequence); the two round-trip lemmas state it |
| `Base64.Encode` | rest4mqtt.py:119 | definition, no contract of its own: `base64.b64encode`; `Base64.EncodeLength`, `Base64.EncodeAlphabet`, `Base64.DecodeEncode` and `Base64.Rfc4648Examples` state what it does |
| `Base64.DigitIsAlphabet` | rest4mqtt.py:119 | the character written for a 6-bit value x is entry x of the 64-character alphabet of RFC 4648 Table 1 |
| `Base64.Rfc4648Examples` | rest4mqtt.py:119 | the encoder gives the outputs listed in section 10 of RFC 4648 ("", "Zg==", "Zm8=", "Zm9v", "Zm9vYmFy") and "+/+/" for the bytes FB FF BF |
| `AccessGuard.BasicToken` | rest4mqtt.py:119 | the token is "Basic " followed by a non-empty ASCII Base64 text, so it is never empty |
| `AccessGuard.NeedAuth` | rest4mqtt.py:130-131 | definition, no contract of its own: a credential is stored and it is not the empty string (the truth value of `self.auth`) |
| `AccessGuard.HeaderMissing` | rest4mqtt.py:72 | definition, no contract of its own: the Authorization header is absent or empty (`not self.headers.get('Authorization')`, also at line 48) |
| `AccessGuard.CheckAuth` | rest4mqtt.py:122-128 | without a credential every request passes; with one, a request passes iff its header equals the token (a missing header fails) |
| `AccessGuard.MissingHeaderFails` | rest4mqtt.py:122-131 | with a credential set, a missing or empty Authorization header fails the check |
| `AccessGuard.TokenCarriesCredential` | rest4mqtt.py:119 | the token's Base64 part decodes to the UTF-8 of "user:pass", which decodes to "user:pass" |
| `AccessGuard.TokenInjective` | rest4mqtt.py:119 | two credentials share a token only if their "user:pass" strings are equal |
| `AccessGuard.ConfiguredGuard` | rest4mqtt.py:116-131 | once a token is stored, `need_auth` holds and a request passes iff it presents exactly that token |
| `AccessGuard.GuardAcceptsExactCredential` | rest4mqtt.py:119-128 | a client sending the Basic token of some user and password passes iff its "user:pass" is the configured one |
| `Publish.OutcomeOf` | rest4mqtt.py:136-147 | definition, no contract of its own: a call that raises, or whose wait raises, is an exception; otherwise the message is published iff `is_published()` held at once or after the wait |
| `Publish.MqttPublish` | rest4mqtt.py:133-147 | the status is 200 or 500; it is 200 iff a client is set and the message was published (at once or after the wait); a client set means the publish was issued to `topic` with the payload's UTF-8 bytes, QoS 0 and no retain |
| `Topics.Supported` | rest4mqtt.py:188 | definition, no contract of its own: the topic is non-empty and contains neither '+' nor '#' (the same test is at line 195) |
| `Topics.Path` | rest4mqtt.py:192 | definition, no contract of its own: the resource path `"/" + topic` |
| `Topics.TopicOf` | rest4mqtt.py:61 | definition, no contract of its own: `path[1:]`, which is "" for the empty path |
| `Topics.TopicOfPath` | rest4mqtt.py:61 | `path[1:]` of `"/" + t` is `t` |
| `Topics.PathOfTopic` | rest4mqtt.py:61 | for a path starting with '/', `"/" + path[1:]` is the path |
| `Topics.PathInjective` | rest4mqtt.py:192 | distinct topics get distinct paths |
| `Topics.SupportedPath` | rest4mqtt.py:188 | a topic's path is a topic path iff the topic is non-empty and wildcard-free |
| `Topics.Accepted` | rest4mqtt.py:187-200 | a topic is accepted from a list iff it is in the list, non-empty and free of '+' and '#' |
| `Topics.AcceptedPaths` | rest4mqtt.py:187-200 | a path is registered from a list iff it is "/" + t for a non-empty, wildcard-free t of that list |
| `Topics.AcceptedPathsSupported` | rest4mqtt.py:192 | every registered path is "/" followed by a non-empty, wildcard-free topic |
| `Topics.UnsupportedNeverRegistered` | rest4mqtt.py:188-190 | an empty or wildcard topic is never accepted and its path never registered |
| `Gateway.GuardResponses` | rest4mqtt.py:72-80 | the guard writes nothing iff the check passes; a 401 is written iff a credential is set and the header is missing, and it is always followed by a 403; a failed check always ends in 403 |
| `Gateway.ReadRoute` | rest4mqtt.py:81-98 | a path not in the cache gives 404; a path with no message gives 204; a path with a payload gives 200 with the payload's UTF-8 bytes as body and a Content-length equal to the body length; only 200 has a body |
| `Gateway.ReadBody` | rest4mqtt.py:58-59 | reading `length` bytes gives a prefix of the stream: length -1 gives all of it, a smaller negative length raises, otherwise the result has min(length, available) bytes |
| `Gateway.GetResponses` | rest4mqtt.py:71-98 | definition, no contract of its own: the guard's responses, then the read route when the check passes; `Gateway.GetShape` and the guard lemmas state it |
| `Gateway.PublishRoute` | rest4mqtt.py:57-69 | definition, no contract of its own: a path in the publish set reads Content-Length bytes (0 when absent), decodes them, publishes the text to `path[1:]` and answers with the publish status, and a read or decode that raises writes and publishes nothing; any other path is a 404 |
| `Gateway.PostExchange` | rest4mqtt.py:47-69 | definition, no contract of its own: the guard's responses, then the publish route when the check passes; `Gateway.PostShape`, `Gateway.PostUnknownPath` and `Gateway.PostPublishesBody` state it |
| `Gateway.NotAllowed` | rest4mqtt.py:42-45 | definition, no contract of its own: one 405 that closes the connection (also at lines 100-103) |
| `Gateway.MissingHeaderChallengedThenForbidden` | rest4mqtt.py:48-56 | credential set and header missing: GET and POST write exactly 401 then 403, and POST publishes nothing |
| `Gateway.WrongCredentialForbidden` | rest4mqtt.py:72-80 | credential set and a wrong header: GET and POST write exactly one 403, and POST publishes nothing |
| `Gateway.AuthorizedAsIfOpen` | rest4mqtt.py:53-57 | a request that passes the guard is answered exactly as with no credential configured |
| `Gateway.GetShape` | rest4mqtt.py:71-98 | a GET writes one or two responses: only 401 is ever followed by another response (a 403); it ends in 200, 204, 403 or 404; every response closes the connection; only 200 has a body |
| `Gateway.PostShape` | rest4mqtt.py:47-69 | a POST writes at most two responses: only 401 is followed by another (a 403); none has a body; the last is 200, 403, 404 or 500; a publish happens only after the guard passed, for a path in the publish set, with a client set |
| `Gateway.PostUnknownPath` | rest4mqtt.py:65-69 | past the guard, a POST to a path outside the publish set is exactly one 404 and publishes nothing |
| `Gateway.PostPublishesBody` | rest4mqtt.py:57-64 | past the guard, a POST to "/" + t in the publish set writes one response: 200 iff the client published, else 500. With a client set, it publishes exactly the bytes read to topic t |
| `Gateway.ReadAfterMessage` | rest4mqtt.py:34-36 | after a message with a UTF-8 payload is cached under its topic, a GET of the topic's path gives 200 with exactly the bytes that arrived |
| `Bridge.RegisteredReadsNoContent` | rest4mqtt.py:194-200 | in the cache the subscribe loop builds, a GET of a path gives 204 iff the path is "/" + t for a non-empty, wildcard-free t of the subscribe list |
| `Bridge.AuthAfter` | rest4mqtt.py:116-119 | definition, no contract of its own: the credential is unchanged when both user and password are empty, otherwise it is the Basic token; `Bridge.Server.SetAuth` states it |
| `Bridge.Server.constructor` | rest4mqtt.py:107-108 | empty cache and publish set, no credential, no client |
| `Bridge.Server.SetAuth` | rest4mqtt.py:116-120 | both user and password empty: the credential is untouched; otherwise it becomes the Basic token and `need_auth` holds |
| `Bridge.Server.SetMqttClient` | rest4mqtt.py:113-114 | the server has a client |
| `Bridge.Server.OnMqttMessage` | rest4mqtt.py:34-36 | a UTF-8 payload's text replaces the entry at "/" + topic, registered or not (last write wins), and every other entry is unchanged; a payload that fails to decode leaves the cache as it was |
| `Bridge.Server.EnablePublishing` | rest4mqtt.py:187-192 | the publish set grows by exactly the paths of the list's non-empty, wildcard-free topics |
| `Bridge.Server.Subscribe` | rest4mqtt.py:194-200 | the accepted topics are subscribed in order, and the cache gains exactly their paths, each with no message |
| `Bridge.Server.DoHead` | rest4mqtt.py:42-45 | exactly one 405, whatever the state and the request |
| `Bridge.Server.DoDelete` | rest4mqtt.py:100-103 | exactly one 405, whatever the state and the request |
| `Bridge.Server.DoGet` | rest4mqtt.py:71-98 | the responses written step by step are exactly the GET decision over the current credential and cache |
| `Bridge.Server.DoPost` | rest4mqtt.py:47-69 | the responses written and the message published are exactly the POST decision over the current credential, publish set and client |
| `Bridge.Startup` | rest4mqtt.py:187-205 | after startup the publish set and the cache hold exactly the accepted topics' paths, cache entries have no message, the subscriptions are the accepted subscribe topics, the credential is set iff user or password is non-empty, and the client is set |
| `Bridge.PublishOnlyTopicNotReadable` | rest4mqtt.py:94-98 | a topic that is not in the subscribe list is not readable: GET of its path is 404 |
| `Bridge.FreshSubscriptionNoContent` | rest4mqtt.py:83-86 | a freshly subscribed, supported topic reads as 204 with no body |
| `Bridge.UnsupportedTopicIgnored` | rest4mqtt.py:187-200 | an empty or wildcard topic is neither readable nor publishable, and no subscription to it is issued |

## Left out

- HTTP and socket plumbing (`ThreadingMixIn`, `HTTPServer`, `serve_forever`, header parsing, writing to `wfile`) is not modelled. A response is its status, the headers the handlers send and its body. The `Server` and `Date` headers that the HTTP library adds are not modelled. Content-length is kept as a number, not as its decimal text. A request path is the raw `self.path` as the HTTP library hands it over; no percent-decoding or normalisation is modelled, and none is done by the program.
- Content-Length parsing is not modelled. The model takes the header as already parsed, with None meaning the header is absent (read as 0). A malformed value makes `int()` raise; that case is not modelled.
- The paho MQTT client is not modelled (`connect`, `loop_start`, `subscribe`, `publish`, `is_published`, `wait_for_publish`). What one publish does is a `ClientCall` input. A subscription is recorded only as an entry in `subscribed`. Messages arrive as calls to `OnMqttMessage`.
- Bridge.Server.OnMqttMessage: the model does not capture what the MQTT library does after the callback raises on a payload that is not UTF-8; only the unchanged cache is modelled.
- Bridge.Server.OnMqttMessage: keeps the "every key is a topic path" invariant only for non-empty, wildcard-free topics. MQTT forbids wildcards in the topic name of a PUBLISH, but the model does not assume it.
- Concurrency between the MQTT callback thread and the per-request HTTP threads is not modelled. That includes a message that arrives between `subscribe` and the `None` registration and is then overwritten. The model is sequential.
- A handler that raises (a bad read length, or a body that is not UTF-8) ends the request with nothing written and nothing published. The library's error report and connection close are not modelled.
- Configuration reading (`configparser`, the environment variable, `.strip()`, `.split()`) is not modelled. The model takes the topic lists and the credential as already-split inputs.
- The VERSION file, logging, the random client id and the top-level exception handling are not modelled.
- `Base64.Decode` exists only to state the round trip of the encoder; the program never decodes Base64. (`Utf8.Decode` is part of the model: it stands for Python's strict `decode('utf-8')` at lines 36 and 59.)
- Publish.MqttPublish: the model assumes that `wait_for_publish()` (rest4mqtt.py:139) returns or raises. A wait that never returns leaves the POST with no response at all; `Gateway.PostShape` and `Gateway.PostPublishesBody` do not cover that case.
