/** The running bridge: the state that the MQTT callback and the HTTP
    handlers share (the topic cache and the publish set, module globals
    in the program, and the server's credential and client), the startup
    registration, and the four request handlers. */
module Bridge {
  import opened Wrappers
  import opened Bytes
  import opened Topics
  import opened AccessGuard
  import opened Publish
  import opened Gateway
  import Utf8

  /** The cache a subscribe list registers: every accepted topic's path,
      with no message yet. */
  function Registrations(ts: seq<string>): (m: Cache)
    ensures m.Keys == PathSet(ts)
    ensures forall p :: p in m ==> m[p].None?
  {
    map p | p in PathSet(ts) :: None
  }

  lemma RegistrationsSnoc(ts: seq<string>, t: string)
    ensures Registrations(ts + [t]) == Registrations(ts)[Path(t) := None]
  {
    PathSetSnoc(ts, t);
  }

  lemma UnionUpdate(m: Cache, n: Cache, p: string)
    ensures (m + n)[p := None] == m + n[p := None]
  {
  }

  /** The credential `set_auth(user, pass)` leaves in place of `current`:
      untouched when both are empty, the Basic token otherwise. */
  function AuthAfter(current: Option<string>, user: string, pass: string): Option<string> {
    if user == "" && pass == "" then current else Some(BasicToken(user, pass))
  }

  class Server {
    /** `data_cache`: topic path to the last payload, None before any. */
    var cache: Cache
    /** `pub_topics`: the paths a POST may publish to. */
    var pubs: set<string>
    /** `self.auth`: the Basic token, None when no credential is set. */
    var auth: Option<string>
    /** `self.mqtt_client` is set. */
    var hasClient: bool
    /** The topics subscribed at the broker, in the order of the calls. */
    var subscribed: seq<string>

    /** Every path the bridge serves or publishes to stands for a supported
        topic, every subscription is to a supported topic, and a set
        credential is never empty. */
    ghost predicate Valid()
      reads this
    {
      && (forall p :: p in cache ==> IsTopicPath(p))
      && (forall p :: p in pubs ==> IsTopicPath(p))
      && (forall i :: 0 <= i < |subscribed| ==> Supported(subscribed[i]))
      && (auth.Some? ==> NeedAuth(auth))
    }

    /** A server before startup: empty globals, `auth = None`,
        `mqtt_client = None`. */
    constructor ()
      ensures Valid()
      ensures cache == map[] && pubs == {} && auth == None && !hasClient && subscribed == []
    {
      cache := map[];
      pubs := {};
      auth := None;
      hasClient := false;
      subscribed := [];
    }

    /** `set_auth`. */
    method SetAuth(user: string, pass: string)
      modifies this`auth
      ensures auth == AuthAfter(old(auth), user, pass)
      ensures old(Valid()) ==> Valid()
      ensures !(user == "" && pass == "") ==> NeedAuth(auth)
    {
      if user == "" && pass == "" {
        return;
      }
      auth := Some(BasicToken(user, pass));
    }

    /** `set_mqtt_client`. */
    method SetMqttClient()
      modifies this`hasClient
      ensures hasClient
    {
      hasClient := true;
    }

    /** `on_mqtt_message`: the decoded payload replaces whatever was cached
        under the topic's path, registered or not; every other path is
        left alone.  A payload that is not UTF-8 makes the decode raise,
        and the cache is left as it was (`decoded` is false). */
    method OnMqttMessage(topic: string, payload: seq<byte>) returns (decoded: bool)
      modifies this`cache
      ensures decoded <==> Utf8.Decode(payload).Some?
      ensures decoded ==> cache == old(cache)[Path(topic) := Utf8.Decode(payload)]
      ensures !decoded ==> cache == old(cache)
      ensures old(Valid()) && Supported(topic) ==> Valid()
    {
      var text := Utf8.Decode(payload);
      if text.None? {
        return false;
      }
      SupportedPath(topic);
      cache := cache[Path(topic) := text];
      return true;
    }

    /** The publish loop of startup: each configured topic that is not
        empty and has no wildcard adds its path to the publish set. */
    method EnablePublishing(topics: seq<string>)
      modifies this`pubs
      ensures pubs == old(pubs) + PathSet(Accepted(topics))
      ensures old(Valid()) ==> Valid()
    {
      for i := 0 to |topics|
        invariant pubs == old(pubs) + PathSet(Accepted(topics[..i]))
      {
        var pub := topics[i];
        ghost var done := Accepted(topics[..i]);
        assert topics[..i + 1] == topics[..i] + [pub];
        AcceptedSnoc(topics[..i], pub);
        if pub == "" || '+' in pub || '#' in pub {
          assert Accepted(topics[..i + 1]) == done;
          continue;
        }
        assert Accepted(topics[..i + 1]) == done + [pub];
        PathSetSnoc(done, pub);
        pubs := pubs + {Path(pub)};
      }
      assert topics[..|topics|] == topics;
      if old(Valid()) {
        AddAcceptedPaths(old(pubs), topics);
      }
    }

    /** The subscribe loop of startup: each configured topic that is not
        empty and has no wildcard is subscribed at the broker and entered
        in the cache with no message. */
    method Subscribe(topics: seq<string>)
      modifies this`cache, this`subscribed
      ensures subscribed == old(subscribed) + Accepted(topics)
      ensures cache == old(cache) + Registrations(Accepted(topics))
      ensures old(Valid()) ==> Valid()
    {
      for i := 0 to |topics|
        invariant subscribed == old(subscribed) + Accepted(topics[..i])
        invariant cache == old(cache) + Registrations(Accepted(topics[..i]))
      {
        var sub := topics[i];
        ghost var done := Accepted(topics[..i]);
        assert topics[..i + 1] == topics[..i] + [sub];
        AcceptedSnoc(topics[..i], sub);
        if sub == "" || '+' in sub || '#' in sub {
          assert Accepted(topics[..i + 1]) == done;
          continue;
        }
        assert Accepted(topics[..i + 1]) == done + [sub];
        RegistrationsSnoc(done, sub);
        UnionUpdate(old(cache), Registrations(done), Path(sub));
        subscribed := subscribed + [sub];
        cache := cache[Path(sub) := None];
      }
      assert topics[..|topics|] == topics;
      AcceptedPathsSupported(topics);
    }

    /** `do_HEAD`: 405 whatever the request and the state. */
    method DoHead() returns (sent: seq<Response>)
      ensures sent == NotAllowed() && |sent| == 1 && sent[0].status == 405
    {
      sent := NotAllowed();
    }

    /** `do_DELETE`: 405 whatever the request and the state. */
    method DoDelete() returns (sent: seq<Response>)
      ensures sent == NotAllowed() && |sent| == 1 && sent[0].status == 405
    {
      sent := NotAllowed();
    }

    /** `do_GET`, response by response. */
    method DoGet(header: Option<string>, path: string) returns (sent: seq<Response>)
      ensures sent == GetResponses(auth, header, cache, path)
    {
      sent := [];
      if NeedAuth(auth) && HeaderMissing(header) {
        sent := sent + [Challenge()];
      }
      if !CheckAuth(auth, header) {
        sent := sent + [Plain(403)];
      } else if path in cache {
        var entry := cache[path];
        if entry.None? {
          sent := sent + [Plain(204)];
        } else {
          var data := Utf8.Encode(entry.value);
          sent := sent + [Content(data)];
        }
      } else {
        sent := sent + [Plain(404)];
      }
    }

    /** `do_POST`, response by response; `call` is what the MQTT client
        does with the publish. */
    method DoPost(header: Option<string>, path: string, contentLength: Option<int>, stream: seq<byte>, call: ClientCall)
      returns (sent: seq<Response>, published: Option<Message>)
      ensures Exchange(sent, published) == PostExchange(auth, header, pubs, path, contentLength, stream, hasClient, call)
    {
      sent, published := [], None;
      if NeedAuth(auth) && HeaderMissing(header) {
        sent := sent + [Challenge()];
      }
      if !CheckAuth(auth, header) {
        sent := sent + [Plain(403)];
      } else if path in pubs {
        var length := if contentLength.Some? then contentLength.value else 0;
        var body := ReadBody(stream, length);
        if body.None? {
          return;
        }
        var payload := Utf8.Decode(body.value);
        if payload.None? {
          return;
        }
        var attempt := MqttPublish(hasClient, TopicOf(path), payload.value, call);
        sent := sent + [Plain(attempt.status)];
        published := attempt.sent;
      } else {
        sent := sent + [Plain(404)];
      }
    }
  }

  /** Startup as `main` wires it: publish topics, subscribe topics, the
      credential, the client. */
  method Startup(subs: seq<string>, pubTopics: seq<string>, user: string, pass: string) returns (s: Server)
    ensures fresh(s) && s.Valid()
    ensures s.pubs == PathSet(Accepted(pubTopics))
    ensures s.cache == Registrations(Accepted(subs))
    ensures s.subscribed == Accepted(subs)
    ensures s.auth == AuthAfter(None, user, pass)
    ensures s.hasClient
  {
    s := new Server();
    s.EnablePublishing(pubTopics);
    s.Subscribe(subs);
    s.SetAuth(user, pass);
    s.SetMqttClient();
  }

  // What a client sees right after startup

  /** A topic configured only for publishing cannot be read: GET on its
      path is a 404 (once past the guard). */
  lemma PublishOnlyTopicNotReadable(subs: seq<string>, t: string)
    requires t !in subs
    ensures ReadRoute(Registrations(Accepted(subs)), Path(t)) == Plain(404)
  {
    AcceptedPaths(subs, Path(t));
    TopicOfPath(t);
  }

  /** Right after the subscribe loop, a path reads as 204 exactly when it
      is "/" followed by a supported topic of the subscribe list. */
  lemma RegisteredReadsNoContent(subs: seq<string>, p: string)
    ensures ReadRoute(Registrations(Accepted(subs)), p).status == 204 <==> IsTopicPath(p) && TopicOf(p) in subs
  {
    AcceptedPaths(subs, p);
  }

  /** A freshly subscribed topic reads as 204 with no body. */
  lemma FreshSubscriptionNoContent(subs: seq<string>, t: string)
    requires t in subs && Supported(t)
    ensures ReadRoute(Registrations(Accepted(subs)), Path(t)) == Plain(204)
  {
    assert Path(t) in PathSet(Accepted(subs));
  }

  /** A topic that is empty or has a wildcard is neither readable nor
      publishable, and no subscription to it is issued. */
  lemma UnsupportedTopicIgnored(subs: seq<string>, pubTopics: seq<string>, t: string)
    requires !Supported(t)
    ensures Path(t) !in Registrations(Accepted(subs)) && Path(t) !in PathSet(Accepted(pubTopics))
    ensures t !in Accepted(subs)
  {
    UnsupportedNeverRegistered(subs, t);
    UnsupportedNeverRegistered(pubTopics, t);
  }
}
