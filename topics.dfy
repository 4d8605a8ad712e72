/** Topics and the resource paths that expose them over HTTP.  A topic
    `t` is served at the path "/" + t; the bridge refuses topics that
    are empty or carry an MQTT wildcard ('+' single-level, '#'
    multi-level, section 4.7.1 of MQTT v3.1.1). */
module Topics {

  /** The test of the registration loops, negated: `not t or "+" in t or "#" in t`
      rejects the topic. */
  predicate Supported(t: string) {
    t != "" && '+' !in t && '#' !in t
  }

  /** The path a topic is cached and published under: `"/" + t`. */
  function Path(t: string): string {
    "/" + t
  }

  /** Python's `path[1:]`: the topic a path names (empty for an empty path). */
  function TopicOf(p: string): string {
    if |p| == 0 then "" else p[1..]
  }

  /** A path that stands for a supported topic. */
  predicate IsTopicPath(p: string) {
    |p| > 0 && p[0] == '/' && Supported(p[1..])
  }

  /** `path[1:]` recovers the topic from its path. */
  lemma TopicOfPath(t: string)
    ensures TopicOf(Path(t)) == t
  {
    assert Path(t)[1..] == t;
  }

  /** And the path from the topic, for any path that starts with '/'. */
  lemma PathOfTopic(p: string)
    requires |p| > 0 && p[0] == '/'
    ensures Path(TopicOf(p)) == p
  {
    assert p == [p[0]] + p[1..];
  }

  /** Distinct topics have distinct paths. */
  lemma PathInjective(t: string, u: string)
    requires Path(t) == Path(u)
    ensures t == u
  {
    TopicOfPath(t);
    TopicOfPath(u);
  }

  /** A topic's path is a topic path exactly when the topic is supported. */
  lemma SupportedPath(t: string)
    ensures IsTopicPath(Path(t)) <==> Supported(t)
  {
    TopicOfPath(t);
  }

  /** The topics of a configured list that a registration loop accepts,
      in the order the loop meets them. */
  function Accepted(ts: seq<string>): (r: seq<string>)
    ensures forall t :: t in r <==> t in ts && Supported(t)
    ensures |r| <= |ts|
  {
    if ts == [] then []
    else
      var init, last := ts[..|ts| - 1], ts[|ts| - 1];
      assert ts == init + [last];
      Accepted(init) + (if Supported(last) then [last] else [])
  }

  lemma AcceptedSnoc(ts: seq<string>, t: string)
    ensures Accepted(ts + [t]) == Accepted(ts) + (if Supported(t) then [t] else [])
  {
    assert (ts + [t])[..|ts|] == ts;
  }

  /** The paths of a list of topics. */
  function PathSet(ts: seq<string>): set<string> {
    set t | t in ts :: Path(t)
  }

  lemma PathSetSnoc(ts: seq<string>, t: string)
    ensures PathSet(ts + [t]) == PathSet(ts) + {Path(t)}
  {
  }

  /** A path is registered from a topic list exactly when it is the path
      of a supported topic of that list: this is the whole effect of the
      filter on what the bridge serves. */
  lemma AcceptedPaths(ts: seq<string>, p: string)
    ensures p in PathSet(Accepted(ts)) <==> IsTopicPath(p) && TopicOf(p) in ts
  {
    if p in PathSet(Accepted(ts)) {
      var t :| t in Accepted(ts) && Path(t) == p;
      TopicOfPath(t);
    }
    if IsTopicPath(p) && TopicOf(p) in ts {
      PathOfTopic(p);
      assert TopicOf(p) in Accepted(ts);
    }
  }

  /** Every registered path stands for a supported topic. */
  lemma AcceptedPathsSupported(ts: seq<string>)
    ensures forall p :: p in PathSet(Accepted(ts)) ==> IsTopicPath(p)
  {
    forall p | p in PathSet(Accepted(ts)) {
      AcceptedPaths(ts, p);
    }
  }

  /** Adding a list's registered paths to a set of topic paths keeps it a
      set of topic paths. */
  lemma AddAcceptedPaths(s: set<string>, ts: seq<string>)
    requires forall p :: p in s ==> IsTopicPath(p)
    ensures forall p :: p in s + PathSet(Accepted(ts)) ==> IsTopicPath(p)
  {
    AcceptedPathsSupported(ts);
  }

  /** A topic that carries a wildcard, or is empty, is never registered
      under any path. */
  lemma UnsupportedNeverRegistered(ts: seq<string>, t: string)
    requires !Supported(t)
    ensures t !in Accepted(ts) && Path(t) !in PathSet(Accepted(ts))
  {
    SupportedPath(t);
    AcceptedPaths(ts, Path(t));
  }
}
