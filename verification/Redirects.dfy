/** What a redirect tells about the request it answers. */
module Redirects {
  import opened Wrappers
  import opened Text
  import opened Cel
  import opened Percent
  import opened Request
  import opened Decisions
  import opened Gateway
  import Hostnames
  import Utf8

  /** Portal, scheme, host and target out of a redirect location. */
  function ReadRedirect(location: string): Option<(string, (string, string, string))> {
    match ReadLoginUrl(location)
    case None => None
    case Some((portal, target)) =>
      match SplitUrl(target)
      case None => None
      case Some(parts) => Some((portal, parts))
  }

  predicate SameTarget(r: CheckRequest, q: CheckRequest) {
    r.proto == q.proto && r.host == q.host && r.uri == q.uri
  }

  /** A redirect always gives back the portal and three well-formed parts of the original
      URL; they are the parts the request had exactly when the request is splittable. */
  lemma RedirectRecoveredIff(e: Engine, app: App, headers: Headers)
    requires Outcome(e, app, headers).Redirect?
    ensures var req, read := FromHeaders(headers), ReadRedirect(Outcome(e, app, headers).location);
            && read.Some? && read.value.0 == app.portal
            && (var (p, h, u) := read.value.1;
                && p + "://" + h + u == req.OriginalUrl()
                && SchemeOk(p) && HostOk(h) && TargetOk(u)
                && ((p, h, u) == (req.proto, req.host, req.uri) <==> Splittable(req)))
  {
    var req := FromHeaders(headers);
    LoginUrlRoundTrip(app.portal, req.OriginalUrl());
    SplitUrlReads(req);
    SplitUrlIff(req);
  }

  /** Among splittable requests, of any two applications, a redirect determines the portal
      and the original scheme, host and target. */
  lemma RedirectsAgreeIff(e1: Engine, app1: App, h1: Headers, e2: Engine, app2: App, h2: Headers)
    requires Outcome(e1, app1, h1).Redirect? && Outcome(e2, app2, h2).Redirect?
    requires Splittable(FromHeaders(h1)) && Splittable(FromHeaders(h2))
    ensures Outcome(e1, app1, h1) == Outcome(e2, app2, h2) <==>
            app1.portal == app2.portal && SameTarget(FromHeaders(h1), FromHeaders(h2))
  {
    hide FromHeaders, SubjectOf;
    LoginUrlInjective(app1.portal, FromHeaders(h1).OriginalUrl(), app2.portal, FromHeaders(h2).OriginalUrl());
    SplitUrlIff(FromHeaders(h1));
    SplitUrlIff(FromHeaders(h2));
  }

  /** Whenever two different requests share a redirect, one of them is not splittable. */
  lemma SharedRedirect(e1: Engine, app1: App, h1: Headers, e2: Engine, app2: App, h2: Headers)
    requires Outcome(e1, app1, h1).Redirect? && Outcome(e1, app1, h1) == Outcome(e2, app2, h2)
    requires !SameTarget(FromHeaders(h1), FromHeaders(h2))
    ensures !Splittable(FromHeaders(h1)) || !Splittable(FromHeaders(h2))
  {
    if Splittable(FromHeaders(h1)) && Splittable(FromHeaders(h2)) {
      RedirectsAgreeIff(e1, app1, h1, e2, app2, h2);
    }
  }

  // ----- requests that share a redirect -----

  /** An application that knows no route sends every anonymous request to log in. */
  predicate NoRoutes(app: App) {
    app.table == map[]
  }

  lemma ForwardedOutcome(e: Engine, app: App, proto: string, host: string, uri: string)
    requires NoRoutes(app)
    requires ReadableText(proto) && ReadableText(host) && ReadableText(uri) && Lower(host) == host
    ensures FromHeaders(Forwarded(proto, host, uri)) == CheckRequest(proto, host, uri, "GET", None)
    ensures Outcome(e, app, Forwarded(proto, host, uri)) == Redirect(LoginUrl(app.portal, proto + "://" + host + uri))
  {
    hide FromHeaders, Forwarded, LoginUrl;
    ForwardedReads(proto, host, uri);
  }

  /** Two header lists, their requests different, that get the same redirect. */
  predicate Collide(e: Engine, app: App, h1: Headers, h2: Headers) {
    && Outcome(e, app, h1).Redirect?
    && Outcome(e, app, h1) == Outcome(e, app, h2)
    && !SameTarget(FromHeaders(h1), FromHeaders(h2))
  }

  /** None of the three conditions can be dropped: for each there is a request that only
      fails that one, and a splittable request that shares its redirect. */
  lemma SchemeNeeded(e: Engine, app: App)
    requires NoRoutes(app)
    ensures var h1, h2 := Forwarded("a://b", "c", "/d"), Forwarded("a", "b:", "//c/d");
            && Collide(e, app, h1, h2) && Splittable(FromHeaders(h2))
            && !SchemeOk(FromHeaders(h1).proto) && HostOk(FromHeaders(h1).host) && TargetOk(FromHeaders(h1).uri)
  {
    hide FromHeaders, Forwarded, Outcome;
    LowerFixed("c");
    LowerFixed("b:");
    ForwardedOutcome(e, app, "a://b", "c", "/d");
    ForwardedOutcome(e, app, "a", "b:", "//c/d");
    assert SeparatorAt("a://b", 1);
    assert "a://b" + "://" + "c" + "/d" == "a" + "://" + "b:" + "//c/d";
  }

  lemma HostNeeded(e: Engine, app: App)
    requires NoRoutes(app)
    ensures var h1, h2 := Forwarded("https", "a/b", "/c"), Forwarded("https", "a", "/b/c");
            && Collide(e, app, h1, h2) && Splittable(FromHeaders(h2))
            && SchemeOk(FromHeaders(h1).proto) && !HostOk(FromHeaders(h1).host) && TargetOk(FromHeaders(h1).uri)
  {
    hide FromHeaders, Forwarded, Outcome;
    LowerFixed("a/b");
    LowerFixed("a");
    ForwardedOutcome(e, app, "https", "a/b", "/c");
    ForwardedOutcome(e, app, "https", "a", "/b/c");
    assert "a/b"[1] == '/';
    assert "https" + "://" + "a/b" + "/c" == "https" + "://" + "a" + "/b/c";
  }

  lemma TargetNeeded(e: Engine, app: App)
    requires NoRoutes(app)
    ensures var h1, h2 := Forwarded("https", "a", "b/c"), Forwarded("https", "ab", "/c");
            && Collide(e, app, h1, h2) && Splittable(FromHeaders(h2))
            && SchemeOk(FromHeaders(h1).proto) && HostOk(FromHeaders(h1).host) && !TargetOk(FromHeaders(h1).uri)
  {
    hide FromHeaders, Forwarded, Outcome;
    LowerFixed("a");
    LowerFixed("ab");
    ForwardedOutcome(e, app, "https", "a", "b/c");
    ForwardedOutcome(e, app, "https", "ab", "/c");
    assert "https" + "://" + "a" + "b/c" == "https" + "://" + "ab" + "/c";
  }

  lemma ReadableParts(proto: string, host: string, uri: string)
    requires ReadableText(proto + "://" + host + uri)
    ensures ReadableText(proto) && ReadableText(host) && ReadableText(uri)
  {
    var url := proto + "://" + host + uri;
    assert forall i :: 0 <= i < |proto| ==> proto[i] == url[i];
    assert forall i :: 0 <= i < |host| ==> host[i] == url[|proto| + 3 + i];
    assert forall i :: 0 <= i < |uri| ==> uri[i] == url[|proto| + 3 + |host| + i];
  }

  /** Any way of taking an original URL apart is a request that can be sent and gets the
      same redirect. */
  lemma Resent(e: Engine, app: App, headers: Headers, proto: string, host: string, uri: string)
    requires NoRoutes(app) && Outcome(e, app, headers).Redirect?
    requires proto + "://" + host + uri == FromHeaders(headers).OriginalUrl() && Lower(host) == host
    ensures FromHeaders(Forwarded(proto, host, uri)) == CheckRequest(proto, host, uri, "GET", None)
    ensures Outcome(e, app, Forwarded(proto, host, uri)) == Outcome(e, app, headers)
  {
    hide FromHeaders, Forwarded, LoginUrl;
    CheckReadable(headers);
    assert ReadableText(FromHeaders(headers).OriginalUrl());
    ReadableParts(proto, host, uri);
    ForwardedOutcome(e, app, proto, host, uri);
  }

  /** The splittable requests cannot be extended: what a redirect reads back, if its host
      is lower-case, is itself a splittable request with that redirect, and it differs
      from the request that was answered exactly when that one is not splittable. */
  lemma SplittableTwin(e: Engine, app: App, headers: Headers, proto: string, host: string, uri: string)
    requires NoRoutes(app) && Outcome(e, app, headers).Redirect?
    requires ReadRedirect(Outcome(e, app, headers).location) == Some((app.portal, (proto, host, uri)))
    requires Lower(host) == host
    ensures var twin := Forwarded(proto, host, uri);
            && Outcome(e, app, twin) == Outcome(e, app, headers)
            && Splittable(FromHeaders(twin))
            && (SameTarget(FromHeaders(twin), FromHeaders(headers)) <==> Splittable(FromHeaders(headers)))
  {
    hide FromHeaders, Forwarded, ReadRedirect, Outcome;
    RedirectRecoveredIff(e, app, headers);
    Resent(e, app, headers, proto, host, uri);
  }

  // ----- requests that no other request shares a redirect with -----

  /** No other request gets this redirect. */
  ghost predicate SingledOut(e: Engine, app: App, headers: Headers) {
    forall other :: Outcome(e, app, other) == Outcome(e, app, headers) ==>
      SameTarget(FromHeaders(other), FromHeaders(headers))
  }

  /** No host, a target that cannot be read as the start of one, and only one "://". */
  predicate OneReading(r: CheckRequest) {
    && r.host == ""
    && (r.uri == [] || 'A' <= r.uri[0] <= 'Z')
    && forall j :: 0 <= j < |r.OriginalUrl()| && SeparatorAt(r.OriginalUrl(), j) ==> j == |r.proto|
  }

  lemma HostStart(host: Hostname)
    ensures host == [] || !('A' <= host[0] <= 'Z')
  {
    if host != [] {
      assert Lower(host)[0] == LowerChar(host[0]);
    }
  }

  lemma OnlyReading(r: CheckRequest, q: CheckRequest)
    requires OneReading(r) && r.OriginalUrl() == q.OriginalUrl()
    ensures SameTarget(r, q)
  {
    var url := r.OriginalUrl();
    assert SeparatorAt(q.OriginalUrl(), |q.proto|);
    assert |q.proto| == |r.proto|;
    assert r.proto == url[..|r.proto|] == q.proto;
    assert r.uri == url[|r.proto| + 3..] == q.host + q.uri;
    HostStart(q.host);
    assert q.host == [];
  }

  lemma AnotherReading(r: CheckRequest) returns (proto: string, host: string, uri: string)
    requires !OneReading(r)
    ensures proto + "://" + host + uri == r.OriginalUrl() && Lower(host) == host
    ensures (proto, host, uri) != (r.proto, r.host, r.uri)
  {
    var url := r.OriginalUrl();
    if r.host != "" {
      proto, host, uri := r.proto, "", r.host + r.uri;
    } else if r.uri != [] && !('A' <= r.uri[0] <= 'Z') {
      proto, host, uri := r.proto, [r.uri[0]], r.uri[1..];
      assert r.uri == [r.uri[0]] + r.uri[1..];
    } else {
      var j :| 0 <= j < |url| && SeparatorAt(url, j) && j != |r.proto|;
      proto, host, uri := url[..j], "", url[j + 3..];
      assert url == url[..j] + "://" + url[j + 3..];
    }
  }

  /** On its own, without knowing that the request was splittable, a redirect singles out
      a request only in the rare case that there is just one way to read its URL; any
      request with a host shares its redirect with another one. */
  lemma SingledOutIff(e: Engine, app: App, headers: Headers)
    requires NoRoutes(app) && Outcome(e, app, headers).Redirect?
    ensures SingledOut(e, app, headers) <==> OneReading(FromHeaders(headers))
  {
    hide FromHeaders, Forwarded, LoginUrl, SubjectOf;
    var req := FromHeaders(headers);
    if OneReading(req) {
      forall other | Outcome(e, app, other) == Outcome(e, app, headers)
        ensures SameTarget(FromHeaders(other), req)
      {
        LoginUrlInjective(app.portal, FromHeaders(other).OriginalUrl(), app.portal, req.OriginalUrl());
        OnlyReading(req, FromHeaders(other));
      }
    } else {
      var proto, host, uri := AnotherReading(req);
      Resent(e, app, headers, proto, host, uri);
    }
  }
}
