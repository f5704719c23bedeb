/** The ext_authz endpoint: from the headers of a check to the response. */
module Gateway {
  import opened Wrappers
  import opened Text
  import opened Utf8
  import opened Cel
  import opened Policy
  import opened Percent
  import opened Request
  import opened Decisions
  import Session

  /** Read-only state shared by all requests. */
  datatype App = App(table: PolicyTable, sessions: Session.SessionStore, portal: string, cookieName: string)

  function SubjectOf(app: App, headers: Headers): Option<Subject> {
    Session.Resolve(app.sessions, FromHeaders(headers).cookie, app.cookieName)
  }

  function Outcome(e: Engine, app: App, headers: Headers): Decision {
    Decide(e, app.table, app.portal, FromHeaders(headers), SubjectOf(app, headers))
  }

  // ----- responses -----

  /** What a field value may hold (section 5.5 of RFC 9110): no control but tab. */
  predicate FieldByte(b: byte) {
    b == 0x9 || (b >= 0x20 && b != 0x7F)
  }

  predicate ValidText(value: string) {
    forall b :: b in Utf8.Encode(value) ==> FieldByte(b)
  }

  type Fields = map<string, seq<byte>>

  /** Setting a field, silently skipped for a value that is not header text. */
  function WithField(fields: Fields, name: string, value: string): Fields {
    if ValidText(value) then fields[name := Utf8.Encode(value)] else fields
  }

  function IdentityFields(subject: Subject): Fields {
    var f := WithField(map[], "remote-user", subject.username);
    var f := WithField(f, "remote-groups", Join(subject.groups, ","));
    var f := WithField(f, "remote-name", subject.name);
    WithField(f, "remote-email", subject.email)
  }

  function StatusOf(d: Decision): int {
    match d
    case Allow(_) => 200
    case Forbidden => 403
    case Redirect(_) => 302
  }

  function FieldsOf(d: Decision): Fields {
    match d
    case Allow(None) => map[]
    case Allow(Some(subject)) => IdentityFields(subject)
    case Forbidden => map[]
    case Redirect(location) => WithField(map[], "location", location)
  }

  class Response {
    const status: int
    var fields: Fields

    constructor (status: int)
      ensures this.status == status && fields == map[]
    {
      this.status := status;
      fields := map[];
    }

    method SetField(name: string, value: string)
      modifies this
      ensures ValidText(value) ==> name in fields && Utf8.Decode(fields[name]) == Some(value)
      ensures !ValidText(value) ==> fields == old(fields)
      ensures forall other :: other != name ==>
                (other in fields <==> other in old(fields)) && (other in fields ==> fields[other] == old(fields)[other])
      ensures fields == WithField(old(fields), name, value)
    {
      Utf8.RoundTrip(value);
      if ValidText(value) {
        fields := fields[name := Utf8.Encode(value)];
      }
    }
  }

  /** The field is there exactly if the text is header text, and reads back as it. */
  predicate Carries(f: Fields, name: string, text: string) {
    && (name in f <==> ValidText(text))
    && (name in f ==> Utf8.Decode(f[name]) == Some(text))
  }

  /** Each identity field carries its own part of the subject, and nothing else is there. */
  predicate CarriesIdentity(f: Fields, subject: Subject) {
    && Carries(f, "remote-user", subject.username)
    && Carries(f, "remote-groups", Join(subject.groups, ","))
    && Carries(f, "remote-name", subject.name)
    && Carries(f, "remote-email", subject.email)
    && f.Keys <= {"remote-user", "remote-groups", "remote-name", "remote-email"}
  }

  lemma IdentityCarried(subject: Subject)
    ensures CarriesIdentity(IdentityFields(subject), subject)
  {
    hide ValidText, Utf8.Encode, Utf8.Decode, Join;
    Utf8.RoundTrip(subject.username);
    Utf8.RoundTrip(Join(subject.groups, ","));
    Utf8.RoundTrip(subject.name);
    Utf8.RoundTrip(subject.email);
    assert "remote-user"[7] == 'u' && "remote-groups"[7] == 'g' && "remote-name"[7] == 'n' && "remote-email"[7] == 'e';
  }

  lemma LocationCarried(location: string)
    ensures Carries(FieldsOf(Redirect(location)), "location", location)
    ensures FieldsOf(Redirect(location)).Keys <= {"location"}
  {
    Utf8.RoundTrip(location);
  }

  method AllowResponse(subject: Option<Subject>) returns (resp: Response)
    ensures fresh(resp)
    ensures resp.status == 200 && resp.fields == FieldsOf(Allow(subject))
    ensures if subject.None? then resp.fields == map[] else CarriesIdentity(resp.fields, subject.value)
  {
    resp := new Response(200);
    if subject.Some? {
      var s := subject.value;
      resp.SetField("remote-user", s.username);
      resp.SetField("remote-groups", Join(s.groups, ","));
      resp.SetField("remote-name", s.name);
      resp.SetField("remote-email", s.email);
      IdentityCarried(s);
    }
  }

  method RedirectResponse(location: string) returns (resp: Response)
    ensures fresh(resp)
    ensures resp.status == 302 && resp.fields == FieldsOf(Redirect(location))
    ensures Carries(resp.fields, "location", location) && resp.fields.Keys <= {"location"}
  {
    resp := new Response(302);
    resp.SetField("location", location);
    LocationCarried(location);
  }

  // ----- end to end -----

  /** The whole endpoint against the raw document: for every document that builds, every
      header list, session store and portal. */
  lemma {:induction false} EndToEnd(e: Engine, routes: seq<StubRoute>, app: App, headers: Headers)
    requires BuildTable(e, routes) == Success(app.table)
    ensures var d, req := Outcome(e, app, headers), FromHeaders(headers);
            match SubjectOf(app, headers)
            case None =>
              if Grants(e, routes, req.host, req.Path(), "", []) then StatusOf(d) == 200 && FieldsOf(d) == map[]
              else StatusOf(d) == 302 && d == Redirect(LoginUrl(app.portal, req.OriginalUrl()))
            case Some(s) =>
              if Grants(e, routes, req.host, req.Path(), s.username, s.groups)
              then StatusOf(d) == 200 && CarriesIdentity(FieldsOf(d), s)
              else StatusOf(d) == 403 && FieldsOf(d) == map[]
  {
    hide FromHeaders, LoginUrl, CarriesIdentity, IdentityFields;
    DecideRefines(e, routes, app.portal, FromHeaders(headers), SubjectOf(app, headers));
    if SubjectOf(app, headers).Some? {
      IdentityCarried(SubjectOf(app, headers).value);
    }
  }

  // ----- the response in terms of what was sent -----

  /** What a header list says; a Cookie header as its pieces between semicolons. */
  datatype Said = Said(proto: Option<string>, forwarded: Option<string>, host: Option<string>,
                       uri: Option<string>, verb: Option<string>, cookies: Option<seq<string>>)
  {
    function Scheme(): string {
      if proto.Some? then proto.value else "https"
    }

    function Target(): string {
      if uri.Some? then uri.value else "/"
    }

    function HostName(): string {
      if forwarded.Some? then forwarded.value else if host.Some? then host.value else ""
    }

    function CookieText(): Option<string> {
      if cookies.Some? then Some(Join(cookies.value, ";")) else None
    }
  }

  ghost predicate Sends(headers: Headers, said: Said) {
    && Says(headers, "x-forwarded-proto", said.proto)
    && Says(headers, "x-forwarded-host", said.forwarded)
    && Says(headers, "host", said.host)
    && Says(headers, "x-forwarded-uri", said.uri)
    && Says(headers, "x-forwarded-method", said.verb)
    && Says(headers, "cookie", said.CookieText())
    && (said.cookies.Some? ==> Session.PiecesOf(Join(said.cookies.value, ";"), said.cookies.value))
  }

  /** `path` is the target up to its query. */
  predicate IsPath(target: string, path: string) {
    '?' !in path && (target == path || path + "?" <= target)
  }

  /** The session token sent: the value in the first piece that gives the configured
      name one. */
  ghost predicate Token(app: App, said: Said, token: string) {
    said.cookies.Some? && Session.FirstGives(said.cookies.value, app.cookieName, token)
  }

  /** The session of a token that is live, or none. */
  ghost predicate SessionIs(app: App, said: Said, who: Option<Subject>) {
    match who
    case Some(s) => exists token :: Token(app, said, token) && token in app.sessions && s == app.sessions[token]
    case None => forall token :: Token(app, said, token) ==> token !in app.sessions
  }

  /** The response the document prescribes for what was sent by `who`. */
  ghost predicate Answers(e: Engine, routes: seq<StubRoute>, app: App, said: Said, path: string,
                          who: Option<Subject>, status: int, fields: Fields)
  {
    var host := Hostnames.New(said.HostName());
    match who
    case None =>
      if Grants(e, routes, host, path, "", []) then status == 200 && fields == map[]
      else
        && status == 302 && fields.Keys <= {"location"}
        && Carries(fields, "location",
                   LoginUrl(app.portal, said.Scheme() + "://" + Lower(said.HostName()) + said.Target()))
    case Some(s) =>
      if Grants(e, routes, host, path, s.username, s.groups) then status == 200 && CarriesIdentity(fields, s)
      else status == 403 && fields == map[]
  }

  lemma CheckOfSent(headers: Headers, said: Said, path: string)
    requires Sends(headers, said) && IsPath(said.Target(), path)
    ensures var r := FromHeaders(headers);
            && r.proto == said.Scheme() && r.host == Hostnames.New(said.HostName()) && r.uri == said.Target()
            && r.cookie == said.CookieText() && r.Path() == path
  {
    hide Says, FromHeaders;
    FromHeadersExact(headers, said.proto, said.forwarded, said.host, said.uri, said.verb, said.CookieText());
    var r := FromHeaders(headers);
    Hostnames.SameKeyIff(r.host, said.HostName());
    assert Hostnames.New(r.host) == r.host;
    PathIff(r, path);
  }

  /** The subject of a check is the live session of the token sent; there is exactly one
      answer to who that is. */
  lemma SubjectOfSent(app: App, headers: Headers, said: Said, path: string, who: Option<Subject>)
    requires Sends(headers, said) && IsPath(said.Target(), path)
    ensures SubjectOf(app, headers) == who <==> SessionIs(app, said, who)
  {
    hide FromHeaders, Says, Session.SessionCookie, Session.FirstGives;
    CheckOfSent(headers, said, path);
    if said.cookies.Some? {
      forall token
        ensures Session.SessionCookie(said.CookieText().value, app.cookieName) == Some(token) <==> Token(app, said, token)
      {
        Session.SessionCookieIff(said.CookieText().value, said.cookies.value, app.cookieName, token);
      }
    }
  }

  /** Every header list says something: there is always one such reading. */
  lemma AlwaysSaid(app: App, headers: Headers) returns (said: Said, path: string, who: Option<Subject>)
    ensures Sends(headers, said) && IsPath(said.Target(), path) && SessionIs(app, said, who)
  {
    hide Says, Header, FromHeaders, SessionIs;
    var proto, forwarded := Header(headers, "x-forwarded-proto"), Header(headers, "x-forwarded-host");
    var host, uri := Header(headers, "host"), Header(headers, "x-forwarded-uri");
    var verb, cookie := Header(headers, "x-forwarded-method"), Header(headers, "cookie");
    HeaderIff(headers, "x-forwarded-proto", proto);
    HeaderIff(headers, "x-forwarded-host", forwarded);
    HeaderIff(headers, "host", host);
    HeaderIff(headers, "x-forwarded-uri", uri);
    HeaderIff(headers, "x-forwarded-method", verb);
    HeaderIff(headers, "cookie", cookie);
    var pieces := if cookie.None? then None else Some(Split(cookie.value, ';'));
    if cookie.Some? {
      Session.PiecesUnique(cookie.value, pieces.value);
    }
    said := Said(proto, forwarded, host, uri, verb, pieces);
    var i := FindChar(said.Target(), '?');
    path := said.Target()[..i];
    assert i < |said.Target()| ==> path + "?" <= said.Target();
    who := SubjectOf(app, headers);
    SubjectOfSent(app, headers, said, path, who);
  }

  /** From the bytes on the wire to the response: for every document that builds and for
      everything a header list can say. */
  lemma AnswersDocument(e: Engine, routes: seq<StubRoute>, app: App, headers: Headers, said: Said, path: string,
                        who: Option<Subject>)
    requires BuildTable(e, routes) == Success(app.table)
    requires Sends(headers, said) && IsPath(said.Target(), path) && SessionIs(app, said, who)
    ensures Answers(e, routes, app, said, path, who,
                    StatusOf(Outcome(e, app, headers)), FieldsOf(Outcome(e, app, headers)))
  {
    hide FromHeaders, Sends, SubjectOf, SessionIs, IdentityFields, CarriesIdentity, Carries, LoginUrl;
    CheckOfSent(headers, said, path);
    SubjectOfSent(app, headers, said, path, who);
    EndToEnd(e, routes, app, headers);
    LocationCarried(LoginUrl(app.portal, FromHeaders(headers).OriginalUrl()));
  }

  /** The endpoint. Its answer is the one the document prescribes for what was sent. */
  method Authz(e: Engine, app: App, headers: Headers) returns (resp: Response)
    ensures fresh(resp)
    ensures resp.status == StatusOf(Outcome(e, app, headers))
    ensures resp.fields == FieldsOf(Outcome(e, app, headers))
    ensures forall routes, said, path, who ::
              && BuildTable(e, routes) == Success(app.table)
              && Sends(headers, said) && IsPath(said.Target(), path) && SessionIs(app, said, who)
              ==> Answers(e, routes, app, said, path, who, resp.status, resp.fields)
  {
    hide BuildTable, Sends, SessionIs, Answers;
    var req := FromHeaders(headers);
    var subject := Session.Resolve(app.sessions, req.cookie, app.cookieName);
    var decision := Decide(e, app.table, app.portal, req, subject);
    match decision {
      case Allow(s) => resp := AllowResponse(s);
      case Forbidden => resp := new Response(403);
      case Redirect(location) => resp := RedirectResponse(location);
    }
    forall routes, said, path, who |
        && BuildTable(e, routes) == Success(app.table)
        && Sends(headers, said) && IsPath(said.Target(), path) && SessionIs(app, said, who)
      ensures Answers(e, routes, app, said, path, who, resp.status, resp.fields)
    {
      AnswersDocument(e, routes, app, headers, said, path, who);
    }
  }

  /** Two checks with one host up to ASCII case, one path, and sessions that agree on
      presence, user name and groups get the same status, whatever their method, scheme,
      query string, cookies, display names and mail addresses. */
  lemma StatusNoninterference(e: Engine, app: App, h1: Headers, h2: Headers)
    requires EqIgnoreCase(RawHost(h1), RawHost(h2))
    requires FromHeaders(h1).Path() == FromHeaders(h2).Path()
    requires SameStanding(SubjectOf(app, h1), SubjectOf(app, h2))
    ensures StatusOf(Outcome(e, app, h1)) == StatusOf(Outcome(e, app, h2))
  {
    Hostnames.SameKeyIff(RawHost(h1), RawHost(h2));
    VerdictNoninterference(e, app.table, app.portal, app.portal, FromHeaders(h1), FromHeaders(h2),
                           SubjectOf(app, h1), SubjectOf(app, h2));
  }

  ghost predicate StatusCanDiffer(app: App, h1: Headers, h2: Headers) {
    exists e, routes :: StatusDiffers(e, routes, app, h1, h2)
  }

  /** Under this engine and document the two checks get different statuses. */
  predicate StatusDiffers(e: Engine, routes: seq<StubRoute>, app: App, h1: Headers, h2: Headers) {
    var t := BuildTable(e, routes);
    t.Success? &&
    StatusOf(Outcome(e, app.(table := t.value), h1)) != StatusOf(Outcome(e, app.(table := t.value), h2))
  }

  /** Conversely each of these five can sway the status: some engine and document tell
      two checks apart exactly when they differ in one of them. */
  lemma StatusSwayIff(app: App, h1: Headers, h2: Headers)
    ensures StatusCanDiffer(app, h1, h2) <==>
            !(&& EqIgnoreCase(RawHost(h1), RawHost(h2))
              && FromHeaders(h1).Path() == FromHeaders(h2).Path()
              && SameStanding(SubjectOf(app, h1), SubjectOf(app, h2)))
  {
    hide Decide, BuildTable, CheckRequest.Path, Header, RawHost;
    Hostnames.SameKeyIff(RawHost(h1), RawHost(h2));
    var r1, r2, s1, s2 := FromHeaders(h1), FromHeaders(h2), SubjectOf(app, h1), SubjectOf(app, h2);
    VerdictSwayIff(r1, s1, r2, s2, app.portal);
    forall e, routes
      ensures StatusDiffers(e, routes, app, h1, h2) == Sways(e, routes, r1, s1, r2, s2, app.portal)
    {
    }
  }

  /** The case of the host, the method and any unread field never show in a response. */
  lemma HostCaseInvisible(e: Engine, app: App, h1: Headers, h2: Headers)
    requires EqIgnoreCase(RawHost(h1), RawHost(h2))
    requires forall name :: name in ["x-forwarded-proto", "x-forwarded-uri", "cookie"] ==>
                              Header(h1, name) == Header(h2, name)
    ensures Outcome(e, app, h1) == Outcome(e, app, h2)
  {
    hide Header, RawHost;
    Hostnames.SameKeyIff(RawHost(h1), RawHost(h2));
    var names := ["x-forwarded-proto", "x-forwarded-uri", "cookie"];
    assert names[0] in names && names[1] in names && names[2] in names;
    assert FromHeaders(h1) == FromHeaders(h2).(verb := FromHeaders(h1).verb);
  }

  // ----- which fields can be sent -----

  lemma ValidChar(c: char)
    ensures ValidText([c]) <==> c == '\t' || (c >= ' ' && c != '\U{7F}')
  {
    var bs := Utf8.EncodeChar(c);
    assert Utf8.Encode([c]) == bs + [] == bs;
    if (c as int) < 0x80 {
      assert bs == [c as int] && bs[0] in bs;
    }
  }

  /** Header text: any characters, those beyond ASCII included, but no control character
      other than tab. */
  lemma {:induction false} ValidTextIff(s: string)
    ensures ValidText(s) <==> forall i :: 0 <= i < |s| ==> s[i] == '\t' || (s[i] >= ' ' && s[i] != '\U{7F}')
  {
    hide ValidText;
    if s == [] {
      NothingValid();
    } else {
      ValidTextIff(s[1..]);
      ValidChar(s[0]);
      ValidAppend([s[0]], s[1..]);
      assert s == [s[0]] + s[1..];
      assert forall i :: 1 <= i < |s| ==> s[i] == s[1..][i - 1];
    }
  }

  lemma NothingValid()
    ensures ValidText([])
  {
  }

  lemma ValidAppend(a: string, b: string)
    ensures ValidText(a + b) <==> ValidText(a) && ValidText(b)
  {
    Utf8.EncodeAppend(a, b);
    var x, y := Utf8.Encode(a), Utf8.Encode(b);
    assert forall c :: c in x + y <==> c in x || c in y;
  }

  lemma {:induction false} PlainValid(s: string)
    requires forall i :: 0 <= i < |s| ==> OutputChar(s[i])
    ensures ValidText(s)
  {
    if s != [] {
      assert s == [s[0]] + s[1..];
      PlainValid(s[1..]);
      assert OutputChar(s[0]);
      assert Utf8.Encode([s[0]]) == [s[0] as int];
      ValidAppend([s[0]], s[1..]);
    }
  }

  lemma LoginUrlValidIff(portal: string, returnTo: string)
    ensures ValidText(LoginUrl(portal, returnTo)) <==> ValidText(portal)
  {
    var encoded := PercentEncode(Utf8.Encode(returnTo));
    EncodeCanonical(Utf8.Encode(returnTo));
    CanonicalPlain(encoded);
    PlainValid(encoded);
    var rd := "?rd=";
    assert rd == ['?'] + ("rd" + ['=']);
    PlainValid("rd");
    assert Utf8.Encode(['?']) == [0x3F] && Utf8.Encode(['=']) == [0x3D];
    hide PercentEncode, Utf8.Encode, Canonical;
    ValidAppend("rd", ['=']);
    ValidAppend(['?'], "rd" + ['=']);
    ValidAppend(rd, encoded);
    assert LoginUrl(portal, returnTo) == portal + (rd + encoded);
    ValidAppend(portal, rd + encoded);
  }

  /** A redirect carries its Location, readable again as the login URL, exactly when the
      configured portal is header text: nothing a request contains can drop it. */
  lemma LocationPresentIff(e: Engine, app: App, headers: Headers)
    requires Outcome(e, app, headers).Redirect?
    ensures var d := Outcome(e, app, headers); var f := FieldsOf(d);
            && StatusOf(d) == 302
            && ("location" in f <==> ValidText(app.portal))
            && ("location" in f ==> Utf8.Decode(f["location"]) == Some(d.location))
  {
    var d := Outcome(e, app, headers);
    LoginUrlValidIff(app.portal, FromHeaders(headers).OriginalUrl());
    Utf8.RoundTrip(d.location);
  }

  lemma {:induction false} JoinValidIff(parts: seq<string>)
    ensures ValidText(Join(parts, ",")) <==> forall i :: 0 <= i < |parts| ==> ValidText(parts[i])
  {
    if |parts| > 1 {
      JoinValidIff(parts[1..]);
      var rest := Join(parts[1..], ",");
      assert Utf8.Encode([',']) == [0x2C];
      ValidAppend(parts[0], ",");
      ValidAppend(parts[0] + ",", rest);
      assert forall i :: 1 <= i < |parts| ==> parts[i] == parts[1..][i - 1];
    }
  }

  /** Each identity field of an allowed session carries its own part of the subject, and
      nothing else is sent; the groups go out exactly when every name is header text. */
  lemma IdentityFieldsExact(subject: Subject)
    ensures CarriesIdentity(IdentityFields(subject), subject)
    ensures "remote-groups" in IdentityFields(subject) <==>
            forall i :: 0 <= i < |subject.groups| ==> ValidText(subject.groups[i])
  {
    hide ValidText, IdentityFields;
    IdentityCarried(subject);
    JoinValidIff(subject.groups);
  }

  /** The application can split the groups field back into the very list exactly when
      the list is nonempty and no name has a comma. */
  lemma GroupsSplitBackIff(groups: seq<string>)
    ensures Split(Join(groups, ","), ',') == groups <==>
            groups != [] && forall i :: 0 <= i < |groups| ==> ',' !in groups[i]
  {
    assert [','] == ",";
    if forall i :: 0 <= i < |groups| ==> ',' !in groups[i] {
      SplitJoin(groups, ',');
    }
  }
}
