/** The authorization decision: a check, a subject and a table give an outcome. */
module Decisions {
  import opened Wrappers
  import opened Text
  import opened Cel
  import opened Policy
  import opened Percent
  import opened Request

  datatype Decision = Allow(subject: Option<Subject>) | Forbidden | Redirect(location: string)

  function Deny(portal: string, req: CheckRequest, authenticated: bool): Decision {
    if authenticated then Forbidden else Redirect(LoginUrl(portal, req.OriginalUrl()))
  }

  /** Anonymous requests are evaluated as nobody. */
  function Who(subject: Option<Subject>): Subject {
    UnwrapOr(subject, NOBODY)
  }

  function Decide(e: Engine, table: PolicyTable, portal: string, req: CheckRequest, subject: Option<Subject>): Decision {
    match Resolve(e, table, req.host, req.Path())
    case None => Deny(portal, req, subject.Some?)
    case Some(policy) =>
      if policy.Evaluate(e, Who(subject)) == Success(true) then Allow(subject)
      else Deny(portal, req, subject.Some?)
  }

  /** The expression that governs host and path compiles, and runs to true on the
      activation of this user name and these groups. */
  ghost predicate Grants(e: Engine, routes: seq<StubRoute>, host: Hostname, path: string,
                         user: string, groups: seq<string>)
  {
    exists k, expr :: Governs(e, routes, host, path, k, expr) && RunsTrue(e, expr, user, groups)
  }

  predicate RunsTrue(e: Engine, expr: string, user: string, groups: seq<string>) {
    && e.compileProgram(expr).Success?
    && e.execute(e.compileProgram(expr).value,
                 map["user" := Variable.Text(user), "groups" := List(groups), "claims" := Dict(map[])])
       == Success(Bool(true))
  }

  /** Deciding on the compiled table gives what the document says. An anonymous request
      is allowed exactly if the governing expression is true of the empty user name and
      no groups, and is sent to log in otherwise; a session is allowed exactly if the
      expression is true of its own user name and groups, and is forbidden otherwise (no
      route, `false`, an evaluation error, a value that is no boolean). */
  lemma DecideRefines(e: Engine, routes: seq<StubRoute>, portal: string, req: CheckRequest, subject: Option<Subject>)
    requires BuildTable(e, routes).Success?
    ensures Decide(e, BuildTable(e, routes).value, portal, req, subject) ==
            match subject
            case None => if Grants(e, routes, req.host, req.Path(), "", []) then Allow(None)
                         else Redirect(LoginUrl(portal, req.OriginalUrl()))
            case Some(s) => if Grants(e, routes, req.host, req.Path(), s.username, s.groups) then Allow(Some(s))
                            else Forbidden
  {
    var k, expr := ResolveRefines(e, routes, req.host, req.Path());
    var p := Resolve(e, BuildTable(e, routes).value, req.host, req.Path());
    var user := if subject.None? then "" else subject.value.username;
    var groups := if subject.None? then [] else subject.value.groups;
    if p.Some? {
      assert RunsTrue(e, expr, user, groups) <==> p.value.Evaluate(e, Who(subject)) == Success(true);
      if Grants(e, routes, req.host, req.Path(), user, groups) {
        var j, other :| Governs(e, routes, req.host, req.Path(), j, other) && RunsTrue(e, other, user, groups);
        GovernsUnique(e, routes, req.host, req.Path(), k, expr, j, other);
      }
    } else {
      forall j | 0 <= j < |routes|
        ensures Hostnames.New(routes[j].host) != req.host
      {
        assert routes[j] in routes;
      }
    }
  }

  predicate SameKind(c: Decision, d: Decision) {
    (c.Allow? <==> d.Allow?) && (c.Forbidden? <==> d.Forbidden?)
  }

  /** Alike for every policy: both anonymous, or sessions with one identity. */
  predicate SameStanding(s: Option<Subject>, t: Option<Subject>) {
    (s.Some? <==> t.Some?) && (s.Some? ==> SameIdentity(s.value, t.value))
  }

  /** Only host, path, presence of a session, user name and groups can sway a verdict. */
  lemma VerdictNoninterference(e: Engine, table: PolicyTable, p1: string, p2: string,
                               r1: CheckRequest, r2: CheckRequest, s1: Option<Subject>, s2: Option<Subject>)
    requires r1.host == r2.host && r1.Path() == r2.Path()
    requires SameStanding(s1, s2)
    ensures SameKind(Decide(e, table, p1, r1, s1), Decide(e, table, p2, r2, s2))
  {
    ActivationIff(Who(s1), Who(s2));
  }

  // ----- and each of these can -----

  /** Constant policies, one policy that knows a single activation, and patterns that
      match just one path; every program yields a boolean. */
  function Discerning(known: Context): Engine {
    Engine(source => Success(Program(source)),
           (program: Program, ctx) => Success(Bool(program.source == "true" || (program.source == "known" && ctx == known))),
           pattern => Success(Regex(pattern)),
           (re: Regex, path) => path == re.pattern)
  }

  lemma DiscerningBuilds(known: Context, route: StubRoute)
    ensures var t := BuildTable(Discerning(known), [route]);
            t.Success? && t.value.Keys == {Hostnames.New(route.host)}
            && FromRoute(Discerning(known), t.value[Hostnames.New(route.host)], route)
  {
    var e := Discerning(known);
    CompileRouteExact(e, route);
    assert forall expr :: Yields(e, expr, SAMPLE, true) || Yields(e, expr, SAMPLE, false);
    assert [route][..0] == [];
    assert BuildTable(e, [route][..0]) == Success(map[]);
  }

  /** A host route of one default policy and one override. */
  function Route(host: Hostname, default: string, pattern: string): StubRoute {
    StubRoute(host, default, [StubExtra(pattern, "true")])
  }

  lemma DiscerningDecides(known: Context, host: Hostname, default: string, pattern: string,
                          portal: string, req: CheckRequest, subject: Option<Subject>)
    ensures var e := Discerning(known); var t := BuildTable(e, [Route(host, default, pattern)]);
            && t.Success?
            && (Decide(e, t.value, portal, req, subject).Allow? <==>
                  && req.host == host
                  && (|| req.Path() == pattern
                      || default == "true"
                      || (default == "known" && Activation(Who(subject)) == known)))
            && (Decide(e, t.value, portal, req, subject).Forbidden? ==> subject.Some?)
            && (Decide(e, t.value, portal, req, subject).Redirect? ==> subject.None?)
  {
    hide LoginUrl;
    var e := Discerning(known);
    assert Hostnames.New(host) == host;
    DiscerningBuilds(known, Route(host, default, pattern));
    var t := BuildTable(e, [Route(host, default, pattern)]).value;
    assert t.Keys == {host};
    assert host in t;
    var k := FirstMatch(e, t[host].extra, req.Path());
    assert t[host].extra[0].regex.pattern == pattern;
  }

  ghost predicate CanSway(r1: CheckRequest, s1: Option<Subject>, r2: CheckRequest, s2: Option<Subject>, portal: string) {
    exists e, routes :: Sways(e, routes, r1, s1, r2, s2, portal)
  }

  predicate Sways(e: Engine, routes: seq<StubRoute>, r1: CheckRequest, s1: Option<Subject>,
                  r2: CheckRequest, s2: Option<Subject>, portal: string) {
    var t := BuildTable(e, routes);
    t.Success? && !SameKind(Decide(e, t.value, portal, r1, s1), Decide(e, t.value, portal, r2, s2))
  }

  /** Some engine and document tell two checks apart exactly when they differ in host, in
      path, in presence of a session, in user name or in groups. */
  lemma VerdictSwayIff(r1: CheckRequest, s1: Option<Subject>, r2: CheckRequest, s2: Option<Subject>, portal: string)
    ensures CanSway(r1, s1, r2, s2, portal) <==>
            !(r1.host == r2.host && r1.Path() == r2.Path() && SameStanding(s1, s2))
  {
    hide Decide, BuildTable, CheckRequest.Path;
    if r1.host == r2.host && r1.Path() == r2.Path() && SameStanding(s1, s2) {
      forall e, routes
        ensures !Sways(e, routes, r1, s1, r2, s2, portal)
      {
        if BuildTable(e, routes).Success? {
          VerdictNoninterference(e, BuildTable(e, routes).value, portal, portal, r1, r2, s1, s2);
        }
      }
    } else {
      var known := Activation(Who(s1));
      ActivationIff(Who(s1), Who(s2));
      var apart := r1.host == r2.host && r1.Path() != r2.Path();
      var default := if r1.host != r2.host then "true" else if apart || s1.Some? != s2.Some? then "false" else "known";
      var pattern := if apart then r1.Path() else r1.Path() + "#";
      DiscerningDecides(known, r1.host, default, pattern, portal, r1, s1);
      DiscerningDecides(known, r1.host, default, pattern, portal, r2, s2);
      assert Sways(Discerning(known), [Route(r1.host, default, pattern)], r1, s1, r2, s2, portal);
    }
  }
}
