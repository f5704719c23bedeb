/** The in-memory policy table: compiling a parsed document of routes and resolving a
    host and a path to the policy that governs them. */
module Policy {
  import opened Wrappers
  import opened Cel
  import Hostnames

  type Hostname = Hostnames.Hostname

  datatype StubExtra = StubExtra(pathRegex: string, policy: string)

  datatype StubRoute = StubRoute(host: string, defaultPolicy: string, extraPolicy: seq<StubExtra>)

  datatype Extra = Extra(regex: Regex, policy: CompiledPolicy)

  datatype RoutePolicy = RoutePolicy(defaultPolicy: CompiledPolicy, extra: seq<Extra>)

  type PolicyTable = map<Hostname, RoutePolicy>

  datatype CompileError = BadRegex(regexError: PathRegexError) | BadPolicy(policyError: CelPolicyError)

  // ----- compiling -----

  function CompileExtra(e: Engine, x: StubExtra): Result<Extra, CompileError> {
    match CompilePathRegex(e, x.pathRegex)
    case Failure(error) => Failure(BadRegex(error))
    case Success(regex) =>
      match CompileCelPolicy(e, x.policy)
      case Failure(error) => Failure(BadPolicy(error))
      case Success(policy) => Success(Extra(regex, policy))
  }

  function CompileExtras(e: Engine, xs: seq<StubExtra>): Result<seq<Extra>, CompileError> {
    if xs == [] then Success([])
    else
      match CompileExtra(e, xs[0])
      case Failure(error) => Failure(error)
      case Success(first) =>
        match CompileExtras(e, xs[1..])
        case Failure(error) => Failure(error)
        case Success(rest) => Success([first] + rest)
  }

  function CompileRoute(e: Engine, raw: StubRoute): Result<(Hostname, RoutePolicy), CompileError> {
    match CompileExtras(e, raw.extraPolicy)
    case Failure(error) => Failure(error)
    case Success(extra) =>
      match CompileCelPolicy(e, raw.defaultPolicy)
      case Failure(error) => Failure(BadPolicy(error))
      case Success(policy) => Success((Hostnames.New(raw.host), RoutePolicy(policy, extra)))
  }

  /** Collecting compiled routes left to right into a hash map: the first error ends it,
      a later route overwrites an earlier one of the same host. */
  function BuildTable(e: Engine, routes: seq<StubRoute>): Result<PolicyTable, CompileError> {
    if routes == [] then Success(map[])
    else
      match BuildTable(e, routes[..|routes| - 1])
      case Failure(error) => Failure(error)
      case Success(table) =>
        match CompileRoute(e, routes[|routes| - 1])
        case Failure(error) => Failure(error)
        case Success((host, route)) => Success(table[host := route])
  }

  // ----- resolving -----

  /** Position of the first entry whose regex matches, or the length. */
  function FirstMatch(e: Engine, extra: seq<Extra>, path: string): (k: nat)
    ensures k <= |extra|
    ensures k < |extra| ==> e.isMatch(extra[k].regex, path)
    ensures forall j :: 0 <= j < k ==> !e.isMatch(extra[j].regex, path)
  {
    if extra == [] || e.isMatch(extra[0].regex, path) then 0
    else 1 + FirstMatch(e, extra[1..], path)
  }

  function Select(e: Engine, route: RoutePolicy, path: string): CompiledPolicy {
    var k := FirstMatch(e, route.extra, path);
    if k < |route.extra| then route.extra[k].policy else route.defaultPolicy
  }

  function Resolve(e: Engine, table: PolicyTable, host: Hostname, path: string): Option<CompiledPolicy> {
    if host in table then Some(Select(e, table[host], path)) else None
  }

  // ----- what a route must satisfy, said directly -----

  predicate PolicyOk(e: Engine, expr: string) {
    Yields(e, expr, SAMPLE, true) || Yields(e, expr, SAMPLE, false)
  }

  predicate ExtraOk(e: Engine, x: StubExtra) {
    e.compileRegex(x.pathRegex).Success? && PolicyOk(e, x.policy)
  }

  predicate RouteOk(e: Engine, r: StubRoute) {
    PolicyOk(e, r.defaultPolicy) && forall x :: x in r.extraPolicy ==> ExtraOk(e, x)
  }

  /** `p` was compiled from `expr`. */
  predicate FromExpr(e: Engine, p: CompiledPolicy, expr: string) {
    e.compileProgram(expr) == Success(p.program)
  }

  /** Every entry of the document is there, in document order. */
  predicate FromRoute(e: Engine, c: RoutePolicy, r: StubRoute) {
    && FromExpr(e, c.defaultPolicy, r.defaultPolicy)
    && |c.extra| == |r.extraPolicy|
    && forall i :: 0 <= i < |c.extra| ==>
         && e.compileRegex(r.extraPolicy[i].pathRegex) == Success(c.extra[i].regex)
         && FromExpr(e, c.extra[i].policy, r.extraPolicy[i].policy)
  }

  lemma CompileExtraExact(e: Engine, x: StubExtra)
    ensures var c := CompileExtra(e, x);
            && (c.Success? <==> ExtraOk(e, x))
            && (c.Success? ==> e.compileRegex(x.pathRegex) == Success(c.value.regex)
                               && FromExpr(e, c.value.policy, x.policy))
  {
  }

  lemma {:induction false} CompileExtrasExact(e: Engine, xs: seq<StubExtra>)
    ensures var c := CompileExtras(e, xs);
            && (c.Success? <==> forall x :: x in xs ==> ExtraOk(e, x))
            && (c.Success? ==> |c.value| == |xs| && forall i :: 0 <= i < |xs| ==>
                    && e.compileRegex(xs[i].pathRegex) == Success(c.value[i].regex)
                    && FromExpr(e, c.value[i].policy, xs[i].policy))
  {
    if xs != [] {
      CompileExtrasExact(e, xs[1..]);
      CompileExtraExact(e, xs[0]);
      assert xs == [xs[0]] + xs[1..];
    }
  }

  /** Compiling a route succeeds exactly when all its parts are well formed, and drops
      or reorders nothing. */
  lemma CompileRouteExact(e: Engine, r: StubRoute)
    ensures var c := CompileRoute(e, r);
            && (c.Success? <==> RouteOk(e, r))
            && (c.Success? ==> c.value.0 == Hostnames.New(r.host) && FromRoute(e, c.value.1, r))
  {
    CompileExtrasExact(e, r.extraPolicy);
  }

  /** Position of the last route of `host`, or -1. */
  function LastRoute(routes: seq<StubRoute>, host: Hostname): (k: int)
    ensures -1 <= k < |routes|
    ensures k >= 0 ==> Hostnames.New(routes[k].host) == host
    ensures forall j :: k < j < |routes| ==> Hostnames.New(routes[j].host) != host
  {
    if routes == [] then -1
    else if Hostnames.New(routes[|routes| - 1].host) == host then |routes| - 1
    else LastRoute(routes[..|routes| - 1], host)
  }

  /** One host's entry: there exactly when the document names the host, and then the
      compilation of its last route. */
  predicate EntryOf(e: Engine, table: PolicyTable, routes: seq<StubRoute>, h: Hostname) {
    var k := LastRoute(routes, h);
    && (h in table <==> k >= 0)
    && (k >= 0 ==> CompileRoute(e, routes[k]) == Success((h, table[h])))
  }

  /** The table of a document, said without the fold. */
  ghost predicate TableOf(e: Engine, table: PolicyTable, routes: seq<StubRoute>) {
    forall h: Hostname :: EntryOf(e, table, routes, h)
  }

  lemma {:induction false} BuildExact(e: Engine, routes: seq<StubRoute>)
    ensures var t := BuildTable(e, routes);
            && (t.Success? <==> forall r :: r in routes ==> RouteOk(e, r))
            && (t.Success? ==> TableOf(e, t.value, routes))
  {
    if routes != [] {
      var n := |routes| - 1;
      BuildExact(e, routes[..n]);
      CompileRouteExact(e, routes[n]);
      assert forall r :: r in routes <==> r in routes[..n] || r == routes[n];
      if BuildTable(e, routes).Success? {
        var table := BuildTable(e, routes).value;
        forall h: Hostname
          ensures EntryOf(e, table, routes, h)
        {
          assert EntryOf(e, BuildTable(e, routes[..n]).value, routes[..n], h);
          if Hostnames.New(routes[n].host) != h {
            assert LastRoute(routes, h) == LastRoute(routes[..n], h);
          }
        }
      }
    }
  }

  /** A failed build reports the first route that does not compile. */
  lemma {:induction false} BuildBlames(e: Engine, routes: seq<StubRoute>) returns (k: nat)
    requires BuildTable(e, routes).Failure?
    ensures k < |routes| && CompileRoute(e, routes[k]) == Failure(BuildTable(e, routes).error)
    ensures forall j :: 0 <= j < k ==> RouteOk(e, routes[j])
  {
    var n := |routes| - 1;
    BuildExact(e, routes[..n]);
    if BuildTable(e, routes[..n]).Failure? {
      k := BuildBlames(e, routes[..n]);
    } else {
      k := n;
      assert forall j :: 0 <= j < n ==> routes[j] == routes[..n][j] && routes[j] in routes[..n];
    }
  }

  // ----- the document as the specification -----

  /** `expr` is the first matching override of `r` for `path`, else its default. */
  ghost predicate PathSelects(e: Engine, r: StubRoute, path: string, expr: string) {
    || (exists i :: 0 <= i < |r.extraPolicy| && Overrides(e, r, path, i) && expr == r.extraPolicy[i].policy)
    || ((forall i :: 0 <= i < |r.extraPolicy| ==> !PatternMatches(e, r.extraPolicy[i], path))
        && expr == r.defaultPolicy)
  }

  predicate PatternMatches(e: Engine, x: StubExtra, path: string) {
    e.compileRegex(x.pathRegex).Success? && e.isMatch(e.compileRegex(x.pathRegex).value, path)
  }

  predicate Overrides(e: Engine, r: StubRoute, path: string, i: int)
    requires 0 <= i < |r.extraPolicy|
  {
    && PatternMatches(e, r.extraPolicy[i], path)
    && forall j :: 0 <= j < i ==> !PatternMatches(e, r.extraPolicy[j], path)
  }

  /** `routes[k]` is the last route of the host and selects `expr` for the path. */
  ghost predicate Governs(e: Engine, routes: seq<StubRoute>, host: Hostname, path: string, k: int, expr: string) {
    && 0 <= k < |routes|
    && Hostnames.New(routes[k].host) == host
    && (forall j :: k < j < |routes| ==> Hostnames.New(routes[j].host) != host)
    && PathSelects(e, routes[k], path, expr)
  }

  lemma SelectRefines(e: Engine, c: RoutePolicy, r: StubRoute, path: string) returns (expr: string)
    requires FromRoute(e, c, r)
    ensures PathSelects(e, r, path, expr) && FromExpr(e, Select(e, c, path), expr)
  {
    var k := FirstMatch(e, c.extra, path);
    assert forall i :: 0 <= i < |c.extra| ==>
        PatternMatches(e, r.extraPolicy[i], path) == e.isMatch(c.extra[i].regex, path);
    if k < |c.extra| {
      expr := r.extraPolicy[k].policy;
      assert Overrides(e, r, path, k);
    } else {
      expr := r.defaultPolicy;
    }
  }

  /** The document itself says which expression governs a request; the compiled table
      resolves to exactly the program of that expression, and to nothing where the
      document has no route for the host. */
  lemma ResolveRefines(e: Engine, routes: seq<StubRoute>, host: Hostname, path: string) returns (k: int, expr: string)
    requires BuildTable(e, routes).Success?
    ensures var p := Resolve(e, BuildTable(e, routes).value, host, path);
            if p.Some? then Governs(e, routes, host, path, k, expr) && FromExpr(e, p.value, expr)
            else forall r :: r in routes ==> Hostnames.New(r.host) != host
  {
    BuildExact(e, routes);
    var table := BuildTable(e, routes).value;
    k, expr := LastRoute(routes, host), "";
    assert EntryOf(e, table, routes, host);
    if host in table {
      CompileRouteExact(e, routes[k]);
      expr := SelectRefines(e, table[host], routes[k], path);
    }
  }

  /** At most one expression governs, so the specification is a function too. */
  lemma GovernsUnique(e: Engine, routes: seq<StubRoute>, host: Hostname, path: string,
                      k1: int, x1: string, k2: int, x2: string)
    requires Governs(e, routes, host, path, k1, x1) && Governs(e, routes, host, path, k2, x2)
    ensures k1 == k2 && x1 == x2
  {
  }

  lemma SelectedOk(e: Engine, r: StubRoute, path: string, expr: string)
    requires RouteOk(e, r) && PathSelects(e, r, path, expr)
    ensures PolicyOk(e, expr)
  {
    if i :| 0 <= i < |r.extraPolicy| && Overrides(e, r, path, i) && expr == r.extraPolicy[i].policy {
      assert ExtraOk(e, r.extraPolicy[i]);
    }
  }

  /** Whatever a built table resolves to has a boolean verdict on the sample subject. */
  lemma ResolvedWasDryRun(e: Engine, routes: seq<StubRoute>, host: Hostname, path: string)
    requires BuildTable(e, routes).Success?
    ensures var p := Resolve(e, BuildTable(e, routes).value, host, path);
            p.Some? ==> p.value.Evaluate(e, SAMPLE).Success?
  {
    var k, expr := ResolveRefines(e, routes, host, path);
    if Resolve(e, BuildTable(e, routes).value, host, path).Some? {
      assert RouteOk(e, routes[k]) by { BuildExact(e, routes); }
      SelectedOk(e, routes[k], path, expr);
    }
  }
}
