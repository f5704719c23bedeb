/** What the dry run of a policy promises about later sessions, for one engine at a time
    and with no more assumed of it than the rules of CEL the example at hand uses. */
module DryRun {
  import opened Wrappers
  import opened Cel
  import opened Policy
  import opened Admission
  import opened Request
  import opened Decisions
  import opened Percent
  import Hostnames

  /** Compiling a text and running it for a subject. */
  function RunOf(e: Engine, expr: string, s: Subject): Result<Value, string> {
    match e.compileProgram(expr)
    case Failure(why) => Failure(why)
    case Success(program) => e.execute(program, Activation(s))
  }

  predicate Compiles(e: Engine, expr: string) {
    e.compileProgram(expr).Success?
  }

  // ----- a policy that is admitted and does not always evaluate -----

  const SECOND_GROUP := "groups[1] == \"admins\""

  /** Indexing a list works within its length and fails beyond it. */
  ghost predicate IndexesLists(e: Engine) {
    && Compiles(e, SECOND_GROUP)
    && forall s: Subject :: if |s.groups| >= 2 then RunOf(e, SECOND_GROUP, s) == Success(Bool(s.groups[1] == "admins"))
                   else RunOf(e, SECOND_GROUP, s).Failure?
  }

  function SecondGroupSpec(target: TargetRef): AuthPolicySpec {
    AuthPolicySpec(target, SECOND_GROUP, [])
  }

  /** The sample subject has two groups, so this policy is admitted; later it evaluates
      exactly for sessions that have two groups or more. */
  lemma AdmittedButPartial(e: Engine, target: TargetRef, s: Subject)
    requires IndexesLists(e)
    ensures Rejection(e, SecondGroupSpec(target)).None?
    ensures CompileCelPolicy(e, SECOND_GROUP).Success?
    ensures CompileCelPolicy(e, SECOND_GROUP).value.Evaluate(e, s).Success? <==> |s.groups| >= 2
  {
    var spec := SecondGroupSpec(target);
    assert RunOf(e, SECOND_GROUP, SAMPLE).Success?;
    assert RunOf(e, SECOND_GROUP, s) == e.execute(e.compileProgram(SECOND_GROUP).value, Activation(s));
    assert CheckAt(spec, AdmissionOrder, 0) == DefaultCheck;
    assert Cause(e, spec, DefaultCheck).None?;
    assert Count(spec) == 1;
  }

  /** The request path closes that gap: where the admitted policy cannot be evaluated, a
      session is forbidden and an anonymous request is sent to log in. */
  lemma PartialPolicyDenies(e: Engine, host: string, target: TargetRef, portal: string,
                            req: CheckRequest, subject: Option<Subject>)
    requires IndexesLists(e) && req.host == Hostnames.New(host)
    requires subject.Some? ==> |subject.value.groups| < 2
    ensures var routes := [RouteOf(host, SecondGroupSpec(target))];
            && BuildTable(e, routes).Success?
            && Decide(e, BuildTable(e, routes).value, portal, req, subject) ==
               if subject.Some? then Forbidden else Redirect(LoginUrl(portal, req.OriginalUrl()))
  {
    hide LoginUrl;
    var spec := SecondGroupSpec(target);
    var routes := [RouteOf(host, spec)];
    AdmittedButPartial(e, target, Who(subject));
    assert RoutesOf([host], [spec]) == routes;
    AdmittedDocumentsBuild(e, [host], [spec]);
    DecideRefines(e, routes, portal, req, subject);
    NotGranted(e, host, target, req, Who(subject));
  }

  lemma NotGranted(e: Engine, host: string, target: TargetRef, req: CheckRequest, s: Subject)
    requires IndexesLists(e) && |s.groups| < 2
    ensures !Grants(e, [RouteOf(host, SecondGroupSpec(target))], req.host, req.Path(), s.username, s.groups)
  {
    var routes := [RouteOf(host, SecondGroupSpec(target))];
    forall k, expr | Governs(e, routes, req.host, req.Path(), k, expr)
      ensures !RunsTrue(e, expr, s.username, s.groups)
    {
      assert k == 0 && expr == SECOND_GROUP;
      assert RunOf(e, SECOND_GROUP, s).Failure?;
    }
  }

  // ----- for which sessions an admitted policy is sure to evaluate -----

  const TRUE := "true"
  const UNDECLARED := "nope == 1"
  const USER_IS_SAMPLE := "user == \"sample@example.com\""
  const GROUPS_ARE_SAMPLE := "groups == [\"users\", \"admins\"]"

  function Conditional(test: string, yes: string, no: string): string {
    test + " ? " + yes + " : " + no
  }

  /** A conditional runs its test and then only the branch the test selects. */
  ghost predicate Branches(e: Engine, test: string) {
    && Compiles(e, Conditional(test, TRUE, UNDECLARED))
    && forall s: Subject, b: bool :: RunOf(e, test, s) == Success(Bool(b)) ==>
         RunOf(e, Conditional(test, TRUE, UNDECLARED), s) == RunOf(e, if b then TRUE else UNDECLARED, s)
  }

  /** The engine has the literal `true`, equality on strings and on lists, conditionals,
      and fails on a variable that is not declared. */
  ghost predicate SpeaksCel(e: Engine) {
    && (forall s: Subject :: RunOf(e, TRUE, s) == Success(Bool(true)))
    && Compiles(e, UNDECLARED) && (forall s: Subject :: RunOf(e, UNDECLARED, s).Failure?)
    && (forall s: Subject :: RunOf(e, USER_IS_SAMPLE, s) == Success(Bool(s.username == SAMPLE.username)))
    && (forall s: Subject :: RunOf(e, GROUPS_ARE_SAMPLE, s) == Success(Bool(s.groups == SAMPLE.groups)))
    && Branches(e, USER_IS_SAMPLE) && Branches(e, GROUPS_ARE_SAMPLE)
  }

  /** Every policy the engine compiles evaluates for the subject. */
  ghost predicate AlwaysEvaluates(e: Engine, s: Subject) {
    forall expr :: CompileCelPolicy(e, expr).Success? ==> CompileCelPolicy(e, expr).value.Evaluate(e, s).Success?
  }

  lemma GuardedByTest(e: Engine, test: string, s: Subject)
    requires SpeaksCel(e) && test in {USER_IS_SAMPLE, GROUPS_ARE_SAMPLE}
    requires RunOf(e, test, s) == Success(Bool(false))
    ensures !AlwaysEvaluates(e, s)
  {
    var expr := Conditional(test, TRUE, UNDECLARED);
    assert RunOf(e, test, SAMPLE) == Success(Bool(true));
    assert RunOf(e, expr, SAMPLE) == RunOf(e, TRUE, SAMPLE);
    assert RunOf(e, expr, s) == RunOf(e, UNDECLARED, s);
    assert CompileCelPolicy(e, expr) == Success(CompiledPolicy(e.compileProgram(expr).value));
    assert CompileCelPolicy(e, expr).value.Evaluate(e, s).Failure?;
  }

  /** The decision record says that an admitted policy is guaranteed to evaluate at
      request time. Under any one engine with these rules, that is so exactly for the
      subjects with the sample subject's user name and groups. */
  lemma GuaranteedToEvaluateIff(e: Engine, s: Subject)
    requires SpeaksCel(e)
    ensures AlwaysEvaluates(e, s) <==> SameIdentity(s, SAMPLE)
  {
    ActivationIff(s, SAMPLE);
    if s.username != SAMPLE.username {
      GuardedByTest(e, USER_IS_SAMPLE, s);
    }
    if s.groups != SAMPLE.groups {
      GuardedByTest(e, GROUPS_ARE_SAMPLE, s);
    }
  }

  // ----- the rules can be met together -----

  function UserOf(ctx: Context): string {
    if "user" in ctx && ctx["user"].Text? then ctx["user"].text else ""
  }

  function GroupsIn(ctx: Context): seq<string> {
    if "groups" in ctx && ctx["groups"].List? then ctx["groups"].items else []
  }

  /** An interpreter of just the texts used above. */
  function Interpret(source: string, ctx: Context): Result<Value, string> {
    if source == TRUE then Success(Bool(true))
    else if source == USER_IS_SAMPLE then Success(Bool(UserOf(ctx) == SAMPLE.username))
    else if source == GROUPS_ARE_SAMPLE then Success(Bool(GroupsIn(ctx) == SAMPLE.groups))
    else if source == Conditional(USER_IS_SAMPLE, TRUE, UNDECLARED) && UserOf(ctx) == SAMPLE.username then
      Success(Bool(true))
    else if source == Conditional(GROUPS_ARE_SAMPLE, TRUE, UNDECLARED) && GroupsIn(ctx) == SAMPLE.groups then
      Success(Bool(true))
    else if source == SECOND_GROUP && |GroupsIn(ctx)| >= 2 then
      Success(Bool(GroupsIn(ctx)[1] == "admins"))
    else Failure("cannot evaluate")
  }

  function SmallEngine(): Engine {
    Engine(source => Success(Program(source)),
           (program: Program, ctx) => Interpret(program.source, ctx),
           pattern => Success(Regex(pattern)),
           (re, path) => false)
  }

  lemma RunOfSmall(expr: string, s: Subject)
    ensures RunOf(SmallEngine(), expr, s) == Interpret(expr, Activation(s))
    ensures UserOf(Activation(s)) == s.username && GroupsIn(Activation(s)) == s.groups
  {
  }

  /** So neither result speaks of no engine at all. */
  lemma RulesCanBeMet()
    ensures SpeaksCel(SmallEngine()) && IndexesLists(SmallEngine())
  {
    var c, d := Conditional(USER_IS_SAMPLE, TRUE, UNDECLARED), Conditional(GROUPS_ARE_SAMPLE, TRUE, UNDECLARED);
    TextsDiffer();
    forall s: Subject
      ensures RunOf(SmallEngine(), TRUE, s) == Success(Bool(true))
      ensures RunOf(SmallEngine(), UNDECLARED, s).Failure?
      ensures RunOf(SmallEngine(), USER_IS_SAMPLE, s) == Success(Bool(s.username == SAMPLE.username))
      ensures RunOf(SmallEngine(), GROUPS_ARE_SAMPLE, s) == Success(Bool(s.groups == SAMPLE.groups))
      ensures if s.username == SAMPLE.username then RunOf(SmallEngine(), c, s) == Success(Bool(true))
              else RunOf(SmallEngine(), c, s) == Failure("cannot evaluate")
      ensures if s.groups == SAMPLE.groups then RunOf(SmallEngine(), d, s) == Success(Bool(true))
              else RunOf(SmallEngine(), d, s) == Failure("cannot evaluate")
      ensures if |s.groups| >= 2 then RunOf(SmallEngine(), SECOND_GROUP, s) == Success(Bool(s.groups[1] == "admins"))
              else RunOf(SmallEngine(), SECOND_GROUP, s).Failure?
    {
      RunOfSmall(TRUE, s);
      RunOfSmall(UNDECLARED, s);
      RunOfSmall(USER_IS_SAMPLE, s);
      RunOfSmall(GROUPS_ARE_SAMPLE, s);
      RunOfSmall(c, s);
      RunOfSmall(d, s);
      RunOfSmall(SECOND_GROUP, s);
    }
  }

  lemma TextsDiffer()
    ensures var c, d := Conditional(USER_IS_SAMPLE, TRUE, UNDECLARED), Conditional(GROUPS_ARE_SAMPLE, TRUE, UNDECLARED);
            && |TRUE| < |UNDECLARED| < |SECOND_GROUP| < |USER_IS_SAMPLE|
            && USER_IS_SAMPLE[0] == 'u' && GROUPS_ARE_SAMPLE[0] == 'g' && c[0] == 'u' && d[0] == 'g'
            && |SECOND_GROUP| < |GROUPS_ARE_SAMPLE| && |c| > |USER_IS_SAMPLE| && |d| > |GROUPS_ARE_SAMPLE|
  {
  }
}
