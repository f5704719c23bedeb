/** Compiling and evaluating CEL policies and path regexes. The CEL interpreter and the
    regex engine themselves are unknown but deterministic: an `Engine` is any choice of
    what they answer, and every result below holds for all engines. */
module Cel {
  import opened Wrappers

  /** The session identity. */
  datatype Subject = Subject(username: string, groups: seq<string>, name: string, email: string)

  const NOBODY := Subject("", [], "", "")

  const SAMPLE :=
    Subject("sample@example.com", ["users", "admins"], "Sample User", "sample@example.com")

  /** A variable of the activation. */
  datatype Variable = Text(text: string) | List(items: seq<string>) | Dict(entries: map<string, string>)

  type Context = map<string, Variable>

  /** What a program yields: a boolean, or anything else in its debug form. */
  datatype Value = Bool(b: bool) | Other(debug: string)

  /** A compiled program or regex is determined by the text it was compiled from. */
  datatype Program = Program(source: string)

  datatype Regex = Regex(pattern: string)

  datatype Engine = Engine(
    compileProgram: string -> Result<Program, string>,
    execute: (Program, Context) -> Result<Value, string>,
    compileRegex: string -> Result<Regex, string>,
    isMatch: (Regex, string) -> bool)

  datatype CelPolicyError = Parse(detail: string) | Evaluate(detail: string) | NotBoolean(detail: string)

  datatype PathRegexError = PathRegexError(detail: string)

  /** A policy that was dry-run to a boolean when it was compiled. */
  datatype CompiledPolicy = CompiledPolicy(program: Program)
  {
    function Evaluate(e: Engine, subject: Subject): Result<bool, CelPolicyError> {
      match e.execute(program, Activation(subject))
      case Failure(why) => Failure(CelPolicyError.Evaluate(why))
      case Success(Bool(b)) => Success(b)
      case Success(Other(debug)) => Failure(NotBoolean(debug))
    }
  }

  function Activation(subject: Subject): Context {
    map["user" := Text(subject.username), "groups" := List(subject.groups), "claims" := Dict(map[])]
  }

  function CompileCelPolicy(e: Engine, expr: string): Result<CompiledPolicy, CelPolicyError> {
    match e.compileProgram(expr)
    case Failure(why) => Failure(Parse(why))
    case Success(program) =>
      var compiled := CompiledPolicy(program);
      match compiled.Evaluate(e, SAMPLE)
      case Failure(error) => Failure(error)
      case Success(_) => Success(compiled)
  }

  function CompilePathRegex(e: Engine, pattern: string): Result<Regex, PathRegexError> {
    match e.compileRegex(pattern)
    case Failure(why) => Failure(PathRegexError(why))
    case Success(re) => Success(re)
  }

  /** `expr` runs to the boolean `verdict` for `subject`. */
  predicate Yields(e: Engine, expr: string, subject: Subject, verdict: bool) {
    && e.compileProgram(expr).Success?
    && e.execute(e.compileProgram(expr).value, Activation(subject)) == Success(Bool(verdict))
  }

  /** Everything a policy can tell two subjects apart by. */
  predicate SameIdentity(s: Subject, t: Subject) {
    s.username == t.username && s.groups == t.groups
  }

  lemma ActivationIff(s: Subject, t: Subject)
    ensures Activation(s) == Activation(t) <==> SameIdentity(s, t)
  {
    assert Activation(s)["user"] == Text(s.username) && Activation(s)["groups"] == List(s.groups);
    assert Activation(t)["user"] == Text(t.username) && Activation(t)["groups"] == List(t.groups);
  }

  /** The activation as it is filled, one variable after the other. What comes out tells
      apart exactly the subjects that differ in user name or groups. */
  method BuildActivation(subject: Subject) returns (ctx: Context)
    ensures ctx.Keys == {"user", "groups", "claims"}
    ensures ctx["user"] == Text(subject.username) && ctx["groups"] == List(subject.groups)
    ensures ctx["claims"] == Dict(map[])
    ensures forall other :: Activation(other) == ctx <==> SameIdentity(other, subject)
  {
    ctx := map[];
    ctx := ctx["user" := Text(subject.username)];
    ctx := ctx["groups" := List(subject.groups)];
    ctx := ctx["claims" := Dict(map[])];
    assert ctx == Activation(subject);
    forall other
      ensures Activation(other) == ctx <==> SameIdentity(other, subject)
    {
      ActivationIff(other, subject);
    }
  }
}
