/** The admission path: the checks on a policy spec, the verdict on a review, and their
    agreement with what compiling the same policy for the request path does. */
module Admission {
  import opened Wrappers
  import opened Text
  import opened Cel
  import opened Policy
  import Hostnames

  datatype ExtraPolicy = ExtraPolicy(pathRegex: string, policy: string)

  /** Group and name of the protected resource; its kind is a one-valued enumeration. */
  datatype TargetRef = TargetRef(group: string, name: string)

  datatype AuthPolicySpec =
    AuthPolicySpec(targetRef: TargetRef, defaultPolicy: string, extraPolicy: seq<ExtraPolicy>)

  // ----- the checks, and the two orders they are run in -----

  datatype Check = DefaultCheck | RegexCheck(index: nat) | PolicyCheck(index: nat)

  predicate Applies(spec: AuthPolicySpec, c: Check) {
    c == DefaultCheck || c.index < |spec.extraPolicy|
  }

  function ErrorOf<T>(r: Result<T, CelPolicyError>): Option<CompileError> {
    if r.Success? then None else Some(BadPolicy(r.error))
  }

  /** Why the check fails, or `None` if it passes. */
  function Cause(e: Engine, spec: AuthPolicySpec, c: Check): Option<CompileError>
    requires Applies(spec, c)
  {
    match c
    case DefaultCheck => ErrorOf(CompileCelPolicy(e, spec.defaultPolicy))
    case PolicyCheck(i) => ErrorOf(CompileCelPolicy(e, spec.extraPolicy[i].policy))
    case RegexCheck(i) =>
      var r := CompilePathRegex(e, spec.extraPolicy[i].pathRegex);
      if r.Success? then None else Some(BadRegex(r.error))
  }

  /** Admission starts with the default, building a table ends with it. */
  datatype Order = AdmissionOrder | BuildOrder

  function Count(spec: AuthPolicySpec): nat {
    2 * |spec.extraPolicy| + 1
  }

  function CheckAt(spec: AuthPolicySpec, order: Order, k: nat): (c: Check)
    requires k < Count(spec)
    ensures Applies(spec, c)
  {
    var m := if order.AdmissionOrder? then k - 1 else k;
    if m == -1 || m == Count(spec) - 1 then DefaultCheck
    else if m % 2 == 0 then RegexCheck(m / 2)
    else PolicyCheck(m / 2)
  }

  /** Position of the check, the inverse of `CheckAt`. */
  function PositionOf(spec: AuthPolicySpec, order: Order, c: Check): (k: nat)
    requires Applies(spec, c)
    ensures k < Count(spec) && CheckAt(spec, order, k) == c
  {
    var m := match c
      case DefaultCheck => if order.AdmissionOrder? then -1 else Count(spec) - 1
      case RegexCheck(i) => 2 * i
      case PolicyCheck(i) => 2 * i + 1;
    if order.AdmissionOrder? then m + 1 else m
  }

  /** Position of the first failing check, or the number of checks. */
  function FirstFailing(e: Engine, spec: AuthPolicySpec, order: Order, from: nat := 0): (k: nat)
    requires from <= Count(spec)
    ensures from <= k <= Count(spec)
    ensures k < Count(spec) ==> Cause(e, spec, CheckAt(spec, order, k)).Some?
    ensures forall j :: from <= j < k ==> Cause(e, spec, CheckAt(spec, order, j)).None?
    decreases Count(spec) - from
  {
    if from == Count(spec) || Cause(e, spec, CheckAt(spec, order, from)).Some? then from
    else FirstFailing(e, spec, order, from + 1)
  }

  // ----- messages -----

  function Decimal(n: nat): (s: string)
    ensures s != [] && forall i :: 0 <= i < |s| ==> '0' <= s[i] <= '9'
  {
    var last := [(n % 10 + '0' as int) as char];
    if n < 10 then last else Decimal(n / 10) + last
  }

  function FieldPath(c: Check): string {
    match c
    case DefaultCheck => "spec.defaultPolicy"
    case RegexCheck(i) => "spec.extraPolicy[" + Decimal(i) + "].pathRegex"
    case PolicyCheck(i) => "spec.extraPolicy[" + Decimal(i) + "].policy"
  }

  function Display(error: CompileError): string {
    match error
    case BadRegex(r) => "pathRegex is not a valid regular expression: " + r.detail
    case BadPolicy(Parse(why)) => "policy does not parse as CEL: " + why
    case BadPolicy(Evaluate(why)) => "policy fails to evaluate against the Subject activation: " + why
    case BadPolicy(NotBoolean(got)) => "policy must evaluate to a bool, got " + got
  }

  function Message(c: Check, error: CompileError): string {
    FieldPath(c) + " " + Display(error)
  }

  lemma {:induction false} DecimalInjective(m: nat, n: nat)
    requires Decimal(m) == Decimal(n)
    ensures m == n
  {
    var s, t := Decimal(m), Decimal(n);
    assert s[|s| - 1] as int == m % 10 + '0' as int && t[|t| - 1] as int == n % 10 + '0' as int;
    if m >= 10 && n >= 10 {
      assert s[..|s| - 1] == Decimal(m / 10) && t[..|t| - 1] == Decimal(n / 10);
      DecimalInjective(m / 10, n / 10);
    }
  }

  lemma ExtraPathCut(c: Check)
    requires !c.DefaultCheck?
    ensures SplitOnce(FieldPath(c), ']') ==
            Some(("spec.extraPolicy[" + Decimal(c.index), if c.RegexCheck? then ".pathRegex" else ".policy"))
  {
    var head, tail := "spec.extraPolicy[" + Decimal(c.index), if c.RegexCheck? then ".pathRegex" else ".policy";
    assert FieldPath(c) == head + [']'] + tail;
    SplitOnceGlued(head, ']', tail);
  }

  lemma FieldPathInjective(c: Check, d: Check)
    requires FieldPath(c) == FieldPath(d)
    ensures c == d
  {
    var p, q := FieldPath(c), FieldPath(d);
    assert p[5] == if c.DefaultCheck? then 'd' else 'e';
    assert q[5] == if d.DefaultCheck? then 'd' else 'e';
    if !c.DefaultCheck? {
      ExtraPathCut(c);
      ExtraPathCut(d);
      var x, y := "spec.extraPolicy[" + Decimal(c.index), "spec.extraPolicy[" + Decimal(d.index);
      assert x == y && x[17..] == Decimal(c.index) && y[17..] == Decimal(d.index);
      DecimalInjective(c.index, d.index);
      assert ".pathRegex"[2] != ".policy"[2];
    }
  }

  lemma PathHasNoSpace(c: Check)
    ensures ' ' !in FieldPath(c)
  {
    if !c.DefaultCheck? {
      assert ' ' !in Decimal(c.index);
    }
  }

  /** Every message names its field: it is what stands before the first space. */
  lemma MessageCut(c: Check, x: CompileError)
    ensures SplitOnce(Message(c, x), ' ') == Some((FieldPath(c), Display(x)))
  {
    PathHasNoSpace(c);
    var path, text := FieldPath(c), Display(x);
    assert Message(c, x) == path + [' '] + text;
    SplitOnceGlued(path, ' ', text);
  }

  /** So no two checks can produce the same message. */
  lemma MessageNamesField(c: Check, x: CompileError, d: Check, y: CompileError)
    requires Message(c, x) == Message(d, y)
    ensures c == d
  {
    hide Message, FieldPath;
    MessageCut(c, x);
    MessageCut(d, y);
    FieldPathInjective(c, d);
  }

  // ----- the verdict on a spec, spelled out -----

  /** What is wrong with a policy text, if anything; it is run for the sample subject. */
  function PolicyFlaw(e: Engine, expr: string): Option<string> {
    match e.compileProgram(expr)
    case Failure(why) => Some("policy does not parse as CEL: " + why)
    case Success(program) =>
      match e.execute(program, map["user" := Variable.Text("sample@example.com"),
                                   "groups" := List(["users", "admins"]),
                                   "claims" := Dict(map[])])
      case Failure(why) => Some("policy fails to evaluate against the Subject activation: " + why)
      case Success(Other(got)) => Some("policy must evaluate to a bool, got " + got)
      case Success(Bool(_)) => None
  }

  function RegexFlaw(e: Engine, pattern: string): Option<string> {
    match e.compileRegex(pattern)
    case Failure(why) => Some("pathRegex is not a valid regular expression: " + why)
    case Success(_) => None
  }

  predicate EntryAccepted(e: Engine, x: ExtraPolicy) {
    RegexFlaw(e, x.pathRegex).None? && PolicyFlaw(e, x.policy).None?
  }

  predicate Accepted(e: Engine, spec: AuthPolicySpec) {
    && PolicyFlaw(e, spec.defaultPolicy).None?
    && forall i :: 0 <= i < |spec.extraPolicy| ==> EntryAccepted(e, spec.extraPolicy[i])
  }

  /** A left-to-right reader of decimal numerals. */
  function ReadDecimal(s: string, read: nat := 0): nat
    requires forall i :: 0 <= i < |s| ==> '0' <= s[i] <= '9'
  {
    if s == [] then read else ReadDecimal(s[1..], 10 * read + (s[0] as int - '0' as int))
  }

  /** The decimal numeral of `n`, without a leading zero. */
  predicate Numeral(s: string, n: nat) {
    && s != [] && (forall i :: 0 <= i < |s| ==> '0' <= s[i] <= '9')
    && (|s| > 1 ==> s[0] != '0')
    && ReadDecimal(s) == n
  }

  /** The message for the entry whose index reads `t`: its regex is blamed first. */
  predicate EntryRefused(e: Engine, x: ExtraPolicy, t: string, message: string) {
    match RegexFlaw(e, x.pathRegex)
    case Some(flaw) => message == "spec.extraPolicy[" + t + "].pathRegex " + flaw
    case None =>
      match PolicyFlaw(e, x.policy)
      case Some(flaw) => message == "spec.extraPolicy[" + t + "].policy " + flaw
      case None => false
  }

  ghost predicate EntryBlamed(e: Engine, spec: AuthPolicySpec, i: nat, t: string, message: string)
    requires i < |spec.extraPolicy|
  {
    && (forall j :: 0 <= j < i ==> EntryAccepted(e, spec.extraPolicy[j]))
    && Numeral(t, i) && EntryRefused(e, spec.extraPolicy[i], t, message)
  }

  /** The spec is refused with this message: a flaw of the default comes first, then the
      first entry with a flaw. */
  ghost predicate Refused(e: Engine, spec: AuthPolicySpec, message: string) {
    match PolicyFlaw(e, spec.defaultPolicy)
    case Some(flaw) => message == "spec.defaultPolicy " + flaw
    case None => exists i: nat, t :: i < |spec.extraPolicy| && EntryBlamed(e, spec, i, t, message)
  }

  lemma {:induction false} ReadSnoc(s: string, d: char, read: nat)
    requires '0' <= d <= '9' && forall i :: 0 <= i < |s| ==> '0' <= s[i] <= '9'
    ensures ReadDecimal(s + [d], read) == 10 * ReadDecimal(s, read) + (d as int - '0' as int)
  {
    if s == [] {
      assert s + [d] == [d];
      assert [d][1..] == [];
    } else {
      assert (s + [d])[1..] == s[1..] + [d];
      ReadSnoc(s[1..], d, 10 * read + (s[0] as int - '0' as int));
    }
  }

  lemma {:induction false} DecimalReads(n: nat)
    ensures Numeral(Decimal(n), n)
    ensures n > 0 ==> Decimal(n)[0] != '0'
  {
    var d := (n % 10 + '0' as int) as char;
    if n < 10 {
      assert [d][1..] == [];
    } else {
      DecimalReads(n / 10);
      ReadSnoc(Decimal(n / 10), d, 0);
      assert n == 10 * (n / 10) + n % 10;
    }
  }

  /** Numerals determine their number's spelling. */
  lemma {:induction false} NumeralUnique(s: string, n: nat)
    requires Numeral(s, n)
    ensures s == Decimal(n)
  {
    var d := s[|s| - 1];
    var init := s[..|s| - 1];
    assert s == init + [d];
    ReadSnoc(init, d, 0);
    var q := ReadDecimal(init);
    assert n == 10 * q + (d as int - '0' as int);
    assert q == n / 10 && d as int - '0' as int == n % 10;
    if init != [] {
      assert Numeral(init, q);
      NumeralUnique(init, q);
      Positive(init);
    }
  }

  lemma {:induction false} ReadGrows(s: string, read: nat)
    requires forall i :: 0 <= i < |s| ==> '0' <= s[i] <= '9'
    ensures ReadDecimal(s, read) >= read
  {
    if s != [] {
      ReadGrows(s[1..], 10 * read + (s[0] as int - '0' as int));
    }
  }

  lemma Positive(s: string)
    requires s != [] && s[0] != '0' && forall i :: 0 <= i < |s| ==> '0' <= s[i] <= '9'
    ensures ReadDecimal(s) > 0
  {
    ReadGrows(s[1..], s[0] as int - '0' as int);
  }

  // ----- validate_spec -----

  function Rejection(e: Engine, spec: AuthPolicySpec): Option<string> {
    var k := FirstFailing(e, spec, AdmissionOrder);
    if k == Count(spec) then None
    else
      var c := CheckAt(spec, AdmissionOrder, k);
      Some(Message(c, Cause(e, spec, c).value))
  }

  lemma DisplaySpelled()
    ensures forall why :: Display(BadRegex(PathRegexError(why))) == "pathRegex is not a valid regular expression: " + why
    ensures forall why :: Display(BadPolicy(Parse(why))) == "policy does not parse as CEL: " + why
    ensures forall why :: Display(BadPolicy(Evaluate(why)))
                          == "policy fails to evaluate against the Subject activation: " + why
    ensures forall got :: Display(BadPolicy(NotBoolean(got))) == "policy must evaluate to a bool, got " + got
  {
  }

  lemma FlawIff(e: Engine, spec: AuthPolicySpec, c: Check)
    requires Applies(spec, c)
    ensures var flaw := match c
              case DefaultCheck => PolicyFlaw(e, spec.defaultPolicy)
              case RegexCheck(i) => RegexFlaw(e, spec.extraPolicy[i].pathRegex)
              case PolicyCheck(i) => PolicyFlaw(e, spec.extraPolicy[i].policy);
            && (Cause(e, spec, c).Some? <==> flaw.Some?)
            && (flaw.Some? ==> Display(Cause(e, spec, c).value) == flaw.value)
  {
    hide Display;
    assert Activation(SAMPLE) == map["user" := Variable.Text("sample@example.com"),
                                     "groups" := List(["users", "admins"]), "claims" := Dict(map[])];
    DisplaySpelled();
  }

  lemma EntryMessage(i: nat, x: CompileError)
    ensures Message(RegexCheck(i), x) == "spec.extraPolicy[" + Decimal(i) + "].pathRegex " + Display(x)
    ensures Message(PolicyCheck(i), x) == "spec.extraPolicy[" + Decimal(i) + "].policy " + Display(x)
  {
    hide Decimal, Display;
    assert "].pathRegex" + " " == "].pathRegex " && "].policy" + " " == "].policy ";
  }

  lemma EntryScanned(e: Engine, spec: AuthPolicySpec, i: nat)
    requires i < |spec.extraPolicy|
    ensures var k := FirstFailing(e, spec, AdmissionOrder, 2 * i + 1);
            if EntryAccepted(e, spec.extraPolicy[i]) then k == FirstFailing(e, spec, AdmissionOrder, 2 * i + 3)
            else
              && k < Count(spec)
              && var c := CheckAt(spec, AdmissionOrder, k);
                 && !c.DefaultCheck? && c.index == i
                 && EntryRefused(e, spec.extraPolicy[i], Decimal(i), Message(c, Cause(e, spec, c).value))
  {
    hide Cause, PolicyFlaw, RegexFlaw, Decimal, Display, Message, FirstFailing, CheckAt;
    ScanEntry(e, spec, i);
    FlawIff(e, spec, RegexCheck(i));
    FlawIff(e, spec, PolicyCheck(i));
    if !EntryAccepted(e, spec.extraPolicy[i]) {
      var c := if Cause(e, spec, RegexCheck(i)).Some? then RegexCheck(i) else PolicyCheck(i);
      EntryMessage(i, Cause(e, spec, c).value);
    }
  }

  lemma {:induction false} ScanFrom(e: Engine, spec: AuthPolicySpec, i: nat)
    requires i <= |spec.extraPolicy|
    ensures var k := FirstFailing(e, spec, AdmissionOrder, 2 * i + 1);
            if forall j :: i <= j < |spec.extraPolicy| ==> EntryAccepted(e, spec.extraPolicy[j]) then k == Count(spec)
            else
              && k < Count(spec)
              && var c := CheckAt(spec, AdmissionOrder, k);
                 && !c.DefaultCheck? && i <= c.index < |spec.extraPolicy|
                 && (forall j :: i <= j < c.index ==> EntryAccepted(e, spec.extraPolicy[j]))
                 && EntryRefused(e, spec.extraPolicy[c.index], Decimal(c.index), Message(c, Cause(e, spec, c).value))
    decreases |spec.extraPolicy| - i
  {
    hide Cause, Decimal, Message, FirstFailing, CheckAt, EntryAccepted, EntryRefused;
    if i < |spec.extraPolicy| {
      EntryScanned(e, spec, i);
      if EntryAccepted(e, spec.extraPolicy[i]) {
        ScanFrom(e, spec, i + 1);
      }
    }
  }

  /** The scan in terms of nothing but the texts of the spec and the engine. */
  lemma RejectionSpelled(e: Engine, spec: AuthPolicySpec, message: string)
    ensures Rejection(e, spec).None? <==> Accepted(e, spec)
    ensures Rejection(e, spec) == Some(message) <==> Refused(e, spec, message)
  {
    hide Cause, PolicyFlaw, RegexFlaw, Decimal, Display, Message;
    assert CheckAt(spec, AdmissionOrder, 0) == DefaultCheck;
    FlawIff(e, spec, DefaultCheck);
    ScanFrom(e, spec, 0);
    if PolicyFlaw(e, spec.defaultPolicy).Some? {
      DefaultMessage(Cause(e, spec, DefaultCheck).value);
    } else {
      var k := FirstFailing(e, spec, AdmissionOrder);
      assert k == FirstFailing(e, spec, AdmissionOrder, 1);
      if k < Count(spec) {
        var i := CheckAt(spec, AdmissionOrder, k).index;
        DecimalReads(i);
        if Rejection(e, spec) == Some(message) {
          assert EntryBlamed(e, spec, i, Decimal(i), message);
        }
        if Refused(e, spec, message) {
          var i': nat, t :| i' < |spec.extraPolicy| && EntryBlamed(e, spec, i', t, message);
          assert i' == i;
          NumeralUnique(t, i);
        }
      }
    }
  }

  lemma DefaultMessage(x: CompileError)
    ensures Message(DefaultCheck, x) == "spec.defaultPolicy " + Display(x)
  {
    assert "spec.defaultPolicy" + " " == "spec.defaultPolicy ";
  }

  /** How the scan passes over one entry. */
  lemma ScanEntry(e: Engine, spec: AuthPolicySpec, i: nat)
    requires i < |spec.extraPolicy|
    ensures CheckAt(spec, AdmissionOrder, 2 * i + 1) == RegexCheck(i)
    ensures CheckAt(spec, AdmissionOrder, 2 * i + 2) == PolicyCheck(i)
    ensures FirstFailing(e, spec, AdmissionOrder, 2 * i + 1) ==
            if Cause(e, spec, RegexCheck(i)).Some? then 2 * i + 1
            else if Cause(e, spec, PolicyCheck(i)).Some? then 2 * i + 2
            else FirstFailing(e, spec, AdmissionOrder, 2 * i + 3)
  {
    hide Cause;
  }

  /** The checks in source order, returning on the first failure. */
  method ValidateSpec(e: Engine, spec: AuthPolicySpec) returns (r: Result<(), string>)
    ensures r == match Rejection(e, spec) case None => Success(()) case Some(message) => Failure(message)
    ensures r.Success? <==> Accepted(e, spec)
    ensures forall message :: r == Failure(message) <==> Refused(e, spec, message)
  {
    forall message
      ensures Rejection(e, spec) == Some(message) <==> Refused(e, spec, message)
      ensures Rejection(e, spec).None? <==> Accepted(e, spec)
    {
      RejectionSpelled(e, spec, message);
    }
    hide Accepted, Refused, CompileCelPolicy, CompilePathRegex, Message, FieldPath, Display, Decimal;
    var default := CompileCelPolicy(e, spec.defaultPolicy);
    if default.Failure? {
      return Failure(Message(DefaultCheck, BadPolicy(default.error)));
    }
    for i := 0 to |spec.extraPolicy|
      invariant FirstFailing(e, spec, AdmissionOrder) == FirstFailing(e, spec, AdmissionOrder, 2 * i + 1)
    {
      var extra := spec.extraPolicy[i];
      ScanEntry(e, spec, i);
      var regex := CompilePathRegex(e, extra.pathRegex);
      if regex.Failure? {
        return Failure(Message(RegexCheck(i), BadRegex(regex.error)));
      }
      var policy := CompileCelPolicy(e, extra.policy);
      if policy.Failure? {
        return Failure(Message(PolicyCheck(i), BadPolicy(policy.error)));
      }
    }
    return Success(());
  }

  /** The documented order: the default, then regex before policy, entry by entry. */
  predicate RunBefore(c: Check, d: Check) {
    match (c, d)
    case (_, DefaultCheck) => false
    case (DefaultCheck, _) => true
    case (RegexCheck(i), PolicyCheck(j)) => i <= j
    case _ => c.index < d.index
  }

  /** A spec is rejected for a field exactly if its check fails and every check that is
      run before it passes. */
  lemma RejectedForIff(e: Engine, spec: AuthPolicySpec, c: Check)
    requires Applies(spec, c) && Cause(e, spec, c).Some?
    ensures Rejection(e, spec) == Some(Message(c, Cause(e, spec, c).value)) <==>
            forall d :: Applies(spec, d) && RunBefore(d, c) ==> Cause(e, spec, d).None?
  {
    hide Cause, Message;
    var k := FirstFailing(e, spec, AdmissionOrder);
    var at := PositionOf(spec, AdmissionOrder, c);
    assert k <= at;
    var first := CheckAt(spec, AdmissionOrder, k);
    if Rejection(e, spec) == Some(Message(c, Cause(e, spec, c).value)) {
      MessageNamesField(c, Cause(e, spec, c).value, first, Cause(e, spec, first).value);
    }
    if k == at {
      forall d | Applies(spec, d) && RunBefore(d, c)
        ensures Cause(e, spec, d).None?
      {
        assert PositionOf(spec, AdmissionOrder, d) < at;
      }
    } else {
      assert RunBefore(first, c);
    }
  }

  // ----- agreement with the request path -----

  /** The route the same policy becomes when its host is known. */
  function RouteOf(host: string, spec: AuthPolicySpec): StubRoute {
    StubRoute(host, spec.defaultPolicy,
              seq(|spec.extraPolicy|, i requires 0 <= i < |spec.extraPolicy| =>
                StubExtra(spec.extraPolicy[i].pathRegex, spec.extraPolicy[i].policy)))
  }

  /** What compiling the entries from `i` on reports. */
  lemma {:induction false} ExtrasBlame(e: Engine, host: string, spec: AuthPolicySpec, i: nat)
    requires i <= |spec.extraPolicy|
    ensures var c := CompileExtras(e, RouteOf(host, spec).extraPolicy[i..]);
            var k := FirstFailing(e, spec, BuildOrder, 2 * i);
            if c.Success? then k >= Count(spec) - 1
            else k < Count(spec) - 1 && Cause(e, spec, CheckAt(spec, BuildOrder, k)) == Some(c.error)
    decreases |spec.extraPolicy| - i
  {
    hide CompileCelPolicy, CompilePathRegex;
    var xs := RouteOf(host, spec).extraPolicy;
    if i < |xs| {
      assert xs[i..][0] == xs[i] && xs[i..][1..] == xs[i + 1..];
      assert CheckAt(spec, BuildOrder, 2 * i) == RegexCheck(i);
      assert CheckAt(spec, BuildOrder, 2 * i + 1) == PolicyCheck(i);
      ExtrasBlame(e, host, spec, i + 1);
    }
  }

  /** Compiling a route reports the first failing check in build order. */
  lemma CompileBlames(e: Engine, host: string, spec: AuthPolicySpec)
    ensures var c := CompileRoute(e, RouteOf(host, spec));
            var k := FirstFailing(e, spec, BuildOrder);
            if c.Success? then k == Count(spec)
            else k < Count(spec) && Cause(e, spec, CheckAt(spec, BuildOrder, k)) == Some(c.error)
  {
    ExtrasBlame(e, host, spec, 0);
    assert RouteOf(host, spec).extraPolicy[0..] == RouteOf(host, spec).extraPolicy;
    assert CheckAt(spec, BuildOrder, Count(spec) - 1) == DefaultCheck;
  }

  lemma AllPassEitherWay(e: Engine, spec: AuthPolicySpec, o1: Order, o2: Order)
    requires FirstFailing(e, spec, o1) == Count(spec)
    ensures FirstFailing(e, spec, o2) == Count(spec)
  {
    forall k | 0 <= k < Count(spec)
      ensures Cause(e, spec, CheckAt(spec, o2, k)).None?
    {
      var j := PositionOf(spec, o1, CheckAt(spec, o2, k));
      assert Cause(e, spec, CheckAt(spec, o1, j)).None?;
    }
  }

  /** Admission and request time never disagree: a spec is accepted exactly when the
      same default and overrides compile to a route, for every host. */
  lemma AdmissionAgrees(e: Engine, host: string, spec: AuthPolicySpec)
    ensures Rejection(e, spec).None? <==> CompileRoute(e, RouteOf(host, spec)).Success?
  {
    CompileBlames(e, host, spec);
    if FirstFailing(e, spec, AdmissionOrder) == Count(spec) {
      AllPassEitherWay(e, spec, AdmissionOrder, BuildOrder);
    }
    if FirstFailing(e, spec, BuildOrder) == Count(spec) {
      AllPassEitherWay(e, spec, BuildOrder, AdmissionOrder);
    }
  }

  predicate SomeExtraFails(e: Engine, spec: AuthPolicySpec) {
    exists i :: 0 <= i < |spec.extraPolicy| && ExtraFails(e, spec, i)
  }

  predicate ExtraFails(e: Engine, spec: AuthPolicySpec, i: nat)
    requires i < |spec.extraPolicy|
  {
    Cause(e, spec, RegexCheck(i)).Some? || Cause(e, spec, PolicyCheck(i)).Some?
  }

  /** The two paths may blame different fields, but only when the default and an
      override are broken at once. */
  lemma {:induction false} SameBlameIff(e: Engine, spec: AuthPolicySpec)
    requires Rejection(e, spec).Some?
    ensures FirstFailing(e, spec, BuildOrder) < Count(spec)
    ensures var blamed := CheckAt(spec, AdmissionOrder, FirstFailing(e, spec, AdmissionOrder));
            CheckAt(spec, BuildOrder, FirstFailing(e, spec, BuildOrder)) == blamed
            <==> !(Cause(e, spec, DefaultCheck).Some? && SomeExtraFails(e, spec))
  {
    hide Cause;
    var a, b := FirstFailing(e, spec, AdmissionOrder), FirstFailing(e, spec, BuildOrder);
    if b == Count(spec) {
      AllPassEitherWay(e, spec, BuildOrder, AdmissionOrder);
    }
    var c, d := CheckAt(spec, AdmissionOrder, a), CheckAt(spec, BuildOrder, b);
    var default := Cause(e, spec, DefaultCheck).Some?;
    assert CheckAt(spec, AdmissionOrder, 0) == DefaultCheck;
    if default {
      assert a == 0;
      DefaultBlamedLast(e, spec);
    } else {
      assert a > 0 && CheckAt(spec, BuildOrder, a - 1) == c;
      assert forall j :: 0 <= j < a - 1 ==> CheckAt(spec, BuildOrder, j) == CheckAt(spec, AdmissionOrder, j + 1);
      assert b == a - 1;
    }
  }

  lemma DefaultBlamedLast(e: Engine, spec: AuthPolicySpec)
    requires FirstFailing(e, spec, BuildOrder) < Count(spec)
    ensures CheckAt(spec, BuildOrder, FirstFailing(e, spec, BuildOrder)) == DefaultCheck
            <==> !SomeExtraFails(e, spec)
  {
    var b := FirstFailing(e, spec, BuildOrder);
    var d := CheckAt(spec, BuildOrder, b);
    if d != DefaultCheck {
      assert ExtraFails(e, spec, d.index);
    } else {
      forall i: nat | i < |spec.extraPolicy|
        ensures !ExtraFails(e, spec, i)
      {
        assert PositionOf(spec, BuildOrder, RegexCheck(i)) < b && PositionOf(spec, BuildOrder, PolicyCheck(i)) < b;
      }
    }
  }

  function RoutesOf(hosts: seq<string>, specs: seq<AuthPolicySpec>): (routes: seq<StubRoute>)
    requires |hosts| == |specs|
    ensures |routes| == |specs| && forall i :: 0 <= i < |specs| ==> routes[i] == RouteOf(hosts[i], specs[i])
  {
    seq(|specs|, i requires 0 <= i < |specs| => RouteOf(hosts[i], specs[i]))
  }

  /** A document made of policies builds exactly when every one of them is admitted. */
  lemma {:induction false} AdmittedDocumentsBuild(e: Engine, hosts: seq<string>, specs: seq<AuthPolicySpec>)
    requires |hosts| == |specs|
    ensures BuildTable(e, RoutesOf(hosts, specs)).Success?
            <==> forall i :: 0 <= i < |specs| ==> Rejection(e, specs[i]).None?
  {
    var routes := RoutesOf(hosts, specs);
    BuildExact(e, routes);
    forall i | 0 <= i < |specs|
      ensures RouteOk(e, routes[i]) <==> Rejection(e, specs[i]).None?
    {
      CompileRouteExact(e, routes[i]);
      AdmissionAgrees(e, hosts[i], specs[i]);
    }
  }

  // ----- the admission verdict -----

  /** What the cluster answers when asked for the target. */
  datatype Lookup = Present | Missing | LookupFailed(why: string)

  datatype Review =
    | Malformed(why: string)
    | Request(namespace: Option<string>, policy: Option<AuthPolicySpec>)

  datatype Denial =
    | BadSpec(message: string)
    | NoTarget(name: string, namespace: string)
    | TargetUnverified(why: string)

  datatype Verdict = Admit | Deny(denial: Denial) | Invalid(why: string)

  function Namespace(namespace: Option<string>): string {
    if namespace.Some? then namespace.value else "default"
  }

  /** The verdict on a spec whose target is looked up in the namespace `ns`. */
  ghost predicate ReviewedIn(e: Engine, spec: AuthPolicySpec, ns: string, lookup: (string, string) -> Lookup, v: Verdict) {
    var name := spec.targetRef.name;
    && (v.Admit? <==> Accepted(e, spec) && lookup(ns, name) == Present)
    && (forall message :: Refused(e, spec, message) ==> v == Deny(BadSpec(message)))
    && (Accepted(e, spec) && lookup(ns, name) == Missing ==> v == Deny(NoTarget(name, ns)))
    && (Accepted(e, spec) && lookup(ns, name).LookupFailed? ==> v == Deny(TargetUnverified(lookup(ns, name).why)))
  }

  /** The checks that need no cluster come first; the target is looked up in the
      request's own namespace, or in "default" when it has none; an unanswered lookup
      denies. */
  method ReviewPolicy(e: Engine, namespace: Option<string>, spec: AuthPolicySpec, lookup: (string, string) -> Lookup)
    returns (v: Verdict)
    ensures match namespace
            case Some(ns) => ReviewedIn(e, spec, ns, lookup, v)
            case None => ReviewedIn(e, spec, "default", lookup, v)
  {
    hide Accepted, Refused;
    var checked := ValidateSpec(e, spec);
    if checked.Failure? {
      return Deny(BadSpec(checked.error));
    }
    var ns := Namespace(namespace);
    match lookup(ns, spec.targetRef.name) {
      case Present => return Admit;
      case Missing => return Deny(NoTarget(spec.targetRef.name, ns));
      case LookupFailed(why) => return Deny(TargetUnverified(why));
    }
  }

  method HandleValidate(e: Engine, review: Review, lookup: (string, string) -> Lookup) returns (v: Verdict)
    ensures match review
            case Malformed(why) => v == Invalid(why)
            case Request(_, None) => v == Admit
            case Request(Some(ns), Some(spec)) => ReviewedIn(e, spec, ns, lookup, v)
            case Request(None, Some(spec)) => ReviewedIn(e, spec, "default", lookup, v)
  {
    match review {
      case Malformed(why) => return Invalid(why);
      case Request(_, None) => return Admit;
      case Request(namespace, Some(spec)) => v := ReviewPolicy(e, namespace, spec, lookup);
    }
  }
}
