# AuthRoute: a model of the decision engine and its admission path

AuthRoute answers Envoy's external-authorization checks. A document of routes is compiled
into a table keyed by host; each route has a default CEL policy and an ordered list of
path overrides. A check is rebuilt from forwarded headers, its cookie is turned into a
subject, and the governing policy allows it, forbids it, or redirects to a login portal
that is told where to return. An admission webhook checks the same policies when they are
written, and publishes its own certificate authority into its configuration object. A
small playground drives a subject from command lines.

The model follows the crates:

| module | models |
|---|---|
| `Text`, `Utf8` | the `str` operations the program is built from (trim, split, split once, join, ASCII case) over sequences of Unicode scalar values, and their bytes |
| `Hostnames`, `Cel`, `Policy`, `PolicyOrder` | host keys, compiling and evaluating policies, building and resolving the table, and what edits of a document can change |
| `Admission` | the spec checks, the verdict, and their agreement with the request path |
| `DryRun` | what the dry run of a policy promises about later sessions |
| `Request`, `Session`, `Percent`, `Decisions`, `Gateway`, `Redirects` | one check, from header list to response, and what a redirect tells about its request |
| `Publisher` | the `caBundle` publisher, alone and in all interleavings |
| `Repl` | the playground |

The CEL interpreter and the regex engine are parameters: an `Engine` is any choice of four
total functions (compile a program, execute it, compile a regex, match it), and every
result holds for all engines. The cluster's answer to a target lookup, the stored
configuration, the session store, the portal URL and the cookie name are inputs as well.

Field values follow section 5.5 of RFC 9110: a received value can be read as text if it
has visible ASCII, spaces and tabs only; a value can be sent if it has no control
character but tab. Header names are compared without regard to ASCII case, and a lookup
takes the first field of a name.

Four expectations, the first two of them stated in the decision records, do not hold of
the code as it is. The model follows the code and gives the exact condition of each.

* `docs/adr/0006-validating-authpolicy.md` says an admitted policy is guaranteed to
  evaluate at request time. The policy `groups[1] == "admins"` is admitted, because the
  sample subject has two groups, and then evaluates exactly for sessions with two groups
  or more (`DryRun.AdmittedButPartial`); the request path denies the others
  (`DryRun.PartialPolicyDenies`). Under any one engine that has string and list equality
  and conditionals and fails on undeclared variables, the guarantee holds exactly for the
  sample subject's user name and groups (`DryRun.GuaranteedToEvaluateIff`). These are the
  only assumptions made of an engine anywhere, and `DryRun.RulesCanBeMet` shows that an
  engine can meet them all.
* `docs/adr/0008-self-managed-webhook-tls.md` says that of several replicas the last to
  patch wins. The code replaces under a version check, so a replica wins exactly if
  nothing was written since its read; with overlapping reads the first to replace wins
  (`Publisher.ReplaceSucceedsIff`, `Publisher.LastToPatch`).
* A redirect is meant to tell the portal where to return to. It determines the original
  scheme, host and target among splittable requests: no "://" in the scheme, no '/' in
  the host, a target that is empty or starts with '/' (`Redirects.RedirectsAgreeIff`). So
  of two different requests that share a redirect one is not splittable
  (`Redirects.SharedRedirect`). None of the three conditions can be dropped
  (`Redirects.SchemeNeeded`, `Redirects.HostNeeded`, `Redirects.TargetNeeded`: each gives
  a request that fails just that one and a splittable request with the same redirect),
  and the class cannot be extended by a request whose redirect reads back a lower-case
  host (`Redirects.SplittableTwin`). Without knowing that the request was splittable, a
  redirect singles it out only if it had no host at all and its URL has one reading
  (`Redirects.SingledOutIff`): a splittable request with a host also shares its redirect,
  with a request that is not splittable.

* A login URL is meant to be read by the portal. An ordinary reader, whose query starts at
  the first '?', gets portal and target back exactly if the configured portal has neither
  '?' nor '#' (`Percent.ReadAsFormIff`): the code always writes `?rd=`. Cutting at the last
  '?' works for every portal (`Percent.LoginUrlRoundTrip`).

`docs/research/ext-authz-contract.md` also lists 400, 401 and 303 answers and a method
parameter on the login URL; the code has none of them, and neither has the model.

## Model

| member | source | states |
|---|---|---|
| Hostnames.SameKeyIff | crates/api/src/hostname.rs:7-24 | two spellings give one key exactly if they differ only in the case of ASCII letters |
| Hostnames.NewIff | crates/api/src/hostname.rs:7-24 | the key is the spelling without upper-case ASCII letters |
| Cel.BuildActivation | crates/api/src/validate_cel.rs:64-75 | the context filled step by step has exactly the three variables, claims empty, and is shared by exactly the subjects with the same user name and groups |
| Cel.ActivationIff | crates/api/src/validate_cel.rs:64-75 | policies see user name and groups of a subject and nothing else of it |
| DryRun.AdmittedButPartial | crates/api/src/validate_cel.rs:38-62 | `groups[1] == "admins"` is admitted and evaluates exactly for subjects with two groups or more |
| DryRun.PartialPolicyDenies | crates/authroute/src/decision.rs:37-50 | where it cannot be evaluated a session is forbidden and an anonymous request redirected |
| DryRun.GuaranteedToEvaluateIff | crates/api/src/validate_cel.rs:52-62 | under any one engine with equality and conditionals, every policy that compiles evaluates for a subject exactly if the subject has the sample's user name and groups |
| DryRun.RulesCanBeMet | crates/api/src/validate_cel.rs:92-133 | the rules assumed of an engine can be met together |
| Policy.CompileExtrasExact | crates/authroute/src/policy.rs:65-74 | overrides compile exactly if each regex and policy is well formed, and come out in document order with none dropped |
| Policy.CompileRouteExact | crates/authroute/src/policy.rs:63-80 | a route compiles exactly if its default and all overrides are well formed, under its lower-cased host |
| Policy.BuildExact | crates/authroute/src/policy.rs:38-47 | a table exists exactly if every route compiles; its hosts are the document's, each mapped to the compilation of its last route |
| Policy.BuildBlames | crates/authroute/src/policy.rs:38-47 | a failed build reports the first route that does not compile |
| Policy.FirstMatch | crates/authroute/src/policy.rs:54-58 | the chosen override matches and none before it does |
| Policy.ResolveRefines | crates/authroute/src/policy.rs:49-60 | the table resolves to the program of the expression the raw document selects, and to nothing exactly where no route names the host |
| Policy.ResolvedWasDryRun | crates/api/src/validate_cel.rs:52-62 | whatever a built table resolves to yields a boolean on the sample subject |
| PolicyOrder.RouteOrderInvisible | crates/authroute/src/policy.rs:39-47 | rearranged routes build the same table, or fail likewise, when routes of one host agree |
| PolicyOrder.RouteOrderInvisibleIff | crates/authroute/src/policy.rs:39-47 | a document may be reordered freely exactly if routes of one host compile alike |
| PolicyOrder.InsertIsolated | crates/authroute/src/policy.rs:39-60 | an inserted route changes its own host only, exactly if no later route names that host; the build survives exactly if it compiles |
| PolicyOrder.FirstMatchWithout | crates/authroute/src/policy.rs:54-58 | where the first match moves when one override is deleted |
| PolicyOrder.DeleteOverride | crates/authroute/src/policy.rs:52-60 | a deleted override shows on a path only if it was the first match; then the later overrides decide |
| PolicyOrder.AgreeingOrderInvisible | crates/authroute/src/policy.rs:52-60 | reordering overrides keeps the result on paths whose matching overrides agree |
| PolicyOrder.OverrideOrderInvisibleIff | crates/authroute/src/policy.rs:52-60 | all reorderings of the overrides are invisible to a path exactly if the overrides matching it agree |
| Admission.ValidateSpec | crates/webhook/src/validate.rs:8-23 | the early-returning loop succeeds exactly if every regex compiles and every policy runs to a boolean for the sample subject, else fails with the one message that the first flaw prescribes |
| Admission.RejectionSpelled | crates/webhook/src/validate.rs:8-23 | that message, said in literal texts: `spec.defaultPolicy `, or `spec.extraPolicy[`, the entry's numeral and `].pathRegex ` or `].policy `, then what is wrong and the engine's detail |
| Admission.DecimalReads | crates/webhook/src/validate.rs:16-20 | a left-to-right reader gets the index back from its numeral, which has no leading zero |
| Admission.NumeralUnique | crates/webhook/src/validate.rs:16-20 | a number has one such numeral |
| Admission.RejectedForIff | crates/webhook/src/validate.rs:12-23 | a field is blamed exactly if its check fails and the default, and every regex and policy before it, pass |
| Admission.MessageCut | crates/webhook/src/validate.rs:12-23 | the text of a message before its first space is the path of the blamed field |
| Admission.MessageNamesField | crates/webhook/src/validate.rs:12-23 | messages of different checks differ, whatever the causes |
| Admission.CompileBlames | crates/authroute/src/policy.rs:64-80 | compiling a route reports the first failing check in its own order, overrides first |
| Admission.AdmissionAgrees | crates/webhook/src/validate.rs:12-23 | a spec is accepted exactly if the same default and overrides compile at request time, on any host |
| Admission.SameBlameIff | crates/webhook/src/validate.rs:12-23 | both paths blame the same field unless the default and an override are broken at once |
| Admission.AdmittedDocumentsBuild | crates/authroute/src/policy.rs:39-47 | a document made of policies builds exactly if each of them is accepted |
| Admission.ReviewPolicy | crates/webhook/src/lib.rs:78-97 | admits exactly if the spec has no flaw and the target is present in the request's own namespace, or in `default` for a request without one; each denial says which message, target and namespace, or lookup failure it is |
| Admission.HandleValidate | crates/webhook/src/lib.rs:54-76 | the same of a decoded review, which is admitted without an object; a malformed one is invalid |
| Utf8.RoundTrip | crates/authroute/src/decision.rs:70 | the bytes of a text determine it |
| Percent.EncodeText | crates/authroute/src/decision.rs:66-79 | the loop over the bytes builds the percent encoding in its buffer |
| Percent.ByteSpelled | crates/authroute/src/decision.rs:66-79 | wherever it stands, a byte appears as itself if it is a letter, a digit or one of `-_.~`, and else as `%` and two upper-case hex digits |
| Percent.PercentRoundTrip | crates/authroute/src/decision.rs:66-79 | a standard reader recovers every byte sequence |
| Percent.EncodedIffCanonical | crates/authroute/src/decision.rs:66-79 | the outputs are exactly the texts of unreserved characters and upper-case escapes of other bytes |
| Percent.EncodedLength | crates/authroute/src/decision.rs:66-79 | length is the input length plus two for each byte that is not unreserved |
| Percent.BuildLoginUrl | crates/authroute/src/decision.rs:61-64 | the portal can read the very portal and target out of the URL that is built |
| Percent.LoginUrlRoundTrip | crates/authroute/src/decision.rs:61-79 | cutting at the last '?' and decoding recovers portal and target, whatever they contain |
| Percent.FormValueRecovers | crates/authroute/src/decision.rs:61-79 | a form reader, which ends the value at `&` or `#` and takes `+` for a space, recovers the target whatever follows it |
| Percent.ReadAsFormIff | crates/authroute/src/decision.rs:61-64 | a reader that starts the query at the first '?' before any '#' recovers portal and target exactly if the portal has neither character |
| Percent.LoginUrlInjective | crates/authroute/src/decision.rs:61-64 | login URLs agree exactly if portal and target do |
| Request.HeaderIff | crates/authroute/src/check.rs:60-62 | a header reads as a text exactly if that text, visible ASCII, was sent first under the name |
| Request.ReadableTextIff | crates/authroute/src/check.rs:60-62 | text that can be read is tabs and the characters from blank to tilde |
| Request.FromHeadersExact | crates/authroute/src/check.rs:28-47 | forwarded values, plain host as fallback, defaults for what is missing or unreadable |
| Request.PathIff | crates/authroute/src/check.rs:49-52 | the path is the target up to its first '?' |
| Request.SplitUrlReads | crates/authroute/src/check.rs:54-57 | every original URL reads back as well-formed parts that make it up again |
| Request.SplitUrlIff | crates/authroute/src/check.rs:54-57 | they are the parts of the request exactly if it is splittable |
| Request.CheckReadable | crates/authroute/src/check.rs:28-47 | scheme, host and target of a rebuilt check are visible text whatever was sent |
| Request.ForwardedReads | crates/authroute/src/check.rs:28-47 | a scheme, host and target that are forwarded come back, the host lower-cased |
| Session.CookieRoundTrip | crates/authroute/src/session.rs:56-62 | a printed cookie list, with any blanks around pairs, yields the first value of the name or nothing |
| Session.ResolvesPrinted | crates/authroute/src/session.rs:48-53 | the subject is the one stored under the first cookie of the configured name |
| Session.CookieOrderInvisible | crates/authroute/src/session.rs:48-62 | permuting cookies of distinct names, and respacing them, keeps the session |
| Session.FindableIff | crates/authroute/src/session.rs:56-62 | a cookie name can be found at all exactly if it has no '=' or ';' and no leading blank |
| Session.SessionCookieIff | crates/authroute/src/session.rs:56-62 | in any header text the cookie found is the value in the first piece that, blanks aside, is the name, '=' and a value; all other pieces, empty or without '=', are passed over |
| Session.PiecesUnique | crates/authroute/src/session.rs:57 | every header text is made of pieces between semicolons in exactly one way |
| Text.WhitespaceListed | crates/authroute/src/session.rs:58 | the blanks that trimming removes are the 25 White_Space characters |
| Decisions.DecideRefines | crates/authroute/src/decision.rs:22-59 | deciding on the table is deciding on the document: an anonymous check is allowed exactly if the governing expression runs to true on the empty user name, no groups and no claims, and else redirected; a session exactly if it does on its own user name and groups, and else forbidden |
| Decisions.VerdictNoninterference | crates/authroute/src/decision.rs:31-59 | only host, path, presence of a session, user name and groups sway the kind of decision |
| Decisions.VerdictSwayIff | crates/authroute/src/decision.rs:31-59 | and each of them can: some engine and document tell two checks apart exactly if they differ in one |
| Gateway.Response.SetField | crates/authroute/src/main.rs:157-162 | a value that is header text is stored and decodes back, any other leaves all fields as they were, and other names are never touched |
| Gateway.ValidTextIff | crates/authroute/src/main.rs:157-162 | a text can be sent exactly if it has no control character but tab and no delete |
| Gateway.AllowResponse | crates/authroute/src/main.rs:134-146 | 200 whose fields carry each part of the subject under its name and nothing else, bare for an anonymous one |
| Gateway.RedirectResponse | crates/authroute/src/main.rs:148-155 | 302 with the location alone, there exactly if it is header text and then readable |
| Gateway.Authz | crates/authroute/src/main.rs:110-132 | for every document the table was built from and everything the header list says, the response object carries the status and the fields the document prescribes, anonymous checks and sessions told apart by their literal activations |
| Gateway.AnswersDocument | crates/authroute/src/main.rs:110-155 | status and fields in terms of the document, the forwarded values or their fallbacks, the pieces of the cookie header, the session store and the portal |
| Gateway.AlwaysSaid | crates/authroute/src/check.rs:28-47 | every header list has such a reading, so the previous statement covers all of them |
| Gateway.SubjectOfSent | crates/authroute/src/session.rs:48-62 | the subject of a check is the live session of the token in the first piece that gives the configured name one, and none exactly if there is no such session |
| Gateway.EndToEnd | crates/authroute/src/main.rs:110-155 | statuses 200, 403 and 302 and the fields sent, for every document, header list, session store and portal, in terms of the raw document |
| Gateway.StatusNoninterference | crates/authroute/src/main.rs:111-132 | two checks alike in host up to case, path and standing get one status, whatever else differs |
| Gateway.StatusSwayIff | crates/authroute/src/main.rs:111-132 | header lists can get different statuses, under some engine and document, exactly if they differ in host beyond case, in path or in standing |
| Gateway.HostCaseInvisible | crates/authroute/src/check.rs:29-47 | checks that differ in host case, method or unread fields get the same decision |
| Redirects.RedirectRecoveredIff | crates/authroute/src/decision.rs:53-64 | a redirect gives back the portal and well-formed parts of the original URL, the request's own exactly if it is splittable |
| Redirects.RedirectsAgreeIff | crates/authroute/src/decision.rs:53-64 | two splittable requests share a redirect exactly if portal, scheme, host and target agree |
| Redirects.SharedRedirect | crates/authroute/src/decision.rs:53-64 | of two different requests that share a redirect one is not splittable |
| Redirects.SchemeNeeded | crates/authroute/src/check.rs:54-57 | a request with "://" in its scheme shares its redirect with a splittable one |
| Redirects.HostNeeded | crates/authroute/src/check.rs:54-57 | so does one with '/' in its host |
| Redirects.TargetNeeded | crates/authroute/src/check.rs:54-57 | so does one whose target does not start with '/' |
| Redirects.SplittableTwin | crates/authroute/src/check.rs:54-57 | what a redirect reads back, if its host is lower-case, is a splittable request with that redirect, and a different one exactly if the request was not splittable |
| Redirects.SingledOutIff | crates/authroute/src/check.rs:54-57 | no other request at all has a redirect exactly if the request has no host and its URL has one reading |
| Gateway.LocationPresentIff | crates/authroute/src/main.rs:148-155 | a redirect carries a readable location exactly if the portal is header text; no request can drop it |
| Gateway.JoinValidIff | crates/authroute/src/main.rs:139-143 | the comma-joined groups are header text exactly if every name is |
| Gateway.IdentityFieldsExact | crates/authroute/src/main.rs:136-146 | each identity field is present exactly if its text is header text and reads back as it; groups exactly if every name is header text |
| Gateway.GroupsSplitBackIff | crates/authroute/src/main.rs:141 | splitting the groups field gives the list back exactly if it is nonempty and comma-free |
| Publisher.StampInPlace | crates/webhook/src/lib.rs:112-116 | every entry's bundle is overwritten in place, nothing else |
| Publisher.PublishCaBundle | crates/webhook/src/lib.rs:99-122 | uninterrupted, the object ends up stamped under a new version; without an object nothing happens |
| Publisher.ApiServer.Replace | crates/webhook/src/lib.rs:118-121 | accepted exactly under the stored version; refused it changes nothing, accepted it gets a version above every earlier one, so the version just used is stale |
| Publisher.StampOverwrites | crates/webhook/src/lib.rs:112-116 | a later stamp hides an earlier one |
| Publisher.StepKeeps | crates/webhook/src/lib.rs:101-122 | every step keeps the invariant: the object is the last external write as its author left it, and who holds the stored version holds the stored content |
| Publisher.PublisherSafety | crates/webhook/src/lib.rs:101-122 | in every interleaving the object is exactly the last external write, stamped by the process whose replacement was the last one taken since, if there was one |
| Publisher.AuthorActed | crates/webhook/src/lib.rs:101-122 | that process did replace, and after it there was no external write and no other replacement that was taken |
| Publisher.NoEditLost | crates/webhook/src/lib.rs:101-122 | no external edit of another field is lost, and once a replacement was taken all entries trust its author's authority |
| Publisher.RunMoves | crates/webhook/src/lib.rs:118-121 | any run that touches the server leaves no old version behind |
| Publisher.ReplaceSucceedsIff | crates/webhook/src/lib.rs:101-122 | a process publishes exactly if nothing was written since its read, and then its own authority |
| Publisher.FreshProcessPublishes | crates/webhook/src/lib.rs:101-122 | after any run, a process that has not acted yet publishes at its first try if nothing comes between its two calls |
| Publisher.OneTry | crates/webhook/src/lib.rs:101-122 | after a failed read, or after its replacement whatever became of it, a process never changes anything again |
| Publisher.LastToPatch | crates/webhook/src/lib.rs:101-122 | one after the other the last process wins, with overlapping reads the first |
| Publisher.PublishTwice | crates/webhook/src/lib.rs:99-122 | publishing is idempotent on the configuration |
| Repl.Playground.Carry | crates/authroute/src/bin/repl.rs:42-69 | the nested matches apply the parsed command and tell whether to stop |
| Repl.Playground.Step | crates/authroute/src/bin/repl.rs:15-70 | one turn leaves nothing of the previous line in the buffer and applies the line read |
| Repl.Playground.Loop | crates/authroute/src/bin/repl.rs:15-70 | a session applies its lines up to the end of input or the first quit |
| Repl.RunMeans | crates/authroute/src/bin/repl.rs:15-70 | each part of the subject is what its last setter or reset before the end stored, else what it was |
| Repl.UserIff | crates/authroute/src/bin/repl.rs:42-46 | a line sets the user to `v` exactly if, blanks aside, it is `:user`, a blank and the nonempty `v` |
| Repl.EmailIff | crates/authroute/src/bin/repl.rs:51-54 | the same for `:email` |
| Repl.NameIff | crates/authroute/src/bin/repl.rs:55-58 | the same for `:name` |
| Repl.GroupsIff | crates/authroute/src/bin/repl.rs:47-50 | a line sets the groups exactly if, blanks aside, it is `:groups`, a blank and an argument that lists them |
| Repl.WordLine | crates/authroute/src/bin/repl.rs:59-68 | words without argument are read whatever blanks surround them, after the colon too |
| Repl.StopsIff | crates/authroute/src/bin/repl.rs:19-66 | a session ends exactly at the end of input or at a line that, blanks aside, is a colon and `quit` or `exit` |
| Repl.ResetIff | crates/authroute/src/bin/repl.rs:59-65 | a line resets exactly if, blanks aside, it is a colon and `reset`, and then the subject is the literal sample |
| Repl.ParseLineOk | crates/authroute/src/bin/repl.rs:29-58 | whatever line is typed, only nonempty trimmed texts and nonempty lists of trimmed comma-free groups are stored |
| Repl.GroupsRoundTripIff | crates/authroute/src/bin/repl.rs:47-50 | typing a list joined by comma and space sets it exactly if it is a nonempty list of trimmed comma-free names other than the single empty one |
| Repl.ReachableIff | crates/authroute/src/bin/repl.rs:15-70 | the subjects a session can reach are exactly the well-formed ones |

## Left out

- The CEL interpreter and the regex engine: not part of the repository; any deterministic engine is covered.
- YAML and JSON decoding: documents, specs and reviews start out decoded, with the host still as it was spelled.
- The HTTP library, which is not part of the repository: which values it reads and accepts is taken from section 5.5 of RFC 9110, as above.
- HTTP serving, routing, logging, shutdown and configuration from the environment.
- The two development sessions of the stub store: constants; the session store is any map.
- Minting the certificate: an authority is an opaque byte sequence per process.
- The wording of the two target denials, which quotes names in debug form: they are the structured `NoTarget` and `TargetUnverified`.
- The kind of a target reference, which has one value, and the status and schema of the custom resource.
- What the playground prints, including the verdict it shows for an expression.
- Manifest generation, deployment files and the features that exist in decision records only.
- Publisher.PublisherSafety: assumes that the API server accepts a replacement only under the stored version and draws every new version fresh; lost requests and lost replies are steps of the model.
