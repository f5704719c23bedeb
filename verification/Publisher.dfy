/** Publishing the `caBundle`: every starting webhook process reads the configuration,
    overwrites the bundle of each entry, and replaces it, while other processes do the
    same and administrators edit or delete the stored. The API server accepts a
    replacement only if the stored version is still the one that was read. */
module Publisher {
  import opened Wrappers
  import opened Utf8

  type Ca = seq<byte>

  /** One entry; `rest` stands for all its fields but the bundle. */
  datatype Webhook = Webhook(caBundle: Option<Ca>, rest: string)

  /** The configuration object; `rest` stands for all its fields but the entries. */
  datatype Config = Config(webhooks: Option<seq<Webhook>>, rest: string)

  function StampAll(ws: seq<Webhook>, ca: Ca): (r: seq<Webhook>)
    ensures |r| == |ws|
    ensures forall i :: 0 <= i < |ws| ==> r[i].caBundle == Some(ca) && r[i].rest == ws[i].rest
  {
    seq(|ws|, i requires 0 <= i < |ws| => ws[i].(caBundle := Some(ca)))
  }

  function Stamp(c: Config, ca: Ca): Config {
    if c.webhooks.None? then c else c.(webhooks := Some(StampAll(c.webhooks.value, ca)))
  }

  lemma StampOverwrites(c: Config, a: Ca, b: Ca)
    ensures Stamp(Stamp(c, a), b) == Stamp(c, b)
  {
    if c.webhooks.Some? {
      assert StampAll(StampAll(c.webhooks.value, a), b) == StampAll(c.webhooks.value, b);
    }
  }

  // ----- the API server -----

  datatype Stored = Stored(config: Config, version: nat)

  /** The object, if it exists, and the counter that versions are drawn from. */
  datatype Server = Server(stored: Option<Stored>, revision: nat)
  {
    predicate Valid() {
      stored.Some? ==> stored.value.version <= revision
    }

    function Write(c: Config): Server {
      Server(Some(Stored(c, revision + 1)), revision + 1)
    }

    predicate Accepts(version: nat) {
      stored.Some? && stored.value.version == version
    }

    function Replace(c: Config, version: nat): Server {
      if Accepts(version) then Write(c) else this
    }

    function Delete(): Server {
      if stored.Some? then Server(None, revision + 1) else this
    }
  }

  /** A whole publication that nothing interrupts. */
  function PublishOnce(s: Server, ca: Ca): Server {
    if s.stored.None? then s else s.Write(Stamp(s.stored.value.config, ca))
  }

  class ApiServer {
    var state: Server

    constructor (state: Server)
      ensures this.state == state
    {
      this.state := state;
    }

    method Get() returns (found: Option<Stored>)
      ensures found == state.stored
    {
      found := state.stored;
    }

    method Replace(c: Config, version: nat) returns (ok: bool)
      modifies this
      ensures ok <==> old(state.stored).Some? && old(state.stored).value.version == version
      ensures !ok ==> state == old(state)
      ensures ok ==> state.Accepts(state.revision) && state.stored.value.config == c
      ensures ok ==> state.revision > old(state.revision)
      ensures ok && old(state.Valid()) ==> !state.Accepts(version)
      ensures state == old(state).Replace(c, version)
    {
      ok := state.Accepts(version);
      if ok {
        state := Server(Some(Stored(c, state.revision + 1)), state.revision + 1);
      }
    }
  }

  /** The loop over the entries, overwriting each bundle in place. */
  method StampInPlace(webhooks: array<Webhook>, ca: Ca)
    modifies webhooks
    ensures webhooks[..] == StampAll(old(webhooks[..]), ca)
  {
    for i := 0 to webhooks.Length
      invariant forall j :: 0 <= j < i ==> webhooks[j] == StampAll(old(webhooks[..]), ca)[j]
      invariant forall j :: i <= j < webhooks.Length ==> webhooks[j] == old(webhooks[j])
    {
      webhooks[i] := webhooks[i].(caBundle := Some(ca));
    }
  }

  /** Get, modify, replace; best effort when there is no configuration. */
  method PublishCaBundle(api: ApiServer, ca: Ca) returns (published: bool)
    modifies api
    ensures published == old(api.state).stored.Some?
    ensures api.state == PublishOnce(old(api.state), ca)
  {
    var found := api.Get();
    if found.None? {
      return false;
    }
    var cfg := found.value.config;
    if cfg.webhooks.Some? {
      var ws := cfg.webhooks.value;
      var entries := new Webhook[|ws|](i requires 0 <= i < |ws| => ws[i]);
      assert entries[..] == ws;
      StampInPlace(entries, ca);
      cfg := cfg.(webhooks := Some(entries[..]));
    }
    published := api.Replace(cfg, found.value.version);
  }

  // ----- all interleavings -----

  type Pid = nat

  /** Where a process is. `Holding` remembers the object its `get` returned. */
  datatype Proc = Starting | Holding(read: Stored) | Published | GaveUp

  /** What goes wrong with a replace: nothing, the request, or only the reply. */
  datatype Fault = Clean | RequestLost | ReplyLost

  datatype Action =
    | Get(p: Pid, delivered: bool)
    | Replace(p: Pid, fault: Fault)
    | Edit(config: Config)
    | Remove

  datatype System = System(server: Server, procs: map<Pid, Proc>)
  {
    function ProcOf(p: Pid): Proc {
      if p in procs then procs[p] else Starting
    }
  }

  /** One step; an action its process is not ready for changes nothing. `cas` is the
      authority each process minted at start-up. */
  function Next(cas: Pid -> Ca, s: System, a: Action): System {
    match a
    case Get(p, delivered) =>
      if s.ProcOf(p) != Starting then s
      else if delivered && s.server.stored.Some? then s.(procs := s.procs[p := Holding(s.server.stored.value)])
      else s.(procs := s.procs[p := GaveUp])
    case Replace(p, fault) =>
      if !s.ProcOf(p).Holding? then s
      else
        var read := s.ProcOf(p).read;
        var ok := s.server.Accepts(read.version);
        System(
          if fault == RequestLost then s.server else s.server.Replace(Stamp(read.config, cas(p)), read.version),
          s.procs[p := if ok && fault == Clean then Published else GaveUp])
    case Edit(config) => s.(server := s.server.Write(config))
    case Remove => s.(server := s.server.Delete())
  }

  function Run(cas: Pid -> Ca, s: System, trace: seq<Action>): System {
    if trace == [] then s else Next(cas, Run(cas, s, trace[..|trace| - 1]), trace[|trace| - 1])
  }

  /** No process has started yet. */
  function Initial(server: Server): System {
    System(server, map[])
  }

  /** What administrators last wrote, starting from `first`. */
  function LastEdit(first: Option<Config>, trace: seq<Action>): Option<Config> {
    if trace == [] then first
    else
      match trace[|trace| - 1]
      case Edit(config) => Some(config)
      case Remove => None
      case _ => LastEdit(first, trace[..|trace| - 1])
  }

  /** The server takes this replacement, whether or not the reply arrives. */
  predicate Taken(s: System, p: Pid, fault: Fault) {
    s.ProcOf(p).Holding? && fault != RequestLost && s.server.Accepts(s.ProcOf(p).read.version)
  }

  /** The process whose replacement was the last one taken since the last external edit
      or removal, if there was any. */
  function Author(cas: Pid -> Ca, start: System, trace: seq<Action>): Option<Pid> {
    if trace == [] then None
    else
      var before := trace[..|trace| - 1];
      match trace[|trace| - 1]
      case Edit(_) => None
      case Remove => None
      case Get(_, _) => Author(cas, start, before)
      case Replace(p, fault) =>
        if Taken(Run(cas, start, before), p, fault) then Some(p) else Author(cas, start, before)
  }

  /** `w` as `author` left it. */
  function Authored(cas: Pid -> Ca, w: Config, author: Option<Pid>): Config {
    if author.None? then w else Stamp(w, cas(author.value))
  }

  /** What every step keeps. The last part is optimistic concurrency at work: whoever
      still holds the stored version holds the stored content. */
  ghost predicate Invariant(cas: Pid -> Ca, s: System, w: Option<Config>, author: Option<Pid>) {
    && s.server.Valid()
    && (s.server.stored.Some? <==> w.Some?)
    && (w.Some? ==> s.server.stored.value.config == Authored(cas, w.value, author))
    && forall p: Pid :: s.ProcOf(p).Holding? ==>
         && s.ProcOf(p).read.version <= s.server.revision
         && (s.server.Accepts(s.ProcOf(p).read.version) ==> s.ProcOf(p).read == s.server.stored.value)
  }

  /** The last external write and the author after one more action. */
  function EditAfter(w: Option<Config>, a: Action): Option<Config> {
    match a
    case Edit(c) => Some(c)
    case Remove => None
    case _ => w
  }

  function AuthorAfter(s: System, author: Option<Pid>, a: Action): Option<Pid> {
    match a
    case Get(_, _) => author
    case Replace(p, fault) => if Taken(s, p, fault) then Some(p) else author
    case _ => None
  }

  lemma StepKeeps(cas: Pid -> Ca, s: System, w: Option<Config>, author: Option<Pid>, a: Action)
    requires Invariant(cas, s, w, author)
    ensures Invariant(cas, Next(cas, s, a), EditAfter(w, a), AuthorAfter(s, author, a))
  {
    if a.Replace? && Taken(s, a.p, a.fault) && author.Some? {
      StampOverwrites(w.value, cas(author.value), cas(a.p));
    }
    var t := Next(cas, s, a);
    forall p: Pid | t.ProcOf(p).Holding?
      ensures t.ProcOf(p).read.version <= t.server.revision
      ensures t.server.Accepts(t.ProcOf(p).read.version) ==> t.ProcOf(p).read == t.server.stored.value
    {
      assert t.ProcOf(p) == s.ProcOf(p) || (a == Get(p, true) && t.ProcOf(p).read == s.server.stored.value);
    }
  }

  function ConfigOf(server: Server): Option<Config> {
    if server.stored.Some? then Some(server.stored.value.config) else None
  }

  /** The invariant holds after every trace of publishing processes, external edits,
      deletions and lost messages. */
  lemma {:induction false} RunKeeps(cas: Pid -> Ca, server: Server, trace: seq<Action>)
    requires server.Valid()
    ensures Invariant(cas, Run(cas, Initial(server), trace),
                      LastEdit(ConfigOf(server), trace), Author(cas, Initial(server), trace))
  {
    if trace != [] {
      var n := |trace| - 1;
      var before := trace[..n];
      RunKeeps(cas, server, before);
      StepKeeps(cas, Run(cas, Initial(server), before), LastEdit(ConfigOf(server), before),
                Author(cas, Initial(server), before), trace[n]);
    }
  }

  /** In every interleaving the stored object is exactly the last external write when no
      replacement was taken since, and otherwise that write with all bundles set to the
      authority of the one process whose replacement was taken last. */
  lemma PublisherSafety(cas: Pid -> Ca, server: Server, trace: seq<Action>)
    requires server.Valid()
    ensures var now := Run(cas, Initial(server), trace).server.stored;
            var w := LastEdit(ConfigOf(server), trace);
            match (w, Author(cas, Initial(server), trace))
            case (None, _) => now.None?
            case (Some(c), None) => now.Some? && now.value.config == c
            case (Some(c), Some(p)) => now.Some? && now.value.config == Stamp(c, cas(p))
  {
    RunKeeps(cas, server, trace);
  }

  /** The author really acted: one of its replacements in the trace was taken, and after
      it there was neither an external write nor another replacement that was taken. */
  lemma {:induction false} AuthorActed(cas: Pid -> Ca, start: System, trace: seq<Action>) returns (k: nat, fault: Fault)
    requires Author(cas, start, trace).Some?
    ensures k < |trace| && trace[k] == Replace(Author(cas, start, trace).value, fault)
    ensures Taken(Run(cas, start, trace[..k]), trace[k].p, fault)
    ensures forall j :: k < j < |trace| ==> !trace[j].Edit? && !trace[j].Remove?
    ensures forall j :: k < j < |trace| && trace[j].Replace? ==>
                          !Taken(Run(cas, start, trace[..j]), trace[j].p, trace[j].fault)
  {
    var n := |trace| - 1;
    var before, last := trace[..n], trace[n];
    if last.Replace? && Taken(Run(cas, start, before), last.p, last.fault) {
      k, fault := n, last.fault;
    } else {
      k, fault := AuthorActed(cas, start, before);
      assert forall j :: 0 <= j < n ==> trace[j] == before[j] && trace[..j] == before[..j];
    }
  }

  /** Everything but the bundles. */
  function Erase(c: Config): Config {
    if c.webhooks.None? then c
    else
      var ws := c.webhooks.value;
      c.(webhooks := Some(seq(|ws|, i requires 0 <= i < |ws| => ws[i].(caBundle := None))))
  }

  /** Every entry trusts this authority. */
  predicate Trusts(c: Config, ca: Ca) {
    c.webhooks.Some? ==> forall i :: 0 <= i < |c.webhooks.value| ==> c.webhooks.value[i].caBundle == Some(ca)
  }

  lemma StampErased(c: Config, ca: Ca)
    ensures Erase(Stamp(c, ca)) == Erase(c)
    ensures Trusts(Stamp(c, ca), ca)
  {
    if c.webhooks.Some? {
      assert Erase(Stamp(c, ca)).webhooks.value == Erase(c).webhooks.value;
    }
  }

  /** So no external edit of another field is ever lost, and once a replacement has been
      taken since the last edit all entries trust one and the same authority, its
      author's. */
  lemma NoEditLost(cas: Pid -> Ca, server: Server, trace: seq<Action>)
    requires server.Valid()
    ensures var now, w := Run(cas, Initial(server), trace).server.stored, LastEdit(ConfigOf(server), trace);
            var author := Author(cas, Initial(server), trace);
            && (now.Some? <==> w.Some?)
            && (now.Some? ==> Erase(now.value.config) == Erase(w.value))
            && (now.Some? && author.Some? ==> Trusts(now.value.config, cas(author.value)))
  {
    PublisherSafety(cas, server, trace);
    var w, author := LastEdit(ConfigOf(server), trace), Author(cas, Initial(server), trace);
    if w.Some? && author.Some? {
      StampErased(w.value, cas(author.value));
    }
  }

  // ----- who wins -----

  predicate ActsFor(a: Action, p: Pid) {
    (a.Get? || a.Replace?) && a.p == p
  }

  /** A step that touches the server leaves no old version behind. */
  predicate Moved(before: Server, after: Server) {
    || after == before
    || (after.revision > before.revision &&
        (after.stored.Some? ==> after.stored.value.version > before.revision))
  }

  lemma {:induction false} RunMoves(cas: Pid -> Ca, s: System, trace: seq<Action>, p: Pid)
    requires forall i :: 0 <= i < |trace| ==> !ActsFor(trace[i], p)
    ensures Moved(s.server, Run(cas, s, trace).server)
    ensures Run(cas, s, trace).ProcOf(p) == s.ProcOf(p)
  {
    if trace != [] {
      RunMoves(cas, s, trace[..|trace| - 1], p);
    }
  }

  /** A process that has read the object publishes it exactly if nothing at all was
      written to the server in between; whatever it publishes carries its own authority. */
  lemma ReplaceSucceedsIff(cas: Pid -> Ca, s: System, p: Pid, between: seq<Action>)
    requires s.server.Valid() && s.server.stored.Some? && s.ProcOf(p) == Starting
    requires forall i :: 0 <= i < |between| ==> !ActsFor(between[i], p)
    ensures var s1 := Next(cas, s, Get(p, true));
            var s2 := Run(cas, s1, between);
            var s3 := Next(cas, s2, Replace(p, Clean));
            && (s3.ProcOf(p) == Published <==> s2.server == s.server)
            && s3.server == if s2.server == s.server then PublishOnce(s.server, cas(p)) else s2.server
  {
    RunMoves(cas, Next(cas, s, Get(p, true)), between, p);
  }

  /** A process that has not acted yet in a run publishes at its first try if nothing
      comes between its two calls: a restart repairs whatever happened before. */
  lemma FreshProcessPublishes(cas: Pid -> Ca, server: Server, trace: seq<Action>, p: Pid)
    requires server.Valid() && forall i :: 0 <= i < |trace| ==> !ActsFor(trace[i], p)
    requires LastEdit(ConfigOf(server), trace).Some?
    ensures var s := Run(cas, Initial(server), trace);
            var t := Next(cas, Next(cas, s, Get(p, true)), Replace(p, Clean));
            && t.ProcOf(p) == Published && t.server.stored.Some?
            && t.server.stored.value.config == Stamp(LastEdit(ConfigOf(server), trace).value, cas(p))
  {
    RunKeeps(cas, server, trace);
    RunMoves(cas, Initial(server), trace, p);
    var s, w := Run(cas, Initial(server), trace), LastEdit(ConfigOf(server), trace);
    var author := Author(cas, Initial(server), trace);
    if author.Some? {
      StampOverwrites(w.value, cas(author.value), cas(p));
    }
  }

  predicate Finished(s: System, p: Pid) {
    s.ProcOf(p) == Published || s.ProcOf(p) == GaveUp
  }

  lemma {:induction false} FinishedStays(cas: Pid -> Ca, start: System, trace: seq<Action>, i: nat, p: Pid)
    requires i <= |trace| && Finished(Run(cas, start, trace[..i]), p)
    ensures Finished(Run(cas, start, trace), p)
    decreases |trace| - i
  {
    if i == |trace| {
      assert trace[..i] == trace;
    } else {
      assert trace[..i + 1][..i] == trace[..i];
      FinishedStays(cas, start, trace, i + 1, p);
    }
  }

  /** Best effort means one try: after a failed `get`, or after its `replace` whatever
      became of it, a process never writes again. */
  lemma OneTry(cas: Pid -> Ca, start: System, trace: seq<Action>, i: nat, j: nat)
    requires i < j < |trace|
    requires var s := Run(cas, start, trace[..i]);
             match trace[i]
             case Get(p, delivered) => s.ProcOf(p) == Starting && (!delivered || s.server.stored.None?)
             case Replace(p, _) => s.ProcOf(p).Holding?
             case _ => false
    requires trace[j].Replace? && trace[j].p == trace[i].p
    ensures Run(cas, start, trace[..j + 1]) == Run(cas, start, trace[..j])
  {
    var p := trace[i].p;
    assert trace[..i + 1][..i] == trace[..i];
    assert Finished(Run(cas, start, trace[..i + 1]), p);
    assert trace[..j][..i + 1] == trace[..i + 1];
    FinishedStays(cas, start, trace[..j], i + 1, p);
    assert trace[..j + 1][..j] == trace[..j];
  }

  lemma FourSteps(cas: Pid -> Ca, s: System, a: Action, b: Action, c: Action, d: Action)
    ensures Run(cas, s, [a, b, c, d]) == Next(cas, Next(cas, Next(cas, Next(cas, s, a), b), c), d)
  {
    assert [a, b, c, d][..3] == [a, b, c] && [a, b, c][..2] == [a, b] && [a, b][..1] == [a];
    assert Run(cas, s, [a]) == Next(cas, s, a);
    assert Run(cas, s, [a, b]) == Next(cas, Run(cas, s, [a]), b);
    assert Run(cas, s, [a, b, c]) == Next(cas, Run(cas, s, [a, b]), c);
  }

  /** The decision record says that among several replicas the last to patch wins. That
      holds when they publish one after the other; when their reads overlap, the first to
      replace wins and the last is refused. */
  lemma LastToPatch(cas: Pid -> Ca, s: System, p: Pid, q: Pid)
    requires s.server.Valid() && s.server.stored.Some? && p != q
    requires s.ProcOf(p) == Starting && s.ProcOf(q) == Starting
    ensures var apart := Run(cas, s, [Get(p, true), Replace(p, Clean), Get(q, true), Replace(q, Clean)]);
            && apart.ProcOf(p) == Published && apart.ProcOf(q) == Published
            && apart.server.stored.Some?
            && apart.server.stored.value.config == Stamp(s.server.stored.value.config, cas(q))
    ensures var overlapping := Run(cas, s, [Get(p, true), Get(q, true), Replace(p, Clean), Replace(q, Clean)]);
            && overlapping.ProcOf(p) == Published && overlapping.ProcOf(q) == GaveUp
            && overlapping.server.stored.Some?
            && overlapping.server.stored.value.config == Stamp(s.server.stored.value.config, cas(p))
  {
    FourSteps(cas, s, Get(p, true), Replace(p, Clean), Get(q, true), Replace(q, Clean));
    FourSteps(cas, s, Get(p, true), Get(q, true), Replace(p, Clean), Replace(q, Clean));
    StampOverwrites(s.server.stored.value.config, cas(p), cas(q));
  }

  /** Publishing is idempotent: a second run leaves the same configuration. */
  lemma PublishTwice(s: Server, a: Ca)
    requires s.stored.Some?
    ensures PublishOnce(PublishOnce(s, a), a).stored.value.config == PublishOnce(s, a).stored.value.config
  {
    StampOverwrites(s.stored.value.config, a, a);
  }
}
