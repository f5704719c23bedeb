/** What editing a policy document can change: reordering and inserting routes, and
    deleting and reordering the overrides of one route. */
module PolicyOrder {
  import opened Wrappers
  import opened Cel
  import opened Policy
  import Hostnames

  // ----- routes -----

  /** Any two routes of one host compile alike; trivially so when hosts are distinct. */
  predicate HostsAgree(e: Engine, routes: seq<StubRoute>) {
    forall r, s :: r in routes && s in routes && Hostnames.New(r.host) == Hostnames.New(s.host)
      ==> CompileRoute(e, r) == CompileRoute(e, s)
  }

  lemma TableUnique(e: Engine, t: PolicyTable, u: PolicyTable, a: seq<StubRoute>, b: seq<StubRoute>)
    requires TableOf(e, t, a) && TableOf(e, u, b)
    requires forall r :: r in a <==> r in b
    requires HostsAgree(e, a)
    ensures t == u
  {
    hide CompileRoute;
    forall h: Hostname
      ensures h in t <==> h in u
      ensures h in t ==> t[h] == u[h]
    {
      var i, j := LastRoute(a, h), LastRoute(b, h);
      assert EntryOf(e, t, a, h) && EntryOf(e, u, b, h);
      if i >= 0 {
        assert a[i] in b;
      }
      if j >= 0 {
        assert b[j] in a;
      }
      assert i >= 0 <==> j >= 0;
      if i >= 0 {
        assert a[i] in a && b[j] in a && CompileRoute(e, a[i]) == CompileRoute(e, b[j]);
      }
    }
  }

  /** Document order is invisible when hosts agree: every rearrangement (even with
      repetitions) builds the same table, or fails likewise. */
  lemma RouteOrderInvisible(e: Engine, a: seq<StubRoute>, b: seq<StubRoute>)
    requires forall r :: r in a <==> r in b
    requires HostsAgree(e, a)
    ensures BuildTable(e, a).Success? <==> BuildTable(e, b).Success?
    ensures BuildTable(e, a).Success? ==> BuildTable(e, a) == BuildTable(e, b)
  {
    BuildExact(e, a);
    BuildExact(e, b);
    if BuildTable(e, a).Success? {
      TableUnique(e, BuildTable(e, a).value, BuildTable(e, b).value, a, b);
    }
  }

  function MovedToEnd(a: seq<StubRoute>, k: nat): (b: seq<StubRoute>)
    requires k < |a|
    ensures multiset(b) == multiset(a)
    ensures |b| == |a| && b[|b| - 1] == a[k]
  {
    assert a == a[..k] + [a[k]] + a[k + 1..];
    a[..k] + a[k + 1..] + [a[k]]
  }

  lemma LastRouteWins(e: Engine, b: seq<StubRoute>)
    requires b != [] && BuildTable(e, b).Success?
    ensures var r := b[|b| - 1]; var h := Hostnames.New(r.host);
            h in BuildTable(e, b).value && CompileRoute(e, r) == Success((h, BuildTable(e, b).value[h]))
  {
    BuildExact(e, b);
    var h := Hostnames.New(b[|b| - 1].host);
    assert LastRoute(b, h) == |b| - 1;
    assert EntryOf(e, BuildTable(e, b).value, b, h);
  }

  ghost predicate FreelyReordered(e: Engine, a: seq<StubRoute>) {
    forall b :: multiset(b) == multiset(a) ==> BuildTable(e, b) == BuildTable(e, a)
  }

  /** A document that builds can be reordered freely exactly when its hosts agree. */
  lemma RouteOrderInvisibleIff(e: Engine, a: seq<StubRoute>)
    requires BuildTable(e, a).Success?
    ensures HostsAgree(e, a) <==> FreelyReordered(e, a)
  {
    if HostsAgree(e, a) {
      forall b | multiset(b) == multiset(a)
        ensures BuildTable(e, b) == BuildTable(e, a)
      {
        assert forall r :: r in a <==> r in multiset(a);
        assert forall r :: r in b <==> r in multiset(b);
        RouteOrderInvisible(e, a, b);
      }
    }
    if FreelyReordered(e, a) {
      forall r, s | r in a && s in a && Hostnames.New(r.host) == Hostnames.New(s.host)
        ensures CompileRoute(e, r) == CompileRoute(e, s)
      {
        var i :| 0 <= i < |a| && a[i] == r;
        var j :| 0 <= j < |a| && a[j] == s;
        LastRouteWins(e, MovedToEnd(a, i));
        LastRouteWins(e, MovedToEnd(a, j));
      }
    }
  }

  function Inserted(routes: seq<StubRoute>, i: nat, r: StubRoute): seq<StubRoute>
    requires i <= |routes|
  {
    routes[..i] + [r] + routes[i..]
  }

  lemma LastRouteInserted(routes: seq<StubRoute>, i: nat, r: StubRoute, h: Hostname)
    requires i <= |routes|
    ensures var k, m := LastRoute(routes, h), LastRoute(Inserted(routes, i, r), h);
            if k >= i then m == k + 1 && Inserted(routes, i, r)[m] == routes[k]
            else if Hostnames.New(r.host) == h then m == i && Inserted(routes, i, r)[m] == r
            else m == k && (k >= 0 ==> Inserted(routes, i, r)[m] == routes[k])
  {
    var k, m, s := LastRoute(routes, h), LastRoute(Inserted(routes, i, r), h), Inserted(routes, i, r);
    assert forall j :: 0 <= j < i ==> s[j] == routes[j];
    assert forall j :: i <= j < |routes| ==> s[j + 1] == routes[j];
    assert s[i] == r;
    if m > i {
      assert routes[m - 1] == s[m];
    }
  }

  lemma InsertCompilesIff(e: Engine, routes: seq<StubRoute>, i: nat, r: StubRoute)
    requires i <= |routes|
    ensures BuildTable(e, Inserted(routes, i, r)).Success? <==> BuildTable(e, routes).Success? && RouteOk(e, r)
  {
    var s := Inserted(routes, i, r);
    BuildExact(e, routes);
    BuildExact(e, s);
    assert routes == routes[..i] + routes[i..];
    assert forall x :: x in s <==> x in routes || x == r;
  }

  /** The effect of inserting a route anywhere: the build survives exactly if the route
      compiles, no other host is affected, and the route takes effect for its own host
      exactly if no later route of the document names that host. */
  lemma {:induction false} InsertIsolated(e: Engine, routes: seq<StubRoute>, i: nat, r: StubRoute)
    requires i <= |routes|
    ensures var before, after := BuildTable(e, routes), BuildTable(e, Inserted(routes, i, r));
            && (after.Success? <==> before.Success? && RouteOk(e, r))
            && (after.Success? ==>
                  && CompileRoute(e, r).Success?
                  && after.value == if LastRoute(routes, Hostnames.New(r.host)) >= i then before.value
                                    else before.value[Hostnames.New(r.host) := CompileRoute(e, r).value.1])
  {
    InsertCompilesIff(e, routes, i, r);
    CompileRouteExact(e, r);
    if BuildTable(e, Inserted(routes, i, r)).Success? {
      var t, u := BuildTable(e, routes).value, BuildTable(e, Inserted(routes, i, r)).value;
      assert TableOf(e, t, routes) by { BuildExact(e, routes); }
      assert TableOf(e, u, Inserted(routes, i, r)) by { BuildExact(e, Inserted(routes, i, r)); }
      InsertedTable(e, routes, i, r, t, u);
    }
  }

  lemma {:induction false} InsertedTable(e: Engine, routes: seq<StubRoute>, i: nat, r: StubRoute,
                                         t: PolicyTable, u: PolicyTable)
    requires i <= |routes|
    requires CompileRoute(e, r).Success? && CompileRoute(e, r).value.0 == Hostnames.New(r.host)
    requires TableOf(e, t, routes) && TableOf(e, u, Inserted(routes, i, r))
    ensures u == if LastRoute(routes, Hostnames.New(r.host)) >= i then t
                 else t[Hostnames.New(r.host) := CompileRoute(e, r).value.1]
  {
    hide CompileRoute;
    var host, c := Hostnames.New(r.host), CompileRoute(e, r).value.1;
    var later := LastRoute(routes, host) >= i;
    forall h: Hostname
      ensures if h == host && !later then h in u && u[h] == c else (h in u <==> h in t) && (h in u ==> u[h] == t[h])
    {
      assert EntryOf(e, t, routes, h) && EntryOf(e, u, Inserted(routes, i, r), h);
      InsertedEntry(e, routes, i, r, h, t, u);
    }
    MapUpdated(t, u, host, c, later);
  }

  lemma MapUpdated(t: PolicyTable, u: PolicyTable, host: Hostname, c: RoutePolicy, kept: bool)
    requires forall h: Hostname ::
               if h == host && !kept then h in u && u[h] == c else (h in u <==> h in t) && (h in u ==> u[h] == t[h])
    ensures u == if kept then t else t[host := c]
  {
    var expected := if kept then t else t[host := c];
    assert forall h :: h in u <==> h in expected;
    assert forall h | h in u :: u[h] == expected[h];
  }

  lemma {:induction false} InsertedEntry(e: Engine, routes: seq<StubRoute>, i: nat, r: StubRoute,
                                         h: Hostname, t: PolicyTable, u: PolicyTable)
    requires i <= |routes|
    requires EntryOf(e, t, routes, h) && EntryOf(e, u, Inserted(routes, i, r), h)
    ensures if Hostnames.New(r.host) == h && LastRoute(routes, h) < i
            then h in u && CompileRoute(e, r) == Success((h, u[h]))
            else (h in u <==> h in t) && (h in u ==> u[h] == t[h])
  {
    hide CompileRoute, LastRoute, Inserted;
    LastRouteInserted(routes, i, r, h);
  }

  // ----- overrides -----

  function Without(extra: seq<Extra>, k: nat): seq<Extra>
    requires k < |extra|
  {
    extra[..k] + extra[k + 1..]
  }

  lemma FirstMatchWithout(e: Engine, extra: seq<Extra>, k: nat, path: string)
    requires k < |extra|
    ensures var m := FirstMatch(e, extra, path);
            FirstMatch(e, Without(extra, k), path) ==
            if m < k then m else if m == k then k + FirstMatch(e, extra[k + 1..], path) else m - 1
  {
    var less, m := Without(extra, k), FirstMatch(e, extra, path);
    assert less[..k] == extra[..k];
    assert less[k..] == extra[k + 1..];
    var n := if m < k then m else if m == k then k + FirstMatch(e, extra[k + 1..], path) else m - 1;
    forall j | 0 <= j < n
      ensures !e.isMatch(less[j].regex, path)
    {
      assert less[j] == if j < k then extra[..k][j] else extra[k + 1..][j - k];
    }
    if n < |less| {
      assert less[n] == if n < k then extra[..k][n] else extra[k + 1..][n - k];
    }
    FirstMatchAt(e, less, path, n);
  }

  /** The one way a deleted override shows: it matched the path and nothing before it
      did; the path then falls to what the later overrides, or the default, say. */
  lemma DeleteOverride(e: Engine, route: RoutePolicy, k: nat, path: string)
    requires k < |route.extra|
    ensures Select(e, route.(extra := Without(route.extra, k)), path) ==
            if FirstMatch(e, route.extra, path) == k
            then Select(e, route.(extra := route.extra[k + 1..]), path)
            else Select(e, route, path)
  {
    hide FirstMatch;
    FirstMatchWithout(e, route.extra, k, path);
  }

  lemma FirstMatchAt(e: Engine, extra: seq<Extra>, path: string, k: nat)
    requires k <= |extra|
    requires k < |extra| ==> e.isMatch(extra[k].regex, path)
    requires forall j :: 0 <= j < k ==> !e.isMatch(extra[j].regex, path)
    ensures FirstMatch(e, extra, path) == k
  {
  }

  /** All overrides that match the path prescribe one policy. */
  predicate MatchesAgree(e: Engine, extra: seq<Extra>, path: string) {
    forall x, y :: x in extra && y in extra && e.isMatch(x.regex, path) && e.isMatch(y.regex, path)
      ==> x.policy == y.policy
  }

  predicate Reordering(a: seq<Extra>, b: seq<Extra>) {
    multiset(a) == multiset(b)
  }

  lemma AgreeingOrderInvisible(e: Engine, route: RoutePolicy, b: seq<Extra>, path: string)
    requires Reordering(route.extra, b) && MatchesAgree(e, route.extra, path)
    ensures Select(e, route.(extra := b), path) == Select(e, route, path)
  {
    var a := route.extra;
    var i, j := FirstMatch(e, a, path), FirstMatch(e, b, path);
    assert forall x :: x in a <==> x in multiset(a);
    assert forall x :: x in b <==> x in multiset(b);
    if i < |a| {
      assert a[i] in b;
    }
    if j < |b| {
      assert b[j] in a;
    }
  }

  function MovedToFront(a: seq<Extra>, k: nat): (b: seq<Extra>)
    requires k < |a|
    ensures Reordering(a, b)
    ensures b[0] == a[k]
  {
    assert a == a[..k] + [a[k]] + a[k + 1..];
    [a[k]] + (a[..k] + a[k + 1..])
  }

  /** The order of overrides is invisible to a path exactly when the overrides matching
      it agree; in particular whenever at most one pattern matches. */
  lemma OverrideOrderInvisibleIff(e: Engine, route: RoutePolicy, path: string)
    ensures MatchesAgree(e, route.extra, path) <==>
            forall b :: Reordering(route.extra, b) ==> Select(e, route.(extra := b), path) == Select(e, route, path)
  {
    var a := route.extra;
    if MatchesAgree(e, a, path) {
      forall b | Reordering(a, b)
        ensures Select(e, route.(extra := b), path) == Select(e, route, path)
      {
        AgreeingOrderInvisible(e, route, b, path);
      }
    } else {
      var x, y :| x in a && y in a && e.isMatch(x.regex, path) && e.isMatch(y.regex, path) && x.policy != y.policy;
      var i :| 0 <= i < |a| && a[i] == x;
      var j :| 0 <= j < |a| && a[j] == y;
      FirstMatchAt(e, MovedToFront(a, i), path, 0);
      FirstMatchAt(e, MovedToFront(a, j), path, 0);
      assert Reordering(a, MovedToFront(a, i)) && Reordering(a, MovedToFront(a, j));
    }
  }
}
