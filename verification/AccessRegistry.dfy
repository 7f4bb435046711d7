/** Bounded counters of the requests served, by route and by the screen they came from. */
module AccessRegistry {
  import opened Results
  import opened Texts

  const MAX_ENTRIES := 2000
  const MAX_SCREENS := 2000
  const MAX_ROUTES_PER_SCREEN := 40

  datatype Origin = Origin(client: string, screen: string)

  datatype Call = Call(verb: string, path: string, status: int, origin: Option<Origin>)

  datatype Tally = Tally(verb: string, path: string, ok: nat, failed: nat, lastStatus: int, statuses: map<int, nat>)

  datatype Route = Route(verb: string, path: string, calls: nat, failed: nat)

  datatype Screen = Screen(client: string, screen: string, calls: nat, failed: nat, routes: seq<Route>,
                           routesTruncated: bool)

  /** Only the errors of the server are failures. */
  predicate Fails(status: int) {
    status >= 500
  }

  function RouteKey(verb: string, path: string): string {
    verb + " " + path
  }

  function KeyOf(call: Call): string {
    RouteKey(call.verb, call.path)
  }

  function ScreenKey(origin: Origin): string {
    origin.client + " " + origin.screen
  }

  // ---- counting over the whole history ----

  datatype Query =
    | OnRoute(key: string)
    | FailedOnRoute(key: string)
    | StatusOnRoute(key: string, status: int)
    | OnScreen(key: string)
    | FailedOnScreen(key: string)
    | OnScreenRoute(key: string, verb: string, path: string)
    | FailedOnScreenRoute(key: string, verb: string, path: string)

  predicate From(call: Call, screen: string) {
    call.origin.Some? && ScreenKey(call.origin.value) == screen
  }

  predicate Satisfies(call: Call, q: Query) {
    match q
    case OnRoute(key) => KeyOf(call) == key
    case FailedOnRoute(key) => KeyOf(call) == key && call.status >= 500
    case StatusOnRoute(key, status) => KeyOf(call) == key && call.status == status
    case OnScreen(key) => From(call, key)
    case FailedOnScreen(key) => From(call, key) && call.status >= 500
    case OnScreenRoute(key, verb, path) => From(call, key) && call.verb == verb && call.path == path
    case FailedOnScreenRoute(key, verb, path) =>
      From(call, key) && call.verb == verb && call.path == path && call.status >= 500
  }

  function Count(history: seq<Call>, q: Query): nat {
    if history == [] then 0
    else Count(history[..|history| - 1], q) + if Satisfies(history[|history| - 1], q) then 1 else 0
  }

  lemma CountNext(history: seq<Call>, call: Call, q: Query)
    ensures Count(history + [call], q) == Count(history, q) + if Satisfies(call, q) then 1 else 0
  {
    assert (history + [call])[..|history|] == history;
  }

  lemma {:induction false} CountZero(history: seq<Call>, q: Query)
    ensures Count(history, q) == 0 <==> forall i :: 0 <= i < |history| ==> !Satisfies(history[i], q)
    decreases |history|
  {
    if history != [] {
      CountZero(history[..|history| - 1], q);
    }
  }

  /** The sum of the values of a map. */
  ghost function Total(counts: map<int, nat>): nat
    decreases |counts|
  {
    if counts.Keys == {} then 0
    else
      var k := Any(counts);
      counts[k] + Total(counts - {k})
  }

  lemma SomeKey(counts: map<int, nat>)
    ensures counts.Keys == {} || exists k: int :: k in counts
  {
    if forall k: int :: k !in counts {
      assert counts.Keys == {};
    }
  }

  ghost function Any(counts: map<int, nat>): (k: int)
    requires counts.Keys != {}
    ensures k in counts
  {
    SomeKey(counts);
    var k: int :| k in counts;
    k
  }

  lemma {:induction false} TotalWithout(counts: map<int, nat>, k: int)
    requires k in counts
    ensures Total(counts) == counts[k] + Total(counts - {k})
    decreases |counts|
  {
    var j := Any(counts);
    if j != k {
      TotalWithout(counts - {j}, k);
      TotalWithout(counts - {k}, j);
      assert counts - {j} - {k} == counts - {k} - {j};
    }
  }

  /** One more of a status. */
  function Bumped(counts: map<int, nat>, k: int): map<int, nat> {
    counts[k := (if k in counts then counts[k] else 0) + 1]
  }

  lemma TotalBumped(counts: map<int, nat>, k: int)
    ensures Total(Bumped(counts, k)) == Total(counts) + 1
  {
    var more := Bumped(counts, k);
    TotalWithout(more, k);
    if k in counts {
      TotalWithout(counts, k);
      assert more - {k} == counts - {k};
    } else {
      assert more - {k} == counts;
    }
  }

  // ---- what the counters say ----

  /** The last status of a route. */
  function LastStatus(history: seq<Call>, key: string): Option<int> {
    if history == [] then None
    else if KeyOf(history[|history| - 1]) == key then Some(history[|history| - 1].status)
    else LastStatus(history[..|history| - 1], key)
  }

  ghost predicate TallyOk(history: seq<Call>, key: string, t: Tally) {
    && RouteKey(t.verb, t.path) == key
    && t.failed == Count(history, FailedOnRoute(key))
    && t.ok + t.failed == Count(history, OnRoute(key)) == Total(t.statuses)
    && Some(t.lastStatus) == LastStatus(history, key)
    && (forall s :: s in t.statuses ==> t.statuses[s] == Count(history, StatusOnRoute(key, s)))
    && (forall s :: s !in t.statuses ==> Count(history, StatusOnRoute(key, s)) == 0)
  }

  predicate Listed(routes: seq<Route>, verb: string, path: string) {
    exists r :: 0 <= r < |routes| && routes[r].verb == verb && routes[r].path == path
  }

  predicate RouteOk(history: seq<Call>, key: string, r: Route) {
    && r.calls == Count(history, OnScreenRoute(key, r.verb, r.path)) > 0
    && r.failed == Count(history, FailedOnScreenRoute(key, r.verb, r.path))
  }

  /** Some call of the screen went to a route that is not listed. */
  predicate RouteMissing(history: seq<Call>, key: string, routes: seq<Route>) {
    exists i :: 0 <= i < |history| && From(history[i], key) && !Listed(routes, history[i].verb, history[i].path)
  }

  predicate ScreenOk(history: seq<Call>, key: string, s: Screen) {
    && ScreenKey(Origin(s.client, s.screen)) == key
    && s.calls == Count(history, OnScreen(key)) > 0
    && s.failed == Count(history, FailedOnScreen(key))
    && |s.routes| <= MAX_ROUTES_PER_SCREEN
    && (forall r :: 0 <= r < |s.routes| ==> RouteOk(history, key, s.routes[r]))
    && (forall r, q :: 0 <= r < q < |s.routes| ==>
          s.routes[r].verb != s.routes[q].verb || s.routes[r].path != s.routes[q].path)
    && (s.routesTruncated <==> RouteMissing(history, key, s.routes))
    && (s.routesTruncated ==> |s.routes| == MAX_ROUTES_PER_SCREEN)
  }

  /** Retained routes count the whole history, and one is missing only when there is no room. */
  ghost predicate TalliesOk(history: seq<Call>, tallies: map<string, Tally>) {
    && |tallies| <= MAX_ENTRIES
    && (forall key :: key in tallies ==> TallyOk(history, key, tallies[key]))
    && (forall i :: 0 <= i < |history| && KeyOf(history[i]) !in tallies ==> |tallies| == MAX_ENTRIES)
  }

  /** Some call came from a screen that is not retained. */
  predicate ScreenMissing(history: seq<Call>, screens: map<string, Screen>) {
    exists i :: 0 <= i < |history| && history[i].origin.Some? && ScreenKey(history[i].origin.value) !in screens
  }

  ghost predicate ScreensOk(history: seq<Call>, screens: map<string, Screen>, truncated: bool) {
    && |screens| <= MAX_SCREENS
    && (forall key :: key in screens ==> ScreenOk(history, key, screens[key]))
    && (truncated <==> ScreenMissing(history, screens))
    && (truncated ==> |screens| == MAX_SCREENS)
  }

  // ---- one call more ----

  lemma OtherTallyKept(history: seq<Call>, call: Call, key: string, t: Tally)
    requires TallyOk(history, key, t) && KeyOf(call) != key
    ensures TallyOk(history + [call], key, t)
  {
    var longer := history + [call];
    CountNext(history, call, OnRoute(key));
    CountNext(history, call, FailedOnRoute(key));
    assert longer[..|history|] == history;
    forall s: int
      ensures Count(longer, StatusOnRoute(key, s)) == Count(history, StatusOnRoute(key, s))
    {
      CountNext(history, call, StatusOnRoute(key, s));
    }
  }

  function CountedTally(t: Tally, status: int): Tally {
    Tally(t.verb, t.path, if Fails(status) then t.ok else t.ok + 1, if Fails(status) then t.failed + 1 else t.failed,
      status, Bumped(t.statuses, status))
  }

  function NewTally(call: Call): Tally {
    Tally(call.verb, call.path, 0, 0, call.status, map[])
  }

  /** A tally that was exact, or a new one for a route never seen, is exact after the call is counted. */
  lemma CountedTallyOk(history: seq<Call>, call: Call, t: Tally)
    requires TallyOk(history, KeyOf(call), t) ||
             (t == NewTally(call) && forall i :: 0 <= i < |history| ==> KeyOf(history[i]) != KeyOf(call))
    ensures TallyOk(history + [call], KeyOf(call), CountedTally(t, call.status))
  {
    var key, longer := KeyOf(call), history + [call];
    CountNext(history, call, OnRoute(key));
    CountNext(history, call, FailedOnRoute(key));
    CountZero(history, OnRoute(key));
    CountZero(history, FailedOnRoute(key));
    TotalBumped(t.statuses, call.status);
    forall s: int
      ensures Count(longer, StatusOnRoute(key, s)) ==
              Count(history, StatusOnRoute(key, s)) + if s == call.status then 1 else 0
      ensures t == NewTally(call) && !TallyOk(history, key, t) ==> Count(history, StatusOnRoute(key, s)) == 0
    {
      CountNext(history, call, StatusOnRoute(key, s));
      CountZero(history, StatusOnRoute(key, s));
    }
  }

  lemma OthersKept(history: seq<Call>, call: Call, tallies: map<string, Tally>, key: string)
    requires TalliesOk(history, tallies) && key == KeyOf(call)
    ensures forall k :: k in tallies && k != key ==> TallyOk(history + [call], k, tallies[k])
  {
    forall k | k in tallies && k != key
      ensures TallyOk(history + [call], k, tallies[k])
    {
      OtherTallyKept(history, call, k, tallies[k]);
    }
  }

  lemma FullTalliesKept(history: seq<Call>, call: Call, tallies: map<string, Tally>)
    requires TalliesOk(history, tallies) && KeyOf(call) !in tallies && |tallies| >= MAX_ENTRIES
    ensures TalliesOk(history + [call], tallies)
  {
    OthersKept(history, call, tallies, KeyOf(call));
  }

  lemma StoredSize<V>(m: map<string, V>, key: string, value: V)
    ensures m[key := value].Keys == m.Keys + {key}
    ensures |m[key := value]| == if key in m then |m| else |m| + 1
  {
    var after := m[key := value];
    assert after.Keys == m.Keys + {key};
    if key in m {
      assert after.Keys == m.Keys;
    }
    assert |after| == |after.Keys| && |m| == |m.Keys|;
  }

  lemma StoredMissing(history: seq<Call>, call: Call, tallies: map<string, Tally>, after: map<string, Tally>, i: nat)
    requires TalliesOk(history, tallies) && after.Keys == tallies.Keys + {KeyOf(call)}
    requires KeyOf(call) in tallies || |tallies| < MAX_ENTRIES
    requires i < |history + [call]| && KeyOf((history + [call])[i]) !in after
    ensures KeyOf(call) in tallies && |tallies| == MAX_ENTRIES
  {
    assert i < |history| && history[i] == (history + [call])[i];
  }

  lemma StoredTallyOk(history: seq<Call>, call: Call, tallies: map<string, Tally>, t: Tally, k: string)
    requires TalliesOk(history, tallies) && TallyOk(history + [call], KeyOf(call), t)
    requires k in tallies[KeyOf(call) := t]
    ensures TallyOk(history + [call], k, tallies[KeyOf(call) := t][k])
  {
    if k != KeyOf(call) {
      OtherTallyKept(history, call, k, tallies[k]);
    }
  }

  lemma StoredTalliesOk(history: seq<Call>, call: Call, tallies: map<string, Tally>, t: Tally,
                        after: map<string, Tally>)
    requires TalliesOk(history, tallies) && TallyOk(history + [call], KeyOf(call), t)
    requires after == tallies[KeyOf(call) := t]
    ensures forall k :: k in after ==> TallyOk(history + [call], k, after[k])
  {
    forall k | k in after
      ensures TallyOk(history + [call], k, after[k])
    {
      StoredTallyOk(history, call, tallies, t, k);
    }
  }

  lemma StoredFull(history: seq<Call>, call: Call, tallies: map<string, Tally>, after: map<string, Tally>,
                   longer: seq<Call>)
    requires TalliesOk(history, tallies) && after.Keys == tallies.Keys + {KeyOf(call)}
    requires |after| == if KeyOf(call) in tallies then |tallies| else |tallies| + 1
    requires (KeyOf(call) in tallies || |tallies| < MAX_ENTRIES) && longer == history + [call]
    ensures forall i :: 0 <= i < |longer| && KeyOf(longer[i]) !in after ==> |after| == MAX_ENTRIES
  {
    forall i | 0 <= i < |longer| && KeyOf(longer[i]) !in after
      ensures |after| == MAX_ENTRIES
    {
      StoredMissing(history, call, tallies, after, i);
    }
  }

  lemma TallyStored(history: seq<Call>, call: Call, tallies: map<string, Tally>, t: Tally)
    requires TalliesOk(history, tallies)
    requires TallyOk(history + [call], KeyOf(call), t)
    requires KeyOf(call) in tallies || |tallies| < MAX_ENTRIES
    ensures TalliesOk(history + [call], tallies[KeyOf(call) := t])
  {
    var longer, after := history + [call], tallies[KeyOf(call) := t];
    StoredSize(tallies, KeyOf(call), t);
    StoredTalliesOk(history, call, tallies, t, after);
    StoredFull(history, call, tallies, after, longer);
  }

  /** A route that is not in a registry with room has never been seen. */
  lemma NeverSeen(history: seq<Call>, tallies: map<string, Tally>, key: string)
    requires TalliesOk(history, tallies) && key !in tallies && |tallies| < MAX_ENTRIES
    ensures forall i :: 0 <= i < |history| ==> KeyOf(history[i]) != key
  {
  }

  // ---- screens ----

  lemma OtherScreenKept(history: seq<Call>, call: Call, key: string, s: Screen)
    requires ScreenOk(history, key, s) && !From(call, key)
    ensures ScreenOk(history + [call], key, s)
  {
    var longer := history + [call];
    CountNext(history, call, OnScreen(key));
    CountNext(history, call, FailedOnScreen(key));
    forall r | 0 <= r < |s.routes|
      ensures RouteOk(longer, key, s.routes[r])
    {
      RouteKept(history, call, key, s.routes[r]);
    }
    MissingNext(history, call, key, s.routes);
  }

  lemma RouteKept(history: seq<Call>, call: Call, key: string, r: Route)
    requires RouteOk(history, key, r)
    requires !(From(call, key) && call.verb == r.verb && call.path == r.path)
    ensures RouteOk(history + [call], key, r)
  {
    CountNext(history, call, OnScreenRoute(key, r.verb, r.path));
    CountNext(history, call, FailedOnScreenRoute(key, r.verb, r.path));
  }

  /** A route is missing from a longer history if it was before, or if the new call goes to one. */
  lemma MissingNext(history: seq<Call>, call: Call, key: string, routes: seq<Route>)
    ensures RouteMissing(history + [call], key, routes) <==>
            RouteMissing(history, key, routes) || (From(call, key) && !Listed(routes, call.verb, call.path))
  {
    var longer := history + [call];
    assert longer[|history|] == call;
    if RouteMissing(history, key, routes) {
      var i :| 0 <= i < |history| && From(history[i], key) && !Listed(routes, history[i].verb, history[i].path);
      assert longer[i] == history[i];
    }
    if RouteMissing(longer, key, routes) {
      var i :| 0 <= i < |longer| && From(longer[i], key) && !Listed(routes, longer[i].verb, longer[i].path);
      assert i < |history| ==> history[i] == longer[i];
    }
  }

  /** The index of a route in the list, or its length. */
  function Find(routes: seq<Route>, verb: string, path: string): (r: nat)
    ensures r <= |routes|
    ensures r < |routes| ==> routes[r].verb == verb && routes[r].path == path
    ensures r == |routes| <==> !Listed(routes, verb, path)
  {
    if routes == [] then 0
    else
      var r := Find(routes[..|routes| - 1], verb, path);
      assert r < |routes| - 1 ==> routes[..|routes| - 1][r] == routes[r];
      assert forall q :: 0 <= q < |routes| - 1 ==> routes[..|routes| - 1][q] == routes[q];
      if r < |routes| - 1 then r
      else if routes[|routes| - 1].verb == verb && routes[|routes| - 1].path == path then |routes| - 1
      else |routes|
  }

  function FailureOf(status: int): nat {
    if Fails(status) then 1 else 0
  }

  function NewScreen(origin: Origin): Screen {
    Screen(origin.client, origin.screen, 0, 0, [], false)
  }

  /** The screen after one call from it. */
  function CountedScreen(s: Screen, call: Call): Screen {
    var r := Find(s.routes, call.verb, call.path);
    var counted := s.(calls := s.calls + 1, failed := s.failed + FailureOf(call.status));
    if r < |s.routes| then
      counted.(routes := s.routes[r := s.routes[r].(
        calls := s.routes[r].calls + 1, failed := s.routes[r].failed + FailureOf(call.status))])
    else if |s.routes| < MAX_ROUTES_PER_SCREEN then
      counted.(routes := s.routes + [Route(call.verb, call.path, 1, FailureOf(call.status))])
    else counted.(routesTruncated := true)
  }

  /** Exact, or new for a screen never seen. */
  predicate ScreenOkOrNew(history: seq<Call>, key: string, s: Screen, origin: Origin) {
    || ScreenOk(history, key, s)
    || (s == NewScreen(origin) && forall i :: 0 <= i < |history| ==> !From(history[i], key))
  }

  predicate RoutesOk(history: seq<Call>, key: string, routes: seq<Route>) {
    && |routes| <= MAX_ROUTES_PER_SCREEN
    && (forall r :: 0 <= r < |routes| ==> RouteOk(history, key, routes[r]))
    && (forall r, q :: 0 <= r < q < |routes| ==> routes[r].verb != routes[q].verb || routes[r].path != routes[q].path)
  }

  lemma CountedRoute(history: seq<Call>, call: Call, key: string, r: Route)
    requires RouteOk(history, key, r)
    requires From(call, key) && call.verb == r.verb && call.path == r.path
    ensures RouteOk(history + [call], key, r.(calls := r.calls + 1, failed := r.failed + FailureOf(call.status)))
  {
    CountNext(history, call, OnScreenRoute(key, r.verb, r.path));
    CountNext(history, call, FailedOnScreenRoute(key, r.verb, r.path));
  }

  lemma FirstOfRoute(history: seq<Call>, call: Call, key: string, routes: seq<Route>)
    requires From(call, key) && !Listed(routes, call.verb, call.path) && !RouteMissing(history, key, routes)
    ensures RouteOk(history + [call], key, Route(call.verb, call.path, 1, FailureOf(call.status)))
  {
    CountNext(history, call, OnScreenRoute(key, call.verb, call.path));
    CountNext(history, call, FailedOnScreenRoute(key, call.verb, call.path));
    CountZero(history, OnScreenRoute(key, call.verb, call.path));
    CountZero(history, FailedOnScreenRoute(key, call.verb, call.path));
  }

  lemma CountedRoutesOk(history: seq<Call>, call: Call, key: string, s: Screen)
    requires From(call, key) && RoutesOk(history, key, s.routes)
    requires |s.routes| < MAX_ROUTES_PER_SCREEN ==> !RouteMissing(history, key, s.routes)
    ensures RoutesOk(history + [call], key, CountedScreen(s, call).routes)
  {
    var longer, after := history + [call], CountedScreen(s, call).routes;
    var found := Find(s.routes, call.verb, call.path);
    forall r | 0 <= r < |after|
      ensures RouteOk(longer, key, after[r])
    {
      if r == found {
        if found < |s.routes| {
          CountedRoute(history, call, key, s.routes[found]);
        } else {
          FirstOfRoute(history, call, key, s.routes);
        }
      } else {
        assert found == |s.routes| ==> !(s.routes[r].verb == call.verb && s.routes[r].path == call.path);
        assert after[r] == s.routes[r];
        RouteKept(history, call, key, s.routes[r]);
      }
    }
  }

  lemma SameListing(routes: seq<Route>, after: seq<Route>, verb: string, path: string)
    requires |routes| == |after|
    requires forall r :: 0 <= r < |routes| ==> routes[r].verb == after[r].verb && routes[r].path == after[r].path
    ensures Listed(routes, verb, path) <==> Listed(after, verb, path)
  {
    if Listed(routes, verb, path) {
      var r :| 0 <= r < |routes| && routes[r].verb == verb && routes[r].path == path;
      assert after[r].verb == verb && after[r].path == path;
    }
  }

  lemma ListedAppend(routes: seq<Route>, r: Route, verb: string, path: string)
    ensures Listed(routes + [r], verb, path) <==> Listed(routes, verb, path) || (r.verb == verb && r.path == path)
  {
    var after := routes + [r];
    assert after[|routes|] == r;
    if Listed(routes, verb, path) {
      var q :| 0 <= q < |routes| && routes[q].verb == verb && routes[q].path == path;
      assert after[q] == routes[q];
    }
  }

  /** What is listed after the call: what was, and its route if there was room. */
  lemma CountedListing(s: Screen, call: Call, verb: string, path: string)
    ensures Listed(CountedScreen(s, call).routes, verb, path) <==>
            Listed(s.routes, verb, path) ||
            (|s.routes| < MAX_ROUTES_PER_SCREEN && verb == call.verb && path == call.path)
  {
    var found := Find(s.routes, call.verb, call.path);
    if found < |s.routes| {
      SameListing(s.routes, CountedScreen(s, call).routes, verb, path);
    } else if |s.routes| < MAX_ROUTES_PER_SCREEN {
      ListedAppend(s.routes, Route(call.verb, call.path, 1, FailureOf(call.status)), verb, path);
    }
  }

  lemma SameMissing(history: seq<Call>, key: string, routes: seq<Route>, after: seq<Route>)
    requires forall i :: 0 <= i < |history| && From(history[i], key) ==>
      (Listed(routes, history[i].verb, history[i].path) <==> Listed(after, history[i].verb, history[i].path))
    ensures RouteMissing(history, key, routes) <==> RouteMissing(history, key, after)
  {
  }

  lemma CountedMissing(history: seq<Call>, call: Call, key: string, s: Screen)
    requires From(call, key)
    requires |s.routes| < MAX_ROUTES_PER_SCREEN ==> !RouteMissing(history, key, s.routes)
    ensures var after := CountedScreen(s, call);
            RouteMissing(history + [call], key, after.routes) <==>
            RouteMissing(history, key, s.routes) || (after.routesTruncated && !s.routesTruncated) ||
            (|s.routes| >= MAX_ROUTES_PER_SCREEN && !Listed(s.routes, call.verb, call.path))
  {
    var after := CountedScreen(s, call).routes;
    MissingNext(history, call, key, after);
    CountedListing(s, call, call.verb, call.path);
    forall i | 0 <= i < |history| && From(history[i], key)
      ensures Listed(s.routes, history[i].verb, history[i].path) <==> Listed(after, history[i].verb, history[i].path)
    {
      CountedListing(s, call, history[i].verb, history[i].path);
    }
    SameMissing(history, key, s.routes, after);
  }

  lemma CountedScreenOk(history: seq<Call>, call: Call, key: string, s: Screen)
    requires call.origin.Some? && ScreenKey(call.origin.value) == key
    requires ScreenOkOrNew(history, key, s, call.origin.value)
    ensures ScreenOk(history + [call], key, CountedScreen(s, call))
  {
    CountNext(history, call, OnScreen(key));
    CountNext(history, call, FailedOnScreen(key));
    CountZero(history, OnScreen(key));
    CountZero(history, FailedOnScreen(key));
    CountedRoutesOk(history, call, key, s);
    CountedMissing(history, call, key, s);
  }

  lemma OtherScreensKept(history: seq<Call>, call: Call, screens: map<string, Screen>, truncated: bool, key: string)
    requires ScreensOk(history, screens, truncated)
    requires call.origin.Some? ==> ScreenKey(call.origin.value) == key
    ensures forall k :: k in screens && (k != key || call.origin.None?) ==> ScreenOk(history + [call], k, screens[k])
  {
    forall k | k in screens && (k != key || call.origin.None?)
      ensures ScreenOk(history + [call], k, screens[k])
    {
      OtherScreenKept(history, call, k, screens[k]);
    }
  }

  lemma ScreenMissingNext(history: seq<Call>, call: Call, screens: map<string, Screen>)
    ensures ScreenMissing(history + [call], screens) <==>
            ScreenMissing(history, screens) || (call.origin.Some? && ScreenKey(call.origin.value) !in screens)
  {
    var longer := history + [call];
    assert longer[|history|] == call;
    if ScreenMissing(history, screens) {
      var i :| 0 <= i < |history| && history[i].origin.Some? && ScreenKey(history[i].origin.value) !in screens;
      assert longer[i] == history[i];
    }
    if ScreenMissing(longer, screens) {
      var i :| 0 <= i < |longer| && longer[i].origin.Some? && ScreenKey(longer[i].origin.value) !in screens;
      assert i < |history| ==> history[i] == longer[i];
    }
  }

  /** A call with no screen, or from a screen for which there is no room. */
  lemma ScreensKept(history: seq<Call>, call: Call, screens: map<string, Screen>, truncated: bool)
    requires ScreensOk(history, screens, truncated)
    requires call.origin.Some? ==> ScreenKey(call.origin.value) !in screens && |screens| >= MAX_SCREENS
    ensures ScreensOk(history + [call], screens, truncated || call.origin.Some?)
  {
    OtherScreensKept(history, call, screens, truncated, if call.origin.Some? then ScreenKey(call.origin.value) else "");
    ScreenMissingNext(history, call, screens);
  }

  lemma ScreenMissingStored(history: seq<Call>, screens: map<string, Screen>, after: map<string, Screen>, key: string)
    requires after.Keys == screens.Keys + {key}
    requires key in screens || !ScreenMissing(history, screens)
    ensures ScreenMissing(history, after) <==> ScreenMissing(history, screens)
  {
    if key in screens {
      assert after.Keys == screens.Keys;
      assert forall k :: k in after <==> k in screens;
    }
  }

  lemma StoredScreenOk(history: seq<Call>, call: Call, screens: map<string, Screen>, truncated: bool, s: Screen,
                       k: string)
    requires ScreensOk(history, screens, truncated) && call.origin.Some?
    requires ScreenOk(history + [call], ScreenKey(call.origin.value), s)
    requires k in screens[ScreenKey(call.origin.value) := s]
    ensures ScreenOk(history + [call], k, screens[ScreenKey(call.origin.value) := s][k])
  {
    if k != ScreenKey(call.origin.value) {
      OtherScreenKept(history, call, k, screens[k]);
    }
  }

  lemma ScreenStored(history: seq<Call>, call: Call, screens: map<string, Screen>, truncated: bool, s: Screen)
    requires ScreensOk(history, screens, truncated) && call.origin.Some?
    requires ScreenOk(history + [call], ScreenKey(call.origin.value), s)
    requires ScreenKey(call.origin.value) in screens || |screens| < MAX_SCREENS
    ensures ScreensOk(history + [call], screens[ScreenKey(call.origin.value) := s], truncated)
  {
    var key := ScreenKey(call.origin.value);
    var after := screens[key := s];
    StoredSize(screens, key, s);
    forall k | k in after
      ensures ScreenOk(history + [call], k, after[k])
    {
      StoredScreenOk(history, call, screens, truncated, s, k);
    }
    ScreenMissingStored(history, screens, after, key);
    ScreenMissingNext(history, call, after);
  }

  /** What a screen holds before a call from it is counted. */
  function ScreenBefore(screens: map<string, Screen>, origin: Origin): Screen {
    if ScreenKey(origin) in screens then screens[ScreenKey(origin)] else NewScreen(origin)
  }

  lemma ScreenBeforeOk(history: seq<Call>, screens: map<string, Screen>, truncated: bool, origin: Origin)
    requires ScreensOk(history, screens, truncated)
    requires ScreenKey(origin) in screens || |screens| < MAX_SCREENS
    ensures ScreenOkOrNew(history, ScreenKey(origin), ScreenBefore(screens, origin), origin)
  {
  }

  lemma ScreenCounted(history: seq<Call>, call: Call, screens: map<string, Screen>, truncated: bool, origin: Origin)
    requires ScreensOk(history, screens, truncated) && call.origin == Some(origin)
    requires ScreenKey(origin) in screens || |screens| < MAX_SCREENS
    ensures ScreensOk(history + [call],
      screens[ScreenKey(origin) := CountedScreen(ScreenBefore(screens, origin), call)], truncated)
  {
    ScreenBeforeOk(history, screens, truncated, origin);
    CountedScreenOk(history, call, ScreenKey(origin), ScreenBefore(screens, origin));
    ScreenStored(history, call, screens, truncated, CountedScreen(ScreenBefore(screens, origin), call));
  }

  function TallyBefore(tallies: map<string, Tally>, call: Call): Tally {
    if KeyOf(call) in tallies then tallies[KeyOf(call)] else NewTally(call)
  }

  lemma TallyCounted(history: seq<Call>, call: Call, tallies: map<string, Tally>)
    requires TalliesOk(history, tallies)
    requires KeyOf(call) in tallies || |tallies| < MAX_ENTRIES
    ensures TalliesOk(history + [call], tallies[KeyOf(call) := CountedTally(TallyBefore(tallies, call), call.status)])
  {
    if KeyOf(call) !in tallies {
      NeverSeen(history, tallies, KeyOf(call));
    }
    CountedTallyOk(history, call, TallyBefore(tallies, call));
    TallyStored(history, call, tallies, CountedTally(TallyBefore(tallies, call), call.status));
  }

  // ---- the counters after a history ----

  /** A call counted, unless its route is new and there is no room. */
  function NextTallies(tallies: map<string, Tally>, call: Call): map<string, Tally> {
    if KeyOf(call) !in tallies && |tallies| >= MAX_ENTRIES then tallies
    else tallies[KeyOf(call) := CountedTally(TallyBefore(tallies, call), call.status)]
  }

  function TalliesAfter(history: seq<Call>): map<string, Tally> {
    if history == [] then map[]
    else NextTallies(TalliesAfter(history[..|history| - 1]), history[|history| - 1])
  }

  /** The screens that are kept, and whether some are not. */
  datatype Screens = Screens(kept: map<string, Screen>, truncated: bool)

  function NextScreens(screens: Screens, call: Call): Screens {
    if call.origin.None? then screens
    else
      var key := ScreenKey(call.origin.value);
      if key !in screens.kept && |screens.kept| >= MAX_SCREENS then screens.(truncated := true)
      else screens.(kept := screens.kept[key := CountedScreen(ScreenBefore(screens.kept, call.origin.value), call)])
  }

  function ScreensAfter(history: seq<Call>): Screens {
    if history == [] then Screens(map[], false)
    else NextScreens(ScreensAfter(history[..|history| - 1]), history[|history| - 1])
  }

  /**
   * Retained routes, screens and screen routes count the whole history; there are never more than the
   * caps; what is missing is missing for lack of room; and each flag is set exactly when something is.
   */
  lemma {:induction false} CountersAreExact(history: seq<Call>)
    ensures TalliesOk(history, TalliesAfter(history))
    ensures ScreensOk(history, ScreensAfter(history).kept, ScreensAfter(history).truncated)
    decreases |history|
  {
    if history == [] {
    } else {
      var init, call := history[..|history| - 1], history[|history| - 1];
      assert history == init + [call];
      CountersAreExact(init);
      NextTalliesOk(init, call, TalliesAfter(init));
      NextScreensOk(init, call, ScreensAfter(init));
    }
  }

  lemma NextTalliesOk(history: seq<Call>, call: Call, tallies: map<string, Tally>)
    requires TalliesOk(history, tallies)
    ensures TalliesOk(history + [call], NextTallies(tallies, call))
  {
    if KeyOf(call) !in tallies && |tallies| >= MAX_ENTRIES {
      FullTalliesKept(history, call, tallies);
    } else {
      TallyCounted(history, call, tallies);
    }
  }

  lemma NextScreensOk(history: seq<Call>, call: Call, screens: Screens)
    requires ScreensOk(history, screens.kept, screens.truncated)
    ensures ScreensOk(history + [call], NextScreens(screens, call).kept, NextScreens(screens, call).truncated)
  {
    if call.origin.None? {
      ScreensKept(history, call, screens.kept, screens.truncated);
    } else if ScreenKey(call.origin.value) !in screens.kept && |screens.kept| >= MAX_SCREENS {
      ScreensKept(history, call, screens.kept, screens.truncated);
    } else {
      ScreenCounted(history, call, screens.kept, screens.truncated, call.origin.value);
    }
  }

  /**
   * The registry holds at most 2000 routes and 2000 screens, and a screen at most 40 routes; nothing is left
   * out, and no flag says so, before that many are there.
   */
  lemma Caps(history: seq<Call>, key: string)
    ensures |TalliesAfter(history)| <= 2000 && |ScreensAfter(history).kept| <= 2000
    ensures key in ScreensAfter(history).kept ==> |ScreensAfter(history).kept[key].routes| <= 40
    ensures key !in TalliesAfter(history) && |TalliesAfter(history)| < 2000 ==>
      forall i :: 0 <= i < |history| ==> KeyOf(history[i]) != key
    ensures ScreensAfter(history).truncated ==> |ScreensAfter(history).kept| == 2000
    ensures key in ScreensAfter(history).kept && ScreensAfter(history).kept[key].routesTruncated ==>
      |ScreensAfter(history).kept[key].routes| == 40
  {
    CountersAreExact(history);
  }

  /** Routes of verbs without spaces never share a counter. */
  lemma RouteKeysDiffer(verb: string, path: string, other: string, otherPath: string)
    requires ' ' !in verb && ' ' !in other
    requires RouteKey(verb, path) == RouteKey(other, otherPath)
    ensures verb == other && path == otherPath
  {
    SplitAt(verb, path, other, otherPath, ' ');
  }

  /** Nor do screens of clients without spaces. */
  lemma ScreenKeysDiffer(origin: Origin, other: Origin)
    requires ' ' !in origin.client && ' ' !in other.client && ScreenKey(origin) == ScreenKey(other)
    ensures origin == other
  {
    SplitAt(origin.client, origin.screen, other.client, other.screen, ' ');
  }

  // ---- the registry ----

  class HttpAccessRegistry {
    var tallies: map<string, Tally>
    var screens: map<string, Screen>
    var screensTruncated: bool
    ghost var history: seq<Call>

    ghost predicate Valid()
      reads this
    {
      tallies == TalliesAfter(history) && Screens(screens, screensTruncated) == ScreensAfter(history)
    }

    constructor ()
      ensures Valid() && history == []
    {
      tallies := map[];
      screens := map[];
      screensTruncated := false;
      history := [];
    }

    method Record(call: Call)
      requires Valid()
      modifies this
      ensures Valid() && history == old(history) + [call]
    {
      if call.origin.Some? {
        RecordScreen(call, call.origin.value);
      }
      RecordTally(call);
      history := history + [call];
      assert history[..|history| - 1] == old(history);
    }

    method RecordTally(call: Call)
      modifies this`tallies
      ensures tallies == NextTallies(old(tallies), call)
    {
      var key := KeyOf(call);
      if key !in tallies && |tallies| >= MAX_ENTRIES {
        return;
      }
      var tally := if key in tallies then tallies[key] else Tally(call.verb, call.path, 0, 0, call.status, map[]);
      if Fails(call.status) {
        tally := tally.(failed := tally.failed + 1);
      } else {
        tally := tally.(ok := tally.ok + 1);
      }
      var seen := if call.status in tally.statuses then tally.statuses[call.status] else 0;
      tally := tally.(statuses := tally.statuses[call.status := seen + 1], lastStatus := call.status);
      tallies := tallies[key := tally];
    }

    method RecordScreen(call: Call, origin: Origin)
      requires call.origin == Some(origin)
      modifies this`screens, this`screensTruncated
      ensures Screens(screens, screensTruncated) == NextScreens(Screens(old(screens), old(screensTruncated)), call)
    {
      var key := ScreenKey(origin);
      if key !in screens && |screens| >= MAX_SCREENS {
        screensTruncated := true;
        return;
      }
      var s := if key in screens then screens[key] else Screen(origin.client, origin.screen, 0, 0, [], false);
      var failure := if Fails(call.status) then 1 else 0;
      s := s.(calls := s.calls + 1, failed := s.failed + failure);
      var found := Find(s.routes, call.verb, call.path);
      if found < |s.routes| {
        var r := s.routes[found];
        s := s.(routes := s.routes[found := r.(calls := r.calls + 1, failed := r.failed + failure)]);
      } else if |s.routes| < MAX_ROUTES_PER_SCREEN {
        s := s.(routes := s.routes + [Route(call.verb, call.path, 1, failure)]);
      } else {
        s := s.(routesTruncated := true);
      }
      screens := screens[key := s];
    }
  }
}
