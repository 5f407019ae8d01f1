/** The release check's view of the workspace: a depth-first search for a dependency cycle among
    the publishable crates, and the greedy publish order. */
module CrateGraph {
  import opened Wrappers

  /** A crate's name. */
  datatype Name = Name(text: string)

  /** Members in manifest order, which of them are published, and each member's internal
      dependencies by owning crate, as written. */
  datatype Workspace = Workspace(members: seq<Name>, published: set<Name>, deps: map<Name, seq<Name>>)

  ghost predicate Distinct(s: seq<Name>) {
    forall i, j :: 0 <= i < j < |s| ==> s[i] != s[j]
  }

  ghost predicate WellFormed(w: Workspace) {
    && Distinct(w.members)
    && w.deps.Keys == (set n | n in w.members)
    && (forall n :: n in w.published ==> n in w.members)
    && (forall n, i :: n in w.deps && 0 <= i < |w.deps[n]| ==> w.deps[n][i] in w.members)
  }

  /** A publishable crate that needs another. */
  ghost predicate Edge(w: Workspace, a: Name, b: Name) {
    a in w.published && b in w.published && a in w.deps && b in w.deps[a]
  }

  ghost predicate IsPath(w: Workspace, p: seq<Name>) {
    p != [] && (forall n :: n in p ==> n in w.published) && forall i :: 0 <= i < |p| - 1 ==> Edge(w, p[i], p[i + 1])
  }

  ghost predicate IsCycle(w: Workspace, p: seq<Name>) {
    IsPath(w, p) && |p| >= 2 && p[0] == p[|p| - 1]
  }

  ghost predicate Acyclic(w: Workspace) {
    forall p :: !IsCycle(w, p)
  }

  /** A path whose last crate occurred before. */
  ghost predicate IsLasso(w: Workspace, p: seq<Name>) {
    IsPath(w, p) && p[|p| - 1] in p[..|p| - 1]
  }

  ghost predicate ReachesCycle(w: Workspace, n: Name) {
    exists p :: IsLasso(w, p) && p[0] == n
  }

  /** Every publishable dependency of a listed crate is listed before it. */
  ghost predicate DependenciesFirst(w: Workspace, order: seq<Name>) {
    && Distinct(order)
    && (forall n :: n in order ==> n in w.published)
    && (forall i, d :: 0 <= i < |order| && Edge(w, order[i], d) ==> d in order[..i])
  }

  ghost predicate Covers(w: Workspace, order: seq<Name>) {
    forall n :: n in w.published ==> n in order
  }

  // ---------- paths against an order ----------

  /** Along a path the position in a dependencies-first order falls. */
  lemma {:induction false} PositionFalls(w: Workspace, order: seq<Name>, p: seq<Name>, i: nat, k: nat)
    requires DependenciesFirst(w, order) && IsPath(w, p) && i < |order| && p[0] == order[i] && k < |p|
    ensures k > 0 ==> p[k] in order[..i]
    ensures k == 0 ==> p[k] == order[i]
  {
    if k == 0 {
    } else {
      PositionFalls(w, order, p, i, k - 1);
      assert Edge(w, p[k - 1], p[k - 1 + 1]);
      var j :| 0 <= j <= i && order[j] == p[k - 1] && (k > 1 ==> j < i);
      assert Edge(w, order[j], p[k]);
      assert order[..j] <= order[..i];
    }
  }

  lemma OrderedReachesNoCycle(w: Workspace, order: seq<Name>, n: Name)
    requires DependenciesFirst(w, order) && n in order
    ensures !ReachesCycle(w, n)
  {
    if ReachesCycle(w, n) {
      var p :| IsLasso(w, p) && p[0] == n;
      var last := |p| - 1;
      var a :| 0 <= a < last && p[a] == p[last];
      var i :| 0 <= i < |order| && order[i] == n;
      PositionFalls(w, order, p, i, a);
      var j :| 0 <= j < |order| && order[j] == p[a];
      TailIsPath(w, p, a);
      assert p[a..][last - a] == order[j];
      PositionFalls(w, order, p[a..], j, last - a);
      assert false;
    }
  }

  lemma TailIsPath(w: Workspace, p: seq<Name>, a: nat)
    requires IsPath(w, p) && a < |p|
    ensures IsPath(w, p[a..])
  {
    forall i | 0 <= i < |p[a..]| - 1 ensures Edge(w, p[a..][i], p[a..][i + 1]) {
      assert Edge(w, p[a + i], p[a + i + 1]);
    }
  }

  lemma PathExtends(w: Workspace, p: seq<Name>, d: Name)
    requires p != [] ==> IsPath(w, p) && Edge(w, p[|p| - 1], d)
    requires d in w.published
    ensures IsPath(w, p + [d])
  {
    var longer := p + [d];
    forall i | 0 <= i < |longer| - 1 ensures Edge(w, longer[i], longer[i + 1]) {
      if i < |p| - 1 { assert Edge(w, p[i], p[i + 1]); }
    }
  }

  /** Cycles and crates that reach one come together. */
  lemma AcyclicMeansNoneReaches(w: Workspace)
    ensures Acyclic(w) <==> forall n :: n in w.published ==> !ReachesCycle(w, n)
  {
    if exists p :: IsCycle(w, p) {
      var p :| IsCycle(w, p);
      assert p[..|p| - 1][0] == p[0];
      assert IsLasso(w, p) && p[0] in p;
      assert ReachesCycle(w, p[0]);
    }
    if n :| n in w.published && ReachesCycle(w, n) {
      var p :| IsLasso(w, p) && p[0] == n;
      var a :| 0 <= a < |p| - 1 && p[a] == p[|p| - 1];
      TailIsPath(w, p, a);
      assert IsCycle(w, p[a..]);
    }
  }

  lemma CoveredMeansAcyclic(w: Workspace, order: seq<Name>)
    requires DependenciesFirst(w, order) && Covers(w, order)
    ensures Acyclic(w)
  {
    forall n | n in w.published ensures !ReachesCycle(w, n) { OrderedReachesNoCycle(w, order, n); }
    AcyclicMeansNoneReaches(w);
  }

  // ---------- the depth-first search ----------

  ghost function Elements(s: seq<Name>): set<Name> { set n | n in s }

  function IndexOf(s: seq<Name>, n: Name): (i: nat)
    requires n in s
    ensures i < |s| && s[i] == n && n !in s[..i]
  {
    if s[0] == n then 0 else 1 + IndexOf(s[1..], n)
  }

  class Search {
    /** The crates on the current path, and those known to lead to no cycle. */
    var walking: seq<Name>
    var settled: set<Name>
    /** The settled crates in the order they settled. */
    ghost var order: seq<Name>

    constructor ()
      ensures walking == [] && settled == {} && order == []
    {
      walking, settled, order := [], {}, [];
    }

    ghost predicate Valid(w: Workspace)
      reads this
    {
      SearchState(w, walking, settled, order)
    }

    /** Looks for a cycle from `name`, the next crate after the current path. A path returned is
        a closed one; otherwise the path is as before and `name` has settled. */
    method Visit(w: Workspace, name: Name) returns (found: Option<seq<Name>>)
      requires WellFormed(w) && Valid(w) && name in w.published
      requires walking != [] ==> Edge(w, walking[|walking| - 1], name)
      modifies this
      ensures found.Some? ==> IsCycle(w, found.value)
      ensures found.None? ==> Valid(w) && walking == old(walking) && old(order) <= order && name in settled
      decreases w.published - Elements(walking)
    {
      hide SearchState, IsPath, IsCycle, Edge, WellFormed;
      EdgesOf(w, name);
      SearchFacts(w, walking, settled, order);
      if name in walking {
        var k := IndexOf(walking, name);
        ClosesCycle(w, walking, name, k);
        return Some(walking[k..] + [name]);
      }
      if name in settled {
        return None;
      }
      ghost var path := walking;
      walking := walking + [name];
      Steps(w, path, name, order);
      var needs := w.deps[name];
      for i := 0 to |needs|
        invariant Valid(w) && walking == path + [name] && old(order) <= order && settled == Elements(order)
        invariant forall j :: 0 <= j < i && needs[j] in w.published ==> needs[j] in settled
      {
        if needs[i] in w.published {
          ghost var before := order;
          found := Visit(w, needs[i]);
          if found.Some? {
            return;
          }
          SearchFacts(w, walking, settled, order);
          ElementsGrow(before, order);
        }
      }
      Settled(w, path, name, order);
      walking := walking[..|walking| - 1];
      settled := settled + {name};
      order := order + [name];
      return None;
    }
  }

  ghost predicate SearchState(w: Workspace, walking: seq<Name>, settled: set<Name>, order: seq<Name>) {
    && Distinct(walking)
    && (walking != [] ==> IsPath(w, walking))
    && DependenciesFirst(w, order)
    && settled == Elements(order)
    && (forall n :: n in walking ==> n !in settled)
  }

  lemma ElementsGrow(a: seq<Name>, b: seq<Name>)
    requires a <= b
    ensures Elements(a) <= Elements(b)
  {}

  lemma SearchFacts(w: Workspace, walking: seq<Name>, settled: set<Name>, order: seq<Name>)
    requires SearchState(w, walking, settled, order)
    ensures settled == Elements(order) && (walking != [] ==> IsPath(w, walking))
  {}

  /** Stepping to the next crate extends the path. */
  lemma Steps(w: Workspace, path: seq<Name>, name: Name, order: seq<Name>)
    requires SearchState(w, path, Elements(order), order) && name in w.published && name !in path
    requires name !in Elements(order)
    requires path != [] ==> Edge(w, path[|path| - 1], name)
    ensures SearchState(w, path + [name], Elements(order), order)
    ensures w.published - Elements(path + [name]) < w.published - Elements(path)
  {
    PathExtends(w, path, name);
    assert Elements(path + [name]) == Elements(path) + {name};
    assert name in w.published - Elements(path);
  }

  /** With all it needs settled, the crate settles and the path is as before. */
  lemma Settled(w: Workspace, path: seq<Name>, name: Name, order: seq<Name>)
    requires SearchState(w, path + [name], Elements(order), order) && name in w.published
    requires forall d :: Edge(w, name, d) ==> d in Elements(order)
    ensures (path + [name])[..|path|] == path
    ensures SearchState(w, path, Elements(order) + {name}, order + [name])
  {
    assert (path + [name])[|path|] == name && name in path + [name];
    forall n | n in path ensures n != name { var i :| 0 <= i < |path| && path[i] == n; assert (path + [name])[i] == n; }
    Settles(w, order, name);
    if path != [] { FrontIsPath(w, path, name); }
    forall i, j | 0 <= i < j < |path| ensures path[i] != path[j] { assert (path + [name])[i] != (path + [name])[j]; }
    forall n | n in path ensures n !in Elements(order) { assert n in path + [name]; }
  }

  lemma FrontIsPath(w: Workspace, path: seq<Name>, name: Name)
    requires path != [] && IsPath(w, path + [name])
    ensures IsPath(w, path)
  {
    var longer := path + [name];
    forall n | n in path ensures n in w.published { assert n in longer; }
    forall i | 0 <= i < |path| - 1 ensures Edge(w, path[i], path[i + 1]) { assert Edge(w, longer[i], longer[i + 1]); }
  }

  lemma EdgesOf(w: Workspace, n: Name)
    requires WellFormed(w) && n in w.published
    ensures n in w.deps && forall d :: Edge(w, n, d) <==> d in w.published && d in w.deps[n]
  {}

  lemma ClosesCycle(w: Workspace, walking: seq<Name>, name: Name, k: nat)
    requires k < |walking| && IsPath(w, walking) && walking[k] == name && Edge(w, walking[|walking| - 1], name)
    ensures IsCycle(w, walking[k..] + [name])
  {
    TailIsPath(w, walking, k);
    var p := walking[k..] + [name];
    forall i | 0 <= i < |p| - 1 ensures Edge(w, p[i], p[i + 1]) {
      if i < |walking| - k - 1 { assert Edge(w, walking[k..][i], walking[k..][i + 1]); }
    }
  }

  lemma Settles(w: Workspace, order: seq<Name>, name: Name)
    requires DependenciesFirst(w, order) && name in w.published && name !in order
    requires forall d :: Edge(w, name, d) ==> d in order
    ensures DependenciesFirst(w, order + [name])
    ensures Elements(order + [name]) == Elements(order) + {name}
  {
    var longer := order + [name];
    forall i, d | 0 <= i < |longer| && Edge(w, longer[i], d) ensures d in longer[..i] {
      if i < |order| { assert longer[..i] == order[..i]; } else { assert longer[..i] == order; }
    }
  }

  /** A closed path of real dependencies whenever a cycle exists, and nothing exactly when the
      publishable crates have none. */
  method DependencyCycle(w: Workspace) returns (found: Option<seq<Name>>)
    requires WellFormed(w)
    ensures found.None? <==> Acyclic(w)
    ensures found.Some? ==> IsCycle(w, found.value)
  {
    var search := new Search();
    for i := 0 to |w.members|
      invariant search.Valid(w) && search.walking == []
      invariant forall j :: 0 <= j < i && w.members[j] in w.published ==> w.members[j] in search.settled
    {
      if w.members[i] in w.published {
        found := search.Visit(w, w.members[i]);
        if found.Some? {
          return;
        }
      }
    }
    CoveredMeansAcyclic(w, search.order);
    return None;
  }

  // ---------- the publish order ----------

  ghost function Position(w: Workspace, n: Name): nat
    requires n in w.members
  {
    IndexOf(w.members, n)
  }

  /** Not yet published, and nothing it needs is missing. */
  ghost predicate Ready(w: Workspace, done: seq<Name>, n: Name) {
    n in w.published && n !in done && forall d :: Edge(w, n, d) ==> d in done
  }

  /** Each listed crate is the first in member order among those ready when it was listed. */
  ghost predicate Greedy(w: Workspace, order: seq<Name>)
    requires WellFormed(w)
  {
    forall k :: 0 <= k < |order| ==> FirstReady(w, order[..k], order[k])
  }

  ghost predicate FirstReady(w: Workspace, done: seq<Name>, n: Name)
    requires WellFormed(w)
  {
    Ready(w, done, n) && forall m :: Ready(w, done, m) ==> Position(w, n) <= Position(w, m)
  }

  /** `a` comes no later than `b` in the lexicographic order by member position. */
  ghost predicate LexAtMost(w: Workspace, a: seq<Name>, b: seq<Name>)
    requires WellFormed(w) && |a| <= |b|
    requires (forall n :: n in a ==> n in w.members) && (forall n :: n in b ==> n in w.members)
  {
    forall k :: 0 <= k < |a| && a[..k] == b[..k] ==> Position(w, a[k]) <= Position(w, b[k])
  }

  /** No dependencies-first order of as many crates comes before `order`. */
  ghost predicate Least(w: Workspace, order: seq<Name>)
    requires WellFormed(w)
  {
    (forall n :: n in order ==> n in w.members) &&
    forall other :: DependenciesFirst(w, other) && |other| == |order| ==>
      (forall n :: n in other ==> n in w.members) && LexAtMost(w, order, other)
  }

  /** A list of members in manifest order. */
  ghost predicate MemberOrdered(w: Workspace, s: seq<Name>)
    requires WellFormed(w)
  {
    (forall n :: n in s ==> n in w.members) && forall i, j :: 0 <= i < j < |s| ==> Position(w, s[i]) < Position(w, s[j])
  }

  lemma {:induction false} GreedyIsDependenciesFirst(w: Workspace, order: seq<Name>)
    requires WellFormed(w) && Greedy(w, order)
    ensures DependenciesFirst(w, order)
  {
    if order == [] {
    } else {
      var n := |order| - 1;
      forall k | 0 <= k < n ensures FirstReady(w, order[..n][..k], order[..n][k]) {
        assert order[..n][..k] == order[..k];
        assert FirstReady(w, order[..k], order[k]);
      }
      GreedyIsDependenciesFirst(w, order[..n]);
      assert FirstReady(w, order[..n], order[n]);
      Settles(w, order[..n], order[n]);
      assert order == order[..n] + [order[n]];
    }
  }

  /** A greedy order is the least of all dependencies-first orders. */
  lemma GreedyIsLeast(w: Workspace, order: seq<Name>, other: seq<Name>)
    requires WellFormed(w) && Greedy(w, order)
    requires DependenciesFirst(w, other) && |order| <= |other|
    ensures (forall n :: n in order ==> n in w.members) && (forall n :: n in other ==> n in w.members)
    ensures LexAtMost(w, order, other)
  {
    GreedyIsDependenciesFirst(w, order);
    forall k | 0 <= k < |order| && order[..k] == other[..k]
      ensures order[k] in w.members && other[k] in w.members && Position(w, order[k]) <= Position(w, other[k])
    {
      assert FirstReady(w, order[..k], order[k]);
      assert Ready(w, order[..k], other[k]) by {
        if other[k] in other[..k] { assert false; }
      }
    }
  }

  ghost predicate NeedsOneOf(w: Workspace, left: set<Name>, n: Name) {
    exists d :: d in left && Edge(w, n, d)
  }

  /** If everything left needs something left, each crate left can reach a cycle. */
  lemma {:induction false} StuckReachesCycle(w: Workspace, left: set<Name>, p: seq<Name>)
    requires forall n :: n in left ==> n in w.published && NeedsOneOf(w, left, n)
    requires p != [] && IsPath(w, p) && p[|p| - 1] in left
    ensures ReachesCycle(w, p[0])
    decreases left - Elements(p)
  {
    hide IsPath, Edge;
    var d :| d in left && Edge(w, p[|p| - 1], d);
    var longer := p + [d];
    assert longer[..|longer| - 1] == p && longer[0] == p[0];
    PathExtends(w, p, d);
    if d in p {
      assert IsLasso(w, longer);
    } else {
      hide ReachesCycle, NeedsOneOf;
      Shrinks(left, p, d);
      StuckReachesCycle(w, left, longer);
    }
  }

  lemma Shrinks(left: set<Name>, p: seq<Name>, d: Name)
    requires d in left && d !in p
    ensures left - Elements(p + [d]) < left - Elements(p)
  {
    assert Elements(p + [d]) == Elements(p) + {d};
    assert d in left - Elements(p);
  }

  function Published(w: Workspace, members: seq<Name>): (s: seq<Name>) {
    if members == [] then []
    else
      Published(w, members[..|members| - 1])
      + if members[|members| - 1] in w.published then [members[|members| - 1]] else []
  }

  lemma PositionsBelow(w: Workspace, k: nat)
    requires WellFormed(w) && k < |w.members|
    ensures Position(w, w.members[k]) == k
    ensures forall n :: n in w.members[..k] ==> n in w.members && Position(w, n) < k
  {
  }

  lemma PublishedStep(w: Workspace, k: nat)
    requires 0 < k <= |w.members|
    ensures Published(w, w.members[..k])
      == Published(w, w.members[..k - 1]) + if w.members[k - 1] in w.published then [w.members[k - 1]] else []
  {
    assert w.members[..k][..k - 1] == w.members[..k - 1];
  }

  lemma OrderedSnoc(w: Workspace, s: seq<Name>, n: Name, k: nat)
    requires WellFormed(w) && MemberOrdered(w, s) && n in w.members && Position(w, n) == k
    requires forall m :: m in s ==> m in w.members && Position(w, m) < k
    ensures MemberOrdered(w, s + [n])
  {
    hide Position, WellFormed;
    var longer := s + [n];
    forall i, j | 0 <= i < j < |longer| ensures Position(w, longer[i]) < Position(w, longer[j]) {
      if j == |s| { assert longer[i] == s[i] && s[i] in s; }
    }
  }

  lemma {:induction false} PublishedKeeps(w: Workspace, k: nat)
    requires WellFormed(w) && k <= |w.members|
    ensures var s := Published(w, w.members[..k]);
      && (forall n :: n in s <==> n in w.published && n in w.members[..k])
      && MemberOrdered(w, s)
  {
    if k == 0 {
    } else {
      var front := w.members[..k - 1];
      assert w.members[..k][..k - 1] == front && w.members[..k][k - 1] == w.members[k - 1];
      PublishedKeeps(w, k - 1);
      PositionsBelow(w, k - 1);
      var s := Published(w, front);
      hide Position, WellFormed, Published;
      assert w.members[..k] == front + [w.members[k - 1]];
      hide MemberOrdered;
      PublishedStep(w, k);
      if w.members[k - 1] in w.published { OrderedSnoc(w, s, w.members[k - 1], k - 1); } else { assert s + [] == s; }
    }
  }

  /** Whether nothing `name` needs is still among `remaining`. */
  predicate NeedsNothing(w: Workspace, remaining: seq<Name>, name: Name)
    requires name in w.deps
  {
    forall i :: 0 <= i < |w.deps[name]| ==> w.deps[name][i] !in remaining
  }

  ghost predicate Partition(w: Workspace, ordered: seq<Name>, remaining: seq<Name>)
    requires WellFormed(w)
  {
    && MemberOrdered(w, remaining)
    && Greedy(w, ordered)
    && (forall n :: n in w.published <==> n in ordered || n in remaining)
    && (forall n :: n in ordered ==> n !in remaining)
  }

  lemma NeedsNothingIsReady(w: Workspace, ordered: seq<Name>, remaining: seq<Name>, n: Name)
    requires WellFormed(w) && Partition(w, ordered, remaining) && n in remaining
    ensures n in w.deps && (NeedsNothing(w, remaining, n) <==> Ready(w, ordered, n))
  {
    if !NeedsNothing(w, remaining, n) {
      var i :| 0 <= i < |w.deps[n]| && w.deps[n][i] in remaining;
      assert Edge(w, n, w.deps[n][i]);
    }
  }

  lemma Removed(remaining: seq<Name>, at: nat)
    requires at < |remaining| && Distinct(remaining)
    ensures var rest := remaining[..at] + remaining[at + 1..];
      forall n :: n in rest <==> n in remaining && n != remaining[at]
  {
    var rest := remaining[..at] + remaining[at + 1..];
    forall n ensures n in rest <==> n in remaining && n != remaining[at] {
      if n in remaining && n != remaining[at] {
        var i :| 0 <= i < |remaining| && remaining[i] == n;
        assert rest[if i < at then i else i - 1] == n;
      }
    }
  }

  lemma RemovedStaysOrdered(w: Workspace, remaining: seq<Name>, at: nat)
    requires WellFormed(w) && MemberOrdered(w, remaining) && at < |remaining|
    ensures MemberOrdered(w, remaining[..at] + remaining[at + 1..])
  {
    hide Position, WellFormed;
    var rest := remaining[..at] + remaining[at + 1..];
    forall i, j | 0 <= i < j < |rest| ensures Position(w, rest[i]) < Position(w, rest[j]) {
      var i', j' := if i < at then i else i + 1, if j < at then j else j + 1;
      assert rest[i] == remaining[i'] && rest[j] == remaining[j'];
    }
  }

  lemma GreedyExtends(w: Workspace, ordered: seq<Name>, n: Name)
    requires WellFormed(w) && Greedy(w, ordered) && FirstReady(w, ordered, n)
    ensures Greedy(w, ordered + [n])
  {
    hide FirstReady, WellFormed;
    var longer := ordered + [n];
    forall k | 0 <= k < |longer| ensures FirstReady(w, longer[..k], longer[k]) {
      if k < |ordered| {
        assert longer[..k] == ordered[..k];
        assert FirstReady(w, ordered[..k], ordered[k]);
      } else {
        assert longer[..k] == ordered;
      }
    }
  }

  lemma FirstWithoutNeeds(w: Workspace, ordered: seq<Name>, remaining: seq<Name>, at: nat)
    requires WellFormed(w) && Partition(w, ordered, remaining) && at < |remaining| && InDeps(w, remaining)
    requires NeedsNothing(w, remaining, remaining[at])
    requires forall j :: 0 <= j < at ==> !NeedsNothing(w, remaining, remaining[j])
    ensures FirstReady(w, ordered, remaining[at])
  {
    hide NeedsNothing, Greedy, Position, WellFormed;
    NeedsNothingIsReady(w, ordered, remaining, remaining[at]);
    forall m | Ready(w, ordered, m) ensures m in w.members && Position(w, remaining[at]) <= Position(w, m) {
      var j :| 0 <= j < |remaining| && remaining[j] == m;
      NeedsNothingIsReady(w, ordered, remaining, m);
      assert j >= at;
    }
  }

  ghost predicate InDeps(w: Workspace, s: seq<Name>) {
    forall n :: n in s ==> n in w.deps
  }

  lemma Advance(w: Workspace, ordered: seq<Name>, remaining: seq<Name>, at: nat)
    requires WellFormed(w) && Partition(w, ordered, remaining) && at < |remaining| && InDeps(w, remaining)
    requires NeedsNothing(w, remaining, remaining[at])
    requires forall j :: 0 <= j < at ==> !NeedsNothing(w, remaining, remaining[j])
    ensures Partition(w, ordered + [remaining[at]], remaining[..at] + remaining[at + 1..])
    ensures InDeps(w, remaining[..at] + remaining[at + 1..])
  {
    FirstWithoutNeeds(w, ordered, remaining, at);
    GreedyExtends(w, ordered, remaining[at]);
    RemovedStaysOrdered(w, remaining, at);
    assert Distinct(remaining);
    hide NeedsNothing, Greedy, MemberOrdered, FirstReady, WellFormed;
    Removed(remaining, at);
  }

  /** The publishable crates, each once. Up to `ready` they are in the least dependencies-first
      order; the trailing part, empty exactly when there is no cycle, holds exactly the crates
      that can reach a cycle, in member order. */
  method PublishOrder(w: Workspace) returns (out: seq<Name>, ghost ready: nat)
    requires WellFormed(w)
    ensures Distinct(out) && forall n :: n in out <==> n in w.published
    ensures ready <= |out| && DependenciesFirst(w, out[..ready]) && MemberOrdered(w, out[ready..])
    ensures ready == |out| <==> Acyclic(w)
    ensures forall n :: n in out[ready..] <==> n in w.published && ReachesCycle(w, n)
    ensures Acyclic(w) ==> DependenciesFirst(w, out) && Covers(w, out)
    ensures Acyclic(w) ==> Least(w, out)
  {
    hide Partition, Greedy, MemberOrdered, Published, NeedsNothing, WellFormed, Acyclic, ReachesCycle,
      DependenciesFirst, Least;
    var remaining := Published(w, w.members);
    var ordered: seq<Name> := [];
    Begin(w);
    while remaining != []
      invariant Partition(w, ordered, remaining) && InDeps(w, remaining)
      decreases |remaining|
    {
      var at := 0;
      while at < |remaining| && !NeedsNothing(w, remaining, remaining[at])
        invariant 0 <= at <= |remaining|
        invariant forall j :: 0 <= j < at ==> !NeedsNothing(w, remaining, remaining[j])
      {
        at := at + 1;
      }
      if at == |remaining| {
        Finish(w, ordered, remaining);
        return ordered + remaining, |ordered|;
      }
      Advance(w, ordered, remaining, at);
      ordered, remaining := ordered + [remaining[at]], remaining[..at] + remaining[at + 1..];
    }
    Finish(w, ordered, []);
    assert ordered + [] == ordered;
    return ordered, |ordered|;
  }

  lemma Begin(w: Workspace)
    requires WellFormed(w)
    ensures Partition(w, [], Published(w, w.members)) && InDeps(w, Published(w, w.members))
  {
    assert w.members[..|w.members|] == w.members;
    PublishedKeeps(w, |w.members|);
  }

  lemma StuckNeedsItself(w: Workspace, remaining: seq<Name>)
    requires InDeps(w, remaining) && forall n :: n in remaining ==> n in w.published
    requires forall j :: 0 <= j < |remaining| ==> !NeedsNothing(w, remaining, remaining[j])
    ensures forall n :: n in Elements(remaining) ==> n in w.published && NeedsOneOf(w, Elements(remaining), n)
  {
    forall n | n in remaining ensures NeedsOneOf(w, Elements(remaining), n) {
      var j :| 0 <= j < |remaining| && remaining[j] == n;
      assert !NeedsNothing(w, remaining, remaining[j]);
      var i :| 0 <= i < |w.deps[n]| && w.deps[n][i] in remaining;
      assert Edge(w, n, w.deps[n][i]);
    }
  }

  lemma PathOfOne(w: Workspace, n: Name)
    requires n in w.published
    ensures IsPath(w, [n])
  {}

  lemma OrderedReachNone(w: Workspace, ordered: seq<Name>)
    requires WellFormed(w) && Greedy(w, ordered)
    ensures forall n :: n in ordered ==> !ReachesCycle(w, n)
  {
    GreedyIsDependenciesFirst(w, ordered);
    hide ReachesCycle, Greedy, DependenciesFirst, WellFormed;
    forall n | n in ordered ensures !ReachesCycle(w, n) { OrderedReachesNoCycle(w, ordered, n); }
  }

  lemma RemainingReachAll(w: Workspace, remaining: seq<Name>)
    requires InDeps(w, remaining) && forall n :: n in remaining ==> n in w.published
    requires forall j :: 0 <= j < |remaining| ==> !NeedsNothing(w, remaining, remaining[j])
    ensures forall n :: n in remaining ==> ReachesCycle(w, n)
  {
    StuckNeedsItself(w, remaining);
    hide ReachesCycle, IsPath, NeedsOneOf, NeedsNothing;
    forall n | n in remaining ensures ReachesCycle(w, n) {
      PathOfOne(w, n);
      StuckReachesCycle(w, Elements(remaining), [n]);
    }
  }

  lemma StuckReach(w: Workspace, ordered: seq<Name>, remaining: seq<Name>)
    requires WellFormed(w) && Partition(w, ordered, remaining) && InDeps(w, remaining)
    requires forall j :: 0 <= j < |remaining| ==> !NeedsNothing(w, remaining, remaining[j])
    ensures forall n :: n in remaining <==> n in w.published && ReachesCycle(w, n)
  {
    hide ReachesCycle, MemberOrdered, Greedy, NeedsNothing, WellFormed;
    OrderedReachNone(w, ordered);
    RemainingReachAll(w, remaining);
  }

  lemma JoinedIsPermutation(w: Workspace, ordered: seq<Name>, remaining: seq<Name>)
    requires WellFormed(w) && Partition(w, ordered, remaining)
    ensures var out := ordered + remaining;
      Distinct(out) && (forall n :: n in out <==> n in w.published) && out[..|ordered|] == ordered
        && out[|ordered|..] == remaining
    ensures DependenciesFirst(w, ordered) && Greedy(w, ordered) && MemberOrdered(w, remaining)
  {
    GreedyIsDependenciesFirst(w, ordered);
    hide Greedy;
  }

  lemma Finish(w: Workspace, ordered: seq<Name>, remaining: seq<Name>)
    requires WellFormed(w) && Partition(w, ordered, remaining) && InDeps(w, remaining)
    requires forall j :: 0 <= j < |remaining| ==> !NeedsNothing(w, remaining, remaining[j])
    ensures var out := ordered + remaining;
      && Distinct(out) && (forall n :: n in out <==> n in w.published)
      && out[..|ordered|] == ordered && out[|ordered|..] == remaining
      && DependenciesFirst(w, ordered) && MemberOrdered(w, remaining)
      && (remaining == [] <==> Acyclic(w))
      && (forall n :: n in remaining <==> n in w.published && ReachesCycle(w, n))
      && (Acyclic(w) ==> DependenciesFirst(w, out) && Covers(w, out) && Least(w, out))
  {
    hide ReachesCycle, Acyclic, NeedsNothing, DependenciesFirst, MemberOrdered, Distinct, Greedy, WellFormed, Least,
      Partition, InDeps;
    StuckReach(w, ordered, remaining);
    AcyclicMeansNoneReaches(w);
    JoinedIsPermutation(w, ordered, remaining);
    if remaining != [] {
      assert remaining[0] in w.published && ReachesCycle(w, remaining[0]);
    } else {
      assert ordered + remaining == ordered;
      GreedyIsLeastOfAll(w, ordered);
    }
  }

  lemma GreedyIsLeastOfAll(w: Workspace, order: seq<Name>)
    requires WellFormed(w) && Greedy(w, order)
    ensures Least(w, order)
  {
    GreedyIsDependenciesFirst(w, order);
    hide LexAtMost, Greedy;
    forall other | DependenciesFirst(w, other) && |other| == |order|
      ensures (forall n :: n in other ==> n in w.members) && LexAtMost(w, order, other)
    {
      GreedyIsLeast(w, order, other);
    }
  }
}
