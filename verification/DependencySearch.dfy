/** The two depth-limited searches over route dependencies: the cycle check made
    before an edge is added, and the dependency-first resolver. */
module DependencySearch {
  import opened Common
  import opened Digraph
  import opened RouterStorage

  // ---- Cycle check ----

  /** Depth-first check that `target` is not met from `current`. */
  function Visit(g: Graph, current: Name, target: Name, stack: seq<Name>, depth: nat): Outcome<RouterError>
    requires depth <= MAX_RECURSION_DEPTH + 1
    decreases MAX_RECURSION_DEPTH + 1 - depth, 0
  {
    if depth > MAX_RECURSION_DEPTH then Fail(RecursionLimitExceeded)
    else if current in stack then Fail(CircularDependency)
    else if current == target then Fail(CircularDependency)
    else VisitAll(g, Succ(g, current), target, stack + [current], depth + 1)
  }

  function VisitAll(g: Graph, names: seq<Name>, target: Name, stack: seq<Name>, depth: nat): Outcome<RouterError>
    requires depth <= MAX_RECURSION_DEPTH + 1
    decreases MAX_RECURSION_DEPTH + 1 - depth, |names|
  {
    if names == [] then Pass
    else
      var first := Visit(g, names[0], target, stack, depth);
      if first.Fail? then first else VisitAll(g, names[1..], target, stack, depth)
  }

  /** What the check establishes when it passes: within `edges` more edges
      everything below `current` has been seen, and `target` is not there. */
  ghost predicate ClearOf(g: Graph, current: Name, target: Name, edges: int) {
    PathsWithin(g, current, edges) && !Reaches(g, current, target)
  }

  ghost predicate AllClearOf(g: Graph, names: seq<Name>, target: Name, edges: int) {
    forall n :: n in names ==> ClearOf(g, n, target, edges)
  }

  /** A node is clear exactly when it is not the target and its successors are clear. */
  lemma ClearStep(g: Graph, current: Name, target: Name, edges: nat)
    ensures ClearOf(g, current, target, edges)
            <==> current != target && AllClearOf(g, Succ(g, current), target, edges - 1)
  {
    if ClearOf(g, current, target, edges) {
      ReachesSelf(g, current);
      forall n | n in Succ(g, current)
        ensures ClearOf(g, n, target, edges - 1)
      {
        forall p | IsPath(g, p) && p[0] == n
          ensures |p| - 1 <= edges - 1
        {
          PrependPath(g, current, p);
          assert |[current] + p| - 1 <= edges;
        }
        if Reaches(g, n, target) {
          ReachesThrough(g, current, n, target);
        }
      }
    }
    if current != target && AllClearOf(g, Succ(g, current), target, edges - 1) {
      forall p | IsPath(g, p) && p[0] == current
        ensures |p| - 1 <= edges && p[|p| - 1] != target
      {
        if |p| > 1 {
          PathTail(g, p);
          assert PathBetween(g, p[1..], p[1], p[|p| - 1]);
        }
      }
    }
  }

  /** On an acyclic graph the node being visited is never on its own stack. */
  lemma StackIsFresh(g: Graph, stack: seq<Name>, current: Name)
    requires Acyclic(g) && IsPath(g, stack + [current])
    ensures current !in stack
  {
    var q := stack + [current];
    forall i | 0 <= i < |stack|
      ensures stack[i] != current
    {
      var p := q[i..];
      forall k | 0 <= k < |p| - 1
        ensures p[k + 1] in Succ(g, p[k])
      {
        assert q[i + k + 1] in Succ(g, q[i + k]);
      }
      assert p[0] != p[|p| - 1];
    }
  }

  lemma ExtendPath(g: Graph, p: seq<Name>, a: Name, b: Name)
    requires IsPath(g, p + [a]) && b in Succ(g, a)
    ensures IsPath(g, p + [a] + [b])
  {
    var q := p + [a] + [b];
    forall i | 0 <= i < |q| - 1
      ensures q[i + 1] in Succ(g, q[i])
    {
      if i < |p| {
        assert (p + [a])[i + 1] in Succ(g, (p + [a])[i]);
      }
    }
  }

  /** What an outcome of the search means with `edges` edges left to descend:
      passing is exactly being clear, and each error is witnessed by a path. */
  ghost predicate Justified(g: Graph, current: Name, target: Name, edges: int, result: Outcome<RouterError>) {
    && (result.Pass? <==> ClearOf(g, current, target, edges))
    && (result.Fail? ==> result.error in {CircularDependency, RecursionLimitExceeded})
    && (result == Fail(CircularDependency) ==> Reaches(g, current, target))
    && (result == Fail(RecursionLimitExceeded) ==> HasPathOf(g, current, edges + 1))
  }

  ghost predicate AllJustified(g: Graph, names: seq<Name>, target: Name, edges: int, result: Outcome<RouterError>) {
    && (result.Pass? <==> AllClearOf(g, names, target, edges))
    && (result.Fail? ==> exists n :: n in names && Justified(g, n, target, edges, result))
  }

  /** A verdict on a successor carries over to the node itself. */
  lemma JustifiedThrough(g: Graph, a: Name, b: Name, target: Name, edges: nat, result: Outcome<RouterError>)
    requires b in Succ(g, a) && a != target
    requires result.Fail? && Justified(g, b, target, edges - 1, result)
    ensures Justified(g, a, target, edges, result)
  {
    ClearStep(g, a, target, edges);
    if result == Fail(CircularDependency) {
      ReachesThrough(g, a, b, target);
    } else {
      var p :| IsPath(g, p) && p[0] == b && |p| - 1 == edges;
      PrependPath(g, a, p);
      assert |[a] + p| - 1 == edges + 1;
    }
  }

  lemma {:induction false} VisitMeaning(g: Graph, current: Name, target: Name, stack: seq<Name>, depth: nat)
    requires Acyclic(g) && IsPath(g, stack + [current])
    requires depth <= MAX_RECURSION_DEPTH + 1
    ensures Justified(g, current, target, MAX_RECURSION_DEPTH - depth, Visit(g, current, target, stack, depth))
    decreases MAX_RECURSION_DEPTH + 1 - depth, 0
  {
    if depth > MAX_RECURSION_DEPTH {
      assert IsPath(g, [current]);
    } else {
      var edges := MAX_RECURSION_DEPTH - depth;
      StackIsFresh(g, stack, current);
      if current == target {
        ReachesSelf(g, current);
      } else {
        forall n | n in Succ(g, current)
          ensures IsPath(g, stack + [current] + [n])
        {
          ExtendPath(g, stack, current, n);
        }
        VisitAllMeaning(g, Succ(g, current), target, stack + [current], depth + 1);
        var result := VisitAll(g, Succ(g, current), target, stack + [current], depth + 1);
        if result.Fail? {
          var n :| n in Succ(g, current) && Justified(g, n, target, edges - 1, result);
          JustifiedThrough(g, current, n, target, edges, result);
        } else {
          ClearStep(g, current, target, edges);
        }
      }
    }
  }

  lemma {:induction false} VisitAllMeaning(g: Graph, names: seq<Name>, target: Name, stack: seq<Name>, depth: nat)
    requires Acyclic(g)
    requires forall n :: n in names ==> IsPath(g, stack + [n])
    requires depth <= MAX_RECURSION_DEPTH + 1
    ensures AllJustified(g, names, target, MAX_RECURSION_DEPTH - depth, VisitAll(g, names, target, stack, depth))
    decreases MAX_RECURSION_DEPTH + 1 - depth, |names|
  {
    if names != [] {
      VisitMeaning(g, names[0], target, stack, depth);
      VisitAllMeaning(g, names[1..], target, stack, depth);
      assert forall n :: n in names <==> n == names[0] || n in names[1..];
    }
  }

  /** The cycle check on an acyclic graph: it accepts the edge from `route` to
      `dependsOn` exactly when `route` is not reachable from `dependsOn` and no
      path from `dependsOn` has more than ten edges. */
  lemma CycleCheckMeaning(g: Graph, route: Name, dependsOn: Name)
    requires Acyclic(g)
    ensures Visit(g, dependsOn, route, [], 0).Pass?
            <==> !Reaches(g, dependsOn, route) && PathsWithin(g, dependsOn, MAX_RECURSION_DEPTH)
    ensures Visit(g, dependsOn, route, [], 0) == Fail(CircularDependency) ==> Reaches(g, dependsOn, route)
    ensures Visit(g, dependsOn, route, [], 0) == Fail(RecursionLimitExceeded) ==>
              HasPathOf(g, dependsOn, MAX_RECURSION_DEPTH + 1)
  {
    assert IsPath(g, [] + [dependsOn]);
    VisitMeaning(g, dependsOn, route, [], 0);
  }

  // ---- Dependency-first resolution ----

  type Resolution = seq<(Name, Address)>

  function Names(r: Resolution): (names: seq<Name>)
    ensures |names| == |r|
    ensures forall i :: 0 <= i < |r| ==> names[i] == r[i].0
  {
    seq(|r|, i requires 0 <= i < |r| => r[i].0)
  }

  /** Appends `name` to `resolved`, after everything it depends on. */
  function ResolveFrom(
    s: Storage, now: u32, name: Name, active: seq<Name>, resolved: Resolution, depth: nat)
    : Result<Resolution, RouterError>
    requires depth <= MAX_RECURSION_DEPTH + 1
    decreases MAX_RECURSION_DEPTH + 1 - depth, 0
  {
    if depth > MAX_RECURSION_DEPTH then Failure(RecursionLimitExceeded)
    else if name in active then Failure(CircularDependency)
    else if name in Names(resolved) then Success(resolved)
    else
      var below :- ResolveEach(s, now, Succ(s.dependencies, name), active + [name], resolved, depth + 1);
      if name !in s.routes then Failure(RouteNotFound)
      else if s.routes[name].paused then Failure(RoutePaused)
      else if IsExpired(now, s.routes[name]) then Failure(RouteExpired)
      else Success(below + [(name, s.routes[name].address)])
  }

  function ResolveEach(
    s: Storage, now: u32, names: seq<Name>, active: seq<Name>, resolved: Resolution, depth: nat)
    : Result<Resolution, RouterError>
    requires depth <= MAX_RECURSION_DEPTH + 1
    decreases MAX_RECURSION_DEPTH + 1 - depth, |names|
  {
    if names == [] then Success(resolved)
    else
      var first :- ResolveFrom(s, now, names[0], active, resolved, depth);
      ResolveEach(s, now, names[1..], active, first, depth)
  }

  function ResolveWithDependencies(s: Storage, now: u32, name: Name): Result<Resolution, RouterError> {
    if s.paused then Failure(RouterPaused)
    else if name !in s.routes then Failure(RouteNotFound)
    else ResolveFrom(s, now, name, [], [], 0)
  }

  predicate Live(s: Storage, now: u32, n: Name) {
    n in s.routes && !s.routes[n].paused && !IsExpired(now, s.routes[n])
  }

  /** Duplicate-free, only live routes with their stored addresses, and every
      dependency of an entry strictly before it. */
  ghost predicate DependencyOrdered(s: Storage, now: u32, r: Resolution) {
    && NoDup(Names(r))
    && (forall i :: 0 <= i < |r| ==> Live(s, now, r[i].0) && r[i].1 == s.routes[r[i].0].address)
    && (forall i, d :: 0 <= i < |r| && d in Succ(s.dependencies, Names(r)[i]) ==> d in Names(r)[..i])
  }

  /** Why resolving from `name` failed, with `edges` edges left to descend.
      A circular dependency is never the reason. */
  ghost predicate Explained(s: Storage, now: u32, name: Name, edges: int, e: RouterError) {
    match e
    case RecursionLimitExceeded => HasPathOf(s.dependencies, name, edges + 1)
    case RouteNotFound => exists n :: Reaches(s.dependencies, name, n) && n !in s.routes
    case RoutePaused => exists n :: Reaches(s.dependencies, name, n) && n in s.routes && s.routes[n].paused
    case RouteExpired => exists n :: Reaches(s.dependencies, name, n) && n in s.routes && IsExpired(now, s.routes[n])
    case _ => false
  }

  /** `r` extends `before` by entries reachable from `name`. */
  ghost predicate Extends(g: Graph, name: Name, before: Resolution, r: Resolution) {
    && before <= r
    && forall i :: |before| <= i < |r| ==> Reaches(g, name, r[i].0)
  }

  lemma ExplainedThrough(s: Storage, now: u32, a: Name, b: Name, edges: nat, e: RouterError)
    requires b in Succ(s.dependencies, a)
    requires Explained(s, now, b, edges - 1, e)
    ensures Explained(s, now, a, edges, e)
  {
    forall n | Reaches(s.dependencies, b, n)
      ensures Reaches(s.dependencies, a, n)
    {
      ReachesThrough(s.dependencies, a, b, n);
    }
    if e == RecursionLimitExceeded {
      var p :| IsPath(s.dependencies, p) && p[0] == b && |p| - 1 == edges;
      PrependPath(s.dependencies, a, p);
      assert |[a] + p| - 1 == edges + 1;
    }
  }

  /** Appending a live name whose dependencies are already listed keeps the order. */
  lemma AppendOrdered(s: Storage, now: u32, r: Resolution, name: Name)
    requires DependencyOrdered(s, now, r) && Live(s, now, name)
    requires name !in Names(r)
    requires forall d :: d in Succ(s.dependencies, name) ==> d in Names(r)
    ensures DependencyOrdered(s, now, r + [(name, s.routes[name].address)])
  {
    var r' := r + [(name, s.routes[name].address)];
    assert Names(r') == Names(r) + [name];
    AppendNoDup(Names(r), name);
    forall i, d | 0 <= i < |r'| && d in Succ(s.dependencies, Names(r')[i])
      ensures d in Names(r')[..i]
    {
      assert Names(r')[..i] == Names(r)[..i];
    }
  }

  /** What a successful visit of `names`, on behalf of `name`, has done to the list. */
  ghost predicate Visited(
    s: Storage, now: u32, name: Name, names: seq<Name>, active: seq<Name>, resolved: Resolution, r: Resolution) {
    && DependencyOrdered(s, now, r)
    && Extends(s.dependencies, name, resolved, r)
    && (forall n :: n in names ==> n in Names(r))
    && (forall x :: x in active ==> x !in Names(r))
  }

  lemma AppendVisited(s: Storage, now: u32, name: Name, active: seq<Name>, resolved: Resolution, below: Resolution)
    requires Visited(s, now, name, Succ(s.dependencies, name), active + [name], resolved, below)
    requires Live(s, now, name) && name !in active
    ensures var r := below + [(name, s.routes[name].address)];
            Visited(s, now, name, [name], active, resolved, r) && Names(r)[|r| - 1] == name
  {
    var r := below + [(name, s.routes[name].address)];
    assert name in active + [name];
    forall x | x in active
      ensures x !in Names(below)
    {
      assert x in active + [name];
    }
    AppendOrdered(s, now, below, name);
    ReachesSelf(s.dependencies, name);
    assert Names(r) == Names(below) + [name];
  }

  /** Visiting the first of `names` and then the others visits them all. */
  lemma VisitedBoth(
    s: Storage, now: u32, name: Name, names: seq<Name>, active: seq<Name>,
    resolved: Resolution, first: Resolution, r: Resolution)
    requires names != []
    requires Extends(s.dependencies, name, resolved, first) && names[0] in Names(first)
    requires Visited(s, now, name, names[1..], active, first, r)
    ensures Visited(s, now, name, names, active, resolved, r)
  {
    forall i | 0 <= i < |first|
      ensures Names(first)[i] == Names(r)[i]
    {
    }
    assert Names(first) <= Names(r);
    assert forall n :: n in names ==> n == names[0] || n in names[1..];
  }

  lemma {:induction false} ResolveMeaning(
    s: Storage, now: u32, name: Name, active: seq<Name>, resolved: Resolution, depth: nat)
    requires Acyclic(s.dependencies) && IsPath(s.dependencies, active + [name])
    requires DependencyOrdered(s, now, resolved)
    requires forall x :: x in active ==> x !in Names(resolved)
    requires depth <= MAX_RECURSION_DEPTH + 1
    ensures var result := ResolveFrom(s, now, name, active, resolved, depth);
            match result
            case Failure(e) => Explained(s, now, name, MAX_RECURSION_DEPTH - depth, e)
            case Success(r) =>
              && Visited(s, now, name, [name], active, resolved, r)
              && (name !in Names(resolved) ==> Names(r)[|r| - 1] == name)
    decreases MAX_RECURSION_DEPTH + 1 - depth, 0
  {
    var g := s.dependencies;
    if depth > MAX_RECURSION_DEPTH {
      assert IsPath(g, [name]);
    } else {
      StackIsFresh(g, active, name);
      if name !in Names(resolved) {
        forall n | n in Succ(g, name)
          ensures IsPath(g, active + [name] + [n])
        {
          ExtendPath(g, active, name, n);
        }
        ResolveEachMeaning(s, now, name, Succ(g, name), active + [name], resolved, depth + 1);
        var result := ResolveEach(s, now, Succ(g, name), active + [name], resolved, depth + 1);
        if result.Success? {
          if Live(s, now, name) {
            AppendVisited(s, now, name, active, resolved, result.value);
          } else {
            ReachesSelf(g, name);
          }
        }
      }
    }
  }

  lemma {:induction false} ResolveEachMeaning(
    s: Storage, now: u32, name: Name, names: seq<Name>, active: seq<Name>, resolved: Resolution, depth: nat)
    requires Acyclic(s.dependencies)
    requires forall n :: n in names ==> n in Succ(s.dependencies, name) && IsPath(s.dependencies, active + [n])
    requires DependencyOrdered(s, now, resolved)
    requires forall x :: x in active ==> x !in Names(resolved)
    requires 0 < depth <= MAX_RECURSION_DEPTH + 1
    ensures var result := ResolveEach(s, now, names, active, resolved, depth);
            match result
            case Failure(e) => Explained(s, now, name, MAX_RECURSION_DEPTH + 1 - depth, e)
            case Success(r) => Visited(s, now, name, names, active, resolved, r)
    decreases MAX_RECURSION_DEPTH + 1 - depth, |names|
  {
    if names != [] {
      var g := s.dependencies;
      ResolveMeaning(s, now, names[0], active, resolved, depth);
      var first := ResolveFrom(s, now, names[0], active, resolved, depth);
      if first.Failure? {
        ExplainedThrough(s, now, name, names[0], MAX_RECURSION_DEPTH + 1 - depth, first.error);
      } else {
        forall i | |resolved| <= i < |first.value|
          ensures Reaches(g, name, first.value[i].0)
        {
          ReachesThrough(g, name, names[0], first.value[i].0);
        }
        ResolveEachMeaning(s, now, name, names[1..], active, first.value, depth);
        var rest := ResolveEach(s, now, names[1..], active, first.value, depth);
        if rest.Success? {
          VisitedBoth(s, now, name, names, active, resolved, first.value, rest.value);
        }
      }
    }
  }

  /** A list closed under dependencies contains everything reachable from its members. */
  lemma {:induction false} ClosedUnderReach(s: Storage, now: u32, r: Resolution, p: seq<Name>)
    requires DependencyOrdered(s, now, r)
    requires IsPath(s.dependencies, p) && p[0] in Names(r)
    ensures p[|p| - 1] in Names(r)
    decreases |p|
  {
    if |p| > 1 {
      PathTail(s.dependencies, p);
      var i :| 0 <= i < |r| && Names(r)[i] == p[0];
      assert p[1] in Names(r)[..i];
      ClosedUnderReach(s, now, r, p[1..]);
    }
  }

  ghost predicate AllReachableLive(s: Storage, now: u32, name: Name) {
    forall n :: Reaches(s.dependencies, name, n) ==> Live(s, now, n)
  }

  /** A successful resolution lists exactly the routes reachable from `name`, once
      each, dependencies first and `name` last, all live with their stored addresses. */
  lemma ResolutionIsExact(s: Storage, now: u32, name: Name)
    requires Acyclic(s.dependencies)
    requires ResolveWithDependencies(s, now, name).Success?
    ensures var r := ResolveWithDependencies(s, now, name).value;
            && !s.paused
            && DependencyOrdered(s, now, r)
            && (forall n :: n in Names(r) <==> Reaches(s.dependencies, name, n))
            && |r| > 0 && Names(r)[|r| - 1] == name
            && AllReachableLive(s, now, name)
  {
    var g := s.dependencies;
    assert IsPath(g, [] + [name]);
    ResolveMeaning(s, now, name, [], [], 0);
    var r := ResolveWithDependencies(s, now, name).value;
    assert |r| > 0;
    forall n
      ensures n in Names(r) <==> Reaches(g, name, n)
    {
      if n in Names(r) {
        var i :| 0 <= i < |r| && Names(r)[i] == n;
        assert Reaches(g, name, r[i].0);
      }
      if Reaches(g, name, n) {
        var p :| PathBetween(g, p, name, n);
        ClosedUnderReach(s, now, r, p);
      }
    }
    forall n | Reaches(g, name, n)
      ensures Live(s, now, n)
    {
      var i :| 0 <= i < |r| && Names(r)[i] == n;
      assert Live(s, now, r[i].0);
    }
  }

  /** Resolution cannot fail while the router runs, every reachable route is live
      and no path leaves the depth limit; and a failure is always one of those. */
  lemma ResolutionSucceeds(s: Storage, now: u32, name: Name)
    requires Acyclic(s.dependencies)
    ensures !s.paused && AllReachableLive(s, now, name) && PathsWithin(s.dependencies, name, MAX_RECURSION_DEPTH)
            ==> ResolveWithDependencies(s, now, name).Success?
    ensures ResolveWithDependencies(s, now, name) != Failure(CircularDependency)
    ensures ResolveWithDependencies(s, now, name) == Failure(RecursionLimitExceeded) ==>
              HasPathOf(s.dependencies, name, MAX_RECURSION_DEPTH + 1)
  {
    ReachesSelf(s.dependencies, name);
    assert IsPath(s.dependencies, [] + [name]);
    ResolveMeaning(s, now, name, [], [], 0);
  }
}
