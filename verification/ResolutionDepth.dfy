/** How deep the dependency-first resolver really goes: it meets a route along the first
    path to it, and skips it on every later one. This decides exactly when it succeeds. */
module ResolutionDepth {
  import opened Common
  import opened Digraph
  import opened RouterStorage
  import opened DependencySearch

  /** `b` is the first dependency of `a` that leads to `e`. */
  ghost predicate TakesFirst(g: Graph, a: Name, b: Name, e: Name) {
    exists k :: 0 <= k < |Succ(g, a)| && FirstAt(g, a, b, e, k)
  }

  ghost predicate FirstAt(g: Graph, a: Name, b: Name, e: Name, k: nat)
    requires k < |Succ(g, a)|
  {
    Succ(g, a)[k] == b && forall j :: 0 <= j < k ==> !Reaches(g, Succ(g, a)[j], e)
  }

  /** A path that at every route takes the first dependency leading to its end. */
  ghost predicate IsFirstPath(g: Graph, p: seq<Name>) {
    IsPath(g, p) && forall i :: 0 <= i < |p| - 1 ==> TakesFirst(g, p[i], p[i + 1], p[|p| - 1])
  }

  /** Routes whose first path has ten edges have no dependencies of their own. */
  ghost predicate FirstPathsFit(g: Graph, name: Name) {
    forall p :: IsFirstPath(g, p) && p[0] == name && |p| - 1 == MAX_RECURSION_DEPTH ==> Succ(g, p[|p| - 1]) == []
  }

  lemma LongerPath(g: Graph, p: seq<Name>)
    requires IsPath(g, p) && Succ(g, p[|p| - 1]) != []
    ensures HasPathOf(g, p[0], |p|)
  {
    var last, next := p[|p| - 1], Succ(g, p[|p| - 1])[0];
    assert p[..|p| - 1] + [last] == p;
    ExtendPath(g, p[..|p| - 1], last, next);
    var longer := p + [next];
    assert IsPath(g, longer) && longer[0] == p[0] && |longer| - 1 == |p|;
  }

  /** A bound on all paths is more than enough. */
  lemma ShortPathsFit(g: Graph, name: Name)
    requires PathsWithin(g, name, MAX_RECURSION_DEPTH)
    ensures FirstPathsFit(g, name)
  {
    forall p | IsFirstPath(g, p) && p[0] == name && |p| - 1 == MAX_RECURSION_DEPTH
      ensures Succ(g, p[|p| - 1]) == []
    {
      if Succ(g, p[|p| - 1]) != [] {
        LongerPath(g, p);
      }
    }
  }

  // ---- The resolver descends along first paths ----

  /** The dependencies of `a` listed before `b` are all in `names`. */
  ghost predicate Passed(g: Graph, a: Name, b: Name, names: seq<Name>) {
    exists k :: 0 <= k < |Succ(g, a)| && PassedAt(g, a, b, names, k)
  }

  ghost predicate PassedAt(g: Graph, a: Name, b: Name, names: seq<Name>, k: nat)
    requires k < |Succ(g, a)|
  {
    Succ(g, a)[k] == b && forall j :: 0 <= j < k ==> Succ(g, a)[j] in names
  }

  /** The stack of a visit: whatever comes before it in a dependency list is resolved. */
  ghost predicate Descent(g: Graph, p: seq<Name>, names: seq<Name>) {
    IsPath(g, p) && forall i :: 0 <= i < |p| - 1 ==> Passed(g, p[i], p[i + 1], names)
  }

  lemma NotReached(s: Storage, now: u32, r: Resolution, a: Name, b: Name)
    requires DependencyOrdered(s, now, r) && a in Names(r) && b !in Names(r)
    ensures !Reaches(s.dependencies, a, b)
  {
    if Reaches(s.dependencies, a, b) {
      var p :| PathBetween(s.dependencies, p, a, b);
      ClosedUnderReach(s, now, r, p);
    }
  }

  lemma DescentIsFirst(s: Storage, now: u32, p: seq<Name>, r: Resolution)
    requires DependencyOrdered(s, now, r) && Descent(s.dependencies, p, Names(r)) && p[|p| - 1] !in Names(r)
    ensures IsFirstPath(s.dependencies, p)
  {
    var g, e := s.dependencies, p[|p| - 1];
    forall i | 0 <= i < |p| - 1
      ensures TakesFirst(g, p[i], p[i + 1], e)
    {
      assert Passed(g, p[i], p[i + 1], Names(r));
      var k :| 0 <= k < |Succ(g, p[i])| && PassedAt(g, p[i], p[i + 1], Names(r), k);
      forall j | 0 <= j < k
        ensures !Reaches(g, Succ(g, p[i])[j], e)
      {
        NotReached(s, now, r, Succ(g, p[i])[j], e);
      }
      assert FirstAt(g, p[i], p[i + 1], e, k);
    }
  }

  lemma DescentGrows(g: Graph, p: seq<Name>, names: seq<Name>, more: seq<Name>)
    requires Descent(g, p, names) && forall n :: n in names ==> n in more
    ensures Descent(g, p, more)
  {
    forall i | 0 <= i < |p| - 1
      ensures Passed(g, p[i], p[i + 1], more)
    {
      assert Passed(g, p[i], p[i + 1], names);
      var k :| 0 <= k < |Succ(g, p[i])| && PassedAt(g, p[i], p[i + 1], names, k);
      assert PassedAt(g, p[i], p[i + 1], more, k);
    }
  }

  lemma DescentExtends(g: Graph, p: seq<Name>, a: Name, k: nat, names: seq<Name>)
    requires Descent(g, p + [a], names) && k < |Succ(g, a)|
    requires forall j :: 0 <= j < k ==> Succ(g, a)[j] in names
    ensures Descent(g, p + [a] + [Succ(g, a)[k]], names)
  {
    var b := Succ(g, a)[k];
    var q := p + [a] + [b];
    ExtendPath(g, p, a, b);
    forall i | 0 <= i < |q| - 1
      ensures Passed(g, q[i], q[i + 1], names)
    {
      if i < |p| {
        assert Passed(g, (p + [a])[i], (p + [a])[i + 1], names);
      } else {
        assert PassedAt(g, a, b, names, k);
      }
    }
  }

  lemma NamesGrow(before: Resolution, after: Resolution)
    requires before <= after
    ensures forall n :: n in Names(before) ==> n in Names(after)
  {
    forall n | n in Names(before)
      ensures n in Names(after)
    {
      var i :| 0 <= i < |before| && Names(before)[i] == n;
      assert Names(after)[i] == n;
    }
  }

  /** A visit whose stack is a descent from `root` stays within the limit. */
  lemma {:induction false} StaysWithin(
    s: Storage, now: u32, root: Name, name: Name, active: seq<Name>, resolved: Resolution)
    requires Acyclic(s.dependencies) && FirstPathsFit(s.dependencies, root)
    requires |active| <= MAX_RECURSION_DEPTH && (active + [name])[0] == root
    requires Descent(s.dependencies, active + [name], Names(resolved))
    requires DependencyOrdered(s, now, resolved) && forall x :: x in active ==> x !in Names(resolved)
    ensures ResolveFrom(s, now, name, active, resolved, |active|) != Failure(RecursionLimitExceeded)
    decreases MAX_RECURSION_DEPTH - |active|, 1, 0
  {
    var g := s.dependencies;
    StackIsFresh(g, active, name);
    if name !in Names(resolved) && Succ(g, name) != [] {
      var p := active + [name];
      DescentIsFirst(s, now, p, resolved);
      assert p[|p| - 1] == name;
      assert |active| < MAX_RECURSION_DEPTH;
      StaysWithinEach(s, now, root, name, 0, active, resolved);
    }
  }

  /** Visiting one dependency leaves the stack a descent, with that dependency resolved. */
  lemma AfterDependency(
    s: Storage, now: u32, name: Name, c: Name, active: seq<Name>, resolved: Resolution, first: Resolution)
    requires Acyclic(s.dependencies) && |active| < MAX_RECURSION_DEPTH
    requires Descent(s.dependencies, active + [name], Names(resolved)) && c in Succ(s.dependencies, name)
    requires DependencyOrdered(s, now, resolved) && forall x :: x in active + [name] ==> x !in Names(resolved)
    requires ResolveFrom(s, now, c, active + [name], resolved, |active| + 1) == Success(first)
    ensures DependencyOrdered(s, now, first) && forall x :: x in active + [name] ==> x !in Names(first)
    ensures Descent(s.dependencies, active + [name], Names(first))
    ensures c in Names(first) && forall n :: n in Names(resolved) ==> n in Names(first)
  {
    ExtendPath(s.dependencies, active, name, c);
    ResolveMeaning(s, now, c, active + [name], resolved, |active| + 1);
    NamesGrow(resolved, first);
    DescentGrows(s.dependencies, active + [name], Names(resolved), Names(first));
  }

  lemma {:induction false} StaysWithinEach(
    s: Storage, now: u32, root: Name, name: Name, k: nat, active: seq<Name>, resolved: Resolution)
    requires Acyclic(s.dependencies) && FirstPathsFit(s.dependencies, root)
    requires |active| < MAX_RECURSION_DEPTH && (active + [name])[0] == root
    requires Descent(s.dependencies, active + [name], Names(resolved))
    requires DependencyOrdered(s, now, resolved) && forall x :: x in active + [name] ==> x !in Names(resolved)
    requires k <= |Succ(s.dependencies, name)|
    requires forall j :: 0 <= j < k ==> Succ(s.dependencies, name)[j] in Names(resolved)
    ensures ResolveEach(s, now, Succ(s.dependencies, name)[k..], active + [name], resolved, |active| + 1)
            != Failure(RecursionLimitExceeded)
    decreases MAX_RECURSION_DEPTH - |active|, 0, |Succ(s.dependencies, name)| - k
  {
    var g, stack, names := s.dependencies, active + [name], Succ(s.dependencies, name);
    if k < |names| {
      var c := names[k];
      DescentExtends(g, active, name, k, Names(resolved));
      StaysWithin(s, now, root, c, stack, resolved);
      var first := ResolveFrom(s, now, c, stack, resolved, |stack|);
      assert names[k..][0] == c && names[k..][1..] == names[k + 1..];
      if first.Success? {
        AfterDependency(s, now, name, c, active, resolved, first.value);
        StaysWithinEach(s, now, root, name, k + 1, active, first.value);
      }
    }
  }

  // ---- A first path that does not fit is followed to its end ----

  lemma {:induction false} RunsOver(s: Storage, now: u32, p: seq<Name>, d: nat, resolved: Resolution)
    requires Acyclic(s.dependencies) && IsFirstPath(s.dependencies, p)
    requires |p| - 1 == MAX_RECURSION_DEPTH && Succ(s.dependencies, p[|p| - 1]) != [] && d < |p|
    requires DependencyOrdered(s, now, resolved) && p[|p| - 1] !in Names(resolved)
    requires forall x :: x in p[..d] ==> x !in Names(resolved)
    ensures ResolveFrom(s, now, p[d], p[..d], resolved, d).Failure?
    decreases |p| - d, 1, 0
  {
    var g, e := s.dependencies, p[|p| - 1];
    PathSuffix(g, p, d);
    if p[d] in Names(resolved) {
      NotReached(s, now, resolved, p[d], e);
    } else if d < |p| - 1 {
      assert TakesFirst(g, p[d], p[d + 1], e);
      var k :| 0 <= k < |Succ(g, p[d])| && FirstAt(g, p[d], p[d + 1], e, k);
      RunsOverEach(s, now, p, d, k, 0, resolved);
    }
  }

  lemma PathSuffix(g: Graph, p: seq<Name>, d: nat)
    requires IsPath(g, p) && d < |p|
    ensures Reaches(g, p[d], p[|p| - 1]) && IsPath(g, p[..d + 1])
  {
    var q := p[d..];
    forall i | 0 <= i < |q| - 1
      ensures q[i + 1] in Succ(g, q[i])
    {
      assert p[d + i + 1] in Succ(g, p[d + i]);
    }
    assert PathBetween(g, q, p[d], p[|p| - 1]);
  }

  lemma {:induction false} RunsOverEach(
    s: Storage, now: u32, p: seq<Name>, d: nat, k: nat, j: nat, resolved: Resolution)
    requires Acyclic(s.dependencies) && IsFirstPath(s.dependencies, p)
    requires |p| - 1 == MAX_RECURSION_DEPTH && Succ(s.dependencies, p[|p| - 1]) != [] && d < |p| - 1
    requires DependencyOrdered(s, now, resolved) && p[|p| - 1] !in Names(resolved)
    requires forall x :: x in p[..d + 1] ==> x !in Names(resolved)
    requires j <= k < |Succ(s.dependencies, p[d])|
    requires FirstAt(s.dependencies, p[d], p[d + 1], p[|p| - 1], k)
    ensures ResolveEach(s, now, Succ(s.dependencies, p[d])[j..], p[..d] + [p[d]], resolved, d + 1).Failure?
    decreases |p| - d, 0, k - j
  {
    var g, e, names := s.dependencies, p[|p| - 1], Succ(s.dependencies, p[d]);
    var stack := p[..d + 1];
    assert p[..d] + [p[d]] == stack;
    assert names[j..][0] == names[j] && names[j..][1..] == names[j + 1..];
    if j == k {
      RunsOver(s, now, p, d + 1, resolved);
    } else {
      PathSuffix(g, p, d);
      ExtendPath(g, p[..d], p[d], names[j]);
      ResolveMeaning(s, now, names[j], stack, resolved, d + 1);
      var first := ResolveFrom(s, now, names[j], stack, resolved, d + 1);
      if first.Success? {
        NotAdded(s.dependencies, names[j], resolved, first.value, e);
        RunsOverEach(s, now, p, d, k, j + 1, first.value);
      }
    }
  }

  lemma NotAdded(g: Graph, name: Name, before: Resolution, after: Resolution, e: Name)
    requires Extends(g, name, before, after) && !Reaches(g, name, e) && e !in Names(before)
    ensures e !in Names(after)
  {
    forall i | 0 <= i < |after|
      ensures Names(after)[i] != e
    {
      if i < |before| {
        assert Names(before)[i] == Names(after)[i];
      } else {
        assert Reaches(g, name, after[i].0);
      }
    }
  }

  /** On an acyclic graph a resolution succeeds exactly when the router runs, every
      reachable route is live, and no route with dependencies is first met at depth ten. */
  lemma ResolutionSucceedsIff(s: Storage, now: u32, name: Name)
    requires Acyclic(s.dependencies)
    ensures ResolveWithDependencies(s, now, name).Success?
            <==> !s.paused && AllReachableLive(s, now, name) && FirstPathsFit(s.dependencies, name)
  {
    var g := s.dependencies;
    assert IsPath(g, [] + [name]);
    ReachesSelf(g, name);
    if ResolveWithDependencies(s, now, name).Success? {
      ResolutionIsExact(s, now, name);
      forall p | IsFirstPath(g, p) && p[0] == name && |p| - 1 == MAX_RECURSION_DEPTH
        ensures Succ(g, p[|p| - 1]) == []
      {
        if Succ(g, p[|p| - 1]) != [] {
          assert p[..0] == [];
          RunsOver(s, now, p, 0, []);
        }
      }
    }
    if !s.paused && AllReachableLive(s, now, name) && FirstPathsFit(g, name) {
      ResolveMeaning(s, now, name, [], [], 0);
      StaysWithin(s, now, name, name, [], []);
    }
  }
}
