/**
 * Which order the sort of a custom-data plan gives two definitions that do not depend on each other
 * (src/provisioning/runner.ts): the one reached first, level by level down the traversal.
 */
module PlanOrder {
  import opened Wrappers
  import opened Contracts
  import opened TopoSort

  // ---- Reaching --------------------------------------------------------------------------------------

  ghost predicate IsWalkBetween(plan: Plan, walk: seq<string>, a: string, b: string) {
    walk != [] && IsWalk(plan, walk) && walk[0] == a && walk[|walk| - 1] == b
  }

  /** The definition is the other one or needs it, directly or not. */
  ghost predicate Reaches(plan: Plan, a: string, b: string) {
    exists walk :: IsWalkBetween(plan, walk, a, b)
  }

  lemma ReachesItself(plan: Plan, a: string)
    requires a in plan
    ensures Reaches(plan, a, a)
  {
    assert IsWalkBetween(plan, [a], a, a);
  }

  lemma ReachesThrough(plan: Plan, a: string, t: string, b: string)
    requires a in plan && t in Deps(plan, a) && Reaches(plan, t, b)
    ensures Reaches(plan, a, b)
  {
    var walk :| IsWalkBetween(plan, walk, t, b);
    var longer := [a] + walk;
    forall i | 0 <= i < |longer| - 1 ensures longer[i + 1] in Deps(plan, longer[i]) {
      assert i > 0 ==> longer[i] == walk[i - 1] && longer[i + 1] == walk[i];
    }
    assert IsWalkBetween(plan, longer, a, b);
  }

  lemma NextOnTheWay(plan: Plan, a: string, b: string) returns (t: string)
    requires Reaches(plan, a, b) && a != b
    ensures a in plan && t in Deps(plan, a) && Reaches(plan, t, b)
  {
    var walk :| IsWalkBetween(plan, walk, a, b);
    assert |walk| >= 2;
    t := walk[1];
    assert walk[0 + 1] in Deps(plan, walk[0]);
    assert forall i :: 0 <= i < |walk| - 1 ==> walk[1..][i] == walk[i + 1];
    assert IsWalkBetween(plan, walk[1..], t, b);
  }

  /** Neither needs the other. */
  ghost predicate Independent(plan: Plan, y: string, z: string) {
    y != z && !Reaches(plan, y, z) && !Reaches(plan, z, y)
  }

  /** Two definitions without in-plan dependencies are independent. */
  lemma LeavesAreIndependent(plan: Plan, y: string, z: string)
    requires y in plan && z in plan && y != z && Deps(plan, y) == [] && Deps(plan, z) == []
    ensures Independent(plan, y, z)
  {
    if Reaches(plan, y, z) {
      var t := NextOnTheWay(plan, y, z);
    } else if Reaches(plan, z, y) {
      var t := NextOnTheWay(plan, z, y);
    }
  }

  // ---- Which comes first -----------------------------------------------------------------------------

  /** The least position in a list of a name that reaches the given one; the length if none does. */
  ghost function First(plan: Plan, names: seq<string>, n: string): (i: nat)
    ensures i <= |names|
    ensures i < |names| ==> Reaches(plan, names[i], n)
    ensures forall j :: 0 <= j < i ==> !Reaches(plan, names[j], n)
  {
    if names == [] || Reaches(plan, names[0], n) then 0 else 1 + First(plan, names[1..], n)
  }

  /**
   * Whether y is reached before z: by an earlier name of the list, or, if the same name is the first to
   * reach both, by an earlier one of that name's own dependencies, and so on down the path.
   */
  ghost predicate Earlier(plan: Plan, path: set<string>, names: seq<string>, y: string, z: string)
    decreases plan.Keys - path
  {
    var i, j := First(plan, names, y), First(plan, names, z);
    if i != j then i < j
    else if i == |names| || names[i] !in plan || names[i] in path then false
    else
      assert names[i] in plan.Keys - path && names[i] !in plan.Keys - (path + {names[i]});
      Earlier(plan, path + {names[i]}, Deps(plan, names[i]), y, z)
  }

  ghost predicate ListedBefore(defs: seq<Definition>, y: string, z: string) {
    exists p, q :: 0 <= p < q < |defs| && defs[p].name == y && defs[q].name == z
  }

  // ---- What a traversal marks ------------------------------------------------------------------------

  ghost predicate AnyReaches(plan: Plan, names: seq<string>, n: string) {
    exists k :: 0 <= k < |names| && Reaches(plan, names[k], n)
  }

  /** A visit marks only what its name reaches. */
  lemma {:induction false} VisitMarksReached(plan: Plan, st: Dfs, name: string, n: string)
    requires name in plan && Visit(plan, st, name).Success?
    requires n in Visit(plan, st, name).value.marks && n !in st.marks
    ensures Reaches(plan, name, n)
    decreases plan.Keys - st.marks.Keys, 0, 0
  {
    if n == name {
      ReachesItself(plan, name);
    } else {
      var inside := Dfs(st.marks[name := Visiting], st.stack + [name], st.sorted);
      assert name in plan.Keys - st.marks.Keys && name !in plan.Keys - inside.marks.Keys;
      var deps := Deps(plan, name);
      VisitAllMarksReached(plan, inside, deps, n);
      var k :| 0 <= k < |deps| && Reaches(plan, deps[k], n);
      ReachesThrough(plan, name, deps[k], n);
    }
  }

  lemma {:induction false} VisitAllMarksReached(plan: Plan, st: Dfs, names: seq<string>, n: string)
    requires forall m :: m in names ==> m in plan
    requires VisitAll(plan, st, names).Success?
    requires n in VisitAll(plan, st, names).value.marks && n !in st.marks
    ensures AnyReaches(plan, names, n)
    decreases plan.Keys - st.marks.Keys, 1, |names|
  {
    if names != [] {
      var next := Visit(plan, st, names[0]).value;
      assert plan.Keys - next.marks.Keys <= plan.Keys - st.marks.Keys;
      if n in next.marks {
        VisitMarksReached(plan, st, names[0], n);
      } else {
        VisitAllMarksReached(plan, next, names[1..], n);
        var k :| 0 <= k < |names[1..]| && Reaches(plan, names[1..][k], n);
        assert Reaches(plan, names[k + 1], n);
      }
    }
  }

  /** What a finished name needs is finished. */
  lemma DoneNeedsDone(plan: Plan, st: Dfs, n: string, t: string)
    requires Valid(plan, st) && n in st.marks && st.marks[n] == Done && n in plan && t in Deps(plan, n)
    ensures t in st.marks && st.marks[t] == Done
  {
    assert Precedes(st.sorted, n, |st.sorted|);
    var i :| 0 <= i < |st.sorted| && st.sorted[i].name == n;
    assert IsListed(plan, st, st.sorted[i]);
    assert Precedes(st.sorted, t, i);
    var j :| 0 <= j < i && st.sorted[j].name == t;
    assert IsListed(plan, st, st.sorted[j]);
  }

  lemma {:induction false} DoneWalk(plan: Plan, st: Dfs, walk: seq<string>)
    requires Valid(plan, st) && walk != [] && IsWalk(plan, walk)
    requires walk[0] in st.marks && st.marks[walk[0]] == Done
    ensures walk[|walk| - 1] in st.marks && st.marks[walk[|walk| - 1]] == Done
    decreases |walk|
  {
    if |walk| > 1 {
      assert walk[0 + 1] in Deps(plan, walk[0]);
      DoneNeedsDone(plan, st, walk[0], walk[1]);
      assert forall i :: 0 <= i < |walk| - 1 ==> walk[1..][i] == walk[i + 1];
      DoneWalk(plan, st, walk[1..]);
    }
  }

  lemma DoneReachesDone(plan: Plan, st: Dfs, a: string, b: string)
    requires Valid(plan, st) && a in st.marks && st.marks[a] == Done && Reaches(plan, a, b)
    ensures b in st.marks && st.marks[b] == Done
    ensures Precedes(st.sorted, b, |st.sorted|)
  {
    var walk :| IsWalkBetween(plan, walk, a, b);
    DoneWalk(plan, st, walk);
  }

  // ---- The order of the output -----------------------------------------------------------------------

  /** A name listed by now comes before one that is only listed later. */
  lemma ListedLater(plan: Plan, now: Dfs, out: Dfs, y: string, z: string)
    requires Valid(plan, now) && Valid(plan, out) && now.sorted <= out.sorted
    requires Precedes(now.sorted, y, |now.sorted|) && z !in now.marks
    requires Precedes(out.sorted, z, |out.sorted|)
    ensures ListedBefore(out.sorted, y, z)
  {
    var p :| 0 <= p < |now.sorted| && now.sorted[p].name == y;
    var q :| 0 <= q < |out.sorted| && out.sorted[q].name == z;
    assert out.sorted[p] == now.sorted[p];
    assert forall r :: 0 <= r < |now.sorted| ==> out.sorted[r] == now.sorted[r] && IsListed(plan, now, now.sorted[r]);
  }

  lemma ListedOn(a: seq<Definition>, b: seq<Definition>, y: string, z: string)
    requires a <= b && ListedBefore(a, y, z)
    ensures ListedBefore(b, y, z)
  {
    var p, q :| 0 <= p < q < |a| && a[p].name == y && a[q].name == z;
    assert b[p] == a[p] && b[q] == a[q];
  }

  /** The list is traversed from a valid state in which neither name has been seen, and reaches both. */
  ghost predicate Ready(plan: Plan, st: Dfs, names: seq<string>, path: set<string>, y: string, z: string) {
    && WellNamed(plan) && Valid(plan, st) && Independent(plan, y, z)
    && (forall n :: n in names ==> n in plan && Continues(plan, st, n))
    && y !in st.marks && z !in st.marks && path <= st.marks.Keys
    && First(plan, names, y) < |names| && First(plan, names, z) < |names|
  }

  ghost predicate OrderedAs(plan: Plan, out: Dfs, path: set<string>, names: seq<string>, y: string, z: string) {
    if Earlier(plan, path, names, y, z) then ListedBefore(out.sorted, y, z) else ListedBefore(out.sorted, z, y)
  }

  lemma {:induction false} TraversalOrder(
      plan: Plan, st: Dfs, names: seq<string>, path: set<string>, y: string, z: string)
    requires Ready(plan, st, names, path, y, z) && VisitAll(plan, st, names).Success?
    ensures OrderedAs(plan, VisitAll(plan, st, names).value, path, names, y, z)
    decreases plan.Keys - st.marks.Keys, |names|
  {
    var head, rest := names[0], names[1..];
    assert head in names;
    VisitValid(plan, st, head);
    var next := Visit(plan, st, head).value;
    var i, j := First(plan, names, y), First(plan, names, z);
    if i == 0 && j == 0 {
      BothUnderHead(plan, st, head, path, y, z);
      TraversalOrder(plan, Opened(st, head), Deps(plan, head), path + {head}, y, z);
      HeadDecides(plan, st, names, path, y, z);
    } else if i == 0 {
      HeadReachesOne(plan, st, names, path, y, z);
    } else if j == 0 {
      HeadReachesOne(plan, st, names, path, z, y);
    } else {
      RestIsReady(plan, st, names, path, y, z);
      TraversalOrder(plan, next, rest, path, y, z);
      RestDecides(plan, st, names, path, y, z);
    }
  }

  /** If the first name reaches one of the two only, that one comes first. */
  lemma HeadReachesOne(plan: Plan, st: Dfs, names: seq<string>, path: set<string>, y: string, z: string)
    requires Ready(plan, st, names, path, y, z) && VisitAll(plan, st, names).Success?
    requires First(plan, names, y) == 0 < First(plan, names, z)
    ensures ListedBefore(VisitAll(plan, st, names).value.sorted, y, z)
  {
    var head, rest := names[0], names[1..];
    assert head in names;
    VisitValid(plan, st, head);
    VisitAllValid(plan, st, names);
    var next, out := Visit(plan, st, head).value, VisitAll(plan, st, names).value;
    BothDone(plan, out, names, y, z);
    DoneReachesDone(plan, next, head, y);
    Untouched(plan, st, head, z);
    assert forall n :: n in rest ==> n in names;
    RestExtends(plan, next, rest);
    ListedLater(plan, next, out, y, z);
  }

  /** If it reaches neither, the rest is traversed with neither seen. */
  lemma RestIsReady(plan: Plan, st: Dfs, names: seq<string>, path: set<string>, y: string, z: string)
    requires Ready(plan, st, names, path, y, z) && VisitAll(plan, st, names).Success?
    requires First(plan, names, y) > 0 && First(plan, names, z) > 0
    ensures var next := Visit(plan, st, names[0]).value;
            && Ready(plan, next, names[1..], path, y, z)
            && plan.Keys - next.marks.Keys <= plan.Keys - st.marks.Keys
  {
    var head, rest := names[0], names[1..];
    assert head in names;
    VisitValid(plan, st, head);
    Untouched(plan, st, head, y);
    Untouched(plan, st, head, z);
    assert forall n :: n in rest ==> n in names;
    FirstOfRest(plan, names, y);
    FirstOfRest(plan, names, z);
  }

  lemma RestDecides(plan: Plan, st: Dfs, names: seq<string>, path: set<string>, y: string, z: string)
    requires Ready(plan, st, names, path, y, z) && VisitAll(plan, st, names).Success?
    requires First(plan, names, y) > 0 && First(plan, names, z) > 0
    requires forall n :: n in names[1..] ==> n in plan
    requires OrderedAs(plan, VisitAll(plan, Visit(plan, st, names[0]).value, names[1..]).value, path, names[1..], y, z)
    ensures OrderedAs(plan, VisitAll(plan, st, names).value, path, names, y, z)
  {
    FirstOfRest(plan, names, y);
    FirstOfRest(plan, names, z);
    var i := First(plan, names, y);
    assert names[i] == names[1..][i - 1];
  }

  lemma FirstOfRest(plan: Plan, names: seq<string>, n: string)
    requires names != [] && First(plan, names, n) > 0
    ensures First(plan, names[1..], n) == First(plan, names, n) - 1
  {
  }

  /** What a name does not reach keeps its lack of a mark. */
  lemma Untouched(plan: Plan, st: Dfs, head: string, n: string)
    requires head in plan && Visit(plan, st, head).Success? && n !in st.marks && !Reaches(plan, head, n)
    ensures n !in Visit(plan, st, head).value.marks
  {
    if n in Visit(plan, st, head).value.marks {
      VisitMarksReached(plan, st, head, n);
    }
  }

  lemma RestExtends(plan: Plan, next: Dfs, rest: seq<string>)
    requires WellNamed(plan) && Valid(plan, next)
    requires forall n :: n in rest ==> n in plan && Continues(plan, next, n)
    requires VisitAll(plan, next, rest).Success?
    ensures next.sorted <= VisitAll(plan, next, rest).value.sorted
  {
    VisitAllValid(plan, next, rest);
  }

  lemma BothDone(plan: Plan, out: Dfs, names: seq<string>, y: string, z: string)
    requires Valid(plan, out) && forall n :: n in names ==> n in out.marks && out.marks[n] == Done
    requires First(plan, names, y) < |names| && First(plan, names, z) < |names|
    ensures Precedes(out.sorted, y, |out.sorted|) && Precedes(out.sorted, z, |out.sorted|)
  {
    DoneReachesDone(plan, out, names[First(plan, names, y)], y);
    DoneReachesDone(plan, out, names[First(plan, names, z)], z);
  }

  /** The state in which the dependencies of a name are visited. */
  function Opened(st: Dfs, name: string): Dfs {
    Dfs(st.marks[name := Visiting], st.stack + [name], st.sorted)
  }

  /** A name that reaches both is opened by its visit, and reaches both through its dependencies. */
  lemma BothUnderHead(plan: Plan, st: Dfs, head: string, path: set<string>, y: string, z: string)
    requires WellNamed(plan) && Valid(plan, st) && Independent(plan, y, z)
    requires head in plan && Continues(plan, st, head) && Visit(plan, st, head).Success?
    requires y !in st.marks && z !in st.marks && path <= st.marks.Keys
    requires Reaches(plan, head, y) && Reaches(plan, head, z)
    ensures head !in st.marks && VisitAll(plan, Opened(st, head), Deps(plan, head)).Success?
    ensures Ready(plan, Opened(st, head), Deps(plan, head), path + {head}, y, z)
    ensures plan.Keys - Opened(st, head).marks.Keys < plan.Keys - st.marks.Keys
  {
    if head in st.marks && st.marks[head] == Done {
      DoneReachesDone(plan, st, head, y);
    }
    Open(plan, st, head);
    assert head in plan.Keys - st.marks.Keys && head !in plan.Keys - Opened(st, head).marks.Keys;
    assert forall n :: n in Deps(plan, head) ==> Continues(plan, Opened(st, head), n);
    ThroughDeps(plan, head, y);
    ThroughDeps(plan, head, z);
  }

  lemma ThroughDeps(plan: Plan, head: string, n: string)
    requires head in plan && head != n && Reaches(plan, head, n)
    ensures First(plan, Deps(plan, head), n) < |Deps(plan, head)|
  {
    var t := NextOnTheWay(plan, head, n);
    var k :| 0 <= k < |Deps(plan, head)| && Deps(plan, head)[k] == t;
  }

  /** If the first name reaches both, the order under it is the order of the whole. */
  lemma HeadDecides(plan: Plan, st: Dfs, names: seq<string>, path: set<string>, y: string, z: string)
    requires Ready(plan, st, names, path, y, z) && VisitAll(plan, st, names).Success?
    requires First(plan, names, y) == 0 == First(plan, names, z) && names[0] !in st.marks
    requires VisitAll(plan, Opened(st, names[0]), Deps(plan, names[0])).Success?
    requires OrderedAs(plan, VisitAll(plan, Opened(st, names[0]), Deps(plan, names[0])).value,
                       path + {names[0]}, Deps(plan, names[0]), y, z)
    ensures OrderedAs(plan, VisitAll(plan, st, names).value, path, names, y, z)
  {
    var head, rest := names[0], names[1..];
    assert head in names;
    VisitValid(plan, st, head);
    var next := Visit(plan, st, head).value;
    var inner := VisitAll(plan, Opened(st, head), Deps(plan, head)).value;
    assert inner.sorted <= next.sorted;
    assert forall n :: n in rest ==> n in names;
    RestExtends(plan, next, rest);
    var out := VisitAll(plan, st, names).value;
    assert Earlier(plan, path, names, y, z) == Earlier(plan, path + {head}, Deps(plan, head), y, z);
    if Earlier(plan, path, names, y, z) {
      ListedOn(inner.sorted, out.sorted, y, z);
    } else {
      ListedOn(inner.sorted, out.sorted, z, y);
    }
  }

  // ---- Theorems --------------------------------------------------------------------------------------

  lemma NotBothWays(defs: seq<Definition>, y: string, z: string)
    requires DistinctNames(defs) && ListedBefore(defs, y, z)
    ensures !ListedBefore(defs, z, y)
  {
    var p, q :| 0 <= p < q < |defs| && defs[p].name == y && defs[q].name == z;
    forall r, s | 0 <= r < |defs| && defs[r].name == z && 0 <= s < |defs| && defs[s].name == y ensures s < r {
      assert r == q && s == p;
    }
  }

  /**
   * Of two definitions that do not need each other, the sorted plan lists first the one that the
   * traversal reaches first: exactly then, for every plan that can be sorted.
   */
  lemma IndependentOrderExactly(defs: seq<Definition>, y: string, z: string)
    requires Sort(defs).Success? && y in ByName(defs) && z in ByName(defs) && Independent(ByName(defs), y, z)
    ensures ListedBefore(Sort(defs).value, y, z) <==> Earlier(ByName(defs), {}, Names(defs), y, z)
  {
    var plan, names := ByName(defs), Names(defs);
    SortCorrect(defs);
    FirstDeclared(plan, names, y);
    FirstDeclared(plan, names, z);
    assert |defs| > 1 by {
      var a :| 0 <= a < |names| && names[a] == y;
      var b :| 0 <= b < |names| && names[b] == z;
      assert a != b;
    }
    assert Valid(plan, START);
    TraversalOrder(plan, START, names, {}, y, z);
    if ListedBefore(Sort(defs).value, y, z) {
      NotBothWays(Sort(defs).value, y, z);
    }
  }

  lemma FirstDeclared(plan: Plan, names: seq<string>, n: string)
    requires n in plan && n in names
    ensures First(plan, names, n) < |names|
  {
    ReachesItself(plan, n);
    var k :| 0 <= k < |names| && names[k] == n;
  }

  /**
   * Two definitions without in-plan dependencies, declared one after the other, keep their order if and
   * only if the first is also reached first. If different declarations are the first to need them, the
   * earlier of those declarations decides.
   */
  lemma LeavesKeepTheirOrderExactlyWhen(defs: seq<Definition>, a: nat, b: nat)
    requires Sort(defs).Success? && a < b < |defs| && defs[a].name != defs[b].name
    requires defs[a].name in ByName(defs) && Deps(ByName(defs), defs[a].name) == []
    requires defs[b].name in ByName(defs) && Deps(ByName(defs), defs[b].name) == []
    ensures var plan, names, y, z := ByName(defs), Names(defs), defs[a].name, defs[b].name;
            && (ListedBefore(Sort(defs).value, y, z) <==> Earlier(plan, {}, names, y, z))
            && (First(plan, names, y) != First(plan, names, z) ==>
                  (ListedBefore(Sort(defs).value, y, z) <==> First(plan, names, y) < First(plan, names, z)))
  {
    LeavesAreIndependent(ByName(defs), defs[a].name, defs[b].name);
    IndependentOrderExactly(defs, defs[a].name, defs[b].name);
  }
}
