/**
 * The depth-first ordering of a custom-data plan (`topoSortCustomData`).
 *
 * `Visit` and `Sort` specify the traversal on values; the class `Sorter` is the traversal as the
 * source runs it, on three variables that the nested closure updates. The theorems say what the
 * traversal is for, without reference to how it walks.
 */
module TopoSort {
  import opened Wrappers
  import opened Contracts

  /** The definitions of a plan by name. */
  type Plan = map<string, Definition>

  ghost predicate WellNamed(plan: Plan) {
    forall n :: n in plan ==> plan[n].name == n
  }

  /** Of several definitions with one name, the last declared is kept. */
  function ByName(defs: seq<Definition>): (plan: Plan)
    ensures WellNamed(plan)
    ensures forall n :: n in plan <==> n in Names(defs)
  {
    if defs == [] then map[]
    else
      var last := defs[|defs| - 1];
      ByName(defs[..|defs| - 1])[last.name := last]
  }

  /** Whether a relationship makes an edge: a custom target of the same plan, other than itself. */
  predicate IsEdge(plan: Plan, owner: string, r: Relationship) {
    r.kind == Custom && r.targetSchema in plan && r.targetSchema != owner
  }

  function Targets(plan: Plan, owner: string, rels: seq<Relationship>): (targets: seq<string>)
    ensures forall t :: t in targets ==> t in plan && t != owner
    ensures forall t :: t in targets <==>
              exists i :: 0 <= i < |rels| && IsEdge(plan, owner, rels[i]) && rels[i].targetSchema == t
  {
    if rels == [] then []
    else
      var r := rels[|rels| - 1];
      var before := Targets(plan, owner, rels[..|rels| - 1]);
      if IsEdge(plan, owner, r) && r.targetSchema !in before then before + [r.targetSchema] else before
  }

  /** The in-plan custom targets of a definition, without repeats, in declaration order. */
  function Deps(plan: Plan, name: string): (deps: seq<string>)
    requires name in plan
    ensures forall t :: t in deps ==> t in plan && t != name
  {
    Targets(plan, name, plan[name].relationships)
  }

  // ---- The traversal ---------------------------------------------------------------------------

  datatype Mark = Visiting | Done

  datatype Dfs = Dfs(marks: map<string, Mark>, stack: seq<string>, sorted: seq<Definition>)

  const START := Dfs(map[], [], [])

  /** Visits one name; a failure carries the names of the reported cycle. */
  function Visit(plan: Plan, st: Dfs, name: string): (r: Result<Dfs, seq<string>>)
    requires name in plan
    ensures r.Success? ==> r.value.stack == st.stack
    ensures r.Success? ==> forall n :: n in st.marks ==> n in r.value.marks
    decreases plan.Keys - st.marks.Keys, 0, 0
  {
    if name in st.marks then
      if st.marks[name] == Done then Success(st) else Failure(st.stack + [name])
    else
      var inside := Dfs(st.marks[name := Visiting], st.stack + [name], st.sorted);
      assert name in plan.Keys - st.marks.Keys && name !in plan.Keys - inside.marks.Keys;
      match VisitAll(plan, inside, Deps(plan, name))
      case Failure(cycle) => Failure(cycle)
      case Success(out) =>
        Success(Dfs(out.marks[name := Done], out.stack[..|out.stack| - 1], out.sorted + [plan[name]]))
  }

  function VisitAll(plan: Plan, st: Dfs, names: seq<string>): (r: Result<Dfs, seq<string>>)
    requires forall n :: n in names ==> n in plan
    ensures r.Success? ==> r.value.stack == st.stack
    ensures r.Success? ==> forall n :: n in st.marks ==> n in r.value.marks
    decreases plan.Keys - st.marks.Keys, 1, |names|
  {
    if names == [] then Success(st)
    else
      match Visit(plan, st, names[0])
      case Failure(cycle) => Failure(cycle)
      case Success(next) =>
        assert plan.Keys - next.marks.Keys <= plan.Keys - st.marks.Keys;
        VisitAll(plan, next, names[1..])
  }

  /** A plan of at most one definition is returned as it is. */
  function Sort(defs: seq<Definition>): Result<seq<Definition>, seq<string>> {
    if |defs| <= 1 then Success(defs)
    else
      match VisitAll(ByName(defs), START, Names(defs))
      case Failure(cycle) => Failure(cycle)
      case Success(out) => Success(out.sorted)
  }

  // ---- The traversal as the source runs it ----------------------------------------------------

  class Sorter {
    const plan: Plan
    var marks: map<string, Mark>
    var stack: seq<string>
    var sorted: seq<Definition>

    constructor (plan: Plan)
      ensures this.plan == plan && View() == START
    {
      this.plan := plan;
      marks, stack, sorted := map[], [], [];
    }

    ghost function View(): Dfs
      reads this
    {
      Dfs(marks, stack, sorted)
    }

    /** The closure `visit`: the thrown report, if any, is the result. */
    method VisitInPlace(name: string) returns (cycle: Option<seq<string>>)
      requires name in plan
      modifies this
      ensures cycle.None? ==> Visit(plan, old(View()), name) == Success(View())
      ensures cycle.Some? ==> Visit(plan, old(View()), name) == Failure(cycle.value)
      decreases plan.Keys - marks.Keys
    {
      if name in marks && marks[name] == Done {
        return None;
      }
      if name in marks {
        return Some(stack + [name]);
      }
      ghost var before := View();
      marks := marks[name := Visiting];
      stack := stack + [name];
      assert name in plan.Keys - before.marks.Keys && name !in plan.Keys - marks.Keys;
      ghost var inside := View();
      var deps := Deps(plan, name);
      var i := 0;
      while i < |deps|
        invariant 0 <= i <= |deps|
        invariant forall n :: n in inside.marks ==> n in marks
        invariant stack == inside.stack
        invariant VisitAll(plan, inside, deps) == VisitAll(plan, View(), deps[i..])
      {
        assert deps[i..][1..] == deps[i + 1..];
        assert plan.Keys - marks.Keys < plan.Keys - before.marks.Keys;
        cycle := VisitInPlace(deps[i]);
        if cycle.Some? {
          return;
        }
        i := i + 1;
      }
      stack := stack[..|stack| - 1];
      marks := marks[name := Done];
      sorted := sorted + [plan[name]];
      return None;
    }
  }

  /** `topoSortCustomData`. */
  method SortPlan(defs: seq<Definition>) returns (r: Result<seq<Definition>, seq<string>>)
    ensures r == Sort(defs)
  {
    if |defs| <= 1 {
      return Success(defs);
    }
    var plan: Plan := map[];
    for i := 0 to |defs|
      invariant plan == ByName(defs[..i])
    {
      assert defs[..i + 1][..i] == defs[..i];
      plan := plan[defs[i].name := defs[i]];
    }
    assert defs[..|defs|] == defs;
    var sorter := new Sorter(plan);
    var names := Names(defs);
    for i := 0 to |defs|
      invariant sorter.plan == plan
      invariant VisitAll(plan, START, names) == VisitAll(plan, sorter.View(), names[i..])
    {
      assert names[i..][1..] == names[i + 1..];
      assert names[i] in names;
      var cycle := sorter.VisitInPlace(names[i]);
      if cycle.Some? {
        return Failure(cycle.value);
      }
    }
    return Success(sorter.sorted);
  }

  // ---- What an ordering is --------------------------------------------------------------------

  /** Every step of the walk is a dependency edge. */
  ghost predicate IsWalk(plan: Plan, walk: seq<string>) {
    && (forall i :: 0 <= i < |walk| ==> walk[i] in plan)
    && (forall i :: 0 <= i < |walk| - 1 ==> walk[i + 1] in Deps(plan, walk[i]))
  }

  ghost predicate Acyclic(plan: Plan) {
    forall walk :: IsWalk(plan, walk) && |walk| >= 2 ==> walk[0] != walk[|walk| - 1]
  }

  /** Each dependency is listed before the definition that needs it. */
  ghost predicate Ordered(plan: Plan, defs: seq<Definition>) {
    forall i, t :: 0 <= i < |defs| && defs[i].name in plan && t in Deps(plan, defs[i].name) ==> Precedes(defs, t, i)
  }

  ghost predicate Precedes(defs: seq<Definition>, name: string, i: nat)
    requires i <= |defs|
  {
    exists j :: 0 <= j < i && defs[j].name == name
  }

  /** A report that ends in a name it already holds, along dependency edges only. */
  ghost predicate IsCycleReport(plan: Plan, report: seq<string>) {
    && |report| >= 2
    && IsWalk(plan, report)
    && exists i :: 0 <= i < |report| - 1 && report[i] == report[|report| - 1]
  }

  // ---- The invariant of the traversal ----------------------------------------------------------

  ghost predicate Valid(plan: Plan, st: Dfs) {
    StackValid(plan, st) && SortedValid(plan, st)
  }

  /** The stack is a walk, and holds the names under visit. */
  ghost predicate StackValid(plan: Plan, st: Dfs) {
    && IsWalk(plan, st.stack)
    && (forall n :: n in st.marks ==> n in plan)
    && (forall n :: n in st.stack ==> n in st.marks && st.marks[n] == Visiting)
    && (forall n :: n in st.marks && st.marks[n] == Visiting ==> n in st.stack)
  }

  /** The output is ordered and holds the finished names, each once. */
  ghost predicate SortedValid(plan: Plan, st: Dfs) {
    && (forall i :: 0 <= i < |st.sorted| ==> IsListed(plan, st, st.sorted[i]))
    && (forall n :: n in st.marks && st.marks[n] == Done ==> Precedes(st.sorted, n, |st.sorted|))
    && DistinctNames(st.sorted)
    && Ordered(plan, st.sorted)
  }

  ghost predicate IsListed(plan: Plan, st: Dfs, d: Definition) {
    d.name in plan && plan[d.name] == d && d.name in st.marks && st.marks[d.name] == Done
  }

  /** The next name continues the walk on the stack. */
  ghost predicate Continues(plan: Plan, st: Dfs, name: string) {
    && name in plan
    && (st.stack != [] && st.stack[|st.stack| - 1] in plan ==> name in Deps(plan, st.stack[|st.stack| - 1]))
  }

  /** What one visit adds: finished names stay finished, those on the stack stay there. */
  ghost predicate Extends(st: Dfs, out: Dfs) {
    && out.stack == st.stack
    && st.sorted <= out.sorted
    && (forall n :: n in st.marks ==> n in out.marks && out.marks[n] == st.marks[n])
    && (forall n :: n in out.marks && n !in st.marks ==> out.marks[n] == Done)
  }

  lemma OrderedAppend(plan: Plan, defs: seq<Definition>, d: Definition)
    requires Ordered(plan, defs) && d.name in plan
    requires forall t :: t in Deps(plan, d.name) ==> Precedes(defs, t, |defs|)
    ensures Ordered(plan, defs + [d])
  {
    var all := defs + [d];
    forall i, t | 0 <= i < |all| && all[i].name in plan && t in Deps(plan, all[i].name)
      ensures Precedes(all, t, i)
    {
      assert i < |defs| ==> all[i] == defs[i];
      assert Precedes(defs, t, i);
      var j :| 0 <= j < i && defs[j].name == t;
      assert all[j].name == t;
    }
  }

  /** Opening a name that has no mark yet. */
  lemma Open(plan: Plan, st: Dfs, name: string)
    requires WellNamed(plan) && Valid(plan, st) && Continues(plan, st, name) && name !in st.marks
    ensures Valid(plan, Dfs(st.marks[name := Visiting], st.stack + [name], st.sorted))
  {
    var inside := Dfs(st.marks[name := Visiting], st.stack + [name], st.sorted);
    assert StackValid(plan, inside);
    forall i | 0 <= i < |inside.sorted| ensures IsListed(plan, inside, inside.sorted[i]) {
      assert IsListed(plan, st, st.sorted[i]);
    }
    assert SortedValid(plan, inside);
  }

  lemma {:induction false} VisitValid(plan: Plan, st: Dfs, name: string)
    requires WellNamed(plan) && Valid(plan, st) && Continues(plan, st, name)
    ensures var r := Visit(plan, st, name);
            match r
            case Success(out) => Valid(plan, out) && Extends(st, out) && name in out.marks && out.marks[name] == Done
            case Failure(report) => IsCycleReport(plan, report)
    decreases plan.Keys - st.marks.Keys, 0, 0
  {
    if name in st.marks {
      MarkedValid(plan, st, name);
    } else {
      var inside := Dfs(st.marks[name := Visiting], st.stack + [name], st.sorted);
      assert name in plan.Keys - st.marks.Keys && name !in plan.Keys - inside.marks.Keys;
      var deps := Deps(plan, name);
      Open(plan, st, name);
      assert forall n :: n in deps ==> Continues(plan, inside, n);
      VisitAllValid(plan, inside, deps);
      if VisitAll(plan, inside, deps).Success? {
        Finish(plan, st, name, inside, VisitAll(plan, inside, deps).value);
      }
    }
  }

  /** A name met again is finished, or closes a cycle. */
  lemma MarkedValid(plan: Plan, st: Dfs, name: string)
    requires Valid(plan, st) && Continues(plan, st, name) && name in st.marks
    ensures st.marks[name] == Visiting ==> IsCycleReport(plan, st.stack + [name])
    ensures Extends(st, st)
  {
    if st.marks[name] == Visiting {
      var report := st.stack + [name];
      assert name in st.stack;
      var i :| 0 <= i < |st.stack| && st.stack[i] == name;
      assert report[i] == report[|report| - 1];
    }
  }

  /** Closing a name whose dependencies are all finished. */
  lemma Finish(plan: Plan, st: Dfs, name: string, inside: Dfs, out: Dfs)
    requires WellNamed(plan) && Valid(plan, st) && name in plan && name !in st.marks
    requires inside == Dfs(st.marks[name := Visiting], st.stack + [name], st.sorted)
    requires Valid(plan, out) && Extends(inside, out)
    requires forall n :: n in Deps(plan, name) ==> n in out.marks && out.marks[n] == Done
    ensures var last := Dfs(out.marks[name := Done], out.stack[..|out.stack| - 1], out.sorted + [plan[name]]);
            Valid(plan, last) && Extends(st, last)
  {
    var last := Dfs(out.marks[name := Done], out.stack[..|out.stack| - 1], out.sorted + [plan[name]]);
    assert last.stack == st.stack;
    FinishStack(plan, st, name, inside, out, last);
    FinishSorted(plan, name, out, last);
  }

  lemma FinishStack(plan: Plan, st: Dfs, name: string, inside: Dfs, out: Dfs, last: Dfs)
    requires StackValid(plan, st) && name in plan && name !in st.marks
    requires inside == Dfs(st.marks[name := Visiting], st.stack + [name], st.sorted)
    requires StackValid(plan, out) && Extends(inside, out)
    requires last == Dfs(out.marks[name := Done], st.stack, out.sorted + [plan[name]])
    ensures StackValid(plan, last) && Extends(st, last)
  {
    forall n | n in last.marks && last.marks[n] == Visiting ensures n in last.stack {
      assert n in out.stack && n != name;
    }
    forall n | n in last.stack ensures n in last.marks && last.marks[n] == Visiting {
      assert n in st.stack && n in inside.marks;
    }
  }

  lemma FinishSorted(plan: Plan, name: string, out: Dfs, last: Dfs)
    requires WellNamed(plan) && SortedValid(plan, out) && name in plan
    requires name in out.marks && out.marks[name] == Visiting
    requires forall n :: n in Deps(plan, name) ==> n in out.marks && out.marks[n] == Done
    requires last.marks == out.marks[name := Done] && last.sorted == out.sorted + [plan[name]]
    ensures SortedValid(plan, last)
  {
    OrderedAppend(plan, out.sorted, plan[name]);
    forall n | n in last.marks && last.marks[n] == Done
      ensures Precedes(last.sorted, n, |last.sorted|)
    {
      if n == name {
        assert last.sorted[|out.sorted|].name == name;
      } else {
        assert Precedes(out.sorted, n, |out.sorted|);
        var j :| 0 <= j < |out.sorted| && out.sorted[j].name == n;
        assert last.sorted[j].name == n;
      }
    }
    forall i | 0 <= i < |last.sorted| ensures IsListed(plan, last, last.sorted[i]) {
      if i < |out.sorted| {
        assert IsListed(plan, out, out.sorted[i]);
      }
    }
    assert forall i :: 0 <= i < |out.sorted| ==> IsListed(plan, out, out.sorted[i]) && out.sorted[i].name != name;
  }

  lemma {:induction false} VisitAllValid(plan: Plan, st: Dfs, names: seq<string>)
    requires WellNamed(plan) && Valid(plan, st)
    requires forall n :: n in names ==> n in plan && Continues(plan, st, n)
    ensures var r := VisitAll(plan, st, names);
            match r
            case Success(out) =>
              Valid(plan, out) && Extends(st, out) && forall n :: n in names ==> n in out.marks && out.marks[n] == Done
            case Failure(report) => IsCycleReport(plan, report)
    decreases plan.Keys - st.marks.Keys, 1, |names|
  {
    if names != [] {
      assert names[0] in names;
      VisitValid(plan, st, names[0]);
      var r := Visit(plan, st, names[0]);
      if r.Success? {
        assert plan.Keys - r.value.marks.Keys <= plan.Keys - st.marks.Keys;
        forall n | n in names[1..] ensures n in plan && Continues(plan, r.value, n) {
          assert n in names && Continues(plan, st, n);
        }
        VisitAllValid(plan, r.value, names[1..]);
        assert forall n :: n in names ==> n == names[0] || n in names[1..];
      }
    }
  }

  // ---- Theorems --------------------------------------------------------------------------------

  /** Along a walk inside an ordering the positions go strictly down. */
  lemma {:induction false} WalkGoesDown(plan: Plan, order: seq<Definition>, walk: seq<string>, i: nat)
    returns (j: nat)
    requires DistinctNames(order) && Ordered(plan, order)
    requires IsWalk(plan, walk) && |walk| >= 2
    requires i < |order| && order[i].name == walk[0]
    ensures j < i && order[j].name == walk[|walk| - 1]
    decreases |walk|
  {
    assert walk[1] in Deps(plan, walk[0]);
    assert Precedes(order, walk[1], i);
    var k :| 0 <= k < i && order[k].name == walk[1];
    if |walk| == 2 {
      j := k;
    } else {
      j := WalkGoesDown(plan, order, walk[1..], k);
    }
  }

  lemma OrderingIsAcyclic(plan: Plan, order: seq<Definition>)
    requires DistinctNames(order) && Ordered(plan, order)
    requires forall n :: n in plan ==> Precedes(order, n, |order|)
    ensures Acyclic(plan)
  {
    forall walk | IsWalk(plan, walk) && |walk| >= 2
      ensures walk[0] != walk[|walk| - 1]
    {
      assert Precedes(order, walk[0], |order|);
      var i :| 0 <= i < |order| && order[i].name == walk[0];
      var j := WalkGoesDown(plan, order, walk, i);
    }
  }

  lemma ReportIsCycle(plan: Plan, report: seq<string>)
    requires IsCycleReport(plan, report)
    ensures !Acyclic(plan)
  {
    var i :| 0 <= i < |report| - 1 && report[i] == report[|report| - 1];
    var walk := report[i..];
    assert IsWalk(plan, walk) && |walk| >= 2 && walk[0] == walk[|walk| - 1];
  }

  /**
   * The sort returns exactly when the in-plan graph is acyclic. What it returns holds each name of
   * the plan once, each with its definition, dependencies first. A failure follows real edges back
   * to a name already on the report.
   */
  lemma SortCorrect(defs: seq<Definition>)
    ensures var plan := ByName(defs);
            match Sort(defs)
            case Success(order) =>
              && Acyclic(plan)
              && Ordered(plan, order)
              && DistinctNames(order)
              && (forall i :: 0 <= i < |order| ==> order[i].name in plan && plan[order[i].name] == order[i])
              && (forall n :: n in plan ==> Precedes(order, n, |order|))
            case Failure(report) => !Acyclic(plan) && IsCycleReport(plan, report)
  {
    var plan := ByName(defs);
    if |defs| <= 1 {
      SingletonCorrect(defs);
    } else {
      assert Valid(plan, START);
      forall n | n in Names(defs) ensures n in plan && Continues(plan, START, n) {
      }
      VisitAllValid(plan, START, Names(defs));
      match Sort(defs) {
        case Success(order) =>
          var out := VisitAll(plan, START, Names(defs)).value;
          forall n | n in plan ensures Precedes(order, n, |order|) {
            assert n in Names(defs) && n in out.marks && out.marks[n] == Done;
          }
          forall i | 0 <= i < |order| ensures order[i].name in plan && plan[order[i].name] == order[i] {
            assert IsListed(plan, out, order[i]);
          }
          OrderingIsAcyclic(plan, order);
        case Failure(report) =>
          ReportIsCycle(plan, report);
      }
    }
  }

  lemma ByNameOfOne(d: Definition)
    ensures ByName([d]) == map[d.name := d]
  {
    assert [d][..0] == [];
  }

  lemma SingletonCorrect(defs: seq<Definition>)
    requires |defs| <= 1
    ensures var plan := ByName(defs);
            && Acyclic(plan)
            && Ordered(plan, defs)
            && (forall i :: 0 <= i < |defs| ==> defs[i].name in plan && plan[defs[i].name] == defs[i])
            && (forall n :: n in plan ==> Precedes(defs, n, |defs|))
  {
    var plan := ByName(defs);
    if |defs| == 1 {
      ByNameOfOne(defs[0]);
      assert defs == [defs[0]];
      forall n | n in plan ensures Precedes(defs, n, |defs|) {
        assert defs[0].name == n;
      }
      assert forall t :: t in Deps(plan, defs[0].name) ==> t in plan && t != defs[0].name;
    }
    OrderingIsAcyclic(plan, defs);
  }

  lemma SortSucceedsExactlyWhenAcyclic(defs: seq<Definition>)
    ensures Sort(defs).Success? <==> Acyclic(ByName(defs))
  {
    SortCorrect(defs);
  }

  /** With distinct names, looking a name up finds the definition declared under it. */
  lemma {:induction false} ByNameOfDistinct(defs: seq<Definition>)
    requires DistinctNames(defs)
    ensures forall i :: 0 <= i < |defs| ==> defs[i].name in ByName(defs) && ByName(defs)[defs[i].name] == defs[i]
  {
    if defs != [] {
      var init := defs[..|defs| - 1];
      ByNameOfDistinct(init);
      forall i | 0 <= i < |defs|
        ensures defs[i].name in ByName(defs) && ByName(defs)[defs[i].name] == defs[i]
      {
        if i < |defs| - 1 {
          assert init[i] == defs[i];
        }
      }
    }
  }

  /** Two lists of distinctly named definitions with the same members are permutations. */
  lemma {:induction false} SameMembersSameMultiset(a: seq<Definition>, b: seq<Definition>)
    requires DistinctNames(a) && DistinctNames(b)
    requires forall d :: d in a <==> d in b
    ensures multiset(a) == multiset(b)
  {
    forall d ensures multiset(a)[d] == multiset(b)[d] {
      CountIsOne(a, d);
      CountIsOne(b, d);
    }
  }

  lemma {:induction false} CountIsOne(a: seq<Definition>, d: Definition)
    requires DistinctNames(a)
    ensures multiset(a)[d] == if d in a then 1 else 0
  {
    if a != [] {
      var init := a[..|a| - 1];
      assert a == init + [a[|a| - 1]];
      CountIsOne(init, d);
    }
  }

  /** For distinct names the sorted plan is a permutation of the declared one. */
  lemma SortIsPermutation(defs: seq<Definition>)
    requires DistinctNames(defs) && Sort(defs).Success?
    ensures multiset(Sort(defs).value) == multiset(defs)
  {
    SortCorrect(defs);
    ByNameOfDistinct(defs);
    var order := Sort(defs).value;
    forall d | d in defs ensures d in order {
      var i :| 0 <= i < |defs| && defs[i] == d;
      assert Precedes(order, d.name, |order|);
    }
    forall d | d in order ensures d in defs {
      assert d.name in Names(defs);
      var i :| 0 <= i < |defs| && defs[i].name == d.name;
    }
    SameMembersSameMultiset(order, defs);
  }

  /** Visiting a name whose dependencies are all finished appends its definition and nothing else. */
  lemma {:induction false} VisitAllFinished(plan: Plan, st: Dfs, names: seq<string>)
    requires forall n :: n in names ==> n in plan && n in st.marks && st.marks[n] == Done
    ensures VisitAll(plan, st, names) == Success(st)
    decreases |names|
  {
    if names != [] {
      assert names[0] in names;
      VisitAllFinished(plan, st, names[1..]);
    }
  }

  lemma {:induction false} VisitOrdered(plan: Plan, defs: seq<Definition>, i: nat, st: Dfs)
    requires WellNamed(plan) && Ordered(plan, defs) && DistinctNames(defs) && i <= |defs|
    requires forall k :: 0 <= k < |defs| ==> defs[k].name in plan && plan[defs[k].name] == defs[k]
    requires st.sorted == defs[..i]
    requires forall k :: 0 <= k < i ==> defs[k].name in st.marks && st.marks[defs[k].name] == Done
    requires forall k :: i <= k < |defs| ==> defs[k].name !in st.marks
    ensures forall n :: n in Names(defs)[i..] ==> n in plan
    ensures VisitAll(plan, st, Names(defs)[i..]).Success?
    ensures VisitAll(plan, st, Names(defs)[i..]).value.sorted == defs
    decreases |defs| - i
  {
    var names := Names(defs)[i..];
    if i < |defs| {
      var name := defs[i].name;
      var inside := Dfs(st.marks[name := Visiting], st.stack + [name], st.sorted);
      forall t | t in Deps(plan, name) ensures t in inside.marks && inside.marks[t] == Done {
        assert Precedes(defs, t, i);
      }
      VisitAllFinished(plan, inside, Deps(plan, name));
      var next := Visit(plan, st, name).value;
      assert next.sorted == defs[..i + 1];
      VisitOrdered(plan, defs, i + 1, next);
      assert names[1..] == Names(defs)[i + 1..];
    }
  }

  /**
   * The declaration order survives exactly when it already lists dependencies first. ("Stable" in
   * the source's comment is more than the traversal gives; see `UnrelatedLeafMoves`.)
   */
  lemma SortKeepsOrderExactlyWhenOrdered(defs: seq<Definition>)
    requires DistinctNames(defs)
    ensures Sort(defs) == Success(defs) <==> Ordered(ByName(defs), defs)
  {
    SortCorrect(defs);
    ByNameOfDistinct(defs);
    if Ordered(ByName(defs), defs) && |defs| > 1 {
      VisitOrdered(ByName(defs), defs, 0, START);
      assert Names(defs)[0..] == Names(defs);
    }
  }

  lemma SortIsIdempotent(defs: seq<Definition>)
    requires DistinctNames(defs) && Sort(defs).Success?
    ensures Sort(Sort(defs).value) == Sort(defs)
  {
    var order := Sort(defs).value;
    SortCorrect(defs);
    SamePlan(defs, order);
    SortKeepsOrderExactlyWhenOrdered(order);
  }

  /** A list that holds each definition of a plan once describes the same plan. */
  lemma SamePlan(defs: seq<Definition>, order: seq<Definition>)
    requires DistinctNames(order)
    requires forall i :: 0 <= i < |order| ==> order[i].name in ByName(defs) && ByName(defs)[order[i].name] == order[i]
    requires forall n :: n in ByName(defs) ==> Precedes(order, n, |order|)
    ensures ByName(order) == ByName(defs)
  {
    ByNameOfDistinct(order);
    forall n | n in ByName(defs) ensures n in ByName(order) {
      assert Precedes(order, n, |order|);
    }
    forall n | n in ByName(order) ensures n in ByName(defs) && ByName(order)[n] == ByName(defs)[n] {
      var j :| 0 <= j < |order| && Names(order)[j] == n;
      assert order[j].name == n;
    }
  }

  function Leaf(name: string): Definition {
    Definition(name, [], [], [])
  }

  const X := Definition("x", [], [], [Relationship("f", Custom, "z")])
  const XYZ: Plan := map["x" := X, "y" := Leaf("y"), "z" := Leaf("z")]

  lemma XyzPlan()
    ensures ByName([X, Leaf("y"), Leaf("z")]) == XYZ
    ensures Deps(XYZ, "x") == ["z"] && Deps(XYZ, "y") == [] && Deps(XYZ, "z") == []
  {
    var defs := [X, Leaf("y"), Leaf("z")];
    assert defs[..2] == [X, Leaf("y")] && defs[..2][..1] == [X] && defs[..2][..1][..0] == [];
    assert ByName([X]) == map["x" := X];
    assert ByName([X, Leaf("y")]) == map["x" := X, "y" := Leaf("y")];
    assert "x"[0] != "y"[0] && "x"[0] != "z"[0] && "y"[0] != "z"[0];
    assert X.relationships[..0] == [];
    assert Targets(XYZ, "x", []) == [];
    assert Targets(XYZ, "x", X.relationships) == [] + ["z"];
    assert Targets(XYZ, "y", []) == [] && Targets(XYZ, "z", []) == [];
  }

  /** A finished name, or one without dependencies, takes a single step. */
  lemma VisitLeaf(plan: Plan, st: Dfs, name: string)
    requires name in plan && Deps(plan, name) == [] && name !in st.marks
    ensures Visit(plan, st, name) == Success(Dfs(st.marks[name := Done], st.stack, st.sorted + [plan[name]]))
  {
    assert (st.stack + [name])[..|st.stack|] == st.stack;
    assert st.marks[name := Visiting][name := Done] == st.marks[name := Done];
  }

  const AFTER_X := Dfs(map["z" := Done, "x" := Done], [], [Leaf("z"), X])

  lemma VisitX()
    ensures Visit(XYZ, START, "x") == Success(AFTER_X)
  {
    XyzPlan();
    assert "x"[0] != "z"[0];
    var s1 := Dfs(map["x" := Visiting], ["x"], []);
    VisitLeaf(XYZ, s1, "z");
    var s2 := Dfs(s1.marks["z" := Done], ["x"], [Leaf("z")]);
    assert s1.sorted + [XYZ["z"]] == [Leaf("z")];
    assert ["z"][1..] == [] && VisitAll(XYZ, s2, []) == Success(s2);
    assert VisitAll(XYZ, s1, ["z"]) == Success(s2);
    assert START.marks["x" := Visiting] == s1.marks && START.stack + ["x"] == s1.stack;
    assert s2.marks["x" := Done] == AFTER_X.marks && s2.stack[..0] == [] && s2.sorted + [XYZ["x"]] == AFTER_X.sorted;
  }

  const AFTER_Y := Dfs(map["z" := Done, "x" := Done, "y" := Done], [], [Leaf("z"), X, Leaf("y")])

  lemma VisitYAndZ()
    ensures VisitAll(XYZ, AFTER_X, ["y", "z"]) == Success(AFTER_Y)
  {
    XyzPlan();
    assert "x"[0] != "y"[0] && "z"[0] != "y"[0];
    VisitLeaf(XYZ, AFTER_X, "y");
    assert AFTER_X.marks["y" := Done] == AFTER_Y.marks && AFTER_X.sorted + [XYZ["y"]] == AFTER_Y.sorted;
    assert ["y", "z"][1..] == ["z"] && ["z"][1..] == [];
    assert VisitAll(XYZ, AFTER_Y, ["z"]) == VisitAll(XYZ, AFTER_Y, []);
  }

  /**
   * The plan x -> z, y, z comes back as z, x, y: neither y nor z has an in-plan dependency, and
   * they have changed places.
   */
  lemma UnrelatedLeafMoves()
    ensures Sort([X, Leaf("y"), Leaf("z")]) == Success([Leaf("z"), X, Leaf("y")])
  {
    XyzPlan();
    VisitX();
    VisitYAndZ();
    assert Names([X, Leaf("y"), Leaf("z")]) == ["x", "y", "z"] && ["x", "y", "z"][1..] == ["y", "z"];
    assert VisitAll(XYZ, START, ["x", "y", "z"]) == VisitAll(XYZ, AFTER_X, ["y", "z"]);
  }

  // ---- Edges, in terms of the declarations -------------------------------------------------------

  /** The relationship is to a custom definition of the plan, other than its owner. */
  predicate LinksTo(plan: Plan, owner: string, r: Relationship, target: string) {
    r == Relationship(r.sourceField, Custom, target) && target in plan.Keys && owner != target
  }

  /** The first relationship that links to a name, by declaration; their number if none does. */
  function FirstLink(plan: Plan, owner: string, rels: seq<Relationship>, target: string): (i: nat)
    ensures i <= |rels|
  {
    if rels == [] || LinksTo(plan, owner, rels[0], target) then 0
    else 1 + FirstLink(plan, owner, rels[1..], target)
  }

  lemma {:induction false} FirstLinkAppend(
      plan: Plan, owner: string, rels: seq<Relationship>, r: Relationship, target: string)
    ensures FirstLink(plan, owner, rels + [r], target) ==
            if FirstLink(plan, owner, rels, target) < |rels| then FirstLink(plan, owner, rels, target)
            else if LinksTo(plan, owner, r, target) then |rels| else |rels| + 1
  {
    var all := rels + [r];
    if rels == [] {
      assert all[1..] == [];
    } else {
      assert all[1..] == rels[1..] + [r];
      FirstLinkAppend(plan, owner, rels[1..], r, target);
    }
  }

  /** The dependencies of an owner: each linked name once, in the order of the first link to it. */
  ghost predicate AreTargets(plan: Plan, owner: string, rels: seq<Relationship>, targets: seq<string>) {
    && (forall t :: t in targets <==> FirstLink(plan, owner, rels, t) < |rels|)
    && (forall i, j :: 0 <= i < j < |targets| ==>
          FirstLink(plan, owner, rels, targets[i]) < FirstLink(plan, owner, rels, targets[j]))
  }

  lemma {:induction false} TargetsExactly(plan: Plan, owner: string, rels: seq<Relationship>)
    ensures AreTargets(plan, owner, rels, Targets(plan, owner, rels))
  {
    if rels != [] {
      var n := |rels| - 1;
      var init, r := rels[..n], rels[n];
      TargetsExactly(plan, owner, init);
      assert rels == init + [r];
      forall t ensures FirstLink(plan, owner, rels, t) ==
                       if FirstLink(plan, owner, init, t) < n then FirstLink(plan, owner, init, t)
                       else if LinksTo(plan, owner, r, t) then n else n + 1 {
        FirstLinkAppend(plan, owner, init, r, t);
      }
      assert LinksTo(plan, owner, r, r.targetSchema) <==> IsEdge(plan, owner, r);
    }
  }

  /**
   * A definition needs exactly the other definitions of the plan that one of its custom relationships
   * names, each once and in the order in which it first names them. Links to system schemas, out of the
   * plan and to itself do not count.
   */
  lemma DependenciesExactly(defs: seq<Definition>, name: string)
    requires name in ByName(defs)
    ensures AreTargets(ByName(defs), name, ByName(defs)[name].relationships, Deps(ByName(defs), name))
  {
    TargetsExactly(ByName(defs), name, ByName(defs)[name].relationships);
  }

  /** Of several definitions of one name the last declared stands for it. */
  lemma {:induction false} LastDeclaredCounts(defs: seq<Definition>, i: nat)
    requires i < |defs| && forall j :: i < j < |defs| ==> defs[j].name != defs[i].name
    ensures defs[i].name in ByName(defs) && ByName(defs)[defs[i].name] == defs[i]
  {
    var n := |defs| - 1;
    if i < n {
      LastDeclaredCounts(defs[..n], i);
    }
  }
}
