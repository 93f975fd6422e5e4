/**
 * The custom-data part of a provisioning run (src/provisioning/runner.ts): definitions are ordered,
 * then each is checked, its targets are resolved to the ids returned so far, and it is ensured.
 * A definition that fails is recorded and the run goes on.
 */
module Provisioning {
  import opened Wrappers
  import opened Contracts
  import opened Text
  import TopoSort
  import opened Ensure

  /** What the API does when a definition is ensured: the listing fails, or all calls answer but for a fault. */
  datatype Attempt = Throws | Answers(rows: seq<Row>, reply: Reply, fault: Fault)

  /** A definition as declared, and as it was handed to the API. */
  datatype Sent = Sent(declared: Definition, resolved: Definition)

  datatype Progress = Progress(
    account: Account,
    defIds: map<string, int>,
    errors: seq<string>,
    writes: seq<Write>,
    sent: seq<Sent>)

  function Begin(account: Account): Progress {
    Progress(account, map[], [], [], [])
  }

  /** The structural guards of `validateCustomDataDefinition`. */
  predicate WellFormed(def: Definition) {
    && (forall key :: key in def.uniqueKeys ==> key in FieldNameList(def.fields))
    && (forall r :: r in def.relationships ==> r.sourceField in FieldNameList(def.fields))
  }

  function FieldNameList(fields: seq<Field>): seq<string> {
    seq(|fields|, i requires 0 <= i < |fields| => fields[i].name)
  }

  function ResolveTarget(r: Relationship, defIds: map<string, int>): Relationship {
    if r.kind == Custom && r.targetSchema in defIds then r.(targetSchema := DecimalInt(defIds[r.targetSchema])) else r
  }

  function Resolve(def: Definition, defIds: map<string, int>): (resolved: Definition)
    ensures resolved.name == def.name && resolved.fields == def.fields
    ensures |resolved.relationships| == |def.relationships|
    ensures forall k :: 0 <= k < |def.relationships| ==>
              resolved.relationships[k] == ResolveTarget(def.relationships[k], defIds)
  {
    def.(relationships := seq(|def.relationships|, k requires 0 <= k < |def.relationships| =>
                                ResolveTarget(def.relationships[k], defIds)))
  }

  function Ensured(p: Progress, def: Definition, resolved: Definition, out: Outcome): Progress {
    var sent := p.sent + [Sent(def, resolved)];
    var reported := seq(|out.problems|, k => def.name);
    match out.id
    case Failure(_) =>
      Progress(out.account, p.defIds, p.errors + reported + [def.name], p.writes + out.writes, sent)
    case Success(id) =>
      Progress(out.account, p.defIds[def.name := id], p.errors + reported, p.writes + out.writes, sent)
  }

  function Step(sp: Spelling, p: Progress, def: Definition, attempt: Attempt): Progress {
    if !WellFormed(def) then
      p.(errors := p.errors + [def.name])
    else
      var resolved := Resolve(def, p.defIds);
      match attempt
      case Throws => p.(errors := p.errors + [def.name], sent := p.sent + [Sent(def, resolved)])
      case Answers(rows, reply, fault) =>
        Ensured(p, def, resolved, EnsureWith(sp, p.account, rows, resolved, reply, fault))
  }

  /** The run over an ordered plan; the API's behaviour is given per definition. */
  function Run(sp: Spelling, account: Account, order: seq<Definition>, api: string -> Attempt): Progress {
    if order == [] then Begin(account)
    else
      var last := order[|order| - 1];
      Step(sp, Run(sp, account, order[..|order| - 1], api), last, api(last.name))
  }

  // ---- The run as the source performs it --------------------------------------------------------

  /** `runProvisioning`, its custom-data loop; a dependency cycle throws before anything is sent. */
  method RunProvisioning(api: Api, defs: seq<Definition>, answers: string -> Attempt)
    returns (r: Result<(map<string, int>, seq<string>), seq<string>>)
    modifies api
    ensures TopoSort.Sort(defs).Failure? ==>
              && r == Failure(TopoSort.Sort(defs).error)
              && api.account == old(api.account) && api.writes == old(api.writes)
    ensures TopoSort.Sort(defs).Success? ==>
              var p := Run(api.sp, old(api.account), TopoSort.Sort(defs).value, answers);
              r == Success((p.defIds, p.errors)) && api.account == p.account && api.writes == old(api.writes) + p.writes
  {
    var sorted := TopoSort.SortPlan(defs);
    if sorted.Failure? {
      return Failure(sorted.error);
    }
    var order := sorted.value;
    var defIds: map<string, int> := map[];
    var errors: seq<string> := [];
    ghost var p := Begin(api.account);
    for i := 0 to |order|
      invariant p == Run(api.sp, old(api.account), order[..i], answers)
      invariant defIds == p.defIds && errors == p.errors
      invariant api.account == p.account && api.writes == old(api.writes) + p.writes
    {
      ghost var was := p.writes;
      RunOneMore(api.sp, old(api.account), order, answers, i);
      ghost var next := Step(api.sp, p, order[i], answers(order[i].name));
      defIds, errors := ProvisionOne(api, order[i], answers(order[i].name), defIds, errors, p);
      WritesJoin(old(api.writes), was, next.writes);
      p := next;
    }
    assert order[..|order|] == order;
    return Success((defIds, errors));
  }

  lemma RunOneMore(sp: Spelling, account: Account, order: seq<Definition>, api: string -> Attempt, i: nat)
    requires i < |order|
    ensures Run(sp, account, order[..i + 1], api) ==
            Step(sp, Run(sp, account, order[..i], api), order[i], api(order[i].name))
  {
    assert order[..i + 1][..i] == order[..i];
  }

  lemma WritesJoin(before: seq<Write>, some: seq<Write>, more: seq<Write>)
    requires some <= more
    ensures (before + some) + more[|some|..] == before + more
  {
  }

  /** One turn of the loop, which adds to the ids and errors collected so far. */
  method ProvisionOne(
      api: Api, def: Definition, attempt: Attempt, ids: map<string, int>, earlier: seq<string>, ghost p: Progress)
    returns (defIds: map<string, int>, errors: seq<string>)
    requires p.account == api.account && p.defIds == ids && p.errors == earlier
    modifies api
    ensures var q := Step(api.sp, p, def, attempt);
            && defIds == q.defIds && errors == q.errors && api.account == q.account
            && p.writes <= q.writes && api.writes == old(api.writes) + q.writes[|p.writes|..]
  {
    defIds, errors := ids, earlier;
    if !WellFormed(def) {
      errors := errors + [def.name];
      return;
    }
    var resolved := Resolve(def, defIds);
    var listing, reply, fault := None, Reply(0, Absent), NoFault;
    if attempt.Answers? {
      listing, reply, fault := Some(attempt.rows), attempt.reply, attempt.fault;
    }
    var id, problems := api.EnsureCustomDataDefinition(listing, resolved, reply, fault);
    errors := errors + seq(|problems|, k => def.name);
    if id.Success? {
      defIds := defIds[def.name := id.value];
    } else {
      errors := errors + [def.name];
    }
  }

  // ---- Targets are sent as ids -----------------------------------------------------------------

  /** A custom target of the plan, other than the definition itself, whose own ensure returned an id. */
  predicate HasId(plan: TopoSort.Plan, owner: string, r: Relationship, defIds: map<string, int>) {
    r.kind == Custom && r.targetSchema in plan && r.targetSchema != owner && r.targetSchema in defIds
  }

  /**
   * Such a target went out as that id. Every other relationship went out as declared: a system one, one
   * to a definition outside the plan or without an id, and a definition's link to itself. So did all else.
   */
  ghost predicate TargetsResolved(plan: TopoSort.Plan, s: Sent, defIds: map<string, int>) {
    && s.resolved.(relationships := s.declared.relationships) == s.declared
    && |s.resolved.relationships| == |s.declared.relationships|
    && forall k :: 0 <= k < |s.declared.relationships| ==>
         var r := s.declared.relationships[k];
         s.resolved.relationships[k] ==
         if HasId(plan, s.declared.name, r, defIds)
         then Relationship(r.sourceField, r.kind, DecimalInt(defIds[r.targetSchema])) else r
  }

  ghost predicate SentInOrder(plan: TopoSort.Plan, order: seq<Definition>, n: nat, p: Progress)
    requires n <= |order|
  {
    && (forall t :: t in p.defIds ==> TopoSort.Precedes(order, t, n))
    && (forall i :: 0 <= i < |p.sent| ==>
          && TargetsResolved(plan, p.sent[i], p.defIds)
          && exists k :: 0 <= k < n && order[k] == p.sent[i].declared)
  }

  lemma StepResolves(sp: Spelling, plan: TopoSort.Plan, order: seq<Definition>, n: nat, p: Progress, attempt: Attempt)
    requires n < |order| && SentInOrder(plan, order, n, p)
    requires DistinctNames(order) && TopoSort.Ordered(plan, order)
    requires forall i :: 0 <= i < |order| ==> order[i].name in plan && plan[order[i].name] == order[i]
    ensures SentInOrder(plan, order, n + 1, Step(sp, p, order[n], attempt))
  {
    var def := order[n];
    var q := Step(sp, p, def, attempt);
    forall t | t in q.defIds ensures TopoSort.Precedes(order, t, n + 1) {
      if t == def.name {
        assert order[n].name == t;
      } else {
        assert TopoSort.Precedes(order, t, n);
      }
    }
    forall i | 0 <= i < |q.sent|
      ensures TargetsResolved(plan, q.sent[i], q.defIds)
      ensures exists k :: 0 <= k < n + 1 && order[k] == q.sent[i].declared
    {
      var k;
      if i < |p.sent| {
        k :| 0 <= k < n && order[k] == p.sent[i].declared;
      } else {
        k := n;
        assert q.sent[i] == Sent(def, Resolve(def, p.defIds));
        assert order[k] == q.sent[i].declared;
        ResolvedNow(plan, order, n, p.defIds);
      }
      LaterIdsDoNotMatter(plan, order, n, k, q.sent[i], p.defIds, q.defIds);
    }
  }

  /** The ids on record are of other definitions of the plan, so what is resolved by them is as it should be. */
  lemma ResolvedNow(plan: TopoSort.Plan, order: seq<Definition>, n: nat, defIds: map<string, int>)
    requires n < |order| && DistinctNames(order)
    requires forall i :: 0 <= i < |order| ==> order[i].name in plan
    requires forall t :: t in defIds ==> TopoSort.Precedes(order, t, n)
    ensures TargetsResolved(plan, Sent(order[n], Resolve(order[n], defIds)), defIds)
  {
    forall t | t in defIds ensures t in plan && t != order[n].name {
      assert TopoSort.Precedes(order, t, n);
    }
  }

  /** The id of the definition at n is no target of a definition at or before n. */
  lemma LaterIdsDoNotMatter(
      plan: TopoSort.Plan, order: seq<Definition>, n: nat, k: nat, s: Sent,
      before: map<string, int>, after: map<string, int>)
    requires k <= n < |order| && order[k] == s.declared
    requires DistinctNames(order) && TopoSort.Ordered(plan, order)
    requires forall i :: 0 <= i < |order| ==> order[i].name in plan && plan[order[i].name] == order[i]
    requires TargetsResolved(plan, s, before)
    requires forall t :: t != order[n].name ==> (t in before <==> t in after)
    requires forall t :: t != order[n].name && t in before ==> before[t] == after[t]
    ensures TargetsResolved(plan, s, after)
  {
    var rels := s.declared.relationships;
    forall j | 0 <= j < |rels| && TopoSort.IsEdge(plan, s.declared.name, rels[j])
      ensures rels[j].targetSchema != order[n].name
    {
      var t := rels[j].targetSchema;
      assert t in TopoSort.Deps(plan, order[k].name);
      assert TopoSort.Precedes(order, t, k);
      var m :| 0 <= m < k && order[m].name == t;
    }
  }

  /** The order is of definitions of the plan, each once, dependencies first. */
  ghost predicate OrderOf(plan: TopoSort.Plan, order: seq<Definition>) {
    && DistinctNames(order) && TopoSort.Ordered(plan, order)
    && forall i :: 0 <= i < |order| ==> order[i].name in plan && plan[order[i].name] == order[i]
  }

  lemma {:induction false} RunResolves(
      sp: Spelling, plan: TopoSort.Plan, account: Account, order: seq<Definition>, api: string -> Attempt, n: nat)
    requires n <= |order| && OrderOf(plan, order)
    ensures SentInOrder(plan, order, n, Run(sp, account, order[..n], api))
  {
    if n > 0 {
      RunResolves(sp, plan, account, order, api, n - 1);
      ResolvesOneMore(sp, plan, account, order, api, n - 1);
    }
  }

  lemma ResolvesOneMore(
      sp: Spelling, plan: TopoSort.Plan, account: Account, order: seq<Definition>, api: string -> Attempt, n: nat)
    requires n < |order| && OrderOf(plan, order)
    requires SentInOrder(plan, order, n, Run(sp, account, order[..n], api))
    ensures SentInOrder(plan, order, n + 1, Run(sp, account, order[..n + 1], api))
  {
    RunOneMore(sp, account, order, api, n);
    StepResolves(sp, plan, order, n, Run(sp, account, order[..n], api), api(order[n].name));
  }

  /**
   * Whatever the declaration order and whichever definitions fail: when a definition is handed to
   * the API, each in-plan custom target other than itself is the id its own ensure returned; if it
   * returned none, the declared target is left as it was.
   */
  lemma TargetsAreSentAsIds(sp: Spelling, account: Account, defs: seq<Definition>, api: string -> Attempt)
    requires TopoSort.Sort(defs).Success?
    ensures var p := Run(sp, account, TopoSort.Sort(defs).value, api);
            forall i :: 0 <= i < |p.sent| ==> TargetsResolved(TopoSort.ByName(defs), p.sent[i], p.defIds)
  {
    var order := TopoSort.Sort(defs).value;
    TopoSort.SortCorrect(defs);
    RunResolves(sp, TopoSort.ByName(defs), account, order, api, |order|);
    assert order[..|order|] == order;
  }

  /** A step answers its own definition and forgets no earlier answer. */
  lemma StepAnswers(sp: Spelling, p: Progress, def: Definition, attempt: Attempt)
    ensures var q := Step(sp, p, def, attempt);
            && p.errors <= q.errors && p.sent <= q.sent
            && p.defIds.Keys <= q.defIds.Keys
            && (WellFormed(def) ==> q.sent == p.sent + [Sent(def, Resolve(def, p.defIds))])
            && (!WellFormed(def) ==> q.sent == p.sent && q.errors == p.errors + [def.name])
            && (def.name in q.defIds || (|q.errors| > |p.errors| && q.errors[|p.errors|] == def.name))
  {
  }

  ghost predicate Answered(order: seq<Definition>, p: Progress) {
    && (forall k :: 0 <= k < |order| ==> order[k].name in p.defIds || order[k].name in p.errors)
    && (forall k :: 0 <= k < |order| && !WellFormed(order[k]) ==> order[k].name in p.errors)
    && (forall i :: 0 <= i < |p.sent| ==> WellFormed(p.sent[i].declared))
  }

  lemma AnsweredOneMore(order: seq<Definition>, def: Definition, p: Progress, q: Progress)
    requires Answered(order, p)
    requires p.errors <= q.errors && p.defIds.Keys <= q.defIds.Keys
    requires def.name in q.defIds || def.name in q.errors
    requires if WellFormed(def) then |q.sent| == |p.sent| + 1 && p.sent <= q.sent && q.sent[|p.sent|].declared == def
             else q.sent == p.sent && def.name in q.errors
    ensures Answered(order + [def], q)
  {
    assert forall x :: x in p.errors ==> x in q.errors;
    forall k | 0 <= k < |order| ensures (order + [def])[k] == order[k] {
    }
  }

  /** Whatever fails, every definition of the plan ends with an id or an error, and the malformed are never sent. */
  lemma {:induction false} EveryDefinitionIsAnswered(
      sp: Spelling, account: Account, order: seq<Definition>, api: string -> Attempt)
    ensures Answered(order, Run(sp, account, order, api))
  {
    if order != [] {
      EveryDefinitionIsAnswered(sp, account, order[..|order| - 1], api);
      AnsweredAtTheEnd(sp, order, Run(sp, account, order[..|order| - 1], api), api(order[|order| - 1].name));
    }
  }

  lemma AnsweredAtTheEnd(sp: Spelling, order: seq<Definition>, p: Progress, attempt: Attempt)
    requires order != [] && Answered(order[..|order| - 1], p)
    ensures Answered(order, Step(sp, p, order[|order| - 1], attempt))
  {
    var init, def := order[..|order| - 1], order[|order| - 1];
    var q := Step(sp, p, def, attempt);
    StepAnswers(sp, p, def, attempt);
    AnsweredOneMore(init, def, p, q);
    assert order == init + [def];
  }

  // ---- What a run reports ----------------------------------------------------------------------

  /**
   * A step records the definition as an error once for each problem, once more if it ended without an
   * id, and otherwise not.
   */
  lemma StepErrorsExactly(sp: Spelling, p: Progress, def: Definition, attempt: Attempt)
    requires WellFormed(def) && attempt.Answers?
    ensures var out := EnsureWith(sp, p.account, attempt.rows, Resolve(def, p.defIds), attempt.reply, attempt.fault);
            var q := Step(sp, p, def, attempt);
            && |q.errors| == |p.errors| + |out.problems| + (if out.id.Failure? then 1 else 0)
            && p.errors <= q.errors
            && (forall i :: |p.errors| <= i < |q.errors| ==> q.errors[i] == def.name)
            && q.account == out.account && q.writes == p.writes + out.writes
            && q.defIds == if out.id.Success? then p.defIds[def.name := out.id.value] else p.defIds
  {
  }

  /** A definition that is malformed, or whose listing fails, is one error and is not written. */
  lemma NotSentIsOneError(sp: Spelling, p: Progress, def: Definition, attempt: Attempt)
    requires !WellFormed(def) || attempt.Throws?
    ensures var q := Step(sp, p, def, attempt);
            q.errors == p.errors + [def.name] && q.account == p.account && q.writes == p.writes && q.defIds == p.defIds
  {
  }

  /** Every unique key and every relationship's source field is the name of a declared field. */
  lemma WellFormedExactly(def: Definition)
    ensures WellFormed(def) <==>
            && (forall i :: 0 <= i < |def.uniqueKeys| ==> HasField(def.fields, def.uniqueKeys[i]))
            && (forall i :: 0 <= i < |def.relationships| ==> HasField(def.fields, def.relationships[i].sourceField))
  {
    forall name ensures name in FieldNameList(def.fields) <==> HasField(def.fields, name) {
      if HasField(def.fields, name) {
        var i :| 0 <= i < |def.fields| && def.fields[i].name == name;
        assert FieldNameList(def.fields)[i] == name;
      }
    }
  }

  lemma {:induction false} ErrorsStay(
      sp: Spelling, account: Account, order: seq<Definition>, api: string -> Attempt, n: nat)
    requires n <= |order|
    ensures Run(sp, account, order[..n], api).errors <= Run(sp, account, order, api).errors
    decreases |order| - n
  {
    if n == |order| {
      assert order[..n] == order;
    } else {
      RunOneMore(sp, account, order, api, n);
      StepAnswers(sp, Run(sp, account, order[..n], api), order[n], api(order[n].name));
      ErrorsStay(sp, account, order, api, n + 1);
    }
  }

  /**
   * No dead link passes in silence: whenever the run comes to a definition whose stored link points at
   * another definition than the plan resolves to, and can read it, the definition is among the errors of
   * the run, whatever becomes of the writes.
   */
  lemma StaleLinksAreErrors(
      sp: Spelling, account: Account, order: seq<Definition>, api: string -> Attempt, n: nat, id: int, r: Relationship)
    requires n < |order| && WellFormed(order[n])
    requires api(order[n].name).Answers? && !api(order[n].name).fault.ReadFails?
    requires var p := Run(sp, account, order[..n], api);
             && ValidAccount(p.account) && IsListing(sp, p.account, api(order[n].name).rows)
             && Chosen(sp, p.account, id, sp.Name(Some(order[n].name)))
             && r in Resolve(order[n], p.defIds).relationships && r.kind == Custom
             && PointsElsewhere(sp, r, p.account[id].relationships)
    ensures order[n].name in Run(sp, account, order, api).errors
  {
    var p := Run(sp, account, order[..n], api);
    var Answers(rows, reply, fault) := api(order[n].name);
    ReportedExactly(sp, p.account, rows, Resolve(order[n], p.defIds), reply, fault, id, r);
    StepErrorsExactly(sp, p, order[n], api(order[n].name));
    RunOneMore(sp, account, order, api, n);
    ErrorsStay(sp, account, order, api, n + 1);
    var q := Run(sp, account, order[..n + 1], api);
    assert q.errors[|p.errors|] == order[n].name;
    assert Run(sp, account, order, api).errors[|p.errors|] == order[n].name;
  }
}
