/**
 * What a run of provisioning leaves, and what a second one does (src/provisioning/runner.ts): every
 * definition ends settled, but for those whose name the API takes for another's.
 */
module Convergence {
  import opened Wrappers
  import opened Contracts
  import TopoSort
  import opened Ensure
  import opened Provisioning

  // ---- Definitions the API refuses -----------------------------------------------------------------

  function KitName(sp: Spelling, def: Definition): string {
    sp.Name(Some(def.name))
  }

  predicate SameKey(sp: Spelling, a: Definition, b: Definition) {
    sp.apiKey(a.name) == sp.apiKey(b.name)
  }

  /**
   * The earlier definition has the same name for the API, and up to it no definition has the same name
   * for the kit.
   */
  ghost predicate ClashesEarlier(sp: Spelling, order: seq<Definition>, k: nat, i: nat)
    requires k < |order|
  {
    && i < k && WellFormed(order[i]) && SameKey(sp, order[i], order[k])
    && forall j: nat :: j <= i && WellFormed(order[j]) ==> KitName(sp, order[j]) != KitName(sp, order[k])
  }

  /**
   * The kit finds no row of the name, but for the API the name is taken: by a live row, or by an earlier
   * definition of the plan. It can be read off before the run.
   */
  ghost predicate ShadowedInPlan(sp: Spelling, base: Account, order: seq<Definition>, k: nat)
    requires k < |order|
  {
    && !HasRow(sp, base, KitName(sp, order[k]))
    && (NameTaken(sp, base, order[k].name) || exists i: nat :: ClashesEarlier(sp, order, k, i))
  }

  /** Well-formed and not shadowed: these get an id. */
  ghost predicate Provisioned(sp: Spelling, base: Account, order: seq<Definition>, k: nat)
    requires k < |order|
  {
    WellFormed(order[k]) && !ShadowedInPlan(sp, base, order, k)
  }

  /**
   * Of two definitions of one plan whose names differ for the kit but not for the API, the later one is
   * never provisioned, even in an empty account.
   */
  lemma SecondHomonymIsShadowed(sp: Spelling, a: Definition, b: Definition)
    requires WellFormed(a) && KitName(sp, a) != KitName(sp, b) && SameKey(sp, a, b)
    ensures ShadowedInPlan(sp, map[], [a, b], 1)
  {
    assert ClashesEarlier(sp, [a, b], 1, 0);
  }

  // ---- The names in use during a run ---------------------------------------------------------------

  ghost predicate MadeUnder(sp: Spelling, base: Account, order: seq<Definition>, n: nat, wanted: string)
    requires n <= |order|
  {
    exists k: nat :: k < n && Provisioned(sp, base, order, k) && KitName(sp, order[k]) == wanted
  }

  ghost predicate AskedUnder(sp: Spelling, order: seq<Definition>, n: nat, name: string)
    requires n <= |order|
  {
    exists k: nat :: k < n && WellFormed(order[k]) && sp.apiKey(order[k].name) == sp.apiKey(name)
  }

  /** After n definitions the names in use are those of the account before the run and of the n. */
  ghost predicate NamesSoFar(sp: Spelling, base: Account, order: seq<Definition>, n: nat, account: Account)
    requires n <= |order|
  {
    RowsSoFar(sp, base, order, n, account) && KeysSoFar(sp, base, order, n, account)
  }

  ghost predicate RowsSoFar(sp: Spelling, base: Account, order: seq<Definition>, n: nat, account: Account)
    requires n <= |order|
  {
    forall wanted :: HasRow(sp, account, wanted) <==>
      HasRow(sp, base, wanted) || MadeUnder(sp, base, order, n, wanted)
  }

  ghost predicate KeysSoFar(sp: Spelling, base: Account, order: seq<Definition>, n: nat, account: Account)
    requires n <= |order|
  {
    forall name :: NameTaken(sp, account, name) <==>
      NameTaken(sp, base, name) || AskedUnder(sp, order, n, name)
  }

  /** A definition with the same kit name as a shadowed one is shadowed too, later or earlier. */
  lemma SameNameShadowed(sp: Spelling, base: Account, order: seq<Definition>, k: nat, m: nat)
    requires sp.Valid() && k < |order| && m < |order| && WellFormed(order[m])
    requires KitName(sp, order[k]) == KitName(sp, order[m]) && ShadowedInPlan(sp, base, order, k)
    ensures ShadowedInPlan(sp, base, order, m)
  {
    assert SameKey(sp, order[k], order[m]);
    if NameTaken(sp, base, order[k].name) {
      SameNameSameShadow(sp, base, order[k].name, order[m].name);
    } else {
      var i: nat :| ClashesEarlier(sp, order, k, i);
      assert ClashesEarlier(sp, order, m, i);
    }
  }

  /** The first definition of a key that was asked for before the n-th. */
  lemma {:induction false} FirstAsked(sp: Spelling, order: seq<Definition>, n: nat, name: string) returns (i: nat)
    requires n <= |order| && AskedUnder(sp, order, n, name)
    ensures i < n && WellFormed(order[i]) && sp.apiKey(order[i].name) == sp.apiKey(name)
    ensures !AskedUnder(sp, order, i, name)
  {
    if AskedUnder(sp, order, n - 1, name) {
      i := FirstAsked(sp, order, n - 1, name);
    } else {
      i := n - 1;
    }
  }

  /** When the run comes to a definition, it is shadowed exactly if it is shadowed in the plan. */
  lemma ShadowIsForeseen(sp: Spelling, base: Account, order: seq<Definition>, n: nat, account: Account)
    requires sp.Valid() && n < |order| && NamesSoFar(sp, base, order, n, account)
    ensures Shadowed(sp, account, order[n].name) <==> ShadowedInPlan(sp, base, order, n)
  {
    var wanted := KitName(sp, order[n]);
    if ShadowedInPlan(sp, base, order, n) {
      assert AskedUnder(sp, order, n, order[n].name) || NameTaken(sp, base, order[n].name) by {
        if i: nat :| ClashesEarlier(sp, order, n, i) {
          assert sp.apiKey(order[i].name) == sp.apiKey(order[n].name);
        }
      }
      if k: nat :| k < n && Provisioned(sp, base, order, k) && KitName(sp, order[k]) == wanted {
        SameNameShadowed(sp, base, order, n, k);
      }
    } else if Shadowed(sp, account, order[n].name) {
      ShadowHasCause(sp, base, order, n, account);
    }
  }

  lemma ShadowHasCause(sp: Spelling, base: Account, order: seq<Definition>, n: nat, account: Account)
    requires sp.Valid() && n < |order| && NamesSoFar(sp, base, order, n, account)
    requires Shadowed(sp, account, order[n].name)
    ensures ShadowedInPlan(sp, base, order, n)
  {
    if !NameTaken(sp, base, order[n].name) {
      var i := FirstAsked(sp, order, n, order[n].name);
      FirstIsProvisioned(sp, base, order, i, n);
      assert KitName(sp, order[i]) != KitName(sp, order[n]) by {
        assert !MadeUnder(sp, base, order, n, KitName(sp, order[n]));
      }
      FirstClashes(sp, order, n, i);
    }
  }

  /** The first definition of a key that no live row has is not shadowed, unless the kit finds its row. */
  lemma FirstIsProvisioned(sp: Spelling, base: Account, order: seq<Definition>, i: nat, n: nat)
    requires sp.Valid() && i < n < |order| && WellFormed(order[i]) && SameKey(sp, order[i], order[n])
    requires !NameTaken(sp, base, order[n].name) && !AskedUnder(sp, order, i, order[n].name)
    ensures Provisioned(sp, base, order, i)
  {
    assert forall id :: Clashes(sp, base, id, order[i].name) <==> Clashes(sp, base, id, order[n].name);
    forall j: nat ensures !ClashesEarlier(sp, order, i, j) {
      assert j < i && WellFormed(order[j]) ==> sp.apiKey(order[j].name) != sp.apiKey(order[n].name);
    }
  }

  lemma FirstClashes(sp: Spelling, order: seq<Definition>, n: nat, i: nat)
    requires sp.Valid() && i < n < |order| && WellFormed(order[i]) && SameKey(sp, order[i], order[n])
    requires !AskedUnder(sp, order, i, order[n].name) && KitName(sp, order[i]) != KitName(sp, order[n])
    ensures ClashesEarlier(sp, order, n, i)
  {
    forall j: nat | j <= i && WellFormed(order[j]) ensures KitName(sp, order[j]) != KitName(sp, order[n]) {
      if j < i {
        assert sp.apiKey(order[j].name) != sp.apiKey(order[n].name);
      }
    }
  }

  lemma MadeGrows(sp: Spelling, base: Account, order: seq<Definition>, n: nat, wanted: string)
    requires n < |order|
    ensures MadeUnder(sp, base, order, n + 1, wanted) <==>
            MadeUnder(sp, base, order, n, wanted) ||
            (Provisioned(sp, base, order, n) && wanted == KitName(sp, order[n]))
  {
  }

  lemma AskedGrows(sp: Spelling, order: seq<Definition>, n: nat, name: string)
    requires n < |order|
    ensures AskedUnder(sp, order, n + 1, name) <==>
            AskedUnder(sp, order, n, name) ||
            (WellFormed(order[n]) && sp.apiKey(order[n].name) == sp.apiKey(name))
  {
  }

  /** What a definition adds to the names in use: nothing if it is malformed, no row if it is refused. */
  ghost predicate NamesAdded(sp: Spelling, account: Account, def: Definition, after: Account) {
    RowsAdded(sp, account, def, after) && KeysAdded(sp, account, def, after)
  }

  ghost predicate RowsAdded(sp: Spelling, account: Account, def: Definition, after: Account) {
    forall wanted :: HasRow(sp, after, wanted) <==>
      HasRow(sp, account, wanted) ||
      (WellFormed(def) && wanted == KitName(sp, def) && !Shadowed(sp, account, def.name))
  }

  ghost predicate KeysAdded(sp: Spelling, account: Account, def: Definition, after: Account) {
    forall name :: NameTaken(sp, after, name) <==>
      NameTaken(sp, account, name) || (WellFormed(def) && sp.apiKey(def.name) == sp.apiKey(name))
  }

  lemma NamesOneMore(
      sp: Spelling, base: Account, order: seq<Definition>, n: nat, account: Account, after: Account)
    requires sp.Valid() && n < |order| && NamesSoFar(sp, base, order, n, account)
    requires NamesAdded(sp, account, order[n], after)
    ensures NamesSoFar(sp, base, order, n + 1, after)
  {
    ShadowIsForeseen(sp, base, order, n, account);
    RowsOneMore(sp, base, order, n, account, after);
    KeysOneMore(sp, base, order, n, account, after);
  }

  lemma RowsOneMore(
      sp: Spelling, base: Account, order: seq<Definition>, n: nat, account: Account, after: Account)
    requires n < |order| && RowsSoFar(sp, base, order, n, account) && RowsAdded(sp, account, order[n], after)
    requires Shadowed(sp, account, order[n].name) <==> ShadowedInPlan(sp, base, order, n)
    ensures RowsSoFar(sp, base, order, n + 1, after)
  {
    forall wanted
      ensures HasRow(sp, after, wanted) <==>
              HasRow(sp, base, wanted) || MadeUnder(sp, base, order, n + 1, wanted)
    {
      MadeGrows(sp, base, order, n, wanted);
    }
  }

  lemma KeysOneMore(
      sp: Spelling, base: Account, order: seq<Definition>, n: nat, account: Account, after: Account)
    requires n < |order| && KeysSoFar(sp, base, order, n, account) && KeysAdded(sp, account, order[n], after)
    ensures KeysSoFar(sp, base, order, n + 1, after)
  {
    forall name
      ensures NameTaken(sp, after, name) <==>
              NameTaken(sp, base, name) || AskedUnder(sp, order, n + 1, name)
    {
      AskedGrows(sp, order, n, name);
    }
  }

  lemma EnsureAddsNames(
      sp: Spelling, account: Account, rows: seq<Row>, def: Definition, resolved: Definition, reply: Reply)
    requires sp.Valid() && ValidAccount(account) && IsListing(sp, account, rows) && ValidReply(account, reply)
    requires resolved.name == def.name && WellFormed(def)
    ensures NamesAdded(sp, account, def, EnsureDefinition(sp, account, rows, resolved, reply).account)
  {
    EnsureAddsRows(sp, account, rows, def, resolved, reply);
    EnsureAddsKeys(sp, account, rows, def, resolved, reply);
  }

  lemma EnsureAddsRows(
      sp: Spelling, account: Account, rows: seq<Row>, def: Definition, resolved: Definition, reply: Reply)
    requires sp.Valid() && ValidAccount(account) && IsListing(sp, account, rows) && ValidReply(account, reply)
    requires resolved.name == def.name && WellFormed(def)
    ensures RowsAdded(sp, account, def, EnsureDefinition(sp, account, rows, resolved, reply).account)
  {
    var after := EnsureDefinition(sp, account, rows, resolved, reply).account;
    forall wanted
      ensures HasRow(sp, after, wanted) <==>
              HasRow(sp, account, wanted) || (wanted == KitName(sp, def) && !Shadowed(sp, account, def.name))
    {
      NamesAfterEnsure(sp, account, rows, resolved, reply, wanted, def.name);
    }
  }

  lemma EnsureAddsKeys(
      sp: Spelling, account: Account, rows: seq<Row>, def: Definition, resolved: Definition, reply: Reply)
    requires sp.Valid() && ValidAccount(account) && IsListing(sp, account, rows) && ValidReply(account, reply)
    requires resolved.name == def.name && WellFormed(def)
    ensures KeysAdded(sp, account, def, EnsureDefinition(sp, account, rows, resolved, reply).account)
  {
    var after := EnsureDefinition(sp, account, rows, resolved, reply).account;
    forall name
      ensures NameTaken(sp, after, name) <==>
              NameTaken(sp, account, name) || sp.apiKey(def.name) == sp.apiKey(name)
    {
      NamesAfterEnsure(sp, account, rows, resolved, reply, KitName(sp, def), name);
    }
  }

  // ---- One run -------------------------------------------------------------------------------------

  /** Every call answers, from a complete listing of the account as it then is. */
  ghost predicate Honest(sp: Spelling, account: Account, order: seq<Definition>, api: string -> Attempt) {
    order == [] ||
    var init := order[..|order| - 1];
    var now := Run(sp, account, init, api).account;
    match api(order[|order| - 1].name)
    case Throws => false
    case Answers(rows, reply, fault) =>
      Honest(sp, account, init, api) && IsListing(sp, now, rows) && ValidReply(now, reply) && fault.NoFault?
  }

  lemma CoversResolved(sp: Spelling, stored: Stored, def: Definition, defIds: map<string, int>)
    ensures Covers(sp, stored, Resolve(def, defIds)) <==> Covers(sp, stored, def)
    ensures NoBlanks(sp, Resolve(def, defIds)) <==> NoBlanks(sp, def)
  {
    var resolved := Resolve(def, defIds);
    forall k | 0 <= k < |def.relationships|
      ensures resolved.relationships[k].sourceField == def.relationships[k].sourceField
    {
    }
  }

  /** Of the first n definitions exactly the provisioned ones have ids, and are settled under them. */
  ghost predicate AllSettled(
      sp: Spelling, base: Account, account: Account, order: seq<Definition>, n: nat, defIds: map<string, int>)
    requires n <= |order|
  {
    forall k: nat :: k < n ==>
      (order[k].name in defIds <==> Provisioned(sp, base, order, k)) &&
      (Provisioned(sp, base, order, k) ==> Settled(sp, account, order[k], defIds[order[k].name]))
  }

  /** Those of the first n that are well-formed but not provisioned are shadowed. */
  ghost predicate AllRefused(sp: Spelling, base: Account, account: Account, order: seq<Definition>, n: nat)
    requires n <= |order|
  {
    forall k: nat :: k < n && WellFormed(order[k]) && !Provisioned(sp, base, order, k) ==>
      Shadowed(sp, account, order[k].name)
  }

  ghost predicate SettledSoFar(sp: Spelling, base: Account, order: seq<Definition>, n: nat, p: Progress)
    requires n <= |order|
  {
    && ValidAccount(p.account)
    && (forall t :: t in p.defIds ==> TopoSort.Precedes(order, t, n))
    && AllSettled(sp, base, p.account, order, n, p.defIds)
    && AllRefused(sp, base, p.account, order, n)
    && NamesSoFar(sp, base, order, n, p.account)
  }

  /**
   * When every call answers, each definition ends with an id, settled under it, exactly if it is
   * well-formed and not shadowed; which ones are shadowed is known before the run.
   */
  lemma {:induction false} RunSettles(
      sp: Spelling, account: Account, order: seq<Definition>, api: string -> Attempt, n: nat)
    requires sp.Valid() && ValidAccount(account) && DistinctNames(order) && n <= |order|
    requires Honest(sp, account, order[..n], api)
    ensures SettledSoFar(sp, account, order, n, Run(sp, account, order[..n], api))
  {
    if n > 0 {
      assert order[..n][..n - 1] == order[..n - 1];
      RunSettles(sp, account, order, api, n - 1);
      RunOneMore(sp, account, order, api, n - 1);
      StepSettles(sp, account, Run(sp, account, order[..n - 1], api), order, n - 1, api(order[n - 1].name));
    }
  }

  lemma StepSettles(
      sp: Spelling, base: Account, p: Progress, order: seq<Definition>, n: nat, attempt: Attempt)
    requires sp.Valid() && DistinctNames(order) && n < |order| && SettledSoFar(sp, base, order, n, p)
    requires attempt.Answers? && attempt.fault.NoFault?
    requires IsListing(sp, p.account, attempt.rows) && ValidReply(p.account, attempt.reply)
    ensures SettledSoFar(sp, base, order, n + 1, Step(sp, p, order[n], attempt))
  {
    ShadowIsForeseen(sp, base, order, n, p.account);
    NameIsNew(order, n, p.defIds);
    if !WellFormed(order[n]) {
      NothingChanged(sp, base, p, p.(errors := p.errors + [order[n].name]), order, n);
    } else if Shadowed(sp, p.account, order[n].name) {
      RefusedStep(sp, p, order[n], attempt);
      NothingChanged(sp, base, p, Step(sp, p, order[n], attempt), order, n);
    } else {
      SettledStep(sp, base, p, order, n, attempt);
    }
  }

  /** A shadowed definition is sent as a create and refused; the rest of the progress stays. */
  lemma RefusedStep(sp: Spelling, p: Progress, def: Definition, attempt: Attempt)
    requires sp.Valid() && ValidAccount(p.account) && WellFormed(def) && Shadowed(sp, p.account, def.name)
    requires attempt.Answers? && attempt.fault.NoFault?
    requires IsListing(sp, p.account, attempt.rows)
    ensures var q := Step(sp, p, def, attempt);
            && q.account == p.account && q.defIds == p.defIds
            && p.writes < q.writes
  {
    ShadowedIsRefused(sp, p.account, attempt.rows, Resolve(def, p.defIds), attempt.reply);
  }

  /** A definition that gets no id and changes nothing. */
  lemma NothingChanged(
      sp: Spelling, base: Account, p: Progress, q: Progress, order: seq<Definition>, n: nat)
    requires sp.Valid() && n < |order| && SettledSoFar(sp, base, order, n, p) && !Provisioned(sp, base, order, n)
    requires WellFormed(order[n]) ==> Shadowed(sp, p.account, order[n].name)
    requires q.account == p.account && q.defIds == p.defIds && order[n].name !in p.defIds
    ensures SettledSoFar(sp, base, order, n + 1, q)
  {
    PrecedesGrows(order, n + 1);
    RefusalAddsNoName(sp, p.account, order[n]);
    NamesOneMore(sp, base, order, n, p.account, q.account);
    AllSettledGrows(sp, base, q.account, order, n, q.defIds);
    AllRefusedGrows(sp, base, q.account, order, n);
  }

  lemma AllSettledGrows(
      sp: Spelling, base: Account, account: Account, order: seq<Definition>, n: nat, defIds: map<string, int>)
    requires n < |order|
    ensures AllSettled(sp, base, account, order, n + 1, defIds) <==>
            && AllSettled(sp, base, account, order, n, defIds)
            && (order[n].name in defIds <==> Provisioned(sp, base, order, n))
            && (Provisioned(sp, base, order, n) ==> Settled(sp, account, order[n], defIds[order[n].name]))
  {
  }

  lemma AllRefusedGrows(sp: Spelling, base: Account, account: Account, order: seq<Definition>, n: nat)
    requires n < |order|
    ensures AllRefused(sp, base, account, order, n + 1) <==>
            && AllRefused(sp, base, account, order, n)
            && (WellFormed(order[n]) && !Provisioned(sp, base, order, n) ==>
                  Shadowed(sp, account, order[n].name))
  {
  }

  lemma RefusalAddsNoName(sp: Spelling, account: Account, def: Definition)
    requires WellFormed(def) ==> Shadowed(sp, account, def.name)
    ensures NamesAdded(sp, account, def, account)
  {
    if WellFormed(def) {
      var id :| id in account && Clashes(sp, account, id, def.name);
      forall name | sp.apiKey(def.name) == sp.apiKey(name) ensures NameTaken(sp, account, name) {
        assert Clashes(sp, account, id, name);
      }
    }
  }

  lemma SettledStep(sp: Spelling, base: Account, p: Progress, order: seq<Definition>, n: nat, attempt: Attempt)
    requires sp.Valid() && DistinctNames(order) && n < |order| && SettledSoFar(sp, base, order, n, p)
    requires Provisioned(sp, base, order, n) && !Shadowed(sp, p.account, order[n].name)
    requires attempt.Answers? && attempt.fault.NoFault?
    requires IsListing(sp, p.account, attempt.rows) && ValidReply(p.account, attempt.reply)
    ensures SettledSoFar(sp, base, order, n + 1, Step(sp, p, order[n], attempt))
  {
    var def := order[n];
    var resolved := Resolve(def, p.defIds);
    var Answers(rows, reply, _) := attempt;
    EnsureSettles(sp, p.account, rows, resolved, reply);
    var out := EnsureDefinition(sp, p.account, rows, resolved, reply);
    CoversResolved(sp, out.account[out.id.value], def, p.defIds);
    OthersStaySettled(sp, base, p.account, rows, resolved, reply, order, n, p.defIds);
    OthersStayRefused(sp, base, p.account, rows, resolved, reply, order, n);
    EnsureAddsNames(sp, p.account, rows, def, resolved, reply);
    NamesOneMore(sp, base, order, n, p.account, out.account);
    SettledWithId(sp, base, p, Step(sp, p, def, attempt), order, n, out.id.value);
  }

  lemma SettledWithId(
      sp: Spelling, base: Account, p: Progress, q: Progress, order: seq<Definition>, n: nat, id: int)
    requires DistinctNames(order) && n < |order| && Provisioned(sp, base, order, n)
    requires q.defIds == p.defIds[order[n].name := id] && Settled(sp, q.account, order[n], id)
    requires forall t :: t in p.defIds ==> TopoSort.Precedes(order, t, n)
    requires ValidAccount(q.account) && AllSettled(sp, base, q.account, order, n, p.defIds)
    requires AllRefused(sp, base, q.account, order, n) && NamesSoFar(sp, base, order, n + 1, q.account)
    ensures SettledSoFar(sp, base, order, n + 1, q)
  {
    OnlyOneIdMore(order, n, p.defIds, q.defIds);
    SettledWithMoreIds(sp, base, q.account, order, n, p.defIds, q.defIds);
    AllSettledGrows(sp, base, q.account, order, n, q.defIds);
    AllRefusedGrows(sp, base, q.account, order, n);
  }

  lemma SettledWithMoreIds(
      sp: Spelling, base: Account, account: Account, order: seq<Definition>, n: nat,
      before: map<string, int>, after: map<string, int>)
    requires DistinctNames(order) && n < |order| && AllSettled(sp, base, account, order, n, before)
    requires order[n].name in after && after == before[order[n].name := after[order[n].name]]
    ensures AllSettled(sp, base, account, order, n, after)
  {
    forall k: nat | k < n ensures order[k].name != order[n].name {
    }
  }

  lemma OnlyOneIdMore(order: seq<Definition>, n: nat, before: map<string, int>, after: map<string, int>)
    requires n < |order| && after.Keys == before.Keys + {order[n].name}
    requires forall t :: t in before ==> TopoSort.Precedes(order, t, n)
    ensures forall t :: t in after ==> TopoSort.Precedes(order, t, n + 1)
  {
    PrecedesGrows(order, n + 1);
  }

  lemma NameIsNew(order: seq<Definition>, n: nat, defIds: map<string, int>)
    requires DistinctNames(order) && n < |order| && forall t :: t in defIds ==> TopoSort.Precedes(order, t, n)
    ensures order[n].name !in defIds
  {
    assert order[n].name in defIds ==> TopoSort.Precedes(order, order[n].name, n);
  }

  lemma OthersStaySettled(
      sp: Spelling, base: Account, account: Account, rows: seq<Row>, resolved: Definition, reply: Reply,
      order: seq<Definition>, n: nat, defIds: map<string, int>)
    requires sp.Valid() && ValidAccount(account) && IsListing(sp, account, rows) && ValidReply(account, reply)
    requires n <= |order| && AllSettled(sp, base, account, order, n, defIds)
    ensures AllSettled(sp, base, EnsureDefinition(sp, account, rows, resolved, reply).account, order, n, defIds)
  {
    forall k: nat | k < n && Provisioned(sp, base, order, k)
      ensures Settled(sp, EnsureDefinition(sp, account, rows, resolved, reply).account, order[k],
                      defIds[order[k].name])
    {
      EnsureKeepsSettled(sp, account, rows, resolved, reply, order[k], defIds[order[k].name]);
    }
  }

  lemma OthersStayRefused(
      sp: Spelling, base: Account, account: Account, rows: seq<Row>, resolved: Definition, reply: Reply,
      order: seq<Definition>, n: nat)
    requires sp.Valid() && ValidAccount(account) && IsListing(sp, account, rows) && ValidReply(account, reply)
    requires n <= |order| && AllRefused(sp, base, account, order, n)
    ensures AllRefused(sp, base, EnsureDefinition(sp, account, rows, resolved, reply).account, order, n)
  {
    forall k: nat | k < n && WellFormed(order[k]) && !Provisioned(sp, base, order, k)
      ensures Shadowed(sp, EnsureDefinition(sp, account, rows, resolved, reply).account, order[k].name)
    {
      ShadowStays(sp, account, rows, resolved, reply, order[k].name);
    }
  }

  // ---- A second run --------------------------------------------------------------------------------

  /** No well-formed definition among the first n has blanks or is shadowed. */
  ghost predicate NothingToSend(sp: Spelling, base: Account, order: seq<Definition>, n: nat)
    requires n <= |order|
  {
    forall k: nat :: k < n && WellFormed(order[k]) ==>
      NoBlanks(sp, order[k]) && !ShadowedInPlan(sp, base, order, k)
  }

  /** The ids so far are those on record for the first n definitions. */
  ghost predicate IdsOnRecord(order: seq<Definition>, n: nat, ids: map<string, int>, defIds: map<string, int>)
    requires n <= |order|
  {
    && (forall t :: t in ids <==> t in defIds && TopoSort.Precedes(order, t, n))
    && (forall t :: t in ids ==> ids[t] == defIds[t])
  }

  /**
   * After n definitions of a second run the ids are those on record, and something was written exactly
   * if one had blanks or was shadowed.
   */
  ghost predicate QuietSoFar(
      sp: Spelling, base: Account, account: Account, order: seq<Definition>, n: nat, p: Progress,
      defIds: map<string, int>)
    requires n <= |order|
  {
    && ValidAccount(p.account)
    && AllSettled(sp, base, p.account, order, |order|, defIds)
    && AllRefused(sp, base, p.account, order, |order|)
    && IdsOnRecord(order, n, p.defIds, defIds)
    && (p.writes == [] <==> NothingToSend(sp, base, order, n))
    && (p.writes == [] ==> p.account == account)
  }

  lemma {:induction false} SettledRunIsQuiet(
      sp: Spelling, base: Account, account: Account, order: seq<Definition>, api: string -> Attempt, n: nat,
      defIds: map<string, int>)
    requires sp.Valid() && ValidAccount(account) && n <= |order|
    requires Honest(sp, account, order[..n], api)
    requires AllSettled(sp, base, account, order, |order|, defIds)
    requires AllRefused(sp, base, account, order, |order|)
    ensures QuietSoFar(sp, base, account, order, n, Run(sp, account, order[..n], api), defIds)
  {
    if n > 0 {
      assert order[..n][..n - 1] == order[..n - 1];
      SettledRunIsQuiet(sp, base, account, order, api, n - 1, defIds);
      RunOneMore(sp, account, order, api, n - 1);
      var p := Run(sp, account, order[..n - 1], api);
      QuietOneMore(sp, base, account, order, n - 1, p, api(order[n - 1].name), defIds);
    }
  }

  lemma QuietOneMore(
      sp: Spelling, base: Account, account: Account, order: seq<Definition>, n: nat, p: Progress,
      attempt: Attempt, defIds: map<string, int>)
    requires sp.Valid() && n < |order| && QuietSoFar(sp, base, account, order, n, p, defIds)
    requires attempt.Answers? && attempt.fault.NoFault?
    requires IsListing(sp, p.account, attempt.rows) && ValidReply(p.account, attempt.reply)
    ensures QuietSoFar(sp, base, account, order, n + 1, Step(sp, p, order[n], attempt), defIds)
  {
    if !WellFormed(order[n]) {
      QuietAfterBad(sp, base, account, order, n, p, p.(errors := p.errors + [order[n].name]), defIds);
    } else if Provisioned(sp, base, order, n) {
      SettledStepIsQuiet(sp, base, p, order, n, attempt, defIds);
      QuietAfterGood(sp, base, account, order, n, p, Step(sp, p, order[n], attempt), defIds);
    } else {
      RefusedStep(sp, p, order[n], attempt);
      QuietAfterRefusal(sp, base, account, order, n, p, Step(sp, p, order[n], attempt), defIds);
    }
  }

  lemma QuietAfterGood(
      sp: Spelling, base: Account, account: Account, order: seq<Definition>, n: nat, p: Progress, q: Progress,
      defIds: map<string, int>)
    requires n < |order| && QuietSoFar(sp, base, account, order, n, p, defIds) && Provisioned(sp, base, order, n)
    requires ValidAccount(q.account) && AllSettled(sp, base, q.account, order, |order|, defIds)
    requires AllRefused(sp, base, q.account, order, |order|)
    requires order[n].name in defIds && q.defIds == p.defIds[order[n].name := defIds[order[n].name]]
    requires p.writes <= q.writes && (q.writes == p.writes <==> NoBlanks(sp, order[n]))
    requires q.writes == p.writes ==> q.account == p.account
    ensures QuietSoFar(sp, base, account, order, n + 1, q, defIds)
  {
    SendGrows(sp, base, order, n);
    OneIdMore(order, n, p.defIds, q.defIds, defIds);
  }

  lemma QuietAfterBad(
      sp: Spelling, base: Account, account: Account, order: seq<Definition>, n: nat, p: Progress, q: Progress,
      defIds: map<string, int>)
    requires n < |order| && QuietSoFar(sp, base, account, order, n, p, defIds) && !WellFormed(order[n])
    requires q.account == p.account && q.defIds == p.defIds && q.writes == p.writes
    ensures QuietSoFar(sp, base, account, order, n + 1, q, defIds)
  {
    SendGrows(sp, base, order, n);
    assert order[n].name !in defIds;
    NoIdMore(order, n, p.defIds, defIds);
  }

  lemma QuietAfterRefusal(
      sp: Spelling, base: Account, account: Account, order: seq<Definition>, n: nat, p: Progress, q: Progress,
      defIds: map<string, int>)
    requires n < |order| && QuietSoFar(sp, base, account, order, n, p, defIds)
    requires WellFormed(order[n]) && !Provisioned(sp, base, order, n)
    requires q.account == p.account && q.defIds == p.defIds && p.writes < q.writes
    ensures QuietSoFar(sp, base, account, order, n + 1, q, defIds)
  {
    SendGrows(sp, base, order, n);
    assert order[n].name !in defIds;
    NoIdMore(order, n, p.defIds, defIds);
  }

  lemma NoIdMore(order: seq<Definition>, n: nat, ids: map<string, int>, defIds: map<string, int>)
    requires n < |order| && order[n].name !in defIds && IdsOnRecord(order, n, ids, defIds)
    ensures IdsOnRecord(order, n + 1, ids, defIds)
  {
    PrecedesGrows(order, n + 1);
  }

  lemma SendGrows(sp: Spelling, base: Account, order: seq<Definition>, n: nat)
    requires n < |order|
    ensures NothingToSend(sp, base, order, n + 1) <==>
            NothingToSend(sp, base, order, n) &&
            (WellFormed(order[n]) ==> NoBlanks(sp, order[n]) && !ShadowedInPlan(sp, base, order, n))
  {
  }

  lemma OneIdMore(
      order: seq<Definition>, n: nat, before: map<string, int>, after: map<string, int>, defIds: map<string, int>)
    requires n < |order| && order[n].name in defIds && IdsOnRecord(order, n, before, defIds)
    requires after == before[order[n].name := defIds[order[n].name]]
    ensures IdsOnRecord(order, n + 1, after, defIds)
  {
    PrecedesGrows(order, n + 1);
  }

  lemma PrecedesGrows(order: seq<Definition>, n: nat)
    requires 0 < n <= |order|
    ensures forall t :: TopoSort.Precedes(order, t, n) <==>
              t == order[n - 1].name || TopoSort.Precedes(order, t, n - 1)
  {
    forall t | t == order[n - 1].name ensures TopoSort.Precedes(order, t, n) {
    }
  }

  lemma SettledStepIsQuiet(
      sp: Spelling, base: Account, p: Progress, order: seq<Definition>, n: nat, attempt: Attempt,
      defIds: map<string, int>)
    requires sp.Valid() && ValidAccount(p.account) && n < |order| && Provisioned(sp, base, order, n)
    requires attempt.Answers? && attempt.fault.NoFault?
    requires IsListing(sp, p.account, attempt.rows) && ValidReply(p.account, attempt.reply)
    requires AllSettled(sp, base, p.account, order, |order|, defIds)
    requires AllRefused(sp, base, p.account, order, |order|)
    ensures var q := Step(sp, p, order[n], attempt);
            && ValidAccount(q.account)
            && AllSettled(sp, base, q.account, order, |order|, defIds)
            && AllRefused(sp, base, q.account, order, |order|)
            && q.defIds == p.defIds[order[n].name := defIds[order[n].name]]
            && p.writes <= q.writes
            && (q.writes == p.writes <==> NoBlanks(sp, order[n]))
            && (q.writes == p.writes ==> q.account == p.account)
  {
    var def := order[n];
    var resolved := Resolve(def, p.defIds);
    var Answers(rows, reply, _) := attempt;
    var id := defIds[def.name];
    CoversResolved(sp, p.account[id], def, p.defIds);
    SettledIsQuiet(sp, p.account, rows, resolved, reply, id);
    EnsureSettles(sp, p.account, rows, resolved, reply);
    OthersStaySettled(sp, base, p.account, rows, resolved, reply, order, |order|, defIds);
    OthersStayRefused(sp, base, p.account, rows, resolved, reply, order, |order|);
  }

  /**
   * Provisioning a whole plan converges. When every call answers, a definition has an id after the run
   * exactly if it is well-formed and not shadowed. A second run, against the account the first one left,
   * resolves the same ids, and sends no create and no extend exactly when no well-formed definition has
   * a blank field name or source field, or is shadowed by a live row or by an earlier definition.
   */
  lemma ProvisioningConverges(
      sp: Spelling, account: Account, defs: seq<Definition>, api: string -> Attempt, again: string -> Attempt)
    requires sp.Valid() && ValidAccount(account) && TopoSort.Sort(defs).Success?
    requires Honest(sp, account, TopoSort.Sort(defs).value, api)
    requires Honest(sp, Run(sp, account, TopoSort.Sort(defs).value, api).account, TopoSort.Sort(defs).value, again)
    ensures var order := TopoSort.Sort(defs).value;
            var first := Run(sp, account, order, api);
            var second := Run(sp, first.account, order, again);
            && (forall k: nat :: k < |order| ==>
                  (order[k].name in first.defIds <==> Provisioned(sp, account, order, k)))
            && second.defIds == first.defIds
            && (second.writes == [] <==> NothingToSend(sp, account, order, |order|))
            && (second.writes == [] ==> second.account == first.account)
  {
    TopoSort.SortCorrect(defs);
    var order := TopoSort.Sort(defs).value;
    assert order[..|order|] == order;
    RunSettles(sp, account, order, api, |order|);
    var first := Run(sp, account, order, api);
    SettledRunIsQuiet(sp, account, first.account, order, again, |order|, first.defIds);
    SameIds(first.defIds, Run(sp, first.account, order, again).defIds);
  }

  lemma SameIds(a: map<string, int>, b: map<string, int>)
    requires forall t :: t in a ==> t in b
    requires forall t :: t in b ==> t in a && a[t] == b[t]
    ensures a == b
  {
  }

  /** The same for the kit's own trimming and case folding, before an API that folds some letters more. */
  lemma KitProvisioningConverges(
      fold: char -> char, account: Account, defs: seq<Definition>, api: string -> Attempt, again: string -> Attempt)
    requires ValidAccount(account) && TopoSort.Sort(defs).Success?
    requires Honest(KitSpelling(fold), account, TopoSort.Sort(defs).value, api)
    requires Honest(KitSpelling(fold), Run(KitSpelling(fold), account, TopoSort.Sort(defs).value, api).account,
                    TopoSort.Sort(defs).value, again)
    ensures var sp, order := KitSpelling(fold), TopoSort.Sort(defs).value;
            var first := Run(sp, account, order, api);
            var second := Run(sp, first.account, order, again);
            && second.defIds == first.defIds
            && (second.writes == [] <==> NothingToSend(sp, account, order, |order|))
  {
    KitSpellingValid(fold);
    ProvisioningConverges(KitSpelling(fold), account, defs, api, again);
  }

  // ---- Runs in which calls fail --------------------------------------------------------------------

  /** Calls may fail; a listing that is answered is complete. */
  ghost predicate Listed(sp: Spelling, account: Account, order: seq<Definition>, api: string -> Attempt) {
    order == [] ||
    var init := order[..|order| - 1];
    var now := Run(sp, account, init, api).account;
    Listed(sp, account, init, api) &&
    match api(order[|order| - 1].name)
    case Throws => true
    case Answers(rows, reply, _) => IsListing(sp, now, rows) && ValidReply(now, reply)
  }

  lemma StepKeeps(sp: Spelling, p: Progress, def: Definition, attempt: Attempt, other: Definition, id: int)
    requires sp.Valid() && ValidAccount(p.account)
    requires attempt.Answers? ==> IsListing(sp, p.account, attempt.rows) && ValidReply(p.account, attempt.reply)
    ensures var q := Step(sp, p, def, attempt);
            && ValidAccount(q.account)
            && (Settled(sp, p.account, other, id) ==> Settled(sp, q.account, other, id))
  {
    if WellFormed(def) && attempt.Answers? {
      var Answers(rows, reply, fault) := attempt;
      FaultsLoseNothing(sp, p.account, rows, Resolve(def, p.defIds), reply, fault, other, id);
    }
  }

  lemma {:induction false} FaultyRunKeeps(
      sp: Spelling, account: Account, order: seq<Definition>, api: string -> Attempt, other: Definition, id: int)
    requires sp.Valid() && ValidAccount(account) && Listed(sp, account, order, api)
    ensures var p := Run(sp, account, order, api);
            ValidAccount(p.account) && (Settled(sp, account, other, id) ==> Settled(sp, p.account, other, id))
  {
    if order != [] {
      var init, def := order[..|order| - 1], order[|order| - 1];
      FaultyRunKeeps(sp, account, init, api, other, id);
      StepKeeps(sp, Run(sp, account, init, api), def, api(def.name), other, id);
    }
  }

  /**
   * A run in which calls failed, even writes that may or may not have been carried out, does no lasting
   * harm: what was settled stays settled, and the next run in which every call answers settles every
   * definition of the plan that is not shadowed.
   */
  lemma ProvisioningRecovers(
      sp: Spelling, account: Account, defs: seq<Definition>, faulty: string -> Attempt, api: string -> Attempt,
      other: Definition, id: int)
    requires sp.Valid() && ValidAccount(account) && TopoSort.Sort(defs).Success?
    requires Listed(sp, account, TopoSort.Sort(defs).value, faulty)
    requires Honest(sp, Run(sp, account, TopoSort.Sort(defs).value, faulty).account,
                    TopoSort.Sort(defs).value, api)
    ensures var order := TopoSort.Sort(defs).value;
            var middle := Run(sp, account, order, faulty).account;
            var last := Run(sp, middle, order, api);
            && AllSettled(sp, middle, last.account, order, |order|, last.defIds)
            && (Settled(sp, account, other, id) ==> Settled(sp, middle, other, id))
  {
    TopoSort.SortCorrect(defs);
    var order := TopoSort.Sort(defs).value;
    assert order[..|order|] == order;
    FaultyRunKeeps(sp, account, order, faulty, other, id);
    RunSettles(sp, Run(sp, account, order, faulty).account, order, api, |order|);
  }
}
