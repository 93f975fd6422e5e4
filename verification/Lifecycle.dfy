/**
 * The lifecycle webhooks (src/lifecycle/dispatcher.ts) and the install row they drive
 * (src/store/sqlite/stores.ts): install, activate, deactivate, uninstall, config update.
 */
module Lifecycle {
  import opened Wrappers

  datatype Status = Inactive | Active | Uninstalled

  datatype Stamps = Stamps(activatedAt: Option<string>, deactivatedAt: Option<string>, uninstalledAt: Option<string>)

  const NO_STAMPS := Stamps(None, None, None)

  /** What a payload says of the shop; an absent field never overwrites a stored one. */
  datatype Profile = Profile(shopDomain: Option<string>, shopName: Option<string>, installedAt: Option<string>)

  datatype Install = Install(status: Status, profile: Profile, stamps: Stamps)

  // ---- Events and what happens around them --------------------------------------------------------

  datatype Provisioning = NotDeclared | Throws | Ran(errors: nat, provisioned: nat)

  datatype Hook = NoHook | HookReturns | HookThrows

  /** The checks of an activation, as they turn out. */
  datatype Checks = Checks(contextBuilds: bool, connectionOk: bool, provisioning: Provisioning, hook: Hook)

  datatype Event =
    | Installed(profile: Profile)
    | Activated(profile: Profile, at: Option<string>, checks: Checks)
    | Deactivated(at: Option<string>)
    | UninstalledBy(at: Option<string>)
    | ConfigUpdated

  datatype Response = Accepted | Refused | Threw

  /** The lifecycle hooks that were invoked, in order. */
  datatype HookCall = DeactivateHook | UninstallHook

  /** Provisioning refuses an activation only if it threw, or failed without a single success. */
  predicate ProvisioningPasses(p: Provisioning) {
    match p
    case NotDeclared => true
    case Throws => false
    case Ran(errors, provisioned) => errors == 0 || provisioned > 0
  }

  predicate Passes(c: Checks) {
    c.contextBuilds && c.connectionOk && ProvisioningPasses(c.provisioning) && !c.hook.HookThrows?
  }

  // ---- The store ---------------------------------------------------------------------------------

  function Coalesce<T>(a: Option<T>, b: Option<T>): Option<T> {
    if a.Some? then a else b
  }

  /** `upsert` with status 'inactive': fields are kept where the payload has none, stamps are kept. */
  function Upserted(row: Option<Install>, p: Profile): Install {
    match row
    case None => Install(Inactive, p, NO_STAMPS)
    case Some(prior) =>
      Install(Inactive,
              Profile(Coalesce(p.shopDomain, prior.profile.shopDomain),
                      Coalesce(p.shopName, prior.profile.shopName),
                      Coalesce(p.installedAt, prior.profile.installedAt)),
              prior.stamps)
  }

  /** `setStatus`: all three stamps are rewritten; an unknown install is left unknown. */
  function WithStatus(row: Option<Install>, status: Status, stamps: Stamps): Option<Install> {
    if row.Some? then Some(row.value.(status := status, stamps := stamps)) else None
  }

  // ---- One event ---------------------------------------------------------------------------------

  function Next(row: Option<Install>, e: Event): Option<Install> {
    match e
    case Installed(p) => Some(Upserted(row, p))
    case Activated(p, at, checks) =>
      var upserted := Some(Upserted(row, p));
      if !checks.contextBuilds then upserted
      else if !checks.connectionOk then WithStatus(upserted, Inactive, NO_STAMPS)
      else if checks.provisioning.Throws? then upserted
      else if !ProvisioningPasses(checks.provisioning) then WithStatus(upserted, Inactive, NO_STAMPS)
      else if checks.hook.HookThrows? then upserted
      else WithStatus(upserted, Active, Stamps(at, None, None))
    case Deactivated(at) =>
      if row.Some? && row.value.status != Active then row else WithStatus(row, Inactive, Stamps(None, at, None))
    case UninstalledBy(at) =>
      if row.Some? && row.value.status == Uninstalled then row
      else WithStatus(row, Uninstalled, Stamps(None, None, at))
    case ConfigUpdated => row
  }

  /** Repeated transitions of a known install are no-ops; on an unknown one the hook runs each time. */
  function Hooks(row: Option<Install>, e: Event): seq<HookCall> {
    match e
    case Deactivated(_) => if row.Some? && row.value.status != Active then [] else [DeactivateHook]
    case UninstalledBy(_) => if row.Some? && row.value.status == Uninstalled then [] else [UninstallHook]
    case _ => []
  }

  function Reply(e: Event): Response {
    match e
    case Activated(_, _, checks) =>
      if !checks.contextBuilds then Threw
      else if !checks.connectionOk then Refused
      else if checks.provisioning.Throws? then Threw
      else if !ProvisioningPasses(checks.provisioning) then Refused
      else if checks.hook.HookThrows? then Threw
      else Accepted
    case _ => Accepted
  }

  type Installs = map<int, Install>

  function Get(installs: Installs, id: int): Option<Install> {
    if id in installs then Some(installs[id]) else None
  }

  function Put(installs: Installs, id: int, row: Option<Install>): Installs {
    if row.Some? then installs[id := row.value] else installs - {id}
  }

  /** The handlers as the source runs them: a sequence of writes to the installs table. */
  class Dispatcher {
    var installs: Installs
    var hooks: seq<HookCall>

    constructor ()
      ensures installs == map[] && hooks == []
    {
      installs, hooks := map[], [];
    }

    method Upsert(id: int, p: Profile)
      modifies this`installs
      ensures installs == old(installs)[id := Upserted(Get(old(installs), id), p)]
    {
      var row := Get(installs, id);
      var shopDomain, shopName, installedAt := p.shopDomain, p.shopName, p.installedAt;
      var stamps := NO_STAMPS;
      if row.Some? {
        if shopDomain.None? { shopDomain := row.value.profile.shopDomain; }
        if shopName.None? { shopName := row.value.profile.shopName; }
        if installedAt.None? { installedAt := row.value.profile.installedAt; }
        stamps := row.value.stamps;
      }
      installs := installs[id := Install(Inactive, Profile(shopDomain, shopName, installedAt), stamps)];
    }

    method SetStatus(id: int, status: Status, stamps: Stamps)
      modifies this`installs
      ensures installs == Put(old(installs), id, WithStatus(Get(old(installs), id), status, stamps))
    {
      if id in installs {
        installs := installs[id := installs[id].(status := status, stamps := stamps)];
      } else {
        assert installs - {id} == installs;
      }
    }

    /** `onActivate`: the row is 'inactive' until every check has passed. */
    method OnActivate(id: int, p: Profile, at: Option<string>, checks: Checks) returns (r: Response)
      modifies this`installs
      ensures installs == Put(old(installs), id, Next(Get(old(installs), id), Activated(p, at, checks)))
      ensures r == Reply(Activated(p, at, checks))
    {
      Upsert(id, p);
      if !checks.contextBuilds {
        return Threw;
      }
      if !checks.connectionOk {
        SetStatus(id, Inactive, NO_STAMPS);
        return Refused;
      }
      if checks.provisioning.Throws? {
        return Threw;
      }
      if checks.provisioning.Ran? && checks.provisioning.errors > 0 && checks.provisioning.provisioned == 0 {
        SetStatus(id, Inactive, NO_STAMPS);
        return Refused;
      }
      if checks.hook.HookThrows? {
        return Threw;
      }
      SetStatus(id, Active, Stamps(at, None, None));
      return Accepted;
    }

    method OnDeactivate(id: int, at: Option<string>)
      modifies this
      ensures installs == Put(old(installs), id, Next(Get(old(installs), id), Deactivated(at)))
      ensures hooks == old(hooks) + Hooks(Get(old(installs), id), Deactivated(at))
    {
      assert id !in installs ==> installs - {id} == installs;
      if id in installs && (installs[id].status == Inactive || installs[id].status == Uninstalled) {
        return;
      }
      SetStatus(id, Inactive, Stamps(None, at, None));
      hooks := hooks + [DeactivateHook];
    }

    method OnUninstall(id: int, at: Option<string>)
      modifies this
      ensures installs == Put(old(installs), id, Next(Get(old(installs), id), UninstalledBy(at)))
      ensures hooks == old(hooks) + Hooks(Get(old(installs), id), UninstalledBy(at))
    {
      if id in installs && installs[id].status == Uninstalled {
        return;
      }
      SetStatus(id, Uninstalled, Stamps(None, None, at));
      hooks := hooks + [UninstallHook];
    }

    /** Dispatch of one webhook; without an installation id only an activation is refused. */
    method Handle(id: Option<int>, e: Event) returns (r: Response)
      modifies this
      ensures id.None? ==>
                installs == old(installs) && hooks == old(hooks) && r == if e.Activated? then Refused else Accepted
      ensures id.Some? ==>
                && installs == Put(old(installs), id.value, Next(Get(old(installs), id.value), e))
                && hooks == old(hooks) + Hooks(Get(old(installs), id.value), e)
                && r == Reply(e)
    {
      r := Accepted;
      if id.None? {
        return if e.Activated? then Refused else Accepted;
      }
      match e {
        case Installed(p) => Upsert(id.value, p);
        case Activated(p, at, checks) => r := OnActivate(id.value, p, at, checks);
        case Deactivated(at) => OnDeactivate(id.value, at);
        case UninstalledBy(at) => OnUninstall(id.value, at);
        case ConfigUpdated => assert Put(installs, id.value, Get(installs, id.value)) == installs;
      }
    }
  }

  // ---- Any sequence of events ----------------------------------------------------------------------

  function After(row: Option<Install>, events: seq<Event>): Option<Install> {
    if events == [] then row else Next(After(row, events[..|events| - 1]), events[|events| - 1])
  }

  datatype Delivery = Delivery(id: int, event: Event)

  function AfterAll(installs: Installs, log: seq<Delivery>): Installs {
    if log == [] then installs
    else
      var before := AfterAll(installs, log[..|log| - 1]);
      var last := log[|log| - 1];
      Put(before, last.id, Next(Get(before, last.id), last.event))
  }

  function EventsOf(log: seq<Delivery>, id: int): seq<Event> {
    if log == [] then []
    else
      var before := EventsOf(log[..|log| - 1], id);
      if log[|log| - 1].id == id then before + [log[|log| - 1].event] else before
  }

  /** The row of an installation depends on its own events alone. */
  lemma {:induction false} InstallsAreIndependent(installs: Installs, log: seq<Delivery>, id: int)
    ensures Get(AfterAll(installs, log), id) == After(Get(installs, id), EventsOf(log, id))
  {
    if log != [] {
      var n := |log| - 1;
      InstallsAreIndependent(installs, log[..n], id);
      var before := EventsOf(log[..n], id);
      assert (before + [log[n].event])[..|before|] == before;
    }
  }

  predicate IsActive(row: Option<Install>) {
    row.Some? && row.value.status == Active
  }

  predicate IsPass(e: Event) {
    e.Activated? && Passes(e.checks)
  }

  /** The last event that is not a config update is an activation whose checks all passed. */
  ghost predicate LastChangePassed(events: seq<Event>) {
    exists i :: 0 <= i < |events| && IsPass(events[i]) && forall j :: i < j < |events| ==> events[j].ConfigUpdated?
  }

  lemma LastChangeOneMore(events: seq<Event>, e: Event)
    ensures LastChangePassed(events + [e]) <==> IsPass(e) || (e.ConfigUpdated? && LastChangePassed(events))
  {
    var all := events + [e];
    assert all[|events|] == e;
    if e.ConfigUpdated? {
      if i :| 0 <= i < |events| && IsPass(events[i]) && forall j :: i < j < |events| ==> events[j].ConfigUpdated? {
        assert IsPass(all[i]);
      }
      if i :| 0 <= i < |all| && IsPass(all[i]) && forall j :: i < j < |all| ==> all[j].ConfigUpdated? {
        assert IsPass(events[i]);
        forall j | i < j < |events| ensures events[j].ConfigUpdated? {
          assert all[j] == events[j];
        }
      }
    }
  }

  /**
   * Over any sequence of webhooks, an install is active exactly when its last status-changing event
   * was an activation whose connection test, provisioning check and hook all passed.
   */
  lemma {:induction false} ActiveExactlyWhenLastChangePassed(events: seq<Event>)
    ensures IsActive(After(None, events)) <==> LastChangePassed(events)
  {
    if events != [] {
      var init, e := events[..|events| - 1], events[|events| - 1];
      ActiveExactlyWhenLastChangePassed(init);
      LastChangeOneMore(init, e);
      assert events == init + [e];
    }
  }

  /** At most one lifecycle stamp is set, and an active or uninstalled install has no other status's stamp. */
  ghost predicate StampsValid(row: Option<Install>) {
    row.Some? ==>
      var s := row.value.stamps;
      && (s.activatedAt.Some? ==> s.deactivatedAt.None? && s.uninstalledAt.None?)
      && (s.deactivatedAt.Some? ==> s.uninstalledAt.None?)
      && (row.value.status == Active ==> s.deactivatedAt.None? && s.uninstalledAt.None?)
      && (row.value.status == Uninstalled ==> s.activatedAt.None? && s.deactivatedAt.None?)
  }

  lemma {:induction false} AtMostOneStamp(events: seq<Event>)
    ensures StampsValid(After(None, events))
  {
    if events != [] {
      AtMostOneStamp(events[..|events| - 1]);
    }
  }

  // ---- Hooks are not replayed ----------------------------------------------------------------------

  function CountHook(row: Option<Install>, events: seq<Event>, hook: HookCall): nat {
    if events == [] then 0
    else
      var n := |events| - 1;
      CountHook(row, events[..n], hook) + if Hooks(After(row, events[..n]), events[n]) == [hook] then 1 else 0
  }

  function CountPasses(events: seq<Event>): nat {
    if events == [] then 0 else CountPasses(events[..|events| - 1]) + if IsPass(events[|events| - 1]) then 1 else 0
  }

  /** Installs and activations, passed or not: what can take a row out of 'uninstalled'. */
  function CountUpserts(events: seq<Event>): nat {
    if events == [] then 0
    else
      var e := events[|events| - 1];
      CountUpserts(events[..|events| - 1]) + if e.Installed? || e.Activated? then 1 else 0
  }

  /**
   * On a known install the deactivation hook runs at most once per activation that passed, and the
   * uninstall hook at most once per install or activation, whatever is sent again in between.
   */
  lemma {:induction false} HooksAreNotReplayed(row: Install, events: seq<Event>)
    ensures After(Some(row), events).Some?
    ensures CountHook(Some(row), events, DeactivateHook) + (if IsActive(After(Some(row), events)) then 1 else 0) <=
            CountPasses(events) + (if row.status == Active then 1 else 0)
    ensures CountHook(Some(row), events, UninstallHook) +
            (if After(Some(row), events).value.status != Uninstalled then 1 else 0) <=
            CountUpserts(events) + (if row.status != Uninstalled then 1 else 0)
  {
    if events != [] {
      HooksAreNotReplayed(row, events[..|events| - 1]);
    }
  }

  /** An activation is answered with success exactly when it leaves the install active. */
  lemma AcceptedExactlyWhenActive(row: Option<Install>, e: Event)
    requires e.Activated?
    ensures Reply(e) == Accepted <==> IsActive(Next(row, e))
  {
  }

  // ---- What one event does -------------------------------------------------------------------------

  /** An activation makes the install active, with its own stamp, exactly when all of this holds. */
  lemma ActivatesExactlyWhen(row: Option<Install>, p: Profile, at: Option<string>, c: Checks)
    ensures IsActive(Next(row, Activated(p, at, c))) <==>
            && c.contextBuilds && c.connectionOk && c.hook != HookThrows
            && (c.provisioning == NotDeclared ||
                (c.provisioning.Ran? && (c.provisioning.errors == 0 || c.provisioning.provisioned > 0)))
    ensures IsActive(Next(row, Activated(p, at, c))) ==>
              Next(row, Activated(p, at, c)).value.stamps == Stamps(at, None, None)
  {
  }

  /** The activation is refused on a failed connection, or when provisioning had errors and no success. */
  predicate IsRefused(c: Checks) {
    c.contextBuilds &&
    (!c.connectionOk || (c.provisioning.Ran? && c.provisioning.errors > 0 && c.provisioning.provisioned == 0))
  }

  /**
   * An activation that does not pass leaves the install inactive: a refused one without any stamp, one
   * that threw with the stamps it had. The reply tells the two apart.
   */
  lemma FailedActivation(row: Option<Install>, p: Profile, at: Option<string>, c: Checks)
    requires !IsActive(Next(row, Activated(p, at, c)))
    ensures var after := Next(row, Activated(p, at, c));
            && after.Some? && after.value.status == Inactive
            && after.value.stamps == (if IsRefused(c) || row.None? then Stamps(None, None, None)
                                      else row.value.stamps)
    ensures Reply(Activated(p, at, c)) == if IsRefused(c) then Refused else Threw
  {
  }

  /** The other events: what they make of a known install, and that they leave an unknown one unknown. */
  lemma OtherEvents(row: Option<Install>, p: Profile, at: Option<string>)
    ensures Next(row, Installed(p)).Some? && Next(row, Installed(p)).value.status == Inactive
    ensures Next(row, Installed(p)).value.stamps == if row.Some? then row.value.stamps else Stamps(None, None, None)
    ensures Next(row, ConfigUpdated) == row
    ensures row.None? ==> Next(row, Deactivated(at)).None? && Next(row, UninstalledBy(at)).None?
    ensures IsActive(row) ==>
              Next(row, Deactivated(at)) == Some(Install(Inactive, row.value.profile, Stamps(None, at, None)))
    ensures row.Some? && !IsActive(row) ==> Next(row, Deactivated(at)) == row
    ensures row.Some? && row.value.status != Uninstalled ==>
              Next(row, UninstalledBy(at)) == Some(Install(Uninstalled, row.value.profile, Stamps(None, None, at)))
    ensures row.Some? && row.value.status == Uninstalled ==> Next(row, UninstalledBy(at)) == row
    ensures Reply(Installed(p)) == Reply(ConfigUpdated) == Accepted
    ensures Reply(Deactivated(at)) == Reply(UninstalledBy(at)) == Accepted
  {
  }

  /** On a known install a hook runs exactly when the event changes the status; on an unknown one always. */
  lemma HookRunsExactlyOnChange(row: Option<Install>, e: Event)
    requires e.Deactivated? || e.UninstalledBy?
    ensures row.Some? ==> (Hooks(row, e) == [] <==> Next(row, e).value.status == row.value.status)
    ensures row.None? ==> Hooks(row, e) != []
    ensures Hooks(row, e) == [] || Hooks(row, e) == [if e.Deactivated? then DeactivateHook else UninstallHook]
  {
  }

  // ---- What is kept over a sequence ----------------------------------------------------------------

  predicate IsUpsert(e: Event) {
    e.Installed? || e.Activated?
  }

  datatype ProfileField = ShopDomain | ShopName | InstalledAt

  function FieldOf(p: Profile, f: ProfileField): Option<string> {
    match f
    case ShopDomain => p.shopDomain
    case ShopName => p.shopName
    case InstalledAt => p.installedAt
  }

  /**
   * Each field of the profile is the latest that an install or activation, passed or not, brought along;
   * payloads without it change nothing.
   */
  lemma {:induction false} LatestFieldIsKept(events: seq<Event>, i: nat, f: ProfileField)
    requires i < |events| && IsUpsert(events[i]) && FieldOf(events[i].profile, f).Some?
    requires forall j :: i < j < |events| && IsUpsert(events[j]) ==> FieldOf(events[j].profile, f).None?
    ensures After(None, events).Some?
    ensures FieldOf(After(None, events).value.profile, f) == FieldOf(events[i].profile, f)
  {
    var n := |events| - 1;
    if i < n {
      LatestFieldIsKept(events[..n], i, f);
      assert IsUpsert(events[n]) ==> FieldOf(events[n].profile, f).None?;
    }
  }

  /** An install is known from its first install or activation on. */
  lemma {:induction false} KnownExactlyWhen(events: seq<Event>)
    ensures After(None, events).Some? <==> exists i :: 0 <= i < |events| && IsUpsert(events[i])
  {
    if events != [] {
      var n := |events| - 1;
      KnownExactlyWhen(events[..n]);
      assert IsUpsert(events[n]) || (exists i :: 0 <= i < n && IsUpsert(events[..n][i])) <==>
             exists i :: 0 <= i < |events| && IsUpsert(events[i]) by {
        if i :| 0 <= i < |events| && IsUpsert(events[i]) && i < n {
          assert IsUpsert(events[..n][i]);
        }
      }
    }
  }

  /** An uninstall of a known install that no install or activation follows. */
  ghost predicate UninstallsAt(events: seq<Event>, i: nat)
    requires i < |events|
  {
    && events[i].UninstalledBy? && After(None, events[..i]).Some?
    && forall j :: i < j < |events| ==> !IsUpsert(events[j])
  }

  /** An install is uninstalled exactly if it was, and nothing has installed or activated it since. */
  lemma {:induction false} UninstalledExactlyWhen(events: seq<Event>)
    ensures After(None, events).Some? && After(None, events).value.status == Uninstalled <==>
            exists i: nat :: i < |events| && UninstallsAt(events, i)
  {
    if events != [] {
      var n: nat := |events| - 1;
      var init := events[..n];
      UninstalledExactlyWhen(init);
      forall i: nat | i < n ensures UninstallsAt(events, i) <==> UninstallsAt(init, i) && !IsUpsert(events[n]) {
        assert init[..i] == events[..i];
      }
      assert UninstallsAt(events, n) <==> events[n].UninstalledBy? && After(None, init).Some?;
      if IsUpsert(events[n]) {
        assert forall i: nat :: i < |events| ==> !UninstallsAt(events, i);
      }
    }
  }

  /** An active install bears the stamp of the activation that passed last. */
  lemma {:induction false} ActiveBearsItsStamp(events: seq<Event>, i: nat)
    requires i < |events| && IsPass(events[i]) && forall j :: i < j < |events| ==> events[j].ConfigUpdated?
    ensures IsActive(After(None, events)) && After(None, events).value.stamps.activatedAt == events[i].at
  {
    var n := |events| - 1;
    if i < n {
      assert events[n].ConfigUpdated?;
      ActiveBearsItsStamp(events[..n], i);
    }
  }
}
