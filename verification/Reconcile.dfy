/** Reconciliation of the firewall's real state with the recorded one. */
module Reconcile {
  import opened Common
  import opened Text
  import opened Rbac
  import opened Inventory
  import opened PolicyEngine
  import F = Firewall

  /** `errors` are the addresses in the reported error dictionary. */
  datatype Result = Result(checked: bool, missing: set<string>, extra: set<string>, reapplied: seq<string>, errors: set<string>)

  function ReapplyRequest(w: World, ip: string): ActionRequest {
    ActionRequest(REAPPLY_ACTION, ip, if w.context.Some? then w.context.value.actor else "local_admin",
                  if w.context.Some? then w.context.value.role else DefaultRole(w.configuredRole), "", "")
  }

  /** The control plane allows the reapplication and the firewall confirms it. */
  predicate IsReapplied(w: World, ip: string, failing: set<string>) {
    && Evaluate(w, ReapplyRequest(w, ip)) == Allow
    && F.ReplyOf(w.lib.parse(ip).Some?, OperatingMode(w.storedMode, w.configuredMode), ip !in failing).Done?
  }

  /** The request for an address carries the active identity, and none of its own. */
  lemma ReapplyCarriesIdentity(w: World, ip: string)
    ensures var r := ReapplyRequest(w, ip);
            && r.actionType == "reconcile.reapply_block" && r.target == ip && r.environment == "" && r.engagementReference == ""
            && (w.context.Some? ==> Principal(r.actor, r.role) == w.context.value)
            && (w.context.None? ==> r.actor == "local_admin" && r.role in ROLES)
  {}

  /** One address is reapplied exactly when it is valid, its backend call succeeds, the stored
      mode is real and the control plane allows it. */
  lemma IsReappliedIff(w: World, ip: string, failing: set<string>)
    ensures IsReapplied(w, ip, failing) <==>
            && w.lib.parse(ip).Some? && ip !in failing
            && OperatingMode(w.storedMode, w.configuredMode) == "real"
            && Evaluate(w, ReapplyRequest(w, ip)) == Allow
  {
    hide Evaluate, OperatingMode;
  }

  class Reconciler {
    const world: World
    const firewall: F.Firewall

    constructor (world: World, firewall: F.Firewall)
      ensures this.world == world && this.firewall == firewall
    {
      this.world, this.firewall := world, firewall;
    }

    /** `_reconcile_reapply`, with the caller's test of the outcome: only an executed action
        whose primitive reports success counts as reapplied. */
    method Reapply(ip: string, failing: set<string>) returns (success: bool)
      modifies firewall
      ensures success <==> IsReapplied(world, ip, failing)
      ensures firewall.Snapshot() ==
              if success then F.AfterBlock(old(firewall.Snapshot()), ip, F.Done) else old(firewall.Snapshot())
    {
      if Evaluate(world, ReapplyRequest(world, ip)) != Allow { return false; }
      var reply := firewall.BlockIp(ip, world.lib.parse(ip).Some?, OperatingMode(world.storedMode, world.configuredMode),
                                    ip !in failing);
      return reply.Done?;
    }

    /** `check_and_reconcile`; `listable` says whether the backend can be queried, `failing`
        are the addresses for which it returns an error in this pass. */
    method CheckAndReconcile(listable: bool, failing: set<string>, autoReapply: bool) returns (r: Result)
      modifies firewall
      ensures r.checked == listable
      ensures !listable ==> r == Result(false, {}, {}, [], {}) && firewall.Snapshot() == old(firewall.Snapshot())
      ensures listable ==>
                && r.missing == old(firewall.recorded) - old(firewall.backend)
                && r.extra == old(firewall.backend) - old(firewall.recorded)
      ensures forall i, j | 0 <= i < j < |r.reapplied| :: r.reapplied[i] != r.reapplied[j]
      ensures listable && autoReapply ==> r.errors == set ip | ip in r.missing && ip !in r.reapplied
      ensures forall ip :: ip in r.reapplied <==> listable && autoReapply && ip in r.missing && IsReapplied(world, ip, failing)
      ensures firewall.recorded == old(firewall.recorded)
      ensures firewall.backend == old(firewall.backend) + set ip | ip in r.reapplied
      ensures firewall.Snapshot() == Reconciled(world, old(firewall.Snapshot()), listable && autoReapply, failing)
    {
      hide IsReapplied;
      if !listable { return Result(false, {}, {}, [], {}); }
      var actual := firewall.backend;
      var intended := firewall.recorded;
      var missing := intended - actual;
      var extra := actual - intended;
      var reapplied: seq<string> := [];
      var errors: set<string> := {};
      if autoReapply {
        var rest := missing;
        while rest != {}
          invariant rest <= missing
          invariant forall ip :: ip in reapplied <==> ip in missing - rest && IsReapplied(world, ip, failing)
          invariant errors == set ip | ip in missing - rest && !IsReapplied(world, ip, failing)
          invariant forall i, j | 0 <= i < j < |reapplied| :: reapplied[i] != reapplied[j]
          invariant firewall.recorded == intended && firewall.backend == actual + set ip | ip in reapplied
          decreases rest
        {
          var ip :| ip in rest;
          rest := rest - {ip};
          var success := Reapply(ip, failing);
          if success {
            reapplied := reapplied + [ip];
          } else {
            errors := errors + {ip};
          }
        }
      }
      return Result(true, missing, extra, reapplied, errors);
    }
  }

  /** The state after a pass that may reapply. */
  function Reconciled(w: World, s: F.State, active: bool, failing: set<string>): F.State {
    if active then s.(backend := s.backend + set ip | ip in s.recorded - s.backend && IsReapplied(w, ip, failing)) else s
  }

  function Missing(s: F.State): set<string> {
    s.recorded - s.backend
  }

  /** The identity under which the loop runs. */
  predicate UnderReconcileService(w: World) {
    w.context.Some? && w.context.value.actor == RECONCILE_ACTOR
  }

  ghost predicate KnowsReapply(w: World) {
    w.catalog(REAPPLY_ACTION) == REAPPLY_SPEC
  }

  lemma ReapplyActionText()
    ensures Strip(REAPPLY_ACTION) == REAPPLY_ACTION
  {
    NormalText(REAPPLY_ACTION);
  }

  lemma ReapplyDecision(w: World, ip: string)
    requires w.catalog(Strip(REAPPLY_ACTION)) == REAPPLY_SPEC
    ensures !UnderReconcileService(w) ==> Evaluate(w, ReapplyRequest(w, ip)) == Deny
    ensures UnderReconcileService(w) && OperatingMode(w.storedMode, w.configuredMode) == "real" ==>
              Evaluate(w, ReapplyRequest(w, ip)) ==
              if CheckTarget(w.lib, w.tables, ip, REAPPLY_ACTION, true).authorized then Allow else Deny
  {
    assert RECONCILE_ACTOR in REAPPLY_SPEC.allowedActors;
    assert forall a :: a in REAPPLY_SPEC.allowedActors <==> a == RECONCILE_ACTOR;
  }

  /** Exactly which missing addresses a healthy pass reapplies: in real mode, under the
      reconcile service, those that no target lock forbids and that the inventory allows. */
  lemma ReappliedIff(w: World, ip: string, failing: set<string>)
    requires KnowsReapply(w) && UnderReconcileService(w) && OperatingMode(w.storedMode, w.configuredMode) == "real"
    requires w.lib.parse(ip).Some? && ip !in failing
    ensures IsReapplied(w, ip, failing) <==> Evaluate(w, ReapplyRequest(w, ip)) != Deny
    ensures IsReapplied(w, ip, failing) <==> CheckTarget(w.lib, w.tables, ip, REAPPLY_ACTION, true).authorized
  {
    ReapplyActionText();
    ReapplyDecision(w, ip);
  }

  /** Convergence: in real mode, under the reconcile service and with a backend that does not
      fail, one pass leaves missing only what the policy denies, touches nothing that was
      extra, and every further pass changes nothing. */
  lemma PassConverges(w: World, s: F.State)
    requires KnowsReapply(w) && UnderReconcileService(w) && OperatingMode(w.storedMode, w.configuredMode) == "real"
    requires forall ip | ip in s.recorded :: w.lib.parse(ip).Some?
    ensures var t := Reconciled(w, s, true, {});
            && Missing(t) == (set ip | ip in Missing(s) && Evaluate(w, ReapplyRequest(w, ip)) == Deny)
            && t.backend - t.recorded == s.backend - s.recorded
            && Reconciled(w, t, true, {}) == t
  {
    forall ip | ip in Missing(s) ensures IsReapplied(w, ip, {}) <==> Evaluate(w, ReapplyRequest(w, ip)) != Deny {
      ReappliedIff(w, ip, {});
    }
  }

  /** Under any other identity nothing is reapplied: the drift is only reported. */
  lemma OthersOnlyReport(w: World, s: F.State, failing: set<string>)
    requires KnowsReapply(w) && !UnderReconcileService(w)
    ensures Reconciled(w, s, true, failing) == s
  {
    ReapplyActionText();
    forall ip ensures !IsReapplied(w, ip, failing) { ReapplyDecision(w, ip); }
  }

  /** Outside real mode nothing is reapplied either, whoever asks. */
  lemma LabOnlyReports(w: World, s: F.State, failing: set<string>)
    requires OperatingMode(w.storedMode, w.configuredMode) != "real"
    ensures Reconciled(w, s, true, failing) == s
  {
    forall ip ensures !IsReapplied(w, ip, failing) {}
  }
}
