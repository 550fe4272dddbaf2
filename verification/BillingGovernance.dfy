/** Billing under the policy engine: what the control plane decides for a block or an
    unblock, and what that means for a cycle. */
module BillingGovernance {
  import opened Common
  import opened Text
  import opened Rbac
  import opened Inventory
  import P = PolicyEngine
  import opened Billing
  import opened BillingCycle

  const BILLING_PRINCIPAL := Principal("service:billing", "service")

  function ActionOf(op: Operation): string {
    if op == BlockOp then P.BLOCK_SUBSCRIBER_ACTION else P.UNBLOCK_SUBSCRIBER_ACTION
  }

  ghost predicate KnowsBilling(catalog: string -> P.ActionSpec) {
    && catalog(P.BLOCK_SUBSCRIBER_ACTION) == P.BLOCK_SUBSCRIBER_SPEC
    && catalog(P.UNBLOCK_SUBSCRIBER_ACTION) == P.UNBLOCK_SUBSCRIBER_SPEC
  }

  lemma StockCatalogKnowsBilling()
    ensures KnowsBilling(P.StockCatalog)
  {
    assert P.BLOCK_SUBSCRIBER_ACTION[0] == 'b' && P.UNBLOCK_SUBSCRIBER_ACTION[0] == 'u';
  }

  /** `_billing_principal_context`: the identity already active, and the billing service only
      where there is none. */
  function EffectivePrincipal(context: Option<Principal>): Principal {
    if context.Some? then context.value else BILLING_PRINCIPAL
  }

  function RequestFor(w: P.World, op: Operation, ip: string): P.ActionRequest {
    var who := EffectivePrincipal(w.context);
    P.ActionRequest(ActionOf(op), ip, who.actor, who.role, "", "")
  }

  /** The control plane's answer as billing sees it. An action that waits for approval would
      be taken for a success; it is excluded by the catalogue. */
  function DecideBy(w: P.World): (Operation, string) -> P.Verdict {
    (op, ip) =>
      match P.Evaluate(w.(context := Some(EffectivePrincipal(w.context))), RequestFor(w, op, ip))
      case RequireApproval => P.Allow
      case Allow => P.Allow
      case Deny => P.Deny
      case DryRunOnly => P.DryRunOnly
  }

  /** What billing makes of each decision on its request, whatever the catalogue says. */
  lemma DecideByIff(w: P.World, op: Operation, ip: string)
    ensures var asked := w.(context := if w.context.Some? then w.context else Some(Principal("service:billing", "service")));
            var d := P.Evaluate(asked, P.ActionRequest(if op == BlockOp then "block_subscriber" else "unblock_subscriber", ip,
                                                       asked.context.value.actor, asked.context.value.role, "", ""));
            && (DecideBy(w)(op, ip) == P.Deny <==> d == P.Deny)
            && (DecideBy(w)(op, ip) == P.DryRunOnly <==> d == P.DryRunOnly)
  {
    hide P.Evaluate;
  }

  lemma ActionText(op: Operation)
    ensures Strip(ActionOf(op)) == ActionOf(op)
  {
    hide Strip, Lower, LowerChar;
    NormalText(P.BLOCK_SUBSCRIBER_ACTION);
    NormalText(P.UNBLOCK_SUBSCRIBER_ACTION);
  }

  /** Exactly when billing may touch the router: real mode, a role with the operation's own
      permission (the active identity's, and the billing service's only where nobody is
      acting) and a target that passes the inventory. Nothing ever waits for approval. */
  lemma DecisionIff(w: P.World, op: Operation, ip: string)
    requires KnowsBilling(w.catalog)
    ensures var role := if w.context.Some? then w.context.value.role else "service";
            var action := if op == BlockOp then "block_subscriber" else "unblock_subscriber";
            var permission := if op == BlockOp then "noc.block_subscriber" else "noc.unblock_subscriber";
            && P.Evaluate(w.(context := Some(EffectivePrincipal(w.context))), RequestFor(w, op, ip)) != P.RequireApproval
            && (DecideBy(w)(op, ip) == P.Allow <==>
                  && P.OperatingMode(w.storedMode, w.configuredMode) == "real"
                  && HasPermission(role, permission, w.configuredRole)
                  && CheckTarget(w.lib, w.tables, ip, action, true).authorized)
  {
    hide HasPermission, CheckTarget, Strip, P.OperatingMode;
    ActionText(op);
    HardDenialIsDenial(w, ip, ActionOf(op));
  }

  lemma HardDenialIsDenial(w: P.World, ip: string, action: string)
    ensures CheckTarget(w.lib, w.tables, ip, action, true).hardDenied ==>
              !CheckTarget(w.lib, w.tables, ip, action, true).authorized
  {}

  /** A billing cycle outside real mode changes no subscriber and no rule, whoever runs it. */
  lemma LabCycleChangesNothing(w: P.World, blocks: seq<Block>, s: State, minDays: int, maxBatch: int, dryRun: bool,
                               failing: set<string>)
    requires KnowsBilling(w.catalog) && P.OperatingMode(w.storedMode, w.configuredMode) != "real"
    ensures AfterCycle(Config(w.lib, blocks, DecideBy(w)), s, minDays, maxBatch, dryRun, failing) == s
  {
    hide P.OperatingMode, HasPermission, CheckTarget;
    var c := Config(w.lib, blocks, DecideBy(w));
    forall op, ip ensures !Succeeds(c, op, ip, failing) {
      DecisionIff(w, op, ip);
    }
    NothingGoesThrough(c, s, Delinquent(s.subs, minDays), failing);
    NothingGoesThrough(c, s, Reactivatable(s.subs), failing);
  }
}
