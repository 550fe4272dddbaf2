/** The deterministic policy engine: one action request in, one decision out. */
module PolicyEngine {
  import opened Common
  import opened Text
  import opened Rbac
  import opened Inventory

  datatype Risk = Low | Medium | High | Critical

  datatype ActionSpec = ActionSpec(requiredPermission: string, changesState: bool, risk: Risk, requiresToggle: string := "",
                                   requiresApproval: bool := false, needsEngagementRef: bool := false,
                                   allowedActors: seq<string> := [])

  datatype Decision = Allow | Deny | RequireApproval | DryRunOnly

  /** What is decided of an action that never waits for approval. */
  type Verdict = d: Decision | d != RequireApproval witness Deny

  datatype ActionRequest = ActionRequest(actionType: string, target: string, actor: string, role: string,
                                         environment: string, engagementReference: string)

  /** Everything a decision depends on besides the request. `catalog` is the lookup with
      its default; `context` is the authenticated principal, if any. */
  datatype World = World(lib: Library, tables: Tables, toggles: set<string>, storedMode: string, configuredMode: string,
                         configuredRole: string, catalog: string -> ActionSpec, context: Option<Principal>)

  // ---------- operating mode ----------

  const VALID_MODES: set<string> := {"real", "lab", "replay"}

  /** `get_operating_mode`: the stored mode, or the configured one, or lab. */
  function OperatingMode(stored: string, configured: string): (mode: string)
    ensures mode in VALID_MODES
  {
    if Lower(Strip(stored)) in VALID_MODES then Lower(Strip(stored))
    else if Lower(configured) in VALID_MODES then Lower(configured)
    else "lab"
  }

  /** A request that names an environment is judged by it; otherwise the stored mode counts. */
  function ModeFor(w: World, r: ActionRequest): string {
    if r.environment != "" then Lower(Strip(r.environment)) else OperatingMode(w.storedMode, w.configuredMode)
  }

  // ---------- decisions ----------

  predicate NeedsApproval(spec: ActionSpec) {
    spec.requiresApproval || spec.risk == High || spec.risk == Critical
  }

  /** `_allowed_actor_denial` found no reason to deny: the context's principal is listed. */
  predicate ActorAllowed(spec: ActionSpec, context: Option<Principal>) {
    context.Some? && context.value.actor in spec.allowedActors
  }

  predicate Identified(w: World, r: ActionRequest, spec: ActionSpec) {
    if spec.allowedActors != [] then ActorAllowed(spec, w.context)
    else HasPermission(r.role, spec.requiredPermission, w.configuredRole)
  }

  /** `evaluate`. */
  function Evaluate(w: World, r: ActionRequest): Decision {
    var spec := w.catalog(Strip(r.actionType));
    var check := CheckTarget(w.lib, w.tables, r.target, r.actionType, spec.changesState);
    if !Identified(w, r, spec) then Deny
    else if check.hardDenied then Deny
    else if spec.requiresToggle != "" && spec.requiresToggle !in w.toggles then Deny
    else if spec.needsEngagementRef && Strip(r.engagementReference) == "" then Deny
    else if !check.authorized then Deny
    else if spec.changesState && ModeFor(w, r) != "real" then DryRunOnly
    else if NeedsApproval(spec) then RequireApproval
    else Allow
  }

  /** `runtime_precheck`. */
  function RuntimePrecheck(w: World, r: ActionRequest): Decision {
    var spec := w.catalog(Strip(r.actionType));
    if !Identified(w, r, spec) then Deny
    else if CheckTarget(w.lib, w.tables, r.target, r.actionType, spec.changesState).hardDenied then Deny
    else if spec.changesState && ModeFor(w, r) != "real" then DryRunOnly
    else Allow
  }

  /** What the precheck leaves to others: the capability, the engagement reference, and the
      inventory when it is strict. */
  ghost predicate OnlyEvaluateDenies(w: World, r: ActionRequest) {
    var spec, text := w.catalog(Strip(r.actionType)), Strip(r.target);
    || (spec.requiresToggle != "" && spec.requiresToggle !in w.toggles)
    || (spec.needsEngagementRef && Strip(r.engagementReference) == "")
    || (text != "" && w.tables.strict
        && !exists a :: a in w.tables.assets && IsMatch(w.lib, w.tables.now, a, text, r.actionType))
  }

  /** The precheck never contradicts the full evaluation: it agrees on everything the
      evaluation lets through, whatever it denies the evaluation denies, and where only the
      evaluation denies it does so for exactly the three reasons the precheck leaves out. */
  lemma PrecheckAgrees(w: World, r: ActionRequest)
    ensures Evaluate(w, r) in {Allow, RequireApproval} ==> RuntimePrecheck(w, r) == Allow
    ensures Evaluate(w, r) == DryRunOnly ==> RuntimePrecheck(w, r) == DryRunOnly
    ensures RuntimePrecheck(w, r) == Deny ==> Evaluate(w, r) == Deny
    ensures RuntimePrecheck(w, r) != Deny ==> (Evaluate(w, r) == Deny <==> OnlyEvaluateDenies(w, r))
  {
    MatchesIff(w.lib, w.tables.now, w.tables.assets, Strip(r.target), r.actionType);
  }

  // ---------- the decisions in plain terms ----------

  /** The operating mode: the stored one if it is valid once stripped and lower-cased, else
      the configured one if it is valid once lower-cased, else lab. */
  lemma ModeInPlainTerms(stored: string, configured: string)
    ensures var known := {"real", "lab", "replay"};
            OperatingMode(stored, configured) ==
            if Lower(Strip(stored)) in known then Lower(Strip(stored)) else if Lower(configured) in known then Lower(configured) else "lab"
  {
    hide Lower, Strip;
  }

  /** A principal that the action lists, where it lists any, and else a role with the permission. */
  predicate MayAct(w: World, role: string, spec: ActionSpec) {
    if |spec.allowedActors| == 0 then HasPermission(role, spec.requiredPermission, w.configuredRole)
    else match w.context
         case None => false
         case Some(who) => exists i :: 0 <= i < |spec.allowedActors| && spec.allowedActors[i] == who.actor
  }

  /** The runtime precheck from the tables directly: it denies exactly where the identity may
      not act, or the action changes state and its target is an address inside a block
      registered as critical, a loopback or link-local one, or a reserved, multicast or
      unspecified one that is not private. Otherwise only the mode can hold a change back. */
  lemma PrecheckIff(w: World, r: ActionRequest)
    ensures var spec, text := w.catalog(Strip(r.actionType)), Strip(r.target);
            && (RuntimePrecheck(w, r) == Deny <==>
                  || !MayAct(w, r.role, spec)
                  || (spec.changesState && text != "" && w.lib.parse(text).Some?
                      && (|| (exists i :: 0 <= i < |w.tables.blocks| && w.tables.blocks[i].isCritical
                                          && w.lib.inCidr(text, w.tables.blocks[i].cidr))
                          || w.lib.parse(text).value.isLoopback
                          || w.lib.parse(text).value.isLinkLocal
                          || (!w.lib.parse(text).value.isPrivate
                              && (|| w.lib.parse(text).value.isReserved
                                  || w.lib.parse(text).value.isMulticast
                                  || w.lib.parse(text).value.isUnspecified)))))
            && (RuntimePrecheck(w, r) == DryRunOnly <==>
                  RuntimePrecheck(w, r) != Deny && spec.changesState && ModeFor(w, r) != "real")
            && RuntimePrecheck(w, r) != RequireApproval
  {
    hide CheckTarget, IsForbidden, HasPermission, ModeFor, Strip;
    var spec := w.catalog(Strip(r.actionType));
    CheckTargetIff(w.lib, w.tables, r.target, r.actionType, spec.changesState);
    LockedIff(w.lib, w.tables, Strip(r.target));
  }

  /** Exactly what a request needs so as not to be denied: an identity that may act, a target
      that no lock covers and that the inventory covers where it must, its capability switched
      on and its engagement reference given. Then a state change outside real mode is a dry
      run, and otherwise the risk or the action's own mark asks for approval. */
  lemma NotDeniedIff(w: World, r: ActionRequest)
    ensures var spec, text := w.catalog(Strip(r.actionType)), Strip(r.target);
            Evaluate(w, r) != Deny <==>
              && MayAct(w, r.role, spec)
              && (text != "" && spec.changesState ==> !IsForbidden(w.lib, w.tables, text))
              && (text != "" && w.tables.strict ==>
                    exists a :: a in w.tables.assets && IsMatch(w.lib, w.tables.now, a, text, r.actionType))
              && (spec.requiresToggle != "" ==> spec.requiresToggle in w.toggles)
              && (spec.needsEngagementRef ==> Strip(r.engagementReference) != "")
    ensures var spec := w.catalog(Strip(r.actionType));
            var mode := if r.environment == "" then OperatingMode(w.storedMode, w.configuredMode)
                        else Lower(Strip(r.environment));
            Evaluate(w, r) != Deny ==>
              Evaluate(w, r) == if spec.changesState && mode != "real" then DryRunOnly
                                else if spec.requiresApproval || (spec.risk != Low && spec.risk != Medium) then RequireApproval
                                else Allow
  {
    hide CheckTarget, IsForbidden, IsMatch, HasPermission, OperatingMode, Lower, Strip;
    var spec := w.catalog(Strip(r.actionType));
    CheckTargetIff(w.lib, w.tables, r.target, r.actionType, spec.changesState);
  }

  /** A critical address cannot be acted on: whatever the identity, the mode and the inventory,
      a state-changing request for it is denied by both evaluations. */
  lemma CriticalTargetIsDenied(w: World, r: ActionRequest, b: Block)
    requires w.catalog(Strip(r.actionType)).changesState && Strip(r.target) != ""
    requires b in w.tables.blocks && b.isCritical && w.lib.inCidr(Strip(r.target), b.cidr) && w.lib.parse(Strip(r.target)).Some?
    ensures Evaluate(w, r) == Deny && RuntimePrecheck(w, r) == Deny
  {
    hide Evaluate, RuntimePrecheck, MayAct, ModeFor, Strip;
    var i :| 0 <= i < |w.tables.blocks| && w.tables.blocks[i] == b;
    PrecheckIff(w, r);
    PrecheckAgrees(w, r);
  }

  // ---------- monotonicity ----------

  ghost predicate SameButForTables(w: World, v: World, r: ActionRequest) {
    && w.lib == v.lib && w.catalog(Strip(r.actionType)) == v.catalog(Strip(r.actionType)) && w.context == v.context
    && w.configuredRole == v.configuredRole && w.storedMode == v.storedMode && w.configuredMode == v.configuredMode
    && w.tables.now == v.tables.now
  }

  /** `v` has every block of `w` and maybe more, is at least as strict, and has no more
      capabilities switched on. */
  ghost predicate Tightened(w: World, v: World, r: ActionRequest) {
    && SameButForTables(w, v, r)
    && (forall b | b in w.tables.blocks :: b in v.tables.blocks)
    && w.tables.assets == v.tables.assets
    && (w.tables.strict ==> v.tables.strict)
    && v.toggles <= w.toggles
  }

  /** Adding critical blocks, turning on strict inventory or turning off capabilities can
      only move a decision to DENY. */
  lemma TighteningOnlyDenies(w: World, v: World, r: ActionRequest)
    requires Tightened(w, v, r)
    ensures Evaluate(v, r) == Evaluate(w, r) || Evaluate(v, r) == Deny
  {
    var spec := w.catalog(Strip(r.actionType));
    var text := Strip(r.target);
    if IsForbidden(w.lib, w.tables, text) {
      assert IsForbidden(v.lib, v.tables, text);
    }
  }

  /** `v` has every asset of `w` and maybe more. */
  ghost predicate MoreAssets(w: World, v: World, r: ActionRequest) {
    && SameButForTables(w, v, r) && w.tables.blocks == v.tables.blocks && w.tables.strict == v.tables.strict
    && w.toggles == v.toggles
    && (forall a | a in w.tables.assets :: a in v.tables.assets)
  }

  /** Authorizing further assets never denies what was not denied before. */
  lemma MoreAssetsNeverDeny(w: World, v: World, r: ActionRequest)
    requires MoreAssets(w, v, r) && Evaluate(w, r) != Deny
    ensures Evaluate(v, r) == Evaluate(w, r)
  {
    var text := Strip(r.target);
    MatchesIff(w.lib, w.tables.now, w.tables.assets, text, r.actionType);
    MatchesIff(v.lib, v.tables.now, v.tables.assets, text, r.actionType);
  }

  /** An environment in the request overrides the stored mode in this layer. */
  lemma EnvironmentOverridesStoredMode(w: World, r: ActionRequest)
    requires w.catalog(Strip(r.actionType)).changesState && Evaluate(w, r) != Deny
    ensures Evaluate(w, r) == DryRunOnly <==>
            (if r.environment != "" then Lower(Strip(r.environment)) != "real"
             else OperatingMode(w.storedMode, w.configuredMode) != "real")
  {}

  // ---------- the catalogue ----------

  const SET_MODE_ACTION := "set_operating_mode"
  const SET_MODE_SPEC := ActionSpec(SET_MODE_PERMISSION, false, Medium)
  const REAPPLY_ACTION := "reconcile.reapply_block"
  const RECONCILE_ACTOR := "service:reconcile"
  const REAPPLY_SPEC := ActionSpec("", true, Medium, allowedActors := [RECONCILE_ACTOR])
  const BLOCK_SUBSCRIBER_ACTION := "block_subscriber"
  const BLOCK_SUBSCRIBER_SPEC := ActionSpec("noc.block_subscriber", true, Medium)
  const UNBLOCK_SUBSCRIBER_ACTION := "unblock_subscriber"
  const UNBLOCK_SUBSCRIBER_SPEC := ActionSpec("noc.unblock_subscriber", true, Medium)
  const DEFAULT_SPEC := ActionSpec("", true, Medium)

  /** `ACTION_CATALOG` with its default; the order of the entries does not matter. */
  function StockCatalog(action: string): ActionSpec {
    if action == SET_MODE_ACTION then SET_MODE_SPEC
    else if action == REAPPLY_ACTION then REAPPLY_SPEC
    else if action == "honeypot.auto_isolate" then ActionSpec("", true, Medium, allowedActors := ["service:honeypot"])
    else if action == "honeytoken.auto_isolate" then ActionSpec("", true, Medium, allowedActors := ["service:honeytoken"])
    else if action == "playbook.auto_isolate" then ActionSpec("", true, Medium, allowedActors := ["service:playbook"])
    else if action == "siem.forward_events" then ActionSpec("siem.forward_events", true, Medium)
    else if action == BLOCK_SUBSCRIBER_ACTION then BLOCK_SUBSCRIBER_SPEC
    else if action == UNBLOCK_SUBSCRIBER_ACTION then UNBLOCK_SUBSCRIBER_SPEC
    else DefenseCatalog(action)
  }

  function DefenseCatalog(action: string): (spec: ActionSpec)
    ensures spec.allowedActors == []
  {
    if action == "read" || action == "status" || action == "list" then ActionSpec("read", false, Low)
    else if action == "audit_verify" || action == "audit_export" then ActionSpec("audit", false, Low)
    else if action == "block_ip" || action == "isolate_ip" then ActionSpec("defense.block_ip", true, Medium)
    else if action == "unblock_ip" then ActionSpec("defense.unblock_ip", true, Medium)
    else ContainmentCatalog(action)
  }

  function ContainmentCatalog(action: string): (spec: ActionSpec)
    ensures spec.allowedActors == []
  {
    if action == "rate_limit_ip" then ActionSpec("defense.rate_limit_ip", true, Medium)
    else if action == "unrate_limit_ip" then ActionSpec("defense.unrate_limit_ip", true, Medium)
    else if action == "report_ip_to_abuseipdb" then ActionSpec("reputation.report_ip", true, Medium)
    else if action == "honeypot_start" || action == "honeypot_stop" then ActionSpec("defense.honeypot", true, Medium)
    else if action == "plant_decoy_file" then ActionSpec("deception.plant_decoy_file", true, Medium)
    else if action == "deploy_decoy_host" then ActionSpec("deception.deploy_decoy_host", true, Medium)
    else InfrastructureCatalog(action)
  }

  function InfrastructureCatalog(action: string): (spec: ActionSpec)
    ensures spec.allowedActors == []
  {
    if action == "run_billing_cycle" then ActionSpec("noc.billing", true, High)
    else if action == "device_check" then ActionSpec("noc.device_check", false, Low)
    else if action == "ssh_command" || action == "network_device_read_command" then ActionSpec("investigate.ssh", false, Medium)
    else if action == "network_device_write_command" then
      ActionSpec("infra.network_device_write", true, High, requiresApproval := true)
    else if action == "mikrotik_write" then ActionSpec("infra.mikrotik_write", true, High, requiresApproval := true)
    else if action == "asn_block" then ActionSpec("infra.asn_block", true, Critical, "ALLOW_ASN_BLOCK", true)
    else if action == "bgp_flowspec" then ActionSpec("infra.bgp", true, Critical, requiresApproval := true)
    else if action == "brbos_block_domain" then ActionSpec("infra.brbos_block", true, High, "ALLOW_BRBOS_BLOCK", true)
    else OffenseCatalog(action)
  }

  function OffenseCatalog(action: string): (spec: ActionSpec)
    ensures spec.allowedActors == []
  {
    if action == "run_exploit" then ActionSpec("offense.exploit", true, Critical, "ALLOW_ACTIVE_EXPLOITATION", true)
    else if action == "brute_force" then ActionSpec("offense.bruteforce", true, Critical, "ALLOW_ACTIVE_EXPLOITATION", true)
    else if action == "run_sqlmap" then ActionSpec("offense.sqlmap", true, Critical, "ALLOW_ACTIVE_EXPLOITATION", true)
    else if action == "social_engineering" then
      ActionSpec("social.generate", false, High, "ALLOW_SOCIAL_ENGINEERING", needsEngagementRef := true)
    else LoopCatalog(action)
  }

  function LoopCatalog(action: string): (spec: ActionSpec)
    ensures spec.allowedActors == []
  {
    if action == "risk.sweep_expired" then ActionSpec("risk.sweep_expired", true, Low)
    else if action == "audit.checkpoint" then ActionSpec("audit.checkpoint", true, Medium)
    else if action == "watchdog.check_health" then ActionSpec("watchdog.check_health", true, Medium)
    else if action == "report.generate" then ActionSpec("report.generate", false, Medium)
    else if action == "billing.run_cycle.trigger" then ActionSpec("billing.run_cycle.trigger", false, Low)
    else if action == "threat_feed.refresh_lists" then ActionSpec("threat_feed.refresh_lists", true, Medium)
    else if action == "monitor.auto_isolate" then ActionSpec("monitor.auto_isolate", true, Medium)
    else DEFAULT_SPEC
  }

  /** Four actions are reserved for one service principal each, and no other is reserved. */
  lemma ReservedActions(action: string)
    ensures StockCatalog(action).allowedActors ==
            if action == "honeypot.auto_isolate" then ["service:honeypot"]
            else if action == "honeytoken.auto_isolate" then ["service:honeytoken"]
            else if action == "playbook.auto_isolate" then ["service:playbook"]
            else if action == "reconcile.reapply_block" then ["service:reconcile"]
            else []
  {
    hide DefenseCatalog;
    assert SET_MODE_ACTION[0] == 's' && BLOCK_SUBSCRIBER_ACTION[0] == 'b' && UNBLOCK_SUBSCRIBER_ACTION[0] == 'u';
    assert "siem.forward_events"[0] == 's';
  }

  // ---------- what the catalogue holds back ----------

  /** How an action in real mode, by a permitted identity, is treated. */
  datatype Treatment =
    | Reads        // at once, in every mode
    | Immediate    // at once, and only in real mode
    | Waits        // for approval, and only in real mode
    | Generates    // for approval and an engagement reference, in every mode

  function TreatmentOf(spec: ActionSpec): Treatment {
    if spec.changesState then (if NeedsApproval(spec) then Waits else Immediate)
    else if NeedsApproval(spec) then Generates else Reads
  }

  /** One line of the catalogue: the action, how it is treated, its risk, the permission that
      opens it and the capability that it needs. */
  datatype Line = Line(action: string, treatment: Treatment, risk: Risk, permission: string, capability: string)

  function LineOf(action: string, spec: ActionSpec): Line {
    Line(action, TreatmentOf(spec), spec.risk, spec.requiredPermission, spec.requiresToggle)
  }

  /** Lines whose permission is named like the action. */
  predicate IsLoopLine(line: Line) {
    line.action == line.permission && line.capability == "" &&
    match (line.treatment, line.risk)
    case (Reads, Low) => line.action == "billing.run_cycle.trigger"
    case (Reads, Medium) => line.action == "report.generate"
    case (Immediate, Low) => line.action == "risk.sweep_expired"
    case (Immediate, Medium) =>
      line.action in {"audit.checkpoint", "watchdog.check_health", "threat_feed.refresh_lists", "monitor.auto_isolate"}
    case _ => false
  }

  predicate IsOffenseLine(line: Line) {
    line in {Line("run_exploit", Waits, Critical, "offense.exploit", "ALLOW_ACTIVE_EXPLOITATION"),
             Line("brute_force", Waits, Critical, "offense.bruteforce", "ALLOW_ACTIVE_EXPLOITATION"),
             Line("run_sqlmap", Waits, Critical, "offense.sqlmap", "ALLOW_ACTIVE_EXPLOITATION"),
             Line("social_engineering", Generates, High, "social.generate", "ALLOW_SOCIAL_ENGINEERING")}
  }

  predicate IsInfrastructureLine(line: Line) {
    line in {Line("run_billing_cycle", Waits, High, "noc.billing", ""),
             Line("network_device_write_command", Waits, High, "infra.network_device_write", ""),
             Line("mikrotik_write", Waits, High, "infra.mikrotik_write", ""),
             Line("bgp_flowspec", Waits, Critical, "infra.bgp", ""),
             Line("asn_block", Waits, Critical, "infra.asn_block", "ALLOW_ASN_BLOCK"),
             Line("brbos_block_domain", Waits, High, "infra.brbos_block", "ALLOW_BRBOS_BLOCK"),
             Line("device_check", Reads, Low, "noc.device_check", ""),
             Line("ssh_command", Reads, Medium, "investigate.ssh", ""),
             Line("network_device_read_command", Reads, Medium, "investigate.ssh", "")}
  }

  predicate IsDefenseLine(line: Line) {
    line.capability == "" &&
    match (line.treatment, line.risk)
    case (Reads, Low) =>
      || (line.action in {"read", "status", "list"} && line.permission == "read")
      || (line.action in {"audit_verify", "audit_export"} && line.permission == "audit")
    case (Immediate, Medium) =>
      || (line.action in {"block_ip", "isolate_ip"} && line.permission == "defense.block_ip")
      || (line.action == "unblock_ip" && line.permission == "defense.unblock_ip")
    case _ => false
  }

  predicate IsContainmentLine(line: Line) {
    line.capability == "" && line.treatment == Immediate && line.risk == Medium &&
    (|| (line.action in {"honeypot_start", "honeypot_stop"} && line.permission == "defense.honeypot")
     || (line.action, line.permission) in {("rate_limit_ip", "defense.rate_limit_ip"),
                                           ("unrate_limit_ip", "defense.unrate_limit_ip"),
                                           ("report_ip_to_abuseipdb", "reputation.report_ip"),
                                           ("plant_decoy_file", "deception.plant_decoy_file"),
                                           ("deploy_decoy_host", "deception.deploy_decoy_host")})
  }

  predicate IsServiceLine(line: Line) {
    line.capability == "" && line.risk == Medium &&
    match line.treatment
    case Reads => line.action == "set_operating_mode" && line.permission == "system.operating_mode"
    case Immediate =>
      || (line.action in {"honeypot.auto_isolate", "honeytoken.auto_isolate", "playbook.auto_isolate", "reconcile.reapply_block"}
          && line.permission == "")
      || (line.action, line.permission) in {("siem.forward_events", "siem.forward_events"),
                                            ("block_subscriber", "noc.block_subscriber"),
                                            ("unblock_subscriber", "noc.unblock_subscriber")}
    case _ => false
  }

  predicate IsLine(line: Line) {
    IsServiceLine(line) || IsDefenseLine(line) || IsContainmentLine(line)
    || IsInfrastructureLine(line) || IsOffenseLine(line) || IsLoopLine(line)
  }

  /** Only the generator of social-engineering text asks for an engagement reference, and all
      that waits is marked for approval besides its risk, except that generator and the billing
      cycle. */
  predicate MarksFit(action: string, spec: ActionSpec) {
    && (spec.needsEngagementRef <==> TreatmentOf(spec) == Generates)
    && (spec.needsEngagementRef ==> action == "social_engineering")
    && (spec.requiresApproval ==> TreatmentOf(spec) == Waits)
    && (!spec.requiresApproval && TreatmentOf(spec) == Waits ==> action == "run_billing_cycle")
  }

  lemma LoopLines(action: string)
    ensures var spec := LoopCatalog(action);
            && MarksFit(action, spec)
            && (IsLoopLine(LineOf(action, spec))
                || (spec == DEFAULT_SPEC && action !in
                      {"report.generate", "billing.run_cycle.trigger", "risk.sweep_expired", "audit.checkpoint",
                       "watchdog.check_health", "threat_feed.refresh_lists", "monitor.auto_isolate"}))
  {}

  lemma OffenseLines(action: string)
    ensures var spec := OffenseCatalog(action);
            || (IsOffenseLine(LineOf(action, spec)) && MarksFit(action, spec))
            || (spec == LoopCatalog(action) && action !in {"run_exploit", "brute_force", "run_sqlmap", "social_engineering"})
  {
    hide LoopCatalog;
  }

  lemma InfrastructureLines(action: string)
    ensures var spec := InfrastructureCatalog(action);
            || (IsInfrastructureLine(LineOf(action, spec)) && MarksFit(action, spec))
            || (spec == OffenseCatalog(action) && action !in
                  {"run_billing_cycle", "network_device_write_command", "mikrotik_write", "bgp_flowspec", "asn_block",
                   "brbos_block_domain", "device_check", "ssh_command", "network_device_read_command"})
  {
    hide OffenseCatalog;
  }

  lemma ContainmentLines(action: string)
    ensures var spec := ContainmentCatalog(action);
            || (IsContainmentLine(LineOf(action, spec)) && MarksFit(action, spec))
            || (spec == InfrastructureCatalog(action) && action !in
                  {"honeypot_start", "honeypot_stop", "rate_limit_ip", "unrate_limit_ip", "report_ip_to_abuseipdb",
                   "plant_decoy_file", "deploy_decoy_host"})
  {
    hide InfrastructureCatalog;
  }

  lemma DefenseLines(action: string)
    ensures var spec := DefenseCatalog(action);
            || (IsDefenseLine(LineOf(action, spec)) && MarksFit(action, spec))
            || (spec == ContainmentCatalog(action) && action !in
                  {"read", "status", "list", "audit_verify", "audit_export", "block_ip", "isolate_ip", "unblock_ip"})
  {
    hide ContainmentCatalog;
  }

  lemma ServiceLines(action: string)
    ensures var spec := StockCatalog(action);
            || (IsServiceLine(LineOf(action, spec)) && MarksFit(action, spec))
            || (spec == DefenseCatalog(action) && action !in
                  {"set_operating_mode", "honeypot.auto_isolate", "honeytoken.auto_isolate", "playbook.auto_isolate",
                   "reconcile.reapply_block", "siem.forward_events", "block_subscriber", "unblock_subscriber"})
  {
    hide DefenseCatalog;
  }

  /** The stock catalogue, told by treatment: every action is one of the lines above, or it is
      in none of them, and then any role may have it done at once in real mode. */
  lemma CatalogLines(action: string)
    ensures var spec := StockCatalog(action);
            (IsLine(LineOf(action, spec)) || spec == ActionSpec("", true, Medium)) && MarksFit(action, spec)
  {
    hide StockCatalog, DefenseCatalog, ContainmentCatalog, InfrastructureCatalog, OffenseCatalog, LoopCatalog, MarksFit,
         IsServiceLine, IsDefenseLine, IsContainmentLine, IsInfrastructureLine, IsOffenseLine, IsLoopLine;
    ServiceLines(action);
    DefenseLines(action);
    ContainmentLines(action);
    InfrastructureLines(action);
    OffenseLines(action);
    LoopLines(action);
  }

  /** What the governance theorems need of a catalogue. */
  ghost predicate IsGoverned(catalog: string -> ActionSpec) {
    && catalog(SET_MODE_ACTION) == SET_MODE_SPEC
    && forall a :: catalog(a).allowedActors != [] ==> !NeedsApproval(catalog(a)) && catalog(a).changesState
  }

  lemma StockCatalogIsGoverned()
    ensures IsGoverned(StockCatalog)
    ensures StockCatalog(REAPPLY_ACTION) == REAPPLY_SPEC
  {
    assert REAPPLY_ACTION[0] == 'r' && SET_MODE_ACTION[0] == 's';
  }
}
