/** Roles, permissions and principals. */
module Rbac {
  import opened Text

  const ROLES: set<string> := {"admin", "soc_analyst", "noc_operator", "auditor", "readonly", "service"}

  datatype Principal = Principal(actor: string, role: string)

  const SOC_ANALYST: set<string> := {"read", "audit", "defense.*", "investigate.*"}
  const NOC_OPERATOR: set<string> :=
    {"read", "noc.*", "defense.block_ip", "defense.unblock_ip", "billing.run_cycle.trigger"}
  const AUDITOR: set<string> := {"read", "audit"}
  const READONLY: set<string> := {"read"}
  const SERVICE: set<string> :=
    {"read", "risk.sweep_expired", "audit.checkpoint", "watchdog.check_health", "report.generate",
     "noc.block_subscriber", "noc.unblock_subscriber", "billing.run_cycle.trigger", "siem.forward_events",
     "threat_feed.refresh_lists", "monitor.auto_isolate"}

  /** `ROLE_PERMISSIONS`. */
  function RolePermissions(role: string): set<string> {
    if role == "admin" then {"*"}
    else if role == "soc_analyst" then SOC_ANALYST
    else if role == "noc_operator" then NOC_OPERATOR
    else if role == "auditor" then AUDITOR
    else if role == "readonly" then READONLY
    else if role == "service" then SERVICE
    else {}
  }

  /** `default_role`: the configured role when it is a known one. */
  function DefaultRole(configured: string): (r: string)
    ensures r in ROLES
  {
    if configured in ROLES then configured else "admin"
  }

  /** `normalize_role`: an unknown role becomes the default one. */
  function NormalizeRole(role: string, configured: string): (r: string)
    ensures r in ROLES
  {
    var r := Lower(Strip(role));
    if r in ROLES then r else DefaultRole(configured)
  }

  /** One granted pattern covers a permission: exactly, or by a ".*" prefix. */
  predicate Covers(pattern: string, permission: string) {
    pattern == permission || (EndsWith(pattern, ".*") && pattern[..|pattern| - 1] <= permission)
  }

  predicate Grants(perms: set<string>, permission: string) {
    permission == "" || "*" in perms || exists p :: p in perms && Covers(p, permission)
  }

  /** `has_permission`. */
  predicate HasPermission(role: string, permission: string, configured: string) {
    Grants(RolePermissions(NormalizeRole(role, configured)), permission)
  }

  const SET_MODE_PERMISSION := "system.operating_mode"

  /** Which role a text resolves to: itself up to case and outer white space when it is one of
      the six, else the configured default, else administrator. */
  lemma RoleResolution(role: string, configured: string)
    ensures var known := {"admin", "soc_analyst", "noc_operator", "auditor", "readonly", "service"};
            NormalizeRole(role, configured) ==
            if Lower(Strip(role)) in known then Lower(Strip(role)) else if configured in known then configured else "admin"
  {
    hide Strip, Lower;
  }

  lemma EndsInStar(pattern: string)
    ensures EndsWith(pattern, ".*") ==> pattern[|pattern| - 1] == '*'
  {
    if EndsWith(pattern, ".*") { assert pattern[|pattern| - 2..][1] == '*'; }
  }

  /** A pattern that does not end in a star covers itself and nothing else. */
  lemma ExactPattern(pattern: string, permission: string)
    requires pattern != "" && pattern[|pattern| - 1] != '*'
    ensures Covers(pattern, permission) <==> permission == pattern
  {
    hide EndsWith;
    EndsInStar(pattern);
  }

  /** A pattern that ends in ".*" covers whatever starts like it, the dot included. */
  lemma GroupPattern(group: string, permission: string)
    ensures Covers(group + ".*", permission) <==> (group + ".") <= permission
  {
    var pattern := group + ".*";
    assert pattern[|pattern| - 2..] == ".*";
    assert pattern[..|pattern| - 1] == group + ".";
  }

  const EXACT: set<string> :=
    {"read", "audit", "defense.block_ip", "defense.unblock_ip", "billing.run_cycle.trigger"}

  lemma ExactPatterns(permission: string)
    ensures forall p | p in EXACT + SERVICE :: p != "*" && (Covers(p, permission) <==> permission == p)
  {
    hide EndsWith, Covers;
    forall p | p in EXACT + SERVICE ensures p != "*" && (Covers(p, permission) <==> permission == p) {
      assert |p| >= 4 && p[|p| - 1] != '*';
      ExactPattern(p, permission);
    }
  }

  lemma GroupPatterns(permission: string)
    ensures Covers("defense.*", permission) <==> "defense." <= permission
    ensures Covers("investigate.*", permission) <==> "investigate." <= permission
    ensures Covers("noc.*", permission) <==> "noc." <= permission
  {
    hide EndsWith, Covers;
    GroupPattern("defense", permission);
    assert "defense" + ".*" == "defense.*" && "defense" + "." == "defense.";
    GroupPattern("investigate", permission);
    assert "investigate" + ".*" == "investigate.*" && "investigate" + "." == "investigate.";
    GroupPattern("noc", permission);
    assert "noc" + ".*" == "noc.*" && "noc" + "." == "noc.";
  }

  lemma HumanPatterns(permission: string)
    ensures permission != "" ==>
              && (Grants(AUDITOR, permission) <==> permission in {"read", "audit"})
              && (Grants(READONLY, permission) <==> permission == "read")
              && (Grants(SOC_ANALYST, permission) <==>
                    permission in {"read", "audit"} || "defense." <= permission || "investigate." <= permission)
              && (Grants(NOC_OPERATOR, permission) <==>
                    || permission in {"read", "defense.block_ip", "defense.unblock_ip", "billing.run_cycle.trigger"}
                    || "noc." <= permission)
  {
    hide EndsWith, Covers;
    ExactPatterns(permission);
    GroupPatterns(permission);
  }

  lemma ServicePatterns(permission: string)
    ensures permission != "" ==> (Grants(SERVICE, permission) <==> permission in SERVICE)
  {
    hide EndsWith, Covers;
    ExactPatterns(permission);
  }

  /** Everything that each role is granted, over all permissions. */
  lemma GrantedIff(role: string, permission: string, configured: string)
    ensures var r := NormalizeRole(role, configured);
            HasPermission(role, permission, configured) <==>
            || permission == "" || permission == "read" || r == "admin"
            || (permission == "audit" && (r == "auditor" || r == "soc_analyst"))
            || (r == "soc_analyst" && ("defense." <= permission || "investigate." <= permission))
            || (r == "noc_operator" &&
                  ("noc." <= permission || permission in {"defense.block_ip", "defense.unblock_ip", "billing.run_cycle.trigger"}))
            || (r == "service" && permission in
                  {"risk.sweep_expired", "audit.checkpoint", "watchdog.check_health", "report.generate", "noc.block_subscriber",
                   "noc.unblock_subscriber", "billing.run_cycle.trigger", "siem.forward_events", "threat_feed.refresh_lists",
                   "monitor.auto_isolate"})
  {
    hide Grants, NormalizeRole;
    GrantsAlways(permission);
    RoleResolution(role, configured);
    HumanPatterns(permission);
    ServicePatterns(permission);
  }

  lemma GrantsAlways(permission: string)
    ensures Grants({"*"}, permission)
    ensures permission == "" ==> forall perms :: Grants(perms, permission)
  {}

  lemma SetModeText()
    ensures !("defense." <= SET_MODE_PERMISSION) && !("investigate." <= SET_MODE_PERMISSION) && !("noc." <= SET_MODE_PERMISSION)
    ensures SET_MODE_PERMISSION !in EXACT + SERVICE && SET_MODE_PERMISSION != ""
  {
    assert SET_MODE_PERMISSION[0] == 's' && SET_MODE_PERMISSION[1] == 'y';
    assert "siem.forward_events"[1] == 'i';
  }

  /** Changing the operating mode is granted to the administrator role and to no other. */
  lemma OnlyAdminSetsMode(role: string, configured: string)
    ensures HasPermission(role, SET_MODE_PERMISSION, configured) <==> NormalizeRole(role, configured) == "admin"
  {
    hide HasPermission, NormalizeRole;
    GrantedIff(role, SET_MODE_PERMISSION, configured);
    SetModeText();
  }

  /** A role that is not in the table is treated as the configured default, so with the
      stock configuration an unknown role is an administrator. */
  lemma UnknownRoleIsDefault(role: string, configured: string)
    requires Lower(Strip(role)) !in ROLES
    ensures NormalizeRole(role, configured) == DefaultRole(configured)
    ensures HasPermission(role, SET_MODE_PERMISSION, configured) <==> DefaultRole(configured) == "admin"
  {
    OnlyAdminSetsMode(role, configured);
  }
}
