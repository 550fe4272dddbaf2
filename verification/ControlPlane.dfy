/** Whole runs under governance: nested identity contexts, requests with the code they
    execute, mode changes through both doors, human approvals, and direct calls of the
    firewall primitives from anywhere. */
module ControlPlane {
  import opened Common
  import opened Text
  import opened Rbac
  import opened Inventory
  import opened PolicyEngine
  import F = Firewall

  /** What code can do. The body of an `Act` is its executor. */
  datatype Stmt =
    | WithPrincipal(who: Principal, body: seq<Stmt>)
    | Act(action: string, target: string, actor: string, role: string, environment: string, engagement: string,
          tool: string, body: seq<Stmt>)
    | Block(ip: string, ok: bool)
    | Unblock(ip: string, ok: bool)
    | WriteMode(mode: string)
    | RestSetMode(who: Principal, mode: string)
    | Configure(tables: Tables, toggles: set<string>)
    | Raise

  /** A change of the backend, with the operating mode at that moment. */
  datatype Write = Write(ip: string, blocking: bool, mode: string)

  datatype Execution = Execution(action: string, context: Option<Principal>)

  /** What the approval gate runs for a registered name. */
  datatype Executor = Executor(action: string, body: seq<Stmt>)

  /** `pending` are the registered names under which actions wait for approval. */
  datatype State = State(world: World, firewall: F.State, writes: seq<Write>, executed: seq<Execution>,
                         registry: map<string, Executor>, pending: seq<string>)

  datatype Outcome = Outcome(state: State, raised: bool)

  /** Top level: a piece of code that runs to its end, or a human who approves a pending
      action while some identity is active. Approval runs whatever is registered under the
      action's name by then, without asking the policy again. */
  datatype Event = Session(code: seq<Stmt>) | Approve(who: Option<Principal>, n: nat)

  // ---------- semantics ----------

  function Mode(s: State): string {
    OperatingMode(s.world.storedMode, s.world.configuredMode)
  }

  /** `make_request`: explicit identity, else the context's, else the local default. */
  function MakeRequest(w: World, action: string, target: string, actor: string, role: string, environment: string,
                       engagement: string, defaultActor: string): ActionRequest {
    ActionRequest(action, target,
                  if actor != "" then actor else if w.context.Some? then w.context.value.actor else defaultActor,
                  if role != "" then role else if w.context.Some? then w.context.value.role else DefaultRole(w.configuredRole),
                  environment, engagement)
  }

  const DEFAULT_ACTOR := "local_admin"

  function RequestOf(w: World, st: Stmt): ActionRequest
    requires st.Act?
  {
    MakeRequest(w, st.action, st.target, st.actor, st.role, st.environment, st.engagement, DEFAULT_ACTOR)
  }

  /** `set_operating_mode` of the operating-mode module: an invalid mode raises. */
  function ModeWritten(s: State, mode: string): Outcome {
    var m := Lower(Strip(mode));
    if m in VALID_MODES then Outcome(s.(world := s.world.(storedMode := m)), false) else Outcome(s, true)
  }

  function FirewallCall(s: State, ip: string, blocking: bool, ok: bool): Outcome {
    var reply := F.ReplyOf(s.world.lib.parse(ip).Some?, Mode(s), ok);
    var next := if blocking then F.AfterBlock(s.firewall, ip, reply) else F.AfterUnblock(s.firewall, ip, reply);
    Outcome(s.(firewall := next, writes := if reply.Done? then s.writes + [Write(ip, blocking, Mode(s))] else s.writes),
            reply.InvalidAddress?)
  }

  function Exec(st: Stmt, s: State): Outcome
    decreases st, 1
  {
    match st
    case WithPrincipal(who, body) =>
      var inner := ExecAll(body, s.(world := s.world.(context := Some(who))));
      Outcome(inner.state.(world := inner.state.world.(context := s.world.context)), inner.raised)
    case Act(action, _, _, _, _, _, tool, body) =>
      match Evaluate(s.world, RequestOf(s.world, st)) {
        case Deny => Outcome(s, false)
        case DryRunOnly => Outcome(s, false)
        case RequireApproval =>
          var name := if tool != "" then tool else action;
          Outcome(s.(registry := s.registry[name := Executor(action, body)], pending := s.pending + [name]), false)
        case Allow =>
          Outcome(ExecAll(body, s.(executed := s.executed + [Execution(action, s.world.context)])).state, false)
      }
    case Block(ip, ok) => FirewallCall(s, ip, true, ok)
    case Unblock(ip, ok) => FirewallCall(s, ip, false, ok)
    case WriteMode(mode) => ModeWritten(s, mode)
    case RestSetMode(who, mode) =>
      if HasPermission(who.role, SET_MODE_PERMISSION, s.world.configuredRole) then Outcome(ModeWritten(s, mode).state, false)
      else Outcome(s, false)
    case Configure(tables, toggles) => Outcome(s.(world := s.world.(tables := tables, toggles := toggles)), false)
    case Raise => Outcome(s, true)
  }

  function ExecAll(code: seq<Stmt>, s: State): Outcome
    decreases code, 0
  {
    if code == [] then Outcome(s, false)
    else
      var first := Exec(code[0], s);
      if first.raised then first else ExecAll(code[1..], first.state)
  }

  function Happens(s: State, e: Event): State {
    match e
    case Session(code) => ExecAll(code, s).state
    case Approve(who, n) =>
      if n < |s.pending| && s.pending[n] in s.registry then
        var p := s.registry[s.pending[n]];
        var start := s.(world := s.world.(context := who), executed := s.executed + [Execution(p.action, who)]);
        var end := ExecAll(p.body, start).state;
        end.(world := end.world.(context := s.world.context))
      else s
  }

  function Run(s: State, events: seq<Event>): State
    decreases events
  {
    if events == [] then s else Run(Happens(s, events[0]), events[1..])
  }

  // ---------- single statements in plain terms ----------

  /** What a request asks for: the action, target, environment and engagement that the caller
      names, and an identity whose two parts are each the one named, else the active one. */
  lemma RequestIs(w: World, st: Stmt)
    requires st.Act?
    ensures var r := RequestOf(w, st);
            && r.actionType == st.action && r.target == st.target
            && r.environment == st.environment && r.engagementReference == st.engagement
            && (st.actor != "" ==> r.actor == st.actor) && (st.role != "" ==> r.role == st.role)
            && (st.actor == "" && w.context.Some? ==> r.actor == w.context.value.actor)
            && (st.role == "" && w.context.Some? ==> r.role == w.context.value.role)
            && (st.actor == "" && w.context.None? ==> r.actor == "local_admin")
            && (st.role == "" && w.context.None? ==> r.role == if w.configuredRole in ROLES then w.configuredRole else "admin")
  {}

  /** Code runs in order, and nothing after a statement that raises. */
  lemma {:induction false} CodeRunsInOrder(front: seq<Stmt>, back: seq<Stmt>, s: State)
    ensures ExecAll(front + back, s) ==
            if ExecAll(front, s).raised then ExecAll(front, s) else ExecAll(back, ExecAll(front, s).state)
    decreases |front|
  {
    hide Exec;
    if front == [] {
      assert front + back == back;
    } else {
      assert (front + back)[1..] == front[1..] + back;
      CodeRunsInOrder(front[1..], back, Exec(front[0], s).state);
    }
  }

  /** One statement is code; raising stops it, changing the tables does not, and code under a
      principal raises exactly when its body does. */
  lemma SingleStatements(st: Stmt, s: State)
    ensures ExecAll([st], s) == Exec(st, s)
    ensures st == Raise ==> Exec(st, s) == Outcome(s, true)
    ensures st.Configure? ==>
              Exec(st, s) == Outcome(s.(world := s.world.(tables := st.tables, toggles := st.toggles)), false)
    ensures st.WithPrincipal? ==>
              var inner := ExecAll(st.body, s.(world := s.world.(context := Some(st.who))));
              Exec(st, s).raised == inner.raised && Exec(st, s).state.firewall == inner.state.firewall
              && Exec(st, s).state.executed == inner.state.executed
  {
    assert [st][1..] == [];
  }

  /** A direct call of a primitive changes the two sets by its address, and is logged, exactly
      when the address is valid, the mode real and the backend successful; it raises exactly
      when the address is invalid. */
  lemma DirectCallIff(s: State, ip: string, blocking: bool, ok: bool)
    ensures var done := s.world.lib.parse(ip).Some? && Mode(s) == "real" && ok;
            var (call, f) := (Exec(if blocking then Stmt.Block(ip, ok) else Unblock(ip, ok), s), s.firewall);
            && (call.raised <==> s.world.lib.parse(ip) == None)
            && call.state == s.(
                 firewall := if !done then f
                             else if blocking then F.State(f.backend + {ip}, f.recorded + {ip})
                             else F.State(f.backend - {ip}, f.recorded - {ip}),
                 writes := if done then s.writes + [Write(ip, blocking, "real")] else s.writes)
  {
    hide Mode;
  }

  /** Writing the mode stores it, stripped and lower-cased, when it is one of the three, and it
      is then the mode in force; any other text raises and changes nothing. */
  lemma ModeWriteIff(s: State, mode: string)
    ensures var (m, call) := (Lower(Strip(mode)), Exec(WriteMode(mode), s));
            && (call.raised <==> m != "real" && m != "lab" && m != "replay")
            && (call.raised ==> call.state == s)
            && (!call.raised ==> call.state == s.(world := s.world.(storedMode := m)) && Mode(call.state) == m)
  {
    hide Lower, Strip, LowerChar;
    NormalText("real");
    NormalText("lab");
    NormalText("replay");
  }

  /** The REST route writes the mode for the roles with the permission, never raises, and does
      nothing for the others. */
  lemma RestModeIff(s: State, who: Principal, mode: string)
    ensures Exec(RestSetMode(who, mode), s) ==
            Outcome(if NormalizeRole(who.role, s.world.configuredRole) == "admin" then Exec(WriteMode(mode), s).state else s, false)
  {
    hide Lower, Strip, HasPermission, NormalizeRole;
    OnlyAdminSetsMode(who.role, s.world.configuredRole);
    InvalidModeChangesNothing(s, mode);
  }

  lemma InvalidModeChangesNothing(s: State, mode: string)
    ensures Exec(WriteMode(mode), s).state == ModeWritten(s, mode).state
  {}

  /** A request to block one address, through the control plane: executed at once under an
      ALLOW, queued under its tool's name (or its action's) where approval is required, and
      otherwise without effect; it never raises. */
  lemma BlockRequestIff(s: State, st: Stmt, ip: string, ok: bool)
    requires st.Act? && st.body == [Stmt.Block(ip, ok)]
    ensures var (d, call) := (Evaluate(s.world, RequestOf(s.world, st)), Exec(st, s));
            var name := if st.tool == "" then st.action else st.tool;
            && !call.raised
            && (d == Deny || d == DryRunOnly ==> call.state == s)
            && (d == RequireApproval ==>
                  call.state == s.(registry := s.registry[name := Executor(st.action, [Stmt.Block(ip, ok)])], pending := s.pending + [name]))
            && (d == Allow ==>
                  call.state == Exec(Stmt.Block(ip, ok), s).state.(executed := s.executed + [Execution(st.action, s.world.context)]))
  {
    hide Evaluate, Mode, FirewallCall;
    SingleStmt(Stmt.Block(ip, ok), s.(executed := s.executed + [Execution(st.action, s.world.context)]));
    LoggingCommutes(s, ip, ok, s.executed + [Execution(st.action, s.world.context)]);
  }

  lemma LoggingCommutes(s: State, ip: string, ok: bool, executed: seq<Execution>)
    ensures FirewallCall(s.(executed := executed), ip, true, ok).state == FirewallCall(s, ip, true, ok).state.(executed := executed)
  {
    hide Mode;
    assert Mode(s.(executed := executed)) == Mode(s) by { SameMode(s, s.(executed := executed)); }
  }

  lemma SameMode(s: State, t: State)
    requires s.world.storedMode == t.world.storedMode && s.world.configuredMode == t.world.configuredMode
    ensures Mode(s) == Mode(t)
  {}

  /** Approving it later runs it under the approver's identity, without asking the policy again:
      only the mode belt of the primitive still counts. */
  lemma ApprovalRunsBlock(s: State, who: Option<Principal>, n: nat, action: string, ip: string, ok: bool)
    requires n < |s.pending| && s.pending[n] in s.registry && s.registry[s.pending[n]] == Executor(action, [Stmt.Block(ip, ok)])
    ensures Happens(s, Approve(who, n)) ==
            Exec(Stmt.Block(ip, ok), s).state.(executed := s.executed + [Execution(action, who)])
  {
    hide Mode, FirewallCall;
    var start := s.(world := s.world.(context := who), executed := s.executed + [Execution(action, who)]);
    SingleStmt(Stmt.Block(ip, ok), start);
    ContextCommutes(s, who, ip, ok, s.executed + [Execution(action, who)]);
  }

  lemma ContextCommutes(s: State, who: Option<Principal>, ip: string, ok: bool, executed: seq<Execution>)
    ensures var t := FirewallCall(s.(world := s.world.(context := who), executed := executed), ip, true, ok).state;
            t.(world := t.world.(context := s.world.context)) == FirewallCall(s, ip, true, ok).state.(executed := executed)
  {
    hide Mode;
    SameMode(s, s.(world := s.world.(context := who), executed := executed));
  }

  // ---------- identity ----------

  /** Whatever runs, raises or is nested, the identity afterwards is the identity before. */
  lemma {:induction false} ContextIsRestored(code: seq<Stmt>, s: State)
    ensures ExecAll(code, s).state.world.context == s.world.context
    decreases code, 0
  {
    if code != [] {
      StmtRestoresContext(code[0], s);
      ContextIsRestored(code[1..], Exec(code[0], s).state);
    }
  }

  lemma {:induction false} StmtRestoresContext(st: Stmt, s: State)
    ensures Exec(st, s).state.world.context == s.world.context
    decreases st, 1
  {
    if st.Act? {
      ContextIsRestored(st.body, s.(executed := s.executed + [Execution(st.action, s.world.context)]));
    }
  }

  // ---------- the mode belt ----------

  /** The backend set that results from a series of writes. */
  function Replay(backend: set<string>, writes: seq<Write>): set<string> {
    if writes == [] then backend
    else
      var last := writes[|writes| - 1];
      var before := Replay(backend, writes[..|writes| - 1]);
      if last.blocking then before + {last.ip} else before - {last.ip}
  }

  /** Every change of the backend since it was `start` is logged, and was made in real mode. */
  predicate BeltHeld(start: set<string>, s: State) {
    s.firewall.backend == Replay(start, s.writes) && forall w | w in s.writes :: w.mode == "real"
  }

  lemma {:induction false} CodeKeepsBelt(code: seq<Stmt>, s: State, start: set<string>)
    requires BeltHeld(start, s)
    ensures BeltHeld(start, ExecAll(code, s).state)
    decreases code, 0
  {
    if code != [] {
      StmtKeepsBelt(code[0], s, start);
      CodeKeepsBelt(code[1..], Exec(code[0], s).state, start);
    }
  }

  lemma {:induction false} StmtKeepsBelt(st: Stmt, s: State, start: set<string>)
    requires BeltHeld(start, s)
    ensures BeltHeld(start, Exec(st, s).state)
    decreases st, 1
  {
    match st
    case WithPrincipal(who, body) => CodeKeepsBelt(body, s.(world := s.world.(context := Some(who))), start);
    case Act(action, _, _, _, _, _, _, body) =>
      CodeKeepsBelt(body, s.(executed := s.executed + [Execution(action, s.world.context)]), start);
    case Block(ip, ok) => WriteKeepsBelt(s, ip, true, ok, start);
    case Unblock(ip, ok) => WriteKeepsBelt(s, ip, false, ok, start);
    case _ =>
  }

  lemma WriteKeepsBelt(s: State, ip: string, blocking: bool, ok: bool, start: set<string>)
    requires BeltHeld(start, s)
    ensures BeltHeld(start, FirewallCall(s, ip, blocking, ok).state)
  {
    var longer := s.writes + [Write(ip, blocking, Mode(s))];
    assert longer[..|s.writes|] == s.writes;
  }

  /** In every run, whoever acts and however the policy decides, the firewall's blocked set
      changes only while the stored mode is real: it is the replay of a log of writes, each
      made in that mode. */
  lemma {:induction false} BackendChangesOnlyInRealMode(s: State, events: seq<Event>, start: set<string>)
    requires BeltHeld(start, s)
    ensures BeltHeld(start, Run(s, events))
    decreases events
  {
    if events != [] {
      match events[0] {
        case Session(code) => CodeKeepsBelt(code, s, start);
        case Approve(who, n) =>
          if n < |s.pending| && s.pending[n] in s.registry {
            var p := s.registry[s.pending[n]];
            CodeKeepsBelt(p.body, s.(world := s.world.(context := who), executed := s.executed + [Execution(p.action, who)]),
                          start);
          }
      }
      BackendChangesOnlyInRealMode(Happens(s, events[0]), events[1..], start);
    }
  }

  // ---------- allow-listed actions ----------

  /** Actions reserved for named principals ran only while one of them was the context's
      principal, and none of them waits for approval. */
  predicate AllowlistHeld(s: State) {
    && (forall e | e in s.executed :: var spec := s.world.catalog(Strip(e.action));
          spec.allowedActors != [] ==> ActorAllowed(spec, e.context))
    && (forall t | t in s.registry :: s.world.catalog(Strip(s.registry[t].action)).allowedActors == [])
  }

  lemma {:induction false} CodeKeepsAllowlist(code: seq<Stmt>, s: State)
    requires AllowlistHeld(s) && IsGoverned(s.world.catalog)
    ensures AllowlistHeld(ExecAll(code, s).state) && ExecAll(code, s).state.world.catalog == s.world.catalog
    decreases code, 0
  {
    if code != [] {
      StmtKeepsAllowlist(code[0], s);
      CodeKeepsAllowlist(code[1..], Exec(code[0], s).state);
    }
  }

  lemma {:induction false} StmtKeepsAllowlist(st: Stmt, s: State)
    requires AllowlistHeld(s) && IsGoverned(s.world.catalog)
    ensures AllowlistHeld(Exec(st, s).state) && Exec(st, s).state.world.catalog == s.world.catalog
    decreases st, 1
  {
    match st
    case WithPrincipal(who, body) => CodeKeepsAllowlist(body, s.(world := s.world.(context := Some(who))));
    case Act(action, _, _, _, _, _, _, body) =>
      var next := s.(executed := s.executed + [Execution(action, s.world.context)]);
      var d := Evaluate(s.world, RequestOf(s.world, st));
      if d == Allow {
        assert AllowlistHeld(next);
        CodeKeepsAllowlist(body, next);
      }
    case _ =>
  }

  /** Subsystem auto-isolation executes only under its exact service principal, taken from
      the context: a forged actor string, the administrator role and the wildcard do not help. */
  lemma {:induction false} AllowlistedActionsNeedTheirPrincipal(s: State, events: seq<Event>)
    requires AllowlistHeld(s) && IsGoverned(s.world.catalog)
    ensures AllowlistHeld(Run(s, events)) && Run(s, events).world.catalog == s.world.catalog
    decreases events
  {
    if events != [] {
      match events[0] {
        case Session(code) => CodeKeepsAllowlist(code, s);
        case Approve(who, n) =>
          if n < |s.pending| && s.pending[n] in s.registry {
            var p := s.registry[s.pending[n]];
            CodeKeepsAllowlist(p.body, s.(world := s.world.(context := who), executed := s.executed + [Execution(p.action, who)]));
          }
      }
      AllowlistedActionsNeedTheirPrincipal(Happens(s, events[0]), events[1..]);
    }
  }

  // ---------- runs in lab without an administrator ----------

  predicate NonAdmin(role: string, configured: string) {
    NormalizeRole(role, configured) != "admin"
  }

  /** Every identity that the code installs or names is a known non-administrator, a request
      names no role only where such an identity is active, and the mode is written only
      behind the two permission checks. */
  predicate Plain(st: Stmt, active: bool, configured: string)
    decreases st, 1
  {
    match st
    case WithPrincipal(who, body) => NonAdmin(who.role, configured) && AllPlain(body, true, configured)
    case Act(action, _, _, role, _, _, _, body) =>
      && (if role != "" then NonAdmin(role, configured) else active)
      && (Strip(action) == SET_MODE_ACTION || AllPlain(body, active, configured))
    case WriteMode(_) => false
    case RestSetMode(who, _) => NonAdmin(who.role, configured)
    case _ => true
  }

  predicate AllPlain(code: seq<Stmt>, active: bool, configured: string)
    decreases code, 0
  {
    code == [] || (Plain(code[0], active, configured) && AllPlain(code[1..], active, configured))
  }

  lemma {:induction false} PlainWhenActive(code: seq<Stmt>, configured: string)
    requires AllPlain(code, false, configured)
    ensures AllPlain(code, true, configured)
    decreases code, 0
  {
    if code != [] {
      StmtPlainWhenActive(code[0], configured);
      PlainWhenActive(code[1..], configured);
    }
  }

  lemma {:induction false} StmtPlainWhenActive(st: Stmt, configured: string)
    requires Plain(st, false, configured)
    ensures Plain(st, true, configured)
    decreases st, 1
  {
    if st.Act? && Strip(st.action) != SET_MODE_ACTION { PlainWhenActive(st.body, configured); }
  }

  predicate ActiveIsPlain(s: State, active: bool) {
    active ==> s.world.context.Some? && NonAdmin(s.world.context.value.role, s.world.configuredRole)
  }

  /** Nothing real can happen: the mode is not real, and what waits for approval is plain. */
  predicate Harmless(s: State, backend: set<string>) {
    && Mode(s) != "real" && s.firewall.backend == backend
    && forall t | t in s.registry :: AllPlain(s.registry[t].body, true, s.world.configuredRole)
  }

  predicate SameRules(s: State, t: State) {
    s.world.configuredRole == t.world.configuredRole
  }

  lemma {:induction false} PlainCodeIsHarmless(code: seq<Stmt>, s: State, active: bool, backend: set<string>)
    requires IsGoverned(s.world.catalog) && Harmless(s, backend) && ActiveIsPlain(s, active)
    requires AllPlain(code, active, s.world.configuredRole)
    ensures var t := ExecAll(code, s).state; Harmless(t, backend) && SameRules(s, t) && IsGoverned(t.world.catalog)
    decreases code, 0
  {
    if code != [] {
      PlainStmtIsHarmless(code[0], s, active, backend);
      StmtRestoresContext(code[0], s);
      PlainCodeIsHarmless(code[1..], Exec(code[0], s).state, active, backend);
    }
  }

  lemma {:induction false} PlainStmtIsHarmless(st: Stmt, s: State, active: bool, backend: set<string>)
    requires IsGoverned(s.world.catalog) && Harmless(s, backend) && ActiveIsPlain(s, active)
    requires Plain(st, active, s.world.configuredRole)
    ensures var t := Exec(st, s).state; Harmless(t, backend) && SameRules(s, t) && IsGoverned(t.world.catalog)
    decreases st, 1
  {
    match st
    case WithPrincipal(who, body) =>
      PlainCodeIsHarmless(body, s.(world := s.world.(context := Some(who))), true, backend);
    case Act(action, _, _, _, _, _, _, body) =>
      if Strip(action) == SET_MODE_ACTION {
        ModeRequestIsDenied(st, s, active);
      } else {
        if !active { PlainWhenActive(body, s.world.configuredRole); }
        PlainCodeIsHarmless(body, s.(executed := s.executed + [Execution(action, s.world.context)]), active, backend);
      }
    case RestSetMode(who, mode) => OnlyAdminSetsMode(who.role, s.world.configuredRole);
    case _ =>
  }

  /** Asking for a mode change without the administrator role is denied. */
  lemma ModeRequestIsDenied(st: Stmt, s: State, active: bool)
    requires IsGoverned(s.world.catalog) && ActiveIsPlain(s, active)
    requires st.Act? && Strip(st.action) == SET_MODE_ACTION && Plain(st, active, s.world.configuredRole)
    ensures Evaluate(s.world, RequestOf(s.world, st)) == Deny
  {
    OnlyAdminSetsMode(RequestOf(s.world, st).role, s.world.configuredRole);
  }

  predicate PlainEvent(e: Event, configured: string) {
    match e
    case Session(code) => AllPlain(code, false, configured)
    case Approve(who, n) => who.Some? && NonAdmin(who.value.role, configured)
  }

  /** Lab safety: in a run that starts outside real mode, in which no administrator acts,
      every request carries a known identity and the mode is written only behind its
      permission checks, the firewall's blocked set never changes. */
  lemma {:induction false} LabRunNeverTouchesFirewall(s: State, events: seq<Event>, backend: set<string>)
    requires IsGoverned(s.world.catalog) && Harmless(s, backend)
    requires forall e | e in events :: PlainEvent(e, s.world.configuredRole)
    ensures Mode(Run(s, events)) != "real" && Run(s, events).firewall.backend == backend
    decreases events
  {
    if events != [] {
      var e := events[0];
      assert e in events;
      match e {
        case Session(code) => PlainCodeIsHarmless(code, s, false, backend);
        case Approve(who, n) =>
          if n < |s.pending| && s.pending[n] in s.registry {
            var p := s.registry[s.pending[n]];
            PlainCodeIsHarmless(p.body, s.(world := s.world.(context := who), executed := s.executed + [Execution(p.action, who)]),
                                true, backend);
          }
      }
      assert forall f | f in events[1..] :: f in events;
      LabRunNeverTouchesFirewall(Happens(s, e), events[1..], backend);
    }
  }

  /** A request for real mode that names a role, or none. */
  function ModeRequest(role: string): Stmt {
    Act(SET_MODE_ACTION, "", "", role, "", "", "", [WriteMode("real")])
  }

  /** Exactly whose request for real mode takes effect: one whose role (the one it names, else
      the active identity's, else the default) resolves to the administrator's. */
  lemma ModeRequestReachesRealIff(s: State, role: string)
    requires IsGoverned(s.world.catalog)
    ensures Mode(Exec(ModeRequest(role), s).state) == "real" <==>
            var acting := if role != "" then role
                          else if s.world.context.Some? then s.world.context.value.role
                          else DefaultRole(s.world.configuredRole);
            Mode(s) == "real" || NormalizeRole(acting, s.world.configuredRole) == "admin"
  {
    var st := ModeRequest(role);
    var r := RequestOf(s.world, st);
    ModeActionText();
    OnlyAdminSetsMode(r.role, s.world.configuredRole);
    if NormalizeRole(r.role, s.world.configuredRole) == "admin" {
      ModeRequestOfAdmin(s.world, r);
      AllowedActRuns(st, s);
      WritingReal(s.(executed := s.executed + [Execution(SET_MODE_ACTION, s.world.context)]));
    } else {
      DeniedWithoutPermission(s.world, r);
    }
  }

  lemma DeniedWithoutPermission(w: World, r: ActionRequest)
    requires IsGoverned(w.catalog) && Strip(r.actionType) == SET_MODE_ACTION
    requires !HasPermission(r.role, SET_MODE_PERMISSION, w.configuredRole)
    ensures Evaluate(w, r) == Deny
  {}

  /** The mode tool, as an authenticated principal reaches it: it names no role itself. */
  function ToolDoor(who: Principal): Stmt {
    WithPrincipal(who, [ModeRequest("")])
  }

  /** The REST route, as the same principal reaches it. */
  function RestDoor(who: Principal): Stmt {
    RestSetMode(who, "real")
  }

  lemma SingleStmt(st: Stmt, s: State)
    ensures ExecAll([st], s).state == Exec(st, s).state
  {
    assert [st][1..] == [];
  }

  /** Exactly which principals either door leads to real mode: those whose role resolves to
      the administrator's. */
  lemma DoorsReachRealIff(s: State, who: Principal)
    requires IsGoverned(s.world.catalog)
    ensures Mode(Exec(ToolDoor(who), s).state) == "real" <==>
            Mode(s) == "real" || NormalizeRole(who.role, s.world.configuredRole) == "admin"
    ensures Mode(Exec(RestDoor(who), s).state) == "real" <==>
            Mode(s) == "real" || NormalizeRole(who.role, s.world.configuredRole) == "admin"
  {
    hide Exec, ExecAll;
    var inside := s.(world := s.world.(context := Some(who)));
    ModeRequestReachesRealIff(inside, "");
    SingleStmt(ModeRequest(""), inside);
    ToolDoorIsInside(s, who);
    RestDoorWrites(s, who);
    OnlyAdminSetsMode(who.role, s.world.configuredRole);
  }

  lemma ToolDoorIsInside(s: State, who: Principal)
    ensures Mode(Exec(ToolDoor(who), s).state) == Mode(ExecAll([ModeRequest("")], s.(world := s.world.(context := Some(who)))).state)
  {}

  lemma RestDoorWrites(s: State, who: Principal)
    ensures if HasPermission(who.role, SET_MODE_PERMISSION, s.world.configuredRole)
            then Mode(Exec(RestDoor(who), s).state) == "real"
            else Exec(RestDoor(who), s).state == s
  {
    hide Strip, Lower, LowerChar, HasPermission;
    NormalText("real");
  }

  /** The condition on known roles is needed: role texts of tokens are not checked, and under
      a default of administrator a principal whose role is not in the table reaches real mode
      through either door. */
  lemma UnknownRoleReachesRealMode(s: State, who: Principal)
    requires IsGoverned(s.world.catalog) && DefaultRole(s.world.configuredRole) == "admin"
    requires Lower(Strip(who.role)) !in ROLES
    ensures Mode(Exec(ToolDoor(who), s).state) == "real" && Mode(Exec(RestDoor(who), s).state) == "real"
  {
    DoorsReachRealIff(s, who);
    UnknownRoleIsDefault(who.role, s.world.configuredRole);
  }

  lemma ModeActionText()
    ensures Strip(SET_MODE_ACTION) == SET_MODE_ACTION && Strip("") == ""
  {
    hide Strip, Lower, LowerChar;
    NormalText(SET_MODE_ACTION);
    NormalText("");
  }

  lemma AllowedActRuns(st: Stmt, s: State)
    requires st.Act? && Evaluate(s.world, RequestOf(s.world, st)) == Allow
    ensures Exec(st, s).state == ExecAll(st.body, s.(executed := s.executed + [Execution(st.action, s.world.context)])).state
  {}

  lemma ModeRequestOfAdmin(w: World, r: ActionRequest)
    requires IsGoverned(w.catalog) && Strip(r.actionType) == SET_MODE_ACTION && Strip(r.target) == ""
    requires HasPermission(r.role, SET_MODE_PERMISSION, w.configuredRole)
    ensures Evaluate(w, r) == Allow
  {}

  lemma WritingReal(s: State)
    ensures Mode(ExecAll([WriteMode("real")], s).state) == "real"
  {
    NormalText("real");
    var first := ModeWritten(s, "real");
    assert [WriteMode("real")][1..] == [];
    assert ExecAll([WriteMode("real")], s) == ExecAll([], first.state) == first;
  }
}
