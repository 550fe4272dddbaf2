/** The human-approval gate under concurrency. Every database block and every run of the
    approved function is one atomic step; any number of confirm, cancel and sweep calls
    are in progress at once and are advanced in any order. */
module ApprovalInterleaving {
  import opened PendingActions

  /** Where a call stands: what it does at its next step, with the values it has read. */
  datatype Call =
    | ConfirmRead(id: int, code: string)
    | ConfirmMiscount(id: int)
    | ConfirmLock(id: int)
    | ConfirmClaim(id: int, code: string, row: Row)
    | ConfirmRecheck(id: int)
    | ConfirmExpire(id: int)
    | ConfirmRun(id: int, code: string, row: Row, claimedAt: int)
    | ConfirmFinish(id: int, outcome: Status)
    | CancelRead(id: int)
    | CancelResolve(id: int)
    | SweepRead
    | SweepResolve(ids: seq<int>)
    | Returned

  /** One run of an approved function. */
  datatype Execution = Execution(id: int, tool: string, args: string, code: string, claimedAt: int)

  datatype State = State(table: Table, now: int, lastId: int, registered: set<string>,
                         calls: seq<Call>, executions: seq<Execution>)

  datatype Label =
    | Create(tool: string, args: string, code: string, ttl: int)
    | Register(name: string)
    | Begin(call: Call)
    /** Advance call number `n`; `ok` says whether the approved function returns, and
        `order` is the order in which a sweep's SELECT lists its rows. */
    | Advance(n: nat, ok: bool, order: seq<int>)
    | Tick(seconds: nat)

  const INIT := State(map[], 0, 0, {}, [], [])

  predicate IsEntry(c: Call) {
    c.ConfirmRead? || c.CancelRead? || c.SweepRead?
  }

  predicate Lists(order: seq<int>, ids: set<int>) {
    (forall i | 0 <= i < |order| :: order[i] in ids) && (forall id | id in ids :: id in order)
  }

  function Step(s: State, l: Label): State {
    match l
    case Create(tool, args, code, ttl) =>
      s.(lastId := s.lastId + 1, table := Inserted(s.table, s.lastId + 1, tool, args, code, s.now + ttl))
    case Register(name) => s.(registered := s.registered + {name})
    case Tick(d) => s.(now := s.now + d)
    case Begin(c) => if IsEntry(c) then s.(calls := s.calls + [c]) else s
    case Advance(n, ok, order) => if n < |s.calls| then Advanced(s, n, ok, order) else s
  }

  function Advanced(s: State, n: nat, ok: bool, order: seq<int>): State
    requires n < |s.calls|
  {
    var goto := (c: Call) => s.calls[n := c];
    match s.calls[n]
    case ConfirmRead(id, code) =>
      s.(calls := goto(
        if id !in s.table || s.table[id].status != Pending then Returned
        else if CodeMatches(code, s.table[id].code) then ConfirmClaim(id, code, s.table[id])
        else ConfirmMiscount(id)))
    case ConfirmMiscount(id) =>
      var t := Incremented(s.table, id);
      s.(table := t, calls := goto(if AttemptsOf(t, id) >= MAX_FAILED_ATTEMPTS then ConfirmLock(id) else Returned))
    case ConfirmLock(id) => s.(table := Resolved(s.table, id, Locked), calls := goto(Returned))
    case ConfirmClaim(id, code, row) =>
      s.(table := Claimed(s.table, id, s.now),
         calls := goto(if CanClaim(s.table, id, s.now) then ConfirmRun(id, code, row, s.now) else ConfirmRecheck(id)))
    case ConfirmRecheck(id) =>
      s.(calls := goto(if id in s.table && s.table[id].status == Pending then ConfirmExpire(id) else Returned))
    case ConfirmExpire(id) => s.(table := Resolved(s.table, id, Expired), calls := goto(Returned))
    case ConfirmRun(id, code, row, at) =>
      if row.tool !in s.registered then s.(calls := goto(ConfirmFinish(id, InternalError)))
      else
        s.(executions := s.executions + [Execution(id, row.tool, row.args, code, at)],
           calls := goto(ConfirmFinish(id, if ok then Executed else Failed)))
    case ConfirmFinish(id, outcome) => s.(table := Resolved(s.table, id, outcome), calls := goto(Returned))
    case CancelRead(id) =>
      s.(calls := goto(if id in s.table && s.table[id].status == Pending then CancelResolve(id) else Returned))
    case CancelResolve(id) => s.(table := Resolved(s.table, id, Cancelled), calls := goto(Returned))
    case SweepRead => if Lists(order, Overdue(s.table, s.now)) then s.(calls := goto(SweepResolve(order))) else s
    case SweepResolve(ids) =>
      if ids == [] then s.(calls := goto(Returned))
      else s.(table := Resolved(s.table, ids[0], Expired), calls := goto(SweepResolve(ids[1..])))
    case Returned => s
  }

  function Run(labels: seq<Label>): State {
    if labels == [] then INIT else Step(Run(labels[..|labels| - 1]), labels[|labels| - 1])
  }

  // ---------- what every run keeps ----------

  /** The columns that no statement rewrites. */
  predicate SameRequest(r: Row, q: Row) {
    r.tool == q.tool && r.args == q.args && r.code == q.code && r.expiresAt == q.expiresAt
  }

  /** Creation is final: a row's request never changes, and leaving `Pending` is irreversible. */
  predicate Evolves(t: Table, u: Table) {
    forall id | id in t :: id in u && SameRequest(t[id], u[id]) && (t[id].status != Pending ==> u[id].status != Pending)
  }

  predicate CallIsSound(t: Table, c: Call) {
    match c
    case ConfirmClaim(id, code, row) => id in t && SameRequest(row, t[id]) && CodeMatches(code, row.code)
    case ConfirmRun(id, code, row, at) =>
      id in t && SameRequest(row, t[id]) && CodeMatches(code, row.code) && at < row.expiresAt && t[id].status != Pending
    case ConfirmFinish(id, outcome) => outcome != Pending
    case _ => true
  }

  predicate ExecutionIsSound(t: Table, e: Execution) {
    && e.id in t && t[e.id].status != Pending && e.tool == t[e.id].tool && e.args == t[e.id].args
    && CodeMatches(e.code, t[e.id].code) && e.claimedAt < t[e.id].expiresAt
  }

  /** Every claim is held by one call and has not been spent. */
  predicate ClaimsAreExclusive(s: State) {
    && (forall i, j | 0 <= i < j < |s.calls| && s.calls[i].ConfirmRun? && s.calls[j].ConfirmRun? ::
          s.calls[i].id != s.calls[j].id)
    && (forall i, k | 0 <= i < |s.calls| && 0 <= k < |s.executions| && s.calls[i].ConfirmRun? ::
          s.calls[i].id != s.executions[k].id)
  }

  predicate RunsAreUnique(s: State) {
    forall i, j | 0 <= i < j < |s.executions| :: s.executions[i].id != s.executions[j].id
  }

  predicate Inv(s: State) {
    && (forall id | id in s.table :: id <= s.lastId)
    && (forall c | c in s.calls :: CallIsSound(s.table, c))
    && (forall e | e in s.executions :: ExecutionIsSound(s.table, e))
    && ClaimsAreExclusive(s)
    && RunsAreUnique(s)
  }

  lemma TableEvolves(s: State, l: Label)
    requires Inv(s)
    ensures Evolves(s.table, Step(s, l).table)
    ensures forall id | id in Step(s, l).table :: id <= Step(s, l).lastId
  {
    if l.Advance? && l.n < |s.calls| {
      assert CallIsSound(s.table, s.calls[l.n]);
    }
  }

  lemma SoundnessSurvives(t: Table, u: Table, c: Call, e: Execution)
    requires Evolves(t, u)
    ensures CallIsSound(t, c) ==> CallIsSound(u, c)
    ensures ExecutionIsSound(t, e) ==> ExecutionIsSound(u, e)
  {}

  lemma NextCallIsSound(s: State, n: nat, ok: bool, order: seq<int>)
    requires Inv(s) && n < |s.calls|
    ensures var u := Advanced(s, n, ok, order); |u.calls| == |s.calls| && CallIsSound(u.table, u.calls[n])
    ensures forall i | 0 <= i < |s.calls| && i != n :: Advanced(s, n, ok, order).calls[i] == s.calls[i]
  {
    assert CallIsSound(s.table, s.calls[n]);
  }

  lemma StepKeepsSoundness(s: State, l: Label)
    requires Inv(s)
    ensures var u := Step(s, l);
            && (forall c | c in u.calls :: CallIsSound(u.table, c))
            && (forall e | e in u.executions :: ExecutionIsSound(u.table, e))
  {
    var u := Step(s, l);
    TableEvolves(s, l);
    forall c | c in u.calls ensures CallIsSound(u.table, c) {
      if c in s.calls { SoundnessSurvives(s.table, u.table, c, Execution(0, "", "", "", 0)); }
      if l.Advance? && l.n < |s.calls| {
        NextCallIsSound(s, l.n, l.ok, l.order);
        var i :| 0 <= i < |u.calls| && u.calls[i] == c;
        if i != l.n { assert c == s.calls[i]; }
      }
    }
    forall e | e in u.executions ensures ExecutionIsSound(u.table, e) {
      if e in s.executions {
        SoundnessSurvives(s.table, u.table, Returned, e);
      } else {
        assert CallIsSound(s.table, s.calls[l.n]);
      }
    }
  }

  /** A row that can still be claimed is neither claimed by a call nor run. */
  lemma ClaimableIsFree(s: State, id: int)
    requires Inv(s) && CanClaim(s.table, id, s.now)
    ensures forall i | 0 <= i < |s.calls| && s.calls[i].ConfirmRun? :: s.calls[i].id != id
    ensures forall k | 0 <= k < |s.executions| :: s.executions[k].id != id
  {
    forall i | 0 <= i < |s.calls| && s.calls[i].ConfirmRun? ensures s.calls[i].id != id {
      assert CallIsSound(s.table, s.calls[i]);
    }
    forall k | 0 <= k < |s.executions| ensures s.executions[k].id != id {
      assert ExecutionIsSound(s.table, s.executions[k]);
    }
  }

  /** Advancing a call takes at most its own claim, and spends it when it runs. */
  lemma AdvancedClaims(s: State, n: nat, ok: bool, order: seq<int>)
    requires n < |s.calls|
    ensures var c, u, d := s.calls[n], Advanced(s, n, ok, order), Advanced(s, n, ok, order).calls[n];
            && (d.ConfirmRun? ==> c.ConfirmClaim? && c.id == d.id && CanClaim(s.table, d.id, s.now)
                                  && u.executions == s.executions)
            && (u.executions == s.executions || (c.ConfirmRun? && |u.executions| == |s.executions| + 1
                && u.executions[..|s.executions|] == s.executions && u.executions[|s.executions|].id == c.id))
  {}

  lemma StepKeepsClaims(s: State, l: Label)
    requires Inv(s)
    ensures ClaimsAreExclusive(Step(s, l)) && RunsAreUnique(Step(s, l))
  {
    if l.Advance? && l.n < |s.calls| {
      AdvanceKeepsClaims(s, l.n, l.ok, l.order);
    }
  }

  lemma AdvanceKeepsClaims(s: State, n: nat, ok: bool, order: seq<int>)
    requires Inv(s) && n < |s.calls|
    ensures ClaimsAreExclusive(Advanced(s, n, ok, order)) && RunsAreUnique(Advanced(s, n, ok, order))
  {
    hide Advanced, CallIsSound, ExecutionIsSound, CanClaim;
    var c, u := s.calls[n], Advanced(s, n, ok, order);
    NextCallIsSound(s, n, ok, order);
    AdvancedClaims(s, n, ok, order);
    if u.calls[n].ConfirmRun? { ClaimableIsFree(s, c.id); }
    forall k | 0 <= k < |u.executions|
      ensures k < |s.executions| ==> u.executions[k] == s.executions[k]
    {
      if k < |s.executions| && u.executions != s.executions {
        assert u.executions[..|s.executions|][k] == s.executions[k];
      }
    }
  }

  lemma StepKeepsInv(s: State, l: Label)
    requires Inv(s)
    ensures Inv(Step(s, l))
  {
    TableEvolves(s, l);
    StepKeepsSoundness(s, l);
    StepKeepsClaims(s, l);
  }

  lemma {:induction false} RunKeepsInv(labels: seq<Label>)
    ensures Inv(Run(labels))
  {
    if labels != [] {
      RunKeepsInv(labels[..|labels| - 1]);
      StepKeepsInv(Run(labels[..|labels| - 1]), labels[|labels| - 1]);
    }
  }

  /** Leaving `Pending` is irreversible and the request is fixed at creation, although
      cancel, sweep and confirm update the status unconditionally. */
  lemma {:induction false} RunEvolves(labels: seq<Label>, m: nat)
    requires m <= |labels|
    ensures Evolves(Run(labels[..m]).table, Run(labels).table)
  {
    if m == |labels| {
      assert labels[..m] == labels;
    } else {
      var before := labels[..|labels| - 1];
      RunEvolves(before, m);
      assert before[..m] == labels[..m];
      RunKeepsInv(before);
      TableEvolves(Run(before), labels[|labels| - 1]);
    }
  }

  /** At some moment of the run the action was pending and unexpired, and that is when the
      claim was made. */
  ghost predicate WasClaimable(labels: seq<Label>, id: int, at: int) {
    exists m :: 0 <= m <= |labels| && Run(labels[..m]).now == at && CanClaim(Run(labels[..m]).table, id, at)
  }

  lemma WasClaimableLater(labels: seq<Label>, l: Label, id: int, at: int)
    requires WasClaimable(labels, id, at)
    ensures WasClaimable(labels + [l], id, at)
  {
    var m :| 0 <= m <= |labels| && Run(labels[..m]).now == at && CanClaim(Run(labels[..m]).table, id, at);
    assert (labels + [l])[..m] == labels[..m];
  }

  ghost predicate ClaimsWereOpen(labels: seq<Label>) {
    && (forall c | c in Run(labels).calls && c.ConfirmRun? :: WasClaimable(labels, c.id, c.claimedAt))
    && (forall e | e in Run(labels).executions :: WasClaimable(labels, e.id, e.claimedAt))
  }

  /** A claim that is new was made in this step, and a run that is new spends an old claim. */
  lemma NewClaims(s: State, l: Label)
    ensures var u := Step(s, l);
            && (forall c | c in u.calls && c.ConfirmRun? && c !in s.calls :: c.claimedAt == s.now && CanClaim(s.table, c.id, s.now))
            && (forall e | e in u.executions && e !in s.executions ::
                  exists c :: c in s.calls && c.ConfirmRun? && c.id == e.id && c.claimedAt == e.claimedAt)
  {
    hide CanClaim, CodeMatches, Lists;
    if l.Advance? && l.n < |s.calls| { assert s.calls[l.n] in s.calls; }
  }

  lemma {:induction false} RunClaimsWereOpen(labels: seq<Label>)
    ensures ClaimsWereOpen(labels)
  {
    hide Step, WasClaimable, CanClaim;
    if labels != [] {
      var before, l := labels[..|labels| - 1], labels[|labels| - 1];
      var s, u := Run(before), Run(labels);
      RunClaimsWereOpen(before);
      NewClaims(s, l);
      assert labels == before + [l];
      forall c | c in u.calls && c.ConfirmRun? ensures WasClaimable(labels, c.id, c.claimedAt) {
        if c in s.calls {
          WasClaimableLater(before, l, c.id, c.claimedAt);
        } else {
          ClaimableNow(before, l, c.id);
        }
      }
      forall e | e in u.executions ensures WasClaimable(labels, e.id, e.claimedAt) {
        WasClaimableLater(before, l, e.id, e.claimedAt);
      }
    }
  }

  lemma ClaimableNow(before: seq<Label>, l: Label, id: int)
    requires CanClaim(Run(before).table, id, Run(before).now)
    ensures WasClaimable(before + [l], id, Run(before).now)
  {
    hide CanClaim, Run;
    assert (before + [l])[..|before|] == before;
  }

  /** At-most-once execution, over every interleaving: each action runs its function at most
      once, with the tool and arguments stored when it was created, after a text that spells
      its code and a claim made at a moment when it was pending and not expired. */
  lemma AtMostOnceExecution(labels: seq<Label>)
    ensures var s := Run(labels);
            && (forall i, j | 0 <= i < j < |s.executions| :: s.executions[i].id != s.executions[j].id)
            && (forall e | e in s.executions ::
                  && e.id in s.table && e.tool == s.table[e.id].tool && e.args == s.table[e.id].args
                  && TypesCode(e.code, s.table[e.id].code)
                  && e.claimedAt < s.table[e.id].expiresAt && WasClaimable(labels, e.id, e.claimedAt))
  {
    hide Run, CodeMatches, TypesCode;
    RunKeepsInv(labels);
    RunClaimsWereOpen(labels);
    forall e | e in Run(labels).executions
      ensures ExecutionIsSound(Run(labels).table, e) && TypesCode(e.code, Run(labels).table[e.id].code)
    {
      CodeMatchesIff(e.code, Run(labels).table[e.id].code);
    }
  }

  /** The action that a confirm or cancel in progress is about. */
  function ActionOf(c: Call): (id: int) {
    match c
    case ConfirmRead(id, _) => id
    case ConfirmMiscount(id) => id
    case ConfirmLock(id) => id
    case ConfirmClaim(id, _, _) => id
    case ConfirmRecheck(id) => id
    case ConfirmExpire(id) => id
    case ConfirmRun(id, _, _, _) => id
    case ConfirmFinish(id, _) => id
    case CancelRead(id) => id
    case CancelResolve(id) => id
    case _ => 0
  }

  predicate IsConfirm(c: Call) {
    !c.CancelRead? && !c.CancelResolve? && !c.SweepRead? && !c.SweepResolve? && !c.Returned?
  }

  predicate IsCancel(c: Call) {
    c.CancelRead? || c.CancelResolve?
  }

  /** A step advances a call within itself: a confirm or cancel stays one of the same action
      until it returns, and touches no row but its own; one that finds its row no longer
      pending after a lost claim returns at once. */
  lemma StepStaysInCall(s: State, n: nat, ok: bool, order: seq<int>, other: int)
    requires n < |s.calls| && (IsConfirm(s.calls[n]) || IsCancel(s.calls[n]))
    ensures var (c, u) := (s.calls[n], Advanced(s, n, ok, order));
            && |u.calls| == |s.calls|
            && (u.calls[n] == Returned
                || ((IsConfirm(u.calls[n]) <==> IsConfirm(c)) && (IsCancel(u.calls[n]) <==> IsCancel(c))
                    && ActionOf(u.calls[n]) == ActionOf(c)))
            && u.table.Keys == s.table.Keys
            && (other in s.table && other != ActionOf(c) ==> u.table[other] == s.table[other])
            && (c.ConfirmRecheck? && (c.id in s.table ==> s.table[c.id].status != Pending) ==> u.calls[n] == Returned)
  {}

  // ---------- what status labels are worth under concurrency ----------

  predicate HasRun(s: State, id: int) {
    exists e :: e in s.executions && e.id == id
  }

  predicate ClaimsARun(st: Status) {
    st == Executed || st == Failed
  }

  /** A label that says the function ran is only ever written after it ran. */
  predicate LabelsAreEarned(s: State) {
    && (forall id | id in s.table && ClaimsARun(s.table[id].status) :: HasRun(s, id))
    && (forall c | c in s.calls && c.ConfirmFinish? && ClaimsARun(c.outcome) :: HasRun(s, c.id))
  }

  lemma StepKeepsLabelsEarned(s: State, l: Label)
    requires LabelsAreEarned(s)
    ensures LabelsAreEarned(Step(s, l))
  {
    var u := Step(s, l);
    assert forall id :: HasRun(s, id) ==> HasRun(u, id) by {
      assert forall e :: e in s.executions ==> e in u.executions;
    }
    if l.Advance? && l.n < |s.calls| {
      var c := s.calls[l.n];
      assert c in s.calls;
      if c.ConfirmRun? && c.row.tool in s.registered {
        assert u.executions[|s.executions|].id == c.id;
        assert HasRun(u, c.id);
      }
    }
  }

  /** One direction holds in every interleaving: 'executada' and 'falhou' are never written
      for an action whose function did not run. */
  lemma {:induction false} ExecutedLabelMeansRun(labels: seq<Label>)
    ensures LabelsAreEarned(Run(labels))
  {
    if labels != [] {
      ExecutedLabelMeansRun(labels[..|labels| - 1]);
      StepKeepsLabelsEarned(Run(labels[..|labels| - 1]), labels[|labels| - 1]);
    }
  }

  lemma RunThenStep(labels: seq<Label>, l: Label)
    ensures Run(labels + [l]) == Step(Run(labels), l)
  {
    assert (labels + [l])[..|labels|] == labels;
  }

  /** The other direction does not: a cancel that read the row while it was pending
      overwrites the final status of an action that was claimed and executed meanwhile. */
  lemma CancelRelabelsExecutedAction() returns (labels: seq<Label>)
    ensures var s := Run(labels);
            1 in s.table && s.table[1].status == Cancelled && HasRun(s, 1)
  {
    labels := [];
    labels := Also(labels, Register("t"));
    labels := Also(labels, Create("t", "{}", "c", 60));
    labels := Also(labels, Begin(ConfirmRead(1, "c")));
    labels := Also(labels, Begin(CancelRead(1)));
    labels := Also(labels, Advance(1, true, []));
    assert Run(labels).calls == [ConfirmRead(1, "c"), CancelResolve(1)];
    assert CodeMatches("c", "c");
    labels := Also(labels, Advance(0, true, []));
    labels := Also(labels, Advance(0, true, []));
    assert Run(labels).calls[0].ConfirmRun?;
    labels := Also(labels, Advance(0, true, []));
    assert HasRun(Run(labels), 1) by { assert Run(labels).executions[0].id == 1; }
    labels := Also(labels, Advance(0, true, []));
    labels := Also(labels, Advance(1, true, []));
  }

  lemma Also(labels: seq<Label>, l: Label) returns (longer: seq<Label>)
    ensures longer == labels + [l] && Run(longer) == Step(Run(labels), l)
  {
    longer := labels + [l];
    RunThenStep(labels, l);
  }
}
