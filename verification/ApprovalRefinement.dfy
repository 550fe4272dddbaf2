/** The two views of the approval gate agree: a whole call is the interleaved machine
    advancing that one call with nothing else in between. */
module ApprovalRefinement {
  import opened PendingActions
  import I = ApprovalInterleaving
  import G = ApprovalGate

  /** Advance call `n` `times` times; `order` is how a sweep's SELECT lists its rows. */
  function Alone(s: I.State, n: nat, ok: bool, order: seq<int>, times: nat): I.State
    decreases times
  {
    if times == 0 then s else Alone(I.Step(s, I.Advance(n, ok, order)), n, ok, order, times - 1)
  }

  /** The same database, and the same functions run with the same arguments. */
  predicate Agree(s: I.State, g: G.State) {
    && s.table == g.table && s.now == g.now && s.lastId == g.lastId && s.registered == g.registered
    && |s.executions| == |g.runs|
    && forall k | 0 <= k < |g.runs| ::
         s.executions[k].id == g.runs[k].id && s.executions[k].tool == g.runs[k].tool && s.executions[k].args == g.runs[k].args
  }

  /** One step of the newest call changes only that call. */
  lemma NewestAdvances(s: I.State, rest: seq<I.Call>, c: I.Call, ok: bool) returns (u: I.State)
    requires s.calls == rest + [c]
    ensures u == I.Step(s, I.Advance(|rest|, ok, []))
    ensures |u.calls| == |rest| + 1 && u.calls == rest + [u.calls[|rest|]]
  {
    u := I.Step(s, I.Advance(|rest|, ok, []));
  }

  lemma AloneUnfolds(s0: I.State, n: nat, ok: bool, s1: I.State, s2: I.State, s3: I.State, s4: I.State)
    requires s1 == I.Step(s0, I.Advance(n, ok, [])) && s2 == I.Step(s1, I.Advance(n, ok, []))
    requires s3 == I.Step(s2, I.Advance(n, ok, [])) && s4 == I.Step(s3, I.Advance(n, ok, []))
    ensures Alone(s0, n, ok, [], 4) == s4 && Alone(s0, n, ok, [], 2) == s2
  {
    assert Alone(s3, n, ok, [], 1) == Alone(s4, n, ok, [], 0) == s4;
    assert Alone(s2, n, ok, [], 2) == s4 && Alone(s1, n, ok, [], 3) == s4;
    assert Alone(s1, n, ok, [], 1) == Alone(s2, n, ok, [], 0) == s2;
  }

  /** `confirm_and_execute` in one piece is its four steps run alone. */
  lemma ConfirmIsItsSteps(s: I.State, g: G.State, id: int, code: string, ok: bool)
    requires Agree(s, g)
    ensures var begun := I.Step(s, I.Begin(I.ConfirmRead(id, code)));
            var after := Alone(begun, |s.calls|, ok, [], 4);
            Agree(after, G.Confirmed(g, id, code, ok)) && after.calls == s.calls + [I.Returned]
  {
    var n := |s.calls|;
    var s0 := I.Step(s, I.Begin(I.ConfirmRead(id, code)));
    var s1 := NewestAdvances(s0, s.calls, I.ConfirmRead(id, code), ok);
    var s2 := NewestAdvances(s1, s.calls, s1.calls[n], ok);
    var s3 := NewestAdvances(s2, s.calls, s2.calls[n], ok);
    var s4 := NewestAdvances(s3, s.calls, s3.calls[n], ok);
    AloneUnfolds(s0, n, ok, s1, s2, s3, s4);
    var after := G.Confirmed(g, id, code, ok);
    match G.ConfirmReply(g, id, code, ok) {
      case NotFound => assert s1.calls[n] == s2.calls[n] == s3.calls[n] == I.Returned;
      case AlreadyResolved(_) => assert s1.calls[n] == s2.calls[n] == s3.calls[n] == I.Returned;
      case WrongCode(_) => Miscounts(s, g, id, code, ok, s1, s2, s3, s4);
      case LockedOut(_) => Miscounts(s, g, id, code, ok, s1, s2, s3, s4);
      case ExpiredFirst => ArrivesLate(s, g, id, code, ok, s1, s2, s3, s4);
      case NoImplementation => Runs(s, g, id, code, ok, s1, s2, s3, s4);
      case RunFailed => Runs(s, g, id, code, ok, s1, s2, s3, s4);
      case RunSucceeded => Runs(s, g, id, code, ok, s1, s2, s3, s4);
    }
  }

  ghost predicate FourSteps(s: I.State, id: int, code: string, ok: bool,
                            s1: I.State, s2: I.State, s3: I.State, s4: I.State) {
    var n := |s.calls|;
    && s1 == I.Step(s.(calls := s.calls + [I.ConfirmRead(id, code)]), I.Advance(n, ok, []))
    && |s1.calls| == |s2.calls| == |s3.calls| == |s4.calls| == n + 1
    && s2 == I.Step(s1, I.Advance(n, ok, [])) && s3 == I.Step(s2, I.Advance(n, ok, []))
    && s4 == I.Step(s3, I.Advance(n, ok, []))
  }

  lemma Miscounts(s: I.State, g: G.State, id: int, code: string, ok: bool,
                  s1: I.State, s2: I.State, s3: I.State, s4: I.State)
    requires Agree(s, g) && FourSteps(s, id, code, ok, s1, s2, s3, s4)
    requires G.ConfirmReply(g, id, code, ok).WrongCode? || G.ConfirmReply(g, id, code, ok).LockedOut?
    ensures Agree(s4, G.Confirmed(g, id, code, ok)) && s4.calls[|s.calls|] == I.Returned
  {
    var n := |s.calls|;
    assert s1.calls[n] == I.ConfirmMiscount(id) && s1.table == s.table;
    assert s2.table == Incremented(s.table, id);
    assert s2.calls[n] == I.ConfirmLock(id) || s2.calls[n] == I.Returned;
    assert s3.calls[n] == I.Returned;
  }

  lemma ArrivesLate(s: I.State, g: G.State, id: int, code: string, ok: bool,
                    s1: I.State, s2: I.State, s3: I.State, s4: I.State)
    requires Agree(s, g) && FourSteps(s, id, code, ok, s1, s2, s3, s4)
    requires G.ConfirmReply(g, id, code, ok).ExpiredFirst?
    ensures Agree(s4, G.Confirmed(g, id, code, ok)) && s4.calls[|s.calls|] == I.Returned
  {
    var n := |s.calls|;
    assert s1.calls[n] == I.ConfirmClaim(id, code, s.table[id]) && s1.table == s.table;
    assert s2.calls[n] == I.ConfirmRecheck(id) && s2.table == s.table;
    assert s3.calls[n] == I.ConfirmExpire(id) && s3.table == s.table;
  }

  lemma Runs(s: I.State, g: G.State, id: int, code: string, ok: bool,
             s1: I.State, s2: I.State, s3: I.State, s4: I.State)
    requires Agree(s, g) && FourSteps(s, id, code, ok, s1, s2, s3, s4)
    requires var reply := G.ConfirmReply(g, id, code, ok);
             reply.NoImplementation? || reply.RunFailed? || reply.RunSucceeded?
    ensures Agree(s4, G.Confirmed(g, id, code, ok)) && s4.calls[|s.calls|] == I.Returned
  {
    var n := |s.calls|;
    assert s1.calls[n] == I.ConfirmClaim(id, code, s.table[id]) && s1.table == s.table;
    assert s2.calls[n] == I.ConfirmRun(id, code, s.table[id], s.now) && s2.table == Claimed(s.table, id, s.now);
    assert s3.calls[n].ConfirmFinish? && s3.table == s2.table;
    var outcome := s3.calls[n].outcome;
    assert Resolved(Claimed(s.table, id, s.now), id, outcome) == Resolved(s.table, id, outcome);
  }

  /** `cancel` in one piece is its two steps run alone. */
  lemma CancelIsItsSteps(s: I.State, g: G.State, id: int)
    requires Agree(s, g)
    ensures var begun := I.Step(s, I.Begin(I.CancelRead(id)));
            var after := Alone(begun, |s.calls|, true, [], 2);
            Agree(after, G.CancelledBy(g, id)) && after.calls == s.calls + [I.Returned]
  {
    var n := |s.calls|;
    var s0 := I.Step(s, I.Begin(I.CancelRead(id)));
    var s1 := NewestAdvances(s0, s.calls, I.CancelRead(id), true);
    var s2 := NewestAdvances(s1, s.calls, s1.calls[n], true);
    AloneUnfolds(s0, n, true, s1, s2, I.Step(s2, I.Advance(n, true, [])),
                 I.Step(I.Step(s2, I.Advance(n, true, [])), I.Advance(n, true, [])));
  }

  // ---------- the sweep ----------

  function ResolvedAll(t: Table, ids: seq<int>): Table
    decreases ids
  {
    if ids == [] then t else ResolvedAll(Resolved(t, ids[0], Expired), ids[1..])
  }

  lemma {:induction false} ResolvedAllRows(t: Table, ids: seq<int>)
    ensures ResolvedAll(t, ids) == map id | id in t :: if id in ids then t[id].(status := Expired) else t[id]
    decreases ids
  {
    if ids != [] {
      ResolvedAllRows(Resolved(t, ids[0], Expired), ids[1..]);
      assert forall id :: id in ids <==> id == ids[0] || id in ids[1..];
    }
  }

  /** One update per listed row, then the call returns. */
  lemma {:induction false} SweepsTheRest(u: I.State, rest: seq<I.Call>, ids: seq<int>, order: seq<int>)
    requires u.calls == rest + [I.SweepResolve(ids)]
    ensures Alone(u, |rest|, true, order, |ids| + 1) == u.(table := ResolvedAll(u.table, ids), calls := rest + [I.Returned])
    decreases ids
  {
    var next := I.Step(u, I.Advance(|rest|, true, order));
    if ids == [] {
      assert next == u.(calls := rest + [I.Returned]);
      assert Alone(u, |rest|, true, order, 1) == Alone(next, |rest|, true, order, 0) == next;
    } else {
      assert next.calls == rest + [I.SweepResolve(ids[1..])];
      SweepsTheRest(next, rest, ids[1..], order);
    }
  }

  lemma SweptTable(g: G.State, order: seq<int>)
    requires I.Lists(order, Overdue(g.table, g.now))
    ensures ResolvedAll(g.table, order) == G.Swept(g).table
  {
    ResolvedAllRows(g.table, order);
    forall id | id in g.table ensures id in order <==> IsOverdue(g.table, id, g.now) {
      assert id in order <==> id in Overdue(g.table, g.now);
    }
  }

  /** `sweep_expired` in one piece is its steps run alone, in whatever order the rows are
      listed. */
  lemma SweepIsItsSteps(s: I.State, g: G.State, order: seq<int>)
    requires Agree(s, g) && I.Lists(order, Overdue(s.table, s.now))
    ensures var begun := I.Step(s, I.Begin(I.SweepRead));
            var after := Alone(begun, |s.calls|, true, order, |order| + 2);
            Agree(after, G.Swept(g)) && after.calls == s.calls + [I.Returned]
  {
    hide ResolvedAll, Overdue;
    var n := |s.calls|;
    var begun := I.Step(s, I.Begin(I.SweepRead));
    var listed := I.Step(begun, I.Advance(n, true, order));
    assert listed == s.(calls := s.calls + [I.SweepResolve(order)]);
    assert Alone(begun, n, true, order, |order| + 2) == Alone(listed, n, true, order, |order| + 1);
    SweepsTheRest(listed, s.calls, order, order);
    SweptTable(g, order);
  }

  // ---------- runs of whole calls ----------

  lemma {:induction false} AloneIsARun(labels: seq<I.Label>, n: nat, ok: bool, order: seq<int>, times: nat)
    returns (more: seq<I.Label>)
    ensures I.Run(more) == Alone(I.Run(labels), n, ok, order, times)
    decreases times
  {
    hide I.Run;
    more := labels;
    if times > 0 {
      more := I.Also(labels, I.Advance(n, ok, order));
      more := AloneIsARun(more, n, ok, order, times - 1);
    }
  }

  lemma {:induction false} ListOf(ids: set<int>) returns (order: seq<int>)
    ensures I.Lists(order, ids)
  {
    order := [];
    if exists id :: id in ids {
      var id :| id in ids;
      order := ListOf(ids - {id});
      order := order + [id];
    }
  }

  /** A whole call is an interleaving in which nothing else moves. */
  lemma OpIsAnInterleaving(labels: seq<I.Label>, g: G.State, op: G.Op) returns (more: seq<I.Label>)
    requires Agree(I.Run(labels), g)
    ensures Agree(I.Run(more), G.Apply(g, op))
  {
    hide I.Run, Alone, G.Confirmed, G.CancelledBy, G.Swept;
    var s := I.Run(labels);
    match op
    case Request(tool, args, code, ttl) => more := I.Also(labels, I.Create(tool, args, code, ttl));
    case RegisterOp(name) => more := I.Also(labels, I.Register(name));
    case WaitOp(seconds) => more := I.Also(labels, I.Tick(seconds));
    case Confirm(id, code, normally) =>
      more := I.Also(labels, I.Begin(I.ConfirmRead(id, code)));
      more := AloneIsARun(more, |s.calls|, normally, [], 4);
      ConfirmIsItsSteps(s, g, id, code, normally);
    case CancelOp(id) =>
      more := I.Also(labels, I.Begin(I.CancelRead(id)));
      more := AloneIsARun(more, |s.calls|, true, [], 2);
      CancelIsItsSteps(s, g, id);
    case Sweep =>
      var order := ListOf(Overdue(s.table, s.now));
      more := I.Also(labels, I.Begin(I.SweepRead));
      more := AloneIsARun(more, |s.calls|, true, order, |order| + 2);
      SweepIsItsSteps(s, g, order);
  }

  /** Every run of whole calls is an interleaving: same table, same executions. */
  lemma {:induction false} RunIsAnInterleaving(labels: seq<I.Label>, g: G.State, ops: seq<G.Op>)
    returns (more: seq<I.Label>)
    requires Agree(I.Run(labels), g)
    ensures Agree(I.Run(more), G.ApplyAll(g, ops))
    decreases ops
  {
    more := labels;
    if ops != [] {
      more := OpIsAnInterleaving(labels, g, ops[0]);
      more := RunIsAnInterleaving(more, G.Apply(g, ops[0]), ops[1..]);
    }
  }

  /** What holds of every interleaving transfers: over every run of whole calls each action
      runs at most once, with its stored tool and arguments, after some text that spells
      its code and before its deadline. */
  lemma WholeCallsExecuteAtMostOnce(ops: seq<G.Op>)
    ensures var g := G.ApplyAll(G.INIT, ops);
            && (forall i, j | 0 <= i < j < |g.runs| :: g.runs[i].id != g.runs[j].id)
            && (forall k | 0 <= k < |g.runs| ::
                  && g.runs[k].id in g.table
                  && g.runs[k].tool == g.table[g.runs[k].id].tool && g.runs[k].args == g.table[g.runs[k].id].args
                  && exists code, at :: TypesCode(code, g.table[g.runs[k].id].code) && IsOpen(g.table[g.runs[k].id], at))
  {
    hide I.Run, G.ApplyAll, TypesCode;
    StartsAlike();
    var labels := RunIsAnInterleaving([], G.INIT, ops);
    var s, g := I.Run(labels), G.ApplyAll(G.INIT, ops);
    I.AtMostOnceExecution(labels);
    forall k | 0 <= k < |g.runs|
      ensures g.runs[k].id in g.table
      ensures g.runs[k].tool == g.table[g.runs[k].id].tool && g.runs[k].args == g.table[g.runs[k].id].args
      ensures exists code, at :: TypesCode(code, g.table[g.runs[k].id].code) && IsOpen(g.table[g.runs[k].id], at)
    {
      var e := s.executions[k];
      assert e in s.executions;
      assert TypesCode(e.code, g.table[e.id].code) && IsOpen(g.table[e.id], e.claimedAt);
    }
  }

  predicate IsOpen(row: Row, at: int) {
    at < row.expiresAt
  }

  lemma StartsAlike()
    ensures Agree(I.Run([]), G.INIT)
  {}
}
