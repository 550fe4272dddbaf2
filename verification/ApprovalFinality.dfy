/** When the row of a resolved action is final although calls overlap. */
module ApprovalFinality {
  import opened Common
  import opened PendingActions
  import opened ApprovalInterleaving

  function Continue(s: State, more: seq<Label>): State
    decreases more
  {
    if more == [] then s else Continue(Step(s, more[0]), more[1..])
  }

  function RowAfter(s: State, more: seq<Label>, id: int): Option<Row> {
    var t := Continue(s, more).table;
    if id in t then Some(t[id]) else None
  }

  /** The call has a write to row `id` in hand that would change it. */
  predicate HoldsWrite(c: Call, id: int, row: Row) {
    match c
    case ConfirmMiscount(i) => i == id
    case ConfirmLock(i) => i == id && row.status != Locked
    case ConfirmExpire(i) => i == id && row.status != Expired
    case ConfirmRun(i, _, _, _) => i == id
    case ConfirmFinish(i, outcome) => i == id && row.status != outcome
    case CancelResolve(i) => i == id && row.status != Cancelled
    case SweepResolve(ids) => id in ids && row.status != Expired
    case _ => false
  }

  predicate IsSettled(s: State, id: int) {
    && id in s.table && s.table[id].status != Pending
    && forall c | c in s.calls :: !HoldsWrite(c, id, s.table[id])
  }

  lemma AdvanceKeepsRow(s: State, n: nat, ok: bool, order: seq<int>, id: int)
    requires id in s.table && s.table[id].status != Pending
    requires n < |s.calls| && !HoldsWrite(s.calls[n], id, s.table[id])
    ensures var u := Advanced(s, n, ok, order);
            && id in u.table && u.table[id] == s.table[id] && u.lastId == s.lastId
            && |u.calls| == |s.calls| && u.calls == s.calls[n := u.calls[n]]
            && !HoldsWrite(u.calls[n], id, s.table[id])
  {
    hide CodeMatches;
    var u := Advanced(s, n, ok, order);
    assert u.calls == s.calls[n := u.calls[n]];
    if s.calls[n].SweepRead? && u.calls[n].SweepResolve? { assert id !in Overdue(s.table, s.now); }
  }

  lemma StepKeepsSettled(s: State, l: Label, id: int)
    requires IsSettled(s, id) && id <= s.lastId
    ensures var u := Step(s, l); IsSettled(u, id) && u.table[id] == s.table[id] && id <= u.lastId
  {
    hide Advanced;
    if l.Advance? && l.n < |s.calls| {
      assert s.calls[l.n] in s.calls;
      AdvanceKeepsRow(s, l.n, l.ok, l.order, id);
      assert forall c :: c in Step(s, l).calls ==> c in s.calls || c == Step(s, l).calls[l.n];
    }
  }

  lemma {:induction false} SettledForever(s: State, more: seq<Label>, id: int)
    requires IsSettled(s, id) && id <= s.lastId
    ensures RowAfter(s, more, id) == Some(s.table[id])
    decreases more
  {
    if more != [] {
      StepKeepsSettled(s, more[0], id);
      SettledForever(Step(s, more[0]), more[1..], id);
    }
  }

  lemma ContinueFirst(s: State, l: Label, rest: seq<Label>)
    ensures Continue(s, [l] + rest) == Continue(Step(s, l), rest)
    ensures Continue(s, [l]) == Step(s, l)
  {
    assert ([l] + rest)[1..] == rest && [l][1..] == [];
  }

  /** A call with such a write in hand can go on and make it. */
  lemma {:induction false} HeldWriteHappens(s: State, n: nat, id: int) returns (more: seq<Label>)
    requires id in s.table && s.table[id].status != Pending && n < |s.calls| && HoldsWrite(s.calls[n], id, s.table[id])
    ensures RowAfter(s, more, id) != Some(s.table[id])
    decreases if s.calls[n].SweepResolve? then |s.calls[n].ids| else 0
  {
    hide Continue;
    var go := Advance(n, true, []);
    var c := s.calls[n];
    if c.ConfirmRun? {
      more := RunHappens(s, n, id);
    } else if c.SweepResolve? && c.ids[0] != id {
      var u := Step(s, go);
      assert u.table[id] == s.table[id] && u.calls[n] == SweepResolve(c.ids[1..]);
      var rest := HeldWriteHappens(u, n, id);
      more := [go] + rest;
      ContinueFirst(s, go, rest);
    } else {
      more := [go];
      ContinueFirst(s, go, []);
    }
  }

  lemma RunHappens(s: State, n: nat, id: int) returns (more: seq<Label>)
    requires id in s.table && n < |s.calls| && s.calls[n].ConfirmRun? && s.calls[n].id == id
    ensures RowAfter(s, more, id) != Some(s.table[id])
  {
    hide Continue;
    var known, normally := Register(s.calls[n].row.tool), s.table[id].status != Executed;
    var run, go := Advance(n, normally, []), Advance(n, true, []);
    var s1 := Step(s, known);
    var s2 := Step(s1, run);
    more := [known] + ([run] + [go]);
    ContinueFirst(s, known, [run] + [go]);
    ContinueFirst(s1, run, [go]);
    ContinueFirst(s2, go, []);
    assert s2.calls[n] == ConfirmFinish(id, if normally then Executed else Failed) && s2.table == s.table;
  }

  /** Exactly when a resolved action's row is final, in any interleaving: no call in progress
      holds a write that would change it. Cancel, sweep and confirm calls that begin later
      cannot change it any more. */
  lemma RowIsFinalIff(labels: seq<Label>, id: int)
    requires id in Run(labels).table && Run(labels).table[id].status != Pending
    ensures var s := Run(labels);
            IsSettled(s, id) <==> forall more: seq<Label> :: RowAfter(s, more, id) == Some(s.table[id])
  {
    var s := Run(labels);
    RunKeepsInv(labels);
    if IsSettled(s, id) {
      forall more: seq<Label> ensures RowAfter(s, more, id) == Some(s.table[id]) {
        SettledForever(s, more, id);
      }
    } else {
      var c :| c in s.calls && HoldsWrite(c, id, s.table[id]);
      var n :| 0 <= n < |s.calls| && s.calls[n] == c;
      var more := HeldWriteHappens(s, n, id);
    }
  }
}
