/** The human-approval gate as one caller sees it: whole calls, one after the other. */
module ApprovalGate {
  import opened Common
  import opened PendingActions

  /** One run of an approved function; `returned` is false when it raised. */
  datatype RunRecord = RunRecord(id: int, tool: string, args: string, returned: bool)

  datatype State = State(table: Table, now: int, lastId: int, registered: set<string>, runs: seq<RunRecord>)

  datatype Reply =
    | NotFound
    | AlreadyResolved(status: Status)
    | WrongCode(attempts: nat)
    | LockedOut(attempts: nat)
    | ExpiredFirst
    | NoImplementation
    | RunFailed
    | RunSucceeded

  // ---------- whole calls as functions ----------

  function Requested(s: State, tool: string, args: string, code: string, ttl: int): State {
    s.(lastId := s.lastId + 1, table := Inserted(s.table, s.lastId + 1, tool, args, code, s.now + ttl))
  }

  function ConfirmReply(s: State, id: int, code: string, normally: bool): Reply {
    if id !in s.table then NotFound
    else
      var row := s.table[id];
      if row.status != Pending then AlreadyResolved(row.status)
      else if !CodeMatches(code, row.code) then
        if row.failedAttempts + 1 >= MAX_FAILED_ATTEMPTS then LockedOut(row.failedAttempts + 1)
        else WrongCode(row.failedAttempts + 1)
      else if row.expiresAt <= s.now then ExpiredFirst
      else if row.tool !in s.registered then NoImplementation
      else if normally then RunSucceeded
      else RunFailed
  }

  /** The state after `confirm_and_execute`, by its reply. */
  function Confirmed(s: State, id: int, code: string, normally: bool): State {
    match ConfirmReply(s, id, code, normally)
    case NotFound => s
    case AlreadyResolved(_) => s
    case WrongCode(_) => s.(table := Incremented(s.table, id))
    case LockedOut(_) => s.(table := Resolved(Incremented(s.table, id), id, Locked))
    case ExpiredFirst => s.(table := Resolved(s.table, id, Expired))
    case NoImplementation => s.(table := Resolved(s.table, id, InternalError))
    case RunFailed => Ran(s, id, false)
    case RunSucceeded => Ran(s, id, true)
  }

  function Ran(s: State, id: int, returned: bool): State
    requires id in s.table
  {
    s.(table := Resolved(s.table, id, if returned then Executed else Failed),
       runs := s.runs + [RunRecord(id, s.table[id].tool, s.table[id].args, returned)])
  }

  function CancelledBy(s: State, id: int): State {
    if id in s.table && s.table[id].status == Pending then s.(table := Resolved(s.table, id, Cancelled)) else s
  }

  function Swept(s: State): State {
    s.(table := map id | id in s.table ::
         if IsOverdue(s.table, id, s.now) then s.table[id].(status := Expired) else s.table[id])
  }

  // ---------- the calls in plain terms ----------

  /** What a confirmation does, told from the row and the text alone: it runs the approved
      function, once, with the stored arguments, if and only if the row is pending, the text
      spells the code, the deadline lies ahead and the tool is registered; a wrong text only
      counts, and the fifth locks. */
  lemma ConfirmInPlainTerms(s: State, id: int, text: string, normally: bool)
    requires id in s.table
    ensures var row, u := s.table[id], Confirmed(s, id, text, normally);
            var right, alive, known := TypesCode(text, row.code), s.now < row.expiresAt, row.tool in s.registered;
            && u.now == s.now && u.lastId == s.lastId && u.registered == s.registered
            && (row.status != Pending ==> u == s)
            && (row.status == Pending ==>
                  && u.runs == (if right && alive && known then s.runs + [RunRecord(id, row.tool, row.args, normally)] else s.runs)
                  && u.table == s.table[id :=
                       if !right && row.failedAttempts >= 4 then row.(failedAttempts := row.failedAttempts + 1, status := Locked)
                       else if !right then row.(failedAttempts := row.failedAttempts + 1)
                       else if !alive then row.(status := Expired)
                       else if !known then row.(status := InternalError)
                       else if normally then row.(status := Executed)
                       else row.(status := Failed)])
  {
    hide CodeMatches, TypesCode;
    CodeMatchesIff(text, s.table[id].code);
  }

  /** The reply names the outcome. */
  lemma ReplyInPlainTerms(s: State, id: int, text: string, normally: bool)
    ensures id !in s.table ==> ConfirmReply(s, id, text, normally) == NotFound && Confirmed(s, id, text, normally) == s
    ensures id in s.table ==>
              var row := s.table[id];
              ConfirmReply(s, id, text, normally) ==
              if row.status != Pending then AlreadyResolved(row.status)
              else if !TypesCode(text, row.code) then
                (if row.failedAttempts < 4 then WrongCode(row.failedAttempts + 1) else LockedOut(row.failedAttempts + 1))
              else if s.now >= row.expiresAt then ExpiredFirst
              else if row.tool !in s.registered then NoImplementation
              else if normally then RunSucceeded
              else RunFailed
  {
    hide CodeMatches, TypesCode;
    if id in s.table { CodeMatchesIff(text, s.table[id].code); }
  }

  /** A new action is pending, without failed attempts, until its deadline, under a new id. */
  lemma RequestInPlainTerms(s: State, tool: string, args: string, code: string, ttl: int)
    ensures var u := Requested(s, tool, args, code, ttl);
            && u.lastId == s.lastId + 1 && u.now == s.now && u.registered == s.registered && u.runs == s.runs
            && u.table.Keys == s.table.Keys + {s.lastId + 1}
            && u.table[s.lastId + 1] == Row(tool, args, code, 0, Pending, s.now + ttl)
            && forall id | id in s.table && id != s.lastId + 1 :: u.table[id] == s.table[id]
  {}

  /** Cancelling and sweeping relabel exactly the rows they should, and run nothing. */
  lemma RelabelInPlainTerms(s: State, id: int, other: int)
    requires other in s.table
    ensures var row, c, w := s.table[other], CancelledBy(s, id), Swept(s);
            && c.table.Keys == w.table.Keys == s.table.Keys && c.runs == w.runs == s.runs
            && c.table[other] == (if other == id && row.status == Pending then row.(status := Cancelled) else row)
            && w.table[other] == if row.status == Pending && row.expiresAt <= s.now then row.(status := Expired) else row
  {}

  // ---------- the calls, as the program performs them ----------

  class Gate {
    var table: Table
    var now: int
    var lastId: int
    var registered: set<string>
    var runs: seq<RunRecord>

    function Snapshot(): State
      reads this
    {
      State(table, now, lastId, registered, runs)
    }

    constructor ()
      ensures Snapshot() == State(map[], 0, 0, {}, [])
    {
      table, now, lastId, registered, runs := map[], 0, 0, {}, [];
    }

    method RegisterAction(name: string)
      modifies this`registered
      ensures Snapshot() == old(Snapshot()).(registered := old(registered) + {name})
    {
      registered := registered + {name};
    }

    method Wait(seconds: nat)
      modifies this`now
      ensures Snapshot() == old(Snapshot()).(now := old(now) + seconds)
    {
      now := now + seconds;
    }

    /** `request_confirmation`; `blocked` is the verdict of the governance precheck. */
    method RequestConfirmation(tool: string, args: string, code: string, ttl: int, blocked: bool) returns (id: Option<int>)
      modifies this`table, this`lastId
      ensures blocked ==> id == None && Snapshot() == old(Snapshot())
      ensures !blocked ==> id == Some(old(lastId) + 1) && Snapshot() == Requested(old(Snapshot()), tool, args, code, ttl)
    {
      if blocked { return None; }
      lastId := lastId + 1;
      table := Inserted(table, lastId, tool, args, code, now + ttl);
      return Some(lastId);
    }

    /** `confirm_and_execute`, statement by statement; `normally` says whether the approved
        function returns. */
    method ConfirmAndExecute(id: int, code: string, normally: bool) returns (reply: Reply)
      modifies this`table, this`runs
      ensures reply == ConfirmReply(old(Snapshot()), id, code, normally)
      ensures Snapshot() == Confirmed(old(Snapshot()), id, code, normally)
    {
      if id !in table { return NotFound; }
      var row := table[id];
      if row.status != Pending { return AlreadyResolved(row.status); }
      if !CodeMatches(code, row.code) {
        table := Incremented(table, id);
        var attempts := AttemptsOf(table, id);
        if attempts >= MAX_FAILED_ATTEMPTS {
          table := Resolved(table, id, Locked);
          return LockedOut(attempts);
        }
        return WrongCode(attempts);
      }
      var claimed := CanClaim(table, id, now);
      table := Claimed(table, id, now);
      if !claimed {
        // No other call ran in between, so the re-read finds the row still pending.
        assert table[id].status == Pending;
        table := Resolved(table, id, Expired);
        return ExpiredFirst;
      }
      if row.tool !in registered {
        table := Resolved(table, id, InternalError);
        return NoImplementation;
      }
      runs := runs + [RunRecord(id, row.tool, row.args, normally)];
      if !normally {
        table := Resolved(table, id, Failed);
        return RunFailed;
      }
      table := Resolved(table, id, Executed);
      return RunSucceeded;
    }

    /** `cancel`. */
    method Cancel(id: int)
      modifies this`table
      ensures Snapshot() == CancelledBy(old(Snapshot()), id)
    {
      if id in table && table[id].status == Pending {
        table := Resolved(table, id, Cancelled);
      }
    }

    /** `sweep_expired`: one SELECT, then one update per listed row. */
    method SweepExpired() returns (expired: seq<int>)
      modifies this`table
      ensures Snapshot() == Swept(old(Snapshot()))
      ensures forall id :: id in expired <==> IsOverdue(old(table), id, now)
      ensures forall i, j | 0 <= i < j < |expired| :: expired[i] != expired[j]
    {
      var rows := Overdue(table, now);
      ghost var all := rows;
      expired := [];
      while rows != {}
        invariant rows <= all && forall id :: id in expired <==> id in all - rows
        invariant forall i, j | 0 <= i < j < |expired| :: expired[i] != expired[j]
        invariant table.Keys == old(table).Keys
        invariant forall id | id in table ::
                    table[id] == if id in all - rows then old(table)[id].(status := Expired) else old(table)[id]
        decreases rows
      {
        var id :| id in rows;
        rows := rows - {id};
        table := Resolved(table, id, Expired);
        expired := expired + [id];
      }
    }
  }

  // ---------- runs of whole calls ----------

  datatype Op =
    | Request(tool: string, args: string, code: string, ttl: int)
    | Confirm(id: int, code: string, normally: bool)
    | CancelOp(id: int)
    | Sweep
    | RegisterOp(name: string)
    | WaitOp(seconds: nat)

  const INIT := State(map[], 0, 0, {}, [])

  function Apply(s: State, op: Op): State {
    match op
    case Request(tool, args, code, ttl) => Requested(s, tool, args, code, ttl)
    case Confirm(id, code, normally) => Confirmed(s, id, code, normally)
    case CancelOp(id) => CancelledBy(s, id)
    case Sweep => Swept(s)
    case RegisterOp(name) => s.(registered := s.registered + {name})
    case WaitOp(d) => s.(now := s.now + d)
  }

  function ApplyAll(s: State, ops: seq<Op>): State
    decreases ops
  {
    if ops == [] then s else ApplyAll(Apply(s, ops[0]), ops[1..])
  }

  predicate RanWith(s: State, id: int, returned: bool) {
    exists r :: r in s.runs && r.id == id && r.returned == returned
  }

  /** The lifecycle of one row between calls. */
  predicate RowInv(s: State, id: int)
    requires id in s.table
  {
    var row := s.table[id];
    && row.status != Executing
    && (row.status == Pending ==> row.failedAttempts < MAX_FAILED_ATTEMPTS)
    && (row.status == Locked <==> row.failedAttempts == MAX_FAILED_ATTEMPTS)
    && row.failedAttempts <= MAX_FAILED_ATTEMPTS
    && (row.status == Executed <==> RanWith(s, id, true))
    && (row.status == Failed <==> RanWith(s, id, false))
  }

  predicate RunsInv(s: State) {
    && (forall i, j | 0 <= i < j < |s.runs| :: s.runs[i].id != s.runs[j].id)
    && (forall r | r in s.runs :: r.id in s.table && r.tool == s.table[r.id].tool && r.args == s.table[r.id].args)
  }

  predicate Inv(s: State) {
    && (forall id | id in s.table :: id <= s.lastId)
    && (forall id | id in s.table :: RowInv(s, id))
    && RunsInv(s)
  }

  lemma RanKeepsInv(s: State, id: int, returned: bool)
    requires Inv(s) && id in s.table && s.table[id].status == Pending
    ensures Inv(Ran(s, id, returned))
  {
    var u := Ran(s, id, returned);
    var last := u.runs[|s.runs|];
    assert last in u.runs && last.id == id;
    assert forall r :: r in u.runs <==> r in s.runs || r == last;
    assert RowInv(s, id);
    assert forall r | r in s.runs :: r.id != id;
    forall other | other in u.table ensures RowInv(u, other) {
      assert RowInv(s, other);
      assert other != id ==> forall b :: RanWith(u, other, b) == RanWith(s, other, b);
    }
  }

  /** Without a new run, rows that keep their attempts and stay unclaimed keep the invariant. */
  lemma RelabelKeepsInv(s: State, u: State)
    requires Inv(s) && u.runs == s.runs && u.lastId == s.lastId && u.table.Keys == s.table.Keys
    requires forall id | id in s.table ::
               || u.table[id] == s.table[id]
               || (s.table[id].status == Pending
                   && u.table[id] == s.table[id].(status := u.table[id].status)
                   && u.table[id].status in {Cancelled, Expired, InternalError})
    ensures Inv(u)
  {
    forall id | id in u.table ensures RowInv(u, id) {
      assert RowInv(s, id);
      assert forall b :: RanWith(u, id, b) == RanWith(s, id, b);
    }
  }

  lemma MiscountKeepsInv(s: State, id: int, u: State)
    requires Inv(s) && id in s.table && s.table[id].status == Pending
    requires u.runs == s.runs && u.lastId == s.lastId
    requires u.table == (if s.table[id].failedAttempts + 1 >= MAX_FAILED_ATTEMPTS
                         then Resolved(Incremented(s.table, id), id, Locked) else Incremented(s.table, id))
    ensures Inv(u)
  {
    forall other | other in u.table ensures RowInv(u, other) {
      assert RowInv(s, other);
      assert forall b :: RanWith(u, other, b) == RanWith(s, other, b);
    }
  }

  lemma ConfirmKeepsInv(s: State, id: int, code: string, normally: bool)
    requires Inv(s)
    ensures Inv(Confirmed(s, id, code, normally))
  {
    hide CodeMatches, Inv;
    var u := Confirmed(s, id, code, normally);
    match ConfirmReply(s, id, code, normally)
    case NotFound =>
    case AlreadyResolved(_) =>
    case WrongCode(_) => MiscountKeepsInv(s, id, u);
    case LockedOut(_) => MiscountKeepsInv(s, id, u);
    case ExpiredFirst => RelabelKeepsInv(s, u);
    case NoImplementation => RelabelKeepsInv(s, u);
    case RunFailed => RanKeepsInv(s, id, false);
    case RunSucceeded => RanKeepsInv(s, id, true);
  }

  lemma RequestKeepsInv(s: State, tool: string, args: string, code: string, ttl: int)
    requires Inv(s)
    ensures Inv(Requested(s, tool, args, code, ttl))
  {
    var u := Requested(s, tool, args, code, ttl);
    forall id | id in u.table ensures RowInv(u, id) {
      assert forall b :: RanWith(u, id, b) == RanWith(s, id, b);
      if id in s.table { assert RowInv(s, id); } else { assert forall r | r in s.runs :: r.id != id; }
    }
  }

  lemma ApplyKeepsInv(s: State, op: Op)
    requires Inv(s)
    ensures Inv(Apply(s, op))
  {
    hide Inv;
    var u := Apply(s, op);
    match op
    case Request(tool, args, code, ttl) => RequestKeepsInv(s, tool, args, code, ttl);
    case Confirm(id, code, normally) => ConfirmKeepsInv(s, id, code, normally);
    case CancelOp(id) => RelabelKeepsInv(s, u);
    case Sweep => RelabelKeepsInv(s, u);
    case RegisterOp(name) => RelabelKeepsInv(s, u);
    case WaitOp(d) => RelabelKeepsInv(s, u);
  }

  /** A resolved row never changes again. */
  predicate ResolvedRowsStay(s: State, u: State) {
    forall id | id in s.table && s.table[id].status != Pending :: id in u.table && u.table[id] == s.table[id]
  }

  /** Sequential lifecycle, over every run of non-overlapping calls: pending rows have fewer
      than five wrong codes, the fifth locks the row, no row is left claimed, a function
      runs at most once, and the final label says exactly how it ended; resolved rows never
      change again. */
  lemma {:induction false} SequentialLifecycle(s: State, ops: seq<Op>)
    requires Inv(s)
    ensures Inv(ApplyAll(s, ops)) && ResolvedRowsStay(s, ApplyAll(s, ops))
    decreases ops
  {
    if ops != [] {
      ApplyKeepsInv(s, ops[0]);
      assert ResolvedRowsStay(s, Apply(s, ops[0]));
      SequentialLifecycle(Apply(s, ops[0]), ops[1..]);
    }
  }

  /** What a reader may conclude from the labels after any run from an empty table. */
  lemma LabelsTellTheTruth(ops: seq<Op>, id: int)
    ensures var s := ApplyAll(INIT, ops);
            id in s.table ==>
              && (s.table[id].status == Executed <==> RanWith(s, id, true))
              && (s.table[id].status == Failed <==> RanWith(s, id, false))
              && (s.table[id].status == Locked ==> !RanWith(s, id, true) && !RanWith(s, id, false))
  {
    SequentialLifecycle(INIT, ops);
    var s := ApplyAll(INIT, ops);
    if id in s.table { assert RowInv(s, id); }
  }

  function ConfirmEach(s: State, id: int, codes: seq<string>): State
    decreases codes
  {
    if codes == [] then s else ConfirmEach(Confirmed(s, id, codes[0], true), id, codes[1..])
  }

  /** A series of wrong codes runs nothing; it locks the action exactly when the fifth
      wrong code is among them, whatever follows. */
  lemma {:induction false} WrongCodesLockOut(s: State, id: int, codes: seq<string>)
    requires id in s.table && s.table[id].status == Pending && s.table[id].failedAttempts < MAX_FAILED_ATTEMPTS
    requires forall c | c in codes :: !CodeMatches(c, s.table[id].code)
    ensures var u := ConfirmEach(s, id, codes);
            && u.runs == s.runs && id in u.table
            && (if s.table[id].failedAttempts + |codes| >= MAX_FAILED_ATTEMPTS
                then u.table[id] == s.table[id].(status := Locked, failedAttempts := MAX_FAILED_ATTEMPTS)
                else u.table[id] == s.table[id].(failedAttempts := s.table[id].failedAttempts + |codes|))
    decreases codes
  {
    if codes != [] {
      var t := Confirmed(s, id, codes[0], true);
      if s.table[id].failedAttempts + 1 < MAX_FAILED_ATTEMPTS {
        WrongCodesLockOut(t, id, codes[1..]);
      } else {
        ResolvedIgnoresCodes(t, id, codes[1..]);
      }
    }
  }

  lemma {:induction false} ResolvedIgnoresCodes(s: State, id: int, codes: seq<string>)
    requires id in s.table && s.table[id].status != Pending
    ensures ConfirmEach(s, id, codes) == s
    decreases codes
  {
    if codes != [] { ResolvedIgnoresCodes(s, id, codes[1..]); }
  }
}
