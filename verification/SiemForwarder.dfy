/** One SIEM forwarder call after another: the cursor, the governance cooldown, and the
    audit events with which every attempt feeds the queue it drains. */
module SiemForwarder {
  import opened Common
  import opened EventQueue
  import P = PolicyEngine

  /** How the sender ends: confirmed; refused or failed on the network (the destination may
      have kept the batch all the same); or an unforeseen exception. */
  datatype Outcome = Confirmed | Failed(reached: bool) | Raised(reached: bool)

  datatype Blocked = Blocked(decision: P.Verdict, mode: string, actor: string, role: string, at: int)

  /** Everything a call reads from outside the database. */
  datatype Env = Env(enabled: bool, senderKnown: bool, limit: nat, cooldown: int, now: real,
                     mode: string, actor: string, role: string, decision: P.Verdict, outcome: Outcome)

  datatype State = State(log: seq<int>, lastId: int, cursor: int, blocked: Option<Blocked>, accepted: seq<int>)

  datatype Reply = Disabled | UnknownMode | NothingNew | InCooldown | WasDenied | WasDryRun | WasSent | NotSent | WasFailed

  // ---------- the call as a function ----------

  function Logged(s: State): State {
    s.(log := s.log + [s.lastId + 1], lastId := s.lastId + 1)
  }

  /** `_seconds_until_cooldown_expires`; the stored instant has whole seconds. */
  function SecondsLeft(b: Blocked, e: Env): real {
    e.cooldown as real - (e.now - b.at as real)
  }

  /** `_blocked_state_still_applies`. */
  predicate StillBlocked(b: Blocked, e: Env) {
    && b.decision != P.Allow
    && b.mode == e.mode && b.actor == e.actor && b.role == e.role
    && SecondsLeft(b, e) > 0.0
  }

  function ReplyOf(s: State, e: Env): Reply {
    if !e.enabled then Disabled
    else if !e.senderKnown then UnknownMode
    else if Batch(s.log, s.cursor, e.limit) == [] then NothingNew
    else if s.blocked.Some? && StillBlocked(s.blocked.value, e) then InCooldown
    else match e.decision
         case Deny => WasDenied
         case DryRunOnly => WasDryRun
         case Allow => match e.outcome
                       case Confirmed => WasSent
                       case Failed(_) => NotSent
                       case Raised(_) => WasFailed
  }

  /** The state after `forward_new_events`, by its reply. */
  function Forwarded(s: State, e: Env): State {
    var batch := Batch(s.log, s.cursor, e.limit);
    var decided := Logged(s);
    match ReplyOf(s, e)
    case Disabled => s
    case UnknownMode => s
    case NothingNew => s
    case InCooldown => s
    case WasDenied => decided.(blocked := Some(Blocked(P.Deny, e.mode, e.actor, e.role, e.now.Floor)))
    case WasDryRun => decided.(blocked := Some(Blocked(P.DryRunOnly, e.mode, e.actor, e.role, e.now.Floor)))
    case WasSent => Logged(decided.(accepted := s.accepted + batch, cursor := batch[|batch| - 1])).(blocked := None)
    case NotSent => Logged(Logged(Reached(decided, batch, e.outcome.reached))).(blocked := None)
    case WasFailed => Logged(Reached(decided, batch, e.outcome.reached)).(blocked := None)
  }

  function Reached(s: State, batch: seq<int>, reached: bool): State {
    if reached then s.(accepted := s.accepted + batch) else s
  }

  // ---------- the call as the program performs it ----------

  class Forwarder {
    var log: seq<int>
    var lastId: int
    var cursor: int
    var blocked: Option<Blocked>
    /** What the destination has taken; outside the program. */
    var accepted: seq<int>

    function Snapshot(): State
      reads this
    {
      State(log, lastId, cursor, blocked, accepted)
    }

    constructor ()
      ensures Snapshot() == State([], 0, 0, None, [])
    {
      log, lastId, cursor, blocked, accepted := [], 0, 0, None, [];
    }

    method LogEvent()
      modifies this`log, this`lastId
      ensures Snapshot() == Logged(old(Snapshot()))
    {
      lastId := lastId + 1;
      log := log + [lastId];
    }

    /** `_do_send`: true when it returns normally, false when an exception escapes it. */
    method DoSend(batch: seq<int>, outcome: Outcome) returns (returned: bool)
      requires batch != []
      modifies this`log, this`lastId, this`cursor, this`accepted
      ensures returned <==> !outcome.Raised?
      ensures Snapshot() == match outcome
                            case Confirmed => old(Snapshot()).(accepted := old(accepted) + batch, cursor := batch[|batch| - 1])
                            case Failed(reached) => Logged(Reached(old(Snapshot()), batch, reached))
                            case Raised(reached) => Reached(old(Snapshot()), batch, reached)
    {
      if outcome.Confirmed? || outcome.reached {
        accepted := accepted + batch;
      }
      if outcome.Raised? { return false; }
      if outcome.Failed? {
        LogEvent();
        return true;
      }
      cursor := batch[|batch| - 1];
      return true;
    }

    /** `forward_new_events`, with the audit events that `request_action` writes. */
    method ForwardNewEvents(e: Env) returns (reply: Reply)
      modifies this
      ensures reply == ReplyOf(old(Snapshot()), e)
      ensures Snapshot() == Forwarded(old(Snapshot()), e)
    {
      if !e.enabled { return Disabled; }
      if !e.senderKnown { return UnknownMode; }
      var rows := Batch(log, cursor, e.limit);
      if rows == [] { return NothingNew; }
      if blocked.Some? && StillBlocked(blocked.value, e) { return InCooldown; }
      LogEvent();  // control_plane_decision
      if e.decision != P.Allow {
        blocked := Some(Blocked(e.decision, e.mode, e.actor, e.role, e.now.Floor));
        return if e.decision == P.Deny then WasDenied else WasDryRun;
      }
      var returned := DoSend(rows, e.outcome);
      LogEvent();  // control_plane_executed or control_plane_execution_failed
      blocked := None;
      if !returned { return WasFailed; }
      return if e.outcome.Confirmed? then WasSent else NotSent;
    }
  }

  // ---------- queue accounting ----------

  ghost predicate Inv(s: State) {
    IsLog(s.log, s.lastId) && s.cursor <= s.lastId
  }

  function Backlog(s: State): nat {
    |After(s.log, s.cursor)|
  }

  lemma LoggedGrowsBacklog(s: State)
    requires Inv(s)
    ensures Inv(Logged(s)) && Backlog(Logged(s)) == Backlog(s) + 1
  {
    AppendKeepsLog(s.log, s.lastId, s.lastId + 1);
    AfterAppend(s.log, s.cursor, s.lastId + 1);
  }

  /** Moving the cursor past a batch, with the decision's audit event already logged. */
  lemma SentBatchLeaves(s: State, limit: nat)
    requires Inv(s) && Batch(s.log, s.cursor, limit) != []
    ensures var batch := Batch(s.log, s.cursor, limit);
            var u := Logged(s).(accepted := s.accepted + batch, cursor := batch[|batch| - 1]);
            Inv(u) && Backlog(u) == Backlog(s) + 1 - |batch|
  {
    var batch := Batch(s.log, s.cursor, limit);
    LoggedGrowsBacklog(s);
    AfterAppend(s.log, s.cursor, s.lastId + 1);
    BatchThenRest(Logged(s).log, s.cursor, batch);
    BatchIsAnInterval(s.log, s.cursor, limit);
    assert batch[|batch| - 1] in s.log;
  }

  lemma BatchLength(s: State, limit: nat)
    ensures |Batch(s.log, s.cursor, limit)| <= limit
    ensures Batch(s.log, s.cursor, limit) == [] <==> limit == 0 || Backlog(s) == 0
  {}

  lemma SameQueue(s: State, u: State)
    requires u.log == s.log && u.lastId == s.lastId && u.cursor == s.cursor
    ensures (Inv(u) <==> Inv(s)) && Backlog(u) == Backlog(s)
  {}

  /** Queue accounting: what one call with a non-empty backlog does to the number of events
      still to be sent, its own audit events included. */
  lemma QueueAccounting(s: State, e: Env)
    requires Inv(s) && e.enabled && e.senderKnown && e.limit > 0 && Backlog(s) > 0
    ensures Inv(Forwarded(s, e))
    ensures Backlog(Forwarded(s, e)) - Backlog(s) ==
            match ReplyOf(s, e)
            case WasDenied => 1
            case WasDryRun => 1
            case WasSent => 2 - |Batch(s.log, s.cursor, e.limit)|
            case NotSent => 3
            case WasFailed => 2
            case _ => 0
    ensures ReplyOf(s, e) == WasSent ==> 0 < |Batch(s.log, s.cursor, e.limit)| <= e.limit
  {
    hide Inv, Backlog, Batch, StillBlocked;
    var batch := Batch(s.log, s.cursor, e.limit);
    LoggedGrowsBacklog(s);
    BatchLength(s, e.limit);
    var decided, u := Logged(s), Forwarded(s, e);
    match ReplyOf(s, e)
    case WasSent =>
      SentBatchLeaves(s, e.limit);
      var moved := decided.(accepted := s.accepted + batch, cursor := batch[|batch| - 1]);
      LoggedGrowsBacklog(moved);
      SameQueue(Logged(moved), u);
    case NotSent =>
      LoggedGrowsBacklog(decided);
      LoggedGrowsBacklog(Logged(decided));
      SameQueue(Logged(Logged(decided)), u);
    case WasFailed =>
      LoggedGrowsBacklog(decided);
      SameQueue(Logged(decided), u);
    case _ => SameQueue(if IsAttempt(s, e) then decided else s, u);
  }

  /** A call that sends the whole backlog leaves exactly its two audit events. */
  lemma FeedbackNeverDrains(s: State, e: Env)
    requires Inv(s) && ReplyOf(s, e) == WasSent && Backlog(s) <= e.limit
    ensures Backlog(Forwarded(s, e)) == 2
  {
    QueueAccounting(s, e);
  }

  /** A confirmed send shrinks the queue exactly when it carries more events than the two it
      adds. */
  lemma SendShrinksQueueIff(s: State, e: Env)
    requires Inv(s) && ReplyOf(s, e) == WasSent
    ensures Backlog(Forwarded(s, e)) < Backlog(s) <==> |Batch(s.log, s.cursor, e.limit)| > 2
  {
    QueueAccounting(s, e);
  }

  /** No call, however it ends, empties a queue that holds something. */
  lemma CallNeverDrains(s: State, e: Env)
    requires Inv(s)
    ensures Inv(Forwarded(s, e)) && (Backlog(s) > 0 ==> Backlog(Forwarded(s, e)) > 0)
  {
    hide Forwarded, Backlog, Inv, After;
    if e.enabled && e.senderKnown && e.limit > 0 && Backlog(s) > 0 {
      QueueAccounting(s, e);
      BatchIsQueued(s, e);
    } else {
      IdleCall(s, e);
    }
  }

  lemma BatchIsQueued(s: State, e: Env)
    ensures |Batch(s.log, s.cursor, e.limit)| <= Backlog(s)
  {}

  lemma IdleCall(s: State, e: Env)
    requires !(e.enabled && e.senderKnown && e.limit > 0 && Backlog(s) > 0)
    ensures Forwarded(s, e) == s
  {}

  /** A call of the forwarder, or an event logged by anything else. */
  datatype Op = Forward(env: Env) | Other

  function Apply(s: State, op: Op): State {
    match op
    case Forward(e) => Forwarded(s, e)
    case Other => Logged(s)
  }

  const INIT := State([], 0, 0, None, [])

  function RunFrom(s: State, ops: seq<Op>): State {
    if ops == [] then s else Apply(RunFrom(s, ops[..|ops| - 1]), ops[|ops| - 1])
  }

  /** Over every run of calls and foreign events a queue that holds something never drains. */
  lemma {:induction false} QueueNeverDrains(s: State, ops: seq<Op>)
    requires Inv(s) && Backlog(s) > 0
    ensures Inv(RunFrom(s, ops)) && Backlog(RunFrom(s, ops)) > 0
  {
    hide Forwarded, Logged, Backlog, Inv;
    if ops != [] {
      var front, op := ops[..|ops| - 1], ops[|ops| - 1];
      QueueNeverDrains(s, front);
      match op {
        case Forward(e) => CallNeverDrains(RunFrom(s, front), e);
        case Other => LoggedGrowsBacklog(RunFrom(s, front));
      }
    }
  }

  // ---------- cooldown ----------

  predicate IsAttempt(s: State, e: Env) {
    var r := ReplyOf(s, e);
    r == WasDenied || r == WasDryRun || r == WasSent || r == NotSent || r == WasFailed
  }

  /** The instants at which a run of calls reached the control plane. */
  function Attempts(s: State, calls: seq<Env>): seq<real>
    decreases calls
  {
    if calls == [] then []
    else (if IsAttempt(s, calls[0]) then [calls[0].now] else []) + Attempts(Forwarded(s, calls[0]), calls[1..])
  }

  /** The same governance situation throughout: mode, identity, cooldown, and a refusal. */
  predicate ConstantRefusal(calls: seq<Env>, mode: string, actor: string, role: string, cooldown: int, refusal: P.Verdict) {
    forall e | e in calls ::
      e.mode == mode && e.actor == actor && e.role == role && e.cooldown == cooldown && e.decision == refusal
  }

  /** The instants, in whole seconds, are at least a cooldown apart. */
  predicate Spaced(times: seq<real>, cooldown: int) {
    forall i | 0 <= i < |times| - 1 :: times[i + 1].Floor - times[i].Floor >= cooldown
  }

  lemma {:induction false} AttemptsAreSpaced(s: State, calls: seq<Env>, mode: string, actor: string, role: string,
                                             cooldown: int, refusal: P.Verdict)
    requires cooldown > 0 && refusal != P.Allow
    requires ConstantRefusal(calls, mode, actor, role, cooldown, refusal)
    ensures Spaced(Attempts(s, calls), cooldown)
    ensures s.blocked.Some? && s.blocked.value.mode == mode && s.blocked.value.actor == actor
            && s.blocked.value.role == role && s.blocked.value.decision != P.Allow && Attempts(s, calls) != [] ==>
              Attempts(s, calls)[0].Floor - s.blocked.value.at >= cooldown
    decreases calls
  {
    if calls != [] {
      var e := calls[0];
      assert e in calls;
      var next := Forwarded(s, e);
      AttemptsAreSpaced(next, calls[1..], mode, actor, role, cooldown, refusal);
      var rest := Attempts(next, calls[1..]);
      if IsAttempt(s, e) {
        assert Attempts(s, calls) == [e.now] + rest;
        assert next.blocked == Some(Blocked(refusal, mode, actor, role, e.now.Floor));
        if s.blocked.Some? && !StillBlocked(s.blocked.value, e) && SecondsLeft(s.blocked.value, e) <= 0.0 {
          assert e.now >= (s.blocked.value.at + cooldown) as real;
        }
      } else {
        assert Attempts(s, calls) == rest;
        assert next.blocked == s.blocked;
      }
    }
  }

  lemma {:induction false} SpacedSpan(times: seq<real>, cooldown: int)
    requires times != [] && Spaced(times, cooldown)
    ensures times[|times| - 1].Floor - times[0].Floor >= (|times| - 1) * cooldown
    decreases |times|
  {
    if |times| > 1 {
      var front := times[..|times| - 1];
      SpacedSpan(front, cooldown);
      assert times[|times| - 2 + 1].Floor - times[|times| - 2].Floor >= cooldown;
      assert (|times| - 1) * cooldown == (|front| - 1) * cooldown + cooldown;
    }
  }

  /** On any clock and under a constant refusal, n audited attempts span at least (n - 1) cooldowns: a window
      of T seconds holds at most T / cooldown + 1 of them. */
  lemma CooldownBoundsAttempts(s: State, calls: seq<Env>, mode: string, actor: string, role: string,
                               cooldown: int, refusal: P.Verdict)
    requires cooldown > 0 && refusal != P.Allow
    requires ConstantRefusal(calls, mode, actor, role, cooldown, refusal)
    ensures var times := Attempts(s, calls);
            times != [] ==> |times| <= (times[|times| - 1].Floor - times[0].Floor) / cooldown + 1
  {
    AttemptsAreSpaced(s, calls, mode, actor, role, cooldown, refusal);
    var times := Attempts(s, calls);
    if times != [] {
      SpacedSpan(times, cooldown);
      DivisionBound(|times| - 1, cooldown, times[|times| - 1].Floor - times[0].Floor);
    }
  }

  lemma DivisionBound(n: nat, d: int, span: int)
    requires d > 0 && span >= n * d
    ensures n <= span / d
  {
    if span / d < n {
      MultiplyMonotone(span / d + 1, n, d);
      assert false;
    }
  }

  lemma MultiplyMonotone(a: int, b: int, d: nat)
    requires a <= b
    ensures a * d <= b * d
  {}
}
