/** The cooldown of the SIEM forwarder: exactly when a call is held back, and that every
    refusal wears off. */
module SiemCooldown {
  import opened Common
  import opened EventQueue
  import opened SiemForwarder
  import P = PolicyEngine

  /** The call is switched on, its sender is known, it may take something, and some logged
      event lies beyond the cursor. */
  predicate HasWork(s: State, e: Env) {
    e.enabled && e.senderKnown && e.limit > 0 && exists i :: 0 <= i < |s.log| && s.log[i] > s.cursor
  }

  /** Exactly when a call is held back: the stored refusal was for this mode, actor and role,
      and fewer than `cooldown` seconds have passed since. */
  lemma HeldBackIff(s: State, e: Env)
    requires HasWork(s, e)
    ensures ReplyOf(s, e) == InCooldown <==>
            && s.blocked.Some?
            && (s.blocked.value.decision == P.Deny || s.blocked.value.decision == P.DryRunOnly)
            && s.blocked.value.mode == e.mode && s.blocked.value.actor == e.actor && s.blocked.value.role == e.role
            && e.now < (s.blocked.value.at + e.cooldown) as real
  {
    NothingAfter(s.log, s.cursor);
  }

  /** The other replies: a call without work says why, and one that is not held back asks the
      control plane and reports its decision or how the delivery ended. */
  lemma OtherReplies(s: State, e: Env)
    ensures !HasWork(s, e) ==>
              && ReplyOf(s, e) == (if !e.enabled then Disabled else if !e.senderKnown then UnknownMode else NothingNew)
              && Forwarded(s, e) == s
    ensures ReplyOf(s, e) == InCooldown ==> Forwarded(s, e) == s
    ensures HasWork(s, e) && ReplyOf(s, e) != InCooldown ==>
              && (e.decision == P.Deny ==> ReplyOf(s, e) == WasDenied)
              && (e.decision == P.DryRunOnly ==> ReplyOf(s, e) == WasDryRun)
              && (e.decision == P.Allow ==>
                    ReplyOf(s, e) == (if e.outcome.Confirmed? then WasSent else if e.outcome.Failed? then NotSent else WasFailed))
  {
    NothingAfter(s.log, s.cursor);
  }

  /** A call is an attempt exactly when it has work and is not held back, and exactly when it
      leaves audit events. */
  lemma AttemptIff(s: State, e: Env)
    ensures IsAttempt(s, e) <==> HasWork(s, e) && ReplyOf(s, e) != InCooldown
    ensures IsAttempt(s, e) <==> Forwarded(s, e).lastId > s.lastId
  {
    OtherReplies(s, e);
  }

  /** The audit events of a call, by its reply. */
  function AuditEvents(r: Reply): nat {
    if r == WasDenied || r == WasDryRun then 1
    else if r == WasSent || r == WasFailed then 2
    else if r == NotSent then 3
    else 0
  }

  /** Everything a call changes: its audit events get the next ids; the destination has taken
      the batch exactly when an allowed call delivered it, confirmed or not; and the cursor
      moves, to the batch's last id, exactly on confirmation. */
  lemma CallInPlainTerms(s: State, e: Env)
    ensures var u, r, batch := Forwarded(s, e), ReplyOf(s, e), Batch(s.log, s.cursor, e.limit);
            && u.lastId == s.lastId + AuditEvents(r)
            && |u.log| == |s.log| + AuditEvents(r) && u.log[..|s.log|] == s.log
            && (forall i | |s.log| <= i < |u.log| :: u.log[i] == s.lastId + (i - |s.log|) + 1)
            && (r == WasSent ==> batch != [] && u.cursor == batch[|batch| - 1])
            && (r != WasSent ==> u.cursor == s.cursor)
            && u.accepted == s.accepted + (
                 if IsAttempt(s, e) && e.decision == P.Allow && (e.outcome.Confirmed? || e.outcome.reached) then batch else [])
  {
    hide Batch, StillBlocked;
  }

  // ---------- runs ----------

  /** The `k`-th operation of a run is a call that reached the control plane. */
  predicate AttemptAt(s: State, ops: seq<Op>, k: nat) {
    k < |ops| && ops[k].Forward? && IsAttempt(RunFrom(s, ops[..k]), ops[k].env)
  }

  predicate LastAttemptAt(s: State, ops: seq<Op>, k: nat) {
    AttemptAt(s, ops, k) && forall j: nat | k < j < |ops| :: !AttemptAt(s, ops, j)
  }

  /** The refusal on record is that of the last attempt. */
  ghost predicate IsOnRecord(s: State, ops: seq<Op>) {
    match RunFrom(s, ops).blocked
    case None => forall k: nat | LastAttemptAt(s, ops, k) :: ops[k].env.decision == P.Allow
    case Some(b) =>
      exists k: nat :: LastAttemptAt(s, ops, k) && var e := ops[k].env;
        e.decision != P.Allow && b == Blocked(e.decision, e.mode, e.actor, e.role, e.now.Floor)
  }

  lemma RecordAfterCall(s: State, e: Env)
    ensures Forwarded(s, e).blocked ==
            if !IsAttempt(s, e) then s.blocked
            else if e.decision == P.Allow then None
            else Some(Blocked(e.decision, e.mode, e.actor, e.role, e.now.Floor))
  {
    hide Batch, StillBlocked;
  }

  lemma FrontAttempts(s: State, ops: seq<Op>)
    requires ops != []
    ensures var front := ops[..|ops| - 1];
            forall k: nat | k < |front| :: AttemptAt(s, ops, k) <==> AttemptAt(s, front, k)
  {
    hide RunFrom, IsAttempt;
    var front := ops[..|ops| - 1];
    forall k: nat | k < |front| ensures AttemptAt(s, ops, k) <==> AttemptAt(s, front, k) {
      assert ops[..k] == front[..k];
    }
  }

  lemma {:induction false} RecordIsLastAttempt(s: State, ops: seq<Op>)
    requires s.blocked == None
    ensures IsOnRecord(s, ops)
  {
    hide Forwarded, IsAttempt;
    if ops != [] {
      var front, last := ops[..|ops| - 1], ops[|ops| - 1];
      RecordIsLastAttempt(s, front);
      FrontAttempts(s, ops);
      if last.Forward? { RecordAfterCall(RunFrom(s, front), last.env); }
      if AttemptAt(s, ops, |front|) {
        assert LastAttemptAt(s, ops, |front|);
      } else {
        assert forall k: nat | k < |front| :: LastAttemptAt(s, ops, k) <==> LastAttemptAt(s, front, k);
      }
    }
  }

  lemma LastAttemptIsUnique(s: State, ops: seq<Op>, j: nat, k: nat)
    requires LastAttemptAt(s, ops, j) && LastAttemptAt(s, ops, k)
    ensures j == k
  {}

  /** Told from the run alone: a call with work is held back exactly when the last attempt was
      refused under the same mode, actor and role, less than a cooldown before (from the
      whole second in which it was made). */
  lemma HeldBackByLastAttempt(ops: seq<Op>, e: Env)
    requires HasWork(RunFrom(INIT, ops), e)
    ensures ReplyOf(RunFrom(INIT, ops), e) == InCooldown <==>
            exists k: nat :: LastAttemptAt(INIT, ops, k) && var last := ops[k].env;
              && last.decision != P.Allow
              && last.mode == e.mode && last.actor == e.actor && last.role == e.role
              && e.now < (last.now.Floor + e.cooldown) as real
  {
    hide RunFrom, LastAttemptAt, ReplyOf, HasWork;
    var s := RunFrom(INIT, ops);
    RecordIsLastAttempt(INIT, ops);
    HeldBackIff(s, e);
    forall j: nat, k: nat | LastAttemptAt(INIT, ops, j) && LastAttemptAt(INIT, ops, k) ensures j == k {
      LastAttemptIsUnique(INIT, ops, j, k);
    }
  }

  /** A refusal wears off: once every earlier attempt lies at least a cooldown back, or was
      made under another mode, actor or role, or was allowed, a call with work is an attempt. */
  lemma CooldownEnds(ops: seq<Op>, e: Env)
    requires HasWork(RunFrom(INIT, ops), e)
    requires forall k: nat | AttemptAt(INIT, ops, k) ::
               var earlier := ops[k].env;
               || earlier.decision == P.Allow
               || earlier.mode != e.mode || earlier.actor != e.actor || earlier.role != e.role
               || e.now >= (earlier.now.Floor + e.cooldown) as real
    ensures IsAttempt(RunFrom(INIT, ops), e)
  {
    hide RunFrom, HasWork, ReplyOf, IsAttempt;
    HeldBackByLastAttempt(ops, e);
    AttemptIff(RunFrom(INIT, ops), e);
  }
}
