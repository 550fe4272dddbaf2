/** Table and router: a subscriber is blocked exactly when one rule carries its tag, and every
    such rule belongs to a blocked subscriber. When each step keeps that, exactly. */
module BillingAgreement {
  import R = Router
  import opened Billing
  import opened BillingCycle
  import opened BillingRuns

  function RuleCount(s: State, ip: string): nat {
    |R.Tagged(s.rules, R.Tag(ip))|
  }

  predicate SubAgrees(s: State, sub: Subscriber) {
    RuleCount(s, sub.ip) == if sub.status == BlockedForDebt then 1 else 0
  }

  /** Every subscriber is blocked when one rule carries its tag, and active when none does. */
  predicate RowsAgree(s: State) {
    forall i | 0 <= i < |s.subs| :: SubAgrees(s, s.subs[i])
  }

  /** Nobody else is behind the address of row `i`. */
  predicate AloneBehind(subs: seq<Subscriber>, i: nat)
    requires i < |subs|
  {
    forall j | 0 <= j < |subs| && j != i :: subs[j].ip != subs[i].ip
  }

  lemma BlockCounts(rules: seq<R.Rule>, id: int, ip: string, other: string)
    ensures |R.Tagged(R.AfterBlock(rules, id, ip), R.Tag(other))| ==
            if other == ip && R.Tagged(rules, R.Tag(ip)) == [] then 1 else |R.Tagged(rules, R.Tag(other))|
  {
    if R.Tagged(rules, R.Tag(ip)) == [] {
      R.TaggedAppend(rules, R.Rule(id, R.Tag(ip), ip), R.Tag(other));
      if R.Tag(other) == R.Tag(ip) { R.TagIsInjective(other, ip); }
    }
  }

  lemma UnblockCounts(rules: seq<R.Rule>, ip: string, other: string)
    ensures |R.Tagged(R.AfterUnblock(rules, ip), R.Tag(other))| == if other == ip then 0 else |R.Tagged(rules, R.Tag(other))|
  {
    R.TaggedOfUntagged(rules, R.Tag(ip), R.Tag(other));
    if R.Tag(other) == R.Tag(ip) { R.TagIsInjective(other, ip); }
  }

  // ---------- single operations ----------

  /** Exactly when a block that goes through keeps every row in agreement, whatever addresses
      are shared: the row is blocked already, or nobody else is behind its address. */
  lemma BlockAgreesIff(c: Config, s: State, i: nat, failing: set<string>)
    requires DistinctSubscriberIds(s.subs) && RowsAgree(s)
    requires i < |s.subs| && Succeeds(c, BlockOp, s.subs[i].ip, failing)
    ensures RowsAgree(AfterBlock(c, s, s.subs[i], failing)) <==> s.subs[i].status == BlockedForDebt || AloneBehind(s.subs, i)
  {
    hide R.AfterBlock, R.Tagged, Succeeds;
    var t := AfterBlock(c, s, s.subs[i], failing);
    forall j | 0 <= j < |s.subs|
      ensures SubAgrees(t, t.subs[j]) <==>
              j == i || s.subs[i].status == BlockedForDebt || s.subs[j].ip != s.subs[i].ip
    {
      BlockCounts(s.rules, s.lastRule + 1, s.subs[i].ip, s.subs[j].ip);
      assert SubAgrees(s, s.subs[i]) && SubAgrees(s, s.subs[j]);
    }
  }

  /** The same for an unblock: the row is active already, or nobody else is behind its address. */
  lemma UnblockAgreesIff(c: Config, s: State, i: nat, failing: set<string>)
    requires DistinctSubscriberIds(s.subs) && RowsAgree(s)
    requires i < |s.subs| && Succeeds(c, UnblockOp, s.subs[i].ip, failing)
    ensures RowsAgree(AfterUnblock(c, s, s.subs[i], failing)) <==> s.subs[i].status == Active || AloneBehind(s.subs, i)
  {
    hide R.AfterUnblock, R.Tagged, Succeeds;
    var t := AfterUnblock(c, s, s.subs[i], failing);
    forall j | 0 <= j < |s.subs|
      ensures SubAgrees(t, t.subs[j]) <==> j == i || s.subs[i].status == Active || s.subs[j].ip != s.subs[i].ip
    {
      UnblockCounts(s.rules, s.subs[i].ip, s.subs[j].ip);
      assert SubAgrees(s, s.subs[i]) && SubAgrees(s, s.subs[j]);
    }
  }

  /** The registered row: its position, its address, and the status it keeps. */
  lemma RegisteredRow(subs: seq<Subscriber>, id: string, ip: string, overdue: bool, days: int) returns (k: nat)
    requires DistinctSubscriberIds(subs)
    ensures var after := Registered(subs, id, ip, overdue, days);
            && k < |after| && after[k].id == id && after[k].ip == ip && |subs| <= |after|
            && (after[k].status == BlockedForDebt <==> IsBlocked(subs, id))
            && (forall i | 0 <= i < |after| && i != k :: i < |subs| && after[i] == subs[i] && subs[i].id != id)
            && (k < |subs| ==> subs[k].id == id && subs[k].status == after[k].status)
  {
    if HasId(subs, id) {
      k :| 0 <= k < |subs| && subs[k].id == id;
    } else {
      k := |subs|;
    }
  }

  /** Exactly when a registration keeps every row in agreement: the router's rules for the
      address are those of the status the subscriber keeps. A blocked subscriber registered
      under an address without a rule breaks it. */
  lemma RegistrationAgreesIff(s: State, id: string, ip: string, overdue: bool, days: int)
    requires DistinctSubscriberIds(s.subs) && RowsAgree(s)
    ensures RowsAgree(s.(subs := Registered(s.subs, id, ip, overdue, days))) <==>
            RuleCount(s, ip) == if IsBlocked(s.subs, id) then 1 else 0
    ensures DistinctSubscriberIds(Registered(s.subs, id, ip, overdue, days))
  {
    hide Registered, R.Tagged;
    var after := Registered(s.subs, id, ip, overdue, days);
    var t := s.(subs := after);
    var k := RegisteredRow(s.subs, id, ip, overdue, days);
    assert SubAgrees(t, after[k]) <==> RuleCount(s, ip) == if IsBlocked(s.subs, id) then 1 else 0;
    forall i | 0 <= i < |after| && i != k ensures SubAgrees(t, after[i]) { assert SubAgrees(s, s.subs[i]); }
  }

  lemma {:induction false} RemovedRows(subs: seq<Subscriber>, id: string)
    requires DistinctSubscriberIds(subs)
    ensures DistinctSubscriberIds(Removed(subs, id))
    ensures forall x :: x in Removed(subs, id) <==> x in subs && x.id != id
  {
    if subs != [] {
      var front, last := subs[..|subs| - 1], subs[|subs| - 1];
      RemovedRows(front, id);
      var rest := Removed(front, id);
      forall i | 0 <= i < |rest| ensures rest[i].id != last.id { assert rest[i] in front; }
      assert forall x :: x in subs <==> x in front || x == last;
    }
  }

  lemma RemovalAgrees(s: State, id: string)
    requires DistinctSubscriberIds(s.subs) && RowsAgree(s)
    ensures RowsAgree(s.(subs := Removed(s.subs, id)))
  {
    hide Removed, R.Tagged;
    RemovedRows(s.subs, id);
    var t := s.(subs := Removed(s.subs, id));
    forall i | 0 <= i < |t.subs| ensures SubAgrees(t, t.subs[i]) {
      assert t.subs[i] in t.subs;
      var j :| 0 <= j < |s.subs| && s.subs[j] == t.subs[i];
      assert SubAgrees(s, s.subs[j]);
    }
  }

  /** So moving a blocked subscriber to an address without a rule always breaks it. */
  lemma MovingABlockedSubscriber(s: State, i: nat, ip: string)
    requires DistinctSubscriberIds(s.subs) && RowsAgree(s)
    requires i < |s.subs| && s.subs[i].status == BlockedForDebt && RuleCount(s, ip) == 0
    ensures !RowsAgree(s.(subs := Registered(s.subs, s.subs[i].id, ip, s.subs[i].overdue, s.subs[i].daysOverdue)))
  {
    RegistrationAgreesIff(s, s.subs[i].id, ip, s.subs[i].overdue, s.subs[i].daysOverdue);
  }

  /** Two active subscribers behind one address disagree with the router as soon as one of
      them is blocked. */
  lemma SharedAddressBreaksAgreement(c: Config, s: State, i: nat, j: nat, failing: set<string>)
    requires i < |s.subs| && j < |s.subs| && s.subs[i].id != s.subs[j].id && s.subs[i].ip == s.subs[j].ip
    requires s.subs[i].status == s.subs[j].status == Active && Succeeds(c, BlockOp, s.subs[i].ip, failing)
    requires RuleCount(s, s.subs[j].ip) == 0
    ensures var t := AfterBlock(c, s, s.subs[i], failing); !SubAgrees(t, t.subs[j])
  {
    BlockCounts(s.rules, s.lastRule + 1, s.subs[i].ip, s.subs[j].ip);
  }

  // ---------- cycles ----------

  predicate HasTarget(targets: seq<Subscriber>, ip: string) {
    exists x :: x in targets && x.ip == ip
  }

  lemma HasTargetAppend(front: seq<Subscriber>, last: Subscriber, ip: string)
    ensures HasTarget(front + [last], ip) <==> HasTarget(front, ip) || last.ip == ip
  {
    assert forall x :: x in front + [last] <==> x in front || x == last;
    assert last in front + [last];
  }

  lemma {:induction false} BlockEachCounts(c: Config, s: State, targets: seq<Subscriber>, failing: set<string>, ip: string)
    ensures RuleCount(BlockEach(c, s, targets, failing), ip) ==
            if RuleCount(s, ip) == 0 && HasTarget(targets, ip) && Succeeds(c, BlockOp, ip, failing) then 1
            else RuleCount(s, ip)
  {
    hide R.AfterBlock, R.Tagged, Succeeds, HasTarget;
    if targets == [] {
      NoTarget(ip);
    } else {
      var front, last := targets[..|targets| - 1], targets[|targets| - 1];
      assert targets == front + [last];
      BlockEachCounts(c, s, front, failing, ip);
      HasTargetAppend(front, last, ip);
      var u := BlockEach(c, s, front, failing);
      BlockCounts(u.rules, u.lastRule + 1, last.ip, ip);
    }
  }

  lemma {:induction false} UnblockEachCounts(c: Config, s: State, targets: seq<Subscriber>, failing: set<string>, ip: string)
    ensures RuleCount(UnblockEach(c, s, targets, failing), ip) ==
            if HasTarget(targets, ip) && Succeeds(c, UnblockOp, ip, failing) then 0 else RuleCount(s, ip)
  {
    hide R.AfterUnblock, R.Tagged, Succeeds, HasTarget;
    if targets == [] {
      NoTarget(ip);
    } else {
      var front, last := targets[..|targets| - 1], targets[|targets| - 1];
      assert targets == front + [last];
      UnblockEachCounts(c, s, front, failing, ip);
      HasTargetAppend(front, last, ip);
      UnblockCounts(UnblockEach(c, s, front, failing).rules, last.ip, ip);
    }
  }

  lemma NoTarget(ip: string)
    ensures !HasTarget([], ip)
  {}

  /** Subscribers behind one address are overdue together and paid up together, as far as the
      operations on that address go through. */
  predicate CycleFits(c: Config, subs: seq<Subscriber>, minDays: int, failing: set<string>) {
    forall i, j | 0 <= i < |subs| && 0 <= j < |subs| && subs[i].ip == subs[j].ip ::
      && (Succeeds(c, BlockOp, subs[i].ip, failing) && IsDelinquent(subs[j], minDays) ==> IsDelinquent(subs[i], minDays))
      && (Succeeds(c, UnblockOp, subs[i].ip, failing) && IsReactivatable(subs[j]) ==> IsReactivatable(subs[i]))
  }

  predicate Runs(subs: seq<Subscriber>, minDays: int, maxBatch: int, dryRun: bool) {
    |Delinquent(subs, minDays)| <= maxBatch && !dryRun
  }

  /** What a cycle leaves on the router for an address whose subscribers agree. */
  lemma CycleCounts(c: Config, s: State, minDays: int, maxBatch: int, dryRun: bool, failing: set<string>, i: nat)
    requires RowsAgree(s) && i < |s.subs| && Runs(s.subs, minDays, maxBatch, dryRun)
    ensures var t, ip := AfterCycle(c, s, minDays, maxBatch, dryRun, failing), s.subs[i].ip;
            RuleCount(t, ip) ==
            if s.subs[i].status == Active then
              (if HasTarget(Delinquent(s.subs, minDays), ip) && Succeeds(c, BlockOp, ip, failing) then 1 else 0)
            else
              (if HasTarget(Reactivatable(s.subs), ip) && Succeeds(c, UnblockOp, ip, failing) then 0 else 1)
    ensures s.subs[i].status == Active ==> !HasTarget(Reactivatable(s.subs), s.subs[i].ip)
    ensures s.subs[i].status == BlockedForDebt ==> !HasTarget(Delinquent(s.subs, minDays), s.subs[i].ip)
  {
    hide R.Tagged, Succeeds, BlockEach, UnblockEach;
    var ip := s.subs[i].ip;
    BlockEachCounts(c, s, Delinquent(s.subs, minDays), failing, ip);
    UnblockEachCounts(c, BlockEach(c, s, Delinquent(s.subs, minDays), failing), Reactivatable(s.subs), failing, ip);
    QueryMembers(s.subs, minDays);
    assert SubAgrees(s, s.subs[i]);
    forall x | x in s.subs && x.ip == ip ensures x.status == s.subs[i].status {
      var j :| 0 <= j < |s.subs| && s.subs[j] == x;
      assert SubAgrees(s, s.subs[j]);
    }
  }

  lemma TargetsAreRows(subs: seq<Subscriber>, minDays: int, ip: string)
    ensures HasTarget(Delinquent(subs, minDays), ip) <==>
            exists j :: 0 <= j < |subs| && subs[j].ip == ip && IsDelinquent(subs[j], minDays)
    ensures HasTarget(Reactivatable(subs), ip) <==>
            exists j :: 0 <= j < |subs| && subs[j].ip == ip && IsReactivatable(subs[j])
  {
    QueryMembers(subs, minDays);
    if j :| 0 <= j < |subs| && subs[j].ip == ip && IsDelinquent(subs[j], minDays) { assert subs[j] in subs; }
    if j :| 0 <= j < |subs| && subs[j].ip == ip && IsReactivatable(subs[j]) { assert subs[j] in subs; }
  }

  /** One row after a cycle. */
  lemma CycleRowAgreesIff(c: Config, s: State, minDays: int, maxBatch: int, dryRun: bool, failing: set<string>, i: nat)
    requires DistinctSubscriberIds(s.subs) && RowsAgree(s) && i < |s.subs| && Runs(s.subs, minDays, maxBatch, dryRun)
    ensures var t, ip := AfterCycle(c, s, minDays, maxBatch, dryRun, failing), s.subs[i].ip;
            && |t.subs| == |s.subs|
            && (SubAgrees(t, t.subs[i]) <==>
                  forall j | 0 <= j < |s.subs| && s.subs[j].ip == ip ::
                    && (Succeeds(c, BlockOp, ip, failing) && IsDelinquent(s.subs[j], minDays) ==>
                          IsDelinquent(s.subs[i], minDays))
                    && (Succeeds(c, UnblockOp, ip, failing) && IsReactivatable(s.subs[j]) ==> IsReactivatable(s.subs[i])))
  {
    hide RuleCount, Succeeds, AfterCycle, Delinquent, Reactivatable, RowsAgree, HasTarget, DistinctSubscriberIds;
    CycleEffect(c, s, minDays, maxBatch, dryRun, failing, i);
    CycleCounts(c, s, minDays, maxBatch, dryRun, failing, i);
    TargetsAreRows(s.subs, minDays, s.subs[i].ip);
  }

  /** Exactly when a cycle keeps every row in agreement, whatever addresses are shared. */
  lemma CycleAgreesIff(c: Config, s: State, minDays: int, maxBatch: int, dryRun: bool, failing: set<string>)
    requires DistinctSubscriberIds(s.subs) && RowsAgree(s)
    ensures var t := AfterCycle(c, s, minDays, maxBatch, dryRun, failing);
            && (RowsAgree(t) <==> Runs(s.subs, minDays, maxBatch, dryRun) ==> CycleFits(c, s.subs, minDays, failing))
            && DistinctSubscriberIds(t.subs)
            && |t.subs| == |s.subs| && forall i | 0 <= i < |s.subs| :: t.subs[i].ip == s.subs[i].ip
  {
    hide SubAgrees, Succeeds, AfterCycle, Delinquent, Reactivatable, IsDelinquent, IsReactivatable;
    var t := AfterCycle(c, s, minDays, maxBatch, dryRun, failing);
    forall i | 0 <= i < |s.subs| ensures |t.subs| == |s.subs| && t.subs[i].id == s.subs[i].id && t.subs[i].ip == s.subs[i].ip {
      CycleEffect(c, s, minDays, maxBatch, dryRun, failing, i);
    }
    if Runs(s.subs, minDays, maxBatch, dryRun) {
      forall i | 0 <= i < |s.subs|
        ensures SubAgrees(t, t.subs[i]) <==>
                forall j | 0 <= j < |s.subs| && s.subs[j].ip == s.subs[i].ip ::
                  && (Succeeds(c, BlockOp, s.subs[i].ip, failing) && IsDelinquent(s.subs[j], minDays) ==>
                        IsDelinquent(s.subs[i], minDays))
                  && (Succeeds(c, UnblockOp, s.subs[i].ip, failing) && IsReactivatable(s.subs[j]) ==>
                        IsReactivatable(s.subs[i]))
      {
        CycleRowAgreesIff(c, s, minDays, maxBatch, dryRun, failing, i);
      }
    } else {
      CycleDoesNothing(c, s, minDays, maxBatch, dryRun, failing);
    }
  }

  lemma CycleDoesNothing(c: Config, s: State, minDays: int, maxBatch: int, dryRun: bool, failing: set<string>)
    requires !Runs(s.subs, minDays, maxBatch, dryRun)
    ensures AfterCycle(c, s, minDays, maxBatch, dryRun, failing) == s
  {}

  // ---------- runs ----------

  /** What can be looked up before a step. */
  predicate StepFits(s: State, e: Event) {
    match e.step
    case BlockRow(i) =>
      i < |s.subs| && s.subs[i].status == Active && Succeeds(e.config, BlockOp, s.subs[i].ip, e.failing) ==>
        AloneBehind(s.subs, i)
    case UnblockRow(i) =>
      i < |s.subs| && s.subs[i].status == BlockedForDebt && Succeeds(e.config, UnblockOp, s.subs[i].ip, e.failing) ==>
        AloneBehind(s.subs, i)
    case SetInvoice(_, _, _) => true
    case Register(id, ip, _, _) => RuleCount(s, ip) == if IsBlocked(s.subs, id) then 1 else 0
    case Remove(_) => true
    case Cycle(minDays, maxBatch, dryRun) =>
      Runs(s.subs, minDays, maxBatch, dryRun) ==> CycleFits(e.config, s.subs, minDays, e.failing)
  }

  lemma InvoiceAgrees(s: State, i: nat, overdue: bool, days: int)
    requires RowsAgree(s) && i < |s.subs|
    ensures RowsAgree(s.(subs := s.subs[i := s.subs[i].(overdue := overdue, daysOverdue := days)]))
  {
    hide R.Tagged;
    var t := s.(subs := s.subs[i := s.subs[i].(overdue := overdue, daysOverdue := days)]);
    forall j | 0 <= j < |t.subs| ensures SubAgrees(t, t.subs[j]) { assert SubAgrees(s, s.subs[j]); }
  }

  lemma StepAgreesIff(s: State, e: Event)
    requires DistinctSubscriberIds(s.subs) && RowsAgree(s)
    ensures RowsAgree(Happens(s, e)) <==> StepFits(s, e)
    ensures DistinctSubscriberIds(Happens(s, e).subs)
  {
    hide RowsAgree, AfterCycle, Registered, Removed, RuleCount, Succeeds, AloneBehind, Runs, CycleFits;
    match e.step
    case BlockRow(i) =>
      if i < |s.subs| && Succeeds(e.config, BlockOp, s.subs[i].ip, e.failing) { BlockAgreesIff(e.config, s, i, e.failing); }
    case UnblockRow(i) =>
      if i < |s.subs| && Succeeds(e.config, UnblockOp, s.subs[i].ip, e.failing) { UnblockAgreesIff(e.config, s, i, e.failing); }
    case SetInvoice(i, overdue, days) => if i < |s.subs| { InvoiceAgrees(s, i, overdue, days); }
    case Register(id, ip, overdue, days) => RegistrationAgreesIff(s, id, ip, overdue, days);
    case Remove(id) => RemovedRows(s.subs, id); RemovalAgrees(s, id);
    case Cycle(minDays, maxBatch, dryRun) => CycleAgreesIff(e.config, s, minDays, maxBatch, dryRun, e.failing);
  }

  ghost predicate RowsAgreeThroughout(s: State, events: seq<Event>)
    decreases events
  {
    RowsAgree(s) && (events == [] || RowsAgreeThroughout(Happens(s, events[0]), events[1..]))
  }

  ghost predicate StepsFit(s: State, events: seq<Event>)
    decreases events
  {
    events == [] || (StepFits(s, events[0]) && StepsFit(Happens(s, events[0]), events[1..]))
  }

  /** Throughout a run of manual operations, invoice changes, registrations, removals and
      cycles, whatever the policy decides and whichever router calls fail, a subscriber is
      blocked exactly when one rule carries its tag, if and only if every step fits. */
  lemma {:induction false} TableAndRouterAgree(s: State, events: seq<Event>)
    requires DistinctSubscriberIds(s.subs) && RowsAgree(s)
    ensures RowsAgreeThroughout(s, events) <==> StepsFit(s, events)
    ensures StepsFit(s, events) ==> RowsAgree(Run(s, events))
    decreases events
  {
    hide Happens, RowsAgree, StepFits, DistinctSubscriberIds;
    if events != [] {
      var next := Happens(s, events[0]);
      StepAgreesIff(s, events[0]);
      if RowsAgree(next) { TableAndRouterAgree(next, events[1..]); }
    }
  }

  // ---------- distinct addresses ----------

  predicate DistinctAddresses(subs: seq<Subscriber>) {
    forall i, j | 0 <= i < j < |subs| :: subs[i].ip != subs[j].ip
  }

  /** Where nobody shares an address, every step but a registration fits. */
  lemma DistinctAddressesFit(s: State, e: Event)
    requires DistinctAddresses(s.subs) && !e.step.Register?
    ensures StepFits(s, e)
  {
    hide RuleCount, Succeeds, Delinquent;
    if e.step.Cycle? {
      forall i, j | 0 <= i < |s.subs| && 0 <= j < |s.subs| && s.subs[i].ip == s.subs[j].ip ensures i == j {}
    }
  }

  ghost predicate AddressesStayDistinct(s: State, events: seq<Event>)
    decreases events
  {
    DistinctAddresses(s.subs) && (events == [] || AddressesStayDistinct(Happens(s, events[0]), events[1..]))
  }

  ghost predicate RegistrationsFit(s: State, events: seq<Event>)
    decreases events
  {
    events == [] || ((events[0].step.Register? ==> StepFits(s, events[0])) && RegistrationsFit(Happens(s, events[0]), events[1..]))
  }

  /** As long as nobody shares an address, only registrations can break the agreement: the
      registered address must have the rules of the status the subscriber keeps. */
  lemma {:induction false} OnlyRegistrationsMatter(s: State, events: seq<Event>)
    requires AddressesStayDistinct(s, events)
    ensures StepsFit(s, events) <==> RegistrationsFit(s, events)
    decreases events
  {
    hide Happens, DistinctAddresses, StepFits;
    if events != [] {
      if !events[0].step.Register? { DistinctAddressesFit(s, events[0]); }
      OnlyRegistrationsMatter(Happens(s, events[0]), events[1..]);
    }
  }

  lemma StepKeepsAddresses(s: State, e: Event)
    requires DistinctSubscriberIds(s.subs) && RowsAgree(s) && DistinctAddresses(s.subs) && !e.step.Register?
    ensures DistinctAddresses(Happens(s, e).subs)
  {
    hide RowsAgree, AfterCycle, Removed, Succeeds;
    match e.step
    case Cycle(minDays, maxBatch, dryRun) => CycleAgreesIff(e.config, s, minDays, maxBatch, dryRun, e.failing);
    case Remove(id) => RemovalKeepsAddresses(s.subs, id);
    case _ =>
  }

  lemma {:induction false} RemovalKeepsAddresses(subs: seq<Subscriber>, id: string)
    requires DistinctAddresses(subs)
    ensures DistinctAddresses(Removed(subs, id)) && forall x | x in Removed(subs, id) :: x in subs
  {
    if subs != [] {
      var front, last := subs[..|subs| - 1], subs[|subs| - 1];
      RemovalKeepsAddresses(front, id);
      var rest := Removed(front, id);
      forall i | 0 <= i < |rest| ensures rest[i].ip != last.ip { assert rest[i] in front; }
    }
  }

  /** From distinct addresses on, table and router agree over every run without registrations. */
  lemma {:induction false} DistinctAddressesAgree(s: State, events: seq<Event>)
    requires DistinctSubscriberIds(s.subs) && DistinctAddresses(s.subs) && RowsAgree(s)
    requires forall k | 0 <= k < |events| :: !events[k].step.Register?
    ensures RowsAgreeThroughout(s, events) && RowsAgree(Run(s, events))
    decreases events
  {
    hide Happens, RowsAgree, StepFits, DistinctSubscriberIds, DistinctAddresses;
    if events != [] {
      DistinctAddressesFit(s, events[0]);
      StepAgreesIff(s, events[0]);
      StepKeepsAddresses(s, events[0]);
      forall k | 0 <= k < |events[1..]| ensures !events[1..][k].step.Register? { assert events[1..][k] == events[k + 1]; }
      DistinctAddressesAgree(Happens(s, events[0]), events[1..]);
    }
  }

  // ---------- no orphaned rules ----------

  predicate HasBlockedRow(subs: seq<Subscriber>, ip: string) {
    exists i :: 0 <= i < |subs| && subs[i].ip == ip && subs[i].status == BlockedForDebt
  }

  /** The converse of agreement: every tagged rule belongs to a blocked subscriber. */
  ghost predicate NoOrphans(s: State) {
    forall ip: string :: RuleCount(s, ip) > 0 ==> HasBlockedRow(s.subs, ip)
  }

  lemma BlockLeavesNoOrphan(c: Config, s: State, sub: Subscriber, failing: set<string>)
    requires NoOrphans(s) && exists i :: 0 <= i < |s.subs| && s.subs[i].id == sub.id && s.subs[i].ip == sub.ip
    ensures NoOrphans(AfterBlock(c, s, sub, failing))
  {
    hide R.AfterBlock, R.Tagged, Succeeds;
    var t := AfterBlock(c, s, sub, failing);
    if Succeeds(c, BlockOp, sub.ip, failing) {
      forall ip: string | RuleCount(t, ip) > 0 ensures HasBlockedRow(t.subs, ip) {
        BlockCounts(s.rules, s.lastRule + 1, sub.ip, ip);
        if ip == sub.ip {
          var i :| 0 <= i < |s.subs| && s.subs[i].id == sub.id && s.subs[i].ip == sub.ip;
          assert t.subs[i].ip == ip && t.subs[i].status == BlockedForDebt;
        } else {
          assert RuleCount(s, ip) > 0 && HasBlockedRow(s.subs, ip);
          var i :| 0 <= i < |s.subs| && s.subs[i].ip == ip && s.subs[i].status == BlockedForDebt;
          assert t.subs[i].ip == ip && t.subs[i].status == BlockedForDebt;
        }
      }
    }
  }

  lemma UnblockLeavesNoOrphan(c: Config, s: State, sub: Subscriber, failing: set<string>)
    requires NoOrphans(s) && DistinctSubscriberIds(s.subs)
    requires exists i :: 0 <= i < |s.subs| && s.subs[i].id == sub.id && s.subs[i].ip == sub.ip
    ensures NoOrphans(AfterUnblock(c, s, sub, failing))
  {
    hide R.AfterUnblock, R.Tagged, Succeeds;
    var t := AfterUnblock(c, s, sub, failing);
    if Succeeds(c, UnblockOp, sub.ip, failing) {
      forall ip: string | RuleCount(t, ip) > 0 ensures HasBlockedRow(t.subs, ip) {
        UnblockCounts(s.rules, sub.ip, ip);
        assert RuleCount(s, ip) > 0 && HasBlockedRow(s.subs, ip);
        var i :| 0 <= i < |s.subs| && s.subs[i].ip == ip && s.subs[i].status == BlockedForDebt;
        assert s.subs[i].id != sub.id;
        assert t.subs[i] == s.subs[i];
      }
    }
  }

  /** A list of rows of the table, up to statuses. */
  predicate AreRows(subs: seq<Subscriber>, targets: seq<Subscriber>) {
    forall x | x in targets :: exists i :: 0 <= i < |subs| && subs[i].id == x.id && subs[i].ip == x.ip
  }

  predicate SameRows(subs: seq<Subscriber>, after: seq<Subscriber>) {
    |subs| == |after| && forall i | 0 <= i < |subs| :: after[i].id == subs[i].id && after[i].ip == subs[i].ip
  }

  lemma SameRowsKeepIds(subs: seq<Subscriber>, after: seq<Subscriber>)
    requires DistinctSubscriberIds(subs) && SameRows(subs, after)
    ensures DistinctSubscriberIds(after)
  {}

  lemma {:induction false} EachLeavesNoOrphan(c: Config, s: State, targets: seq<Subscriber>, failing: set<string>)
    requires NoOrphans(s) && DistinctSubscriberIds(s.subs) && AreRows(s.subs, targets)
    ensures NoOrphans(BlockEach(c, s, targets, failing)) && SameRows(s.subs, BlockEach(c, s, targets, failing).subs)
    ensures NoOrphans(UnblockEach(c, s, targets, failing)) && SameRows(s.subs, UnblockEach(c, s, targets, failing).subs)
  {
    hide NoOrphans, AfterBlock, AfterUnblock, AreRows, DistinctSubscriberIds;
    if targets != [] {
      var front, last := targets[..|targets| - 1], targets[|targets| - 1];
      var i := LastIsRow(s.subs, targets);
      EachLeavesNoOrphan(c, s, front, failing);
      var b, u := BlockEach(c, s, front, failing), UnblockEach(c, s, front, failing);
      SameRowsKeepIds(s.subs, u.subs);
      assert b.subs[i].id == last.id && b.subs[i].ip == last.ip && u.subs[i].id == last.id && u.subs[i].ip == last.ip;
      BlockLeavesNoOrphan(c, b, last, failing);
      UnblockLeavesNoOrphan(c, u, last, failing);
      OperationKeepsRows(c, b, last, failing);
      OperationKeepsRows(c, u, last, failing);
    }
  }

  lemma LastIsRow(subs: seq<Subscriber>, targets: seq<Subscriber>) returns (i: nat)
    requires AreRows(subs, targets) && targets != []
    ensures AreRows(subs, targets[..|targets| - 1])
    ensures var last := targets[|targets| - 1]; i < |subs| && subs[i].id == last.id && subs[i].ip == last.ip
  {
    var last := targets[|targets| - 1];
    assert last in targets;
    i :| 0 <= i < |subs| && subs[i].id == last.id && subs[i].ip == last.ip;
  }

  lemma OperationKeepsRows(c: Config, s: State, sub: Subscriber, failing: set<string>)
    ensures SameRows(s.subs, AfterBlock(c, s, sub, failing).subs) && SameRows(s.subs, AfterUnblock(c, s, sub, failing).subs)
  {
    hide Succeeds;
  }

  lemma CycleLeavesNoOrphan(c: Config, s: State, minDays: int, maxBatch: int, dryRun: bool, failing: set<string>)
    requires NoOrphans(s) && DistinctSubscriberIds(s.subs)
    ensures NoOrphans(AfterCycle(c, s, minDays, maxBatch, dryRun, failing))
  {
    hide NoOrphans, BlockEach, UnblockEach, Delinquent, Reactivatable;
    QueryMembers(s.subs, minDays);
    var middle := BlockEach(c, s, Delinquent(s.subs, minDays), failing);
    EachLeavesNoOrphan(c, s, Delinquent(s.subs, minDays), failing);
    SameRowsKeepIds(s.subs, middle.subs);
    assert AreRows(middle.subs, Reactivatable(s.subs)) by {
      forall x | x in Reactivatable(s.subs) ensures exists i :: 0 <= i < |middle.subs| && middle.subs[i].id == x.id && middle.subs[i].ip == x.ip {
        var i :| 0 <= i < |s.subs| && s.subs[i] == x;
        assert middle.subs[i].id == x.id;
      }
    }
    EachLeavesNoOrphan(c, middle, Reactivatable(s.subs), failing);
  }

  /** Taking subscriber `id` off its address, unless that is `kept`, leaves no rule behind. */
  predicate LeavesNoRule(subs: seq<Subscriber>, id: string, kept: seq<string>) {
    forall i | 0 <= i < |subs| && subs[i].id == id && subs[i].status == BlockedForDebt ::
      subs[i].ip in kept || !AloneBehind(subs, i)
  }

  /** Where all rows agree, whoever shares a blocked subscriber's address is blocked too. */
  lemma SharersAreBlocked(s: State, i: nat, j: nat)
    requires RowsAgree(s) && i < |s.subs| && j < |s.subs| && s.subs[i].ip == s.subs[j].ip
    ensures s.subs[i].status == s.subs[j].status
    ensures RuleCount(s, s.subs[i].ip) > 0 <==> s.subs[i].status == BlockedForDebt
  {
    assert SubAgrees(s, s.subs[i]) && SubAgrees(s, s.subs[j]);
  }

  /** Exactly when a removal leaves no orphaned rule: the subscriber is not blocked, or not
      alone behind its address. */
  lemma RemovalOrphansIff(s: State, id: string)
    requires DistinctSubscriberIds(s.subs) && RowsAgree(s) && NoOrphans(s)
    ensures NoOrphans(s.(subs := Removed(s.subs, id))) <==> LeavesNoRule(s.subs, id, [])
  {
    hide Removed, RuleCount, RowsAgree;
    var t := s.(subs := Removed(s.subs, id));
    RemovedRows(s.subs, id);
    forall ip: string ensures RuleCount(t, ip) == RuleCount(s, ip) { SameRules(s, t, ip); }
    if LeavesNoRule(s.subs, id, []) {
      forall ip: string | RuleCount(t, ip) > 0 ensures HasBlockedRow(t.subs, ip) {
        var i :| 0 <= i < |s.subs| && s.subs[i].ip == ip && s.subs[i].status == BlockedForDebt;
        var j := i;
        if s.subs[i].id == id {
          j :| 0 <= j < |s.subs| && j != i && s.subs[j].ip == ip;
          SharersAreBlocked(s, i, j);
        }
        assert s.subs[j] in s.subs && s.subs[j] in t.subs;
      }
    }
    if NoOrphans(t) {
      forall i | 0 <= i < |s.subs| && s.subs[i].id == id && s.subs[i].status == BlockedForDebt ensures !AloneBehind(s.subs, i) {
        SharersAreBlocked(s, i, i);
        assert HasBlockedRow(t.subs, s.subs[i].ip);
        var k :| 0 <= k < |t.subs| && t.subs[k].ip == s.subs[i].ip;
        assert t.subs[k] in t.subs;
        var j :| 0 <= j < |s.subs| && s.subs[j] == t.subs[k];
        assert j != i;
      }
    }
  }

  lemma SameRules(s: State, t: State, ip: string)
    requires s.rules == t.rules
    ensures RuleCount(s, ip) == RuleCount(t, ip)
  {}

  /** Exactly when a registration leaves no orphaned rule: the subscriber is not blocked, does
      not move, or is not alone behind its old address. */
  lemma RegistrationOrphansIff(s: State, id: string, ip: string, overdue: bool, days: int)
    requires DistinctSubscriberIds(s.subs) && RowsAgree(s) && NoOrphans(s)
    ensures NoOrphans(s.(subs := Registered(s.subs, id, ip, overdue, days))) <==> LeavesNoRule(s.subs, id, [ip])
  {
    hide Registered, RuleCount, RowsAgree;
    var after := Registered(s.subs, id, ip, overdue, days);
    var t := s.(subs := after);
    var k := RegisteredRow(s.subs, id, ip, overdue, days);
    forall x: string ensures RuleCount(t, x) == RuleCount(s, x) { SameRules(s, t, x); }
    if LeavesNoRule(s.subs, id, [ip]) {
      forall x: string | RuleCount(t, x) > 0 ensures HasBlockedRow(after, x) {
        var i :| 0 <= i < |s.subs| && s.subs[i].ip == x && s.subs[i].status == BlockedForDebt;
        var j := i;
        if i == k && x != ip {
          j :| 0 <= j < |s.subs| && j != i && s.subs[j].ip == x;
          SharersAreBlocked(s, i, j);
        }
        assert after[j].ip == x && after[j].status == BlockedForDebt;
      }
    }
    if NoOrphans(t) {
      forall i | 0 <= i < |s.subs| && s.subs[i].id == id && s.subs[i].status == BlockedForDebt && s.subs[i].ip != ip
        ensures !AloneBehind(s.subs, i)
      {
        SharersAreBlocked(s, i, i);
        assert HasBlockedRow(after, s.subs[i].ip);
        var j :| 0 <= j < |after| && after[j].ip == s.subs[i].ip && after[j].status == BlockedForDebt;
        assert j != k && i == k;
      }
    }
  }

  /** What can be looked up before a step that takes a subscriber off its address. */
  predicate StepLeavesNoRule(s: State, step: Step) {
    match step
    case Remove(id) => LeavesNoRule(s.subs, id, [])
    case Register(id, ip, _, _) => LeavesNoRule(s.subs, id, [ip])
    case _ => true
  }

  lemma StepOrphansIff(s: State, e: Event)
    requires DistinctSubscriberIds(s.subs) && RowsAgree(s) && NoOrphans(s)
    ensures NoOrphans(Happens(s, e)) <==> StepLeavesNoRule(s, e.step)
  {
    hide RowsAgree, AfterCycle, AfterBlock, AfterUnblock, Registered, Removed, RuleCount, LeavesNoRule, HasBlockedRow;
    match e.step
    case BlockRow(i) => if i < |s.subs| { BlockLeavesNoOrphan(e.config, s, s.subs[i], e.failing); }
    case UnblockRow(i) => if i < |s.subs| { UnblockLeavesNoOrphan(e.config, s, s.subs[i], e.failing); }
    case SetInvoice(i, overdue, days) => if i < |s.subs| { InvoiceLeavesNoOrphan(s, i, overdue, days); }
    case Register(id, ip, overdue, days) => RegistrationOrphansIff(s, id, ip, overdue, days);
    case Remove(id) => RemovalOrphansIff(s, id);
    case Cycle(minDays, maxBatch, dryRun) => CycleLeavesNoOrphan(e.config, s, minDays, maxBatch, dryRun, e.failing);
  }

  lemma InvoiceLeavesNoOrphan(s: State, i: nat, overdue: bool, days: int)
    requires NoOrphans(s) && i < |s.subs|
    ensures NoOrphans(s.(subs := s.subs[i := s.subs[i].(overdue := overdue, daysOverdue := days)]))
  {
    hide RuleCount;
    var t := s.(subs := s.subs[i := s.subs[i].(overdue := overdue, daysOverdue := days)]);
    forall ip: string | RuleCount(t, ip) > 0 ensures HasBlockedRow(t.subs, ip) {
      SameRules(s, t, ip);
      var j :| 0 <= j < |s.subs| && s.subs[j].ip == ip && s.subs[j].status == BlockedForDebt;
      assert t.subs[j].ip == ip && t.subs[j].status == BlockedForDebt;
    }
  }

  ghost predicate InStepThroughout(s: State, events: seq<Event>)
    decreases events
  {
    RowsAgree(s) && NoOrphans(s) && (events == [] || InStepThroughout(Happens(s, events[0]), events[1..]))
  }

  ghost predicate StepsFitBothWays(s: State, events: seq<Event>)
    decreases events
  {
    events == []
    || (StepFits(s, events[0]) && StepLeavesNoRule(s, events[0].step) && StepsFitBothWays(Happens(s, events[0]), events[1..]))
  }

  /** Both directions at once: throughout a run the blocked subscribers and the tagged rules
      correspond, if and only if every step fits and takes no blocked subscriber off an
      address where it is alone. */
  lemma {:induction false} TableAndRouterCorrespond(s: State, events: seq<Event>)
    requires DistinctSubscriberIds(s.subs) && RowsAgree(s) && NoOrphans(s)
    ensures InStepThroughout(s, events) <==> StepsFitBothWays(s, events)
    decreases events
  {
    hide Happens, RowsAgree, StepFits, StepLeavesNoRule, NoOrphans, DistinctSubscriberIds;
    if events != [] {
      var next := Happens(s, events[0]);
      StepAgreesIff(s, events[0]);
      StepOrphansIff(s, events[0]);
      if RowsAgree(next) && NoOrphans(next) { TableAndRouterCorrespond(next, events[1..]); }
    }
  }
}
