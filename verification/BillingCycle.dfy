/** What one billing cycle does to every subscriber, and that repeating it does nothing. */
module BillingCycle {
  import opened Billing

  predicate DistinctSubscriberIds(subs: seq<Subscriber>) {
    forall i, j | 0 <= i < j < |subs| :: subs[i].id != subs[j].id
  }

  /** Some target with this id goes through. */
  predicate Hit(c: Config, op: Operation, targets: seq<Subscriber>, failing: set<string>, id: string) {
    exists x :: x in targets && x.id == id && Succeeds(c, op, x.ip, failing)
  }

  lemma HitAppend(c: Config, op: Operation, front: seq<Subscriber>, last: Subscriber, failing: set<string>, id: string)
    ensures Hit(c, op, front + [last], failing, id) <==>
            Hit(c, op, front, failing, id) || (last.id == id && Succeeds(c, op, last.ip, failing))
  {
    hide Succeeds;
    assert forall x :: x in front + [last] <==> x in front || x == last;
  }

  lemma {:induction false} BlockEachRow(c: Config, s: State, targets: seq<Subscriber>, failing: set<string>, i: nat)
    requires i < |s.subs|
    ensures var t := BlockEach(c, s, targets, failing);
            && |t.subs| == |s.subs|
            && t.subs[i] == if Hit(c, BlockOp, targets, failing, s.subs[i].id) then s.subs[i].(status := BlockedForDebt) else s.subs[i]
  {
    hide Succeeds;
    if targets != [] {
      var front, last := targets[..|targets| - 1], targets[|targets| - 1];
      BlockEachRow(c, s, front, failing, i);
      HitAppend(c, BlockOp, front, last, failing, s.subs[i].id);
      assert targets == front + [last];
    }
  }

  lemma {:induction false} UnblockEachRow(c: Config, s: State, targets: seq<Subscriber>, failing: set<string>, i: nat)
    requires i < |s.subs|
    ensures var t := UnblockEach(c, s, targets, failing);
            && |t.subs| == |s.subs|
            && t.subs[i] == if Hit(c, UnblockOp, targets, failing, s.subs[i].id) then s.subs[i].(status := Active) else s.subs[i]
  {
    hide Succeeds;
    if targets != [] {
      var front, last := targets[..|targets| - 1], targets[|targets| - 1];
      UnblockEachRow(c, s, front, failing, i);
      HitAppend(c, UnblockOp, front, last, failing, s.subs[i].id);
      assert targets == front + [last];
    }
  }

  /** What a cycle that is neither capped nor a preview makes of one subscriber. */
  function StatusAfterCycle(c: Config, sub: Subscriber, minDays: int, failing: set<string>): Status {
    if IsDelinquent(sub, minDays) && Succeeds(c, BlockOp, sub.ip, failing) then BlockedForDebt
    else if IsReactivatable(sub) && Succeeds(c, UnblockOp, sub.ip, failing) then Active
    else sub.status
  }

  lemma HitsOfQueries(c: Config, subs: seq<Subscriber>, minDays: int, failing: set<string>, i: nat)
    requires DistinctSubscriberIds(subs) && i < |subs|
    ensures Hit(c, BlockOp, Delinquent(subs, minDays), failing, subs[i].id) <==>
            IsDelinquent(subs[i], minDays) && Succeeds(c, BlockOp, subs[i].ip, failing)
    ensures Hit(c, UnblockOp, Reactivatable(subs), failing, subs[i].id) <==>
            IsReactivatable(subs[i]) && Succeeds(c, UnblockOp, subs[i].ip, failing)
  {
    hide Succeeds;
    QueryMembers(subs, minDays);
    assert subs[i] in subs;
    assert forall x | x in subs && x.id == subs[i].id :: x == subs[i];
  }

  /** A capped cycle or a preview changes nothing; any other changes exactly the status of
      the delinquent subscribers whose block goes through and of the paid ones whose
      unblock does. */
  lemma CycleEffect(c: Config, s: State, minDays: int, maxBatch: int, dryRun: bool, failing: set<string>, i: nat)
    requires DistinctSubscriberIds(s.subs) && i < |s.subs|
    ensures var t := AfterCycle(c, s, minDays, maxBatch, dryRun, failing);
            && |t.subs| == |s.subs|
            && (|Delinquent(s.subs, minDays)| > maxBatch || dryRun ==> t == s)
            && (!(|Delinquent(s.subs, minDays)| > maxBatch || dryRun) ==>
                  t.subs[i] == s.subs[i].(status := StatusAfterCycle(c, s.subs[i], minDays, failing)))
  {
    hide Succeeds;
    if !(|Delinquent(s.subs, minDays)| > maxBatch || dryRun) {
      BlockEachRow(c, s, Delinquent(s.subs, minDays), failing, i);
      var middle := BlockEach(c, s, Delinquent(s.subs, minDays), failing);
      UnblockEachRow(c, middle, Reactivatable(s.subs), failing, i);
      HitsOfQueries(c, s.subs, minDays, failing, i);
    }
  }

  function IdsOf(subs: seq<Subscriber>): seq<string> {
    seq(|subs|, i requires 0 <= i < |subs| => subs[i].id)
  }

  /** Successes and failures partition the targets. */
  lemma {:induction false} OutcomesPartition(c: Config, op: Operation, targets: seq<Subscriber>, failing: set<string>)
    ensures multiset(Outcomes(c, op, targets, failing, true)) + multiset(Outcomes(c, op, targets, failing, false))
            == multiset(IdsOf(targets))
    ensures |Outcomes(c, op, targets, failing, true)| + |Outcomes(c, op, targets, failing, false)| == |targets|
    ensures forall id :: id in Outcomes(c, op, targets, failing, true) <==> Hit(c, op, targets, failing, id)
  {
    hide Succeeds;
    if targets != [] {
      var front, last := targets[..|targets| - 1], targets[|targets| - 1];
      OutcomesPartition(c, op, front, failing);
      assert targets == front + [last];
      assert IdsOf(targets) == IdsOf(front) + [last.id];
      forall id ensures id in Outcomes(c, op, targets, failing, true) <==> Hit(c, op, targets, failing, id) {
        HitAppend(c, op, front, last, failing, id);
      }
    }
  }

  /** The report of a completed cycle: blocked and failed partition the delinquent list, at
      most `maxBatch` are blocked, blocking and reactivation concern different subscribers,
      and the blocked ids are exactly those of the subscribers that became blocked. */
  lemma CompletedCycleReport(c: Config, s: State, minDays: int, maxBatch: int, failing: set<string>)
    requires DistinctSubscriberIds(s.subs) && |Delinquent(s.subs, minDays)| <= maxBatch
    ensures var delinquent, paid := Delinquent(s.subs, minDays), Reactivatable(s.subs);
            var blocked, failed := Outcomes(c, BlockOp, delinquent, failing, true), Outcomes(c, BlockOp, delinquent, failing, false);
            && multiset(blocked) + multiset(failed) == multiset(IdsOf(delinquent))
            && |blocked| <= maxBatch
            && (forall x, y | x in delinquent && y in paid :: x.id != y.id)
            && (forall i | 0 <= i < |s.subs| ::
                  s.subs[i].id in blocked <==>
                  s.subs[i].status == Active
                  && AfterCycle(c, s, minDays, maxBatch, false, failing).subs[i].status == BlockedForDebt)
  {
    hide Succeeds;
    OutcomesPartition(c, BlockOp, Delinquent(s.subs, minDays), failing);
    QueryMembers(s.subs, minDays);
    forall i | 0 <= i < |s.subs|
      ensures s.subs[i].id in Outcomes(c, BlockOp, Delinquent(s.subs, minDays), failing, true) <==>
              s.subs[i].status == Active
              && AfterCycle(c, s, minDays, maxBatch, false, failing).subs[i].status == BlockedForDebt
    {
      CycleEffect(c, s, minDays, maxBatch, false, failing, i);
      HitsOfQueries(c, s.subs, minDays, failing, i);
    }
  }

  lemma {:induction false} NothingGoesThrough(c: Config, s: State, targets: seq<Subscriber>, failing: set<string>)
    ensures (forall x | x in targets :: !Succeeds(c, BlockOp, x.ip, failing)) ==> BlockEach(c, s, targets, failing) == s
    ensures (forall x | x in targets :: !Succeeds(c, UnblockOp, x.ip, failing)) ==> UnblockEach(c, s, targets, failing) == s
  {
    hide Succeeds;
    if targets != [] {
      var front, last := targets[..|targets| - 1], targets[|targets| - 1];
      NothingGoesThrough(c, s, front, failing);
      assert last in targets && forall x | x in front :: x in targets;
    }
  }

  /** A second cycle with the same invoices, policy and router answers changes no status and
      no rule. */
  lemma SecondCycleChangesNothing(c: Config, s: State, minDays: int, maxBatch: int, dryRun: bool, failing: set<string>)
    requires DistinctSubscriberIds(s.subs)
    ensures var t := AfterCycle(c, s, minDays, maxBatch, dryRun, failing);
            AfterCycle(c, t, minDays, maxBatch, dryRun, failing) == t
  {
    hide Succeeds;
    var t := AfterCycle(c, s, minDays, maxBatch, dryRun, failing);
    if !(|Delinquent(s.subs, minDays)| > maxBatch || dryRun) {
      forall i | 0 <= i < |s.subs|
        ensures |t.subs| == |s.subs| && t.subs[i] == s.subs[i].(status := StatusAfterCycle(c, s.subs[i], minDays, failing))
      {
        CycleEffect(c, s, minDays, maxBatch, dryRun, failing, i);
      }
      if s.subs == [] { EmptyTable(c, s, minDays, failing); }
      QueryMembers(t.subs, minDays);
      NothingGoesThrough(c, t, Delinquent(t.subs, minDays), failing);
      NothingGoesThrough(c, t, Reactivatable(t.subs), failing);
    }
  }

  lemma EmptyTable(c: Config, s: State, minDays: int, failing: set<string>)
    requires s.subs == []
    ensures UnblockEach(c, BlockEach(c, s, Delinquent(s.subs, minDays), failing), Reactivatable(s.subs), failing) == s
  {
  }
}
