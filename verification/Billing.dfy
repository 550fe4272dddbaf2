/** Blocking of overdue subscribers: the table of subscribers, the router rules, single
    blocks and unblocks under governance, and the capped daily cycle. */
module Billing {
  import opened Common
  import opened Inventory
  import P = PolicyEngine
  import R = Router

  datatype Status = Active | BlockedForDebt

  datatype Subscriber = Subscriber(id: string, ip: string, status: Status, overdue: bool, daysOverdue: int)

  datatype Operation = BlockOp | UnblockOp

  /** What does not change during a cycle: the address library, the own blocks, and the
      control plane's decision for each operation and address. */
  datatype Config = Config(lib: Library, blocks: seq<Block>, decide: (Operation, string) -> P.Verdict)

  datatype State = State(subs: seq<Subscriber>, rules: seq<R.Rule>, lastRule: int)

  /** `_is_safe_to_block`. */
  predicate IsSafeToBlock(c: Config, ip: string) {
    c.lib.parse(ip).Some? && !c.lib.parse(ip).value.isLoopback && !IsCriticalIp(c.lib, c.blocks, ip)
  }

  /** The operation goes through: safe to block, allowed, and answered by the router. */
  predicate Succeeds(c: Config, op: Operation, ip: string, failing: set<string>) {
    (op == BlockOp ==> IsSafeToBlock(c, ip)) && c.decide(op, ip) == P.Allow && ip !in failing
  }

  /** `set_subscriber_status`. */
  function WithStatus(subs: seq<Subscriber>, id: string, status: Status): (r: seq<Subscriber>)
    ensures |r| == |subs|
    ensures forall i | 0 <= i < |subs| :: r[i] == if subs[i].id == id then subs[i].(status := status) else subs[i]
  {
    seq(|subs|, i requires 0 <= i < |subs| => if subs[i].id == id then subs[i].(status := status) else subs[i])
  }

  function AfterBlock(c: Config, s: State, sub: Subscriber, failing: set<string>): State {
    if Succeeds(c, BlockOp, sub.ip, failing) then
      var rules := R.AfterBlock(s.rules, s.lastRule + 1, sub.ip);
      State(WithStatus(s.subs, sub.id, BlockedForDebt), rules, if rules == s.rules then s.lastRule else s.lastRule + 1)
    else s
  }

  function AfterUnblock(c: Config, s: State, sub: Subscriber, failing: set<string>): State {
    if Succeeds(c, UnblockOp, sub.ip, failing) then
      State(WithStatus(s.subs, sub.id, Active), R.AfterUnblock(s.rules, sub.ip), s.lastRule)
    else s
  }

  // ---------- the operations in plain terms ----------

  /** The address lies in a block registered as critical. */
  predicate InCriticalBlock(c: Config, ip: string) {
    exists i :: 0 <= i < |c.blocks| && c.blocks[i].isCritical && c.lib.inCidr(ip, c.blocks[i].cidr)
  }

  /** Exactly when an operation goes through: the control plane allows it, the router answers,
      and a block has a valid target that is neither loopback nor in a critical block. */
  lemma SucceedsIff(c: Config, op: Operation, ip: string, failing: set<string>)
    ensures Succeeds(c, op, ip, failing) <==>
            && c.decide(op, ip) == P.Allow && ip !in failing
            && (op == UnblockOp || (c.lib.parse(ip).Some? && !c.lib.parse(ip).value.isLoopback && !InCriticalBlock(c, ip)))
  {
    if InCriticalBlock(c, ip) {
      var i :| 0 <= i < |c.blocks| && c.blocks[i].isCritical && c.lib.inCidr(ip, c.blocks[i].cidr);
      assert c.blocks[i] in c.blocks;
    }
    if IsCriticalIp(c.lib, c.blocks, ip) {
      var b :| b in c.blocks && b.isCritical && c.lib.inCidr(ip, b.cidr);
      var i :| 0 <= i < |c.blocks| && c.blocks[i] == b;
    }
  }

  /** A block of a subscriber behind an address in a critical block fails and changes nothing,
      whatever the control plane says. */
  lemma CriticalSubscriberStays(c: Config, s: State, sub: Subscriber, failing: set<string>, b: Block)
    requires b in c.blocks && b.isCritical && c.lib.inCidr(sub.ip, b.cidr)
    ensures !Succeeds(c, BlockOp, sub.ip, failing) && AfterBlock(c, s, sub, failing) == s
  {
    var i :| 0 <= i < |c.blocks| && c.blocks[i] == b;
    SucceedsIff(c, BlockOp, sub.ip, failing);
  }

  /** What a block that goes through does: the subscriber's rows become blocked, and the router
      has one more rule, which drops the subscriber's address, unless it had a tagged one. */
  lemma BlockInPlainTerms(c: Config, s: State, sub: Subscriber, failing: set<string>)
    ensures var t := AfterBlock(c, s, sub, failing);
            if !Succeeds(c, BlockOp, sub.ip, failing) then t == s
            else
              var tag := "BLOQUEIO_INADIMPLENTE_" + sub.ip;
              && |t.subs| == |s.subs|
              && (forall i | 0 <= i < |s.subs| ::
                    t.subs[i] == s.subs[i].(status := if s.subs[i].id == sub.id then BlockedForDebt else s.subs[i].status))
              && (if exists i :: 0 <= i < |s.rules| && s.rules[i].comment == tag then t.rules == s.rules && t.lastRule == s.lastRule
                  else t.rules == s.rules + [R.Rule(s.lastRule + 1, tag, sub.ip)] && t.lastRule == s.lastRule + 1)
  {
    hide Succeeds, R.AfterBlock;
    R.BlockAddsRuleFor(s.rules, s.lastRule + 1, sub.ip);
    assert |s.rules + [R.Rule(s.lastRule + 1, "BLOQUEIO_INADIMPLENTE_" + sub.ip, sub.ip)]| != |s.rules|;
  }

  /** What an unblock that goes through does: the rows become active, and of the router's rules
      exactly the tagged ones are gone. */
  lemma UnblockInPlainTerms(c: Config, s: State, sub: Subscriber, failing: set<string>)
    ensures var t := AfterUnblock(c, s, sub, failing);
            if !Succeeds(c, UnblockOp, sub.ip, failing) then t == s
            else
              && |t.subs| == |s.subs| && t.lastRule == s.lastRule
              && (forall i | 0 <= i < |s.subs| ::
                    t.subs[i] == s.subs[i].(status := if s.subs[i].id == sub.id then Active else s.subs[i].status))
              && (forall r :: r in t.rules <==> r in s.rules && r.comment != "BLOQUEIO_INADIMPLENTE_" + sub.ip)
  {
    hide Succeeds;
    R.TaggedOfUntagged(s.rules, R.Tag(sub.ip), "");
  }

  // ---------- the two queries ----------

  predicate IsDelinquent(sub: Subscriber, minDays: int) {
    sub.overdue && sub.daysOverdue >= minDays && sub.status == Active
  }

  predicate IsReactivatable(sub: Subscriber) {
    sub.status == BlockedForDebt && !sub.overdue
  }

  /** `list_delinquent_subscribers`, in table order. */
  function Delinquent(subs: seq<Subscriber>, minDays: int): seq<Subscriber> {
    if subs == [] then []
    else (if IsDelinquent(subs[0], minDays) then [subs[0]] else []) + Delinquent(subs[1..], minDays)
  }

  /** `list_reactivatable_subscribers`. */
  function Reactivatable(subs: seq<Subscriber>): seq<Subscriber> {
    if subs == [] then []
    else (if IsReactivatable(subs[0]) then [subs[0]] else []) + Reactivatable(subs[1..])
  }

  /** The queries go through the table in its order. */
  lemma {:induction false} QueryOrder(front: seq<Subscriber>, back: seq<Subscriber>, minDays: int)
    ensures Delinquent(front + back, minDays) == Delinquent(front, minDays) + Delinquent(back, minDays)
    ensures Reactivatable(front + back) == Reactivatable(front) + Reactivatable(back)
  {
    hide Delinquent, Reactivatable;
    if front == [] {
      NoRows(minDays);
      assert front + back == back;
    } else {
      assert (front + back)[1..] == front[1..] + back;
      QueryOrder(front[1..], back, minDays);
      FirstOfQueries(front, minDays);
      FirstOfQueries(front + back, minDays);
    }
  }

  lemma NoRows(minDays: int)
    ensures Delinquent([], minDays) == [] && Reactivatable([]) == []
  {}

  lemma FirstOfQueries(subs: seq<Subscriber>, minDays: int)
    requires subs != []
    ensures Delinquent(subs, minDays) == (if IsDelinquent(subs[0], minDays) then [subs[0]] else []) + Delinquent(subs[1..], minDays)
    ensures Reactivatable(subs) == (if IsReactivatable(subs[0]) then [subs[0]] else []) + Reactivatable(subs[1..])
  {}

  /** Exactly the delinquent subscribers (overdue for at least the minimum of days, and still
      active) and the reactivatable ones (blocked, and no longer overdue). */
  lemma {:induction false} QueryMembers(subs: seq<Subscriber>, minDays: int)
    ensures forall x :: x in Delinquent(subs, minDays) <==>
                        x in subs && x.overdue && minDays <= x.daysOverdue && x.status == Active
    ensures forall x :: x in Reactivatable(subs) <==> x in subs && x.status == BlockedForDebt && !x.overdue
  {
    if subs != [] {
      QueryMembers(subs[1..], minDays);
      assert forall x :: x in subs <==> x == subs[0] || x in subs[1..];
    }
  }

  // ---------- the cycle as a function ----------

  function BlockEach(c: Config, s: State, targets: seq<Subscriber>, failing: set<string>): (t: State)
    ensures |t.subs| == |s.subs|
  {
    if targets == [] then s
    else AfterBlock(c, BlockEach(c, s, targets[..|targets| - 1], failing), targets[|targets| - 1], failing)
  }

  function UnblockEach(c: Config, s: State, targets: seq<Subscriber>, failing: set<string>): (t: State)
    ensures |t.subs| == |s.subs|
  {
    if targets == [] then s
    else AfterUnblock(c, UnblockEach(c, s, targets[..|targets| - 1], failing), targets[|targets| - 1], failing)
  }

  function AfterCycle(c: Config, s: State, minDays: int, maxBatch: int, dryRun: bool, failing: set<string>): (t: State)
    ensures |t.subs| == |s.subs|
  {
    if |Delinquent(s.subs, minDays)| > maxBatch || dryRun then s
    else UnblockEach(c, BlockEach(c, s, Delinquent(s.subs, minDays), failing), Reactivatable(s.subs), failing)
  }

  // ---------- the calls, as the program performs them ----------

  datatype CycleReport = Capped | Preview | Completed(blocked: seq<string>, blockFailed: seq<string>,
                                                      reactivated: seq<string>, reactivateFailed: seq<string>)

  /** The ids of the targets for which the operation goes through, or does not, in order. */
  function Outcomes(c: Config, op: Operation, targets: seq<Subscriber>, failing: set<string>, success: bool): seq<string> {
    if targets == [] then []
    else
      var front := Outcomes(c, op, targets[..|targets| - 1], failing, success);
      var last := targets[|targets| - 1];
      if Succeeds(c, op, last.ip, failing) == success then front + [last.id] else front
  }

  class Biller {
    const config: Config
    const router: R.Router
    var subs: seq<Subscriber>

    constructor (config: Config, router: R.Router, subs: seq<Subscriber>)
      ensures this.config == config && this.router == router && this.subs == subs
    {
      this.config, this.router, this.subs := config, router, subs;
    }

    function Snapshot(): State
      reads this, router
    {
      State(subs, router.rules, router.lastId)
    }

    /** `block_subscriber`; the router does not answer for the addresses in `failing`. */
    method BlockSubscriber(sub: Subscriber, failing: set<string>) returns (success: bool)
      requires router.Valid()
      modifies this, router
      ensures router.Valid() && success == Succeeds(config, BlockOp, sub.ip, failing)
      ensures Snapshot() == AfterBlock(config, old(Snapshot()), sub, failing)
    {
      if !IsSafeToBlock(config, sub.ip) { return false; }
      if config.decide(BlockOp, sub.ip) != P.Allow { return false; }
      var answered := router.BlockSubscriberIp(sub.ip, sub.ip !in failing);
      if !answered { return false; }
      subs := WithStatus(subs, sub.id, BlockedForDebt);
      return true;
    }

    /** `unblock_subscriber`. */
    method UnblockSubscriber(sub: Subscriber, failing: set<string>) returns (success: bool)
      requires router.Valid()
      modifies this, router
      ensures router.Valid() && success == Succeeds(config, UnblockOp, sub.ip, failing)
      ensures Snapshot() == AfterUnblock(config, old(Snapshot()), sub, failing)
    {
      if config.decide(UnblockOp, sub.ip) != P.Allow { return false; }
      var answered := router.UnblockSubscriberIp(sub.ip, sub.ip !in failing);
      if !answered { return false; }
      subs := WithStatus(subs, sub.id, Active);
      return true;
    }

    /** `_run_billing_cycle_impl`. */
    method RunBillingCycle(minDays: int, maxBatch: int, dryRun: bool, failing: set<string>) returns (report: CycleReport)
      requires router.Valid()
      modifies this, router
      ensures router.Valid() && Snapshot() == AfterCycle(config, old(Snapshot()), minDays, maxBatch, dryRun, failing)
      ensures report.Capped? <==> |Delinquent(old(subs), minDays)| > maxBatch
      ensures report.Preview? <==> !report.Capped? && dryRun
      ensures report.Completed? ==>
                var delinquent, paid := Delinquent(old(subs), minDays), Reactivatable(old(subs));
                && report.blocked == Outcomes(config, BlockOp, delinquent, failing, true)
                && report.blockFailed == Outcomes(config, BlockOp, delinquent, failing, false)
                && report.reactivated == Outcomes(config, UnblockOp, paid, failing, true)
                && report.reactivateFailed == Outcomes(config, UnblockOp, paid, failing, false)
    {
      var delinquent := Delinquent(subs, minDays);
      var paid := Reactivatable(subs);
      if |delinquent| > maxBatch { return Capped; }
      if dryRun { return Preview; }
      var blocked: seq<string>, blockFailed: seq<string> := [], [];
      for i := 0 to |delinquent|
        invariant router.Valid() && Snapshot() == BlockEach(config, old(Snapshot()), delinquent[..i], failing)
        invariant blocked == Outcomes(config, BlockOp, delinquent[..i], failing, true)
        invariant blockFailed == Outcomes(config, BlockOp, delinquent[..i], failing, false)
      {
        assert delinquent[..i + 1][..i] == delinquent[..i];
        var ok := BlockSubscriber(delinquent[i], failing);
        if ok { blocked := blocked + [delinquent[i].id]; } else { blockFailed := blockFailed + [delinquent[i].id]; }
      }
      assert delinquent[..|delinquent|] == delinquent;
      ghost var middle := Snapshot();
      var reactivated: seq<string>, reactivateFailed: seq<string> := [], [];
      for i := 0 to |paid|
        invariant router.Valid() && Snapshot() == UnblockEach(config, middle, paid[..i], failing)
        invariant reactivated == Outcomes(config, UnblockOp, paid[..i], failing, true)
        invariant reactivateFailed == Outcomes(config, UnblockOp, paid[..i], failing, false)
      {
        assert paid[..i + 1][..i] == paid[..i];
        var ok := UnblockSubscriber(paid[i], failing);
        if ok { reactivated := reactivated + [paid[i].id]; } else { reactivateFailed := reactivateFailed + [paid[i].id]; }
      }
      assert paid[..|paid|] == paid;
      return Completed(blocked, blockFailed, reactivated, reactivateFailed);
    }
  }
}
