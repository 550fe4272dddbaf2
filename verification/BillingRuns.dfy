/** Runs of billing: manual operations, invoices, registrations, removals and cycles, and
    what no run ever puts on the router. */
module BillingRuns {
  import R = Router
  import opened Billing

  // ---------- registration ----------

  predicate HasId(subs: seq<Subscriber>, id: string) {
    exists i :: 0 <= i < |subs| && subs[i].id == id
  }

  predicate IsBlocked(subs: seq<Subscriber>, id: string) {
    exists i :: 0 <= i < |subs| && subs[i].id == id && subs[i].status == BlockedForDebt
  }

  /** `add_subscriber`: a known subscriber gets new data and keeps its status. */
  function Registered(subs: seq<Subscriber>, id: string, ip: string, overdue: bool, days: int): (r: seq<Subscriber>)
    ensures |r| == if HasId(subs, id) then |subs| else |subs| + 1
    ensures forall i | 0 <= i < |subs| ::
              r[i] == if subs[i].id == id then subs[i].(ip := ip, overdue := overdue, daysOverdue := days) else subs[i]
    ensures !HasId(subs, id) ==> r[|subs|] == Subscriber(id, ip, Active, overdue, days)
  {
    if HasId(subs, id) then
      seq(|subs|, i requires 0 <= i < |subs| =>
        if subs[i].id == id then subs[i].(ip := ip, overdue := overdue, daysOverdue := days) else subs[i])
    else subs + [Subscriber(id, ip, Active, overdue, days)]
  }

  /** `remove_subscriber`. */
  function Removed(subs: seq<Subscriber>, id: string): seq<Subscriber> {
    if subs == [] then []
    else
      var front := Removed(subs[..|subs| - 1], id);
      if subs[|subs| - 1].id == id then front else front + [subs[|subs| - 1]]
  }

  // ---------- runs ----------

  datatype Step =
    /** A manual block or unblock of row `i`, or a change of its invoice. */
    | BlockRow(i: nat)
    | UnblockRow(i: nat)
    | SetInvoice(i: nat, overdue: bool, days: int)
    | Register(id: string, ip: string, overdue: bool, days: int)
    | Remove(id: string)
    | Cycle(minDays: int, maxBatch: int, dryRun: bool)

  /** One step with its own configuration and unanswered router calls. */
  datatype Event = Event(step: Step, config: Config, failing: set<string>)

  function Happens(s: State, e: Event): State {
    match e.step
    case BlockRow(i) =>
      if i < |s.subs| && s.subs[i].status == Active then AfterBlock(e.config, s, s.subs[i], e.failing) else s
    case UnblockRow(i) => if i < |s.subs| then AfterUnblock(e.config, s, s.subs[i], e.failing) else s
    case SetInvoice(i, overdue, days) =>
      if i < |s.subs| then s.(subs := s.subs[i := s.subs[i].(overdue := overdue, daysOverdue := days)]) else s
    case Register(id, ip, overdue, days) => s.(subs := Registered(s.subs, id, ip, overdue, days))
    case Remove(id) => s.(subs := Removed(s.subs, id))
    case Cycle(minDays, maxBatch, dryRun) => AfterCycle(e.config, s, minDays, maxBatch, dryRun, e.failing)
  }

  function Run(s: State, events: seq<Event>): State
    decreases events
  {
    if events == [] then s else Run(Happens(s, events[0]), events[1..])
  }

  // ---------- the rules on the router ----------

  /** A rule that is tagged for an address drops that address. */
  ghost predicate TagsAreTrue(s: State) {
    forall i, ip: string | 0 <= i < |s.rules| && s.rules[i].comment == R.Tag(ip) :: s.rules[i].srcAddress == ip
  }

  /** Whatever is not an old rule is tagged for the address that it drops, and blocking that
      address is safe. */
  predicate NewRulesAreSafe(c: Config, base: seq<R.Rule>, s: State) {
    forall i | 0 <= i < |s.rules| && s.rules[i] !in base ::
      s.rules[i].comment == R.Tag(s.rules[i].srcAddress) && IsSafeToBlock(c, s.rules[i].srcAddress)
  }

  ghost predicate RulesInv(c: Config, base: seq<R.Rule>, s: State) {
    TagsAreTrue(s) && NewRulesAreSafe(c, base, s)
  }

  /** The rules of `t` are rules of `s`, and perhaps one that blocks `ip`. */
  predicate OneMoreRule(s: State, t: State, ip: string) {
    forall i | 0 <= i < |t.rules| && t.rules[i] !in s.rules :: t.rules[i].comment == R.Tag(ip) && t.rules[i].srcAddress == ip
  }

  lemma OneMoreRuleKeepsInv(c: Config, base: seq<R.Rule>, s: State, t: State, ip: string)
    requires RulesInv(c, base, s) && OneMoreRule(s, t, ip) && (t.rules == s.rules || IsSafeToBlock(c, ip) || OnlyFewerRules(s, t))
    ensures RulesInv(c, base, t)
  {
    hide IsSafeToBlock, R.Tag;
    forall i, other: string | 0 <= i < |t.rules| && t.rules[i].comment == R.Tag(other) ensures t.rules[i].srcAddress == other {
      if t.rules[i] in s.rules {
        var j :| 0 <= j < |s.rules| && s.rules[j] == t.rules[i];
      } else {
        R.TagIsInjective(other, ip);
      }
    }
    forall i | 0 <= i < |t.rules| && t.rules[i] !in base
      ensures t.rules[i].comment == R.Tag(t.rules[i].srcAddress) && IsSafeToBlock(c, t.rules[i].srcAddress)
    {
      if t.rules[i] in s.rules {
        var j :| 0 <= j < |s.rules| && s.rules[j] == t.rules[i];
      }
    }
  }

  predicate OnlyFewerRules(s: State, t: State) {
    forall i | 0 <= i < |t.rules| :: t.rules[i] in s.rules
  }

  lemma BlockKeepsRules(c: Config, base: seq<R.Rule>, s: State, sub: Subscriber, failing: set<string>)
    requires RulesInv(c, base, s)
    ensures RulesInv(c, base, AfterBlock(c, s, sub, failing)) && RulesInv(c, base, AfterUnblock(c, s, sub, failing))
  {
    hide AfterBlock, AfterUnblock, RulesInv, Succeeds;
    var t, u := AfterBlock(c, s, sub, failing), AfterUnblock(c, s, sub, failing);
    BlockInPlainTerms(c, s, sub, failing);
    UnblockInPlainTerms(c, s, sub, failing);
    if Succeeds(c, BlockOp, sub.ip, failing) { SafeWhenBlocked(c, sub.ip, failing); }
    OneMoreRuleKeepsInv(c, base, s, t, sub.ip);
    OneMoreRuleKeepsInv(c, base, s, u, sub.ip);
  }

  lemma SafeWhenBlocked(c: Config, ip: string, failing: set<string>)
    requires Succeeds(c, BlockOp, ip, failing)
    ensures IsSafeToBlock(c, ip)
  {}

  lemma {:induction false} EachKeepsRules(c: Config, base: seq<R.Rule>, s: State, targets: seq<Subscriber>, failing: set<string>)
    requires RulesInv(c, base, s)
    ensures RulesInv(c, base, BlockEach(c, s, targets, failing)) && RulesInv(c, base, UnblockEach(c, s, targets, failing))
  {
    hide RulesInv, AfterBlock, AfterUnblock;
    if targets != [] {
      var front, last := targets[..|targets| - 1], targets[|targets| - 1];
      EachKeepsRules(c, base, s, front, failing);
      BlockKeepsRules(c, base, BlockEach(c, s, front, failing), last, failing);
      BlockKeepsRules(c, base, UnblockEach(c, s, front, failing), last, failing);
    }
  }

  lemma SameInfrastructure(c: Config, d: Config, base: seq<R.Rule>, s: State)
    requires c.lib == d.lib && c.blocks == d.blocks
    ensures RulesInv(c, base, s) <==> RulesInv(d, base, s)
  {
    assert forall ip :: IsSafeToBlock(c, ip) == IsSafeToBlock(d, ip);
  }

  lemma SameRules(c: Config, base: seq<R.Rule>, s: State, t: State)
    requires RulesInv(c, base, s) && t.rules == s.rules
    ensures RulesInv(c, base, t)
  {}

  lemma StepKeepsRules(c: Config, base: seq<R.Rule>, s: State, e: Event)
    requires RulesInv(c, base, s) && e.config.lib == c.lib && e.config.blocks == c.blocks
    ensures RulesInv(c, base, Happens(s, e))
  {
    hide RulesInv, AfterBlock, AfterUnblock, BlockEach, UnblockEach, Delinquent, Reactivatable;
    SameInfrastructure(c, e.config, base, s);
    SameInfrastructure(c, e.config, base, Happens(s, e));
    match e.step
    case BlockRow(i) => if i < |s.subs| { BlockKeepsRules(e.config, base, s, s.subs[i], e.failing); }
    case UnblockRow(i) => if i < |s.subs| { BlockKeepsRules(e.config, base, s, s.subs[i], e.failing); }
    case Cycle(minDays, maxBatch, dryRun) =>
      EachKeepsRules(e.config, base, s, Delinquent(s.subs, minDays), e.failing);
      EachKeepsRules(e.config, base, BlockEach(e.config, s, Delinquent(s.subs, minDays), e.failing), Reactivatable(s.subs), e.failing);
    case _ => SameRules(e.config, base, s, Happens(s, e));
  }

  lemma {:induction false} RunKeepsRules(c: Config, base: seq<R.Rule>, s: State, events: seq<Event>)
    requires RulesInv(c, base, s)
    requires forall i | 0 <= i < |events| :: events[i].config.lib == c.lib && events[i].config.blocks == c.blocks
    ensures RulesInv(c, base, Run(s, events))
    decreases events
  {
    hide RulesInv, Happens;
    if events != [] {
      StepKeepsRules(c, base, s, events[0]);
      RunKeepsRules(c, base, Happens(s, events[0]), events[1..]);
    }
  }

  /** Over every run with the same own infrastructure, a rule tagged for an address drops that
      address, and every rule that billing added drops a valid address that is neither
      loopback nor in a block registered as critical. */
  lemma ProtectedAddressesGetNoRule(c: Config, s: State, events: seq<Event>)
    requires TagsAreTrue(s)
    requires forall i | 0 <= i < |events| :: events[i].config.lib == c.lib && events[i].config.blocks == c.blocks
    ensures var t := Run(s, events);
            && (forall r, ip: string | r in t.rules && r.comment == "BLOQUEIO_INADIMPLENTE_" + ip :: r.srcAddress == ip)
            && (forall r | r in t.rules && r !in s.rules ::
                  && r.comment == "BLOQUEIO_INADIMPLENTE_" + r.srcAddress
                  && c.lib.parse(r.srcAddress).Some? && !c.lib.parse(r.srcAddress).value.isLoopback
                  && forall b | b in c.blocks && b.isCritical :: !c.lib.inCidr(r.srcAddress, b.cidr))
  {
    hide Run, IsSafeToBlock;
    RunKeepsRules(c, s.rules, s, events);
    var t := Run(s, events);
    forall r, ip: string | r in t.rules && r.comment == "BLOQUEIO_INADIMPLENTE_" + ip ensures r.srcAddress == ip {
      var i :| 0 <= i < |t.rules| && t.rules[i] == r;
      assert t.rules[i].comment == R.Tag(ip);
    }
    forall r | r in t.rules && r !in s.rules
      ensures r.comment == "BLOQUEIO_INADIMPLENTE_" + r.srcAddress && IsSafeToBlock(c, r.srcAddress)
    {
      var i :| 0 <= i < |t.rules| && t.rules[i] == r;
    }
    forall r | r in t.rules && r !in s.rules
      ensures c.lib.parse(r.srcAddress).Some? && !c.lib.parse(r.srcAddress).value.isLoopback
      ensures forall b | b in c.blocks && b.isCritical :: !c.lib.inCidr(r.srcAddress, b.cidr)
    {
      SafeInPlainTerms(c, r.srcAddress);
    }
  }

  lemma SafeInPlainTerms(c: Config, ip: string)
    requires IsSafeToBlock(c, ip)
    ensures c.lib.parse(ip).Some? && !c.lib.parse(ip).value.isLoopback
    ensures forall b | b in c.blocks && b.isCritical :: !c.lib.inCidr(ip, b.cidr)
  {}

  /** From a router without rules, the tag of an address is on the router exactly when some
      rule drops that address. */
  lemma TaggedIsDropped(c: Config, s: State, events: seq<Event>, ip: string)
    requires s.rules == []
    requires forall i | 0 <= i < |events| :: events[i].config.lib == c.lib && events[i].config.blocks == c.blocks
    ensures R.Tagged(Run(s, events).rules, R.Tag(ip)) != [] <==> exists r :: r in Run(s, events).rules && r.srcAddress == ip
  {
    hide Run, R.Tagged, R.Tag, IsSafeToBlock;
    RunKeepsRules(c, [], s, events);
    var t := Run(s, events);
    R.TaggedMembers(t.rules, R.Tag(ip));
    if R.Tagged(t.rules, R.Tag(ip)) != [] {
      var r := R.Tagged(t.rules, R.Tag(ip))[0];
      var i :| 0 <= i < |t.rules| && t.rules[i] == r;
      assert t.rules[i].comment == R.Tag(ip);
    }
    if r :| r in t.rules && r.srcAddress == ip {
      var i :| 0 <= i < |t.rules| && t.rules[i] == r;
      assert r in R.Tagged(t.rules, R.Tag(ip));
    }
  }
}
