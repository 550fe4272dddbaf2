/** When events are delivered twice: the exact condition, and what a single forwarder
    guarantees. */
module SiemRedelivery {
  import opened EventQueue
  import opened SiemInterleaving

  /** A second forwarder never starts. */
  ghost predicate OneForwarder(labels: seq<Label>) {
    forall k | 0 <= k < |labels| :: labels[k].Spawn? ==> Run(labels[..k]).forwarders == []
  }

  /** The step makes the destination take a batch. */
  predicate Accepts(s: State, l: Label) {
    l.Deliver? && l.n < |s.forwarders| && s.forwarders[l.n].HasBatch? && l.delivery != NotDelivered
  }

  /** Some accepted delivery was not confirmed. */
  predicate IsDoubtful(labels: seq<Label>) {
    labels != [] &&
    var front, l := labels[..|labels| - 1], labels[|labels| - 1];
    IsDoubtful(front) || (Accepts(Run(front), l) && l.delivery.Unconfirmed?)
  }

  /** Some delivery was accepted after an unconfirmed one. */
  predicate IsResent(labels: seq<Label>) {
    labels != [] &&
    var front, l := labels[..|labels| - 1], labels[|labels| - 1];
    IsResent(front) || (IsDoubtful(front) && Accepts(Run(front), l))
  }

  function Queue(s: State): seq<int> {
    After(s.log, s.cursor)
  }

  function InHand(s: State): seq<int> {
    if s.forwarders != [] && s.forwarders[0].Acknowledged? then s.forwarders[0].batch else []
  }

  /** What a single forwarder holds was read at the cursor, which only it moves. */
  predicate ReadsAtCursor(s: State) {
    && IsLog(s.log, s.lastId) && s.cursor <= s.lastId && |s.forwarders| <= 1
    && (s.forwarders != [] ==>
          match s.forwarders[0]
          case Idle => true
          case HasCursor(last) => last == s.cursor
          case HasBatch(last, batch) => last == s.cursor && batch != [] && batch <= Queue(s)
          case Acknowledged(batch) => batch != [] && batch <= Queue(s))
  }

  /** The events up to the cursor. */
  function Passed(s: State): seq<int>
    requires |Queue(s)| <= |s.log|
  {
    s.log[..|s.log| - |Queue(s)|]
  }

  lemma QueueIsSuffix(s: State)
    requires IsLog(s.log, s.lastId)
    ensures |Queue(s)| <= |s.log| && s.log == Passed(s) + Queue(s)
    ensures forall id | id in Queue(s) :: s.cursor < id <= s.lastId
  {
    var k := AfterIsSuffix(s.log, s.cursor);
    forall id | id in Queue(s) ensures s.cursor < id <= s.lastId {
      var i :| 0 <= i < |Queue(s)| && Queue(s)[i] == id;
      assert s.log[k + i] == id && s.log[k + i] in s.log;
    }
  }

  /** Logging lengthens the queue and passes nothing. */
  lemma LogGrowsQueue(s: State, skipped: nat)
    requires ReadsAtCursor(s)
    ensures var u := Step(s, Log(skipped));
            && IsLog(u.log, u.lastId) && Queue(u) == Queue(s) + [u.lastId] && u.log == s.log + [u.lastId]
            && |Queue(s)| <= |s.log| && Passed(u) == Passed(s)
  {
    hide After;
    QueueIsSuffix(s);
    AppendKeepsLog(s.log, s.lastId, s.lastId + 1 + skipped);
    AfterAppend(s.log, s.cursor, s.lastId + 1 + skipped);
  }

  /** Writing the end of a batch passes exactly that batch. */
  lemma WritePassesBatch(s: State, n: nat)
    requires ReadsAtCursor(s) && n < |s.forwarders| && s.forwarders[n].Acknowledged?
    ensures var u, batch := Step(s, WriteCursor(n)), s.forwarders[n].batch;
            && s.cursor < u.cursor <= u.lastId && u.log == s.log
            && |Queue(u)| <= |u.log| && |Queue(s)| <= |s.log| && Passed(u) == Passed(s) + batch
  {
    hide After, Increasing;
    var u, batch, queue := Step(s, WriteCursor(n)), s.forwarders[n].batch, Queue(s);
    QueueIsSuffix(s);
    assert queue[|batch| - 1] == batch[|batch| - 1] && queue[|batch| - 1] in queue;
    QueueIsSuffix(u);
    BatchThenRest(s.log, s.cursor, batch);
    SamePrefix(s.log, Passed(s), batch, Queue(u), Passed(u));
  }

  lemma SamePrefix(log: seq<int>, passed: seq<int>, batch: seq<int>, rest: seq<int>, front: seq<int>)
    requires log == passed + (batch + rest) && log == front + rest
    ensures front == passed + batch
  {
    assert front == log[..|front|] && passed + batch == log[..|passed + batch|];
  }

  lemma StepReadsAtCursor(s: State, l: Label)
    requires ReadsAtCursor(s) && (l.Spawn? ==> s.forwarders == [])
    ensures ReadsAtCursor(Step(s, l)) && s.cursor <= Step(s, l).cursor
  {
    hide After, IsLog;
    match l
    case Log(skipped) => LogGrowsQueue(s, skipped);
    case WriteCursor(n) => if n < |s.forwarders| && s.forwarders[n].Acknowledged? { WritePassesBatch(s, n); }
    case _ =>
  }

  lemma SplitRun(labels: seq<Label>) returns (front: seq<Label>, l: Label)
    requires labels != [] && OneForwarder(labels)
    ensures labels == front + [l] && front == labels[..|labels| - 1] && l == labels[|labels| - 1]
    ensures OneForwarder(front) && (l.Spawn? ==> Run(front).forwarders == []) && Run(labels) == Step(Run(front), l)
  {
    front, l := labels[..|labels| - 1], labels[|labels| - 1];
    forall k | 0 <= k < |front| ensures front[k].Spawn? ==> Run(front[..k]).forwarders == [] {
      assert front[..k] == labels[..k];
    }
  }

  lemma {:induction false} RunReadsAtCursor(labels: seq<Label>)
    requires OneForwarder(labels)
    ensures ReadsAtCursor(Run(labels))
  {
    hide OneForwarder, ReadsAtCursor;
    if labels == [] {
      NothingRead();
    } else {
      var front, l := SplitRun(labels);
      RunReadsAtCursor(front);
      StepReadsAtCursor(Run(front), l);
    }
  }

  lemma NothingRead()
    ensures ReadsAtCursor(INIT) && Run([]) == INIT
  {}

  /** With a single forwarder the stored cursor never moves back, however deliveries end. */
  lemma {:induction false} SingleCursorIsMonotone(labels: seq<Label>, m: nat)
    requires OneForwarder(labels) && m <= |labels|
    ensures Run(labels[..m]).cursor <= Run(labels).cursor
    decreases |labels|
  {
    if m == |labels| {
      assert labels[..m] == labels;
    } else {
      var front, l := SplitRun(labels);
      SingleCursorIsMonotone(front, m);
      assert front[..m] == labels[..m];
      RunReadsAtCursor(front);
      StepReadsAtCursor(Run(front), l);
    }
  }

  // ---------- duplicates ----------

  /** What was accepted is what the cursor has passed and one batch at most: the one about to
      be passed, or the one whose confirmation was lost. */
  predicate SentOnce(s: State, doubtful: bool) {
    var sent := Flatten(s.accepted);
    && |Queue(s)| <= |s.log| && Passed(s) <= sent
    && var extra := sent[|Passed(s)|..];
       && extra <= Queue(s) && (doubtful ==> extra != [] && InHand(s) == []) && (!doubtful ==> extra == InHand(s))
  }

  /** The run so far, told by whether a confirmation was lost and whether a delivery followed. */
  predicate SentAsTold(s: State, doubtful: bool, resent: bool) {
    if resent then !Increasing(Flatten(s.accepted)) else SentOnce(s, doubtful)
  }

  lemma DuplicatesStay(sent: seq<int>, more: seq<int>)
    requires !Increasing(sent)
    ensures !Increasing(sent + more)
  {
    var i, j :| 0 <= i < j < |sent| && sent[i] >= sent[j];
    assert (sent + more)[i] >= (sent + more)[j];
  }

  lemma AcceptAsTold(s: State, l: Label, doubtful: bool)
    requires ReadsAtCursor(s) && SentOnce(s, doubtful) && Accepts(s, l)
    ensures doubtful ==> !Increasing(Flatten(Step(s, l).accepted))
    ensures !doubtful ==> SentOnce(Step(s, l), l.delivery.Unconfirmed?)
  {
    hide After, Flatten, IsLog;
    var u, batch, sent := Step(s, l), s.forwarders[l.n].batch, Flatten(s.accepted);
    FlattenAppend(s.accepted, batch);
    assert Queue(u) == Queue(s) && Flatten(u.accepted) == sent + batch;
    var n := |Passed(s)|;
    if doubtful {
      assert (sent + batch)[n] == sent[n..][0] == Queue(s)[0] == batch[0] == (sent + batch)[|sent|];
    } else {
      assert sent == Passed(s) && (sent + batch)[n..] == batch;
    }
  }

  lemma QuietStepAsTold(s: State, l: Label, doubtful: bool)
    requires ReadsAtCursor(s) && SentOnce(s, doubtful) && !Accepts(s, l) && (l.Spawn? ==> s.forwarders == [])
    ensures SentOnce(Step(s, l), doubtful)
  {
    hide After, Flatten, IsLog;
    match l
    case Log(skipped) => LogGrowsQueue(s, skipped);
    case WriteCursor(n) =>
      if n < |s.forwarders| && s.forwarders[n].Acknowledged? {
        WritePassesBatch(s, n);
        var sent := Flatten(s.accepted);
        assert sent == Passed(s) + sent[|Passed(s)|..];
        assert sent[|sent|..] == [];
      }
    case _ =>
  }

  lemma StepAsTold(s: State, l: Label, doubtful: bool, resent: bool)
    requires ReadsAtCursor(s) && SentAsTold(s, doubtful, resent) && (l.Spawn? ==> s.forwarders == [])
    ensures SentAsTold(Step(s, l), doubtful || (Accepts(s, l) && l.delivery.Unconfirmed?), resent || (doubtful && Accepts(s, l)))
  {
    hide ReadsAtCursor, SentOnce, Increasing, Flatten;
    if resent {
      if Accepts(s, l) {
        var batch := s.forwarders[l.n].batch;
        FlattenAppend(s.accepted, batch);
        DuplicatesStay(Flatten(s.accepted), batch);
      }
    } else if Accepts(s, l) {
      AcceptAsTold(s, l, doubtful);
    } else {
      QuietStepAsTold(s, l, doubtful);
    }
  }

  lemma {:induction false} RunAsTold(labels: seq<Label>)
    requires OneForwarder(labels)
    ensures SentAsTold(Run(labels), IsDoubtful(labels), IsResent(labels))
  {
    hide OneForwarder, SentAsTold, Accepts;
    if labels == [] {
      NothingSent();
    } else {
      var front, l := SplitRun(labels);
      RunAsTold(front);
      RunReadsAtCursor(front);
      StepAsTold(Run(front), l, IsDoubtful(front), IsResent(front));
    }
  }

  lemma NothingSent()
    ensures SentAsTold(INIT, false, false) && Run([]) == INIT
  {
    hide Increasing, Step;
    assert Queue(INIT) == [] && Flatten(INIT.accepted) == [] && InHand(INIT) == [];
    assert Passed(INIT) == [];
  }

  /** Exactly when a single forwarder delivers without repetition: no delivery is accepted
      after one whose confirmation was lost. Then what the destination took is a prefix of
      the log; otherwise some event was taken twice. */
  lemma DeliveredOnceIff(labels: seq<Label>)
    requires OneForwarder(labels)
    ensures var s := Run(labels);
            && (Increasing(Flatten(s.accepted)) <==> !IsResent(labels))
            && (Flatten(s.accepted) <= s.log <==> !IsResent(labels))
  {
    hide Flatten, After, IsResent, IsDoubtful, Run, OneForwarder;
    var s := Run(labels);
    RunAsTold(labels);
    RunReadsAtCursor(labels);
    QueueIsSuffix(s);
    var sent := Flatten(s.accepted);
    if !IsResent(labels) {
      assert sent == Passed(s) + sent[|Passed(s)|..];
      assert sent <= s.log;
    }
    if sent <= s.log {
      forall i, j | 0 <= i < j < |sent| ensures sent[i] < sent[j] { assert sent[i] == s.log[i] && sent[j] == s.log[j]; }
    }
  }

  /** At most one forwarder, and no batch taken without the confirmation arriving. */
  predicate SingleAndConfirmed(s: State, l: Label) {
    (l.Spawn? ==> s.forwarders == []) && (l.Deliver? ==> !l.delivery.Unconfirmed?)
  }

  ghost predicate RunIsSingle(labels: seq<Label>) {
    forall k | 0 <= k < |labels| :: SingleAndConfirmed(Run(labels[..k]), labels[k])
  }

  lemma {:induction false} NothingDoubtful(labels: seq<Label>)
    requires RunIsSingle(labels)
    ensures OneForwarder(labels) && !IsDoubtful(labels) && !IsResent(labels)
  {
    if labels != [] {
      var front := labels[..|labels| - 1];
      forall k | 0 <= k < |front| ensures SingleAndConfirmed(Run(front[..k]), front[k]) {
        assert front[..k] == labels[..k];
      }
      NothingDoubtful(front);
    }
  }

  /** With a single forwarder and no accepted-but-unconfirmed batch, what the destination
      took is, in order and without repetition, a prefix of the log, however the loggers
      interleave. */
  lemma AcceptedIsPrefixOfLog(labels: seq<Label>)
    requires RunIsSingle(labels)
    ensures var s := Run(labels); Flatten(s.accepted) <= s.log && Increasing(Flatten(s.accepted))
  {
    NothingDoubtful(labels);
    DeliveredOnceIff(labels);
  }
}
