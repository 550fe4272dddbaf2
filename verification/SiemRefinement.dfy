/** The two views of the SIEM forwarder agree: a whole call is the interleaved machine
    advancing one forwarder with nothing else in between, so what holds of every
    interleaving holds of every run of whole calls. */
module SiemRefinement {
  import opened Common
  import opened EventQueue
  import I = SiemInterleaving
  import S = SiemForwarder

  function Steps(s: I.State, labels: seq<I.Label>): I.State
    decreases labels
  {
    if labels == [] then s else Steps(I.Step(s, labels[0]), labels[1..])
  }

  /** The same database, and the same events taken by the destination in the same order. */
  predicate Agree(i: I.State, s: S.State) {
    i.log == s.log && i.lastId == s.lastId && i.cursor == s.cursor && I.Flatten(i.accepted) == s.accepted
  }

  function HowDelivered(reached: bool): I.Delivery {
    if reached then I.Unconfirmed else I.NotDelivered
  }

  /** The atomic steps of a call that ends with reply `r`; the `Log` steps are its own
      audit events. */
  function StepsOf(r: S.Reply, e: S.Env, n: nat): seq<I.Label> {
    var read := [I.ReadCursor(n), I.ReadBatch(n, e.limit)];
    match r
    case Disabled => []
    case UnknownMode => []
    case NothingNew => read
    case InCooldown => read + [I.Deliver(n, I.NotDelivered)]
    case WasDenied => read + [I.Log(0), I.Deliver(n, I.NotDelivered)]
    case WasDryRun => read + [I.Log(0), I.Deliver(n, I.NotDelivered)]
    case WasSent => read + [I.Log(0), I.Deliver(n, I.Confirmed), I.WriteCursor(n), I.Log(0)]
    case NotSent =>
      read + [I.Log(0), I.Deliver(n, HowDelivered(e.outcome.Failed? && e.outcome.reached)), I.Log(0), I.Log(0)]
    case WasFailed =>
      read + [I.Log(0), I.Deliver(n, HowDelivered(e.outcome.Raised? && e.outcome.reached)), I.Log(0)]
  }

  lemma {:induction false} StepsConcat(s: I.State, front: seq<I.Label>, back: seq<I.Label>)
    ensures Steps(s, front + back) == Steps(Steps(s, front), back)
    decreases front
  {
    if front == [] {
      assert front + back == back;
    } else {
      assert (front + back)[1..] == front[1..] + back;
      StepsConcat(I.Step(s, front[0]), front[1..], back);
    }
  }

  lemma OneStep(s: I.State, l: I.Label)
    ensures Steps(s, [l]) == I.Step(s, l)
  {
    assert [l][1..] == [];
  }

  lemma TwoSteps(s: I.State, l: I.Label, m: I.Label)
    ensures Steps(s, [l, m]) == I.Step(I.Step(s, l), m)
  {
    assert [l, m][1..] == [m];
    OneStep(I.Step(s, l), m);
  }

  lemma ThreeSteps(s: I.State, l: I.Label, m: I.Label, k: I.Label)
    ensures Steps(s, [l, m, k]) == I.Step(I.Step(I.Step(s, l), m), k)
  {
    assert [l, m, k][1..] == [m, k];
    TwoSteps(I.Step(s, l), m, k);
  }

  lemma FourSteps(s: I.State, l: I.Label, m: I.Label, k: I.Label, j: I.Label)
    ensures Steps(s, [l, m, k, j]) == I.Step(I.Step(I.Step(I.Step(s, l), m), k), j)
  {
    assert [l, m, k, j][1..] == [m, k, j];
    ThreeSteps(I.Step(s, l), m, k, j);
  }

  /** Reading the cursor and the batch. */
  lemma AfterReading(i: I.State, n: nat, limit: nat)
    requires n < |i.forwarders| && i.forwarders[n] == I.Idle
    ensures var batch := Batch(i.log, i.cursor, limit);
            Steps(i, [I.ReadCursor(n), I.ReadBatch(n, limit)]) ==
            if batch == [] then i else I.Goto(i, n, I.HasBatch(i.cursor, batch))
  {
    hide Batch, Steps;
    TwoSteps(i, I.ReadCursor(n), I.ReadBatch(n, limit));
    assert i.forwarders[n := I.HasCursor(i.cursor)][n := I.Idle] == i.forwarders;
  }

  /** What the rest of a call does once the batch is in hand. */
  lemma RestOfCall(u: I.State, s: S.State, e: S.Env, n: nat, idle: seq<I.Forwarder>)
    requires n < |idle| && idle[n] == I.Idle
    requires Agree(u, s) && u.forwarders == idle[n := I.HasBatch(s.cursor, Batch(s.log, s.cursor, e.limit))]
    requires Batch(s.log, s.cursor, e.limit) != [] && e.enabled && e.senderKnown
    ensures var t := Steps(u, StepsOf(S.ReplyOf(s, e), e, n)[2..]);
            Agree(t, S.Forwarded(s, e)) && t.forwarders == idle
  {
    hide Batch, Steps, I.Flatten, S.StillBlocked;
    var batch := Batch(s.log, s.cursor, e.limit);
    assert u.forwarders[n := I.Idle] == idle;
    assert u.forwarders[n := I.Acknowledged(batch)][n := I.Idle] == idle;
    I.FlattenAppend(u.accepted, batch);
    match S.ReplyOf(s, e)
    case InCooldown => OneStep(u, I.Deliver(n, I.NotDelivered));
    case WasDenied => TwoSteps(u, I.Log(0), I.Deliver(n, I.NotDelivered));
    case WasDryRun => TwoSteps(u, I.Log(0), I.Deliver(n, I.NotDelivered));
    case WasSent => FourSteps(u, I.Log(0), I.Deliver(n, I.Confirmed), I.WriteCursor(n), I.Log(0));
    case NotSent => FourSteps(u, I.Log(0), I.Deliver(n, HowDelivered(e.outcome.reached)), I.Log(0), I.Log(0));
    case WasFailed => ThreeSteps(u, I.Log(0), I.Deliver(n, HowDelivered(e.outcome.reached)), I.Log(0));
  }

  /** `forward_new_events` in one piece is its atomic steps run alone. */
  lemma CallIsItsSteps(i: I.State, s: S.State, e: S.Env, n: nat)
    requires Agree(i, s) && n < |i.forwarders| && i.forwarders[n] == I.Idle
    ensures var t := Steps(i, StepsOf(S.ReplyOf(s, e), e, n));
            Agree(t, S.Forwarded(s, e)) && t.forwarders == i.forwarders
  {
    hide Batch, I.Flatten, S.StillBlocked;
    var labels := StepsOf(S.ReplyOf(s, e), e, n);
    if e.enabled && e.senderKnown {
      assert labels == labels[..2] + labels[2..] && labels[..2] == [I.ReadCursor(n), I.ReadBatch(n, e.limit)];
      StepsConcat(i, labels[..2], labels[2..]);
      AfterReading(i, n, e.limit);
      var batch := Batch(s.log, s.cursor, e.limit);
      if batch != [] {
        RestOfCall(I.Goto(i, n, I.HasBatch(i.cursor, batch)), s, e, n, i.forwarders);
      }
    }
  }

  // ---------- runs of whole calls ----------

  function Run(ops: seq<S.Op>): S.State {
    S.RunFrom(S.INIT, ops)
  }

  lemma {:induction false} RunConcat(front: seq<I.Label>, back: seq<I.Label>)
    ensures I.Run(front + back) == Steps(I.Run(front), back)
    decreases |back|
  {
    if back == [] {
      assert front + back == front;
    } else {
      var most, last := back[..|back| - 1], back[|back| - 1];
      RunConcat(front, most);
      assert (front + back)[..|front + back| - 1] == front + most;
      assert back == most + [last];
      StepsConcat(I.Run(front), most, [last]);
      OneStep(Steps(I.Run(front), most), last);
    }
  }

  /** Every run of whole calls is an interleaving with one forwarder. */
  lemma {:induction false} RunIsAnInterleaving(ops: seq<S.Op>) returns (labels: seq<I.Label>)
    ensures Agree(I.Run(labels), Run(ops)) && I.Run(labels).forwarders == [I.Idle]
    decreases |ops|
  {
    if ops == [] {
      labels := [I.Spawn];
      assert labels[..0] == [];
    } else {
      var front, op := ops[..|ops| - 1], ops[|ops| - 1];
      labels := RunIsAnInterleaving(front);
      var more := if op.Forward? then StepsOf(S.ReplyOf(Run(front), op.env), op.env, 0) else [I.Log(0)];
      RunConcat(labels, more);
      match op {
        case Forward(e) => CallIsItsSteps(I.Run(labels), Run(front), e, 0);
        case Other => OneStep(I.Run(labels), I.Log(0));
      }
      labels := labels + more;
    }
  }

  lemma {:induction false} FlattenMembers(batches: seq<seq<int>>, b: seq<int>, id: int)
    requires b in batches && id in b
    ensures id in I.Flatten(batches)
  {
    if b != batches[|batches| - 1] {
      FlattenMembers(batches[..|batches| - 1], b, id);
    }
  }

  /** Over every run of whole calls, whatever is decided and however deliveries end, the
      destination has taken every event up to the cursor. */
  lemma CursorIsCovered(ops: seq<S.Op>, id: int)
    requires id in Run(ops).log && id <= Run(ops).cursor
    ensures id in Run(ops).accepted
  {
    var labels := RunIsAnInterleaving(ops);
    I.NoEventIsLost(labels, id);
    var b :| b in I.Run(labels).accepted && id in b;
    FlattenMembers(I.Run(labels).accepted, b, id);
  }
}
