/** SIEM forwarding under concurrency: several forwarders and any number of loggers, each
    database statement and each delivery one atomic step. */
module SiemInterleaving {
  import opened EventQueue

  datatype Forwarder =
    | Idle
    | HasCursor(last: int)
    | HasBatch(last: int, batch: seq<int>)
    | Acknowledged(batch: seq<int>)

  /** `accepted` are the batches the destination took, in order. */
  datatype State = State(log: seq<int>, lastId: int, cursor: int, forwarders: seq<Forwarder>, accepted: seq<seq<int>>)

  /** How a delivery ends: confirmed, taken without the answer arriving, or not taken (a
      refusal, a network failure, or a decision not to send at all). */
  datatype Delivery = Confirmed | Unconfirmed | NotDelivered

  datatype Label =
    | Log(skipped: nat)
    | Spawn
    | ReadCursor(n: nat)
    | ReadBatch(n: nat, limit: nat)
    | Deliver(n: nat, delivery: Delivery)
    | WriteCursor(n: nat)

  const INIT := State([], 0, 0, [], [])

  function Step(s: State, l: Label): State {
    match l
    case Log(skipped) => var id := s.lastId + 1 + skipped; s.(log := s.log + [id], lastId := id)
    case Spawn => s.(forwarders := s.forwarders + [Idle])
    case ReadCursor(n) =>
      if n < |s.forwarders| && s.forwarders[n].Idle? then Goto(s, n, HasCursor(s.cursor)) else s
    case ReadBatch(n, limit) =>
      if n < |s.forwarders| && s.forwarders[n].HasCursor? then
        var batch := Batch(s.log, s.forwarders[n].last, limit);
        Goto(s, n, if batch == [] then Idle else HasBatch(s.forwarders[n].last, batch))
      else s
    case Deliver(n, delivery) =>
      if n < |s.forwarders| && s.forwarders[n].HasBatch? then
        var batch := s.forwarders[n].batch;
        match delivery
        case Confirmed => Goto(s, n, Acknowledged(batch)).(accepted := s.accepted + [batch])
        case Unconfirmed => Goto(s, n, Idle).(accepted := s.accepted + [batch])
        case NotDelivered => Goto(s, n, Idle)
      else s
    case WriteCursor(n) =>
      if n < |s.forwarders| && s.forwarders[n].Acknowledged? && s.forwarders[n].batch != [] then
        var batch := s.forwarders[n].batch;
        Goto(s, n, Idle).(cursor := batch[|batch| - 1])
      else s
  }

  function Goto(s: State, n: nat, f: Forwarder): State
    requires n < |s.forwarders|
  {
    s.(forwarders := s.forwarders[n := f])
  }

  function Run(labels: seq<Label>): State {
    if labels == [] then INIT else Step(Run(labels[..|labels| - 1]), labels[|labels| - 1])
  }

  predicate Delivered(s: State, id: int) {
    exists b :: b in s.accepted && id in b
  }

  /** Every logged event up to `cursor` was in a batch the destination took. */
  predicate Covered(s: State, cursor: int) {
    cursor <= s.lastId && forall id | id in s.log && id <= cursor :: Delivered(s, id)
  }

  predicate ForwarderIsSound(s: State, f: Forwarder) {
    match f
    case Idle => true
    case HasCursor(last) => Covered(s, last)
    case HasBatch(last, batch) =>
      && Covered(s, last) && batch != [] && batch[|batch| - 1] <= s.lastId
      && forall id | id in s.log && last < id <= batch[|batch| - 1] :: id in batch
    case Acknowledged(batch) => batch != [] && Covered(s, batch[|batch| - 1])
  }

  predicate Inv(s: State) {
    && IsLog(s.log, s.lastId)
    && Covered(s, s.cursor)
    && forall f | f in s.forwarders :: ForwarderIsSound(s, f)
  }

  /** Growth that no forwarder can notice in what it has already read. */
  predicate Grows(s: State, u: State) {
    && s.lastId <= u.lastId
    && (forall b | b in s.accepted :: b in u.accepted)
    && (forall id | id in u.log :: id in s.log || id > s.lastId)
  }

  lemma GrowthKeepsCover(s: State, u: State, cursor: int)
    requires Grows(s, u) && Covered(s, cursor)
    ensures Covered(u, cursor)
  {
    forall id | id in u.log && id <= cursor ensures Delivered(u, id) {
      assert Delivered(s, id);
    }
  }

  lemma GrowthKeepsForwarder(s: State, u: State, f: Forwarder)
    requires Grows(s, u) && ForwarderIsSound(s, f)
    ensures ForwarderIsSound(u, f)
  {
    match f
    case Idle =>
    case HasCursor(last) => GrowthKeepsCover(s, u, last);
    case HasBatch(last, batch) => GrowthKeepsCover(s, u, last);
    case Acknowledged(batch) => GrowthKeepsCover(s, u, batch[|batch| - 1]);
  }

  lemma StepGrows(s: State, l: Label)
    requires IsLog(s.log, s.lastId)
    ensures Grows(s, Step(s, l)) && IsLog(Step(s, l).log, Step(s, l).lastId)
  {
    if l.Log? { AppendKeepsLog(s.log, s.lastId, s.lastId + 1 + l.skipped); }
  }

  lemma MovedForwarderIsSound(s: State, l: Label, n: nat)
    requires Inv(s) && n < |s.forwarders|
    requires l == ReadCursor(n) || (l.ReadBatch? && l.n == n) || (l.Deliver? && l.n == n) || l == WriteCursor(n)
    ensures var u := Step(s, l); |u.forwarders| == |s.forwarders| && ForwarderIsSound(u, u.forwarders[n])
  {
    var f, u := s.forwarders[n], Step(s, l);
    assert ForwarderIsSound(s, f);
    StepGrows(s, l);
    if l.ReadBatch? && f.HasCursor? {
      BatchIsAnInterval(s.log, f.last, l.limit);
      var batch := Batch(s.log, f.last, l.limit);
      if batch != [] {
        assert Covered(u, f.last) by { GrowthKeepsCover(s, u, f.last); }
      }
    } else if l.Deliver? && f.HasBatch? && l.delivery.Confirmed? {
      var last := f.batch[|f.batch| - 1];
      assert f.batch in u.accepted;
      forall id | id in u.log && id <= last ensures Delivered(u, id) {
        if id <= f.last {
          GrowthKeepsCover(s, u, f.last);
        } else {
          assert id in f.batch;
        }
      }
    } else if f.Idle? && l.ReadCursor? {
      GrowthKeepsCover(s, u, s.cursor);
    } else if l.WriteCursor? && f.Acknowledged? {
    } else {
      if u.forwarders[n] == f { GrowthKeepsForwarder(s, u, f); }
    }
  }

  lemma StepKeepsInv(s: State, l: Label)
    requires Inv(s)
    ensures Inv(Step(s, l))
  {
    var u := Step(s, l);
    StepGrows(s, l);
    GrowthKeepsCover(s, u, s.cursor);
    if l.WriteCursor? && l.n < |s.forwarders| && s.forwarders[l.n].Acknowledged? {
      var f := s.forwarders[l.n];
      assert ForwarderIsSound(s, f);
      GrowthKeepsCover(s, u, f.batch[|f.batch| - 1]);
    }
    forall f | f in u.forwarders ensures ForwarderIsSound(u, f) {
      if f in s.forwarders {
        GrowthKeepsForwarder(s, u, f);
      } else if !l.Spawn? {
        var i :| 0 <= i < |u.forwarders| && u.forwarders[i] == f;
        MovedForwarderIsSound(s, l, i);
      }
    }
  }

  lemma {:induction false} RunKeepsInv(labels: seq<Label>)
    ensures Inv(Run(labels)) && Run(labels).cursor <= Run(labels).lastId
  {
    if labels != [] {
      RunKeepsInv(labels[..|labels| - 1]);
      StepKeepsInv(Run(labels[..|labels| - 1]), labels[|labels| - 1]);
    }
  }

  /** No event is lost: in every interleaving, every event with an id at most the stored
      cursor was in a batch that the destination took. */
  lemma NoEventIsLost(labels: seq<Label>, id: int)
    ensures var s := Run(labels); id in s.log && id <= s.cursor ==> Delivered(s, id)
  {
    RunKeepsInv(labels);
  }

  lemma Also(labels: seq<Label>, l: Label) returns (longer: seq<Label>)
    ensures longer == labels + [l] && Run(longer) == Step(Run(labels), l)
  {
    longer := labels + [l];
    assert longer[..|labels|] == labels;
  }

  /** The cursor itself is not monotone: a slow forwarder moves it back over events that a
      faster one has already passed, and they are then sent again. */
  lemma CursorCanMoveBack() returns (labels: seq<Label>, l: Label)
    ensures Run(labels + [l]).cursor < Run(labels).cursor
  {
    hide Run, Batch;
    labels := TwoAcknowledged();
    labels := Also(labels, WriteCursor(1));
    assert Run(labels) == State([1, 2], 2, 2, [Acknowledged([1]), Idle], [[1], [1, 2]]);
    l := WriteCursor(0);
    var longer := Also(labels, l);
  }

  /** One forwarder has delivered event 1, the other events 1 and 2; none has moved the cursor. */
  lemma TwoAcknowledged() returns (labels: seq<Label>)
    ensures Run(labels) == State([1, 2], 2, 0, [Acknowledged([1]), Acknowledged([1, 2])], [[1], [1, 2]])
  {
    hide Run, Batch;
    labels := OneAcknowledged();
    labels := Also(labels, Log(0));
    labels := Also(labels, ReadCursor(1));
    assert Run(labels) == State([1, 2], 2, 0, [Acknowledged([1]), HasCursor(0)], [[1]]);
    labels := Also(labels, ReadBatch(1, 500));
    SmallBatches();
    assert Run(labels).forwarders == [Acknowledged([1]), HasBatch(0, [1, 2])];
    labels := Also(labels, Deliver(1, Confirmed));
  }

  lemma OneAcknowledged() returns (labels: seq<Label>)
    ensures Run(labels) == State([1], 1, 0, [Acknowledged([1]), Idle], [[1]])
  {
    hide Run, Batch;
    StartOfRun();
    SmallBatches();
    labels := Also([], Log(0));
    labels := Also(labels, Spawn);
    labels := Also(labels, Spawn);
    assert Run(labels) == State([1], 1, 0, [Idle, Idle], []);
    labels := Also(labels, ReadCursor(0));
    labels := Also(labels, ReadBatch(0, 500));
    assert Run(labels).forwarders == [HasBatch(0, [1]), Idle];
    labels := Also(labels, Deliver(0, Confirmed));
  }

  lemma StartOfRun()
    ensures Run([]) == INIT
  {}

  lemma SmallBatches()
    ensures Batch([1], 0, 500) == [1] && Batch([1, 2], 0, 500) == [1, 2]
  {
    assert After([1], 0) == [1] by { assert After([1][1..], 0) == []; }
    assert After([1, 2], 0) == [1, 2] by {
      AfterAppend([1], 0, 2);
      assert [1, 2] == [1] + [2];
    }
  }

  // ---------- what the destination took ----------

  function Flatten(batches: seq<seq<int>>): seq<int> {
    if batches == [] then [] else Flatten(batches[..|batches| - 1]) + batches[|batches| - 1]
  }

  lemma FlattenAppend(batches: seq<seq<int>>, batch: seq<int>)
    ensures Flatten(batches + [batch]) == Flatten(batches) + batch
  {
    assert (batches + [batch])[..|batches|] == batches;
  }

  /** A batch that was taken without the confirmation arriving is sent again. */
  lemma UnconfirmedBatchIsSentTwice() returns (labels: seq<Label>)
    ensures Run(labels).accepted == [[1], [1]] && Run(labels).log == [1]
  {
    hide Run, Batch;
    StartOfRun();
    SmallBatches();
    labels := Also([], Log(0));
    labels := Also(labels, Spawn);
    assert Run(labels) == State([1], 1, 0, [Idle], []);
    labels := Also(labels, ReadCursor(0));
    labels := Also(labels, ReadBatch(0, 500));
    labels := Also(labels, Deliver(0, Unconfirmed));
    assert Run(labels) == State([1], 1, 0, [Idle], [[1]]);
    labels := Also(labels, ReadCursor(0));
    labels := Also(labels, ReadBatch(0, 500));
    labels := Also(labels, Deliver(0, Confirmed));
  }
}
