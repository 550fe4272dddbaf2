/** What moves the SIEM cursor back: the history of the writes that overlap. */
module SiemCursor {
  import opened Common
  import opened EventQueue
  import opened SiemInterleaving

  /** The step stores the end of a delivered batch. */
  predicate Writes(s: State, l: Label) {
    l.WriteCursor? && l.n < |s.forwarders| && s.forwarders[l.n].Acknowledged? && s.forwarders[l.n].batch != []
  }

  /** Forwarder `n` reads the cursor. */
  predicate Reads(s: State, l: Label, n: nat) {
    l == ReadCursor(n) && n < |s.forwarders| && s.forwarders[n].Idle?
  }

  function BatchEnd(batch: seq<int>): int
    requires batch != []
  {
    batch[|batch| - 1]
  }

  /** What was last written to the cursor since forwarder `n` read it, if anything. */
  function WrittenSince(labels: seq<Label>, n: nat): Option<int> {
    if labels == [] then None
    else
      var front, l := labels[..|labels| - 1], labels[|labels| - 1];
      var s := Run(front);
      if Reads(s, l, n) then None
      else if Writes(s, l) then Some(BatchEnd(s.forwarders[l.n].batch))
      else WrittenSince(front, n)
  }

  /** The cursor as a forwarder's history tells it. */
  predicate CursorIsTold(s: State, n: nat, written: Option<int>) {
    n < |s.forwarders| ==>
      match s.forwarders[n]
      case Idle => true
      case HasCursor(last) => s.cursor == (if written.Some? then written.value else last)
      case HasBatch(last, batch) =>
        s.cursor == (if written.Some? then written.value else last) && batch != [] && last < BatchEnd(batch)
      case Acknowledged(batch) =>
        batch != [] && (if written.Some? then s.cursor == written.value else s.cursor < BatchEnd(batch))
  }

  function WrittenNext(s: State, l: Label, n: nat, written: Option<int>): Option<int> {
    if Reads(s, l, n) then None
    else if Writes(s, l) then Some(BatchEnd(s.forwarders[l.n].batch))
    else written
  }

  lemma StepIsTold(s: State, l: Label, n: nat, written: Option<int>)
    requires IsLog(s.log, s.lastId) && CursorIsTold(s, n, written)
    ensures CursorIsTold(Step(s, l), n, WrittenNext(s, l, n, written))
  {
    hide Batch, IsLog;
    if l.ReadBatch? && l.n < |s.forwarders| && s.forwarders[l.n].HasCursor? {
      BatchEndsBeyond(s, s.forwarders[l.n].last, l.limit);
    }
  }

  lemma BatchEndsBeyond(s: State, cursor: int, limit: nat)
    requires IsLog(s.log, s.lastId)
    ensures var batch := Batch(s.log, cursor, limit); batch != [] ==> cursor < BatchEnd(batch)
  {
    BatchIsAnInterval(s.log, cursor, limit);
  }

  lemma {:induction false} RunIsTold(labels: seq<Label>, n: nat)
    ensures CursorIsTold(Run(labels), n, WrittenSince(labels, n))
  {
    hide CursorIsTold, IsLog;
    if labels == [] {
      NobodyReads(n);
    } else {
      var front := labels[..|labels| - 1];
      RunIsTold(front, n);
      RunKeepsInv(front);
      StepIsTold(Run(front), labels[|labels| - 1], n, WrittenSince(front, n));
    }
  }

  lemma NobodyReads(n: nat)
    ensures CursorIsTold(Run([]), n, None)
  {}

  /** Exactly when a step moves the cursor back, over every interleaving: a forwarder writes
      the end of its batch, another one has written since it read the cursor, and what was
      written last lies beyond that batch. */
  lemma StepMovesBackIff(labels: seq<Label>, l: Label)
    ensures var s := Run(labels);
            Step(s, l).cursor < s.cursor <==>
              Writes(s, l)
              && var written := WrittenSince(labels, l.n);
                 written.Some? && written.value > BatchEnd(s.forwarders[l.n].batch)
  {
    hide Run, WrittenSince, Batch;
    if l.WriteCursor? { RunIsTold(labels, l.n); }
  }

  /** A forwarder reads the cursor only while no other one is between its read and its write. */
  ghost predicate NoOverlap(labels: seq<Label>) {
    forall k | 0 <= k < |labels| :: ReadsAlone(Run(labels[..k]), labels[k])
  }

  predicate ReadsAlone(s: State, l: Label) {
    l.ReadCursor? && Reads(s, l, l.n) ==> OthersIdle(s, l.n)
  }

  predicate OthersIdle(s: State, n: nat) {
    forall m | 0 <= m < |s.forwarders| && m != n :: s.forwarders[m].Idle?
  }

  /** At most one forwarder is busy, and nobody has written since it read. */
  ghost predicate OneBusy(labels: seq<Label>) {
    var s := Run(labels);
    forall n: nat | n < |s.forwarders| && !s.forwarders[n].Idle? :: OthersIdle(s, n) && WrittenSince(labels, n) == None
  }

  lemma NextIsOneBusy(labels: seq<Label>, l: Label)
    requires OneBusy(labels) && ReadsAlone(Run(labels), l)
    ensures OneBusy(labels + [l])
  {
    hide Run, Batch;
    var longer, s := labels + [l], Run(labels);
    var u := AlsoRun(labels, l);
    forall n: nat | n < |u.forwarders| && !u.forwarders[n].Idle?
      ensures OthersIdle(u, n) && WrittenSince(longer, n) == None
    {
      assert longer[..|labels|] == labels;
      if !Reads(s, l, n) {
        assert n < |s.forwarders| && !s.forwarders[n].Idle? && OthersIdle(s, n);
        assert l.ReadCursor? && l.n != n ==> !Reads(s, l, l.n);
        assert !Writes(s, l);
      }
    }
  }

  lemma AlsoRun(labels: seq<Label>, l: Label) returns (u: State)
    ensures u == Run(labels + [l]) == Step(Run(labels), l)
  {
    var longer := Also(labels, l);
    u := Run(longer);
  }

  lemma {:induction false} NoOverlapIsOneBusy(labels: seq<Label>)
    requires NoOverlap(labels)
    ensures OneBusy(labels)
  {
    if labels != [] {
      var front, l := labels[..|labels| - 1], labels[|labels| - 1];
      FrontNoOverlap(labels);
      NoOverlapIsOneBusy(front);
      NextIsOneBusy(front, l);
      assert labels == front + [l];
    }
  }

  lemma FrontNoOverlap(labels: seq<Label>)
    requires labels != [] && NoOverlap(labels)
    ensures NoOverlap(labels[..|labels| - 1])
    ensures ReadsAlone(Run(labels[..|labels| - 1]), labels[|labels| - 1])
  {
    var front := labels[..|labels| - 1];
    forall k | 0 <= k < |front| ensures ReadsAlone(Run(front[..k]), front[k]) {
      assert front[..k] == labels[..k] && front[k] == labels[k];
    }
  }

  /** However many forwarders there are and however deliveries end, the cursor never moves
      back as long as their calls do not overlap. */
  lemma {:induction false} CursorIsMonotone(labels: seq<Label>, m: nat)
    requires NoOverlap(labels) && m <= |labels|
    ensures Run(labels[..m]).cursor <= Run(labels).cursor
    decreases |labels|
  {
    if m == |labels| {
      assert labels[..m] == labels;
    } else {
      var front, l := labels[..|labels| - 1], labels[|labels| - 1];
      FrontNoOverlap(labels);
      CursorIsMonotone(front, m);
      assert front[..m] == labels[..m];
      NoOverlapIsOneBusy(front);
      StepMovesBackIff(front, l);
    }
  }
}
