/** Logging from several processes: the SELECT of the last hash and the INSERT of the new row
    are two steps, and the lock that joins them holds within one process only. */
module AuditConcurrency {
  import opened Common
  import opened AuditChain

  /** What a process holds between its SELECT and its INSERT. */
  datatype Writer = Idle | Selected(link: string)

  datatype State = State(rows: seq<Event>, lastId: int, writers: seq<Writer>)

  /** `Abort` is an exception between the two statements. */
  datatype Label = Select(p: nat) | Insert(p: nat, fields: Fields) | Abort(p: nat)

  predicate Inserts(s: State, l: Label) {
    l.Insert? && l.p < |s.writers| && s.writers[l.p].Selected?
  }

  function Chained(h: Digest, rows: seq<Event>, id: int, link: string, f: Fields): seq<Event> {
    rows + [Event(id, f, Some(link), Some(EntryHash(h, link, f)))]
  }

  function Step(h: Digest, s: State, l: Label): State {
    match l
    case Select(p) =>
      if p < |s.writers| && s.writers[p].Idle? then s.(writers := s.writers[p := Selected(LinkFrom(s.rows))]) else s
    case Insert(p, f) =>
      if Inserts(s, l) then
        State(Chained(h, s.rows, s.lastId + 1, s.writers[p].link, f), s.lastId + 1, s.writers[p := Idle])
      else s
    case Abort(p) => if p < |s.writers| then s.(writers := s.writers[p := Idle]) else s
  }

  function Run(h: Digest, start: State, labels: seq<Label>): State {
    if labels == [] then start else Step(h, Run(h, start, labels[..|labels| - 1]), labels[|labels| - 1])
  }

  /** Every INSERT takes the next id, whoever makes it, and no other statement takes one. */
  lemma {:induction false} InsertedIds(h: Digest, start: State, labels: seq<Label>)
    ensures var s := Run(h, start, labels);
            && |start.rows| <= |s.rows| && s.rows[..|start.rows|] == start.rows
            && s.lastId == start.lastId + (|s.rows| - |start.rows|)
            && forall i | |start.rows| <= i < |s.rows| :: s.rows[i].id == start.lastId + (i - |start.rows|) + 1
  {
    hide EntryHash, LinkFrom;
    if labels != [] { InsertedIds(h, start, labels[..|labels| - 1]); }
  }

  /** The length of the table when process `p` last selected. */
  function SelectedAt(h: Digest, start: State, labels: seq<Label>, p: nat): nat {
    if labels == [] then 0
    else
      var front, l := labels[..|labels| - 1], labels[|labels| - 1];
      var s := Run(h, start, front);
      if l == Select(p) && p < |s.writers| && s.writers[p].Idle? then |s.rows| else SelectedAt(h, start, front, p)
  }

  /** Some INSERT fell between the SELECT and the INSERT of another process. */
  predicate IsInterleaved(h: Digest, start: State, labels: seq<Label>) {
    labels != [] &&
    var front, l := labels[..|labels| - 1], labels[|labels| - 1];
    var s := Run(h, start, front);
    IsInterleaved(h, start, front) || (Inserts(s, l) && SelectedAt(h, start, front, l.p) < |s.rows|)
  }

  // ---------- one INSERT ----------

  lemma {:induction false} LinkIsTip(rows: seq<Event>)
    requires LegacyFirst(rows) && forall e | e in rows :: e.entryHash.Some? ==> e.entryHash.value != ""
    ensures LinkFrom(rows) == Tip(rows)
  {
    if rows != [] && rows[|rows| - 1].entryHash.None? {
      forall e | e in rows ensures e.entryHash.None? {}
      NoHashedRows(rows);
    }
  }

  lemma HashesAreNotEmpty(h: Digest, rows: seq<Event>)
    requires IsHexDigest(h) && Intact(h, rows)
    ensures forall e | e in rows :: e.entryHash.Some? ==> e.entryHash.value != ""
  {
    hide Tip;
    forall e | e in rows && e.entryHash.Some? ensures e.entryHash.value != "" {
      var k :| 0 <= k < |rows| && rows[k] == e;
      IntactAt(h, rows, k);
    }
  }

  lemma {:induction false} HashedRowsCount(rows: seq<Event>, n: nat)
    requires n <= |rows| && forall i | n <= i < |rows| :: rows[i].entryHash.Some?
    ensures HashedCount(rows) == HashedCount(rows[..n]) + (|rows| - n)
    decreases |rows|
  {
    if n == |rows| {
      assert rows[..n] == rows;
    } else {
      var before := rows[..|rows| - 1];
      HashedRowsCount(before, n);
      assert before[..n] == rows[..n];
    }
  }

  /** Linking to what was the tip before some hashed rows came in: the chain breaks, or the
      digest does. */
  lemma LateInsertBreaks(h: Digest, rows: seq<Event>, at: nat, id: int, f: Fields)
    requires IsHexDigest(h) && Intact(h, rows) && at < |rows| && forall i | at <= i < |rows| :: rows[i].entryHash.Some?
    ensures var after := Chained(h, rows, id, Tip(rows[..at]), f); !Intact(h, after) || HashBroken(h, after, after)
  {
    hide Tip, HashBroken, Intact, Payloads, HashedFields, HashedCount;
    var n, after := |rows|, Chained(h, rows, id, Tip(rows[..at]), f);
    assert after[..n] == rows == rows[..n] && after[..at] == rows[..at];
    IntactToOfIntact(h, rows, at);
    IntactPrefix(h, rows, at);
    if Tip(rows[..at]) == Tip(rows) {
      SameTipSamePayloads(h, rows[..at], rows);
      TipOfIntact(h, rows[..at]);
      TipOfIntact(h, rows);
      HashedRowsCount(rows, at);
      HashBrokenOfPrefixes(h, after, at, after, n);
    } else if Intact(h, after) {
      IntactAt(h, after, n);
    }
  }

  /** Linking to the tip keeps everything. */
  lemma TimelyInsertKeeps(h: Digest, rows: seq<Event>, id: int, f: Fields)
    requires IsHexDigest(h) && Intact(h, rows) && LegacyFirst(rows)
    ensures var after := Chained(h, rows, id, Tip(rows), f); Intact(h, after) && LegacyFirst(after)
  {
    hide Tip, Intact;
    HashesAreNotEmpty(h, rows);
    LinkIsTip(rows);
    assert LoggedAll(h, rows, [LogCall(id, f)]) == Logged(h, rows, id, f) by {
      assert [LogCall(id, f)][1..] == [];
    }
    LoggingRunStaysIntact(h, rows, [LogCall(id, f)]);
  }

  // ---------- runs ----------

  /** What a process has selected is the tip of the table as it then was. */
  predicate WriterIsTold(s: State, p: nat, base: nat, at: nat) {
    p < |s.writers| && s.writers[p].Selected? ==>
      base <= at <= |s.rows| && s.writers[p].link == Tip(s.rows[..at])
  }

  /** The chain is unbroken, and everything since the start is hashed. */
  ghost predicate IsSound(h: Digest, s: State, base: nat) {
    && Intact(h, s.rows) && LegacyFirst(s.rows) && base <= |s.rows|
    && forall i | base <= i < |s.rows| :: s.rows[i].entryHash.Some?
  }

  function SelectedNext(s: State, l: Label, p: nat, at: nat): nat {
    if l == Select(p) && p < |s.writers| && s.writers[p].Idle? then |s.rows| else at
  }

  lemma StepIsTold(h: Digest, s: State, l: Label, p: nat, base: nat, at: nat)
    requires IsHexDigest(h) && IsSound(h, s, base) && WriterIsTold(s, p, base, at)
    ensures WriterIsTold(Step(h, s, l), p, base, SelectedNext(s, l, p, at))
  {
    hide Tip, Intact, LegacyFirst;
    var u := Step(h, s, l);
    if l == Select(p) {
      LinkOfSound(h, s, base);
      assert s.rows[..|s.rows|] == s.rows;
    }
    if Inserts(s, l) && at <= |s.rows| { assert u.rows[..at] == s.rows[..at]; }
  }

  lemma LinkOfSound(h: Digest, s: State, base: nat)
    requires IsHexDigest(h) && IsSound(h, s, base)
    ensures LinkFrom(s.rows) == Tip(s.rows)
  {
    HashesAreNotEmpty(h, s.rows);
    LinkIsTip(s.rows);
  }

  /** One step from an unbroken chain. */
  lemma StepIsSoundOrBreaks(h: Digest, s: State, l: Label, base: nat, at: nat)
    requires IsHexDigest(h) && IsSound(h, s, base) && WriterIsTold(s, l.p, base, at)
    ensures var u := Step(h, s, l);
            if Inserts(s, l) && at < |s.rows| then !Intact(h, u.rows) || HashBroken(h, u.rows, u.rows)
            else IsSound(h, u, base)
  {
    hide Tip, Intact, HashBroken, LegacyFirst;
    if Inserts(s, l) {
      if at < |s.rows| {
        LateInsertBreaks(h, s.rows, at, s.lastId + 1, l.fields);
      } else {
        assert s.rows[..at] == s.rows;
        TimelyInsertKeeps(h, s.rows, s.lastId + 1, l.fields);
      }
    }
  }

  /** What is broken stays broken. */
  lemma BrokenStays(h: Digest, s: State, l: Label)
    requires !Intact(h, s.rows) || HashBroken(h, s.rows, s.rows)
    ensures var u := Step(h, s, l); !Intact(h, u.rows) || HashBroken(h, u.rows, u.rows)
  {
    hide Intact, HashBroken;
    var u, n := Step(h, s, l), |s.rows|;
    assert u.rows[..n] == s.rows;
    if HashBroken(h, s.rows, s.rows) {
      HashBrokenOfPrefixes(h, u.rows, n, u.rows, n);
    } else if Intact(h, u.rows) {
      IntactToOfIntact(h, u.rows, n);
      IntactPrefix(h, u.rows, n);
    }
  }

  predicate Starts(start: State) {
    LegacyFirst(start.rows) && forall p | 0 <= p < |start.writers| :: start.writers[p].Idle?
  }

  lemma {:induction false} RunIsSound(h: Digest, start: State, labels: seq<Label>)
    requires IsHexDigest(h) && Intact(h, start.rows) && Starts(start)
    ensures var s := Run(h, start, labels);
            if IsInterleaved(h, start, labels) then !Intact(h, s.rows) || HashBroken(h, s.rows, s.rows)
            else IsSound(h, s, |start.rows|)
                 && forall p: nat :: WriterIsTold(s, p, |start.rows|, SelectedAt(h, start, labels, p))
  {
    hide IsSound, Intact, HashBroken, WriterIsTold, IsHexDigest;
    if labels == [] {
      StartIsSound(h, start);
    } else {
      var front, l := labels[..|labels| - 1], labels[|labels| - 1];
      var s, base := Run(h, start, front), |start.rows|;
      RunIsSound(h, start, front);
      if IsInterleaved(h, start, front) {
        BrokenStays(h, s, l);
      } else {
        StepIsSoundOrBreaks(h, s, l, base, SelectedAt(h, start, front, l.p));
        forall p: nat ensures WriterIsTold(Step(h, s, l), p, base, SelectedAt(h, start, labels, p)) {
          StepIsTold(h, s, l, p, base, SelectedAt(h, start, front, p));
        }
      }
    }
  }

  lemma StartIsSound(h: Digest, start: State)
    requires Intact(h, start.rows) && Starts(start)
    ensures IsSound(h, start, |start.rows|) && forall p: nat :: WriterIsTold(start, p, |start.rows|, 0)
  {}

  /** Exactly when logging from several processes keeps the chain intact, short of a broken
      hash: no INSERT falls between the SELECT and the INSERT of another process. Within one
      process the lock sees to that; across processes nothing does. */
  lemma ConcurrentLoggingIsIntactIff(h: Digest, start: State, labels: seq<Label>)
    requires IsHexDigest(h) && Intact(h, start.rows) && Starts(start)
    ensures var rows := Run(h, start, labels).rows;
            || (Intact(h, rows) <==> !IsInterleaved(h, start, labels))
            || HashBroken(h, rows, rows)
  {
    RunIsSound(h, start, labels);
  }

  lemma Also(h: Digest, start: State, labels: seq<Label>, l: Label) returns (longer: seq<Label>)
    ensures longer == labels + [l] && longer[..|longer| - 1] == labels && longer[|longer| - 1] == l
    ensures Run(h, start, longer) == Step(h, Run(h, start, labels), l)
  {
    longer := labels + [l];
    assert longer[..|labels|] == labels;
  }

  lemma HistoryNext(h: Digest, start: State, labels: seq<Label>, l: Label, p: nat)
    ensures var s := Run(h, start, labels);
            && SelectedAt(h, start, labels + [l], p) == SelectedNext(s, l, p, SelectedAt(h, start, labels, p))
            && (IsInterleaved(h, start, labels + [l]) <==>
                  IsInterleaved(h, start, labels) || (Inserts(s, l) && SelectedAt(h, start, labels, l.p) < |s.rows|))
  {
    assert (labels + [l])[..|labels|] == labels;
  }

  const TWO_PROCESSES := State([], 0, [Idle, Idle])

  lemma BothSelect(h: Digest) returns (labels: seq<Label>)
    ensures var link := LinkFrom([]); Run(h, TWO_PROCESSES, labels) == State([], 0, [Selected(link), Selected(link)])
    ensures SelectedAt(h, TWO_PROCESSES, labels, 1) == 0
  {
    hide Run, SelectedAt, IsInterleaved, LinkFrom;
    NothingRun(h, TWO_PROCESSES);
    var first := Also(h, TWO_PROCESSES, [], Select(0));
    assert Run(h, TWO_PROCESSES, first) == State([], 0, [Selected(LinkFrom([])), Idle]);
    labels := Also(h, TWO_PROCESSES, first, Select(1));
    HistoryNext(h, TWO_PROCESSES, first, Select(1), 1);
  }

  /** Two processes that log at the same time: the second INSERT follows the first. */
  lemma TwoProcessesInterleave(h: Digest, f: Fields, g: Fields) returns (labels: seq<Label>)
    ensures Starts(TWO_PROCESSES) && IsInterleaved(h, TWO_PROCESSES, labels)
  {
    hide Run, SelectedAt, IsInterleaved, LinkFrom, EntryHash;
    var both := BothSelect(h);
    var once := Also(h, TWO_PROCESSES, both, Insert(0, f));
    HistoryNext(h, TWO_PROCESSES, both, Insert(0, f), 1);
    labels := Also(h, TWO_PROCESSES, once, Insert(1, g));
    HistoryNext(h, TWO_PROCESSES, once, Insert(1, g), 1);
  }

  lemma NothingRun(h: Digest, start: State)
    ensures Run(h, start, []) == start
  {}
}
