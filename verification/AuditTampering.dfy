/** What the walk reports of a table that was tampered with, row by row, and what a checkpoint
    adds to it. */
module AuditTampering {
  import opened Common
  import opened AuditChain

  // ---------- locating a tampered row ----------

  /** The walk stops at one row at most, and at none when the chain is intact. */
  lemma BreakIsUnique(h: Digest, rows: seq<Event>, i: nat)
    requires i < |rows| && IntactTo(h, rows, i) && !Consistent(h, Tip(rows[..i]), rows[i])
    ensures !Intact(h, rows) && forall k: nat :: BreaksAt(h, rows, k) <==> k == i
  {
    hide Tip, Consistent;
  }

  lemma IntactNeverBreaks(h: Digest, rows: seq<Event>)
    requires IntactTo(h, rows, |rows|)
    ensures Intact(h, rows) && forall k: nat :: !BreaksAt(h, rows, k)
  {
    hide Tip, Consistent;
  }

  /** Either the chain is intact or there is a first offending row. */
  lemma {:induction false} IntactOrBreaks(h: Digest, rows: seq<Event>, n: nat) returns (k: nat)
    requires n <= |rows|
    ensures IntactTo(h, rows, n) || (k < n && BreaksAt(h, rows, k))
  {
    k := 0;
    while k < n
      invariant k <= n && IntactTo(h, rows, k)
    {
      if !Consistent(h, Tip(rows[..k]), rows[k]) { return; }
      k := k + 1;
    }
  }

  /** The first hashed row at or after position `from`, or the length of the table. */
  function NextHashed(rows: seq<Event>, from: nat): (m: nat)
    requires from <= |rows|
    ensures from <= m <= |rows|
    ensures m < |rows| ==> rows[m].entryHash.Some?
    ensures forall i | from <= i < m :: rows[i].entryHash.None?
    decreases |rows| - from
  {
    if from == |rows| || rows[from].entryHash.Some? then from else NextHashed(rows, from + 1)
  }

  /** From positions with the same tip on, equal rows are walked alike. */
  lemma {:induction false} SameTipsSameWalk(h: Digest, a: seq<Event>, i: nat, b: seq<Event>, n: nat)
    requires i <= |a| && n <= |b| && a[i..] == b[n..] && Tip(a[..i]) == Tip(b[..n])
    requires Intact(h, a) && IntactTo(h, b, n)
    ensures Intact(h, b)
    decreases |a| - i
  {
    hide Tip, Consistent;
    if i < |a| {
      assert a[i] == a[i..][0] == b[n..][0] == b[n];
      IntactAt(h, a, i);
      IntactNext(h, b, n);
      TipStep(a, i);
      TipStep(b, n);
      assert a[i + 1..] == a[i..][1..] == b[n..][1..] == b[n + 1..];
      SameTipsSameWalk(h, a, i + 1, b, n + 1);
    } else {
      assert |a[i..]| == 0 == |b[n..]|;
    }
  }

  /** From positions with different tips on, equal rows are reported at the first hashed one,
      and not at all when there is none. */
  lemma OtherTipIsReported(h: Digest, a: seq<Event>, i: nat, b: seq<Event>, n: nat)
    requires i <= |a| && n <= |b| && a[i..] == b[n..] && Tip(a[..i]) != Tip(b[..n])
    requires Intact(h, a) && IntactTo(h, b, n)
    ensures var m := NextHashed(a, i); if m < |a| then BreaksAt(h, b, n + m - i) else Intact(h, b)
  {
    hide Tip, Consistent, IntactTo;
    var m := NextHashed(a, i);
    assert |a| - i == |a[i..]| == |b[n..]| == |b| - n;
    forall t | n <= t < |b| ensures b[t] == a[i + t - n] {
      assert b[t] == b[n..][t - n] == a[i..][t - n];
    }
    IntactToOfIntact(h, a, i);
    LegacyStretch(h, a, i, m);
    LegacyStretch(h, b, n, n + m - i);
    if m < |a| {
      IntactAt(h, a, m);
      OneTipOnly(h, Tip(a[..m]), Tip(b[..n + m - i]), a[m]);
    }
  }

  /** Rows `i..j` of a table replaced by others. */
  function Spliced(rows: seq<Event>, i: nat, j: nat, mid: seq<Event>): seq<Event>
    requires i <= j <= |rows|
  {
    rows[..i] + mid + rows[j..]
  }

  /** Replacing any stretch of an intact table by any rows: a stretch that does not check is
      reported inside; one that checks and ends in another tip is reported at the next hashed
      row behind it; and exactly when it ends in the same tip, or no hashed row is left
      behind it, nothing is reported. */
  lemma SpliceIsLocated(h: Digest, rows: seq<Event>, i: nat, j: nat, mid: seq<Event>)
    requires Intact(h, rows) && i <= j <= |rows|
    ensures var after, n, m := Spliced(rows, i, j, mid), i + |mid|, NextHashed(rows, j);
            && n <= |after| && after[..i] == rows[..i] && IntactTo(h, after, i)
            && (!IntactTo(h, after, n) ==> exists k: nat :: i <= k < n && BreaksAt(h, after, k))
            && (IntactTo(h, after, n) && Tip(after[..n]) != Tip(rows[..j]) && m < |rows| ==> BreaksAt(h, after, n + m - j))
            && (IntactTo(h, after, n) && (Tip(after[..n]) == Tip(rows[..j]) || m == |rows|) ==> Intact(h, after))
  {
    hide Tip, Consistent, IntactTo, Intact, BreaksAt;
    var after, n := Spliced(rows, i, j, mid), i + |mid|;
    assert after[..i] == rows[..i] && after[n..] == rows[j..];
    IntactToOfIntact(h, rows, i);
    SamePrefixSameWalk(h, rows, after, i);
    if !IntactTo(h, after, n) {
      var k := IntactOrBreaks(h, after, n);
      BreaksAfter(h, after, i, k);
    } else if Tip(after[..n]) == Tip(rows[..j]) {
      SameTipsSameWalk(h, rows, j, after, n);
    } else {
      OtherTipIsReported(h, rows, j, after, n);
    }
  }

  lemma BreaksAfter(h: Digest, rows: seq<Event>, n: nat, k: nat)
    requires n <= |rows| && IntactTo(h, rows, n) && BreaksAt(h, rows, k)
    ensures n <= k
  {
    hide Tip, Consistent;
  }

  /** The tip after a row. */
  function TipAfter(prev: string, e: Event): string {
    if e.entryHash.Some? then e.entryHash.value else prev
  }

  /** A stretch of one row. */
  lemma OneRow(h: Digest, rows: seq<Event>, i: nat, j: nat, e: Event)
    requires Intact(h, rows) && i <= j <= |rows|
    ensures var after := Spliced(rows, i, j, [e]);
            && (IntactTo(h, after, i + 1) <==> Consistent(h, Tip(rows[..i]), e))
            && Tip(after[..i + 1]) == TipAfter(Tip(rows[..i]), e)
            && (!Consistent(h, Tip(rows[..i]), e) ==> BreaksAt(h, after, i))
  {
    hide Tip, Consistent;
    var after := Spliced(rows, i, j, [e]);
    assert after[..i] == rows[..i] && after[i] == e;
    SamePrefixSameWalk(h, rows, after, i);
    IntactNext(h, after, i);
    TipStep(after, i);
  }

  /** Rewriting any row of an intact table in any of its columns: a row that does not check is
      reported right there; one that checks and leaves another tip is reported at the next
      hashed row; otherwise, and only then, nothing is reported. Keeping a hash takes a
      payload with the same digest. */
  lemma AlteredRowIsLocated(h: Digest, rows: seq<Event>, k: nat, e: Event)
    requires Intact(h, rows) && k < |rows|
    ensures var after, m, prev := rows[k := e], NextHashed(rows, k + 1), Tip(rows[..k]);
            var checks, kept := Consistent(h, prev, e), TipAfter(prev, e) == TipAfter(prev, rows[k]);
            && (!checks ==> BreaksAt(h, after, k))
            && (checks && !kept && m < |rows| ==> BreaksAt(h, after, m))
            && (checks && (kept || m == |rows|) ==> Intact(h, after))
            && (checks && kept && e.entryHash.Some? && rows[k].entryHash.Some? ==>
                  EntryHash(h, prev, e.fields) == EntryHash(h, prev, rows[k].fields))
  {
    hide Tip, Intact, IntactTo, BreaksAt, EntryHash;
    assert rows[k := e] == Spliced(rows, k, k + 1, [e]);
    OneRow(h, rows, k, k + 1, e);
    SpliceIsLocated(h, rows, k, k + 1, [e]);
    TipStep(rows, k);
    IntactAt(h, rows, k);
  }

  /** Stripping a hashed row of its hash is reported at the next hashed row exactly when there
      is one, short of a broken hash: the last hashed row can be made legacy, and then
      rewritten, without a report. */
  lemma StrippedRowIsLocated(h: Digest, rows: seq<Event>, k: nat, e: Event)
    requires IsHexDigest(h) && Intact(h, rows) && k < |rows| && rows[k].entryHash.Some? && e.entryHash.None?
    ensures var after, m := rows[k := e], NextHashed(rows, k + 1);
            if m < |rows| then BreaksAt(h, after, m) || HashBroken(h, rows, rows) else Intact(h, after)
  {
    hide Tip, Intact, IntactTo, BreaksAt, HashBroken;
    AlteredRowIsLocated(h, rows, k, e);
    TipStep(rows, k);
    if Tip(rows[..k]) == Tip(rows[..k + 1]) { RepeatedTip(h, rows, k); }
  }

  /** Rewriting a row without a hash, hash columns aside, is never reported. */
  lemma LegacyRowIsUnprotected(h: Digest, rows: seq<Event>, k: nat, e: Event)
    requires Intact(h, rows) && k < |rows| && rows[k].entryHash.None? && e.entryHash.None?
    ensures Intact(h, rows[k := e])
  {
    AlteredRowIsLocated(h, rows, k, e);
  }

  /** Inserting a row anywhere: reported at that row when it does not check, at the next
      hashed row when it checks and moves the tip, and otherwise never: when it carries no
      hash, or when no hashed row follows. A hashed row that checks without moving the tip
      exposes the digest. */
  lemma InsertedRowIsLocated(h: Digest, rows: seq<Event>, k: nat, e: Event)
    requires IsHexDigest(h) && Intact(h, rows) && k <= |rows|
    ensures var after, m, prev := Spliced(rows, k, k, [e]), NextHashed(rows, k), Tip(rows[..k]);
            var checks, moves := Consistent(h, prev, e), e.entryHash.Some? && e.entryHash.value != prev;
            && (!checks ==> BreaksAt(h, after, k))
            && (checks && moves && m < |rows| ==> BreaksAt(h, after, m + 1))
            && (checks && (!moves || m == |rows|) ==> Intact(h, after))
            && (e.entryHash.None? ==> Intact(h, after))
            && (checks && !moves && e.entryHash.Some? ==> HashBroken(h, after, after))
  {
    hide Tip, Intact, IntactTo, BreaksAt, EntryHash, HashBroken;
    var after := Spliced(rows, k, k, [e]);
    OneRow(h, rows, k, k, e);
    SpliceIsLocated(h, rows, k, k, [e]);
    if Consistent(h, Tip(rows[..k]), e) && e.entryHash == Some(Tip(rows[..k])) { RepeatedTip(h, after, k); }
  }

  /** Nor is replacing a whole tail by rows that are logged anew, whatever they say. */
  lemma RecomputedTailIsUnreported(h: Digest, rows: seq<Event>, i: nat, calls: seq<LogCall>)
    requires IsHexDigest(h) && Intact(h, rows) && LegacyFirst(rows) && i <= |rows|
    ensures var after := LoggedAll(h, rows[..i], calls);
            Intact(h, after) && i <= |after| && after == Spliced(rows, i, |rows|, after[i..])
  {
    hide Intact, Tip;
    IntactToOfIntact(h, rows, i);
    IntactPrefix(h, rows, i);
    LoggingRunStaysIntact(h, rows[..i], calls);
    var after := LoggedAll(h, rows[..i], calls);
    assert after == after[..i] + after[i..] && after[..i] == rows[..i];
  }

  /** Rewriting only the hashed columns of a row is reported at that row exactly when the
      digest of the new payload differs; otherwise both payloads are a collision or equal. */
  lemma AlteredPayloadIsReportedIff(h: Digest, rows: seq<Event>, k: nat, f: Fields)
    requires Intact(h, rows) && k < |rows| && rows[k].entryHash.Some?
    ensures var after := rows[k := rows[k].(fields := f)];
            var tip := Tip(rows[..k]);
            && (BreaksAt(h, after, k) <==> h(Payload(tip, f)) != h(Payload(tip, rows[k].fields)))
            && (!BreaksAt(h, after, k) ==> Intact(h, after))
  {
    hide Tip, IntactTo;
    var e := rows[k].(fields := f);
    AlteredRowIsLocated(h, rows, k, e);
    IntactAt(h, rows, k);
    if Intact(h, rows[k := e]) { IntactNeverBreaks(h, rows[k := e]); }
  }

  /** Deleting a row: a hashed one that is not the last hashed one is reported at the next
      hashed row, or the table itself exhibits a collision or a preimage of GENESIS; any
      other deletion is never reported. */
  lemma DeletedRowIsLocated(h: Digest, rows: seq<Event>, k: nat)
    requires IsHexDigest(h) && Intact(h, rows) && k < |rows|
    ensures var after, m := Spliced(rows, k, k + 1, []), NextHashed(rows, k + 1);
            if rows[k].entryHash.Some? && m < |rows| then BreaksAt(h, after, m - 1) || HashBroken(h, rows, rows)
            else Intact(h, after)
  {
    hide Tip, Intact, IntactTo, BreaksAt, HashBroken, Spliced, Consistent, NextHashed;
    SpliceIsLocated(h, rows, k, k + 1, []);
    TipStep(rows, k);
    if rows[k].entryHash.Some? && Tip(rows[..k]) == Tip(rows[..k + 1]) { RepeatedTip(h, rows, k); }
  }

  /** A hashed row that leaves the tip unchanged exposes the digest. */
  lemma RepeatedTip(h: Digest, rows: seq<Event>, k: nat)
    requires IsHexDigest(h) && Intact(h, rows) && k < |rows| && rows[k].entryHash.Some?
    requires Tip(rows[..k]) == Tip(rows[..k + 1])
    ensures HashBroken(h, rows, rows)
  {
    IntactPrefix(h, rows, k);
    IntactPrefix(h, rows, k + 1);
    SameTipSamePayloads(h, rows[..k], rows[..k + 1]);
    assert rows[..k + 1][..k] == rows[..k];
    HashBrokenOfPrefixes(h, rows, k, rows, k + 1);
  }

  // ---------- checkpoints ----------

  /** `ck` was taken from table `t`: it names `t`'s last hashed row. */
  ghost predicate TakenFrom(ck: Checkpoint, t: seq<Event>) {
    exists i :: 0 <= i < |t| && NextHashed(t, i + 1) == |t| && ck.lastEventId == t[i].id
                && t[i].entryHash == Some(ck.lastEntryHash)
  }

  /** Checkpoint binding: an intact table that still carries the anchor contains everything
      the anchored table had hashed, in the same order. */
  lemma CheckpointBinding(h: Digest, t: seq<Event>, now: seq<Event>, ck: Checkpoint)
    requires IsHexDigest(h) && Intact(h, t) && Intact(h, now)
    requires TakenFrom(ck, t) && Anchored(now, ck)
    ensures Payloads(t) <= Payloads(now) || HashBroken(h, t, now)
  {
    hide HashBroken, Intact, Payloads, HashedFields, NextHashed;
    var i :| 0 <= i < |t| && NextHashed(t, i + 1) == |t| && ck.lastEventId == t[i].id
             && t[i].entryHash == Some(ck.lastEntryHash);
    var j :| 0 <= j < |now| && now[j].id == ck.lastEventId && now[j].entryHash == Some(ck.lastEntryHash);
    ChainBinding(h, t, i, now, j);
    PayloadsSkipLegacy(t, i + 1);
    PayloadsOfPrefix(now, j + 1);
  }

  lemma {:induction false} PayloadsSkipLegacy(rows: seq<Event>, n: nat)
    requires n <= |rows| && forall i | n <= i < |rows| :: rows[i].entryHash.None?
    ensures Payloads(rows) == Payloads(rows[..n])
    decreases |rows|
  {
    if n == |rows| {
      assert rows[..n] == rows;
    } else {
      var before := rows[..|rows| - 1];
      PayloadsSkipLegacy(before, n);
      assert before[..n] == rows[..n];
    }
  }

  /** An anchor survives everything that only appends. */
  lemma AnchorSurvivesAppending(rows: seq<Event>, after: seq<Event>, ck: Checkpoint)
    requires rows <= after && Anchored(rows, ck)
    ensures Anchored(after, ck)
  {
    var i :| 0 <= i < |rows| && rows[i].id == ck.lastEventId && rows[i].entryHash == Some(ck.lastEntryHash);
    assert after[i] == rows[i];
  }

  /** Cutting off a tail that contains the anchored row always loses the anchor, although
      what is left is an intact chain. */
  lemma TruncationLosesAnchor(h: Digest, t: seq<Event>, ck: Checkpoint, n: nat)
    requires IdsIncrease(t) && Intact(h, t) && n <= |t|
    requires exists i :: n <= i < |t| && t[i].id == ck.lastEventId
    ensures Intact(h, t[..n]) && !Anchored(t[..n], ck)
  {
    IntactPrefix(h, t, n);
  }
}
