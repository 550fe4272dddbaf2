/** The audit trail as the program keeps it: the events and audit_checkpoints tables,
    and the procedures that append to them and re-walk them. */
module AuditTrail {
  import opened Common
  import opened AuditChain
  import opened AuditTampering

  datatype AuditResult = AuditResult(totalEvents: nat, verifiedEvents: nat, legacyEvents: nat, intact: bool,
                                     brokenAtId: Option<int>, truncated: bool)

  class Trail {
    const h: Digest
    var events: seq<Event>
    /** The highest id ever given out (AUTOINCREMENT). */
    var lastId: int
    var checkpoints: seq<Checkpoint>

    /** What the primary key guarantees of the rows read in id order. */
    ghost predicate Valid()
      reads this
    {
      IdsIncrease(events) && forall e | e in events :: e.id <= lastId
    }

    constructor (h: Digest)
      ensures Valid() && this.h == h && events == [] && checkpoints == []
    {
      this.h := h;
      events := [];
      lastId := 0;
      checkpoints := [];
    }

    /** `log_event`: append one row linked to the last one. */
    method LogEvent(timestamp: string, eventType: string, sourceIp: Option<string>, detail: string, actionTaken: string)
      requires Valid()
      modifies this`events, this`lastId
      ensures Valid() && lastId == old(lastId) + 1
      ensures events == Logged(h, old(events), lastId, Fields(timestamp, eventType, sourceIp, detail, actionTaken))
      ensures |events| == |old(events)| + 1 && var e := events[|old(events)|];
                && e.fields.timestamp == timestamp && e.fields.eventType == eventType && e.fields.sourceIp == sourceIp
                && e.fields.detail == detail && e.fields.actionTaken == actionTaken && e.prevHash.Some?
                && e.entryHash == Some(h(JoinedText(e.prevHash.value, e.fields)))
    {
      ghost var link := LoggedInPlainTerms(h, events, lastId + 1, Fields(timestamp, eventType, sourceIp, detail, actionTaken));
      var prevHash := GENESIS;
      if events != [] {
        var last := events[|events| - 1].entryHash;
        if last.Some? && last.value != "" {
          prevHash := last.value;
        }
      }
      var fields := Fields(timestamp, eventType, sourceIp, detail, actionTaken);
      var entryHash := EntryHash(h, prevHash, fields);
      lastId := lastId + 1;
      events := events + [Event(lastId, fields, Some(prevHash), Some(entryHash))];
    }

    /** `verify_chain`: one pass over the rows, then the latest checkpoint. */
    method VerifyChain() returns (r: AuditResult)
      requires Valid()
      ensures r.totalEvents == |events|
      ensures Intact(h, events) ==>
                && r.brokenAtId == None
                && r.verifiedEvents == HashedCount(events) && r.legacyEvents == |events| - HashedCount(events)
                && (r.truncated <==> checkpoints != [] && !Anchored(events, checkpoints[|checkpoints| - 1]))
                && (r.intact <==> !r.truncated)
      ensures forall k: nat | BreaksAt(h, events, k) ::
                && r.brokenAtId == Some(events[k].id) && !r.intact && !r.truncated
                && r.verifiedEvents == HashedCount(events[..k]) && r.legacyEvents == k - HashedCount(events[..k])
      ensures r.brokenAtId == None <==> Intact(h, events)
    {
      hide Tip, HashedCount, Intact, IntactTo, BreaksAt, SeenMatches, Anchored, EntryHash, Repeat;
      var prevHash := GENESIS;
      var verified, legacy := 0, 0;
      var seen: map<int, string> := map[];
      var i := 0;
      WalkStarts(h, events);
      while i < |events|
        invariant 0 <= i <= |events| && verified == HashedCount(events[..i]) && legacy == i - verified
        invariant prevHash == Tip(events[..i]) && IntactTo(h, events, i)
        invariant SeenMatches(events, i, seen)
      {
        var row := events[i];
        TipStep(events, i);
        CountStep(events, i);
        IntactNext(h, events, i);
        SeenMatchesNext(events, i, seen);
        if row.entryHash.None? {
          legacy := legacy + 1;
        } else {
          var expected := EntryHash(h, prevHash, row.fields);
          if row.prevHash != Some(prevHash) || row.entryHash != Some(expected) {
            BreakIsUnique(h, events, i);
            return AuditResult(|events|, verified, legacy, false, Some(row.id), false);
          }
          seen := seen[row.id := row.entryHash.value];
          prevHash := row.entryHash.value;
          verified := verified + 1;
        }
        i := i + 1;
      }
      assert events[..i] == events;
      IntactNeverBreaks(h, events);
      var truncated := false;
      if checkpoints != [] {
        var ck := checkpoints[|checkpoints| - 1];
        SeenMeansAnchored(events, seen, ck);
        truncated := ck.lastEventId !in seen || seen[ck.lastEventId] != ck.lastEntryHash;
      }
      return AuditResult(|events|, verified, legacy, !truncated, None, truncated);
    }

    /** `create_checkpoint`: anchor the last hashed row; `sent` is the outcome of the
        notification. Without hashed rows nothing is written. */
    method CreateCheckpoint(sent: bool) returns (created: bool)
      requires Valid()
      modifies this`checkpoints
      ensures created <==> HashedCount(events) > 0
      ensures !created ==> checkpoints == old(checkpoints)
      ensures created ==> |checkpoints| == |old(checkpoints)| + 1
      ensures created ==> checkpoints[..|old(checkpoints)|] == old(checkpoints)
      ensures created ==> var ck := checkpoints[|checkpoints| - 1];
                TakenFrom(ck, events) && ck.eventCount == |events| && ck.sentExternally == sent
    {
      var hashedRows := HashedRows(events);
      ghost var i := LastHashedRow(events);
      if hashedRows == [] { return false; }
      var last := hashedRows[|hashedRows| - 1];
      var ck := Checkpoint(|events|, last.id, last.entryHash.value, sent);
      checkpoints := checkpoints + [ck];
      return true;
    }
  }
}
