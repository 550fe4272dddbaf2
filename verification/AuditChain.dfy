/** The audit hash chain as values: event rows, the hashed payload, the walk that
    re-checks the chain, and what two chains that end in the same hash have in common.

    The digest is a parameter `h` of which only the length of a SHA-256 hex digest is
    used. Nothing is assumed about collisions: every binding theorem says "the tables
    agree, or the tables themselves exhibit a collision or a preimage of GENESIS". */
module AuditChain {
  import opened Common

  const HASH_LENGTH: nat := 64
  /** `c * n`. */
  function Repeat(c: char, n: nat): (s: string)
    ensures |s| == n && forall i | 0 <= i < n :: s[i] == c
  {
    if n == 0 then "" else Repeat(c, n - 1) + [c]
  }

  const GENESIS: string := Repeat('0', HASH_LENGTH)

  /** The columns of an event that enter the hash. */
  datatype Fields = Fields(timestamp: string, eventType: string, sourceIp: Option<string>,
                           detail: string, actionTaken: string)

  /** One row of the events table; `entryHash` is NULL for rows older than the chain. */
  datatype Event = Event(id: int, fields: Fields, prevHash: Option<string>, entryHash: Option<string>)

  datatype Checkpoint = Checkpoint(eventCount: nat, lastEventId: int, lastEntryHash: string, sentExternally: bool)

  type Digest = string -> string

  ghost predicate IsHexDigest(h: Digest) {
    forall x :: |h(x)| == HASH_LENGTH
  }

  // ---------- the hashed payload ----------

  /** `source_ip or ""`. */
  function IpText(ip: Option<string>): string {
    if ip.Some? then ip.value else ""
  }

  /** The payload after the previous hash. */
  function Record(f: Fields): string {
    f.timestamp + "|" + (f.eventType + "|" + (IpText(f.sourceIp) + "|" + (f.detail + "|" + f.actionTaken)))
  }

  function Payload(prev: string, f: Fields): string {
    prev + "|" + Record(f)
  }

  function EntryHash(h: Digest, prev: string, f: Fields): string {
    h(Payload(prev, f))
  }

  // ---------- the walk ----------

  /** The hash that the next hashed row must link to: `prev_hash` after walking `rows`. */
  function Tip(rows: seq<Event>): string {
    if rows == [] then GENESIS
    else
      var last := rows[|rows| - 1];
      if last.entryHash.Some? then last.entryHash.value else Tip(rows[..|rows| - 1])
  }

  function HashedCount(rows: seq<Event>): (n: nat)
    ensures n <= |rows|
  {
    if rows == [] then 0
    else HashedCount(rows[..|rows| - 1]) + (if rows[|rows| - 1].entryHash.Some? then 1 else 0)
  }

  /** A row passes the walk: it is legacy, or both of its hash columns are the expected ones. */
  predicate Consistent(h: Digest, prev: string, e: Event) {
    e.entryHash.Some? ==> e.prevHash == Some(prev) && e.entryHash == Some(EntryHash(h, prev, e.fields))
  }

  ghost predicate IntactTo(h: Digest, rows: seq<Event>, n: nat)
    requires n <= |rows|
  {
    forall k | 0 <= k < n :: Consistent(h, Tip(rows[..k]), rows[k])
  }

  ghost predicate Intact(h: Digest, rows: seq<Event>) {
    IntactTo(h, rows, |rows|)
  }

  /** `k` is the row at which the walk stops with a violation. */
  ghost predicate BreaksAt(h: Digest, rows: seq<Event>, k: nat) {
    k < |rows| && IntactTo(h, rows, k) && !Consistent(h, Tip(rows[..k]), rows[k])
  }

  /** Checkpoint lookup: some row still carries the anchored id and hash. */
  ghost predicate Anchored(rows: seq<Event>, ck: Checkpoint) {
    exists i :: 0 <= i < |rows| && rows[i].id == ck.lastEventId && rows[i].entryHash == Some(ck.lastEntryHash)
  }

  predicate IdsIncrease(rows: seq<Event>) {
    forall i, j | 0 <= i < j < |rows| :: rows[i].id < rows[j].id
  }

  /** The dictionary of the walk after `n` rows: id to entry hash of every hashed row. */
  ghost predicate SeenMatches(rows: seq<Event>, n: nat, seen: map<int, string>)
    requires n <= |rows|
  {
    && (forall id :: id in seen ==> exists j :: 0 <= j < n && rows[j].id == id && rows[j].entryHash == Some(seen[id]))
    && (forall j | 0 <= j < n && rows[j].entryHash.Some? :: rows[j].id in seen)
  }

  lemma SeenMatchesNext(rows: seq<Event>, n: nat, seen: map<int, string>)
    requires n < |rows| && IdsIncrease(rows) && SeenMatches(rows, n, seen)
    ensures rows[n].entryHash.Some? ==> SeenMatches(rows, n + 1, seen[rows[n].id := rows[n].entryHash.value])
    ensures rows[n].entryHash.None? ==> SeenMatches(rows, n + 1, seen)
  {}

  lemma SeenMeansAnchored(rows: seq<Event>, seen: map<int, string>, ck: Checkpoint)
    requires IdsIncrease(rows) && SeenMatches(rows, |rows|, seen)
    ensures Anchored(rows, ck) <==> ck.lastEventId in seen && seen[ck.lastEventId] == ck.lastEntryHash
  {}

  function HashedRows(rows: seq<Event>): seq<Event> {
    if rows == [] then []
    else
      var before := HashedRows(rows[..|rows| - 1]);
      if rows[|rows| - 1].entryHash.Some? then before + [rows[|rows| - 1]] else before
  }

  /** The filter's last element is the table's last hashed row, found at position `i`. */
  lemma {:induction false} LastHashedRow(rows: seq<Event>) returns (i: nat)
    ensures |HashedRows(rows)| == HashedCount(rows)
    ensures HashedRows(rows) != [] ==>
              && i < |rows| && rows[i].entryHash.Some? && (forall j | i < j < |rows| :: rows[j].entryHash.None?)
              && rows[i] == HashedRows(rows)[|HashedRows(rows)| - 1]
  {
    i := 0;
    if rows != [] {
      var n := |rows| - 1;
      i := LastHashedRow(rows[..n]);
      if rows[n].entryHash.Some? {
        i := n;
      } else {
        forall j | i < j < n ensures rows[j] == rows[..n][j] {}
      }
    }
  }

  // ---------- the walk in plain terms ----------

  /** What is hashed for a row: the previous hash and the five columns, joined by bars. */
  function JoinedText(prev: string, f: Fields): string {
    prev + "|" + f.timestamp + "|" + f.eventType + "|" + (if f.sourceIp.Some? then f.sourceIp.value else "")
    + "|" + f.detail + "|" + f.actionTaken
  }

  lemma PayloadIsJoined(prev: string, f: Fields)
    ensures Payload(prev, f) == JoinedText(prev, f)
  {
    var tail := f.detail + "|" + f.actionTaken;
    var ip := IpText(f.sourceIp);
    var start := prev + "|" + f.timestamp + "|" + f.eventType + "|";
    assert start + ip + "|" + f.detail + "|" + f.actionTaken == start + (ip + "|" + tail);
    assert start + (ip + "|" + tail) == prev + "|" + (f.timestamp + "|" + (f.eventType + "|" + (ip + "|" + tail)));
    assert ip + "|" + tail == ip + ("|" + tail);
  }

  predicate IsGenesis(s: string) {
    |s| == 64 && forall i | 0 <= i < 64 :: s[i] == '0'
  }

  /** `prev` is the hash of the last hashed row before row `k`, or GENESIS when there is none. */
  predicate Precedes(rows: seq<Event>, k: nat, prev: string)
    requires k <= |rows|
  {
    || (IsGenesis(prev) && forall i | 0 <= i < k :: rows[i].entryHash == None)
    || exists j :: 0 <= j < k && rows[j].entryHash == Some(prev) && forall i | j < i < k :: rows[i].entryHash == None
  }

  lemma {:induction false} TipPrecedes(rows: seq<Event>, k: nat)
    requires k <= |rows|
    ensures Precedes(rows, k, Tip(rows[..k]))
  {
    if k > 0 {
      TipStep(rows, k - 1);
      TipPrecedes(rows, k - 1);
      if rows[k - 1].entryHash.Some? { assert rows[k - 1].entryHash == Some(Tip(rows[..k])); }
    }
  }

  lemma PrecedesOnlyOne(rows: seq<Event>, k: nat, p: string, q: string)
    requires k <= |rows| && Precedes(rows, k, p) && Precedes(rows, k, q)
    ensures p == q
  {
    if IsGenesis(p) && IsGenesis(q) { assert p == q; }
  }

  /** Exactly which tables verify: every hashed row names the hash of the hashed row before it
      (64 zeros for the first) and carries the digest of that hash and its own columns. */
  lemma IntactIff(h: Digest, rows: seq<Event>)
    ensures Intact(h, rows) <==>
            forall k, prev | 0 <= k < |rows| && rows[k].entryHash.Some? && Precedes(rows, k, prev) ::
              rows[k].prevHash == Some(prev) && rows[k].entryHash == Some(h(JoinedText(prev, rows[k].fields)))
  {
    hide Tip, Precedes, JoinedText, Payload;
    forall k | 0 <= k < |rows|
      ensures Precedes(rows, k, Tip(rows[..k]))
      ensures Payload(Tip(rows[..k]), rows[k].fields) == JoinedText(Tip(rows[..k]), rows[k].fields)
    {
      TipPrecedes(rows, k);
      PayloadIsJoined(Tip(rows[..k]), rows[k].fields);
    }
    forall k, prev | 0 <= k < |rows| && Precedes(rows, k, prev) ensures prev == Tip(rows[..k]) {
      PrecedesOnlyOne(rows, k, prev, Tip(rows[..k]));
    }
  }

  /** The walk's counter counts the rows with a hash. */
  lemma {:induction false} CountIsCardinality(rows: seq<Event>)
    ensures HashedCount(rows) == |set i | 0 <= i < |rows| && rows[i].entryHash != None|
  {
    if rows != [] {
      var n := |rows| - 1;
      CountIsCardinality(rows[..n]);
      var before := set i | 0 <= i < n && rows[..n][i].entryHash != None;
      var all := set i | 0 <= i < |rows| && rows[i].entryHash != None;
      assert all == before + if rows[n].entryHash != None then {n} else {};
      assert n !in before;
    }
  }

  // ---------- what a chain commits to ----------

  /** The payloads that were hashed, oldest first, each with the hash it links to. */
  function Payloads(rows: seq<Event>): seq<string> {
    if rows == [] then []
    else
      var before := rows[..|rows| - 1];
      var last := rows[|rows| - 1];
      if last.entryHash.Some? then Payloads(before) + [Payload(Tip(before), last.fields)] else Payloads(before)
  }

  /** The fields of the hashed rows, oldest first. */
  function HashedFields(rows: seq<Event>): seq<Fields> {
    if rows == [] then []
    else
      var before := HashedFields(rows[..|rows| - 1]);
      if rows[|rows| - 1].entryHash.Some? then before + [rows[|rows| - 1].fields] else before
  }

  ghost predicate CollisionAmong(h: Digest, xs: seq<string>, ys: seq<string>) {
    exists x, y :: x in xs && y in ys && x != y && h(x) == h(y)
  }

  ghost predicate GenesisPreimageAmong(h: Digest, xs: seq<string>) {
    exists x :: x in xs && h(x) == GENESIS
  }

  /** The two tables contain, between them, a collision of `h` or a preimage of GENESIS. */
  ghost predicate HashBroken(h: Digest, a: seq<Event>, b: seq<Event>) {
    || CollisionAmong(h, Payloads(a), Payloads(b))
    || GenesisPreimageAmong(h, Payloads(a))
    || GenesisPreimageAmong(h, Payloads(b))
  }

  lemma {:induction false} PayloadsOfPrefix(rows: seq<Event>, n: nat)
    requires n <= |rows|
    ensures Payloads(rows[..n]) <= Payloads(rows)
    ensures HashedFields(rows[..n]) <= HashedFields(rows)
  {
    if n == |rows| {
      assert rows[..n] == rows;
    } else {
      var before := rows[..|rows| - 1];
      PayloadsOfPrefix(before, n);
      assert before[..n] == rows[..n];
    }
  }

  lemma HashBrokenOfPrefixes(h: Digest, a: seq<Event>, m: nat, b: seq<Event>, n: nat)
    requires m <= |a| && n <= |b|
    requires HashBroken(h, a[..m], b[..n])
    ensures HashBroken(h, a, b)
  {
    PayloadsOfPrefix(a, m);
    PayloadsOfPrefix(b, n);
    var xs, ys := Payloads(a[..m]), Payloads(b[..n]);
    assert forall x :: x in xs ==> x in Payloads(a);
    assert forall y :: y in ys ==> y in Payloads(b);
  }

  lemma IntactPrefix(h: Digest, rows: seq<Event>, n: nat)
    requires n <= |rows| && IntactTo(h, rows, n)
    ensures Intact(h, rows[..n])
  {
    forall k | 0 <= k < n
      ensures Consistent(h, Tip(rows[..n][..k]), rows[..n][k])
    {
      assert rows[..n][..k] == rows[..k];
    }
  }

  lemma IntactToOfIntact(h: Digest, rows: seq<Event>, n: nat)
    requires Intact(h, rows) && n <= |rows|
    ensures IntactTo(h, rows, n)
  {
    hide Tip, Consistent;
  }

  /** The walk's step for the tip. */
  lemma TipStep(rows: seq<Event>, k: nat)
    requires k < |rows|
    ensures Tip(rows[..k + 1]) == if rows[k].entryHash.Some? then rows[k].entryHash.value else Tip(rows[..k])
  {
    assert rows[..k + 1][..k] == rows[..k];
  }

  lemma CountStep(rows: seq<Event>, k: nat)
    requires k < |rows|
    ensures HashedCount(rows[..k + 1]) == HashedCount(rows[..k]) + if rows[k].entryHash.Some? then 1 else 0
  {
    assert rows[..k + 1][..k] == rows[..k];
  }

  /** The walk of a prefix depends on that prefix only. */
  lemma SamePrefixSameWalk(h: Digest, a: seq<Event>, b: seq<Event>, n: nat)
    requires n <= |a| && n <= |b| && a[..n] == b[..n] && IntactTo(h, a, n)
    ensures IntactTo(h, b, n)
  {
    hide Tip, Consistent;
    forall i | 0 <= i < n ensures Consistent(h, Tip(b[..i]), b[i]) {
      assert a[..i] == a[..n][..i] == b[..i];
      assert a[i] == a[..n][i] == b[i];
      assert Consistent(h, Tip(a[..i]), a[i]);
    }
  }

  lemma IntactNext(h: Digest, rows: seq<Event>, n: nat)
    requires n < |rows| && IntactTo(h, rows, n)
    ensures IntactTo(h, rows, n + 1) <==> Consistent(h, Tip(rows[..n]), rows[n])
  {
    hide Tip, Consistent;
  }

  lemma IntactAt(h: Digest, rows: seq<Event>, k: nat)
    requires Intact(h, rows) && k < |rows|
    ensures Consistent(h, Tip(rows[..k]), rows[k])
  {
    hide Tip, Consistent;
  }

  /** A hashed row passes after one tip only. */
  lemma OneTipOnly(h: Digest, p: string, q: string, e: Event)
    requires e.entryHash.Some? && Consistent(h, p, e) && p != q
    ensures !Consistent(h, q, e)
  {}

  lemma WalkStarts(h: Digest, rows: seq<Event>)
    ensures Tip(rows[..0]) == GENESIS && HashedCount(rows[..0]) == 0
    ensures IntactTo(h, rows, 0) && SeenMatches(rows, 0, map[])
  {}

  /** Legacy rows pass the walk and keep the tip. */
  lemma {:induction false} LegacyStretch(h: Digest, rows: seq<Event>, n: nat, m: nat)
    requires n <= m <= |rows| && IntactTo(h, rows, n)
    requires forall i | n <= i < m :: rows[i].entryHash.None?
    ensures IntactTo(h, rows, m) && Tip(rows[..m]) == Tip(rows[..n])
  {
    if n < m {
      LegacyStretch(h, rows, n, m - 1);
      TipStep(rows, m - 1);
      IntactNext(h, rows, m - 1);
    }
  }

  /** What the chain's tip is: GENESIS before any hashed row, otherwise the digest of the
      last payload. */
  lemma {:induction false} TipOfIntact(h: Digest, rows: seq<Event>)
    requires IsHexDigest(h) && Intact(h, rows)
    ensures |Tip(rows)| == HASH_LENGTH
    ensures |Payloads(rows)| == |HashedFields(rows)| == HashedCount(rows)
    ensures Tip(rows) == if Payloads(rows) == [] then GENESIS else h(Payloads(rows)[|Payloads(rows)| - 1])
  {
    if rows != [] {
      var n := |rows| - 1;
      IntactPrefix(h, rows, n);
      TipOfIntact(h, rows[..n]);
      assert Consistent(h, Tip(rows[..n]), rows[n]);
    }
  }

  lemma PayloadIsUnambiguous(p: string, f: Fields, q: string, g: Fields)
    requires |p| == |q| == HASH_LENGTH
    requires Payload(p, f) == Payload(q, g)
    ensures p == q && Record(f) == Record(g)
  {
    var x := Payload(p, f);
    assert p == x[..HASH_LENGTH] && q == x[..HASH_LENGTH];
    assert Record(f) == x[HASH_LENGTH + 1..] && Record(g) == x[HASH_LENGTH + 1..];
  }

  /** Chain binding: two intact tables with the same tip hashed the same payloads. */
  lemma {:induction false} SameTipSamePayloads(h: Digest, a: seq<Event>, b: seq<Event>)
    requires IsHexDigest(h) && Intact(h, a) && Intact(h, b)
    requires Tip(a) == Tip(b)
    ensures Payloads(a) == Payloads(b) || HashBroken(h, a, b)
    decreases |a| + |b|
  {
    TipOfIntact(h, a);
    TipOfIntact(h, b);
    if a == [] || b == [] {
    } else {
      var m, n := |a| - 1, |b| - 1;
      IntactPrefix(h, a, m);
      IntactPrefix(h, b, n);
      if a[m].entryHash.None? {
        SameTipSamePayloads(h, a[..m], b);
        assert b == b[..|b|];
        if HashBroken(h, a[..m], b) { HashBrokenOfPrefixes(h, a, m, b, |b|); }
      } else if b[n].entryHash.None? {
        SameTipSamePayloads(h, a, b[..n]);
        assert a == a[..|a|];
        if HashBroken(h, a, b[..n]) { HashBrokenOfPrefixes(h, a, |a|, b, n); }
      } else {
        SameLastHash(h, a, b);
      }
    }
  }

  lemma {:induction false} SameLastHash(h: Digest, a: seq<Event>, b: seq<Event>)
    requires IsHexDigest(h) && Intact(h, a) && Intact(h, b)
    requires a != [] && b != [] && a[|a| - 1].entryHash.Some? && b[|b| - 1].entryHash.Some?
    requires Tip(a) == Tip(b)
    ensures Payloads(a) == Payloads(b) || HashBroken(h, a, b)
    decreases |a| + |b|, 0
  {
    var m, n := |a| - 1, |b| - 1;
    IntactPrefix(h, a, m);
    IntactPrefix(h, b, n);
    TipOfIntact(h, a[..m]);
    TipOfIntact(h, b[..n]);
    assert Consistent(h, Tip(a[..m]), a[m]) && Consistent(h, Tip(b[..n]), b[n]);
    var x, y := Payload(Tip(a[..m]), a[m].fields), Payload(Tip(b[..n]), b[n].fields);
    assert Payloads(a)[|Payloads(a)| - 1] == x && Payloads(b)[|Payloads(b)| - 1] == y;
    if x == y {
      PayloadIsUnambiguous(Tip(a[..m]), a[m].fields, Tip(b[..n]), b[n].fields);
      SameTipSamePayloads(h, a[..m], b[..n]);
      if HashBroken(h, a[..m], b[..n]) { HashBrokenOfPrefixes(h, a, m, b, n); }
    } else {
      assert h(x) == h(y);
    }
  }

  /** Chain binding, row form: if two intact tables agree on the entry hash of some hashed
      row, then up to that row they hashed the same payloads, in number and order. */
  lemma ChainBinding(h: Digest, a: seq<Event>, i: nat, b: seq<Event>, j: nat)
    requires IsHexDigest(h) && Intact(h, a) && Intact(h, b)
    requires i < |a| && j < |b| && a[i].entryHash.Some? && a[i].entryHash == b[j].entryHash
    ensures Payloads(a[..i + 1]) == Payloads(b[..j + 1]) || HashBroken(h, a, b)
  {
    IntactPrefix(h, a, i + 1);
    IntactPrefix(h, b, j + 1);
    SameTipSamePayloads(h, a[..i + 1], b[..j + 1]);
    if HashBroken(h, a[..i + 1], b[..j + 1]) { HashBrokenOfPrefixes(h, a, i + 1, b, j + 1); }
  }

  // ---------- from payloads to fields ----------

  /** The number of separators in a text. */
  function Bars(s: string): nat {
    if s == [] then 0 else (if s[0] == '|' then 1 else 0) + Bars(s[1..])
  }

  lemma {:induction false} BarsOfConcat(s: string, t: string)
    ensures Bars(s + t) == Bars(s) + Bars(t)
  {
    if s == [] {
      assert s + t == t;
    } else {
      assert (s + t)[1..] == s[1..] + t;
      BarsOfConcat(s[1..], t);
    }
  }

  lemma {:induction false} BarsIsCardinality(s: string)
    ensures Bars(s) == |set i | 0 <= i < |s| && s[i] == '|'|
    decreases |s|
  {
    if s != [] {
      var n := |s| - 1;
      var front := s[..n];
      BarsIsCardinality(front);
      LastBar(s);
      var before := set i | 0 <= i < n && front[i] == '|';
      var all := set i | 0 <= i < |s| && s[i] == '|';
      assert all == before + if s[n] == '|' then {n} else {};
      assert n !in before;
    }
  }

  lemma LastBar(s: string)
    requires s != []
    ensures Bars(s) == Bars(s[..|s| - 1]) + if s[|s| - 1] == '|' then 1 else 0
  {
    var front, last := s[..|s| - 1], [s[|s| - 1]];
    assert s == front + last;
    BarsOfConcat(front, last);
    assert last[1..] == [];
  }

  lemma EmptyPrefix(x: string, r: string, y: string, s: string)
    requires x + "|" + r == y + "|" + s
    ensures x == [] ==> y == [] || y[0] == '|'
  {
    if x == [] && y != [] { assert y[0] == (y + "|" + s)[0] == (x + "|" + r)[0]; }
  }

  /** Splitting after a known number of separators is unambiguous. */
  lemma {:induction false} SplitIsUnambiguous(x: string, r: string, y: string, s: string)
    requires x + "|" + r == y + "|" + s && Bars(x) == Bars(y)
    ensures x == y && r == s
  {
    var whole := x + "|" + r;
    if x != [] && y != [] {
      assert x[0] == whole[0] == y[0];
      assert x[1..] + "|" + r == whole[1..] == y[1..] + "|" + s;
      SplitIsUnambiguous(x[1..], r, y[1..], s);
      assert x == [x[0]] + x[1..] && y == [y[0]] + y[1..];
    } else if x == [] && y == [] {
      assert r == whole[1..] == s;
    } else {
      EmptyPrefix(x, r, y, s);
      EmptyPrefix(y, s, x, r);
      assert false;
    }
  }

  predicate SameFields(f: Fields, g: Fields) {
    && f.timestamp == g.timestamp && f.eventType == g.eventType && IpText(f.sourceIp) == IpText(g.sourceIp)
    && f.detail == g.detail && f.actionTaken == g.actionTaken
  }

  predicate SameBars(f: Fields, g: Fields) {
    && Bars(f.timestamp) == Bars(g.timestamp) && Bars(f.eventType) == Bars(g.eventType)
    && Bars(IpText(f.sourceIp)) == Bars(IpText(g.sourceIp)) && Bars(f.actionTaken) == Bars(g.actionTaken)
  }

  /** No separator outside `detail`. */
  predicate SeparatorFree(f: Fields) {
    Bars(f.timestamp) == 0 && Bars(f.eventType) == 0 && Bars(IpText(f.sourceIp)) == 0 && Bars(f.actionTaken) == 0
  }

  /** Exactly when the joined record determines the fields: the separators must be
      distributed the same way. A missing address and an empty one stay identified. */
  lemma RecordDeterminesFieldsIff(f: Fields, g: Fields)
    requires Record(f) == Record(g)
    ensures SameFields(f, g) <==> SameBars(f, g)
  {
    if SameBars(f, g) {
      var f1, g1 := f.detail + "|" + f.actionTaken, g.detail + "|" + g.actionTaken;
      var f2, g2 := IpText(f.sourceIp) + "|" + f1, IpText(g.sourceIp) + "|" + g1;
      var f3, g3 := f.eventType + "|" + f2, g.eventType + "|" + g2;
      SplitIsUnambiguous(f.timestamp, f3, g.timestamp, g3);
      SplitIsUnambiguous(f.eventType, f2, g.eventType, g2);
      SplitIsUnambiguous(IpText(f.sourceIp), f1, IpText(g.sourceIp), g1);
      BarsOfConcat(f.detail + "|", f.actionTaken);
      BarsOfConcat(f.detail, "|");
      BarsOfConcat(g.detail + "|", g.actionTaken);
      BarsOfConcat(g.detail, "|");
      SplitIsUnambiguous(f.detail, f.actionTaken, g.detail, g.actionTaken);
    }
  }

  /** Without a condition on the separators the record does not determine the fields. */
  lemma RecordIsAmbiguous() returns (f: Fields, g: Fields)
    ensures Record(f) == Record(g) && f.detail != g.detail && f.actionTaken != g.actionTaken
  {
    f := Fields("t", "e", None, "x|y", "");
    g := Fields("t", "e", None, "x", "y|");
    assert f.detail + "|" + f.actionTaken == "x|y|" == g.detail + "|" + g.actionTaken;
  }

  lemma SeparatorFreeRecords(f: Fields, g: Fields)
    requires Record(f) == Record(g) && SeparatorFree(f) && SeparatorFree(g)
    ensures SameFields(f, g)
  {
    RecordDeterminesFieldsIff(f, g);
  }

  lemma {:induction false} PayloadsCarryRecords(h: Digest, rows: seq<Event>)
    requires IsHexDigest(h) && Intact(h, rows)
    ensures |Payloads(rows)| == |HashedFields(rows)|
    ensures forall k | 0 <= k < |Payloads(rows)| ::
              |Payloads(rows)[k]| > HASH_LENGTH && Payloads(rows)[k][HASH_LENGTH + 1..] == Record(HashedFields(rows)[k])
  {
    if rows != [] {
      var n := |rows| - 1;
      IntactPrefix(h, rows, n);
      TipOfIntact(h, rows[..n]);
      PayloadsCarryRecords(h, rows[..n]);
      assert Payload(Tip(rows[..n]), rows[n].fields)[HASH_LENGTH + 1..] == Record(rows[n].fields);
    }
  }

  /** Field-level binding of whole tables: equal payloads with separator-free columns mean
      equal columns, row by row. */
  lemma PayloadsDetermineFields(h: Digest, a: seq<Event>, b: seq<Event>)
    requires IsHexDigest(h) && Intact(h, a) && Intact(h, b) && Payloads(a) == Payloads(b)
    requires forall f | f in HashedFields(a) || f in HashedFields(b) :: SeparatorFree(f)
    ensures |HashedFields(a)| == |HashedFields(b)|
    ensures forall k | 0 <= k < |HashedFields(a)| :: SameFields(HashedFields(a)[k], HashedFields(b)[k])
  {
    PayloadsCarryRecords(h, a);
    PayloadsCarryRecords(h, b);
    var fs, gs := HashedFields(a), HashedFields(b);
    forall k | 0 <= k < |fs| ensures SameFields(fs[k], gs[k]) {
      assert fs[k] in fs && gs[k] in gs;
      assert Record(fs[k]) == Payloads(a)[k][HASH_LENGTH + 1..] == Record(gs[k]);
      SeparatorFreeRecords(fs[k], gs[k]);
    }
  }

  // ---------- logging ----------

  /** The hash that `log_event` links to: the last row's, or GENESIS when it has none. */
  function LinkFrom(rows: seq<Event>): string {
    if rows == [] then GENESIS
    else
      var last := rows[|rows| - 1].entryHash;
      if last.Some? && last.value != "" then last.value else GENESIS
  }

  function Logged(h: Digest, rows: seq<Event>, id: int, f: Fields): seq<Event> {
    var prev := LinkFrom(rows);
    rows + [Event(id, f, Some(prev), Some(EntryHash(h, prev, f)))]
  }

  /** What `log_event` writes: the given columns as they are, the hash of the row before (64
      zeros if that has none), and the digest of that hash and these columns. */
  lemma LoggedInPlainTerms(h: Digest, rows: seq<Event>, id: int, f: Fields) returns (prev: string)
    ensures Logged(h, rows, id, f) == rows + [Event(id, f, Some(prev), Some(h(JoinedText(prev, f))))]
    ensures if rows != [] && rows[|rows| - 1].entryHash !in {None, Some("")} then rows[|rows| - 1].entryHash == Some(prev)
            else IsGenesis(prev)
  {
    hide JoinedText, Payload;
    prev := LinkFrom(rows);
    PayloadIsJoined(prev, f);
  }

  /** Exactly when one more `log_event` keeps an intact chain intact: its last row must be
      hashed, or no row is, or the chain's tip happens to be GENESIS. A NULL-hash row after
      hashed ones restarts the chain. */
  lemma LoggingKeepsIntactIff(h: Digest, rows: seq<Event>, id: int, f: Fields)
    requires IsHexDigest(h) && Intact(h, rows)
    ensures Intact(h, Logged(h, rows, id, f)) <==>
            rows == [] || rows[|rows| - 1].entryHash.Some? || Tip(rows) == GENESIS
  {
    var n, next := |rows|, Logged(h, rows, id, f);
    assert next[..n] == rows[..n] == rows;
    SamePrefixSameWalk(h, rows, next, n);
    IntactNext(h, next, n);
    LinkIsTipIff(h, rows);
  }

  lemma LinkIsTipIff(h: Digest, rows: seq<Event>)
    requires IsHexDigest(h) && Intact(h, rows)
    ensures LinkFrom(rows) == Tip(rows) <==> rows == [] || rows[|rows| - 1].entryHash.Some? || Tip(rows) == GENESIS
  {
    TipOfIntact(h, rows);
  }

  datatype LogCall = LogCall(id: int, fields: Fields)

  function LoggedAll(h: Digest, rows: seq<Event>, calls: seq<LogCall>): seq<Event>
    decreases calls
  {
    if calls == [] then rows
    else LoggedAll(h, Logged(h, rows, calls[0].id, calls[0].fields), calls[1..])
  }

  /** Legacy rows come first: nothing without a hash follows a hashed row. */
  predicate LegacyFirst(rows: seq<Event>) {
    forall i, j | 0 <= i < j < |rows| && rows[i].entryHash.Some? :: rows[j].entryHash.Some?
  }

  lemma {:induction false} NoHashedRows(rows: seq<Event>)
    requires forall e | e in rows :: e.entryHash.None?
    ensures Tip(rows) == GENESIS && HashedCount(rows) == 0
  {
    if rows != [] { NoHashedRows(rows[..|rows| - 1]); }
  }

  /** Any number of `log_event` calls on a table whose legacy rows come first keeps the
      chain intact, and adds exactly that many verifiable rows. */
  lemma {:induction false} LoggingRunStaysIntact(h: Digest, rows: seq<Event>, calls: seq<LogCall>)
    requires IsHexDigest(h) && Intact(h, rows) && LegacyFirst(rows)
    ensures var after := LoggedAll(h, rows, calls);
            && Intact(h, after) && LegacyFirst(after) && rows <= after && |after| == |rows| + |calls|
            && HashedCount(after) == HashedCount(rows) + |calls|
    decreases calls
  {
    hide Tip, HashedCount, Intact, Repeat;
    if calls != [] {
      var c := calls[0];
      var next := Logged(h, rows, c.id, c.fields);
      if rows != [] && rows[|rows| - 1].entryHash.None? { NoHashedRows(rows); }
      LoggingKeepsIntactIff(h, rows, c.id, c.fields);
      CountStep(next, |rows|);
      assert next[..|rows|] == rows && next[..|rows| + 1] == next;
      LoggingRunStaysIntact(h, next, calls[1..]);
    }
  }
}
