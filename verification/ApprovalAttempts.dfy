/** How many confirmation codes can be tried on an action when confirm calls overlap. */
module ApprovalAttempts {
  import opened Text
  import opened PendingActions
  import opened ApprovalInterleaving

  /** The step compares a wrong code with that of pending row `id`. */
  predicate ComparesWrong(s: State, l: Label, id: int) {
    && l.Advance? && l.n < |s.calls| && s.calls[l.n].ConfirmRead? && s.calls[l.n].id == id
    && id in s.table && s.table[id].status == Pending && !CodeMatches(s.calls[l.n].code, s.table[id].code)
  }

  /** The number of wrong codes compared for an action in a run. */
  function WrongCodes(labels: seq<Label>, id: int): nat {
    if labels == [] then 0
    else
      var front := labels[..|labels| - 1];
      WrongCodes(front, id) + (if ComparesWrong(Run(front), labels[|labels| - 1], id) then 1 else 0)
  }

  /** Calls that have compared a wrong code and not yet counted it, or not yet locked. */
  function Uncounted(s: State, id: int): nat {
    multiset(s.calls)[ConfirmMiscount(id)]
  }

  function Locking(s: State, id: int): nat {
    multiset(s.calls)[ConfirmLock(id)]
  }

  /** Every wrong code is counted or still in hand, and a pending row is at most four wrong
      codes from the start, or some call is about to lock it. */
  predicate CodesAccounted(s: State, id: int, wrong: nat) {
    && AttemptsOf(s.table, id) + Uncounted(s, id) == wrong
    && (id !in s.table ==> wrong == 0)
    && (id in s.table && s.table[id].status == Pending ==>
          s.table[id].failedAttempts < MAX_FAILED_ATTEMPTS + Locking(s, id))
  }

  /** Replacing one call changes the two numbers by that call only. */
  lemma Recount(s: State, u: State, n: nat, id: int)
    requires n < |s.calls| && |u.calls| == |s.calls| && u.calls == s.calls[n := u.calls[n]]
    ensures var c, d := s.calls[n], u.calls[n];
            && Uncounted(u, id) + (if c == ConfirmMiscount(id) then 1 else 0)
               == Uncounted(s, id) + (if d == ConfirmMiscount(id) then 1 else 0)
            && Locking(u, id) + (if c == ConfirmLock(id) then 1 else 0)
               == Locking(s, id) + (if d == ConfirmLock(id) then 1 else 0)
            && (c == ConfirmMiscount(id) ==> Uncounted(s, id) >= 1)
  {
    var c, d := s.calls[n], u.calls[n];
    assert c in s.calls;
    assert multiset(s.calls[n := d]) == multiset(s.calls) - multiset{c} + multiset{d};
  }

  lemma AdvanceAccounts(s: State, n: nat, ok: bool, order: seq<int>, id: int, wrong: nat)
    requires CodesAccounted(s, id, wrong) && n < |s.calls| && CallIsSound(s.table, s.calls[n])
    ensures CodesAccounted(Advanced(s, n, ok, order), id,
                           wrong + if ComparesWrong(s, Advance(n, ok, order), id) then 1 else 0)
  {
    hide Uncounted, Locking, CodeMatches, Lists, Overdue;
    var u := Advanced(s, n, ok, order);
    assert u.calls == s.calls[n := u.calls[n]];
    Recount(s, u, n, id);
  }

  lemma {:induction false} RunAccounts(labels: seq<Label>, id: int)
    ensures CodesAccounted(Run(labels), id, WrongCodes(labels, id))
  {
    hide CodesAccounted, WrongCodes;
    if labels == [] {
      NothingToAccount(id);
    } else {
      var front, l := labels[..|labels| - 1], labels[|labels| - 1];
      RunAccounts(front, id);
      RunKeepsInv(front);
      WrongCodesNext(front, l, id);
      assert labels == front + [l];
      if l.Advance? && l.n < |Run(front).calls| {
        assert Run(front).calls[l.n] in Run(front).calls;
        AdvanceAccounts(Run(front), l.n, l.ok, l.order, id, WrongCodes(front, id));
      } else {
        OtherStepsAccount(Run(front), l, id, WrongCodes(front, id));
      }
    }
  }

  lemma NothingToAccount(id: int)
    ensures CodesAccounted(INIT, id, 0) && WrongCodes([], id) == 0
  {}

  lemma WrongCodesNext(front: seq<Label>, l: Label, id: int)
    ensures WrongCodes(front + [l], id) == WrongCodes(front, id) + if ComparesWrong(Run(front), l, id) then 1 else 0
  {
    assert (front + [l])[..|front|] == front;
  }

  lemma OtherStepsAccount(s: State, l: Label, id: int, wrong: nat)
    requires Inv(s) && CodesAccounted(s, id, wrong) && !(l.Advance? && l.n < |s.calls|)
    ensures CodesAccounted(Step(s, l), id, wrong) && !ComparesWrong(s, l, id)
  {
    if l.Begin? && IsEntry(l.call) { assert multiset(s.calls + [l.call]) == multiset(s.calls) + multiset{l.call}; }
  }

  /** The confirm call is in progress on `id`. */
  predicate Confirms(c: Call, id: int) {
    match c
    case ConfirmRead(i, _) => i == id
    case ConfirmMiscount(i) => i == id
    case ConfirmLock(i) => i == id
    case ConfirmClaim(i, _, _) => i == id
    case ConfirmRecheck(i) => i == id
    case ConfirmExpire(i) => i == id
    case ConfirmRun(i, _, _, _) => i == id
    case ConfirmFinish(i, _) => i == id
    case _ => false
  }

  function Confirming(calls: seq<Call>, id: int): nat {
    if calls == [] then 0
    else Confirming(calls[..|calls| - 1], id) + (if Confirms(calls[|calls| - 1], id) then 1 else 0)
  }

  lemma {:induction false} WaitingCallsConfirm(calls: seq<Call>, id: int)
    ensures multiset(calls)[ConfirmMiscount(id)] + multiset(calls)[ConfirmLock(id)] <= Confirming(calls, id)
  {
    if calls != [] {
      var front, last := calls[..|calls| - 1], calls[|calls| - 1];
      WaitingCallsConfirm(front, id);
      assert calls == front + [last];
      assert multiset(calls) == multiset(front) + multiset{last};
    }
  }

  /** Never more than `p` confirm calls for the action are in progress at once. */
  ghost predicate Overlap(labels: seq<Label>, id: int, p: nat) {
    forall k | 0 <= k <= |labels| :: Confirming(Run(labels[..k]).calls, id) <= p
  }

  lemma OverlapOfPrefix(labels: seq<Label>, l: Label, id: int, p: nat)
    requires Overlap(labels + [l], id, p)
    ensures Overlap(labels, id, p) && Confirming(Run(labels + [l]).calls, id) <= p
  {
    hide Confirming;
    forall k | 0 <= k <= |labels| ensures Confirming(Run(labels[..k]).calls, id) <= p {
      assert (labels + [l])[..k] == labels[..k];
    }
    assert (labels + [l])[..|labels| + 1] == labels + [l];
  }

  /** How many codes can be tried on an action: with at most `p` confirm calls in progress at
      once, at most four plus `p` wrong codes are compared in the whole run; one after the
      other, that is five. Every call compares before any counter moves, so the number of
      failed attempts alone does not bound it. */
  lemma {:induction false} WrongCodesAreBounded(labels: seq<Label>, id: int, p: nat)
    requires Overlap(labels, id, p)
    ensures WrongCodes(labels, id) <= MAX_FAILED_ATTEMPTS - 1 + p
  {
    if labels != [] {
      var front, l := labels[..|labels| - 1], labels[|labels| - 1];
      assert labels == front + [l];
      OverlapOfPrefix(front, l, id, p);
      WrongCodesNext(front, l, id);
      if ComparesWrong(Run(front), l, id) {
        RunThenStep(front, l);
        RunAccounts(labels, id);
        WaitingCallsConfirm(Run(labels).calls, id);
      } else {
        WrongCodesAreBounded(front, id, p);
      }
    }
  }

  // ---------- the bound is reached ----------

  const ASKED := Row("t", "{}", "c", 0, Pending, 60)

  /** `r` calls have returned, `i` of the other `q` have compared a wrong code, the rest are
      about to. */
  predicate Waiting(calls: seq<Call>, r: nat, i: nat, q: nat) {
    && i <= q && |calls| == r + q
    && forall k | 0 <= k < |calls| ::
         calls[k] == if k < r then Returned else if k < r + i then ConfirmMiscount(1) else ConfirmRead(1, "x")
  }

  lemma {:induction false} WaitingCount(calls: seq<Call>, r: nat, i: nat, q: nat)
    requires Waiting(calls, r, i, q)
    ensures Confirming(calls, 1) == q
  {
    if calls != [] {
      WaitingCount(calls[..|calls| - 1], if q > 0 then r else r - 1, if q > i then i else if q > 0 then i - 1 else 0,
                   if q > 0 then q - 1 else 0);
    }
  }

  /** A run so far: the action has `a` failed attempts and is pending, and `wrong` wrong codes
      were compared. */
  ghost predicate Reached(labels: seq<Label>, r: nat, i: nat, q: nat, a: nat, p: nat) {
    var s := Run(labels);
    && s.table == map[1 := ASKED.(failedAttempts := a)] && Waiting(s.calls, r, i, q)
    && WrongCodes(labels, 1) == a + i && Overlap(labels, 1, p)
  }

  lemma OverlapNext(labels: seq<Label>, l: Label, id: int, p: nat)
    requires Overlap(labels, id, p) && Confirming(Run(labels + [l]).calls, id) <= p
    ensures Overlap(labels + [l], id, p)
  {
    hide Confirming;
    forall k | 0 <= k <= |labels| + 1 ensures Confirming(Run((labels + [l])[..k]).calls, id) <= p {
      if k <= |labels| { assert (labels + [l])[..k] == labels[..k]; } else { assert (labels + [l])[..k] == labels + [l]; }
    }
  }

  lemma WrongCodeIsWrong()
    ensures !CodeMatches("x", "c")
  {
    assert Strip("x") == "x";
    assert Lower("x")[0] == 'x' && Lower("c")[0] == 'c';
  }

  /** One more call begins. */
  lemma Begins(labels: seq<Label>, r: nat, q: nat, a: nat, p: nat) returns (more: seq<Label>)
    requires Reached(labels, r, 0, q, a, p) && q < p
    ensures Reached(more, r, 0, q + 1, a, p)
  {
    hide Run, Overlap, WrongCodes, Confirming;
    var l := Begin(ConfirmRead(1, "x"));
    more := Also(labels, l);
    WrongCodesNext(labels, l, 1);
    WaitingCount(Run(more).calls, r, 0, q + 1);
    OverlapNext(labels, l, 1, p);
  }

  /** One more waiting call compares its code. */
  lemma Compares(labels: seq<Label>, r: nat, i: nat, q: nat, a: nat, p: nat) returns (more: seq<Label>)
    requires Reached(labels, r, i, q, a, p) && i < q <= p
    ensures Reached(more, r, i + 1, q, a, p)
  {
    hide Run, Overlap, WrongCodes, Confirming, CodeMatches;
    var l := Advance(r + i, true, []);
    WrongCodeIsWrong();
    more := Also(labels, l);
    WrongCodesNext(labels, l, 1);
    WaitingCount(Run(more).calls, r, i + 1, q);
    OverlapNext(labels, l, 1, p);
  }

  /** A single call counts its wrong code and returns. */
  lemma Counts(labels: seq<Label>, r: nat, a: nat, p: nat) returns (more: seq<Label>)
    requires Reached(labels, r, 1, 1, a, p) && a + 1 < MAX_FAILED_ATTEMPTS
    ensures Reached(more, r + 1, 0, 0, a + 1, p)
  {
    hide Run, Overlap, WrongCodes, Confirming, CodeMatches;
    var l := Advance(r, true, []);
    more := Also(labels, l);
    WrongCodesNext(labels, l, 1);
    WaitingCount(Run(more).calls, r + 1, 0, 0);
    OverlapNext(labels, l, 1, p);
  }

  lemma Asks(p: nat) returns (labels: seq<Label>)
    ensures Reached(labels, 0, 0, 0, 0, p)
  {
    var l := Create("t", "{}", "c", 60);
    labels := [l];
    assert labels[..0] == [] && labels[..1] == labels;
    assert Run(labels) == Step(INIT, l);
    assert WrongCodes(labels, 1) == WrongCodes([], 1) + 0;
  }

  /** The bound is exact: with `p` calls at once, four plus `p` wrong codes can be compared. */
  lemma WrongCodesBoundIsReached(p: nat) returns (labels: seq<Label>)
    requires p > 0
    ensures Overlap(labels, 1, p) && WrongCodes(labels, 1) == MAX_FAILED_ATTEMPTS - 1 + p
  {
    hide Reached;
    labels := Asks(p);
    var a := 0;
    while a < MAX_FAILED_ATTEMPTS - 1
      invariant 0 <= a <= MAX_FAILED_ATTEMPTS - 1 && Reached(labels, a, 0, 0, a, p)
    {
      labels := Begins(labels, a, 0, a, p);
      labels := Compares(labels, a, 0, 1, a, p);
      labels := Counts(labels, a, a, p);
      a := a + 1;
    }
    var q := 0;
    while q < p
      invariant 0 <= q <= p && Reached(labels, a, 0, q, a, p)
    {
      labels := Begins(labels, a, q, a, p);
      q := q + 1;
    }
    var i := 0;
    while i < p
      invariant 0 <= i <= p && Reached(labels, a, i, p, a, p)
    {
      labels := Compares(labels, a, i, p, a, p);
      i := i + 1;
    }
    WhatIsReached(labels, a, p, p, a, p);
  }

  lemma WhatIsReached(labels: seq<Label>, r: nat, i: nat, q: nat, a: nat, p: nat)
    requires Reached(labels, r, i, q, a, p)
    ensures Overlap(labels, 1, p) && WrongCodes(labels, 1) == a + i
  {}
}
