/** The part of the events table that forwarding depends on: increasing ids and the query
    for the rows after a cursor. */
module EventQueue {
  predicate Increasing(log: seq<int>) {
    forall i, j | 0 <= i < j < |log| :: log[i] < log[j]
  }

  /** Ids are handed out upwards and never reused. */
  predicate IsLog(log: seq<int>, lastId: int) {
    0 <= lastId && Increasing(log) && forall id | id in log :: 0 < id <= lastId
  }

  lemma AppendKeepsLog(log: seq<int>, lastId: int, id: int)
    requires IsLog(log, lastId) && id > lastId
    ensures IsLog(log + [id], id)
  {
    forall i, j | 0 <= i < j < |log| + 1 ensures (log + [id])[i] < (log + [id])[j] {
      assert log[i] in log;
    }
  }

  /** The rows with an id above the cursor, in id order. */
  function After(log: seq<int>, cursor: int): seq<int> {
    if log == [] then []
    else if log[0] > cursor then [log[0]] + After(log[1..], cursor)
    else After(log[1..], cursor)
  }

  /** `get_events_after_id`. */
  function Batch(log: seq<int>, cursor: int, limit: nat): seq<int> {
    var rows := After(log, cursor);
    if |rows| <= limit then rows else rows[..limit]
  }

  lemma NothingLeft(cursor: int)
    ensures After([], cursor) == []
  {}

  lemma AfterStep(log: seq<int>, cursor: int)
    requires log != []
    ensures After(log, cursor) == (if log[0] > cursor then [log[0]] else []) + After(log[1..], cursor)
  {}

  /** Nothing lies after the cursor exactly when every logged id is at most the cursor. */
  lemma {:induction false} NothingAfter(log: seq<int>, cursor: int)
    ensures After(log, cursor) == [] <==> forall i | 0 <= i < |log| :: log[i] <= cursor
  {
    if log != [] {
      NothingAfter(log[1..], cursor);
      if log[0] > cursor {
        assert !(forall i | 0 <= i < |log| :: log[i] <= cursor);
      } else {
        forall i | 0 <= i < |log[1..]| ensures log[1..][i] <= cursor <==> log[i + 1] <= cursor {}
        assert (forall i | 0 <= i < |log| :: log[i] <= cursor) ==> forall i | 0 <= i < |log[1..]| :: log[1..][i] <= cursor;
        assert forall i | 1 <= i < |log| :: log[i] == log[1..][i - 1];
      }
    }
  }

  lemma AllAbove(log: seq<int>, cursor: int)
    requires Increasing(log) && log != [] && log[0] > cursor
    ensures forall i | 0 <= i < |log| :: log[i] > cursor
  {}

  /** In a log the rows after a cursor are a suffix. */
  lemma {:induction false} AfterIsSuffix(log: seq<int>, cursor: int) returns (k: nat)
    requires Increasing(log)
    ensures k <= |log| && After(log, cursor) == log[k..]
    ensures (forall i | 0 <= i < k :: log[i] <= cursor) && (forall i | k <= i < |log| :: log[i] > cursor)
  {
    hide After;
    if log == [] {
      k := 0;
      NothingLeft(cursor);
    } else {
      AfterStep(log, cursor);
      assert |log| > 1 ==> log[1..][0] == log[1];
      var j := AfterIsSuffix(log[1..], cursor);
      if log[0] > cursor {
        k := 0;
        AllAbove(log, cursor);
        assert log == [log[0]] + log[1..];
      } else {
        k := j + 1;
        assert log[1..][j..] == log[k..];
        assert forall i | 1 <= i < |log| :: log[i] == log[1..][i - 1];
      }
    }
  }

  /** In a log a batch is the slice of at most `limit` rows from the first one after the cursor. */
  lemma BatchIsSlice(log: seq<int>, cursor: int, limit: nat) returns (k: nat, n: nat)
    requires Increasing(log)
    ensures k + n <= |log| && n == (if |log| - k <= limit then |log| - k else limit) && Batch(log, cursor, limit) == log[k..k + n]
    ensures (forall i | 0 <= i < k :: log[i] <= cursor) && (forall i | k <= i < |log| :: log[i] > cursor)
  {
    hide After;
    k := AfterIsSuffix(log, cursor);
    n := |Batch(log, cursor, limit)|;
    assert log[k..][..n] == log[k..k + n];
  }

  /** A batch is exactly the rows between the cursor and the batch's last id, and it is full
      unless it takes every row after the cursor. */
  lemma BatchIsAnInterval(log: seq<int>, cursor: int, limit: nat)
    requires Increasing(log)
    ensures var b := Batch(log, cursor, limit);
            && (b != [] ==> forall id | id in log :: id in b <==> cursor < id <= b[|b| - 1])
            && (forall id | id in b :: id in log && id > cursor)
            && (b != [] ==> b[|b| - 1] in log && b[|b| - 1] > cursor)
            && |b| <= limit && (|b| < limit ==> forall id | id in log :: id in b <==> id > cursor)
            && (b == [] ==> limit == 0 || forall id | id in log :: id <= cursor)
  {
    hide Batch;
    var k, n := BatchIsSlice(log, cursor, limit);
    var b := Batch(log, cursor, limit);
    forall id | id in log ensures id in b <==> cursor < id && n > 0 && id <= log[k + n - 1] {
      var i :| 0 <= i < |log| && log[i] == id;
      InSlice(log, k, k + n, i);
    }
    forall id | id in b ensures id in log && id > cursor {
      var i :| 0 <= i < n && b[i] == id;
      assert id == log[k + i];
    }
    if n > 0 { assert b[n - 1] == log[k + n - 1]; }
    if n < limit && n > 0 { assert forall i | 0 <= i < |log| :: log[i] <= log[|log| - 1]; }
  }

  /** A row belongs to a slice of a log exactly when it lies between its ends. */
  lemma InSlice(log: seq<int>, lo: nat, hi: nat, i: nat)
    requires Increasing(log) && lo <= hi <= |log| && i < |log|
    ensures log[i] in log[lo..hi] <==> lo <= i < hi
    ensures hi > 0 ==> (log[i] <= log[hi - 1] <==> i < hi)
  {
    if lo <= i < hi { assert log[lo..hi][i - lo] == log[i]; }
    if log[i] in log[lo..hi] {
      var j :| 0 <= j < hi - lo && log[lo..hi][j] == log[i];
      assert log[lo + j] == log[i];
    }
  }

  lemma {:induction false} AfterAppend(log: seq<int>, cursor: int, id: int)
    ensures After(log + [id], cursor) == After(log, cursor) + (if id > cursor then [id] else [])
  {
    if log != [] {
      assert (log + [id])[1..] == log[1..] + [id];
      AfterAppend(log[1..], cursor, id);
    } else {
      assert After([id][1..], cursor) == [];
    }
  }

  /** Moving the cursor to the end of a batch removes exactly that batch from the queue. */
  lemma BatchThenRest(log: seq<int>, cursor: int, batch: seq<int>)
    requires Increasing(log) && batch != [] && batch <= After(log, cursor)
    ensures After(log, cursor) == batch + After(log, batch[|batch| - 1])
  {
    hide After;
    var k := AfterIsSuffix(log, cursor);
    var j := AfterIsSuffix(log, batch[|batch| - 1]);
    var m := k + |batch|;
    assert batch == log[k..m];
    assert batch[|batch| - 1] == log[m - 1];
    assert j == m by { InSlice(log, k, m, if m < |log| then m else m - 1); }
    assert log[k..] == log[k..m] + log[m..];
  }
}
