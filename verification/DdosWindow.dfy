/** The sliding window of observed connections, and the split of suspects by severity. */
module DdosWindow {
  type Observation = (real, string)

  // ---------- the window ----------

  function Stamped(now: real, ips: seq<string>): seq<Observation> {
    if ips == [] then [] else [(now, ips[0])] + Stamped(now, ips[1..])
  }

  /** Drop from the front what is older than the cutoff. */
  function DropOld(samples: seq<Observation>, cutoff: real): seq<Observation> {
    if samples != [] && samples[0].0 < cutoff then DropOld(samples[1..], cutoff) else samples
  }

  function AfterSample(samples: seq<Observation>, now: real, ips: seq<string>, window: real): seq<Observation> {
    DropOld(samples + Stamped(now, ips), now - window)
  }

  function CountOf(samples: seq<Observation>, ip: string): nat {
    if samples == [] then 0 else CountOf(samples[..|samples| - 1], ip) + (if samples[|samples| - 1].1 == ip then 1 else 0)
  }

  /** The addresses in order of first appearance: the keys of the counter. */
  function Keys(samples: seq<Observation>): seq<string> {
    if samples == [] then []
    else
      var front := Keys(samples[..|samples| - 1]);
      if samples[|samples| - 1].1 in front then front else front + [samples[|samples| - 1].1]
  }

  lemma {:induction false} KeysAreCounted(samples: seq<Observation>)
    ensures forall ip :: ip in Keys(samples) <==> CountOf(samples, ip) > 0
    ensures forall i, j | 0 <= i < j < |Keys(samples)| :: Keys(samples)[i] != Keys(samples)[j]
  {
    if samples != [] { KeysAreCounted(samples[..|samples| - 1]); }
  }

  /** The counter counts the observations of an address. */
  lemma {:induction false} CountIsCardinality(samples: seq<Observation>, ip: string)
    ensures CountOf(samples, ip) == |set i | 0 <= i < |samples| && samples[i].1 == ip|
  {
    if samples != [] {
      var n := |samples| - 1;
      CountIsCardinality(samples[..n], ip);
      var before := set i | 0 <= i < n && samples[..n][i].1 == ip;
      var all := set i | 0 <= i < |samples| && samples[i].1 == ip;
      assert all == before + if samples[n].1 == ip then {n} else {};
      assert n !in before;
    }
  }

  /** A sample observes each of its addresses once, at its own time, in order. */
  lemma {:induction false} StampedAt(now: real, ips: seq<string>)
    ensures |Stamped(now, ips)| == |ips| && forall i | 0 <= i < |ips| :: Stamped(now, ips)[i] == (now, ips[i])
  {
    if ips != [] { StampedAt(now, ips[1..]); }
  }

  lemma {:induction false} StampedAppend(now: real, ips: seq<string>, ip: string)
    ensures Stamped(now, ips + [ip]) == Stamped(now, ips) + [(now, ip)]
  {
    if ips != [] {
      assert (ips + [ip])[1..] == ips[1..] + [ip];
      StampedAppend(now, ips[1..], ip);
    } else {
      assert ([ip])[1..] == [];
    }
  }

  class DdosDetector {
    const windowSeconds: real
    const threshold: int
    var samples: seq<Observation>

    constructor (windowSeconds: real, threshold: int)
      ensures this.windowSeconds == windowSeconds && this.threshold == threshold && samples == []
    {
      this.windowSeconds, this.threshold, samples := windowSeconds, threshold, [];
    }

    /** `sample`: record the connected addresses, forget what left the window, and name the
        addresses at or above the threshold. */
    method Sample(now: real, ips: seq<string>) returns (suspects: seq<string>)
      modifies this
      ensures samples == AfterSample(old(samples), now, ips, windowSeconds)
      ensures forall ip :: ip in suspects <==> CountOf(samples, ip) > 0 && CountOf(samples, ip) >= threshold
      ensures forall i, j | 0 <= i < j < |suspects| :: suspects[i] != suspects[j]
    {
      assert ips[..0] == [];
      for i := 0 to |ips|
        invariant samples == old(samples) + Stamped(now, ips[..i])
      {
        StampedAppend(now, ips[..i], ips[i]);
        assert ips[..i + 1] == ips[..i] + [ips[i]];
        samples := samples + [(now, ips[i])];
      }
      assert ips[..|ips|] == ips;
      var cutoff := now - windowSeconds;
      ghost var full := samples;
      while samples != [] && samples[0].0 < cutoff
        invariant DropOld(samples, cutoff) == DropOld(full, cutoff)
        decreases |samples|
      {
        samples := samples[1..];
      }
      var keys := Keys(samples);
      KeysAreCounted(samples);
      suspects := [];
      for i := 0 to |keys|
        invariant forall ip :: ip in suspects <==> ip in keys[..i] && CountOf(samples, ip) >= threshold
        invariant forall a, b | 0 <= a < b < |suspects| :: suspects[a] != suspects[b]
        invariant samples == AfterSample(old(samples), now, ips, windowSeconds)
      {
        assert keys[..i + 1] == keys[..i] + [keys[i]];
        if CountOf(samples, keys[i]) >= threshold {
          suspects := suspects + [keys[i]];
        }
      }
      assert keys[..|keys|] == keys;
    }
  }

  // ---------- the window is exactly the recent past ----------

  /** One call of `sample`. */
  datatype Call = Call(now: real, ips: seq<string>)

  function Window(calls: seq<Call>, window: real): seq<Observation> {
    if calls == [] then []
    else
      var last := calls[|calls| - 1];
      AfterSample(Window(calls[..|calls| - 1], window), last.now, last.ips, window)
  }

  /** Everything ever observed. */
  function Past(calls: seq<Call>): seq<Observation> {
    if calls == [] then []
    else Past(calls[..|calls| - 1]) + Stamped(calls[|calls| - 1].now, calls[|calls| - 1].ips)
  }

  function Recent(samples: seq<Observation>, cutoff: real): seq<Observation> {
    if samples == [] then []
    else (if samples[0].0 >= cutoff then [samples[0]] else []) + Recent(samples[1..], cutoff)
  }

  predicate ClockAdvances(calls: seq<Call>) {
    forall i, j | 0 <= i <= j < |calls| :: calls[i].now <= calls[j].now
  }

  predicate Ordered(samples: seq<Observation>) {
    forall i, j | 0 <= i <= j < |samples| :: samples[i].0 <= samples[j].0
  }

  lemma RecentFirst(x: Observation, s: seq<Observation>, cutoff: real)
    ensures Recent([x] + s, cutoff) == (if x.0 >= cutoff then [x] else []) + Recent(s, cutoff)
  {
    assert ([x] + s)[1..] == s;
  }

  lemma {:induction false} RecentConcat(s: seq<Observation>, t: seq<Observation>, cutoff: real)
    ensures Recent(s + t, cutoff) == Recent(s, cutoff) + Recent(t, cutoff)
  {
    if s == [] {
      assert s + t == t;
    } else {
      RecentConcat(s[1..], t, cutoff);
      RecentFirst(s[0], s[1..], cutoff);
      RecentFirst(s[0], s[1..] + t, cutoff);
      assert [s[0]] + s[1..] == s && [s[0]] + (s[1..] + t) == s + t;
    }
  }

  /** Filtering with an earlier cutoff first makes no difference. */
  lemma {:induction false} RecentTwice(s: seq<Observation>, early: real, late: real)
    requires early <= late
    ensures Recent(Recent(s, early), late) == Recent(s, late)
  {
    if s != [] {
      RecentTwice(s[1..], early, late);
      RecentConcat(if s[0].0 >= early then [s[0]] else [], Recent(s[1..], early), late);
      assert [s[0]][1..] == [];
    }
  }

  lemma {:induction false} AllRecent(s: seq<Observation>, cutoff: real)
    requires forall i | 0 <= i < |s| :: s[i].0 >= cutoff
    ensures Recent(s, cutoff) == s
  {
    if s != [] { AllRecent(s[1..], cutoff); }
  }

  /** No observation older than the cutoff stands behind one that is not. */
  predicate NoneStaleBehind(s: seq<Observation>, cutoff: real) {
    forall i, j | 0 <= i < j < |s| :: s[i].0 >= cutoff ==> s[j].0 >= cutoff
  }

  lemma {:induction false} RecentIsRecent(s: seq<Observation>, cutoff: real)
    ensures forall i | 0 <= i < |Recent(s, cutoff)| :: Recent(s, cutoff)[i].0 >= cutoff
  {
    if s != [] { RecentIsRecent(s[1..], cutoff); }
  }

  /** Exactly when dropping from the front leaves what filtering leaves: nothing stale stands
      behind something recent. */
  lemma {:induction false} DropOldIsRecentIff(s: seq<Observation>, cutoff: real)
    ensures DropOld(s, cutoff) == Recent(s, cutoff) <==> NoneStaleBehind(s, cutoff)
  {
    if s != [] {
      if s[0].0 < cutoff {
        DropOldIsRecentIff(s[1..], cutoff);
        assert NoneStaleBehind(s, cutoff) <==> NoneStaleBehind(s[1..], cutoff) by {
          assert forall i | 1 <= i < |s| :: s[i] == s[1..][i - 1];
        }
      } else {
        RecentIsRecent(s, cutoff);
        if NoneStaleBehind(s, cutoff) {
          AllRecent(s, cutoff);
        } else {
          var i, j :| 0 <= i < j < |s| && s[i].0 >= cutoff && s[j].0 < cutoff;
          assert DropOld(s, cutoff)[j] == s[j];
        }
      }
    }
  }

  /** On ordered samples, dropping from the front is filtering. */
  lemma DropOldIsRecent(s: seq<Observation>, cutoff: real)
    requires Ordered(s)
    ensures DropOld(s, cutoff) == Recent(s, cutoff)
  {
    DropOldIsRecentIff(s, cutoff);
  }

  lemma {:induction false} RecentIsOrdered(s: seq<Observation>, cutoff: real, latest: real)
    requires Ordered(s) && forall i | 0 <= i < |s| :: s[i].0 <= latest
    ensures Ordered(Recent(s, cutoff)) && forall i | 0 <= i < |Recent(s, cutoff)| :: Recent(s, cutoff)[i].0 <= latest
    ensures s != [] ==> forall i | 0 <= i < |Recent(s, cutoff)| :: s[0].0 <= Recent(s, cutoff)[i].0
  {
    if s != [] {
      RecentIsOrdered(s[1..], cutoff, latest);
      if |s| > 1 { assert s[0].0 <= s[1].0 == s[1..][0].0; }
    }
  }

  lemma {:induction false} StampedTimes(now: real, ips: seq<string>)
    ensures forall i | 0 <= i < |Stamped(now, ips)| :: Stamped(now, ips)[i].0 == now
  {
    if ips != [] { StampedTimes(now, ips[1..]); }
  }

  lemma {:induction false} PastIsOrdered(calls: seq<Call>)
    requires ClockAdvances(calls)
    ensures Ordered(Past(calls))
    ensures calls != [] ==> forall i | 0 <= i < |Past(calls)| :: Past(calls)[i].0 <= calls[|calls| - 1].now
  {
    if calls != [] {
      PastIsOrdered(calls[..|calls| - 1]);
      StampedTimes(calls[|calls| - 1].now, calls[|calls| - 1].ips);
    }
  }

  /** One sample taken on a window that holds the recent past. */
  lemma SampleKeepsRecentPast(past: seq<Observation>, earlier: real, now: real, ips: seq<string>, window: real)
    requires Ordered(past) && (forall i | 0 <= i < |past| :: past[i].0 <= earlier) && earlier <= now
    ensures AfterSample(Recent(past, earlier - window), now, ips, window) == Recent(past + Stamped(now, ips), now - window)
  {
    var held, newest := Recent(past, earlier - window), Stamped(now, ips);
    StampedTimes(now, ips);
    RecentIsOrdered(past, earlier - window, earlier);
    assert Ordered(held + newest);
    DropOldIsRecent(held + newest, now - window);
    RecentConcat(held, newest, now - window);
    RecentTwice(past, earlier - window, now - window);
    RecentConcat(past, newest, now - window);
  }

  /** On a clock that never goes back, the detector holds exactly the past observations that
      are still inside the window, in order. */
  lemma {:induction false} WindowIsRecentPast(calls: seq<Call>, window: real)
    requires calls != [] && ClockAdvances(calls)
    ensures Window(calls, window) == Recent(Past(calls), calls[|calls| - 1].now - window)
    decreases |calls|
  {
    var front, last := calls[..|calls| - 1], calls[|calls| - 1];
    PastIsOrdered(front);
    if front == [] {
      SampleKeepsRecentPast([], last.now, last.now, last.ips, window);
    } else {
      var earlier := front[|front| - 1].now;
      assert earlier == calls[|calls| - 2].now <= last.now;
      WindowIsRecentPast(front, window);
      SampleKeepsRecentPast(Past(front), earlier, last.now, last.ips, window);
    }
  }

  lemma {:induction false} DropOldIsSuffix(s: seq<Observation>, cutoff: real)
    ensures |DropOld(s, cutoff)| <= |s| && DropOld(s, cutoff) == s[|s| - |DropOld(s, cutoff)|..]
  {
    if s != [] && s[0].0 < cutoff { DropOldIsSuffix(s[1..], cutoff); }
  }

  /** On any clock, the window is what the past holds from some position on. */
  lemma {:induction false} WindowIsSuffix(calls: seq<Call>, window: real)
    ensures |Window(calls, window)| <= |Past(calls)|
    ensures Window(calls, window) == Past(calls)[|Past(calls)| - |Window(calls, window)|..]
    decreases |calls|
  {
    if calls != [] {
      var front, last := calls[..|calls| - 1], calls[|calls| - 1];
      WindowIsSuffix(front, window);
      var held, newest := Window(front, window), Stamped(last.now, last.ips);
      DropOldIsSuffix(held + newest, last.now - window);
      assert held + newest == Past(calls)[|Past(calls)| - |held + newest|..];
    }
  }

  /** The number of observations already forgotten. */
  function Forgotten(calls: seq<Call>, window: real): int {
    |Past(calls)| - |Window(calls, window)|
  }

  /** Something still in the window has left it by the clock. */
  predicate KeepsStale(calls: seq<Call>, window: real, cutoff: real) {
    exists i :: 0 <= i < |Past(calls)| && i >= Forgotten(calls, window) && Past(calls)[i].0 < cutoff
  }

  /** Something already forgotten is inside the window by the clock. */
  predicate ForgotTooEarly(calls: seq<Call>, window: real, cutoff: real) {
    exists i :: 0 <= i < |Past(calls)| && i < Forgotten(calls, window) && Past(calls)[i].0 >= cutoff
  }

  lemma {:induction false} NoneRecentIff(s: seq<Observation>, cutoff: real)
    ensures Recent(s, cutoff) == [] <==> forall i | 0 <= i < |s| :: s[i].0 < cutoff
  {
    if s != [] {
      NoneRecentIff(s[1..], cutoff);
      assert forall i | 1 <= i < |s| :: s[i] == s[1..][i - 1];
    }
  }

  lemma RecentIsAllIff(s: seq<Observation>, cutoff: real)
    ensures Recent(s, cutoff) == s <==> forall i | 0 <= i < |s| :: s[i].0 >= cutoff
  {
    RecentIsRecent(s, cutoff);
    if forall i | 0 <= i < |s| :: s[i].0 >= cutoff { AllRecent(s, cutoff); }
  }

  lemma FilteredConcatIff(gone: seq<Observation>, held: seq<Observation>, cutoff: real)
    ensures held == Recent(gone + held, cutoff) <==>
            (forall i | 0 <= i < |gone| :: gone[i].0 < cutoff) && (forall i | 0 <= i < |held| :: held[i].0 >= cutoff)
  {
    hide Recent;
    RecentConcat(gone, held, cutoff);
    NoneRecentIff(gone, cutoff);
    RecentIsAllIff(held, cutoff);
    if held == Recent(gone + held, cutoff) {
      RecentIsRecent(gone + held, cutoff);
      assert |Recent(gone, cutoff)| == 0;
    }
  }

  lemma FilteredSuffixIff(s: seq<Observation>, k: nat, cutoff: real)
    requires k <= |s|
    ensures s[k..] == Recent(s, cutoff) <==>
            (forall i | 0 <= i < k :: s[i].0 < cutoff) && (forall i | k <= i < |s| :: s[i].0 >= cutoff)
  {
    hide Recent;
    assert s == s[..k] + s[k..];
    FilteredConcatIff(s[..k], s[k..], cutoff);
    assert forall i | k <= i < |s| :: s[i] == s[k..][i - k];
  }

  /** Exactly when the detector holds the past observations still inside the window, over any
      run on any clock: nothing it keeps is stale and nothing it forgot is recent. */
  lemma WindowIsRecentPastIff(calls: seq<Call>, window: real)
    requires calls != []
    ensures var cutoff := calls[|calls| - 1].now - window;
            Window(calls, window) == Recent(Past(calls), cutoff) <==>
              !KeepsStale(calls, window, cutoff) && !ForgotTooEarly(calls, window, cutoff)
  {
    hide Window, Past, Recent;
    WindowIsSuffix(calls, window);
    FilteredSuffixIff(Past(calls), Forgotten(calls, window), calls[|calls| - 1].now - window);
  }

  /** A clock that goes back leaves observations in the window that have left it. */
  lemma BackwardClockKeepsStale()
    ensures var calls := [Call(100.0, ["a"]), Call(50.0, ["b"]), Call(104.0, [])];
            Window(calls, 5.0) == [(100.0, "a"), (50.0, "b")]
  {
    var c1 := [Call(100.0, ["a"])];
    var c2 := [Call(100.0, ["a"]), Call(50.0, ["b"])];
    var c3 := [Call(100.0, ["a"]), Call(50.0, ["b"]), Call(104.0, [])];
    assert c3[..2] == c2 && c2[..1] == c1 && c1[..0] == [];
    OneStamped(100.0, "a");
    OneStamped(50.0, "b");
    assert Window(c1, 5.0) == [(100.0, "a")];
    assert Window(c2, 5.0) == [(100.0, "a"), (50.0, "b")];
  }

  /** One that jumps ahead and back has forgotten observations that are inside the window
      again. */
  lemma BackwardClockForgetsTooEarly()
    ensures var calls := [Call(50.0, ["a"]), Call(100.0, ["b"]), Call(52.0, ["c"])];
            && Window(calls, 5.0) == [(100.0, "b"), (52.0, "c")]
            && Past(calls) == [(50.0, "a"), (100.0, "b"), (52.0, "c")]
            && !KeepsStale(calls, 5.0, 47.0) && ForgotTooEarly(calls, 5.0, 47.0)
  {
    var c1 := [Call(50.0, ["a"])];
    var c2 := [Call(50.0, ["a"]), Call(100.0, ["b"])];
    var c3 := [Call(50.0, ["a"]), Call(100.0, ["b"]), Call(52.0, ["c"])];
    assert c3[..2] == c2 && c2[..1] == c1 && c1[..0] == [];
    OneStamped(50.0, "a");
    OneStamped(100.0, "b");
    OneStamped(52.0, "c");
    assert Window(c1, 5.0) == [(50.0, "a")] == Past(c1);
    assert DropOld([(50.0, "a"), (100.0, "b")], 95.0) == DropOld([(100.0, "b")], 95.0) by {
      assert [(50.0, "a"), (100.0, "b")][1..] == [(100.0, "b")];
    }
    assert Window(c2, 5.0) == [(100.0, "b")] && Past(c2) == [(50.0, "a"), (100.0, "b")];
    assert Window(c3, 5.0) == [(100.0, "b"), (52.0, "c")] && Past(c3) == [(50.0, "a"), (100.0, "b"), (52.0, "c")];
    assert Past(c3)[0].0 >= 47.0;
  }

  lemma OneStamped(now: real, ip: string)
    ensures Stamped(now, [ip]) == [(now, ip)]
  {
    assert [ip][1..] == [];
  }

  // ---------- severity ----------

  /** `classify_threats`: the suspects at or above the threshold, split by severity; without
      a positive multiplier all of them are moderate. */
  method ClassifyThreats(counts: seq<(string, int)>, threshold: int, multiplier: real)
    returns (severe: seq<string>, moderate: seq<string>)
    requires forall i, j | 0 <= i < j < |counts| :: counts[i].0 != counts[j].0
    ensures forall ip :: ip in severe <==>
              exists c :: (ip, c) in counts && c >= threshold && multiplier > 0.0 && c as real >= threshold as real * multiplier
    ensures forall ip :: ip in moderate <==>
              exists c :: (ip, c) in counts && c >= threshold && (multiplier <= 0.0 || (c as real) < threshold as real * multiplier)
    ensures forall ip :: !(ip in severe && ip in moderate)
    ensures |severe| + |moderate| == |set i | 0 <= i < |counts| && counts[i].1 >= threshold|
  {
    severe, moderate := [], [];
    ghost var suspects: set<int> := {};
    for i := 0 to |counts|
      invariant forall ip :: ip in severe <==>
                  exists c :: (ip, c) in counts[..i] && c >= threshold && IsSevere(c, threshold, multiplier)
      invariant forall ip :: ip in moderate <==>
                  exists c :: (ip, c) in counts[..i] && c >= threshold && !IsSevere(c, threshold, multiplier)
      invariant suspects == set j | 0 <= j < i && counts[j].1 >= threshold
      invariant |severe| + |moderate| == |suspects|
    {
      var (ip, count) := counts[i];
      assert counts[..i + 1] == counts[..i] + [(ip, count)];
      if count < threshold { continue; }
      suspects := suspects + {i};
      if multiplier > 0.0 && count as real >= threshold as real * multiplier {
        severe := severe + [ip];
      } else {
        moderate := moderate + [ip];
      }
    }
    assert counts[..|counts|] == counts;
  }

  predicate IsSevere(count: int, threshold: int, multiplier: real) {
    multiplier > 0.0 && count as real >= threshold as real * multiplier
  }
}
