/** Behavioural fingerprints: longest common subsequence of the ports touched, similarity
    of the timing, and the search for similar attackers. */
module Fingerprint {
  import opened Common
  import opened Reals

  // ---------- longest common subsequence ----------

  function Max(x: nat, y: nat): nat {
    if x >= y then x else y
  }

  /** The recurrence that the table follows. */
  function Lcs(a: seq<int>, b: seq<int>): nat
    decreases |a| + |b|
  {
    if a == [] || b == [] then 0
    else
      var a', b' := a[..|a| - 1], b[..|b| - 1];
      if a[|a| - 1] == b[|b| - 1] then Lcs(a', b') + 1 else Max(Lcs(a', b), Lcs(a, b'))
  }

  /** `picks` selects equal elements of both sequences, in increasing positions. */
  predicate IsCommon(a: seq<int>, b: seq<int>, picks: seq<(nat, nat)>) {
    && (forall k | 0 <= k < |picks| :: picks[k].0 < |a| && picks[k].1 < |b| && a[picks[k].0] == b[picks[k].1])
    && (forall k, l | 0 <= k < l < |picks| :: picks[k].0 < picks[l].0 && picks[k].1 < picks[l].1)
  }

  /** The recurrence is attained by a common subsequence ... */
  lemma {:induction false} LcsIsAttained(a: seq<int>, b: seq<int>) returns (picks: seq<(nat, nat)>)
    ensures IsCommon(a, b, picks) && |picks| == Lcs(a, b)
    decreases |a| + |b|
  {
    picks := [];
    if a != [] && b != [] {
      var a', b' := a[..|a| - 1], b[..|b| - 1];
      if a[|a| - 1] == b[|b| - 1] {
        picks := LcsIsAttained(a', b');
        picks := picks + [(|a| - 1, |b| - 1)];
      } else if Lcs(a', b) >= Lcs(a, b') {
        picks := LcsIsAttained(a', b);
      } else {
        picks := LcsIsAttained(a, b');
      }
    }
  }

  /** ... and no common subsequence is longer. */
  lemma {:induction false} LcsIsOptimal(a: seq<int>, b: seq<int>, picks: seq<(nat, nat)>)
    requires IsCommon(a, b, picks)
    ensures |picks| <= Lcs(a, b)
    decreases |a| + |b|
  {
    if picks != [] {
      assert picks[0].0 < |a| && picks[0].1 < |b|;
      var a', b' := a[..|a| - 1], b[..|b| - 1];
      var last := picks[|picks| - 1];
      if a[|a| - 1] == b[|b| - 1] {
        LcsIsOptimal(a', b', picks[..|picks| - 1]);
      } else if last.0 < |a| - 1 {
        LcsIsOptimal(a', b, picks);
      } else {
        LcsIsOptimal(a, b', picks);
      }
    }
  }

  lemma {:induction false} LcsIsSymmetric(a: seq<int>, b: seq<int>)
    ensures Lcs(a, b) == Lcs(b, a)
    decreases |a| + |b|
  {
    if a != [] && b != [] {
      var a', b' := a[..|a| - 1], b[..|b| - 1];
      LcsIsSymmetric(a', b');
      LcsIsSymmetric(a', b);
      LcsIsSymmetric(a, b');
    }
  }

  lemma {:induction false} LcsIsBounded(a: seq<int>, b: seq<int>)
    ensures Lcs(a, b) <= |a| && Lcs(a, b) <= |b|
    decreases |a| + |b|
  {
    if a != [] && b != [] {
      var a', b' := a[..|a| - 1], b[..|b| - 1];
      LcsIsBounded(a', b');
      LcsIsBounded(a', b);
      LcsIsBounded(a, b');
    }
  }

  lemma {:induction false} LcsIsFullIff(a: seq<int>, b: seq<int>)
    ensures Lcs(a, b) == Max(|a|, |b|) <==> a == b
    decreases |a| + |b|
  {
    LcsIsBounded(a, b);
    if a != [] && b != [] {
      var a', b' := a[..|a| - 1], b[..|b| - 1];
      LcsIsFullIff(a', b');
      LcsIsBounded(a', b);
      LcsIsBounded(a, b');
      assert a == a' + [a[|a| - 1]] && b == b' + [b[|b| - 1]];
    }
  }

  /** `_port_sequence_similarity`, as a value. */
  function PortSimilarity(a: seq<int>, b: seq<int>): real {
    if a == [] || b == [] then 0.0 else (Lcs(a, b) as real) / (Max(|a|, |b|) as real)
  }

  lemma FractionBounds(x: nat, y: nat)
    requires x <= y && 0 < y
    ensures 0.0 <= (x as real) / (y as real) <= 1.0
    ensures (x as real) / (y as real) == 1.0 <==> x == y
  {
    var q := (x as real) / (y as real);
    assert q * (y as real) == x as real;
  }

  /** The similarity is symmetric, lies in [0, 1], and is 1 exactly for equal non-empty
      sequences. */
  lemma PortSimilarityIsASimilarity(a: seq<int>, b: seq<int>)
    ensures PortSimilarity(a, b) == PortSimilarity(b, a)
    ensures 0.0 <= PortSimilarity(a, b) <= 1.0
    ensures PortSimilarity(a, b) == 1.0 <==> a == b && a != []
  {
    LcsIsSymmetric(a, b);
    LcsIsBounded(a, b);
    LcsIsFullIff(a, b);
    if a != [] && b != [] { FractionBounds(Lcs(a, b), Max(|a|, |b|)); }
  }

  /** The similarity of two non-empty sequences, as a share of the longer one: the length of a
      longest common subsequence, whichever it is. */
  lemma PortSimilarityIsShare(a: seq<int>, b: seq<int>, picks: seq<(nat, nat)>)
    requires IsCommon(a, b, picks) && forall other | IsCommon(a, b, other) :: |other| <= |picks|
    ensures PortSimilarity(a, b) * ((if |a| < |b| then |b| else |a|) as real) == |picks| as real
  {
    hide Lcs, IsCommon;
    var longest := LcsIsAttained(a, b);
    LcsIsOptimal(a, b, picks);
    LcsIsBounded(a, b);
    if a != [] && b != [] { Share(Lcs(a, b), Max(|a|, |b|)); }
  }

  lemma Share(x: nat, y: nat)
    requires y > 0
    ensures (x as real) / (y as real) * (y as real) == x as real
  {}

  lemma LcsOfPrefixes(a: seq<int>, i: nat, b: seq<int>, j: nat)
    requires 0 < i <= |a| && 0 < j <= |b|
    ensures Lcs(a[..i], b[..j]) == if a[i - 1] == b[j - 1] then Lcs(a[..i - 1], b[..j - 1]) + 1
                                   else Max(Lcs(a[..i - 1], b[..j]), Lcs(a[..i], b[..j - 1]))
  {
    assert a[..i][..i - 1] == a[..i - 1] && b[..j][..j - 1] == b[..j - 1];
  }

  /** `_port_sequence_similarity`: fill the table row by row, in place. */
  method PortSequenceSimilarity(a: seq<int>, b: seq<int>) returns (similarity: real)
    ensures similarity == PortSimilarity(a, b)
  {
    if a == [] || b == [] { return 0.0; }
    var n, m := |a|, |b|;
    var dp := new nat[n + 1, m + 1]((i, j) => 0);
    for i := 1 to n + 1
      invariant forall p, q | 0 <= p < i && 0 <= q <= m :: dp[p, q] == Lcs(a[..p], b[..q])
      invariant forall p | 0 <= p <= n :: dp[p, 0] == 0
    {
      for j := 1 to m + 1
        invariant forall p, q | 0 <= p < i && 0 <= q <= m :: dp[p, q] == Lcs(a[..p], b[..q])
        invariant forall q | 0 <= q < j :: dp[i, q] == Lcs(a[..i], b[..q])
        invariant forall p | 0 <= p <= n :: dp[p, 0] == 0
      {
        LcsOfPrefixes(a, i, b, j);
        if a[i - 1] == b[j - 1] {
          dp[i, j] := dp[i - 1, j - 1] + 1;
        } else {
          dp[i, j] := Max(dp[i - 1, j], dp[i, j - 1]);
        }
      }
    }
    assert a[..n] == a && b[..m] == b;
    var lcs := dp[n, m];
    return (lcs as real) / (Max(n, m) as real);
  }

  // ---------- timing ----------

  const TOLERANCE := 0.4

  function MaxReal(x: real, y: real): real {
    if x >= y then x else y
  }

  function TimingOfAverages(avgA: real, avgB: real): real {
    if avgA == 0.0 && avgB == 0.0 then 1.0
    else
      var larger := if MaxReal(avgA, avgB) == 0.0 then 1.0 else MaxReal(avgA, avgB);
      var diffRatio := Abs(avgA - avgB) / larger;
      if diffRatio <= TOLERANCE then MaxReal(0.0, 1.0 - diffRatio / TOLERANCE) else 0.0
  }

  /** `_timing_similarity`. */
  function TimingSimilarity(a: seq<real>, b: seq<real>): real {
    if a == [] || b == [] then 0.5 else TimingOfAverages(Mean(a), Mean(b))
  }

  lemma AveragesInPlainTerms(x: real, y: real)
    ensures var (t, larger, distance) := (TimingOfAverages(x, y), if x < y then y else x, if x < y then y - x else x - y);
            var scale := 0.4 * if larger == 0.0 then 1.0 else larger;
            && (distance == 0.0 ==> t == 1.0)
            && (larger >= 0.0 && distance > scale ==> t == 0.0)
            && ((larger < 0.0 || distance <= scale) && distance != 0.0 ==> t * scale == scale - distance)
  {
    var larger, distance := MaxReal(x, y), Abs(x - y);
    var unit := if larger == 0.0 then 1.0 else larger;
    if distance != 0.0 { ScaledRatio(distance, unit); }
  }

  /** The timing similarity. Without intervals on either side it is 0.5, and for equal averages
      it is 1. Otherwise it falls in proportion to the distance of the averages, to 0 at 0.4 of
      the larger one (of one second, if that is 0), and stays 0 beyond. For two negative
      averages it grows instead. */
  lemma TimingInPlainTerms(a: seq<real>, b: seq<real>)
    ensures a == [] || b == [] ==> TimingSimilarity(a, b) == 0.5
    ensures a != [] && b != [] ==>
              var (t, x, y) := (TimingSimilarity(a, b), Mean(a), Mean(b));
              var (larger, distance) := (if x < y then y else x, if x < y then y - x else x - y);
              var scale := 0.4 * if larger == 0.0 then 1.0 else larger;
              && (distance == 0.0 ==> t == 1.0)
              && (larger >= 0.0 && distance > scale ==> t == 0.0)
              && ((larger < 0.0 || distance <= scale) && distance != 0.0 ==> t * scale == scale - distance)
  {
    hide Mean, TimingOfAverages;
    if a != [] && b != [] { AveragesInPlainTerms(Mean(a), Mean(b)); }
  }

  lemma ScaledRatio(distance: real, unit: real)
    requires distance > 0.0 && unit != 0.0
    ensures var ratio := distance / unit;
            && (unit > 0.0 ==> (ratio <= TOLERANCE <==> distance <= 0.4 * unit) && 1.0 - ratio / TOLERANCE <= 1.0)
            && (unit < 0.0 ==> ratio < 0.0)
            && (1.0 - ratio / TOLERANCE) * (0.4 * unit) == 0.4 * unit - distance
            && (ratio <= TOLERANCE ==> 1.0 - ratio / TOLERANCE >= 0.0)
  {
    var ratio := distance / unit;
    assert ratio * unit == distance;
    if unit > 0.0 {
      if ratio <= TOLERANCE { Monotone(ratio, TOLERANCE, unit); } else { StrictlyMonotone(TOLERANCE, ratio, unit); }
      if ratio < 0.0 { StrictlyMonotone(ratio, 0.0, unit); }
    } else if ratio >= 0.0 {
      Monotone(0.0, ratio, -unit);
    }
    assert (1.0 - ratio / TOLERANCE) * (0.4 * unit) == 0.4 * unit - ratio * unit;
  }

  lemma Monotone(a: real, b: real, c: real)
    requires a <= b && c >= 0.0
    ensures a * c <= b * c
  {}

  lemma StrictlyMonotone(a: real, b: real, c: real)
    requires a < b && c > 0.0
    ensures a * c < b * c
  {}

  lemma TimingRange(x: real, y: real)
    ensures TimingOfAverages(x, y) == TimingOfAverages(y, x)
    ensures 0.0 <= TimingOfAverages(x, y)
    ensures TimingOfAverages(x, y) <= 1.0 <==> MaxReal(x, y) >= 0.0 || x == y
  {
    assert Abs(x - y) == Abs(y - x) && MaxReal(x, y) == MaxReal(y, x);
    var larger := if MaxReal(x, y) == 0.0 then 1.0 else MaxReal(x, y);
    var diff := Abs(x - y);
    var ratio := diff / larger;
    assert ratio * larger == diff;
    if larger > 0.0 {
      assert ratio >= 0.0;
    } else if x != y {
      assert ratio < 0.0;
    } else {
      assert ratio == 0.0;
    }
  }

  /** Timing similarity is symmetric and never negative; it stays within [0, 1] exactly when
      the averages are not two different negative numbers. */
  lemma TimingSimilarityRange(a: seq<real>, b: seq<real>)
    ensures TimingSimilarity(a, b) == TimingSimilarity(b, a) && TimingSimilarity(a, b) >= 0.0
    ensures TimingSimilarity(a, b) <= 1.0 <==>
            a == [] || b == [] || MaxReal(Mean(a), Mean(b)) >= 0.0 || Mean(a) == Mean(b)
  {
    if a != [] && b != [] { TimingRange(Mean(a), Mean(b)); }
  }

  // ---------- fingerprints ----------

  /** One honeypot hit; the timestamp is missing when it cannot be parsed. */
  datatype Hit = Hit(port: int, time: Option<real>)

  datatype Print = Print(ports: seq<int>, intervals: seq<real>, totalHits: nat)

  function Ports(hits: seq<Hit>): seq<int> {
    seq(|hits|, i requires 0 <= i < |hits| => hits[i].port)
  }

  function Intervals(hits: seq<Hit>): seq<real> {
    if |hits| < 2 then []
    else
      (if hits[0].time.Some? && hits[1].time.Some? then [hits[1].time.value - hits[0].time.value] else [])
      + Intervals(hits[1..])
  }

  /** `compute_fingerprint` on the hits of one address, oldest first. */
  function ComputeFingerprint(hits: seq<Hit>): Print {
    Print(Ports(hits), Intervals(hits), |hits|)
  }

  /** One more hit adds the time since the hit before, if both have a timestamp. */
  lemma {:induction false} IntervalsStep(hits: seq<Hit>, h: Hit)
    ensures Intervals(hits + [h]) ==
            Intervals(hits)
            + (if hits == [] then [] else
                 match (hits[|hits| - 1].time, h.time)
                 case (Some(before), Some(now)) => [now - before]
                 case _ => [])
  {
    if |hits| >= 2 {
      assert (hits + [h])[1..] == hits[1..] + [h];
      IntervalsStep(hits[1..], h);
    } else if |hits| == 1 {
      assert (hits + [h])[1..] == [h];
    }
  }

  /** Consecutive timestamps never go back. */
  predicate Chronological(hits: seq<Hit>) {
    forall i | 0 <= i < |hits| - 1 :: hits[i].time.Some? && hits[i + 1].time.Some? ==> hits[i].time.value <= hits[i + 1].time.value
  }

  lemma {:induction false} ChronologicalIntervals(hits: seq<Hit>)
    requires Chronological(hits)
    ensures forall x | x in Intervals(hits) :: x >= 0.0
    ensures Sum(Intervals(hits)) >= 0.0
  {
    if |hits| >= 2 {
      var rest := hits[1..];
      forall i | 0 <= i < |rest| - 1
        ensures rest[i].time.Some? && rest[i + 1].time.Some? ==> rest[i].time.value <= rest[i + 1].time.value
      {
        assert rest[i] == hits[i + 1] && rest[i + 1] == hits[i + 1 + 1];
      }
      ChronologicalIntervals(rest);
      if hits[0].time.Some? && hits[1].time.Some? {
        assert hits[0 + 1] == hits[1];
        assert Intervals(hits)[1..] == Intervals(rest);
      } else {
        assert Intervals(hits) == Intervals(rest);
      }
    }
  }

  const PORT_WEIGHT := 0.7
  const TIMING_WEIGHT := 0.3

  function RawScore(p: Print, q: Print): real {
    PortSimilarity(p.ports, q.ports) * PORT_WEIGHT + TimingSimilarity(p.intervals, q.intervals) * TIMING_WEIGHT
  }

  /** `compare_fingerprints`; `rounded` is the rounding to three decimals. */
  function Compare(p: Print, q: Print, rounded: real -> real): real {
    rounded(RawScore(p, q))
  }

  /** Both fingerprints have intervals, and their averages are two different negative numbers. */
  predicate RunBackwards(p: Print, q: Print) {
    && p.intervals != [] && q.intervals != []
    && Mean(p.intervals) < 0.0 && Mean(q.intervals) < 0.0 && Mean(p.intervals) != Mean(q.intervals)
  }

  /** How far apart two negative averages are, relative to the smaller one in size. */
  function Spread(x: real, y: real): real
    requires x < 0.0 && y < 0.0
  {
    Abs(x - y) / -MaxReal(x, y)
  }

  lemma NegativeAverages(x: real, y: real)
    requires x < 0.0 && y < 0.0 && x != y
    ensures Spread(x, y) > 0.0 && TimingOfAverages(x, y) == 1.0 + Spread(x, y) / TOLERANCE
  {
    NegatedQuotient(Abs(x - y), MaxReal(x, y));
  }

  lemma NegatedQuotient(d: real, n: real)
    requires d > 0.0 && n < 0.0
    ensures d / -n == -(d / n) && d / -n > 0.0
  {
    var q, r := d / n, d / -n;
    assert q * n == d && r * -n == d;
    assert r * -n == r * n * -1.0;
    FactorOfZero(q + r, n);
  }

  lemma FactorOfZero(x: real, n: real)
    requires n < 0.0 && x * n == 0.0
    ensures x == 0.0
  {}

  lemma WeightedSum(port: real, spread: real)
    ensures port * PORT_WEIGHT + (1.0 + spread / TOLERANCE) * TIMING_WEIGHT <= 1.0 <==>
            TIMING_WEIGHT * spread <= TOLERANCE * PORT_WEIGHT * (1.0 - port)
  {}

  /** Exactly when a score stays within [0, 1]: unless both address histories run backwards
      in time, and then as long as their timing differs little enough for how different
      their ports are. */
  lemma RawScoreIsInRangeIff(p: Print, q: Print)
    ensures RawScore(p, q) >= 0.0
    ensures RawScore(p, q) <= 1.0 <==>
            RunBackwards(p, q) ==>
              TIMING_WEIGHT * Spread(Mean(p.intervals), Mean(q.intervals))
              <= TOLERANCE * PORT_WEIGHT * (1.0 - PortSimilarity(p.ports, q.ports))
  {
    PortSimilarityIsASimilarity(p.ports, q.ports);
    TimingSimilarityRange(p.intervals, q.intervals);
    if RunBackwards(p, q) {
      var x, y := Mean(p.intervals), Mean(q.intervals);
      NegativeAverages(x, y);
      WeightedSum(PortSimilarity(p.ports, q.ports), Spread(x, y));
    }
  }

  /** For equal port sequences the score leaves the range whenever both run backwards. */
  lemma EqualPortsScoreIff(p: Print, q: Print)
    requires p.ports == q.ports && p.ports != []
    ensures RawScore(p, q) <= 1.0 <==> !RunBackwards(p, q)
  {
    PortSimilarityIsASimilarity(p.ports, q.ports);
    RawScoreIsInRangeIff(p, q);
    if RunBackwards(p, q) { NegativeAverages(Mean(p.intervals), Mean(q.intervals)); }
  }

  /** Two histories recorded while the clock was set back: same ports, score 1.75. */
  lemma ScoreCanExceedOne() returns (s: seq<Hit>, t: seq<Hit>)
    ensures |s| >= MIN_HITS_FOR_RELIABLE_FINGERPRINT && |t| >= MIN_HITS_FOR_RELIABLE_FINGERPRINT
    ensures RawScore(ComputeFingerprint(s), ComputeFingerprint(t)) == 1.75
  {
    s := [Hit(21, Some(2.0)), Hit(22, Some(1.0)), Hit(23, Some(0.0))];
    t := [Hit(21, Some(4.0)), Hit(22, Some(2.0)), Hit(23, Some(0.0))];
    var p, q := ComputeFingerprint(s), ComputeFingerprint(t);
    ThreeHits(s);
    ThreeHits(t);
    assert p.ports == [21, 22, 23] == q.ports;
    PortSimilarityIsASimilarity(p.ports, q.ports);
    assert Mean(p.intervals) == -1.0 && Mean(q.intervals) == -2.0;
  }

  lemma ThreeHits(hits: seq<Hit>)
    requires |hits| == 3 && hits[0].time.Some? && hits[1].time.Some? && hits[2].time.Some?
    ensures Intervals(hits) == [hits[1].time.value - hits[0].time.value, hits[2].time.value - hits[1].time.value]
    ensures Mean(Intervals(hits)) == (hits[2].time.value - hits[0].time.value) / 2.0
  {
    var rest := hits[1..];
    assert Intervals(rest[1..]) == [];
    assert Intervals(rest) == [hits[2].time.value - hits[1].time.value];
    var x, y := hits[1].time.value - hits[0].time.value, hits[2].time.value - hits[1].time.value;
    assert Intervals(hits) == [x, y];
    assert [x, y][1..] == [y] && [y][1..] == [];
    assert Sum([x, y]) == x + Sum([y]) && Sum([y]) == y + Sum([]);
  }

  ghost predicate IsRounding(rounded: real -> real) {
    && (forall x, y | x <= y :: rounded(x) <= rounded(y))
    && rounded(0.0) == 0.0 && rounded(1.0) == 1.0
  }

  /** The score of two fingerprints taken from chronological hits is symmetric and lies in
      [0, 1]; symmetry needs nothing of the rounding. */
  lemma ScoreIsASimilarity(s: seq<Hit>, t: seq<Hit>, rounded: real -> real)
    ensures var p, q := ComputeFingerprint(s), ComputeFingerprint(t); Compare(p, q, rounded) == Compare(q, p, rounded)
    ensures Chronological(s) && Chronological(t) && IsRounding(rounded) ==>
              0.0 <= Compare(ComputeFingerprint(s), ComputeFingerprint(t), rounded) <= 1.0
  {
    var p, q := ComputeFingerprint(s), ComputeFingerprint(t);
    PortSimilarityIsASimilarity(p.ports, q.ports);
    TimingSimilarityRange(p.intervals, q.intervals);
    if Chronological(s) && Chronological(t) && IsRounding(rounded) {
      ChronologicalIntervals(s);
      if p.intervals != [] { assert Mean(p.intervals) >= 0.0; }
      RawScoreIsInRangeIff(p, q);
      assert rounded(0.0) <= rounded(RawScore(p, q)) <= rounded(1.0);
    }
  }

  // ---------- similar attackers ----------

  const MIN_HITS_FOR_RELIABLE_FINGERPRINT := 3

  type Match = (string, real)

  /** `other` is reported for `ip` with this score. */
  ghost predicate IsMatch(hits: string -> seq<Hit>, ip: string, other: string, score: real, threshold: real,
                          rounded: real -> real) {
    && other != ip
    && |hits(ip)| >= MIN_HITS_FOR_RELIABLE_FINGERPRINT && |hits(other)| >= MIN_HITS_FOR_RELIABLE_FINGERPRINT
    && score == Compare(ComputeFingerprint(hits(ip)), ComputeFingerprint(hits(other)), rounded)
    && score >= threshold
  }

  /** The score weighs the ports, in the order of the hits, seven to three against the timing;
      an address with fewer than three hits matches nothing. */
  lemma MatchIff(hits: string -> seq<Hit>, ip: string, other: string, score: real, threshold: real, rounded: real -> real)
    ensures IsMatch(hits, ip, other, score, threshold, rounded) <==>
            && ip != other && |hits(ip)| > 2 && |hits(other)| > 2 && score >= threshold
            && exists p, q ::
                 && |p| == |hits(ip)| && (forall i | 0 <= i < |p| :: p[i] == hits(ip)[i].port)
                 && |q| == |hits(other)| && (forall i | 0 <= i < |q| :: q[i] == hits(other)[i].port)
                 && score == rounded((7.0 * PortSimilarity(p, q) + 3.0 * TimingSimilarity(Intervals(hits(ip)), Intervals(hits(other)))) / 10.0)
  {
    hide PortSimilarity, TimingSimilarity, Intervals;
    var s, t := hits(ip), hits(other);
    forall p | |p| == |s| && (forall i | 0 <= i < |p| :: p[i] == s[i].port) ensures p == Ports(s) {}
    forall q | |q| == |t| && (forall i | 0 <= i < |q| :: q[i] == t[i].port) ensures q == Ports(t) {}
    assert RawScore(ComputeFingerprint(s), ComputeFingerprint(t)) ==
           (7.0 * PortSimilarity(Ports(s), Ports(t)) + 3.0 * TimingSimilarity(Intervals(s), Intervals(t))) / 10.0;
  }

  predicate Descending(s: seq<Match>) {
    forall i, j | 0 <= i < j < |s| :: s[i].1 >= s[j].1
  }

  function InsertMatch(x: Match, s: seq<Match>): seq<Match> {
    if s == [] || x.1 >= s[0].1 then [x] + s else [s[0]] + InsertMatch(x, s[1..])
  }

  /** `sorted(matches, key=-score)`: stable, best first. */
  function ByScore(s: seq<Match>): seq<Match> {
    if s == [] then [] else InsertMatch(s[0], ByScore(s[1..]))
  }

  lemma {:induction false} InsertMatchSorts(x: Match, s: seq<Match>)
    requires Descending(s)
    ensures Descending(InsertMatch(x, s)) && multiset(InsertMatch(x, s)) == multiset(s) + multiset{x}
  {
    if s == [] || x.1 >= s[0].1 {
      PrependKeepsDescending(x, s);
    } else {
      var t := InsertMatch(x, s[1..]);
      InsertMatchSorts(x, s[1..]);
      assert s == [s[0]] + s[1..];
      forall j | 0 <= j < |t| ensures s[0].1 >= t[j].1 {
        assert t[j] in multiset(t);
        assert t[j] == x || t[j] in multiset(s[1..]);
      }
      PrependKeepsDescending(s[0], t);
    }
  }

  lemma PrependKeepsDescending(x: Match, s: seq<Match>)
    requires Descending(s) && forall j | 0 <= j < |s| :: x.1 >= s[j].1
    ensures Descending([x] + s)
  {}

  lemma {:induction false} ByScoreSorts(s: seq<Match>)
    ensures Descending(ByScore(s)) && multiset(ByScore(s)) == multiset(s)
  {
    if s != [] {
      ByScoreSorts(s[1..]);
      InsertMatchSorts(s[0], ByScore(s[1..]));
      assert s == [s[0]] + s[1..];
    }
  }

  function WithScore(s: seq<Match>, score: real): seq<Match> {
    if s == [] then [] else (if s[0].1 == score then [s[0]] else []) + WithScore(s[1..], score)
  }

  lemma {:induction false} InsertMatchIsStable(x: Match, s: seq<Match>, score: real)
    ensures WithScore(InsertMatch(x, s), score) == (if x.1 == score then [x] else []) + WithScore(s, score)
  {
    hide WithScore;
    if s == [] || x.1 >= s[0].1 {
      FirstWithScore(x, s, score);
    } else {
      InsertMatchIsStable(x, s[1..], score);
      FirstWithScore(s[0], InsertMatch(x, s[1..]), score);
      FirstWithScore(s[0], s[1..], score);
      assert [s[0]] + s[1..] == s;
      if s[0].1 == score { assert x.1 != score; }
    }
  }

  lemma FirstWithScore(x: Match, s: seq<Match>, score: real)
    ensures WithScore([x] + s, score) == (if x.1 == score then [x] else []) + WithScore(s, score)
  {
    assert ([x] + s)[1..] == s;
  }

  /** Matches with the same score keep the order in which they were found. */
  lemma {:induction false} ByScoreIsStable(s: seq<Match>, score: real)
    ensures WithScore(ByScore(s), score) == WithScore(s, score)
  {
    if s != [] {
      ByScoreIsStable(s[1..], score);
      InsertMatchIsStable(s[0], ByScore(s[1..]), score);
    }
  }

  /** The matches in the order of the window. */
  ghost function Candidates(hits: string -> seq<Hit>, ip: string, window: seq<string>, threshold: real,
                            rounded: real -> real): seq<Match> {
    if window == [] then []
    else
      var front, other := Candidates(hits, ip, window[..|window| - 1], threshold, rounded), window[|window| - 1];
      var score := Compare(ComputeFingerprint(hits(ip)), ComputeFingerprint(hits(other)), rounded);
      if IsMatch(hits, ip, other, score, threshold, rounded) then front + [(other, score)] else front
  }

  /** The window is gone through in its order. */
  lemma {:induction false} CandidatesInOrder(hits: string -> seq<Hit>, ip: string, front: seq<string>, back: seq<string>,
                                             threshold: real, rounded: real -> real)
    ensures Candidates(hits, ip, front + back, threshold, rounded) ==
            Candidates(hits, ip, front, threshold, rounded) + Candidates(hits, ip, back, threshold, rounded)
    decreases |back|
  {
    hide IsMatch, Compare;
    if back == [] {
      assert front + back == front;
    } else {
      assert (front + back)[..|front + back| - 1] == front + back[..|back| - 1];
      CandidatesInOrder(hits, ip, front, back[..|back| - 1], threshold, rounded);
    }
  }

  lemma {:induction false} TooFewHits(hits: string -> seq<Hit>, ip: string, window: seq<string>, threshold: real,
                                      rounded: real -> real)
    requires |hits(ip)| < MIN_HITS_FOR_RELIABLE_FINGERPRINT
    ensures Candidates(hits, ip, window, threshold, rounded) == []
  {
    if window != [] { TooFewHits(hits, ip, window[..|window| - 1], threshold, rounded); }
  }

  lemma {:induction false} CandidatesAreMatches(hits: string -> seq<Hit>, ip: string, window: seq<string>, threshold: real,
                                                rounded: real -> real)
    ensures forall other, score ::
              (other, score) in Candidates(hits, ip, window, threshold, rounded) <==>
              other in window && IsMatch(hits, ip, other, score, threshold, rounded)
  {
    if window != [] {
      var front := window[..|window| - 1];
      CandidatesAreMatches(hits, ip, front, threshold, rounded);
      assert window == front + [window[|window| - 1]];
    }
  }

  /** `find_similar_attackers` over the addresses seen in the window. */
  method FindSimilarAttackers(hits: string -> seq<Hit>, ip: string, window: seq<string>, threshold: real, rounded: real -> real)
    returns (matches: seq<Match>)
    ensures matches == ByScore(Candidates(hits, ip, window, threshold, rounded))
    ensures forall other, score :: (other, score) in matches <==> other in window && IsMatch(hits, ip, other, score, threshold, rounded)
    ensures Descending(matches)
  {
    hide ComputeFingerprint, Compare;
    FingerprintCountsHits(hits);
    var target := ComputeFingerprint(hits(ip));
    if target.totalHits < MIN_HITS_FOR_RELIABLE_FINGERPRINT {
      TooFewHits(hits, ip, window, threshold, rounded);
      return [];
    }
    var found: seq<Match> := [];
    for i := 0 to |window|
      invariant found == Candidates(hits, ip, window[..i], threshold, rounded)
    {
      var other := window[i];
      assert window[..i + 1][..i] == window[..i];
      if other != ip {
        var profile := ComputeFingerprint(hits(other));
        if profile.totalHits >= MIN_HITS_FOR_RELIABLE_FINGERPRINT {
          var score := Compare(target, profile, rounded);
          if score >= threshold {
            found := found + [(other, score)];
          }
        }
      }
    }
    assert window[..|window|] == window;
    CandidatesAreMatches(hits, ip, window, threshold, rounded);
    ByScoreSorts(found);
    matches := ByScore(found);
    assert forall m :: m in matches <==> m in multiset(matches);
    assert forall m :: m in found <==> m in multiset(found);
  }

  lemma FingerprintCountsHits(hits: string -> seq<Hit>)
    ensures forall ip :: ComputeFingerprint(hits(ip)).totalHits == |hits(ip)|
  {}

  /** Being reported is symmetric: among addresses in the window, one is reported for the
      other with some score exactly when the other is reported for the one with that score. */
  lemma MatchingIsSymmetric(hits: string -> seq<Hit>, ip: string, other: string, score: real, threshold: real, rounded: real -> real)
    ensures IsMatch(hits, ip, other, score, threshold, rounded) <==> IsMatch(hits, other, ip, score, threshold, rounded)
  {
    ScoreIsASimilarity(hits(ip), hits(other), rounded);
  }
}
