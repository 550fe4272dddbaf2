/** Median, MAD and the modified z-score over exact reals, and how many bad samples they
    withstand. */
module RobustStats {
  import opened Reals

  // ---------- sorting and counting ----------

  predicate IsSorted(s: seq<real>) {
    forall i, j | 0 <= i < j < |s| :: s[i] <= s[j]
  }

  function Insert(x: real, s: seq<real>): (r: seq<real>)
    ensures |r| == |s| + 1
  {
    if s == [] || x <= s[0] then [x] + s else [s[0]] + Insert(x, s[1..])
  }

  function Sorted(s: seq<real>): (r: seq<real>)
    ensures |r| == |s|
  {
    if s == [] then [] else Insert(s[0], Sorted(s[1..]))
  }

  function Count(s: seq<real>, p: real -> bool): nat {
    if s == [] then 0 else (if p(s[0]) then 1 else 0) + Count(s[1..], p)
  }

  predicate Within(lo: real, hi: real, x: real) {
    lo <= x <= hi
  }

  function In(lo: real, hi: real): (p: real -> bool)
    ensures forall x :: p(x) <==> Within(lo, hi, x)
  {
    x => Within(lo, hi, x)
  }

  function AtLeast(v: real): (p: real -> bool)
    ensures forall x :: p(x) <==> x >= v
  {
    x => x >= v
  }

  lemma {:induction false} InsertMembers(x: real, s: seq<real>, p: real -> bool)
    ensures forall y :: y in Insert(x, s) <==> y == x || y in s
    ensures Count(Insert(x, s), p) == Count(s, p) + (if p(x) then 1 else 0)
  {
    if s == [] || x <= s[0] {
      assert ([x] + s)[1..] == s;
      assert forall y :: y in [x] + s <==> y == x || y in s;
    } else {
      InsertMembers(x, s[1..], p);
      assert ([s[0]] + Insert(x, s[1..]))[1..] == Insert(x, s[1..]);
      assert s == [s[0]] + s[1..];
    }
  }

  lemma {:induction false} InsertSorts(x: real, s: seq<real>, p: real -> bool)
    requires IsSorted(s)
    ensures IsSorted(Insert(x, s))
    ensures forall y :: y in Insert(x, s) <==> y == x || y in s
    ensures Count(Insert(x, s), p) == Count(s, p) + (if p(x) then 1 else 0)
  {
    hide Count;
    InsertMembers(x, s, p);
    if s != [] && x > s[0] {
      var t := Insert(x, s[1..]);
      InsertSorts(x, s[1..], p);
      assert forall i | 1 <= i < |s| :: s[0] <= s[i];
      assert forall i | 0 <= i < |t| :: t[i] in t && s[0] <= t[i];
    }
  }

  /** `Sorted` sorts, and keeps how often any property holds. */
  lemma {:induction false} SortedSorts(s: seq<real>, p: real -> bool)
    ensures IsSorted(Sorted(s)) && Count(Sorted(s), p) == Count(s, p)
    ensures forall y :: y in Sorted(s) <==> y in s
  {
    if s != [] {
      SortedSorts(s[1..], p);
      InsertSorts(s[0], Sorted(s[1..]), p);
      assert s == [s[0]] + s[1..];
    }
  }

  lemma {:induction false} CountConcat(s: seq<real>, t: seq<real>, p: real -> bool)
    ensures Count(s + t, p) == Count(s, p) + Count(t, p)
  {
    if s == [] {
      assert s + t == t;
    } else {
      assert (s + t)[1..] == s[1..] + t;
      CountConcat(s[1..], t, p);
    }
  }

  lemma {:induction false} CountAtMostAll(s: seq<real>, p: real -> bool)
    ensures Count(s, p) <= |s|
  {
    if s != [] { CountAtMostAll(s[1..], p); }
  }

  lemma {:induction false} CountAll(s: seq<real>, p: real -> bool)
    requires forall i | 0 <= i < |s| :: p(s[i])
    ensures Count(s, p) == |s|
  {
    if s != [] { CountAll(s[1..], p); }
  }

  lemma {:induction false} CountNone(s: seq<real>, p: real -> bool)
    requires forall i | 0 <= i < |s| :: !p(s[i])
    ensures Count(s, p) == 0
  {
    if s != [] { CountNone(s[1..], p); }
  }

  lemma {:induction false} CountRemoved(s: seq<real>, i: nat, p: real -> bool)
    requires i < |s|
    ensures Count(s, p) == Count(s[..i] + s[i + 1..], p) + (if p(s[i]) then 1 else 0)
  {
    assert s == s[..i] + ([s[i]] + s[i + 1..]);
    assert ([s[i]] + s[i + 1..])[1..] == s[i + 1..];
    CountConcat(s[..i], [s[i]] + s[i + 1..], p);
    CountConcat(s[..i], s[i + 1..], p);
  }

  lemma RestOfPermutation(s: seq<real>, t: seq<real>) returns (i: nat)
    requires s != [] && multiset(s) == multiset(t)
    ensures i < |t| && t[i] == s[0] && multiset(s[1..]) == multiset(t[..i] + t[i + 1..])
  {
    assert s[0] in multiset(t);
    i :| 0 <= i < |t| && t[i] == s[0];
    var rest := t[..i] + t[i + 1..];
    assert t == t[..i] + ([t[i]] + t[i + 1..]);
    assert multiset(t) == multiset(t[..i]) + (multiset{t[i]} + multiset(t[i + 1..]));
    assert s == [s[0]] + s[1..];
    assert multiset(s) == multiset{s[0]} + multiset(s[1..]);
    assert multiset(rest) == multiset(t[..i]) + multiset(t[i + 1..]);
    assert multiset(s[1..]) == multiset(s) - multiset{s[0]} == multiset(rest);
  }

  /** Counting does not depend on the order of the samples. */
  lemma {:induction false} CountPermutation(s: seq<real>, t: seq<real>, p: real -> bool)
    requires multiset(s) == multiset(t)
    ensures Count(s, p) == Count(t, p) && |s| == |t|
    decreases |s|
  {
    if s == [] {
      assert |multiset(t)| == |t|;
    } else {
      var i := RestOfPermutation(s, t);
      CountPermutation(s[1..], t[..i] + t[i + 1..], p);
      CountRemoved(t, i, p);
    }
  }

  // ---------- the statistics ----------

  /** `statistics.median`. */
  function Median(values: seq<real>): real
    requires values != []
  {
    var s := Sorted(values);
    var n := |values|;
    if n % 2 == 1 then s[n / 2] else (s[n / 2 - 1] + s[n / 2]) / 2.0
  }

  function Deviations(values: seq<real>, center: real): (d: seq<real>)
    ensures |d| == |values| && forall i | 0 <= i < |values| :: d[i] == Abs(values[i] - center)
  {
    seq(|values|, i requires 0 <= i < |values| => Abs(values[i] - center))
  }

  /** `median_mad`. */
  function MedianMad(values: seq<real>): (real, real) {
    if values == [] then (0.0, 0.0)
    else
      var med := Median(values);
      (med, Median(Deviations(values, med)))
  }

  const MAD_SCALE := 0.6745

  /** `modified_z_score`: a baseline without dispersion scores 0. */
  function ModifiedZScore(value: real, median: real, mad: real): real {
    if mad == 0.0 then 0.0 else MAD_SCALE * (value - median) / mad
  }

  /** `robust_z`. */
  function RobustZ(value: real, values: seq<real>): real {
    var (med, mad) := MedianMad(values);
    ModifiedZScore(value, med, mad)
  }

  // ---------- what the statistics are ----------

  lemma {:induction false} InsertKeepsMultiset(x: real, s: seq<real>)
    ensures multiset(Insert(x, s)) == multiset{x} + multiset(s)
  {
    if s != [] && x > s[0] {
      InsertKeepsMultiset(x, s[1..]);
      assert s == [s[0]] + s[1..];
    }
  }

  lemma {:induction false} SortedKeepsMultiset(s: seq<real>)
    ensures multiset(Sorted(s)) == multiset(s)
  {
    if s != [] {
      SortedKeepsMultiset(s[1..]);
      InsertKeepsMultiset(s[0], Sorted(s[1..]));
      assert s == [s[0]] + s[1..];
    }
  }

  lemma HeadIsLeast(s: seq<real>, x: real)
    requires IsSorted(s) && x in multiset(s)
    ensures s != [] && s[0] <= x
  {
    var i :| 0 <= i < |s| && s[i] == x;
    assert i > 0 ==> s[0] <= s[i];
  }

  lemma SameHead(s: seq<real>, t: seq<real>)
    requires s != [] && IsSorted(s) && IsSorted(t) && multiset(s) == multiset(t)
    ensures t != [] && s[0] == t[0]
  {
    hide IsSorted;
    assert s[0] in multiset(t);
    HeadIsLeast(t, s[0]);
    assert t[0] in multiset(s);
    HeadIsLeast(s, t[0]);
  }

  lemma TailOfSorted(s: seq<real>)
    requires s != [] && IsSorted(s)
    ensures s == [s[0]] + s[1..] && IsSorted(s[1..]) && multiset(s[1..]) == multiset(s) - multiset{s[0]}
  {
    assert s == [s[0]] + s[1..];
  }

  lemma {:induction false} SortedPermutationsAgree(s: seq<real>, t: seq<real>)
    requires IsSorted(s) && IsSorted(t) && multiset(s) == multiset(t)
    ensures s == t
    decreases |s|
  {
    hide IsSorted;
    if s == [] {
      assert |multiset(t)| == |t|;
    } else {
      SameHead(s, t);
      TailOfSorted(s);
      TailOfSorted(t);
      SortedPermutationsAgree(s[1..], t[1..]);
    }
  }

  lemma SortedIs(values: seq<real>, ascending: seq<real>)
    requires IsSorted(ascending) && multiset(ascending) == multiset(values)
    ensures Sorted(values) == ascending
  {
    hide Sorted, Count;
    SortedSorts(values, AtLeast(0.0));
    SortedKeepsMultiset(values);
    SortedPermutationsAgree(Sorted(values), ascending);
  }

  lemma MiddleIndices(n: nat)
    ensures n % 2 == 1 ==> (n - 1) / 2 == n / 2
    ensures n > 0 && n % 2 == 0 ==> (n - 1) / 2 == n / 2 - 1
  {}

  /** The median is the mean of the two middle samples, which are one for an odd number of
      samples: in any ascending arrangement of the sample. */
  lemma MedianIsMiddle(values: seq<real>, ascending: seq<real>)
    requires values != [] && IsSorted(ascending) && multiset(ascending) == multiset(values)
    ensures |ascending| == |values|
    ensures Median(values) == (ascending[(|values| - 1) / 2] + ascending[|values| / 2]) / 2.0
  {
    hide Sorted, IsSorted;
    SortedIs(values, ascending);
    MiddleIndices(|values|);
  }

  predicate IsDistance(d: real, x: real, y: real) {
    d >= 0.0 && (d == x - y || d == y - x)
  }

  /** The MAD is the median of the distances from the median; without samples both are 0. */
  lemma MadIsMedianDistance(values: seq<real>, distances: seq<real>)
    requires |distances| == |values|
    requires forall i | 0 <= i < |values| :: IsDistance(distances[i], values[i], Median(values))
    ensures MedianMad(values) == if values == [] then (0.0, 0.0) else (Median(values), Median(distances))
  {
    if values != [] { assert distances == Deviations(values, Median(values)); }
  }

  /** The robust score in units of the scaled MAD. */
  lemma ScoreInScaledMads(value: real, median: real, mad: real)
    ensures mad == 0.0 ==> ModifiedZScore(value, median, mad) == 0.0
    ensures mad != 0.0 ==> ModifiedZScore(value, median, mad) * mad == 0.6745 * (value - median)
  {
    if mad != 0.0 { QuotientTimes(0.6745 * (value - median), mad); }
  }

  lemma QuotientTimes(a: real, b: real)
    requires b != 0.0
    ensures a / b * b == a
  {}

  // ---------- breakdown point ----------

  /** In a sorted sample the elements outside a property at either end bound its count. */
  lemma CountOfTail(s: seq<real>, k: nat, p: real -> bool)
    requires k <= |s| && forall i | 0 <= i < k :: !p(s[i])
    ensures Count(s, p) <= |s| - k
  {
    assert s == s[..k] + s[k..];
    CountConcat(s[..k], s[k..], p);
    CountNone(s[..k], p);
    CountAtMostAll(s[k..], p);
  }

  lemma CountOfHead(s: seq<real>, k: nat, p: real -> bool)
    requires k <= |s| && forall i | k <= i < |s| :: !p(s[i])
    ensures Count(s, p) <= k
  {
    assert s == s[..k] + s[k..];
    CountConcat(s[..k], s[k..], p);
    CountAtMostAll(s[..k], p);
    CountNone(s[k..], p);
  }

  lemma MajorityHoldsMiddle(s: seq<real>, lo: real, hi: real)
    requires s != [] && IsSorted(s) && 2 * Count(s, In(lo, hi)) > |s|
    ensures lo <= s[(|s| - 1) / 2] <= s[|s| / 2] <= hi
  {
    if s[(|s| - 1) / 2] < lo { CountOfTail(s, (|s| - 1) / 2 + 1, In(lo, hi)); }
    if s[|s| / 2] > hi { CountOfHead(s, |s| / 2, In(lo, hi)); }
  }

  /** If more than half of the samples lie in an interval, so does the median. */
  lemma MajorityBoundsMedian(values: seq<real>, lo: real, hi: real)
    requires 2 * Count(values, In(lo, hi)) > |values|
    ensures values != [] && lo <= Median(values) <= hi
  {
    hide Sorted, Count, IsSorted, In;
    CountAtMostAll(values, In(lo, hi));
    SortedSorts(values, In(lo, hi));
    MajorityHoldsMiddle(Sorted(values), lo, hi);
  }

  /** Then the median deviation from a center in the interval is at most its length. */
  lemma MajorityBoundsMad(values: seq<real>, med: real, lo: real, hi: real)
    requires 2 * Count(values, In(lo, hi)) > |values| && lo <= med <= hi
    ensures values != [] && 0.0 <= Median(Deviations(values, med)) <= hi - lo
  {
    hide Count, In, Median, Deviations;
    CountAtMostAll(values, In(lo, hi));
    DeviationsOfMajority(values, med, lo, hi);
    MajorityBoundsMedian(Deviations(values, med), 0.0, hi - lo);
  }

  lemma {:induction false} DeviationsOfMajority(values: seq<real>, med: real, lo: real, hi: real)
    requires lo <= med <= hi
    ensures Count(Deviations(values, med), In(0.0, hi - lo)) >= Count(values, In(lo, hi))
  {
    if values != [] {
      DeviationsOfMajority(values[1..], med, lo, hi);
      assert Deviations(values, med)[1..] == Deviations(values[1..], med);
    }
  }

  /** `values` are the clean samples and the injected ones, in any order. */
  ghost predicate IsMix(values: seq<real>, clean: seq<real>, injected: seq<real>) {
    multiset(values) == multiset(clean + injected)
  }

  lemma CleanMajority(values: seq<real>, clean: seq<real>, injected: seq<real>, lo: real, hi: real)
    requires IsMix(values, clean, injected) && |injected| < |clean|
    requires forall i | 0 <= i < |clean| :: lo <= clean[i] <= hi
    ensures |values| == |clean| + |injected| && 2 * Count(values, In(lo, hi)) > |values|
  {
    var p := In(lo, hi);
    CountPermutation(values, clean + injected, p);
    CountConcat(clean, injected, p);
    CountAll(clean, p);
  }

  /** Anti-poisoning bound: with strictly fewer injected than clean samples, whatever was
      injected and in whatever order, the median stays within the clean range and the MAD
      is at most that range. */
  lemma PoisoningBound(values: seq<real>, clean: seq<real>, injected: seq<real>, lo: real, hi: real)
    requires IsMix(values, clean, injected) && |injected| < |clean|
    requires forall i | 0 <= i < |clean| :: lo <= clean[i] <= hi
    ensures var (med, mad) := MedianMad(values); lo <= med <= hi && 0.0 <= mad <= hi - lo
  {
    hide Count, In, Median, Deviations, IsMix;
    CleanMajority(values, clean, injected, lo, hi);
    MajorityBoundsMedian(values, lo, hi);
    MajorityBoundsMad(values, Median(values), lo, hi);
  }

  lemma RankFromCount(s: seq<real>, v: real, m: nat)
    requires IsSorted(s) && 0 < m <= |s| && Count(s, AtLeast(v)) >= m
    ensures s[|s| - m] >= v
  {
    if s[|s| - m] < v {
      CountOfTail(s, |s| - m + 1, AtLeast(v));
    }
  }

  /** Every injection of `m` samples leaves the median in the interval. */
  ghost predicate MedianStays(clean: seq<real>, m: nat, lo: real, hi: real) {
    forall values, injected | IsMix(values, clean, injected) && |injected| == m ::
      values != [] && lo <= Median(values) <= hi
  }

  lemma HalfMovesMedian(clean: seq<real>, m: nat, lo: real, goal: real) returns (injected: seq<real>)
    requires clean != [] && m >= |clean| && forall i | 0 <= i < |clean| :: lo <= clean[i]
    ensures |injected| == m && Median(clean + injected) > goal
  {
    hide Count, Sorted, AtLeast;
    var big := Abs(goal) + Abs(goal) + Abs(lo) + 1.0;
    injected := seq(m, _ => big);
    var values, n := clean + injected, |clean| + m;
    SortedSorts(values, AtLeast(big));
    SortedSorts(values, AtLeast(lo));
    var s := Sorted(values);
    CountConcat(clean, injected, AtLeast(big));
    CountAll(injected, AtLeast(big));
    RankFromCount(s, big, m);
    CountAll(values, AtLeast(lo));
    RankFromCount(s, lo, n);
    assert s[n / 2] >= s[n - m] >= big && s[(n - 1) / 2] >= s[0] >= lo;
  }

  /** The bound is tight: as many injected samples as clean ones move the median anywhere. */
  lemma BreakdownAtHalf(clean: seq<real>, lo: real, goal: real) returns (injected: seq<real>)
    requires clean != [] && forall i | 0 <= i < |clean| :: lo <= clean[i]
    ensures |injected| == |clean| && Median(clean + injected) > goal
  {
    injected := HalfMovesMedian(clean, |clean|, lo, goal);
  }

  /** Exactly how many injected samples the median withstands, for every clean range: fewer
      than there are clean ones. */
  lemma MedianStaysIff(clean: seq<real>, m: nat, lo: real, hi: real)
    requires clean != [] && forall i | 0 <= i < |clean| :: lo <= clean[i] <= hi
    ensures MedianStays(clean, m, lo, hi) <==> m < |clean|
  {
    hide Count, Median, In;
    if m < |clean| {
      forall values, injected | IsMix(values, clean, injected) && |injected| == m
        ensures values != [] && lo <= Median(values) <= hi
      {
        CleanMajority(values, clean, injected, lo, hi);
        MajorityBoundsMedian(values, lo, hi);
      }
    } else {
      var injected := HalfMovesMedian(clean, m, lo, hi);
      assert IsMix(clean + injected, clean, injected);
    }
  }

  lemma {:induction false} SumAppend(s: seq<real>, x: real)
    ensures Sum(s + [x]) == Sum(s) + x
  {
    if s == [] {
      assert s + [x] == [x];
      assert [x][1..] == [];
    } else {
      assert (s + [x])[1..] == s[1..] + [x];
      SumAppend(s[1..], x);
    }
  }

  /** The mean has no such protection: a single injected sample moves it anywhere. */
  lemma OneSampleMovesMean(clean: seq<real>, goal: real) returns (x: real)
    ensures Mean(clean + [x]) == goal
  {
    x := goal * ((|clean| + 1) as real) - Sum(clean);
    SumAppend(clean, x);
  }

  lemma CountAtLeastHead(s: seq<real>, k: nat, p: real -> bool)
    requires k <= |s| && forall i | 0 <= i < k :: p(s[i])
    ensures Count(s, p) >= k
  {
    assert s == s[..k] + s[k..];
    CountConcat(s[..k], s[k..], p);
    CountAll(s[..k], p);
  }

  lemma {:induction false} ZeroDeviations(values: seq<real>, med: real)
    ensures Count(Deviations(values, med), In(0.0, 0.0)) == Count(values, In(med, med))
  {
    if values != [] {
      ZeroDeviations(values[1..], med);
      assert Deviations(values, med)[1..] == Deviations(values[1..], med);
    }
  }

  /** A sample of non-negative numbers with median 0 has more than half zeros. */
  lemma ZeroMedian(d: seq<real>)
    requires d != [] && (forall i | 0 <= i < |d| :: d[i] >= 0.0) && Median(d) == 0.0
    ensures 2 * Count(d, In(0.0, 0.0)) > |d|
  {
    hide Count, Sorted;
    SortedSorts(d, In(0.0, 0.0));
    var s, n := Sorted(d), |d|;
    forall i | 0 <= i < n ensures s[i] >= 0.0 { assert s[i] in s; }
    assert s[n / 2] == 0.0;
    CountAtLeastHead(s, n / 2 + 1, In(0.0, 0.0));
  }

  /** Exactly when the MAD is 0: more than half of the samples are equal to the median. */
  lemma MadIsZeroIff(values: seq<real>)
    requires values != []
    ensures MedianMad(values).1 == 0.0 <==> 2 * Count(values, In(Median(values), Median(values))) > |values|
  {
    hide Count, Median, In;
    var med := Median(values);
    ZeroDeviations(values, med);
    if MedianMad(values).1 == 0.0 {
      ZeroMedian(Deviations(values, med));
    } else if 2 * Count(values, In(med, med)) > |values| {
      MajorityBoundsMad(values, med, med, med);
      assert false;
    }
  }

  /** Some injection of `m` samples brings the MAD to 0. */
  ghost predicate CanZeroMad(clean: seq<real>, m: nat) {
    exists values, injected :: IsMix(values, clean, injected) && |injected| == m && MedianMad(values).1 == 0.0
  }

  /** Some value occurs in the clean samples more than (|clean| - m) / 2 times. */
  ghost predicate HasHeavyValue(clean: seq<real>, m: nat) {
    exists v :: 2 * Count(clean, In(v, v)) > |clean| - m
  }

  lemma ZeroMadNeedsHeavyValue(values: seq<real>, clean: seq<real>, injected: seq<real>)
    requires clean != [] && IsMix(values, clean, injected) && MedianMad(values).1 == 0.0
    ensures HasHeavyValue(clean, |injected|)
  {
    hide Count, Median, In, MedianMad;
    assert |multiset(values)| == |values| && |multiset(clean + injected)| == |clean + injected|;
    var v := Median(values);
    MadIsZeroIff(values);
    CountPermutation(values, clean + injected, In(v, v));
    CountConcat(clean, injected, In(v, v));
    CountAtMostAll(injected, In(v, v));
    assert 2 * Count(clean, In(v, v)) > |clean| - |injected|;
  }

  /** Repeating a heavy value zeroes the MAD. */
  lemma HeavyValueZeroesMad(clean: seq<real>, m: nat) returns (injected: seq<real>)
    requires clean != [] && HasHeavyValue(clean, m)
    ensures |injected| == m && MedianMad(clean + injected).1 == 0.0
  {
    hide Count, Median, MedianMad;
    var v :| 2 * Count(clean, In(v, v)) > |clean| - m;
    injected := seq(m, _ => v);
    CountAll(injected, In(v, v));
    CountConcat(clean, injected, In(v, v));
    MajorityBoundsMedian(clean + injected, v, v);
    MadIsZeroIff(clean + injected);
  }

  /** Exactly which clean samples let `m` injected ones bring the MAD to 0. */
  lemma CanZeroMadIff(clean: seq<real>, m: nat)
    requires clean != []
    ensures CanZeroMad(clean, m) <==> HasHeavyValue(clean, m)
  {
    hide HasHeavyValue, MedianMad;
    if CanZeroMad(clean, m) {
      var values, injected :| IsMix(values, clean, injected) && |injected| == m && MedianMad(values).1 == 0.0;
      ZeroMadNeedsHeavyValue(values, clean, injected);
    }
    if HasHeavyValue(clean, m) {
      var injected := HeavyValueZeroesMad(clean, m);
      assert IsMix(clean + injected, clean, injected);
    }
  }

  /** What the robust score is not protected against: a minority that repeats one clean
      value can bring the MAD to 0, and with it the score of everything. */
  lemma MinorityCanZeroMad() returns (clean: seq<real>, injected: seq<real>)
    ensures |injected| < |clean|
    ensures MedianMad(clean).1 > 0.0 && MedianMad(clean + injected).1 == 0.0
  {
    clean, injected := [1.0, 2.0, 3.0], [2.0, 2.0];
    var values := clean + injected;
    assert Sorted(clean) == [1.0, 2.0, 3.0] by { SortedIsItself(clean); }
    var d := Deviations(clean, 2.0);
    assert d == [1.0, 0.0, 1.0];
    CountedMedian(d, 1.0, 1.0);
    CountedMedian(values, 2.0, 2.0);
    var e := Deviations(values, 2.0);
    assert e == [1.0, 0.0, 1.0, 0.0, 0.0];
    CountedMedian(e, 0.0, 0.0);
  }

  lemma {:induction false} SortedIsItself(s: seq<real>)
    requires IsSorted(s)
    ensures Sorted(s) == s
  {
    if s != [] {
      SortedIsItself(s[1..]);
      assert s == [s[0]] + s[1..];
      if |s| > 1 { assert s[0] <= s[1] == s[1..][0]; }
    }
  }

  lemma CountedMedian(s: seq<real>, lo: real, hi: real)
    requires |s| == 3 || |s| == 5
    requires (if Within(lo, hi, s[0]) then 1 else 0) + (if Within(lo, hi, s[1]) then 1 else 0) + (if Within(lo, hi, s[2]) then 1 else 0)
             + (if |s| == 5 && Within(lo, hi, s[3]) then 1 else 0) + (if |s| == 5 && Within(lo, hi, s[4]) then 1 else 0) > |s| / 2
    ensures lo <= Median(s) <= hi
  {
    var p := In(lo, hi);
    CountConcat(s[..3], s[3..], p);
    assert s == s[..3] + s[3..];
    CountOfThree(s[..3], p);
    if |s| == 5 { CountOfTwo(s[3..], p); }
    MajorityBoundsMedian(s, lo, hi);
  }

  lemma CountOfThree(s: seq<real>, p: real -> bool)
    requires |s| == 3
    ensures Count(s, p) == (if p(s[0]) then 1 else 0) + (if p(s[1]) then 1 else 0) + (if p(s[2]) then 1 else 0)
  {
    CountOfTwo(s[1..], p);
  }

  lemma CountOfTwo(s: seq<real>, p: real -> bool)
    requires |s| == 2
    ensures Count(s, p) == (if p(s[0]) then 1 else 0) + (if p(s[1]) then 1 else 0)
  {
    assert Count(s[1..], p) == (if p(s[1..][0]) then 1 else 0) + Count(s[1..][1..], p);
  }
}
