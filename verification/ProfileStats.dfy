/** The running statistic one profile entry keeps over its measured times: the
    two largest, the two smallest, a total and a call count, all updated as
    each measurement ends. */
module ProfileStats {

  const INT64_MAX := 0x7fff_ffff_ffff_ffff
  const TWO_TO_63 := 0x8000_0000_0000_0000
  const TWO_TO_64 := 0x1_0000_0000_0000_0000

  /** Signed 64-bit wrap-around. */
  function Wrap64(x: int): int { (x + TWO_TO_63) % TWO_TO_64 - TWO_TO_63 }

  datatype Stats = Stats(total: int, min0: int, min1: int, max0: int, max1: int, calls: nat)

  /** The values written at construction and by a clear. */
  const FRESH := Stats(0, INT64_MAX, INT64_MAX, 0, 0, 0)

  // ----- One measurement -----

  function RecordMax(s: Stats, t: int): Stats {
    if t > s.max0 then s.(max1 := s.max0, max0 := t)
    else if t > s.max1 then s.(total := if s.max1 != 0 then Wrap64(s.total + s.max1) else s.total, max1 := t)
    else s
  }

  function RecordMin(s: Stats, t: int): Stats {
    if t < s.min0 then s.(min1 := s.min0, min0 := t)
    else if t < s.min1 then s.(total := if s.min1 != INT64_MAX then Wrap64(s.total + s.min1) else s.total, min1 := t)
    else s
  }

  function RecordMiddle(s: Stats, t: int): Stats {
    if s.min1 < t < s.max1 then s.(total := Wrap64(s.total + t)) else s
  }

  /** One completed measurement: the call count, then the three updates in the
      order the code makes them. */
  function Record(s: Stats, t: int): Stats {
    RecordMiddle(RecordMin(RecordMax(s.(calls := (s.calls + 1) % TWO_TO_64), t), t), t)
  }

  /** The statistic after a sequence of measurements. */
  function Recorded(times: seq<int>): Stats {
    if times == [] then FRESH else Record(Recorded(times[..|times| - 1]), times[|times| - 1])
  }

  lemma RecordedAppend(times: seq<int>, t: int)
    ensures Recorded(times + [t]) == Record(Recorded(times), t)
  {
    hide Record;
    assert (times + [t])[..|times|] == times;
  }

  // ----- The extremes are order statistics -----

  ghost predicate TwoLargest(m: multiset<int>, a: int, b: int) {
    && a >= b
    && multiset{a, b} <= m
    && forall x | x in m - multiset{a, b} :: x <= b
  }

  ghost predicate TwoSmallest(m: multiset<int>, a: int, b: int) {
    && a <= b
    && multiset{a, b} <= m
    && forall x | x in m - multiset{a, b} :: b <= x
  }

  lemma LargestBounds(m: multiset<int>, a: int, b: int, x: int)
    requires TwoLargest(m, a, b) && x in m
    ensures x <= a
  {
    assert x in multiset{a, b} || x in m - multiset{a, b};
  }

  /** The two largest elements are determined by the multiset. */
  lemma TwoLargestAreUnique(m: multiset<int>, a: int, b: int, c: int, d: int)
    requires TwoLargest(m, a, b) && TwoLargest(m, c, d)
    ensures a == c && b == d
  {
    assert a in multiset{a, b} && c in multiset{c, d};
    LargestBounds(m, a, b, c);
    LargestBounds(m, c, d, a);
    assert multiset{a, b}[a] >= 1 && multiset{c, d}[d] >= 1;
    assert d != b ==> d in m - multiset{a, b};
    assert b != d ==> b in m - multiset{c, d};
  }

  lemma SmallestBounds(m: multiset<int>, a: int, b: int, x: int)
    requires TwoSmallest(m, a, b) && x in m
    ensures a <= x
  {
    assert x in multiset{a, b} || x in m - multiset{a, b};
  }

  lemma TwoSmallestAreUnique(m: multiset<int>, a: int, b: int, c: int, d: int)
    requires TwoSmallest(m, a, b) && TwoSmallest(m, c, d)
    ensures a == c && b == d
  {
    assert a in multiset{a, b} && c in multiset{c, d};
    SmallestBounds(m, a, b, c);
    SmallestBounds(m, c, d, a);
    assert d != b ==> d in m - multiset{a, b};
    assert b != d ==> b in m - multiset{c, d};
  }

  /** How one measurement moves the four extremes. */
  lemma RecordMovesExtremes(s: Stats, t: int)
    ensures var r := Record(s, t);
      && r.max0 == (if t > s.max0 then t else s.max0)
      && r.max1 == (if t > s.max0 then s.max0 else if t > s.max1 then t else s.max1)
      && r.min0 == (if t < s.min0 then t else s.min0)
      && r.min1 == (if t < s.min0 then s.min0 else if t < s.min1 then t else s.min1)
  {
  }

  lemma Exchange(m: multiset<int>, keep: int, out: int, t: int)
    requires multiset{keep, out} <= m
    ensures m + multiset{t} - multiset{t, keep} == m - multiset{keep, out} + multiset{out}
    ensures m + multiset{t} - multiset{keep, out} == m - multiset{keep, out} + multiset{t}
    ensures multiset{t, keep} <= m + multiset{t} && multiset{keep, out} <= m + multiset{t}
  {
  }

  lemma LargestInsert(m: multiset<int>, a: int, b: int, t: int)
    requires TwoLargest(m, a, b)
    ensures TwoLargest(m + multiset{t},
                       if t > a then t else a,
                       if t > a then a else if t > b then t else b)
  {
    Exchange(m, a, b, t);
    assert multiset{t, a} == multiset{a, t};
  }

  lemma SmallestInsert(m: multiset<int>, a: int, b: int, t: int)
    requires TwoSmallest(m, a, b)
    ensures TwoSmallest(m + multiset{t},
                        if t < a then t else a,
                        if t < a then a else if t < b then t else b)
  {
    Exchange(m, a, b, t);
    assert multiset{t, a} == multiset{a, t};
  }

  ghost predicate ExtremesOf(s: Stats, times: seq<int>) {
    && TwoLargest(multiset{0, 0} + multiset(times), s.max0, s.max1)
    && TwoSmallest(multiset{INT64_MAX, INT64_MAX} + multiset(times), s.min0, s.min1)
  }

  lemma AddOne(base: multiset<int>, times: seq<int>, t: int)
    ensures base + multiset(times + [t]) == base + multiset(times) + multiset{t}
  {
  }

  lemma ExtremesStep(s: Stats, times: seq<int>, t: int)
    requires ExtremesOf(s, times)
    ensures ExtremesOf(Record(s, t), times + [t])
  {
    RecordMovesExtremes(s, t);
    AddOne(multiset{0, 0}, times, t);
    AddOne(multiset{INT64_MAX, INT64_MAX}, times, t);
    LargestInsert(multiset{0, 0} + multiset(times), s.max0, s.max1, t);
    SmallestInsert(multiset{INT64_MAX, INT64_MAX} + multiset(times), s.min0, s.min1, t);
  }

  /** After any measurements at all, repeats counted: the maxima are the two
      largest of the times together with two zeros, and the minima the two
      smallest of the times together with two sentinels. */
  lemma {:induction false} ExtremesAreOrderStatistics(times: seq<int>)
    ensures ExtremesOf(Recorded(times), times)
  {
    if times == [] {
      assert multiset{0, 0} + multiset(times) == multiset{0, 0};
      assert multiset{INT64_MAX, INT64_MAX} + multiset(times) == multiset{INT64_MAX, INT64_MAX};
    } else {
      var init, t := times[..|times| - 1], times[|times| - 1];
      ExtremesAreOrderStatistics(init);
      assert times == init + [t];
      ExtremesStep(Recorded(init), init, t);
    }
  }

  /** A time as a signed 64-bit integer holds it. */
  ghost predicate Signed64(times: seq<int>) {
    forall t | t in times :: -0x8000_0000_0000_0000 <= t < 0x8000_0000_0000_0000
  }

  lemma Pick(m: multiset<int>) returns (x: int)
    requires |m| >= 1
    ensures x in m
  {
    assert (forall y :: y !in m) ==> m == multiset{};
    x :| x in m;
  }

  /** Below the sentinel, what is in the padded multiset was measured. */
  lemma BelowTop(m: multiset<int>, top: int, a: int, b: int)
    requires multiset{a, b} <= multiset{top, top} + m && a < top && b < top
    ensures multiset{a, b} <= m
  {
    forall x ensures multiset{a, b}[x] <= m[x] {
      assert (multiset{top, top} + m)[x] == multiset{top, top}[x] + m[x];
      assert x == top ==> multiset{a, b}[x] == 0;
    }
  }

  /** If the second smallest is the sentinel, every measured value but one equals
      it. */
  lemma AtTop(m: multiset<int>, top: int, a: int)
    requires TwoSmallest(multiset{top, top} + m, a, top) && forall x | x in m :: x <= top
    requires |m| >= 2 && a in m
    ensures multiset{a, top} <= m
  {
    var rest := m - multiset{a};
    assert m == rest + multiset{a};
    var y := Pick(rest);
    var others := multiset{top, top} + m - multiset{a, top};
    assert others == multiset{top} + rest;
    assert y in others && y in m;
    assert rest[top] >= 1;
  }

  lemma DropSentinels(m: multiset<int>, top: int, a: int, b: int)
    requires TwoSmallest(multiset{top, top} + m, a, b) && forall x | x in m :: x <= top
    ensures |m| >= 1 ==> a in m && forall x | x in m :: a <= x
    ensures |m| >= 2 ==> TwoSmallest(m, a, b)
  {
    var all := multiset{top, top} + m;
    SmallestBounds(all, a, b, top);
    forall x | x in m ensures a <= x {
      SmallestBounds(all, a, b, x);
    }
    if |m| >= 1 {
      var x := Pick(m);
      assert a == top ==> x == top;
    }
    if |m| >= 2 {
      assert b <= top by { assert multiset{a, b}[b] >= 1 && b in all; }
      if b < top {
        BelowTop(m, top, a, b);
      } else {
        AtTop(m, top, a);
      }
      forall x | x in m - multiset{a, b} ensures b <= x {
        assert x in all - multiset{a, b};
      }
    }
  }

  /** The sentinel is never mistaken for a time: over signed 64-bit times the
      first minimum is the smallest time as soon as there is one, and the two
      minima are the two smallest times as soon as there are two. */
  lemma MinimaAreMeasured(times: seq<int>)
    requires Signed64(times)
    ensures times != [] ==> Recorded(times).min0 in times && forall t | t in times :: Recorded(times).min0 <= t
    ensures |times| >= 2 ==> TwoSmallest(multiset(times), Recorded(times).min0, Recorded(times).min1)
  {
    hide Recorded;
    ExtremesAreOrderStatistics(times);
    forall x | x in multiset(times) ensures x <= INT64_MAX {
      assert x in times;
    }
    DropSentinels(multiset(times), INT64_MAX, Recorded(times).min0, Recorded(times).min1);
    forall t | t in times ensures t in multiset(times) {
    }
  }

  /** The stored call count is the number of measurements modulo 2^64. */
  lemma {:induction false} CallsAreCounted(times: seq<int>)
    ensures Recorded(times).calls == |times| % 0x1_0000_0000_0000_0000
  {
    if times != [] {
      hide Record;
      var n := |times| - 1;
      CallsAreCounted(times[..n]);
      RecordCounts(Recorded(times[..n]), times[n]);
      CountStep(n);
    }
  }

  lemma RecordCounts(s: Stats, t: int)
    ensures Record(s, t).calls == (s.calls + 1) % TWO_TO_64
  {
  }

  lemma CountStep(n: nat)
    ensures (n % TWO_TO_64 + 1) % TWO_TO_64 == (n + 1) % TWO_TO_64
  {
  }

  // ----- What the total contains -----

  /** A minimum that is not the initial sentinel, else nothing. */
  function Real(min: int): int { if min == INT64_MAX then 0 else min }

  /** What one measurement adds to the total, before any wrap-around. */
  function Contribution(s: Stats, t: int): int {
    (if s.max1 < t <= s.max0 then s.max1 else 0) +
    (if s.min0 <= t < s.min1 then Real(s.min1) else 0) +
    (if Record(s, t).min1 < t < Record(s, t).max1 then t else 0)
  }

  /** The total over unbounded integers. */
  function ExactTotal(times: seq<int>): int {
    if times == [] then 0
    else ExactTotal(times[..|times| - 1]) + Contribution(Recorded(times[..|times| - 1]), times[|times| - 1])
  }

  function Sum(times: seq<int>): int {
    if times == [] then 0 else Sum(times[..|times| - 1]) + times[|times| - 1]
  }

  /** Everything the entry still accounts for. */
  function Account(times: seq<int>): int {
    var s := Recorded(times);
    ExactTotal(times) + s.max0 + s.max1 + Real(s.min0) + Real(s.min1)
  }

  /** Measured times the code is written for: not negative, and below the
      sentinel. */
  ghost predicate Ordinary(times: seq<int>) {
    forall i | 0 <= i < |times| :: 0 <= times[i] < INT64_MAX
  }

  /** In which of the three places a measurement is counted. */
  function Weight(s: Stats, t: int): nat {
    (if t > s.max1 then 1 else 0) + (if t < s.min1 then 1 else 0) + (if s.min1 < t < s.max1 then 1 else 0)
  }

  /** What falls out of the account: the old second extreme, each time a new
      first extreme pushes the old one down. */
  function Dropped(s: Stats, t: int): int {
    (if t > s.max0 then s.max1 else 0) + (if t < s.min0 then Real(s.min1) else 0)
  }

  predicate Ordered(s: Stats) {
    0 <= s.max1 <= s.max0 < INT64_MAX && 0 <= s.min0 <= s.min1 <= INT64_MAX
  }

  lemma {:induction false} RecordedIsOrdered(times: seq<int>)
    requires Ordinary(times)
    ensures Ordered(Recorded(times))
  {
    if times != [] {
      RecordedIsOrdered(times[..|times| - 1]);
      RecordMovesExtremes(Recorded(times[..|times| - 1]), times[|times| - 1]);
    }
  }

  /** How the extremes' own share of the account moves, and what goes to the
      total: the ledger of one measurement. */
  lemma LedgerStep(s: Stats, t: int)
    requires Ordered(s) && 0 <= t < INT64_MAX
    ensures var r := Record(s, t);
      && Contribution(s, t) + r.max0 + r.max1 + Real(r.min0) + Real(r.min1)
         == s.max0 + s.max1 + Real(s.min0) + Real(s.min1) + Weight(s, t) * t - Dropped(s, t)
      && Contribution(s, t) >= 0 && Dropped(s, t) >= 0 && Weight(s, t) <= 2
      && Ordered(r)
  {
    RecordMovesExtremes(s, t);
  }

  lemma Append(times: seq<int>, t: int)
    ensures Recorded(times + [t]) == Record(Recorded(times), t)
    ensures ExactTotal(times + [t]) == ExactTotal(times) + Contribution(Recorded(times), t)
    ensures Sum(times + [t]) == Sum(times) + t
  {
  }

  /** The account over a whole sequence: each time enters once for each place
      that counts it, and each new first extreme pushes out what it dropped. */
  lemma AccountStep(times: seq<int>, t: int)
    requires Ordinary(times) && 0 <= t < INT64_MAX
    ensures var s := Recorded(times);
      Account(times + [t]) == Account(times) + Weight(s, t) * t - Dropped(s, t)
    ensures Account(times + [t]) <= Account(times) + 2 * t
    ensures ExactTotal(times + [t]) >= ExactTotal(times)
  {
    var s := Recorded(times);
    RecordedIsOrdered(times);
    Append(times, t);
    LedgerStep(s, t);
    var w: nat := Weight(s, t);
    assert w == 0 || w == 1 || w == 2;
  }

  lemma ExtremesAreNotNegative(s: Stats)
    requires Ordered(s)
    ensures s.max0 + s.max1 + Real(s.min0) + Real(s.min1) >= 0
  {
  }

  lemma {:induction false} AccountIsAtMostTwice(times: seq<int>)
    requires Ordinary(times)
    ensures 0 <= ExactTotal(times) && Account(times) <= 2 * Sum(times)
  {
    if times == [] {
      assert Account([]) == 0;
    } else {
      hide Record, Contribution, Weight, Dropped;
      var init, t := times[..|times| - 1], times[|times| - 1];
      AccountIsAtMostTwice(init);
      AccountStep(init, t);
      assert times == init + [t];
      Append(init, t);
    }
  }

  /** The account never exceeds twice the measured time, and the total is never
      more than the account. */
  lemma AccountBound(times: seq<int>)
    requires Ordinary(times)
    ensures 0 <= ExactTotal(times) <= Account(times) <= 2 * Sum(times)
  {
    hide Record, Contribution;
    AccountIsAtMostTwice(times);
    RecordedIsOrdered(times);
    ExtremesAreNotNegative(Recorded(times));
  }

  /** The one signed 64-bit integer congruent to `x` modulo 2^64. */
  lemma Wrap64IsSigned(x: int)
    ensures -0x8000_0000_0000_0000 <= Wrap64(x) < 0x8000_0000_0000_0000
    ensures (Wrap64(x) - x) % 0x1_0000_0000_0000_0000 == 0
  {
    var q := (x + TWO_TO_63) / TWO_TO_64;
    assert Wrap64(x) - x == -q * TWO_TO_64;
  }

  lemma Wrap64Adds(x: int, y: int)
    ensures Wrap64(Wrap64(x) + y) == Wrap64(x + y)
  {
  }

  /** The stored total is the exact one, wrapped. */
  lemma {:induction false} TotalIsWrapped(times: seq<int>)
    ensures Recorded(times).total == Wrap64(ExactTotal(times))
  {
    hide Record, Contribution, Wrap64;
    if times == [] {
      SmallIsNotWrapped(0);
    } else {
      var init, t := times[..|times| - 1], times[|times| - 1];
      TotalIsWrapped(init);
      TotalStep(init, t);
      assert times == init + [t];
    }
  }

  lemma TotalStep(times: seq<int>, t: int)
    requires Recorded(times).total == Wrap64(ExactTotal(times))
    ensures Recorded(times + [t]).total == Wrap64(ExactTotal(times + [t]))
  {
    hide Record, Contribution, Wrap64;
    RecordAddsContribution(Recorded(times), ExactTotal(times), t);
    Append(times, t);
  }

  lemma SmallIsNotWrapped(x: int)
    requires -TWO_TO_63 <= x < TWO_TO_63
    ensures Wrap64(x) == x
  {
  }

  lemma RecordMaxAdds(s: Stats, x: int, t: int)
    requires s.total == Wrap64(x)
    ensures RecordMax(s, t).total == Wrap64(x + if s.max1 < t <= s.max0 then s.max1 else 0)
  {
  }

  lemma RecordMinAdds(s: Stats, x: int, t: int)
    requires s.total == Wrap64(x)
    ensures RecordMin(s, t).total == Wrap64(x + if s.min0 <= t < s.min1 then Real(s.min1) else 0)
  {
  }

  lemma RecordAddsContribution(s: Stats, x: int, t: int)
    requires s.total == Wrap64(x)
    ensures Record(s, t).total == Wrap64(x + Contribution(s, t))
  {
    var s0 := s.(calls := (s.calls + 1) % TWO_TO_64);
    var s1 := RecordMax(s0, t);
    var s2 := RecordMin(s1, t);
    RecordMaxAdds(s0, x, t);
    var x1 := x + if s.max1 < t <= s.max0 then s.max1 else 0;
    RecordMinAdds(s1, x1, t);
    var x2 := x1 + if s.min0 <= t < s.min1 then Real(s.min1) else 0;
    assert s2.total == Wrap64(x2);
    Wrap64Adds(x2, t);
  }

  /** If twice the measured time fits in 63 bits, nothing ever wrapped: the
      stored total is exact, and within the bound. */
  lemma TotalCannotOverflow(times: seq<int>)
    requires Ordinary(times) && 2 * Sum(times) <= INT64_MAX
    ensures Recorded(times).total == ExactTotal(times)
    ensures 0 <= Recorded(times).total <= 2 * Sum(times)
  {
    TotalIsWrapped(times);
    AccountBound(times);
    SmallIsNotWrapped(ExactTotal(times));
  }

  /** A time strictly between the second extremes is added once and moves none
      of them. */
  lemma MiddleTimesAreAddedOnce(times: seq<int>, t: int)
    requires Recorded(times).min1 < t < Recorded(times).max1
    ensures ExactTotal(times + [t]) == ExactTotal(times) + t
    ensures var s, r := Recorded(times), Recorded(times + [t]);
      r.min0 == s.min0 && r.min1 == s.min1 && r.max0 == s.max0 && r.max1 == s.max1
  {
    ExtremesAreOrderStatistics(times);
    RecordMovesExtremes(Recorded(times), t);
    Append(times, t);
  }

  /** The guard under which one measurement is accounted for exactly: one place
      counts it, unless it is zero, and it pushes out no earlier time. */
  predicate CountedExactly(s: Stats, t: int) {
    if t == 0 then s.min0 == 0 || s.min1 == INT64_MAX
    else if t > s.max0 then t >= s.min1 && s.max1 == 0
    else if t > s.max1 then t >= s.min1
    else if t < s.min0 then s.min1 == INT64_MAX
    else if t < s.min1 then true
    else s.min1 < t < s.max1
  }

  /** The account grows by exactly the measured time if and only if that guard
      holds.  It fails for a first measurement that is not zero, and for a new
      maximum once two earlier times were not zero. */
  lemma AccountIsExactIff(times: seq<int>, t: int)
    requires Ordinary(times) && 0 <= t < INT64_MAX
    ensures Account(times + [t]) == Account(times) + t <==> CountedExactly(Recorded(times), t)
  {
    RecordedIsOrdered(times);
    AccountStep(times, t);
  }

  /** The account is not the measured time, in either direction: one time alone
      is counted from both ends, and times that keep growing are dropped. */
  lemma AccountIsNotExact()
    ensures Account([1]) == 2 && Sum([1]) == 1
    ensures Account([1, 2, 3, 4, 5]) == 12 && Sum([1, 2, 3, 4, 5]) == 15
  {
    Append([], 1);
    assert [] + [1] == [1];
    Append([1], 2);
    assert [1] + [2] == [1, 2];
    Append([1, 2], 3);
    assert [1, 2] + [3] == [1, 2, 3];
    Append([1, 2, 3], 4);
    assert [1, 2, 3] + [4] == [1, 2, 3, 4];
    Append([1, 2, 3, 4], 5);
    assert [1, 2, 3, 4] + [5] == [1, 2, 3, 4, 5];
  }
}
