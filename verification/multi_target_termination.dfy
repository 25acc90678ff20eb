/**
  A search-termination strategy for one-to-many searches: it keeps the set of
  targets not yet reached and the set already reached, and stops the search
  once every target is reached, or once a deadline has passed and a quorum of
  targets is reached.

  The strategy object is modelled as an immutable value; each call of
  `shouldSearchTerminate` is a pure step returning the next value together
  with the decision. The wall clock and `DateUtils.absoluteTimeout` are not
  called: the values they would return at a call are fields of that `Call`.
*/
module MultiTargetTermination {
  import opened Wrappers

  /** Java `long` bounds. */
  const LongMin: int := -0x8000_0000_0000_0000
  const LongMax: int := 0x7FFF_FFFF_FFFF_FFFF

  /** A Java `long` value. */
  type Long = x: int | LongMin <= x <= LongMax witness 0

  /** 2^1074. */
  const TwoPow1074: int := 0x4_0000_0000_0000_0000_0000_0000_0000_0000_0000_0000_0000_0000_0000_0000_0000_0000_0000_0000_0000_0000_0000_0000_0000_0000_0000_0000_0000_0000_0000_0000_0000_0000_0000_0000_0000_0000_0000_0000_0000_0000_0000_0000_0000_0000_0000_0000_0000_0000_0000_0000_0000_0000_0000_0000_0000_0000_0000_0000_0000_0000_0000_0000_0000_0000_0000_0000_0000

  /** Java's `Double.MIN_VALUE`, the smallest positive double: exactly 2^-1074.
      The strategy uses it as the "no timeout" sentinel. */
  const DoubleMinValue: real := 1.0 / (TwoPow1074 as real)

  /** `Long.MIN_VALUE` converted to `double`, which is exactly -2^63. This is the
      timeout the one-argument constructor passes on. */
  const LongMinAsDouble: real := LongMin as real

  /** The reach percentage used when the caller gives none. */
  const DefaultReachPercentage: real := 0.95

  /** The private state of one strategy instance. `abortTime == LongMin` means
      the abort time has not been set yet. */
  datatype Strategy<V> = Strategy(
    unreached: set<V>,
    reached: set<V>,
    reachPercentage: real,
    abortTime: Long,
    timeout: real)

  /** One call of `shouldSearchTerminate`: the vertex of the current state, the
      wall-clock time at the call, and what `DateUtils.absoluteTimeout(timeout)`
      would return at the call. */
  datatype Call<V> = Call(current: V, now: Long, absoluteTimeout: Long)

  /** The strategy after a call, and whether the search should stop. */
  datatype Decision<V> = Decision(state: Strategy<V>, terminate: bool)

  /** The two target sets split `targets` between them. */
  predicate Partitions<V>(s: Strategy<V>, targets: set<V>)
  {
    s.reached !! s.unreached && s.reached + s.unreached == targets
  }

  /** `Double.MIN_VALUE` is positive, and `Long.MIN_VALUE` as a double is not
      the no-timeout sentinel. */
  lemma SentinelsDistinct()
    ensures DoubleMinValue > 0.0
    ensures LongMinAsDouble != DoubleMinValue
  {
  }

  /** The three-argument constructor: every target starts unreached. */
  function Create<V>(targets: set<V>, timeout: real, reach: real): (s: Strategy<V>)
    ensures Partitions(s, targets)
    ensures s.reached == {} && s.unreached == targets
    ensures s.abortTime == LongMin
    ensures s.timeout == timeout && s.reachPercentage == reach
  {
    Strategy(targets, {}, reach, LongMin, timeout)
  }

  /** The two-argument constructor, with the default reach percentage. */
  function CreateWithTimeout<V>(targets: set<V>, timeout: real): (s: Strategy<V>)
    ensures Partitions(s, targets) && s.reached == {}
    ensures s.reachPercentage == DefaultReachPercentage
    ensures s.timeout == timeout && s.abortTime == LongMin
  {
    Create(targets, timeout, DefaultReachPercentage)
  }

  /** The one-argument constructor. It passes `Long.MIN_VALUE` as the timeout,
      which is not the `Double.MIN_VALUE` "no timeout" sentinel. */
  function CreateDefault<V>(targets: set<V>): (s: Strategy<V>)
    ensures Partitions(s, targets) && s.reached == {}
    ensures s.reachPercentage == DefaultReachPercentage
    ensures s.timeout == LongMinAsDouble && s.timeout != DoubleMinValue
  {
    SentinelsDistinct();
    CreateWithTimeout(targets, LongMinAsDouble)
  }

  /** `setAbortTime`: fixes the abort time on the first call, or pins it to
      `Long.MAX_VALUE` on every call when there is no timeout. */
  function SetAbortTime<V>(s: Strategy<V>, absoluteTimeout: Long): (s': Strategy<V>)
    ensures s'.unreached == s.unreached && s'.reached == s.reached
    ensures s'.timeout == s.timeout && s'.reachPercentage == s.reachPercentage
    ensures s.timeout == DoubleMinValue ==> s'.abortTime == LongMax
    ensures s.timeout != DoubleMinValue && s.abortTime != LongMin ==> s'.abortTime == s.abortTime
    ensures s.timeout != DoubleMinValue && s.abortTime == LongMin ==> s'.abortTime == absoluteTimeout
  {
    if s.abortTime == LongMin && s.timeout != DoubleMinValue then
      s.(abortTime := absoluteTimeout)
    else if s.timeout == DoubleMinValue then
      s.(abortTime := LongMax)
    else
      s
  }

  /** `getReachedRatio`: the fraction of known targets that are reached. Java
      computes 0.0/0 = NaN when both sets are empty; `None` stands for NaN. */
  function ReachedRatio(nReached: nat, nUnreached: nat): (r: Option<real>)
    ensures r.Some? <==> nReached + nUnreached > 0
    ensures r.Some? ==> 0.0 <= r.value <= 1.0
    ensures r.Some? ==> (r.value == 1.0 <==> nUnreached == 0)
    ensures r.Some? ==> (r.value == 0.0 <==> nReached == 0)
  {
    var total := nReached + nUnreached;
    if total == 0 then None else Some(1.0 * (nReached as real) / (total as real))
  }

  /** `ratio >= reachPercentage` in Java: every comparison with NaN is false. */
  predicate AtLeast(ratio: Option<real>, reachPercentage: real)
  {
    ratio.Some? && ratio.value >= reachPercentage
  }

  /** `shouldSearchTerminate`: sets the abort time, moves the current vertex
      from the unreached to the reached targets, and decides. */
  function ShouldSearchTerminate<V>(s: Strategy<V>, c: Call<V>): (d: Decision<V>)
    ensures d.state.reached + d.state.unreached == s.reached + s.unreached
    ensures s.reached !! s.unreached ==> d.state.reached !! d.state.unreached
    ensures c.current in s.unreached ==>
      d.state.unreached == s.unreached - {c.current} && d.state.reached == s.reached + {c.current}
    ensures c.current !in s.unreached ==>
      d.state.unreached == s.unreached && d.state.reached == s.reached
    ensures d.state.unreached <= s.unreached && s.reached <= d.state.reached
    ensures d.state.timeout == s.timeout && d.state.reachPercentage == s.reachPercentage
    ensures d.state.abortTime == SetAbortTime(s, c.absoluteTimeout).abortTime
    ensures d.state.unreached == {} ==> d.terminate
  {
    var s1 := SetAbortTime(s, c.absoluteTimeout);
    var s2 :=
      if c.current in s1.unreached then
        s1.(unreached := s1.unreached - {c.current}, reached := s1.reached + {c.current})
      else s1;
    var stop :=
      |s2.unreached| == 0 ||
      (s2.abortTime < LongMax && c.now > s2.abortTime &&
       AtLeast(ReachedRatio(|s2.reached|, |s2.unreached|), s2.reachPercentage));
    Decision(s2, stop)
  }

  /** Every call keeps the target set split exactly between the two sets, so
      the number of targets known to the strategy never changes. */
  lemma PartitionPreserved<V>(s: Strategy<V>, c: Call<V>, targets: set<V>)
    requires Partitions(s, targets)
    ensures Partitions(ShouldSearchTerminate(s, c).state, targets)
    ensures var s' := ShouldSearchTerminate(s, c).state;
      |s'.reached| + |s'.unreached| == |targets|
  {
    var s' := ShouldSearchTerminate(s, c).state;
    assert s'.reached !! s'.unreached;
    assert |s'.reached + s'.unreached| == |s'.reached| + |s'.unreached|;
  }

  /** Without a timeout the abort time becomes `Long.MAX_VALUE` and the search
      stops exactly when every target is reached. */
  lemma NoTimeoutStopsOnlyWhenComplete<V>(s: Strategy<V>, c: Call<V>)
    requires s.timeout == DoubleMinValue
    ensures var d := ShouldSearchTerminate(s, c);
      d.state.abortTime == LongMax && (d.terminate <==> d.state.unreached == {})
  {
  }

  /** Before the deadline (or with none), only completeness stops the search. */
  lemma BeforeDeadlineStopsOnlyWhenComplete<V>(s: Strategy<V>, c: Call<V>)
    requires var a := ShouldSearchTerminate(s, c).state.abortTime; a == LongMax || c.now <= a
    ensures var d := ShouldSearchTerminate(s, c);
      d.terminate <==> d.state.unreached == {}
  {
  }

  /** After a finite deadline has passed, the search stops exactly when every
      target is reached or the reached targets make up at least the reach
      percentage of the ORIGINAL target set. */
  lemma QuorumAfterDeadline<V>(s: Strategy<V>, c: Call<V>, targets: set<V>)
    requires Partitions(s, targets)
    requires var a := ShouldSearchTerminate(s, c).state.abortTime; a < LongMax && c.now > a
    ensures var d := ShouldSearchTerminate(s, c);
      d.terminate <==>
        (d.state.reached == targets ||
         (|d.state.reached| as real) >= s.reachPercentage * (|targets| as real))
  {
    var d := ShouldSearchTerminate(s, c);
    var r, u, p := d.state.reached, d.state.unreached, s.reachPercentage;
    assert r !! u && r + u == targets by { PartitionPreserved(s, c, targets); }
    assert d.terminate == (u == {} || AtLeast(ReachedRatio(|r|, |u|), p)) by {
      assert d.state.abortTime < LongMax && c.now > d.state.abortTime;
    }
    QuorumOfPartition(r, u, targets, p);
  }

  /** On a partition of the targets, "nothing unreached or ratio at least p"
      means "all reached or at least p of all targets reached". */
  lemma QuorumOfPartition<V>(reached: set<V>, unreached: set<V>, targets: set<V>, p: real)
    requires reached !! unreached && reached + unreached == targets
    ensures (unreached == {} || AtLeast(ReachedRatio(|reached|, |unreached|), p)) <==>
            (reached == targets || (|reached| as real) >= p * (|targets| as real))
  {
    assert |targets| == |reached| + |unreached|;
    if unreached != {} {
      assert reached != targets by {
        var u :| u in unreached;
        assert u !in reached;
      }
      QuorumOfTotal(|reached|, |unreached|, p);
    }
  }

  /** With some target unreached, the ratio test is the quorum test on counts. */
  lemma QuorumOfTotal(n: nat, m: nat, p: real)
    requires m > 0
    ensures AtLeast(ReachedRatio(n, m), p) <==> (n as real) >= p * ((n + m) as real)
  {
    RatioComparison(n as real, (n + m) as real, p);
  }

  lemma RatioComparison(n: real, t: real, p: real)
    requires t > 0.0
    ensures n / t >= p <==> n >= p * t
  {
    assert (n / t) * t == n;
    if n / t >= p {
      assert (n / t) * t >= p * t;
    } else {
      assert (n / t) * t < p * t;
    }
  }

  /** An empty target set stops the search on the first call. */
  lemma EmptyTargetsStopAtOnce<V>(timeout: real, reach: real, c: Call<V>)
    ensures ShouldSearchTerminate(Create({}, timeout, reach), c).terminate
  {
  }

  /** The vertices the calls visit. */
  function Visited<V>(calls: seq<Call<V>>): set<V>
  {
    set i | 0 <= i < |calls| :: calls[i].current
  }

  /** The strategy after a sequence of calls. */
  function Replay<V>(s: Strategy<V>, calls: seq<Call<V>>): (s': Strategy<V>)
    ensures s'.unreached == s.unreached - Visited(calls)
    ensures s'.reached == s.reached + (s.unreached * Visited(calls))
    ensures s'.timeout == s.timeout && s'.reachPercentage == s.reachPercentage
    decreases |calls|
  {
    if calls == [] then s
    else
      assert Visited(calls) == {calls[0].current} + Visited(calls[1..]) by {
        forall v | v in Visited(calls)
          ensures v in {calls[0].current} + Visited(calls[1..])
        {
          var i :| 0 <= i < |calls| && calls[i].current == v;
          if i > 0 { assert calls[1..][i - 1] == calls[i]; }
        }
      }
      Replay(ShouldSearchTerminate(s, calls[0]).state, calls[1..])
  }

  lemma VisitedSnoc<V>(calls: seq<Call<V>>, last: Call<V>)
    ensures Visited(calls + [last]) == Visited(calls) + {last.current}
  {
    var all := calls + [last];
    forall v | v in Visited(all)
      ensures v in Visited(calls) + {last.current}
    {
      var i :| 0 <= i < |all| && all[i].current == v;
      if i < |calls| { assert all[i] == calls[i]; }
    }
    forall v | v in Visited(calls)
      ensures v in Visited(all)
    {
      var i :| 0 <= i < |calls| && calls[i].current == v;
      assert all[i] == calls[i];
    }
    assert all[|calls|] == last;
  }

  /** Completeness without a timeout: a search over `targets` stops at a call
      exactly when, counting that call, every target has been visited. */
  lemma NoTimeoutStopsIffAllVisited<V>(
    targets: set<V>, reach: real, calls: seq<Call<V>>, last: Call<V>)
    ensures var s := Replay(Create(targets, DoubleMinValue, reach), calls);
      ShouldSearchTerminate(s, last).terminate <==> targets <= Visited(calls + [last])
  {
    var s := Replay(Create(targets, DoubleMinValue, reach), calls);
    assert s.unreached == targets - Visited(calls);
    NoTimeoutStopsOnlyWhenComplete(s, last);
    VisitedSnoc(calls, last);
    var d := ShouldSearchTerminate(s, last);
    assert d.state.unreached == targets - Visited(calls + [last]);
  }

  /** Once an abort time is set (and, with no timeout, pinned to
      `Long.MAX_VALUE`), later calls never change it. */
  lemma {:induction false} AbortTimeStable<V>(s: Strategy<V>, calls: seq<Call<V>>)
    requires s.abortTime != LongMin
    requires s.timeout == DoubleMinValue ==> s.abortTime == LongMax
    ensures Replay(s, calls).abortTime == s.abortTime
    decreases |calls|
  {
    if calls != [] {
      var s1 := ShouldSearchTerminate(s, calls[0]).state;
      assert s1.abortTime == s.abortTime;
      AbortTimeStable(s1, calls[1..]);
    }
  }

  /** The first call fixes the abort time for the rest of the search, provided
      `absoluteTimeout` did not return the `Long.MIN_VALUE` sentinel. */
  lemma AbortTimeFixedAfterFirstCall<V>(s: Strategy<V>, first: Call<V>, rest: seq<Call<V>>)
    requires first.absoluteTimeout != LongMin
    ensures var s1 := ShouldSearchTerminate(s, first).state;
      Replay(s1, rest).abortTime == s1.abortTime
  {
    var s1 := ShouldSearchTerminate(s, first).state;
    AbortTimeStable(s1, rest);
  }

  /** The one-argument constructor does not select the no-timeout path: its
      first call takes the abort time from `absoluteTimeout`, so the quorum
      rule applies once that time has passed. */
  lemma DefaultStrategyTakesDeadline<V>(targets: set<V>, c: Call<V>)
    ensures ShouldSearchTerminate(CreateDefault(targets), c).state.abortTime == c.absoluteTimeout
  {
  }
}
