/**
 * Properties of `TimeInterval`: what its operations mean as sets of
 * instants, their symmetry, the boundary cases at touching endpoints, and
 * the round trip through the textual form.
 */
module TimeIntervalProperties {
  import opened Wrappers
  import opened Text
  import opened TimeIntervals

  /** `new` keeps both instants as given, in either order. */
  lemma NewStoresVerbatim(start: Instant, end: Instant)
    ensures TimeInterval(start, end).start == start && TimeInterval(start, end).end == end
    ensures TimeInterval(start, end).Duration() == end - start
    ensures end < start ==> TimeInterval(start, end).Duration() < 0
  {
  }

  // ---------------------------------------------------------------------
  // The operations as sets of instants

  /**
   * For forward intervals, there is no gap exactly when the closed
   * intervals share an instant: touching counts as sharing.
   */
  lemma GapNoneIffClosedIntervalsMeet(a: TimeInterval, b: TimeInterval)
    requires a.WellFormed() && b.WellFormed()
    ensures a.Gap(b).None? <==> exists t :: a.Reaches(t) && b.Reaches(t)
  {
    if a.Gap(b).None? {
      var t := if a.start >= b.start then a.start else b.start;
      assert a.Reaches(t) && b.Reaches(t);
    }
  }

  /**
   * For forward intervals, a union exists exactly when the closed
   * intervals meet, and it then holds exactly the instants of either one.
   */
  lemma UnionIsSetUnion(a: TimeInterval, b: TimeInterval)
    requires a.WellFormed() && b.WellFormed()
    ensures a.Union(b).Some? <==> exists t :: a.Reaches(t) && b.Reaches(t)
    ensures a.Union(b).Some? ==>
              forall t :: a.Union(b).value.Contains(t) <==> a.Contains(t) || b.Contains(t)
  {
    GapNoneIffClosedIntervalsMeet(a, b);
  }

  /** Intervals that share an instant have no gap between them. */
  lemma IntersectsImpliesNoGap(a: TimeInterval, b: TimeInterval)
    requires a.Intersects(b)
    ensures a.Gap(b).None?
    ensures a.Union(b).Some?
  {
  }

  /** `intersects` is the boolean view of `intersection`. */
  lemma IntersectsIffIntersection(a: TimeInterval, b: TimeInterval)
    ensures a.Intersects(b) <==> a.Intersection(b).Some?
  {
  }

  // ---------------------------------------------------------------------
  // Symmetry

  lemma IntersectionSymmetric(a: TimeInterval, b: TimeInterval)
    ensures a.Intersection(b) == b.Intersection(a)
    ensures a.Intersects(b) == b.Intersects(a)
  {
  }

  lemma UnionSymmetric(a: TimeInterval, b: TimeInterval)
    ensures a.Union(b) == b.Union(a)
  {
  }

  /** The gap between forward intervals does not depend on the argument order. */
  lemma GapSymmetric(a: TimeInterval, b: TimeInterval)
    requires a.WellFormed() && b.WellFormed()
    ensures a.Gap(b) == b.Gap(a)
  {
  }

  /**
   * Without `start <= end` the gap can depend on the order: the first
   * test that succeeds wins, and with an inverted interval both can.
   */
  lemma GapOrderMattersWhenInverted()
    ensures TimeInterval(10, 0).Gap(TimeInterval(5, 6)) == Some(TimeInterval(0, 5))
    ensures TimeInterval(5, 6).Gap(TimeInterval(10, 0)) == Some(TimeInterval(6, 10))
  {
  }

  // ---------------------------------------------------------------------
  // The three ways two forward intervals can lie

  /** [t0, t1] and [t1, t2] touch: no gap, no intersection, and they join into [t0, t2]. */
  lemma AdjacentIntervals(t0: Instant, t1: Instant, t2: Instant)
    requires t0 <= t1 <= t2
    ensures TimeInterval(t0, t1).Gap(TimeInterval(t1, t2)) == None
    ensures TimeInterval(t0, t1).Intersection(TimeInterval(t1, t2)) == None
    ensures !TimeInterval(t0, t1).Intersects(TimeInterval(t1, t2))
    ensures TimeInterval(t0, t1).Union(TimeInterval(t1, t2)) == Some(TimeInterval(t0, t2))
  {
  }

  /** [t0, t1] and [t2, t3] with t1 < t2: the gap is [t1, t2] and nothing else exists. */
  lemma SeparatedIntervals(t0: Instant, t1: Instant, t2: Instant, t3: Instant)
    requires t0 <= t1 < t2 <= t3
    ensures TimeInterval(t0, t1).Gap(TimeInterval(t2, t3)) == Some(TimeInterval(t1, t2))
    ensures TimeInterval(t0, t1).Union(TimeInterval(t2, t3)) == None
    ensures TimeInterval(t0, t1).Intersection(TimeInterval(t2, t3)) == None
    ensures !TimeInterval(t0, t1).Intersects(TimeInterval(t2, t3))
  {
  }

  /** [t0, t2] and [t1, t3] overlap in [t1, t2] and join into [t0, t3]. */
  lemma OverlappingIntervals(t0: Instant, t1: Instant, t2: Instant, t3: Instant)
    requires t0 < t1 < t2 < t3
    ensures TimeInterval(t0, t2).Intersection(TimeInterval(t1, t3)) == Some(TimeInterval(t1, t2))
    ensures TimeInterval(t0, t2).Intersects(TimeInterval(t1, t3))
    ensures TimeInterval(t0, t2).Union(TimeInterval(t1, t3)) == Some(TimeInterval(t0, t3))
    ensures TimeInterval(t0, t2).Gap(TimeInterval(t1, t3)) == None
  {
  }

  const Y2K: Instant := 946_684_800 * NanosPerSecond  // 2000-01-01T00:00:00Z
  const Minute: TimeDelta := 60 * NanosPerSecond

  /** Two one-minute intervals, the second starting when the first ends, do not intersect. */
  lemma AdjacentMinutesDoNotIntersect()
    ensures !TimeInterval(Y2K, Y2K + Minute).Intersects(TimeInterval(Y2K + Minute, Y2K + 2 * Minute))
  {
  }

  // ---------------------------------------------------------------------
  // Conversion from an event

  /** An event's interval starts at its timestamp and ends its duration later. */
  lemma EventInterval(e: Event)
    ensures FromEvent(e).end == e.timestamp + e.duration
    ensures e.duration >= 0 <==> FromEvent(e).WellFormed()
  {
  }

  // ---------------------------------------------------------------------
  // Parsing and the textual form

  /** Two separator-free texts joined by '/' parse as the pair of timestamps they denote. */
  lemma ParseOfJoinedTimestamps(c: TimestampCodec, a: string, b: string)
    requires '/' !in a && '/' !in b
    ensures NewFromString(c, a + "/" + b) ==
              if c.parse(a).Some? && c.parse(b).Some?
              then Ok(TimeInterval(c.parse(a).value, c.parse(b).value))
              else Err(ParseError)
  {
    var text := a + "/" + b;
    assert text[..|a|] == a && text[|a| + 1..] == b;
    assert SoleSeparatorAt(text, '/', |a|);
  }

  /** A text without exactly one '/' is rejected, whatever surrounds it. */
  lemma ParseRejectsSeparatorCount(c: TimestampCodec, text: string)
    requires Count(text, '/') != 1
    ensures NewFromString(c, text) == Err(ParseError)
  {
    SplitCount(text, '/');
    SplitInTwo(text, '/');
  }

  /**
   * Rendering an interval and parsing the text gives the interval back,
   * so start, end and duration survive, provided the timestamp syntax
   * renders each endpoint without '/' and reads it back unchanged.
   */
  lemma RoundTrip(c: TimestampCodec, i: TimeInterval)
    requires FormatsReversibly(c, i.start) && FormatsReversibly(c, i.end)
    ensures NewFromString(c, i.ToString(c)) == Ok(i)
    ensures NewFromString(c, i.ToString(c)).value.Duration() == i.Duration()
  {
  }

  /** The first of January 2000 to the second, in UTC: a day long, and it survives the round trip. */
  lemma FirstDayOf2000(c: TimestampCodec)
    requires FormatsReversibly(c, Y2K) && FormatsReversibly(c, Y2K + 24 * NanosPerHour)
    ensures TimeInterval(Y2K, Y2K + 24 * NanosPerHour).Duration() == 24 * NanosPerHour
    ensures NewFromString(c, TimeInterval(Y2K, Y2K + 24 * NanosPerHour).ToString(c))
              == Ok(TimeInterval(Y2K, Y2K + 24 * NanosPerHour))
  {
  }
}
