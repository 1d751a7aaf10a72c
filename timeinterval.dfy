/**
 * The `TimeInterval` value type of aw-models: a start and an end instant,
 * with gap, union, intersection and intersection test between two
 * intervals, conversion from an `Event`, and the textual form
 * `"<start>/<end>"` with each endpoint written in RFC 3339.
 *
 * Instants are whole nanoseconds since the Unix epoch, in UTC; a duration
 * is a signed number of nanoseconds. Nothing forces `start <= end`.
 */
module TimeIntervals {
  import opened Wrappers
  import opened Text

  /** A point in time: nanoseconds since 1970-01-01T00:00:00Z. */
  type Instant = int

  /** A signed span of time in nanoseconds (chrono's `Duration`). */
  type TimeDelta = int

  const NanosPerSecond: TimeDelta := 1_000_000_000
  const NanosPerHour: TimeDelta := 3600 * NanosPerSecond

  /** The one way of failing: the text is not two RFC 3339 timestamps joined by '/'. */
  datatype TimeIntervalError = ParseError

  /** The fields of an event that the conversion reads. */
  datatype Event = Event(timestamp: Instant, duration: TimeDelta)

  /**
   * The RFC 3339 timestamp syntax, which the interval code takes from a
   * library: `format` renders an instant, `parse` reads one (already
   * normalised to UTC) or fails.
   */
  datatype TimestampCodec = TimestampCodec(format: Instant -> string, parse: string -> Option<Instant>)

  /** `t` is rendered without '/' and reads back as itself. */
  predicate FormatsReversibly(c: TimestampCodec, t: Instant)
  {
    '/' !in c.format(t) && c.parse(c.format(t)) == Some(t)
  }

  /** An interval built by `new`: both instants stored as given, unordered. */
  datatype TimeInterval = TimeInterval(start: Instant, end: Instant)
  {
    /** The interval runs forwards (or is empty). */
    predicate WellFormed()
    {
      start <= end
    }

    /** `t` lies in the half-open interval [start, end). */
    predicate Contains(t: Instant)
    {
      start <= t < end
    }

    /** `t` lies in the closed interval [start, end]. */
    predicate Reaches(t: Instant)
    {
      start <= t <= end
    }

    /** The signed length: negative exactly when the interval is inverted. */
    function Duration(): (d: TimeDelta)
      ensures start + d == end
      ensures d < 0 <==> !WellFormed()
    {
      end - start
    }

    /**
     * The non-zero stretch of time between two separated intervals, or
     * None when they touch or overlap.
     */
    function Gap(other: TimeInterval): (r: Option<TimeInterval>)
      ensures r.None? <==> other.start <= end && start <= other.end
      ensures end < other.start ==> r == Some(TimeInterval(end, other.start))
      ensures r.Some? ==> r.value == TimeInterval(end, other.start) || r.value == TimeInterval(other.end, start)
      ensures r.Some? ==> r.value.start < r.value.end
      ensures r.Some? ==> forall t :: r.value.Contains(t) ==> !Contains(t) && !other.Contains(t)
    {
      if end < other.start then
        Some(TimeInterval(end, other.start))
      else if other.end < start then
        Some(TimeInterval(other.end, start))
      else
        None
    }

    /**
     * The smallest interval covering both, when there is no gap between
     * them (touching intervals join); None otherwise.
     */
    function Union(other: TimeInterval): (r: Option<TimeInterval>)
      ensures r.Some? <==> Gap(other).None?
      ensures r.Some? ==> r.value.WellFormed()
      ensures r.Some? ==> r.value.start <= start && r.value.start <= other.start
      ensures r.Some? ==> r.value.end >= end && r.value.end >= other.end
      ensures r.Some? ==> (r.value.start == start || r.value.start == other.start)
      ensures r.Some? ==> (r.value.end == end || r.value.end == other.end)
    {
      match Gap(other)
      case Some(_) => None
      case None =>
        Some(TimeInterval(if start <= other.start then start else other.start,
                          if end >= other.end then end else other.end))
    }

    /**
     * The instants both intervals contain, as a non-empty interval, or
     * None when they have none in common (touching is not overlapping).
     */
    function Intersection(other: TimeInterval): (r: Option<TimeInterval>)
      ensures r.Some? ==> r.value.start < r.value.end
      ensures forall t :: (r.Some? && r.value.Contains(t)) <==> Contains(t) && other.Contains(t)
    {
      var lastStart := if start >= other.start then start else other.start;
      var firstEnd := if end <= other.end then end else other.end;
      if lastStart < firstEnd then
        Some(TimeInterval(lastStart, firstEnd))
      else
        None
    }

    /** Whether some instant lies in both intervals. */
    function Intersects(other: TimeInterval): (b: bool)
      ensures b <==> exists t :: Contains(t) && other.Contains(t)
    {
      IntersectionEmptyIffDisjoint(this, other);
      Intersection(other).Some?
    }

    /** The `Display` form: the start's text, '/', the end's text. */
    function ToString(c: TimestampCodec): (text: string)
      ensures '/' !in c.format(start) && '/' !in c.format(end) ==>
                SoleSeparatorAt(text, '/', |c.format(start)|)
                && text[..|c.format(start)|] == c.format(start)
                && text[|c.format(start)| + 1..] == c.format(end)
    {
      c.format(start) + "/" + c.format(end)
    }
  }

  /** The interval an event occupies: from its timestamp for its duration. */
  function FromEvent(e: Event): (r: TimeInterval)
    ensures r.start == e.timestamp
    ensures r.Duration() == e.duration
  {
    TimeInterval(e.timestamp, e.timestamp + e.duration)
  }

  /**
   * `new_from_string`: succeeds exactly when the text has a single '/'
   * and both sides parse; the start comes from the left, the end from the
   * right.
   */
  function NewFromString(c: TimestampCodec, text: string): (r: Result<TimeInterval, TimeIntervalError>)
    ensures r.Ok? <==> exists i :: SoleSeparatorAt(text, '/', i) && c.parse(text[..i]).Some? && c.parse(text[i + 1..]).Some?
    ensures forall i :: SoleSeparatorAt(text, '/', i) && r.Ok? ==>
              c.parse(text[..i]) == Some(r.value.start) && c.parse(text[i + 1..]) == Some(r.value.end)
    ensures r.Err? ==> r.error == ParseError
  {
    SplitInTwo(text, '/');
    var splits := Split(text, '/');
    if |splits| != 2 then
      Err(ParseError)
    else
      match c.parse(splits[0])
      case None => Err(ParseError)
      case Some(start) =>
        match c.parse(splits[1])
        case None => Err(ParseError)
        case Some(end) => Ok(TimeInterval(start, end))
  }

  /** An intersection is missing exactly when no instant lies in both intervals. */
  lemma IntersectionEmptyIffDisjoint(a: TimeInterval, b: TimeInterval)
    ensures a.Intersection(b).None? <==> !exists t :: a.Contains(t) && b.Contains(t)
  {
    if a.Intersection(b).Some? {
      var t := a.Intersection(b).value.start;
      assert a.Intersection(b).value.Contains(t);
    }
  }
}
