# TimeInterval of aw-models, in Dafny

This project models `TimeInterval`, the value type that aw-server-rust's
`aw-models` crate uses for spans of time. An interval is a start instant and
an end instant. Nothing checks at construction that the start comes first.
Two intervals can be compared for a gap, joined into a union, cut down to
their intersection, or tested for intersection. An interval can be made from
an `Event` (a timestamp plus a duration). It is written as text in the form
`"<start>/<end>"`, each endpoint in RFC 3339 syntax, and read back from that
form.

Files:

- `wrappers.dfy`: module `Wrappers`, holding Rust's `Option` and `Result`.
- `text.dfy`: module `Text`. `Split` is Rust's `str::split(char)`: n
  separators give n + 1 segments, and the empty string gives one empty
  segment. `Join` is its inverse.
- `timeinterval.dfy`: module `TimeIntervals`. It holds the `TimeInterval`
  datatype and its operations, `FromEvent` and `NewFromString`.
- `timeinterval_properties.dfy`: module `TimeIntervalProperties`. It holds
  the lemmas relating the operations to each other and to sets of instants.

Modelling choices:

- Instants are `int` nanoseconds since 1970-01-01T00:00:00Z. Durations are
  signed `int` nanoseconds.
- The RFC 3339 syntax comes from a library (chrono's `parse_from_rfc3339`,
  `to_rfc3339` and `with_timezone`). It is the `TimestampCodec` parameter, a
  pair of functions `format` and `parse`. `parse` yields an absolute instant,
  so normalising to UTC changes nothing in this model. The round trip holds
  for an interval whose endpoints satisfy `FormatsReversibly`: the formatted
  text has no '/', and it parses back to the same instant.
- The operations follow the source's strict `<` tests. Touching intervals
  have no gap and do not intersect, but they do union.
- Union, intersection and the intersection test are symmetric for all
  intervals, inverted ones included. The gap is symmetric only for forward
  intervals. `GapOrderMattersWhenInverted` shows two inverted inputs whose
  gap depends on argument order.

## Model

| member | source | states |
|---|---|---|
| `TimeIntervals.TimeInterval.Duration` | aw-models/src/timeinterval.rs:55-57 | start + duration == end; the duration is negative exactly when the interval is inverted |
| `TimeIntervals.TimeInterval.Gap` | aw-models/src/timeinterval.rs:59-68 | no gap iff the intervals touch or overlap; when self ends before other starts, the gap is [self.end, other.start]; any gap is one interval's end to the other's start, has non-zero width and contains no instant of either interval |
| `TimeIntervals.TimeInterval.Union` | aw-models/src/timeinterval.rs:70-79 | a union exists iff there is no gap; it is forward, covers both intervals, and starts at one of the starts and ends at one of the ends (min of starts, max of ends) |
| `TimeIntervals.TimeInterval.Intersection` | aw-models/src/timeinterval.rs:81-90 | an instant lies in the result iff it lies in both intervals; a result always has start strictly before end (zero-width overlap gives None) |
| `TimeIntervals.TimeInterval.Intersects` | aw-models/src/timeinterval.rs:92-95 | true iff some instant lies in both half-open intervals |
| `TimeIntervals.TimeInterval.ToString` | aw-models/src/timeinterval.rs:104-107 | the text is the start's RFC 3339 text, '/', the end's text; when neither endpoint text holds '/', that '/' is the only one |
| `TimeIntervals.FromEvent` | aw-models/src/timeinterval.rs:98-101 | the interval starts at the event's timestamp and its duration equals the event's duration |
| `TimeIntervals.NewFromString` | aw-models/src/timeinterval.rs:30-45 | succeeds iff the text has exactly one '/' and both sides parse as timestamps; the start is read from the left side and the end from the right; the only error is ParseError |
| `TimeIntervals.IntersectionEmptyIffDisjoint` | aw-models/src/timeinterval.rs:81-90 | the intersection is None iff no instant lies in both intervals |
| `Text.Split` | aw-models/src/timeinterval.rs:31 | at least one segment; no segment contains the separator; joining the segments with the separator gives back the input |
| `Text.SplitOfJoin` | aw-models/src/timeinterval.rs:31 | splitting the join of separator-free segments gives those segments back |
| `Text.SplitCount` | aw-models/src/timeinterval.rs:31-32 | n separators give n + 1 segments |
| `Text.SplitInTwo` | aw-models/src/timeinterval.rs:31-32 | there are two segments iff the separator occurs exactly once, and they are then the text before and after it |
| `TimeIntervalProperties.NewStoresVerbatim` | aw-models/src/timeinterval.rs:26-28 | `new` stores both instants unchanged, with no ordering check; an inverted interval has a negative duration |
| `TimeIntervalProperties.GapNoneIffClosedIntervalsMeet` | aw-models/src/timeinterval.rs:59-68 | for forward intervals, there is no gap iff the closed intervals share an instant |
| `TimeIntervalProperties.UnionIsSetUnion` | aw-models/src/timeinterval.rs:70-79 | for forward intervals, a union exists iff the closed intervals meet, and it holds exactly the instants of either interval |
| `TimeIntervalProperties.IntersectsImpliesNoGap` | aw-models/src/timeinterval.rs:60-95 | intersecting intervals have no gap and have a union |
| `TimeIntervalProperties.IntersectsIffIntersection` | aw-models/src/timeinterval.rs:92-95 | `intersects` is true iff `intersection` is Some |
| `TimeIntervalProperties.IntersectionSymmetric` | aw-models/src/timeinterval.rs:81-95 | intersection and intersects do not depend on argument order, for all intervals |
| `TimeIntervalProperties.UnionSymmetric` | aw-models/src/timeinterval.rs:70-79 | union does not depend on argument order, for all intervals |
| `TimeIntervalProperties.GapSymmetric` | aw-models/src/timeinterval.rs:59-68 | for forward intervals, the gap does not depend on argument order |
| `TimeIntervalProperties.GapOrderMattersWhenInverted` | aw-models/src/timeinterval.rs:61-64 | with an inverted interval, both tests of `gap` can hold and the result depends on argument order |
| `TimeIntervalProperties.AdjacentIntervals` | aw-models/src/timeinterval.rs:59-95 | [t0,t1] and [t1,t2] have no gap, no intersection, do not intersect, and union to [t0,t2] |
| `TimeIntervalProperties.SeparatedIntervals` | aw-models/src/timeinterval.rs:59-95 | [t0,t1] and [t2,t3] with t1 < t2 have gap [t1,t2], and no union and no intersection |
| `TimeIntervalProperties.OverlappingIntervals` | aw-models/src/timeinterval.rs:59-95 | [t0,t2] and [t1,t3] with t0 < t1 < t2 < t3 intersect in [t1,t2], union to [t0,t3], and have no gap |
| `TimeIntervalProperties.AdjacentMinutesDoNotIntersect` | aw-models/src/timeinterval.rs:164-177 | the two consecutive minutes after 2000-01-01T00:00:00Z do not intersect |
| `TimeIntervalProperties.EventInterval` | aw-models/src/timeinterval.rs:98-101 | an event's interval ends at timestamp + duration, and it is forward iff the duration is non-negative |
| `TimeIntervalProperties.ParseOfJoinedTimestamps` | aw-models/src/timeinterval.rs:30-45 | "a/b" with separator-free a and b parses to [parse(a), parse(b)] when both parse, and is ParseError otherwise |
| `TimeIntervalProperties.ParseRejectsSeparatorCount` | aw-models/src/timeinterval.rs:31-34 | a text with zero or several '/' is ParseError |
| `TimeIntervalProperties.RoundTrip` | aw-models/src/timeinterval.rs:104-107 | parsing the rendered text gives the same interval back (start, end and duration) when both endpoints format reversibly |
| `TimeIntervalProperties.FirstDayOf2000` | aw-models/src/timeinterval.rs:143-162 | 2000-01-01T00:00:00Z to 2000-01-02T00:00:00Z lasts 24 hours and survives the round trip through text |

## Left out

- The RFC 3339 grammar itself (chrono's `parse_from_rfc3339`, `to_rfc3339`, `with_timezone`). It is a library; the model takes it as the `TimestampCodec` parameter. The round trip is proved only under the `FormatsReversibly` assumption about that library.
- The concrete text `"2000-01-01T00:00:00+00:00/2000-01-02T00:00:00+00:00"` from the test. It depends on the library's formatting, which is a parameter here.
- Overflow and panics of chrono's `DateTime + Duration` and `DateTime - DateTime`. Instants and durations are unbounded integers.
- The serde `TimeIntervalVisitor` and `Deserialize` code, with its `expecting` message. It only forwards to `new_from_string` and maps the error to serde's error type.
- The `warn!` logging on a failed deserialisation. It is a side effect only.
- Serialisation through serde. The source leaves it unimplemented; `ToString` models the `Display` format it would use.
- The fields of `Event` other than `timestamp` and `duration`. The conversion does not read them.
- `Clone` and `Debug`. Dafny datatypes are values, so copying is implicit, and `Debug` only formats output.
