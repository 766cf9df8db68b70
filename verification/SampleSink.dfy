/** The sample sink: caches bounded by recency, suppression of unchanged readings, and flood control. */
module SampleSink {
  import opened Options

  // ----- An ordered dict bounded by recency -----

  /** Oldest first. */
  type Lru<V> = seq<(string, V)>

  function Position<V>(c: Lru<V>, k: string): (i: nat)
    ensures i <= |c| && (i < |c| ==> c[i].0 == k) && (forall j :: 0 <= j < i ==> c[j].0 != k)
  {
    if c == [] || c[0].0 == k then 0
    else
      var i := 1 + Position(c[1..], k);
      assert forall j :: 0 < j < |c| ==> c[j] == c[1..][j - 1];
      i
  }

  function Lookup<V>(c: Lru<V>, k: string): Option<V> {
    if Position(c, k) < |c| then Some(c[Position(c, k)].1) else None
  }

  function Without<V>(c: Lru<V>, k: string): Lru<V> {
    var i := Position(c, k);
    if i < |c| then c[..i] + c[i + 1..] else c
  }

  /** Insert or update, move to the end, and evict the oldest when there is one too many. */
  function Put<V>(c: Lru<V>, k: string, v: V, max: nat): Lru<V> {
    var c' := Without(c, k) + [(k, v)];
    if |c'| > max then c'[1..] else c'
  }

  function LastOf<T>(s: seq<T>, n: nat): seq<T> { if |s| <= n then s else s[|s| - n..] }

  // ----- The sink -----

  const LATEST_MAXSIZE := 10_000
  const SERIES_MAXSIZE := 10_000
  const DEDUP_MAXSIZE := 100_000
  const SERIES_LENGTH := 120
  const DEDUP_TTL := 600.0
  const DEDUP_STALE_SECONDS := 300.0
  const DEDUP_GC_INTERVAL := 1000
  const FLOOD_WINDOW := 1.0
  const FLOOD_MAX := 5000

  datatype Sample = Sample(metric: string, ts: real, value: real, tags: string)
  datatype Point = Point(ts: real, value: real)
  datatype Reading = Reading(value: real, ts: real)
  datatype Notice = Degraded(totalDropped: nat) | Recovered(droppedInWindow: nat)

  datatype Sink = Sink(
    latest: Lru<Sample>, series: Lru<seq<Point>>, dedup: Lru<Reading>, buffer: seq<Sample>,
    emitted: nat, sinceGc: nat,
    windowStart: real, floodCount: nat, dropped: nat, dropCount: nat, dropLogged: bool)

  function NewSink(): Sink { Sink([], [], [], [], 0, 0, 0.0, 0, 0, 0, false) }

  /** `_lru_set_latest` and `_series_append` */
  function Touched(s: Sink, x: Sample): Sink {
    var before := Lookup(s.series, x.metric);
    var points := if before.Some? then before.value else [];
    s.(latest := Put(s.latest, x.metric, x, LATEST_MAXSIZE),
       series := Put(s.series, x.metric, LastOf(points + [Point(x.ts, x.value)], SERIES_LENGTH), SERIES_MAXSIZE))
  }

  function Fresh(d: Lru<Reading>, cutoff: real): Lru<Reading> {
    if d == [] then []
    else Fresh(d[..|d| - 1], cutoff) + if d[|d| - 1].1.ts < cutoff then [] else [d[|d| - 1]]
  }

  // ----- One emission -----

  /** A new window starts when the last one is over. */
  function Windowed(s: Sink, ts: real): Sink {
    if ts - s.windowStart > FLOOD_WINDOW then s.(windowStart := ts, floodCount := 0, dropCount := 0, dropLogged := false) else s
  }

  predicate Drops(s: Sink, ts: real) { Windowed(s, ts).floodCount + 1 > FLOOD_MAX }

  function Buffered(s: Sink, x: Sample): Sink { s.(buffer := s.buffer + [x], emitted := s.emitted + 1) }

  function Collected(s: Sink, now: real): Sink {
    if s.sinceGc + 1 >= DEDUP_GC_INTERVAL then s.(sinceGc := 0, dedup := Fresh(s.dedup, now - DEDUP_TTL))
    else s.(sinceGc := s.sinceGc + 1)
  }

  /** `emit`, up to the flush: `now` is the clock that the garbage collection reads. */
  function Emitted(s: Sink, x: Sample, now: real): Sink {
    var w := Windowed(s, x.ts);
    var c := w.(floodCount := w.floodCount + 1);
    if Drops(s, x.ts) then c.(dropped := c.dropped + 1, dropCount := c.dropCount + 1, dropLogged := true)
    else Collected(Buffered(Touched(c, x), x), now)
  }

  function Notices(s: Sink, ts: real): seq<Notice> {
    var w := Windowed(s, ts);
    (if ts - s.windowStart > FLOOD_WINDOW && s.dropCount > 0 then [Recovered(s.dropCount)] else [])
    + (if Drops(s, ts) && !w.dropLogged then [Degraded(w.dropped + 1)] else [])
  }

  // ----- Suppression -----

  function Abs(x: real): real { if x < 0.0 then -x else x }
  function Max0(x: real): real { if x < 0.0 then 0.0 else x }

  /** The last forwarded reading, unless it has expired. */
  function Previous(s: Sink, key: string, ts: real): Option<Reading> {
    match Lookup(s.dedup, key)
    case None => None
    case Some(r) => if ts - r.ts >= DEDUP_TTL then None else Some(r)
  }

  predicate SameAsBefore(prev: Reading, value: real, ts: real) {
    prev.value == value && !(ts - prev.ts >= DEDUP_STALE_SECONDS)
  }

  /** How far a reading may be off, so long after the last forwarded one. */
  function Tolerance(maxThreshold: real, elapsed: real): real { maxThreshold * Max0(1.0 - elapsed / DEDUP_STALE_SECONDS) }

  predicate NearEnough(prev: Reading, value: real, ts: real, absThreshold: real, maxThreshold: real) {
    var elapsed, diff := ts - prev.ts, Abs(value - prev.value);
    && !((prev.value == 0.0) != (value == 0.0))
    && !(diff >= absThreshold && absThreshold > 0.0)
    && !(diff > Tolerance(maxThreshold, elapsed))
    && !(elapsed >= DEDUP_STALE_SECONDS)
  }

  predicate EventLike(value: real) { value == 0.0 || value == 1.0 }

  // ----- Calls -----

  /** `key` is the metric with its tags, as `_cache_key` writes it; `now` is the clock. */
  datatype Call =
    | Emit(x: Sample, now: real)
    | EmitIfChanged(x: Sample, key: string, gauge: bool, now: real)
    | EmitWithSensitivity(x: Sample, key: string, absThreshold: real, maxThreshold: real, now: real)
    | EmitBatch(samples: seq<Sample>)
    | Flush

  /** The reading is neither stored nor forwarded, only shown. */
  predicate Suppressed(s: Sink, c: Call) {
    match c
    case EmitIfChanged(x, key, gauge, _) =>
      (gauge || !EventLike(x.value)) && (var p := Previous(s, key, x.ts); p.Some? && SameAsBefore(p.value, x.value, x.ts))
    case EmitWithSensitivity(x, key, absThreshold, maxThreshold, _) =>
      (var p := Previous(s, key, x.ts); p.Some? && NearEnough(p.value, x.value, x.ts, absThreshold, maxThreshold))
    case _ => false
  }

  function Remembered(s: Sink, key: string, x: Sample): Sink {
    s.(dedup := Put(s.dedup, key, Reading(x.value, x.ts), DEDUP_MAXSIZE))
  }

  function Batched(s: Sink, samples: seq<Sample>): Sink {
    if samples == [] then s
    else
      var x := samples[|samples| - 1];
      Buffered(Touched(Batched(s, samples[..|samples| - 1]), x), x)
  }

  function After(s: Sink, c: Call): Sink {
    match c
    case Emit(x, now) => Emitted(s, x, now)
    case EmitIfChanged(x, key, gauge, now) =>
      if !gauge && EventLike(x.value) then Emitted(s, x, now)
      else if Suppressed(s, c) then Touched(s, x)
      else Emitted(Remembered(s, key, x), x, now)
    case EmitWithSensitivity(x, key, _, _, now) =>
      if Suppressed(s, c) then Touched(s, x) else Emitted(Remembered(s, key, x), x, now)
    case EmitBatch(samples) => Batched(s, samples)
    case Flush => s.(buffer := [])
  }

  // ----- What a call shows, stores and forwards -----

  /** The samples that reach the in-memory caches. */
  function Shown(s: Sink, c: Call): seq<Sample> {
    match c
    case EmitBatch(samples) => samples
    case Flush => []
    case _ => if Suppressed(s, c) || !Drops(s, c.x.ts) then [c.x] else []
  }

  /** The samples that reach the buffer. */
  function Accepted(s: Sink, c: Call): seq<Sample> {
    match c
    case EmitBatch(samples) => samples
    case Flush => []
    case _ => if !Suppressed(s, c) && !Drops(s, c.x.ts) then [c.x] else []
  }

  /** The reading handed on under this key by a call that looks at the key. */
  function Forwarded(s: Sink, c: Call, key: string): Option<Reading> {
    match c
    case EmitIfChanged(x, k, gauge, _) =>
      if k == key && (gauge || !EventLike(x.value)) && !Suppressed(s, c) then Some(Reading(x.value, x.ts)) else None
    case EmitWithSensitivity(x, k, _, _, _) =>
      if k == key && !Suppressed(s, c) then Some(Reading(x.value, x.ts)) else None
    case _ => None
  }

  // ----- Runs -----

  function Run(calls: seq<Call>): Sink {
    if calls == [] then NewSink() else After(Run(calls[..|calls| - 1]), calls[|calls| - 1])
  }

  function AllShown(calls: seq<Call>): seq<Sample> {
    if calls == [] then []
    else
      var before := calls[..|calls| - 1];
      AllShown(before) + Shown(Run(before), calls[|calls| - 1])
  }

  function AllAccepted(calls: seq<Call>): seq<Sample> {
    if calls == [] then []
    else
      var before := calls[..|calls| - 1];
      AllAccepted(before) + Accepted(Run(before), calls[|calls| - 1])
  }

  /** What flushes have taken out of the buffer. */
  function AllFlushed(calls: seq<Call>): seq<Sample> {
    if calls == [] then []
    else
      var before := calls[..|calls| - 1];
      AllFlushed(before) + if calls[|calls| - 1].Flush? then Run(before).buffer else []
  }

  function LastForwarded(calls: seq<Call>, key: string): Option<Reading> {
    if calls == [] then None
    else
      var before := calls[..|calls| - 1];
      var f := Forwarded(Run(before), calls[|calls| - 1], key);
      if f.Some? then f else LastForwarded(before, key)
  }
}
