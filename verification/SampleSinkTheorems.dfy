/** The sink's caches as functions of the calls made so far. */
module SampleSinkTheorems {
  import opened Options
  import opened SampleSink

  // ----- Recency -----

  function Keys<V>(c: Lru<V>): (k: seq<string>)
    ensures |k| == |c|
  {
    seq(|c|, i requires 0 <= i < |c| => c[i].0)
  }

  function Index(s: seq<string>, k: string): (i: nat)
    ensures i <= |s| && (i < |s| ==> s[i] == k) && (forall j :: 0 <= j < i ==> s[j] != k)
  {
    if s == [] || s[0] == k then 0
    else
      var i := 1 + Index(s[1..], k);
      assert forall j :: 0 < j < |s| ==> s[j] == s[1..][j - 1];
      i
  }

  function Dropped(s: seq<string>, k: string): seq<string> {
    var i := Index(s, k);
    if i < |s| then s[..i] + s[i + 1..] else s
  }

  /** The distinct names of a trace, by their last occurrence. */
  function ByRecency(names: seq<string>): seq<string> {
    if names == [] then [] else Dropped(ByRecency(names[..|names| - 1]), names[|names| - 1]) + [names[|names| - 1]]
  }

  predicate Distinct(s: seq<string>) { forall i, j :: 0 <= i < j < |s| ==> s[i] != s[j] }

  lemma IndexUnique(s: seq<string>, k: string, i: nat)
    requires i <= |s| && (i < |s| ==> s[i] == k) && (forall j :: 0 <= j < i ==> s[j] != k)
    ensures Index(s, k) == i
  {
  }

  lemma KeysPosition<V>(c: Lru<V>, k: string)
    ensures Position(c, k) == Index(Keys(c), k)
    ensures Keys(Without(c, k)) == Dropped(Keys(c), k)
  {
    IndexUnique(Keys(c), k, Position(c, k));
  }

  lemma DroppedIs(s: seq<string>, k: string)
    requires Distinct(s)
    ensures Distinct(Dropped(s, k)) && k !in Dropped(s, k)
    ensures forall x :: x in Dropped(s, k) <==> x in s && x != k
  {
    var i := Index(s, k);
    if i < |s| {
      assert s == s[..i] + [k] + s[i + 1..];
    }
  }

  lemma {:induction false} ByRecencyDistinct(names: seq<string>)
    ensures Distinct(ByRecency(names)) && forall x :: x in ByRecency(names) <==> x in names
  {
    if names != [] {
      var front, last := names[..|names| - 1], names[|names| - 1];
      assert names == front + [last];
      ByRecencyDistinct(front);
      DroppedIs(ByRecency(front), last);
    }
  }

  /** A name before the kept part. */
  lemma DroppedBefore(o: seq<string>, k: string, d: nat)
    requires d < |o| && Index(o, k) < d
    ensures |Dropped(o, k)| == |o| - 1 && Dropped(o, k)[d - 1..] == o[d..]
  {
  }

  /** A name inside the kept part. */
  lemma DroppedInside(o: seq<string>, k: string, d: nat)
    requires d <= Index(o, k) < |o|
    ensures |Dropped(o, k)| == |o| - 1 && Dropped(o[d..], k) == Dropped(o, k)[d..] && |Dropped(o[d..], k)| == |o| - d - 1
  {
    var l, i := o[d..], Index(o, k);
    forall j | 0 <= j < i - d
      ensures l[j] != k
    {
      assert l[j] == o[d + j];
    }
    IndexUnique(l, k, i - d);
    SliceWithout(o, d, i);
  }

  lemma SliceWithout(o: seq<string>, d: nat, i: nat)
    requires d <= i < |o|
    ensures o[d..][..i - d] + o[d..][i - d + 1..] == (o[..i] + o[i + 1..])[d..]
  {
  }

  /** A name that is not kept. */
  lemma DroppedNot(o: seq<string>, k: string, d: nat)
    requires d <= |o| && Distinct(o) && !(d <= Index(o, k) < |o|)
    ensures Dropped(o[d..], k) == o[d..]
  {
    var l := o[d..];
    forall j | 0 <= j < |l|
      ensures l[j] != k
    {
      assert l[j] == o[d + j];
    }
    IndexUnique(l, k, |l|);
  }

  lemma LastAfter(a: seq<string>, k: string, max: nat)
    requires |a| >= max > 0
    ensures LastOf(a + [k], max) == a[|a| + 1 - max..] + [k]
  {
  }

  lemma DropOne(s: seq<string>, d: nat, k: string)
    requires d < |s|
    ensures (s[d..] + [k])[1..] == s[d + 1..] + [k]
  {
  }

  /** Keeping the last `max` and then adding a name is adding it and then keeping the last `max`. */
  lemma LastOfDropped(o: seq<string>, k: string, max: nat)
    requires Distinct(o) && max > 0
    ensures var kept := Dropped(LastOf(o, max), k) + [k];
            LastOf(Dropped(o, k) + [k], max) == if |kept| > max then kept[1..] else kept
  {
    hide Dropped, Index, Distinct;
    DroppedLen(o, k);
    if |o| > max {
      hide LastOf;
      var d, i := |o| - max, Index(o, k);
      assert LastOf(o, max) == o[d..] by { LastOfLong(o, max); }
      if d <= i < |o| {
        DroppedInside(o, k, d);
        LastAfter(Dropped(o, k), k, max);
      } else {
        DroppedNot(o, k, d);
        DropOne(o, d, k);
        if i < d {
          DroppedBefore(o, k, d);
          LastAfter(Dropped(o, k), k, max);
          DropsTwice(Dropped(o, k), d - 1);
          DropsTwice(o, d);
        } else {
          NotThere(o, k);
          LastAfter(o, k, max);
        }
      }
    }
  }

  lemma LastOfLong(o: seq<string>, max: nat)
    requires |o| > max
    ensures LastOf(o, max) == o[|o| - max..]
  {
  }

  lemma DropsTwice(s: seq<string>, d: nat)
    requires d < |s|
    ensures s[d + 1..] == s[d..][1..]
  {
  }

  lemma DroppedLen(s: seq<string>, k: string)
    ensures |Dropped(s, k)| <= |s|
  {
  }

  lemma NotThere(s: seq<string>, k: string)
    requires Index(s, k) >= |s|
    ensures Dropped(s, k) == s
  {
  }

  lemma PutKeys<V>(c: Lru<V>, k: string, v: V, max: nat, names: seq<string>)
    requires max > 0 && Keys(c) == LastOf(ByRecency(names), max)
    ensures Keys(Put(c, k, v, max)) == LastOf(ByRecency(names + [k]), max)
  {
    hide Index, LastOf, Dropped, Position, ByRecency;
    ByRecencyDistinct(names);
    LastOfDropped(ByRecency(names), k, max);
    KeysPosition(c, k);
    ByRecencySnoc(names, k);
    var kept := Without(c, k) + [(k, v)];
    KeysSnoc(Without(c, k), k, v);
    KeysTail(kept);
  }

  lemma ByRecencySnoc(names: seq<string>, k: string)
    ensures ByRecency(names + [k]) == Dropped(ByRecency(names), k) + [k]
  {
    assert (names + [k])[..|names|] == names;
  }

  lemma KeysSnoc<V>(w: Lru<V>, k: string, v: V)
    ensures Keys(w + [(k, v)]) == Keys(w) + [k]
  {
  }

  lemma KeysTail<V>(w: Lru<V>)
    requires w != []
    ensures Keys(w[1..]) == Keys(w)[1..]
  {
  }

  /** What is left without a key was there, under other keys. */
  lemma WithoutEntries<V>(c: Lru<V>, k: string)
    ensures forall e :: e in Without(c, k) ==> e in c
    ensures Distinct(Keys(c)) ==> forall e :: e in Without(c, k) ==> e.0 != k
  {
    var i := Position(c, k);
    var w := Without(c, k);
    forall j | 0 <= j < |w|
      ensures w[j] in c && (Distinct(Keys(c)) ==> w[j].0 != k)
    {
      var n := if j < i then j else j + 1;
      assert w[j] == c[n];
      assert Keys(c)[n] == c[n].0;
      if i < |c| {
        assert Keys(c)[i] == k;
      }
    }
  }

  /** The other entries stay as they are. */
  lemma PutEntries<V>(c: Lru<V>, k: string, v: V, max: nat)
    ensures forall e :: e in Put(c, k, v, max) ==> e == (k, v) || e in c
    ensures Distinct(Keys(c)) ==> forall e :: e in Put(c, k, v, max) && e != (k, v) ==> e.0 != k
    ensures max > 0 ==> (k, v) in Put(c, k, v, max)
  {
    hide Position, Without, Keys, Distinct;
    WithoutEntries(c, k);
    var w := Without(c, k) + [(k, v)];
    forall e | e in Put(c, k, v, max)
      ensures e == (k, v) || e in Without(c, k)
    {
      assert e in w;
    }
    if max > 0 {
      assert Put(c, k, v, max)[|Put(c, k, v, max)| - 1] == (k, v);
    }
  }

  lemma LookupIs<V>(c: Lru<V>, k: string)
    ensures Lookup(c, k).Some? ==> (k, Lookup(c, k).value) in c
    ensures Lookup(c, k).None? ==> forall e :: e in c ==> e.0 != k
    ensures Lookup(c, k).Some? <==> k in Keys(c)
  {
    var i := Position(c, k);
    if i < |c| {
      assert c[i] == (k, c[i].1);
      assert Keys(c)[i] == k;
    }
  }

  lemma DistinctPut<V>(c: Lru<V>, k: string, v: V, max: nat)
    requires Distinct(Keys(c))
    ensures Distinct(Keys(Put(c, k, v, max)))
  {
    hide Position, Dropped, Index;
    KeysPosition(c, k);
    DroppedIs(Keys(c), k);
    KeysSnoc(Without(c, k), k, v);
    KeysTail(Without(c, k) + [(k, v)]);
  }

  // ----- What the caches show -----

  function Names(shown: seq<Sample>): (n: seq<string>)
    ensures |n| == |shown|
  {
    seq(|shown|, i requires 0 <= i < |shown| => shown[i].metric)
  }

  function LastShown(shown: seq<Sample>, metric: string): Option<Sample> {
    if shown == [] then None
    else if shown[|shown| - 1].metric == metric then Some(shown[|shown| - 1])
    else LastShown(shown[..|shown| - 1], metric)
  }

  /** All the points of one metric. */
  function Points(shown: seq<Sample>, metric: string): seq<Point> {
    if shown == [] then []
    else
      var x := shown[|shown| - 1];
      Points(shown[..|shown| - 1], metric) + if x.metric == metric then [Point(x.ts, x.value)] else []
  }

  predicate IsSuffix<T(==)>(a: seq<T>, b: seq<T>) { |a| <= |b| && b[|b| - |a|..] == a }

  /** How many different metrics were ever shown. */
  function Known(shown: seq<Sample>): nat { |ByRecency(Names(shown))| }

  /** The metric is among the ones shown most recently. */
  predicate InCache(shown: seq<Sample>, metric: string) { metric in LastOf(ByRecency(Names(shown)), SERIES_MAXSIZE) }

  /** The points of one metric since it last entered the cache. */
  function PointsSince(shown: seq<Sample>, metric: string): seq<Point> {
    if shown == [] then []
    else
      var front, x := shown[..|shown| - 1], shown[|shown| - 1];
      if x.metric != metric then PointsSince(front, metric)
      else (if InCache(front, metric) then PointsSince(front, metric) else []) + [Point(x.ts, x.value)]
  }

  predicate SeriesEntry(e: (string, seq<Point>), shown: seq<Sample>) {
    && e.1 == LastOf(PointsSince(shown, e.0), SERIES_LENGTH)
    && 0 < |e.1| <= SERIES_LENGTH && IsSuffix(e.1, Points(shown, e.0))
    && (Known(shown) <= SERIES_MAXSIZE ==> e.1 == LastOf(Points(shown, e.0), SERIES_LENGTH))
  }

  /** The caches hold the most recently shown metrics, each with its last sample and its last points. */
  predicate Caches(s: Sink, shown: seq<Sample>) {
    && Keys(s.latest) == LastOf(ByRecency(Names(shown)), LATEST_MAXSIZE)
    && Keys(s.series) == LastOf(ByRecency(Names(shown)), SERIES_MAXSIZE)
    && (forall e :: e in s.latest ==> LastShown(shown, e.0) == Some(e.1))
    && (forall e :: e in s.series ==> SeriesEntry(e, shown))
  }

  lemma NamesSnoc(shown: seq<Sample>, x: Sample)
    ensures Names(shown + [x]) == Names(shown) + [x.metric]
    ensures (shown + [x])[..|shown|] == shown
  {
  }

  lemma LastOfDistinct(o: seq<string>, max: nat)
    requires Distinct(o)
    ensures Distinct(LastOf(o, max))
  {
  }

  lemma SuffixExtends<T>(a: seq<T>, b: seq<T>, x: T, n: nat)
    requires IsSuffix(a, b) && n > 0
    ensures IsSuffix(LastOf(a + [x], n), b + [x])
    ensures a == LastOf(b, n) ==> LastOf(a + [x], n) == LastOf(b + [x], n)
  {
  }

  lemma KnownGrows(shown: seq<Sample>, x: Sample)
    ensures Known(shown) <= Known(shown + [x])
    ensures x.metric !in Names(shown) ==> Points(shown, x.metric) == []
  {
    NamesSnoc(shown, x);
    assert (Names(shown) + [x.metric])[..|shown|] == Names(shown);
    if x.metric !in Names(shown) {
      NoPoints(shown, x.metric);
    }
  }

  lemma {:induction false} NoPoints(shown: seq<Sample>, metric: string)
    requires metric !in Names(shown)
    ensures Points(shown, metric) == []
  {
    if shown != [] {
      var front := shown[..|shown| - 1];
      assert Names(shown) == Names(front) + [shown[|shown| - 1].metric];
      NoPoints(front, metric);
    }
  }

  lemma SeriesOther(e: (string, seq<Point>), shown: seq<Sample>, x: Sample)
    requires SeriesEntry(e, shown) && e.0 != x.metric
    ensures SeriesEntry(e, shown + [x])
  {
    hide LastOf, IsSuffix, Known, InCache;
    NamesSnoc(shown, x);
    KnownGrows(shown, x);
    assert Points(shown, e.0) + [] == Points(shown, e.0);
  }

  lemma SeriesOwn(s: Sink, shown: seq<Sample>, x: Sample)
    requires Caches(s, shown)
    ensures var before := Lookup(s.series, x.metric);
            var points := if before.Some? then before.value else [];
            SeriesEntry((x.metric, LastOf(points + [Point(x.ts, x.value)], SERIES_LENGTH)), shown + [x])
  {
    hide Known, ByRecency, Position;
    var before := Lookup(s.series, x.metric);
    var points := if before.Some? then before.value else [];
    SinceOwn(s, shown, x);
    NamesSnoc(shown, x);
    KnownGrows(shown, x);
    LookupIs(s.series, x.metric);
    SuffixExtends(points, Points(shown, x.metric), Point(x.ts, x.value), SERIES_LENGTH) by {
      if before.Some? {
        assert SeriesEntry((x.metric, points), shown);
      }
    }
    if before.None? && Known(shown + [x]) <= SERIES_MAXSIZE {
      NothingEvicted(s, shown, x.metric);
    }
  }

  /** The ring goes on when the metric is cached, and starts anew when it is not. */
  lemma SinceOwn(s: Sink, shown: seq<Sample>, x: Sample)
    requires Caches(s, shown)
    ensures var before := Lookup(s.series, x.metric);
            var points := if before.Some? then before.value else [];
            LastOf(points + [Point(x.ts, x.value)], SERIES_LENGTH) == LastOf(PointsSince(shown + [x], x.metric), SERIES_LENGTH)
  {
    hide Known, ByRecency, Position, Points, PointsSince;
    var before := Lookup(s.series, x.metric);
    LookupIs(s.series, x.metric);
    NamesSnoc(shown, x);
    SinceSnoc(shown, x);
    if before.Some? {
      assert SeriesEntry((x.metric, before.value), shown);
      LastOfIsSuffix(PointsSince(shown, x.metric), SERIES_LENGTH);
      SuffixExtends(before.value, PointsSince(shown, x.metric), Point(x.ts, x.value), SERIES_LENGTH);
    }
  }

  lemma SinceSnoc(shown: seq<Sample>, x: Sample)
    ensures PointsSince(shown + [x], x.metric)
            == (if InCache(shown, x.metric) then PointsSince(shown, x.metric) else []) + [Point(x.ts, x.value)]
  {
    hide InCache;
    assert (shown + [x])[..|shown|] == shown;
  }

  lemma LastOfIsSuffix<T>(s: seq<T>, n: nat)
    ensures IsSuffix(LastOf(s, n), s)
  {
  }

  lemma NothingEvicted(s: Sink, shown: seq<Sample>, metric: string)
    requires Caches(s, shown) && Known(shown) <= SERIES_MAXSIZE && metric !in Keys(s.series)
    ensures Points(shown, metric) == []
  {
    ByRecencyDistinct(Names(shown));
    NoPoints(shown, metric);
  }

  lemma TouchedCaches(s: Sink, shown: seq<Sample>, x: Sample)
    requires Caches(s, shown)
    ensures Caches(Touched(s, x), shown + [x])
  {
    hide Put, ByRecency, SeriesEntry, LastOf;
    var u := Touched(s, x);
    NamesSnoc(shown, x);
    PutKeys(s.latest, x.metric, x, LATEST_MAXSIZE, Names(shown));
    var before := Lookup(s.series, x.metric);
    var points := if before.Some? then before.value else [];
    var now := LastOf(points + [Point(x.ts, x.value)], SERIES_LENGTH);
    PutKeys(s.series, x.metric, now, SERIES_MAXSIZE, Names(shown));
    ByRecencyDistinct(Names(shown));
    LastOfDistinct(ByRecency(Names(shown)), LATEST_MAXSIZE);
    LastOfDistinct(ByRecency(Names(shown)), SERIES_MAXSIZE);
    PutEntries(s.latest, x.metric, x, LATEST_MAXSIZE);
    PutEntries(s.series, x.metric, now, SERIES_MAXSIZE);
    SeriesOwn(s, shown, x);
    forall e | e in u.series
      ensures SeriesEntry(e, shown + [x])
    {
      if e != (x.metric, now) {
        SeriesOther(e, shown, x);
      }
    }
  }

  lemma SameCaches(s: Sink, u: Sink, shown: seq<Sample>)
    requires Caches(s, shown) && u.latest == s.latest && u.series == s.series
    ensures Caches(u, shown)
  {
  }

  lemma EmittedCaches(s: Sink, shown: seq<Sample>, x: Sample, now: real)
    requires Caches(s, shown)
    ensures Caches(Emitted(s, x, now), if Drops(s, x.ts) then shown else shown + [x])
  {
    hide Touched, Fresh, Caches;
    var w := Windowed(s, x.ts);
    var c := w.(floodCount := w.floodCount + 1);
    SameCaches(s, c, shown);
    TouchedCaches(c, shown, x);
    if Drops(s, x.ts) {
      SameCaches(c, Emitted(s, x, now), shown);
    } else {
      SameCaches(Touched(c, x), Emitted(s, x, now), shown + [x]);
    }
  }

  lemma {:induction false} BatchedCaches(s: Sink, shown: seq<Sample>, samples: seq<Sample>)
    requires Caches(s, shown)
    ensures Caches(Batched(s, samples), shown + samples)
  {
    hide Touched, Caches;
    if samples == [] {
      assert shown + samples == shown;
    } else {
      var front, x := samples[..|samples| - 1], samples[|samples| - 1];
      BatchedCaches(s, shown, front);
      var b := Batched(s, front);
      TouchedCaches(b, shown + front, x);
      SameCaches(Touched(b, x), Buffered(Touched(b, x), x), (shown + front) + [x]);
      assert (shown + front) + [x] == shown + samples;
    }
  }

  lemma CallCaches(s: Sink, shown: seq<Sample>, c: Call)
    requires Caches(s, shown)
    ensures Caches(After(s, c), shown + Shown(s, c))
  {
    hide Touched, Emitted, Caches, Put, Previous;
    assert shown + [] == shown;
    match c {
      case Emit(x, now) => EmittedCaches(s, shown, x, now);
      case EmitIfChanged(x, key, gauge, now) =>
        SameCaches(s, Remembered(s, key, x), shown);
        EmittedCaches(s, shown, x, now);
        EmittedCaches(Remembered(s, key, x), shown, x, now);
        TouchedCaches(s, shown, x);
      case EmitWithSensitivity(x, key, _, _, now) =>
        SameCaches(s, Remembered(s, key, x), shown);
        EmittedCaches(Remembered(s, key, x), shown, x, now);
        TouchedCaches(s, shown, x);
      case EmitBatch(samples) => BatchedCaches(s, shown, samples);
      case Flush => SameCaches(s, After(s, c), shown);
    }
  }

  /**
   Whatever mix of calls was made, `latest` and `series` hold the same metrics in the same order: the
   10,000 shown most recently, each with its last sample, and with the last 120 of its points since it last
   entered the cache, which are the last 120 of all its points while no metric was ever evicted.
   */
  lemma {:induction false} CachesAreRecent(calls: seq<Call>)
    ensures Caches(Run(calls), AllShown(calls))
    ensures Keys(Run(calls).latest) == Keys(Run(calls).series) && |Run(calls).latest| <= LATEST_MAXSIZE
  {
    hide Caches, After, Shown;
    if calls == [] {
      assert Caches(NewSink(), []) by { NothingCached(); }
    } else {
      var front, c := calls[..|calls| - 1], calls[|calls| - 1];
      CachesAreRecent(front);
      CallCaches(Run(front), AllShown(front), c);
    }
    SameKeys(Run(calls), AllShown(calls));
  }

  lemma NothingCached()
    ensures Caches(NewSink(), [])
  {
  }

  lemma SameKeys(s: Sink, shown: seq<Sample>)
    requires Caches(s, shown)
    ensures Keys(s.latest) == Keys(s.series) && |s.latest| <= LATEST_MAXSIZE
  {
    hide ByRecency, SeriesEntry;
  }

  // ----- Suppression -----

  /** Every remembered reading is the last one forwarded for its key. */
  predicate RemembersLast(d: Lru<Reading>, calls: seq<Call>) {
    Distinct(Keys(d)) && forall e :: e in d ==> LastForwarded(calls, e.0) == Some(e.1)
  }

  lemma {:induction false} FreshIs(d: Lru<Reading>, cutoff: real)
    requires Distinct(Keys(d))
    ensures Distinct(Keys(Fresh(d, cutoff)))
    ensures forall e :: e in Fresh(d, cutoff) ==> e in d
  {
    if d != [] {
      var front, last := d[..|d| - 1], d[|d| - 1];
      assert Keys(front) == Keys(d)[..|d| - 1];
      FreshIs(front, cutoff);
      var f := Fresh(front, cutoff);
      assert d == front + [last];
      forall i | 0 <= i < |f|
        ensures f[i].0 != last.0
      {
        assert f[i] in front;
        var j :| 0 <= j < |front| && front[j] == f[i];
        assert Keys(d)[j] == f[i].0 && Keys(d)[|d| - 1] == last.0;
      }
      assert forall i :: 0 <= i < |f| ==> Keys(f)[i] == f[i].0;
    }
  }

  lemma EmittedRemembers(s: Sink, x: Sample, now: real)
    requires Distinct(Keys(s.dedup))
    ensures var u := Emitted(s, x, now);
            Distinct(Keys(u.dedup)) && forall e :: e in u.dedup ==> e in s.dedup
  {
    hide Touched, Fresh, Put;
    FreshIs(s.dedup, now - DEDUP_TTL);
    TouchedDedup(Windowed(s, x.ts).(floodCount := Windowed(s, x.ts).floodCount + 1), x);
  }

  lemma TouchedDedup(s: Sink, x: Sample)
    ensures Touched(s, x).dedup == s.dedup && Touched(s, x).sinceGc == s.sinceGc
  {
  }

  lemma {:induction false} BatchedDedup(s: Sink, samples: seq<Sample>)
    ensures Batched(s, samples).dedup == s.dedup
  {
    hide Touched;
    if samples != [] {
      BatchedDedup(s, samples[..|samples| - 1]);
      TouchedDedup(Batched(s, samples[..|samples| - 1]), samples[|samples| - 1]);
    }
  }

  lemma RememberedIs(s: Sink, key: string, x: Sample)
    requires Distinct(Keys(s.dedup))
    ensures var u := Remembered(s, key, x);
            && Distinct(Keys(u.dedup))
            && forall e :: e in u.dedup ==> e == (key, Reading(x.value, x.ts)) || (e in s.dedup && e.0 != key)
  {
    hide Put;
    DistinctPut(s.dedup, key, Reading(x.value, x.ts), DEDUP_MAXSIZE);
    PutEntries(s.dedup, key, Reading(x.value, x.ts), DEDUP_MAXSIZE);
  }

  /** After a call, what is remembered is what it forwarded under its key, or was there before. */
  lemma CallRemembers(s: Sink, c: Call)
    requires Distinct(Keys(s.dedup))
    ensures var u := After(s, c);
            && Distinct(Keys(u.dedup))
            && forall e :: e in u.dedup ==>
                 var f := Forwarded(s, c, e.0);
                 if f.Some? then e.1 == f.value else e in s.dedup
  {
    hide Touched, Emitted, Remembered, Previous;
    match c {
      case Emit(x, now) => EmittedRemembers(s, x, now);
      case EmitIfChanged(x, key, gauge, now) =>
        TouchedDedup(s, x);
        RememberedIs(s, key, x);
        EmittedRemembers(s, x, now);
        EmittedRemembers(Remembered(s, key, x), x, now);
      case EmitWithSensitivity(x, key, _, _, now) =>
        TouchedDedup(s, x);
        RememberedIs(s, key, x);
        EmittedRemembers(Remembered(s, key, x), x, now);
      case EmitBatch(samples) => BatchedDedup(s, samples);
      case Flush =>
    }
  }

  lemma {:induction false} RunRemembers(calls: seq<Call>)
    ensures RemembersLast(Run(calls).dedup, calls)
  {
    hide After, Forwarded;
    if calls != [] {
      var front, c := calls[..|calls| - 1], calls[|calls| - 1];
      RunRemembers(front);
      CallRemembers(Run(front), c);
    }
  }

  /**
   A reading suppressed by `emit_with_sensitivity` is never far from the last reading forwarded for
   its key, which is less than 300 s old: the tolerance shrinks with time and is never measured from
   a suppressed reading, so drift does not add up, whatever evictions and garbage collections do.
   */
  lemma SuppressionIsBounded(calls: seq<Call>, c: Call)
    requires c.EmitWithSensitivity? && Suppressed(Run(calls), c)
    ensures LastForwarded(calls, c.key).Some?
    ensures var r := LastForwarded(calls, c.key).value;
            var elapsed, diff := c.x.ts - r.ts, Abs(c.x.value - r.value);
            && elapsed < DEDUP_STALE_SECONDS
            && diff <= c.maxThreshold * (1.0 - elapsed / DEDUP_STALE_SECONDS)
            && (c.absThreshold > 0.0 ==> diff < c.absThreshold)
            && (r.value == 0.0 <==> c.x.value == 0.0)
            && (r.ts <= c.x.ts && c.maxThreshold >= 0.0 ==> diff <= c.maxThreshold)
  {
    hide Run, LastForwarded, Forwarded;
    RunRemembers(calls);
    var s := Run(calls);
    LookupIs(s.dedup, c.key);
    var r := Previous(s, c.key, c.x.ts).value;
    assert (c.key, r) in s.dedup;
    ToleranceIs(c.maxThreshold, c.x.ts - r.ts);
  }

  lemma ToleranceIs(maxThreshold: real, elapsed: real)
    requires elapsed < DEDUP_STALE_SECONDS
    ensures Tolerance(maxThreshold, elapsed) == maxThreshold * (1.0 - elapsed / DEDUP_STALE_SECONDS)
    ensures elapsed >= 0.0 && maxThreshold >= 0.0 ==> Tolerance(maxThreshold, elapsed) <= maxThreshold
  {
    var share := 1.0 - elapsed / DEDUP_STALE_SECONDS;
    assert share > 0.0;
    if elapsed >= 0.0 && maxThreshold >= 0.0 {
      assert share <= 1.0;
      assert maxThreshold * share <= maxThreshold * 1.0;
    }
  }

  /** A reading suppressed by `emit_if_changed` equals the last one forwarded, less than 300 s ago. */
  lemma UnchangedIsUnchanged(calls: seq<Call>, c: Call)
    requires c.EmitIfChanged? && Suppressed(Run(calls), c)
    ensures LastForwarded(calls, c.key).Some?
    ensures LastForwarded(calls, c.key).value.value == c.x.value
    ensures c.x.ts - LastForwarded(calls, c.key).value.ts < DEDUP_STALE_SECONDS
  {
    hide Run, LastForwarded, Forwarded;
    RunRemembers(calls);
    var s := Run(calls);
    LookupIs(s.dedup, c.key);
    assert (c.key, Previous(s, c.key, c.x.ts).value) in s.dedup;
  }

  // ----- The buffer and the flood -----

  lemma {:induction false} BatchedBuffer(s: Sink, samples: seq<Sample>)
    ensures var u := Batched(s, samples);
            && u.buffer == s.buffer + samples && u.emitted == s.emitted + |samples|
            && u.dropped == s.dropped && u.dropCount == s.dropCount && u.floodCount == s.floodCount
            && u.windowStart == s.windowStart && u.dropLogged == s.dropLogged
  {
    hide Put, LastOf, Lookup;
    if samples == [] {
      assert s.buffer + samples == s.buffer;
    } else {
      BatchedBuffer(s, samples[..|samples| - 1]);
      assert (s.buffer + samples[..|samples| - 1]) + [samples[|samples| - 1]] == s.buffer + samples;
    }
  }

  lemma EmittedBuffer(s: Sink, x: Sample, now: real)
    ensures var u, w := Emitted(s, x, now), Windowed(s, x.ts);
            && u.buffer == (if Drops(s, x.ts) then s.buffer else s.buffer + [x])
            && u.emitted + u.dropped == s.emitted + s.dropped + 1
            && u.floodCount == w.floodCount + 1 && u.windowStart == w.windowStart
            && u.dropCount == w.dropCount + (if Drops(s, x.ts) then 1 else 0)
            && u.dropLogged == (w.dropLogged || Drops(s, x.ts))
            && u.emitted == s.emitted + (if Drops(s, x.ts) then 0 else 1)
  {
    hide Put, LastOf, Lookup, Fresh;
  }

  /** How many samples were handed to `emit`, or came in a batch. */
  function Handed(calls: seq<Call>): nat {
    if calls == [] then 0
    else
      var before, c := calls[..|calls| - 1], calls[|calls| - 1];
      Handed(before)
      + match c
        case EmitBatch(samples) => |samples|
        case Flush => 0
        case _ => if Suppressed(Run(before), c) then 0 else 1
  }

  /** How many samples `emit` has let through since its current window began. */
  function InWindow(calls: seq<Call>): nat {
    if calls == [] then 0
    else
      var before, c := calls[..|calls| - 1], calls[|calls| - 1];
      if c.EmitBatch? || c.Flush? || Suppressed(Run(before), c) then InWindow(before)
      else
        (if c.x.ts - Run(before).windowStart > FLOOD_WINDOW then 0 else InWindow(before))
        + if Drops(Run(before), c.x.ts) then 0 else 1
  }

  predicate FloodOk(s: Sink, calls: seq<Call>) {
    && InWindow(calls) <= FLOOD_MAX
    && s.floodCount == InWindow(calls) + s.dropCount
    && (s.dropCount > 0 ==> InWindow(calls) == FLOOD_MAX)
    && (s.dropLogged <==> s.dropCount > 0)
  }

  lemma NewSinkIsCalm()
    ensures FloodOk(NewSink(), []) && NewSink().emitted + NewSink().dropped == 0
  {
  }

  lemma DropsIs(s: Sink, calls: seq<Call>, ts: real)
    requires FloodOk(s, calls)
    ensures var inWindow := if ts - s.windowStart > FLOOD_WINDOW then 0 else InWindow(calls);
            var w := Windowed(s, ts);
            && (Drops(s, ts) <==> inWindow == FLOOD_MAX)
            && w.floodCount == inWindow + w.dropCount && inWindow <= FLOOD_MAX
            && (w.dropCount > 0 ==> inWindow == FLOOD_MAX)
            && (w.dropLogged <==> w.dropCount > 0)
            && w.dropped == s.dropped && w.emitted == s.emitted
  {
  }

  /** The sinks agree on everything but their caches. */
  predicate SameCounters(r: Sink, s: Sink) {
    && r.buffer == s.buffer && r.emitted == s.emitted && r.dropped == s.dropped && r.floodCount == s.floodCount
    && r.dropCount == s.dropCount && r.dropLogged == s.dropLogged && r.windowStart == s.windowStart
  }

  predicate IsEmission(c: Call) { c.Emit? || c.EmitIfChanged? || c.EmitWithSensitivity? }

  /** A call that is handed on to `emit`. */
  lemma EmitFlood(calls: seq<Call>, c: Call, r: Sink)
    requires FloodOk(Run(calls), calls) && IsEmission(c) && !Suppressed(Run(calls), c) && SameCounters(r, Run(calls))
    ensures var s, u := Run(calls), Emitted(r, c.x, c.now);
            && FloodOk(u, calls + [c])
            && Handed(calls + [c]) - Handed(calls) == u.emitted + u.dropped - s.emitted - s.dropped
            && u.buffer == s.buffer + Accepted(s, c)
  {
    hide Run, Touched, Emitted, Suppressed, Put, Batched, FloodOk;
    var s := Run(calls);
    assert (calls + [c])[..|calls|] == calls;
    assert s.buffer + [] == s.buffer;
    EmittedBuffer(r, c.x, c.now);
    EmitWindow(calls, c, r);
  }

  lemma EmitWindow(calls: seq<Call>, c: Call, r: Sink)
    requires FloodOk(Run(calls), calls) && IsEmission(c) && !Suppressed(Run(calls), c) && SameCounters(r, Run(calls))
    ensures Drops(r, c.x.ts) <==> Drops(Run(calls), c.x.ts)
    ensures FloodOk(Emitted(r, c.x, c.now), calls + [c])
  {
    hide Run, Touched, Emitted, Suppressed, Put, Batched;
    assert (calls + [c])[..|calls|] == calls;
    EmittedBuffer(r, c.x, c.now);
    DropsIs(Run(calls), calls, c.x.ts);
  }

  /** A call that is not. */
  lemma OtherFlood(calls: seq<Call>, c: Call, u: Sink)
    requires FloodOk(Run(calls), calls) && (!IsEmission(c) || Suppressed(Run(calls), c))
    requires u.dropped == Run(calls).dropped && u.floodCount == Run(calls).floodCount
    requires u.dropCount == Run(calls).dropCount && u.dropLogged == Run(calls).dropLogged
    ensures FloodOk(u, calls + [c])
    ensures Handed(calls + [c]) - Handed(calls) == if c.EmitBatch? then |c.samples| else 0
  {
    OtherCounts(calls, c);
  }

  lemma OtherCounts(calls: seq<Call>, c: Call)
    requires !IsEmission(c) || Suppressed(Run(calls), c)
    ensures InWindow(calls + [c]) == InWindow(calls)
    ensures Handed(calls + [c]) == Handed(calls) + if c.EmitBatch? then |c.samples| else 0
  {
    hide Run, Suppressed, Drops, Windowed;
    assert (calls + [c])[..|calls|] == calls;
  }

  /** What a call does to the counters. */
  lemma CallFlood(calls: seq<Call>, c: Call)
    requires FloodOk(Run(calls), calls)
    ensures FloodOk(After(Run(calls), c), calls + [c])
    ensures Handed(calls + [c]) - Handed(calls)
            == After(Run(calls), c).emitted + After(Run(calls), c).dropped - Run(calls).emitted - Run(calls).dropped
    ensures After(Run(calls), c).buffer == (if c.Flush? then [] else Run(calls).buffer + Accepted(Run(calls), c))
  {
    hide Run, Touched, Emitted, Previous, Put, Batched, Drops, Windowed, FloodOk, Handed;
    var s := Run(calls);
    assert s.buffer + [] == s.buffer;
    if IsEmission(c) && Suppressed(s, c) {
      TouchedFlood(s, c.x);
      OtherFlood(calls, c, After(s, c));
    } else {
      match c {
        case EmitBatch(samples) =>
          BatchedBuffer(s, samples);
          OtherFlood(calls, c, After(s, c));
        case Flush => OtherFlood(calls, c, After(s, c));
        case Emit(x, now) => EmitFlood(calls, c, s);
        case EmitIfChanged(x, key, _, now) =>
          EmitFlood(calls, c, s);
          EmitFlood(calls, c, Remembered(s, key, x));
        case EmitWithSensitivity(x, key, _, _, now) => EmitFlood(calls, c, Remembered(s, key, x));
      }
    }
  }

  lemma TouchedFlood(s: Sink, x: Sample)
    ensures var t := Touched(s, x);
            && t.buffer == s.buffer && t.emitted == s.emitted && t.dropped == s.dropped && t.floodCount == s.floodCount
            && t.dropCount == s.dropCount && t.dropLogged == s.dropLogged && t.windowStart == s.windowStart
  {
  }

  /**
   No window lets more than 5000 samples through, every sample handed over is counted once as emitted
   or dropped, and the samples accepted are, in order, those flushed and those still in the buffer.
   */
  lemma {:induction false} FloodAndBuffer(calls: seq<Call>)
    ensures FloodOk(Run(calls), calls)
    ensures Run(calls).emitted + Run(calls).dropped == Handed(calls)
    ensures AllAccepted(calls) == AllFlushed(calls) + Run(calls).buffer
  {
    hide After, Accepted, FloodOk, Handed;
    if calls == [] {
      NewSinkIsCalm();
      assert Handed([]) == 0 by { NobodyHanded(); }
    } else {
      var front, c := calls[..|calls| - 1], calls[|calls| - 1];
      assert front + [c] == calls;
      FloodAndBuffer(front);
      CallFlood(front, c);
      if c.Flush? {
        NothingAccepted(Run(front));
        assert AllAccepted(front) + [] == AllAccepted(front);
        assert (AllFlushed(front) + Run(front).buffer) + [] == AllFlushed(front) + Run(front).buffer;
      } else {
        assert AllFlushed(front) + [] == AllFlushed(front);
        assert (AllFlushed(front) + Run(front).buffer) + Accepted(Run(front), c)
            == AllFlushed(front) + (Run(front).buffer + Accepted(Run(front), c));
      }
    }
  }

  lemma NobodyHanded()
    ensures Handed([]) == 0
  {
  }

  lemma NothingAccepted(s: Sink)
    ensures Accepted(s, Flush) == []
  {
  }
}
