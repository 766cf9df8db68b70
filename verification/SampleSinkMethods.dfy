/** The sink's calls, on its fields. */
module SampleSinkMethods {
  import opened Options
  import opened SampleSink

  /** The buffer is handed to the database when it is full. */
  predicate IsFull(s: Sink, bufferSize: nat) { bufferSize == 0 || |s.buffer| >= bufferSize }

  function Settled(s: Sink, bufferSize: nat): Sink { if IsFull(s, bufferSize) then After(s, Flush) else s }

  function Handed(s: Sink, bufferSize: nat): seq<Sample> { if IsFull(s, bufferSize) then s.buffer else [] }

  class Collector {
    const bufferSize: nat
    var latest: Lru<Sample>
    var series: Lru<seq<Point>>
    var dedup: Lru<Reading>
    var buffer: seq<Sample>
    var emitted: nat
    var sinceGc: nat
    var windowStart: real
    var floodCount: nat
    var dropped: nat
    var dropCount: nat
    var dropLogged: bool
    var stored: seq<Sample>       // what the database was given

    constructor (bufferSize: nat)
      ensures this.bufferSize == bufferSize && View() == NewSink() && stored == []
    {
      this.bufferSize := bufferSize;
      latest, series, dedup, buffer, stored := [], [], [], [], [];
      emitted, sinceGc, floodCount, dropped, dropCount := 0, 0, 0, 0, 0;
      windowStart, dropLogged := 0.0, false;
    }

    function View(): Sink
      reads this
    {
      Sink(latest, series, dedup, buffer, emitted, sinceGc, windowStart, floodCount, dropped, dropCount, dropLogged)
    }

    /** `_lru_set_latest` */
    method SetLatest(x: Sample)
      modifies this`latest
      ensures latest == Put(old(latest), x.metric, x, LATEST_MAXSIZE)
    {
      var i := FindKey(latest, x.metric);
      if i < |latest| {
        latest := latest[..i] + latest[i + 1..];
      }
      latest := latest + [(x.metric, x)];
      if |latest| > LATEST_MAXSIZE {
        latest := latest[1..];
      }
    }

    /** `_series_append` */
    method AppendPoint(metric: string, p: Point)
      modifies this`series
      ensures var before := Lookup(old(series), metric);
              var points := if before.Some? then before.value else [];
              series == Put(old(series), metric, LastOf(points + [p], SERIES_LENGTH), SERIES_MAXSIZE)
    {
      var i := FindKey(series, metric);
      var points := [];
      if i < |series| {
        points := series[i].1;
        series := series[..i] + series[i + 1..];
      }
      points := points + [p];
      if |points| > SERIES_LENGTH {
        points := points[|points| - SERIES_LENGTH..];
      }
      series := series + [(metric, points)];
      if |series| > SERIES_MAXSIZE {
        series := series[1..];
      }
    }

    method Touch(x: Sample)
      modifies this`latest, this`series
      ensures View() == Touched(old(View()), x)
    {
      hide Put, LastOf, Lookup;
      SetLatest(x);
      AppendPoint(x.metric, Point(x.ts, x.value));
    }

    /** `_lru_set_dedup` */
    method SetDedup(key: string, x: Sample)
      modifies this`dedup
      ensures View() == Remembered(old(View()), key, x)
    {
      var i := FindKey(dedup, key);
      if i < |dedup| {
        dedup := dedup[..i] + dedup[i + 1..];
      }
      dedup := dedup + [(key, Reading(x.value, x.ts))];
      if |dedup| > DEDUP_MAXSIZE {
        dedup := dedup[1..];
      }
    }

    /** `_dedup_gc` */
    method CollectGarbage(now: real)
      modifies this`dedup
      ensures dedup == Fresh(old(dedup), now - DEDUP_TTL)
    {
      var cutoff := now - DEDUP_TTL;
      var kept: Lru<Reading> := [];
      for i := 0 to |dedup|
        invariant kept == Fresh(dedup[..i], cutoff)
      {
        assert dedup[..i + 1] == dedup[..i] + [dedup[i]] && dedup[..i + 1][..i] == dedup[..i];
        if !(dedup[i].1.ts < cutoff) {
          kept := kept + [dedup[i]];
        }
      }
      assert dedup[..|dedup|] == dedup;
      dedup := kept;
    }

    /** `flush` */
    method FlushBuffer()
      modifies this`buffer, this`stored
      ensures View() == After(old(View()), Flush) && stored == old(stored) + old(buffer)
    {
      var taken := buffer;
      buffer := [];
      stored := stored + taken;
    }

    method BeginWindow(ts: real) returns (notices: seq<Notice>)
      modifies this`windowStart, this`floodCount, this`dropCount, this`dropLogged
      ensures View() == Windowed(old(View()), ts)
      ensures notices == if ts - old(windowStart) > FLOOD_WINDOW && old(dropCount) > 0 then [Recovered(old(dropCount))] else []
    {
      notices := [];
      if ts - windowStart > FLOOD_WINDOW {
        if dropCount > 0 {
          notices := [Recovered(dropCount)];
        }
        windowStart, floodCount, dropCount, dropLogged := ts, 0, 0, false;
      }
    }

    method Accept(x: Sample, now: real)
      modifies this`latest, this`series, this`buffer, this`emitted, this`sinceGc, this`dedup
      ensures View() == Collected(Buffered(Touched(old(View()), x), x), now)
    {
      hide Touched, Fresh;
      Touch(x);
      buffer, emitted := buffer + [x], emitted + 1;
      sinceGc := sinceGc + 1;
      if sinceGc >= DEDUP_GC_INTERVAL {
        sinceGc := 0;
        CollectGarbage(now);
      }
    }

    /** The critical section of `emit`. */
    method Count(x: Sample, now: real) returns (dropIt: bool, notices: seq<Notice>)
      modifies this
      ensures View() == Emitted(old(View()), x, now) && stored == old(stored)
      ensures dropIt <==> Drops(old(View()), x.ts)
      ensures notices == SampleSink.Notices(old(View()), x.ts)
    {
      hide Touched, Fresh, Windowed, Collected, Buffered;
      notices := BeginWindow(x.ts);
      floodCount := floodCount + 1;
      dropIt := floodCount > FLOOD_MAX;
      if dropIt {
        dropped, dropCount := dropped + 1, dropCount + 1;
        if !dropLogged {
          dropLogged := true;
          notices := notices + [Degraded(dropped)];
        }
      } else {
        Accept(x, now);
      }
    }

    method Emit(x: Sample, now: real) returns (notices: seq<Notice>)
      modifies this
      ensures notices == SampleSink.Notices(old(View()), x.ts)
      ensures var e, drops := Emitted(old(View()), x, now), Drops(old(View()), x.ts);
              && View() == (if drops then e else Settled(e, bufferSize))
              && stored == old(stored) + if drops then [] else Handed(e, bufferSize)
    {
      hide Emitted, Drops, SampleSink.Notices;
      var dropIt;
      dropIt, notices := Count(x, now);
      assert stored + [] == stored;
      if !dropIt && (bufferSize == 0 || |buffer| >= bufferSize) {
        FlushBuffer();
      }
    }

    method EmitIfChanged(x: Sample, key: string, gauge: bool, now: real)
      modifies this
      ensures var s, c := old(View()), Call.EmitIfChanged(x, key, gauge, now);
              var quiet := Suppressed(s, c) || Drops(s, x.ts);
              && View() == (if quiet then After(s, c) else Settled(After(s, c), bufferSize))
              && stored == old(stored) + if quiet then [] else Handed(After(s, c), bufferSize)
    {
      hide Emitted, Touched, Put, Settled, Handed;
      ghost var s, c := View(), Call.EmitIfChanged(x, key, gauge, now);
      if !gauge && (x.value == 0.0 || x.value == 1.0) {
        var _ := Emit(x, now);
        return;
      }
      var prev := Lookup(dedup, key);
      if prev.Some? {
        if x.ts - prev.value.ts >= DEDUP_TTL {
          prev := None;
        } else {
          var stale := x.ts - prev.value.ts >= DEDUP_STALE_SECONDS;
          if prev.value.value == x.value && !stale {
            assert stored + [] == stored;
            Touch(x);
            return;
          }
        }
      }
      assert !Suppressed(s, c);
      SetDedup(key, x);
      var _ := Emit(x, now);
    }

    method EmitWithSensitivity(x: Sample, key: string, absThreshold: real, maxThreshold: real, now: real)
      modifies this
      ensures var s, c := old(View()), Call.EmitWithSensitivity(x, key, absThreshold, maxThreshold, now);
              var quiet := Suppressed(s, c) || Drops(s, x.ts);
              && View() == (if quiet then After(s, c) else Settled(After(s, c), bufferSize))
              && stored == old(stored) + if quiet then [] else Handed(After(s, c), bufferSize)
    {
      hide Emitted, Touched, Put, Settled, Handed;
      ghost var s, c := View(), Call.EmitWithSensitivity(x, key, absThreshold, maxThreshold, now);
      var prev := Lookup(dedup, key);
      if prev.Some? && x.ts - prev.value.ts >= DEDUP_TTL {
        prev := None;
      }
      if prev.Some? {
        var elapsed := x.ts - prev.value.ts;
        var diff := Abs(x.value - prev.value.value);
        var zeroCross := (prev.value.value == 0.0) != (x.value == 0.0);
        var absHit := diff >= absThreshold && absThreshold > 0.0;
        var decay := Max0(1.0 - elapsed / DEDUP_STALE_SECONDS);
        var sensitivityHit := diff > maxThreshold * decay;
        var stale := elapsed >= DEDUP_STALE_SECONDS;
        if !(zeroCross || absHit || sensitivityHit || stale) {
          assert Suppressed(s, c);
          assert stored + [] == stored;
          Touch(x);
          return;
        }
      }
      assert !Suppressed(s, c);
      SetDedup(key, x);
      var _ := Emit(x, now);
    }

    method EmitBatch(samples: seq<Sample>)
      modifies this
      ensures var b := Batched(old(View()), samples);
              View() == Settled(b, bufferSize) && stored == old(stored) + Handed(b, bufferSize)
    {
      hide Touched;
      for i := 0 to |samples|
        invariant View() == Batched(old(View()), samples[..i]) && stored == old(stored)
      {
        assert samples[..i + 1] == samples[..i] + [samples[i]] && samples[..i + 1][..i] == samples[..i];
        Touch(samples[i]);
        buffer, emitted := buffer + [samples[i]], emitted + 1;
      }
      assert samples[..|samples|] == samples;
      assert stored + [] == stored;
      if bufferSize == 0 || |buffer| >= bufferSize {
        FlushBuffer();
      }
    }
  }

  method FindKey<V>(c: Lru<V>, k: string) returns (i: nat)
    ensures i == Position(c, k)
  {
    i := 0;
    while i < |c| && c[i].0 != k
      invariant i <= |c| && forall j :: 0 <= j < i ==> c[j].0 != k
    {
      i := i + 1;
    }
  }
}
