/**
 Suppression measured against what was stored. A reading is remembered before flood control sees it, so
 one that flood control drops stands in the way of the next ones although it never reached the buffer.
 */
module SampleSinkStored {
  import opened Options
  import opened SampleSink
  import opened SampleSinkTheorems

  /** The reading that reaches the buffer under this key, by a call that looks at the key. */
  function Stored(s: Sink, c: Call, key: string): Option<Reading> {
    if Accepted(s, c) != [] then Forwarded(s, c, key) else None
  }

  function LastStored(calls: seq<Call>, key: string): Option<Reading> {
    if calls == [] then None
    else
      var before := calls[..|calls| - 1];
      var r := Stored(Run(before), calls[|calls| - 1], key);
      if r.Some? then r else LastStored(before, key)
  }

  /** The last reading forwarded under the key was let through. */
  predicate LastGotThrough(calls: seq<Call>, key: string) {
    calls == []
    || (var before, c := calls[..|calls| - 1], calls[|calls| - 1];
        if Forwarded(Run(before), c, key).Some? then Accepted(Run(before), c) != [] else LastGotThrough(before, key))
  }

  lemma {:induction false} StoredIsForwarded(calls: seq<Call>, key: string)
    requires LastGotThrough(calls, key)
    ensures LastStored(calls, key) == LastForwarded(calls, key)
  {
    hide Run, Forwarded, Accepted;
    if calls != [] {
      var before, c := calls[..|calls| - 1], calls[|calls| - 1];
      if Forwarded(Run(before), c, key).None? {
        StoredIsForwarded(before, key);
      }
    }
  }

  /** Against the last reading stored, the bound holds when the last one forwarded was let through. */
  lemma StoredBound(calls: seq<Call>, c: Call)
    requires c.EmitWithSensitivity? && Suppressed(Run(calls), c) && LastGotThrough(calls, c.key)
    ensures LastStored(calls, c.key).Some?
    ensures var r := LastStored(calls, c.key).value;
            var elapsed, diff := c.x.ts - r.ts, Abs(c.x.value - r.value);
            && elapsed < DEDUP_STALE_SECONDS
            && diff <= c.maxThreshold * (1.0 - elapsed / DEDUP_STALE_SECONDS)
            && (c.absThreshold > 0.0 ==> diff < c.absThreshold)
            && (r.value == 0.0 <==> c.x.value == 0.0)
  {
    hide Run, LastForwarded, LastStored, LastGotThrough, Suppressed;
    StoredIsForwarded(calls, c.key);
    SuppressionIsBounded(calls, c);
  }

  /** An unchanged reading that is not stored was stored within 300 s, under the same condition. */
  lemma UnchangedWasStored(calls: seq<Call>, c: Call)
    requires c.EmitIfChanged? && Suppressed(Run(calls), c) && LastGotThrough(calls, c.key)
    ensures LastStored(calls, c.key).Some?
    ensures LastStored(calls, c.key).value.value == c.x.value
    ensures c.x.ts - LastStored(calls, c.key).value.ts < DEDUP_STALE_SECONDS
  {
    hide Run, LastForwarded, LastStored, LastGotThrough, Suppressed;
    StoredIsForwarded(calls, c.key);
    UnchangedIsUnchanged(calls, c);
  }

  // ----- When the last one forwarded was dropped -----

  lemma RememberedIsFound(s: Sink, key: string, x: Sample)
    requires Distinct(Keys(s.dedup))
    ensures Lookup(Remembered(s, key, x).dedup, key) == Some(Reading(x.value, x.ts))
  {
    hide Put, Lookup, Keys, Distinct;
    var d := Put(s.dedup, key, Reading(x.value, x.ts), DEDUP_MAXSIZE);
    PutEntries(s.dedup, key, Reading(x.value, x.ts), DEDUP_MAXSIZE);
    LookupIs(d, key);
  }

  /** The calls that look at the key, with a tolerance that is not negative. */
  predicate Looks(c: Call) {
    (c.EmitIfChanged? && (c.gauge || !EventLike(c.x.value))) || (c.EmitWithSensitivity? && c.maxThreshold >= 0.0)
  }

  /**
   Whenever flood control drops a reading that was handed on, nothing is stored, and yet the same call
   made again is suppressed: the bound against stored readings needs its condition.
   */
  lemma DroppedIsInTheWay(calls: seq<Call>, c: Call)
    requires Looks(c) && !Suppressed(Run(calls), c) && Drops(Run(calls), c.x.ts)
    ensures Accepted(Run(calls), c) == [] && !LastGotThrough(calls + [c], c.key)
    ensures LastStored(calls + [c], c.key) == LastStored(calls, c.key)
    ensures LastForwarded(calls + [c], c.key) == Some(Reading(c.x.value, c.x.ts))
    ensures Suppressed(Run(calls + [c]), c)
  {
    hide Put, Lookup, Keys, Distinct, Previous, Touched, LastStored;
    var s := Run(calls);
    assert (calls + [c])[..|calls|] == calls;
    assert Run(calls + [c]) == After(s, c);
    RunRemembers(calls);
    RememberedIsFound(s, c.key, c.x);
    assert After(s, c).dedup == Remembered(s, c.key, c.x).dedup;
    SameCallAgain(After(s, c), c);
    StoredSnoc(calls, c, c.key);
  }

  lemma SameCallAgain(s: Sink, c: Call)
    requires Looks(c) && Lookup(s.dedup, c.key) == Some(Reading(c.x.value, c.x.ts))
    ensures Suppressed(s, c)
  {
    hide Lookup;
    assert Previous(s, c.key, c.x.ts) == Some(Reading(c.x.value, c.x.ts));
  }

  lemma StoredSnoc(calls: seq<Call>, c: Call, key: string)
    requires Stored(Run(calls), c, key).None?
    ensures LastStored(calls + [c], key) == LastStored(calls, key)
  {
    assert (calls + [c])[..|calls|] == calls;
  }

  // ----- Such a run -----

  const TICK := Emit(Sample("cpu.total", 0.0, 2.0, ""), 0.0)

  /** So many emissions within one window. */
  function Ticks(n: nat): seq<Call> {
    if n == 0 then [] else Ticks(n - 1) + [TICK]
  }

  predicate Filled(s: Sink, n: nat) { s.floodCount == n && s.windowStart == 0.0 && s.dedup == [] }

  lemma {:induction false} AfterTicks(n: nat)
    requires n <= FLOOD_MAX
    ensures Filled(Run(Ticks(n)), n) && forall key :: LastStored(Ticks(n), key) == None
  {
    hide After, Accepted;
    if n > 0 {
      AfterTicks(n - 1);
      assert Ticks(n)[..|Ticks(n)| - 1] == Ticks(n - 1);
      OneTick(Run(Ticks(n - 1)), n - 1);
    }
  }

  lemma OneTick(s: Sink, n: nat)
    requires Filled(s, n) && n < FLOOD_MAX
    ensures Filled(After(s, TICK), n + 1)
  {
    hide Touched, Put;
    TouchedDedup(s.(floodCount := n + 1), TICK.x);
    TouchedClock(s.(floodCount := n + 1), TICK.x);
  }

  lemma TouchedClock(s: Sink, x: Sample)
    ensures Touched(s, x).floodCount == s.floodCount && Touched(s, x).windowStart == s.windowStart
  {
  }

  /** In a full window a first reading is dropped, and its repetition is suppressed: nothing is ever stored. */
  lemma FloodHidesReading()
    ensures var c := EmitWithSensitivity(Sample("proc.1.cpu", 0.5, 0.25, ""), "proc.1.cpu", 0.0, 0.1, 0.0);
            var calls := Ticks(FLOOD_MAX) + [c];
            && Accepted(Run(Ticks(FLOOD_MAX)), c) == []
            && Suppressed(Run(calls), c) && LastStored(calls, c.key) == None
  {
    hide Run, LastStored, LastForwarded, Ticks, LastGotThrough;
    var c := EmitWithSensitivity(Sample("proc.1.cpu", 0.5, 0.25, ""), "proc.1.cpu", 0.0, 0.1, 0.0);
    AfterTicks(FLOOD_MAX);
    var s := Run(Ticks(FLOOD_MAX));
    assert Position(s.dedup, c.key) == 0;
    DroppedIsInTheWay(Ticks(FLOOD_MAX), c);
  }
}
