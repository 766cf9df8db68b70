/** One row of the sessions table, enriched layer by layer as ingesters and hooks report. */
module Sessions {
  import opened Options

  const TEXTS := {"tool", "project_path", "model", "git_branch", "git_commit", "source"}
  const COUNTERS := {
    "input_tokens", "output_tokens", "cache_read_tokens", "cache_creation_tokens", "cost_usd",
    "request_count", "tool_call_count", "files_modified"}

  /** What `update_session_stats` and `update_session_end` take. */
  const UPDATE_TEXTS := {"tool", "project_path", "model", "source"}
  const STATS_COUNTERS := {"input_tokens", "output_tokens", "cache_read_tokens", "cache_creation_tokens", "cost_usd"}

  datatype Row = Row(startedAt: real, endedAt: Option<real>, pid: int, texts: map<string, string>, counters: map<string, real>)

  function TextIn(m: map<string, string>, k: string): string { if k in m then m[k] else "" }
  function CountIn(m: map<string, real>, k: string): real { if k in m then m[k] else 0.0 }

  function Min(a: real, b: real): real { if a <= b then a else b }
  function Max(a: real, b: real): real { if a >= b then a else b }

  function EarlierStart(have: real, got: real): real { if have == 0.0 then got else if got == 0.0 then have else Min(have, got) }

  function LaterEnd(have: Option<real>, got: Option<real>): Option<real> {
    if got.None? then have else if have.None? then got else Some(Max(have.value, got.value))
  }

  /** `upsert_session` on a row that is there: a field is refreshed only by a real value. */
  function Enriched(s: Row, r: Row): Row {
    Row(EarlierStart(s.startedAt, r.startedAt), LaterEnd(s.endedAt, r.endedAt), if r.pid != 0 then r.pid else s.pid,
        map k | k in TEXTS :: if TextIn(r.texts, k) != "" then TextIn(r.texts, k) else TextIn(s.texts, k),
        map k | k in COUNTERS :: if CountIn(r.counters, k) != 0.0 then CountIn(r.counters, k) else CountIn(s.counters, k))
  }

  /** An update: given texts are taken, and a running total does not fall. */
  function Raised(s: Row, texts: map<string, string>, counters: map<string, real>, endedAt: Option<real>, taken: set<string>): Row {
    s.(endedAt := endedAt,
       texts := map k | k in TEXTS :: if k in UPDATE_TEXTS && TextIn(texts, k) != "" then TextIn(texts, k) else TextIn(s.texts, k),
       counters := map k | k in COUNTERS ::
         if k in taken && CountIn(counters, k) != 0.0 then Max(CountIn(s.counters, k), CountIn(counters, k)) else CountIn(s.counters, k))
  }

  function Created(startedAt: real, endedAt: Option<real>, texts: map<string, string>, counters: map<string, real>, taken: set<string>): Row {
    Row(startedAt, endedAt, 0,
        map k | k in TEXTS :: if k in UPDATE_TEXTS then TextIn(texts, k) else "",
        map k | k in COUNTERS :: if k in taken then CountIn(counters, k) else 0.0)
  }

  datatype Op =
    | Upsert(row: Row)
    | Stats(texts: map<string, string>, counters: map<string, real>, ts: real)
    | End(texts: map<string, string>, counters: map<string, real>, at: real)

  function Next(s: Option<Row>, op: Op): Row {
    match op
    case Upsert(row) => if s.Some? then Enriched(s.value, row) else row
    case Stats(texts, counters, ts) =>
      if s.Some? then Raised(s.value, texts, counters, None, STATS_COUNTERS) else Created(ts, None, texts, counters, STATS_COUNTERS)
    case End(texts, counters, at) =>
      if s.Some? then Raised(s.value, texts, counters, Some(at), COUNTERS) else Created(at, Some(at), texts, counters, COUNTERS)
  }

  function Run(ops: seq<Op>): Option<Row> {
    if ops == [] then None else Some(Next(Run(ops[..|ops| - 1]), ops[|ops| - 1]))
  }

  // ----- The start -----

  /** The start times reported: an update reports one only when it creates the row. */
  function Starts(ops: seq<Op>): seq<real> {
    if ops == [] then []
    else
      var before, op := ops[..|ops| - 1], ops[|ops| - 1];
      Starts(before) + match op
                       case Upsert(row) => [row.startedAt]
                       case Stats(_, _, ts) => if before == [] then [ts] else []
                       case End(_, _, at) => if before == [] then [at] else []
  }

  /** The earliest of the times that are known. */
  predicate IsEarliest(t: real, times: seq<real>) {
    && (t == 0.0 ==> forall x :: x in times ==> x == 0.0)
    && (t != 0.0 ==> t in times && forall x :: x in times && x != 0.0 ==> t <= x)
  }

  /** The row keeps the earliest start it was ever told, in whatever order it was told. */
  lemma {:induction false} StartIsEarliest(ops: seq<Op>)
    requires ops != []
    ensures Run(ops).Some? && IsEarliest(Run(ops).value.startedAt, Starts(ops))
  {
    var before, op := ops[..|ops| - 1], ops[|ops| - 1];
    if before == [] {
      assert Starts(before) == [] && Run(before) == None;
    } else {
      StartIsEarliest(before);
      assert forall x :: x in Starts(ops) <==> x in Starts(before) || (op.Upsert? && x == op.row.startedAt);
    }
  }

  // ----- The end -----

  function Ends(ops: seq<Op>): seq<real> {
    if ops == [] then []
    else
      var op := ops[|ops| - 1];
      Ends(ops[..|ops| - 1]) + if op.Upsert? && op.row.endedAt.Some? then [op.row.endedAt.value] else []
  }

  predicate IsLatest(t: Option<real>, times: seq<real>) {
    && (t.None? ==> times == [])
    && (t.Some? ==> t.value in times && forall x :: x in times ==> x <= t.value)
  }

  /** Rows alone: the latest end. */
  lemma {:induction false} EndIsLatest(ops: seq<Op>)
    requires ops != [] && forall i :: 0 <= i < |ops| ==> ops[i].Upsert?
    ensures Run(ops).Some? && IsLatest(Run(ops).value.endedAt, Ends(ops))
  {
    var before, op := ops[..|ops| - 1], ops[|ops| - 1];
    if before == [] {
      assert Ends(before) == [] && Run(before) == None;
    } else {
      EndIsLatest(before);
    }
  }

  // ----- The order of rows -----

  predicate RowsOnly(ops: seq<Op>) { forall i :: 0 <= i < |ops| ==> ops[i].Upsert? }

  ghost predicate StartsIn(x: real, ops: seq<Op>) { exists op :: op in ops && op.Upsert? && op.row.startedAt == x }
  ghost predicate EndsIn(x: real, ops: seq<Op>) { exists op :: op in ops && op.Upsert? && op.row.endedAt == Some(x) }

  lemma {:induction false} TimesOfRows(ops: seq<Op>)
    requires RowsOnly(ops)
    ensures forall x :: x in Starts(ops) <==> StartsIn(x, ops)
    ensures forall x :: x in Ends(ops) <==> EndsIn(x, ops)
  {
    if ops != [] {
      var before, op := ops[..|ops| - 1], ops[|ops| - 1];
      assert ops == before + [op];
      TimesOfRows(before);
      assert forall x :: StartsIn(x, ops) <==> StartsIn(x, before) || x == op.row.startedAt;
      assert forall x :: EndsIn(x, ops) <==> EndsIn(x, before) || Some(x) == op.row.endedAt;
    }
  }

  lemma EarliestIsOne(a: real, b: real, times: seq<real>, others: seq<real>)
    requires IsEarliest(a, times) && IsEarliest(b, others) && forall x :: x in times <==> x in others
    ensures a == b
  {
  }

  lemma LatestIsOne(a: Option<real>, b: Option<real>, times: seq<real>, others: seq<real>)
    requires IsLatest(a, times) && IsLatest(b, others) && forall x :: x in times <==> x in others
    ensures a == b
  {
    if a.Some? {
      var x: real := a.value;
      assert x in times;
      assert x in others;
    }
    if b.Some? {
      var x: real := b.value;
      assert x in others;
      assert x in times;
    }
  }

  /** The same rows in any order, however often each of them comes, leave the same start and the same end. */
  lemma OrderDoesNotMatter(a: seq<Op>, b: seq<Op>)
    requires a != [] && RowsOnly(a) && forall op :: op in a <==> op in b
    ensures Run(a).Some? && Run(b).Some?
    ensures Run(a).value.startedAt == Run(b).value.startedAt && Run(a).value.endedAt == Run(b).value.endedAt
  {
    hide Run, IsEarliest, IsLatest;
    assert a[0] in b;
    forall i | 0 <= i < |b|
      ensures b[i].Upsert?
    {
      assert b[i] in a;
    }
    TimesOfRows(a);
    TimesOfRows(b);
    StartIsEarliest(a);
    StartIsEarliest(b);
    EarliestIsOne(Run(a).value.startedAt, Run(b).value.startedAt, Starts(a), Starts(b));
    EndIsLatest(a);
    EndIsLatest(b);
    LatestIsOne(Run(a).value.endedAt, Run(b).value.endedAt, Ends(a), Ends(b));
  }

  // ----- Open and ended -----

  /** Activity reopens a session, and only an end closes it again, at the end's own time. */
  lemma ActivityReopens(ops: seq<Op>, op: Op)
    ensures op.Stats? ==> Run(ops + [op]).value.endedAt == None
    ensures op.End? ==> Run(ops + [op]).value.endedAt == Some(op.at)
  {
    assert (ops + [op])[..|ops|] == ops;
  }

  // ----- Texts and totals -----

  function GivenText(op: Op, k: string): string {
    match op
    case Upsert(row) => TextIn(row.texts, k)
    case Stats(texts, _, _) => if k in UPDATE_TEXTS then TextIn(texts, k) else ""
    case End(texts, _, _) => if k in UPDATE_TEXTS then TextIn(texts, k) else ""
  }

  function LastText(ops: seq<Op>, k: string): string {
    if ops == [] then ""
    else if GivenText(ops[|ops| - 1], k) != "" then GivenText(ops[|ops| - 1], k)
    else LastText(ops[..|ops| - 1], k)
  }

  /** A text is the last one that was not empty. */
  lemma {:induction false} TextIsLast(ops: seq<Op>, k: string)
    requires ops != [] && k in TEXTS
    ensures Run(ops).Some? && TextIn(Run(ops).value.texts, k) == LastText(ops, k)
  {
    var before, op := ops[..|ops| - 1], ops[|ops| - 1];
    if before == [] {
      assert Run(before) == None && LastText(before, k) == "";
    } else {
      TextIsLast(before, k);
    }
  }

  /**
   A total falls exactly when a row comes with a smaller one that is not zero: the updates of a turn
   and of an end never lower it.
   */
  lemma TotalsFallOnlyByRows(ops: seq<Op>, op: Op, k: string)
    requires ops != [] && k in COUNTERS
    ensures Run(ops).Some? && Run(ops + [op]).Some?
    ensures CountIn(Run(ops + [op]).value.counters, k) < CountIn(Run(ops).value.counters, k)
            <==> op.Upsert? && CountIn(op.row.counters, k) != 0.0 && CountIn(op.row.counters, k) < CountIn(Run(ops).value.counters, k)
  {
    assert (ops + [op])[..|ops|] == ops;
  }

  // ----- The table -----

  class Table {
    var sessions: map<string, Row>

    function At(id: string): Option<Row>
      reads this
    {
      if id in sessions then Some(sessions[id]) else None
    }

    method UpsertSession(id: string, row: Row)
      modifies this
      ensures sessions == old(sessions)[id := Next(old(At(id)), Upsert(row))]
    {
      hide Enriched;
      sessions := sessions[id := if id in sessions then Enriched(sessions[id], row) else row];
    }

    method UpdateSessionStats(id: string, texts: map<string, string>, counters: map<string, real>, ts: real)
      modifies this
      ensures sessions == if id == "" then old(sessions) else old(sessions)[id := Next(old(At(id)), Stats(texts, counters, ts))]
    {
      hide Raised, Created;
      if id == "" {
        return;
      }
      if id in sessions {
        sessions := sessions[id := Raised(sessions[id], texts, counters, None, STATS_COUNTERS)];
      } else {
        UpsertSession(id, Created(ts, None, texts, counters, STATS_COUNTERS));
      }
    }

    method UpdateSessionEnd(id: string, texts: map<string, string>, counters: map<string, real>, at: real)
      modifies this
      ensures sessions == if id == "" then old(sessions) else old(sessions)[id := Next(old(At(id)), End(texts, counters, at))]
    {
      hide Raised, Created;
      if id == "" {
        return;
      }
      if id in sessions {
        sessions := sessions[id := Raised(sessions[id], texts, counters, Some(at), COUNTERS)];
      } else {
        UpsertSession(id, Created(at, Some(at), texts, counters, COUNTERS));
      }
    }
  }
}
