/**
 Writing the calls read from a tool's own session files: what happens to each table.

 A row is its identifying columns and the rest of its columns by name. An `ON CONFLICT` clause is a
 policy for each column.
 */
module CallFacts {
  import opened Options

  datatype Value = Null | Int(i: int) | Real(r: real) | Text(s: string)

  /** `source` is `source_event_kind` in the table of file edits. */
  datatype Row = Row(key: string, session: string, ts: real, source: string, eventId: string, cells: map<string, Value>)

  type Table = seq<Row>

  const TRANSCRIPT := "transcript"
  const HOOK := "hook"
  const SUPERSEDED_REQUESTS := {"otel", "claude-code-jsonl"}
  const SUPERSEDED_TOOLS := {"otel", "hook"}

  // ----- Columns -----

  datatype Policy =
    | Keep                       // the stored value stays
    | Replace                    // the new value is taken
    | Unless(known: set<Value>)  // the new value is taken unless it is one of these
    | IfPositive                 // the new value is taken when it is above zero
    | Largest                    // the larger of two numbers
    | Earliest                   // the earlier of two times above zero

  type Policies = string -> Policy

  function MinReal(a: real, b: real): real { if a < b then a else b }

  predicate Positive(v: Value) { (v.Int? && v.i > 0) || (v.Real? && v.r > 0.0) }

  function Combine(p: Policy, have: Value, got: Value): Value {
    match p
    case Keep => have
    case Replace => got
    case Unless(known) => if got in known then have else got
    case IfPositive => if Positive(got) then got else have
    case Largest =>
      if have == got then have
      else if have.Int? && got.Int? then (if have.i >= got.i then have else got)
      else Null
    case Earliest =>
      if have.Real? && have.r > 0.0 && (!got.Real? || got.r <= 0.0 || have.r < got.r) then have else got
  }

  const EMPTY := {Null, Text("")}

  function RequestPolicy(column: string): Policy {
    if column in {"input_tokens", "output_tokens", "cache_read_tokens", "cache_creation_tokens", "cost_usd", "tool"} then Replace
    else if column in {"tool_tokens", "max_prompt_tokens", "request_bytes", "available_tools"} then Unless({Null})
    else if column == "model" then Unless(EMPTY + {Text("unknown")})
    else if column in {"agent_id", "project_path", "finish_reason"} then Unless(EMPTY)
    else if column in {"duration_ms", "ttft_ms"} then IfPositive
    else Keep
  }

  function ToolPolicy(column: string): Policy {
    if column == "tool" then Replace
    else if column == "is_error" then Largest
    else if column in {"duration_ms", "confirm_wait_ms"} then IfPositive
    else if column == "input" then Unless({Null, Text("{}")})
    else if column in {"result_summary", "agent_id", "project_path", "confirm", "target"} then Unless(EMPTY)
    else if column == "exit_code" then Unless({Null})
    else Keep
  }

  function AgentPolicy(column: string): Policy {
    if column in {"session_id", "tool", "is_sidechain"} then Replace
    else if column in {"task", "model"} then Unless(EMPTY)
    else if column == "started_at" then Earliest
    else if column == "ended_at" then Unless({Null})
    else if column == "completed" then Largest
    else Keep
  }

  function EditPolicy(column: string): Policy { if column in {"detail", "tool"} then Replace else Keep }

  /** `INSERT OR IGNORE` */
  function FirstPolicy(column: string): Policy { Keep }

  function Cell(r: Row, column: string): Value { if column in r.cells then r.cells[column] else Null }

  function Merge(x: Row, r: Row, p: Policies): Row {
    x.(cells := map c | c in x.cells :: Combine(p(c), x.cells[c], Cell(r, c)))
  }

  // ----- Upserts -----

  /** The row with this key, or the number of rows. */
  function Find(t: Table, key: string): (i: nat)
    ensures i <= |t| && (i < |t| ==> t[i].key == key) && (forall j :: 0 <= j < i ==> t[j].key != key)
  {
    if t == [] || t[0].key == key then 0
    else
      var i := 1 + Find(t[1..], key);
      assert forall j :: 0 < j < |t| ==> t[j] == t[1..][j - 1];
      i
  }

  predicate HasKey(t: Table, key: string) { Find(t, key) < |t| }

  function AsTranscript(r: Row): Row { r.(source := TRANSCRIPT) }

  function Upsert(t: Table, r: Row, p: Policies): Table {
    var i := Find(t, r.key);
    if i < |t| then t[i := Merge(t[i], r, p)] else t + [AsTranscript(r)]
  }

  function UpsertAll(t: Table, batch: seq<Row>, p: Policies): Table {
    if batch == [] then t else Upsert(UpsertAll(t, batch[..|batch| - 1], p), batch[|batch| - 1], p)
  }

  // ----- Rows from elsewhere -----

  /** The newest call of a session among the rows read: None when there is none. Times before 0.0 count as 0.0. */
  function Newest(batch: seq<Row>, session: string): Option<real> {
    if batch == [] then None
    else
      var last := batch[|batch| - 1];
      var before := Newest(batch[..|batch| - 1], session);
      if last.session != session then before
      else
        var base := if before.Some? then before.value else 0.0;
        Some(if last.ts > base then last.ts else base)
  }

  predicate Superseded(x: Row, batch: seq<Row>, sources: set<string>) {
    var newest := Newest(batch, x.session);
    x.source in sources && newest.Some? && x.ts <= newest.value
  }

  /** `_drop_superseded_rows` on one table */
  function Drop(t: Table, batch: seq<Row>, sources: set<string>): Table {
    if t == [] then []
    else Drop(t[..|t| - 1], batch, sources) + if Superseded(t[|t| - 1], batch, sources) then [] else [t[|t| - 1]]
  }

  // ----- Promoting hook rows -----

  /** One hook row takes the key unless another row has it: `UPDATE OR IGNORE`. */
  predicate KeyIsFree(t: Table, i: nat, key: string) { forall j :: 0 <= j < |t| && j != i ==> t[j].key != key }

  predicate IsHookFor(x: Row, session: string, event: string) {
    x.session == session && x.source == HOOK && x.eventId == event
  }

  /** The rows from `i` on. */
  function PromoteFrom(t: Table, i: nat, session: string, event: string, key: string): (r: Table)
    requires i <= |t|
    ensures |r| == |t|
    decreases |t| - i
  {
    if i == |t| then t
    else
      var t1 := if IsHookFor(t[i], session, event) && KeyIsFree(t, i, key) then t[i := t[i].(key := key, source := TRANSCRIPT)] else t;
      PromoteFrom(t1, i + 1, session, event, key)
  }

  /** The keys the batch gives to the events of one session: a later row wins. */
  function KeysFor(batch: seq<Row>, session: string): (keys: map<string, string>)
    ensures "" !in keys
  {
    if batch == [] then map[]
    else
      var last := batch[|batch| - 1];
      var before := KeysFor(batch[..|batch| - 1], session);
      if last.eventId != "" && last.session == session then before[last.eventId := last.key] else before
  }

  /** The sessions of the batch that name events, in the order they first do. */
  function SessionsWithEvents(batch: seq<Row>): seq<string> {
    if batch == [] then []
    else
      var last := batch[|batch| - 1];
      var before := SessionsWithEvents(batch[..|batch| - 1]);
      if last.eventId != "" && last.session !in before then before + [last.session] else before
  }

  /** The events of the hook rows of a session. */
  function HookEvents(t: Table, session: string): seq<string> {
    if t == [] then []
    else
      var last := t[|t| - 1];
      HookEvents(t[..|t| - 1], session)
      + if last.session == session && last.source == HOOK && last.eventId != "" then [last.eventId] else []
  }

  function PromoteEvents(t: Table, session: string, keys: map<string, string>, events: seq<string>): Table
    decreases |events|
  {
    if events == [] then t
    else if events[0] in keys then
      PromoteEvents(PromoteFrom(t, 0, session, events[0], keys[events[0]]), session, keys, events[1..])
    else PromoteEvents(t, session, keys, events[1..])
  }

  function PromoteSessions(t: Table, batch: seq<Row>, sessions: seq<string>): Table
    decreases |sessions|
  {
    if sessions == [] then t
    else
      var s := sessions[0];
      PromoteSessions(PromoteEvents(t, s, KeysFor(batch, s), HookEvents(t, s)), batch, sessions[1..])
  }

  /** `_promote_hook_tool_rows` */
  function Promote(t: Table, batch: seq<Row>): Table { PromoteSessions(t, batch, SessionsWithEvents(batch)) }

  // ----- File edits -----

  predicate Deletes(r: Row, x: Row) {
    r.eventId != "" && x.session == r.session && x.eventId == r.eventId && x.source != TRANSCRIPT
  }

  function WithoutOthers(t: Table, r: Row): Table {
    if t == [] then [] else WithoutOthers(t[..|t| - 1], r) + if Deletes(r, t[|t| - 1]) then [] else [t[|t| - 1]]
  }

  function WriteEdit(t: Table, r: Row): Table { Upsert(WithoutOthers(t, r), r, EditPolicy) }

  /** `_write_transcript_file_edits` */
  function WriteEdits(t: Table, batch: seq<Row>): Table
    decreases |batch|
  {
    if batch == [] then t else WriteEdits(WriteEdit(t, batch[0]), batch[1..])
  }

  // ----- All tables -----

  datatype Tables = Tables(requests: Table, tools: Table, prompts: Table, skills: Table, contexts: Table,
                           agents: Table, edits: Table)

  function WriteRequests(t: Table, batch: seq<Row>): Table {
    Drop(UpsertAll(t, batch, RequestPolicy), batch, SUPERSEDED_REQUESTS)
  }

  function WriteTools(t: Table, batch: seq<Row>): Table {
    Drop(UpsertAll(Promote(t, batch), batch, ToolPolicy), batch, SUPERSEDED_TOOLS)
  }

  /** `write_call_facts`: `facts` are the rows read, for each table. */
  function Write(t: Tables, facts: Tables): Tables {
    Tables(
      WriteRequests(t.requests, facts.requests),
      WriteTools(t.tools, facts.tools),
      UpsertAll(t.prompts, facts.prompts, FirstPolicy),
      UpsertAll(t.skills, facts.skills, FirstPolicy),
      UpsertAll(t.contexts, facts.contexts, FirstPolicy),
      UpsertAll(t.agents, facts.agents, AgentPolicy),
      WriteEdits(t.edits, facts.edits))
  }

  // ----- What a database holds -----

  /** The unique index: no two rows share a key, unless it is empty. */
  predicate Unique(t: Table) { forall i, j :: 0 <= i < j < |t| && t[i].key == t[j].key ==> t[i].key == "" }

  /** Rows read from session files name their calls. */
  predicate Keyed(batch: seq<Row>) { forall i :: 0 <= i < |batch| ==> batch[i].key != "" }
}
