/** The whole write, and runs of writes and flushes. */
module CallFactsRuns {
  import opened Options
  import opened CallFacts
  import opened CallFactsMerge
  import opened CallFactsTheorems
  import opened CallFactsEdits

  // ----- The whole write -----

  predicate AllUnique(t: Tables) {
    && Unique(t.requests) && Unique(t.tools) && Unique(t.prompts) && Unique(t.skills) && Unique(t.contexts)
    && Unique(t.agents) && Unique(t.edits)
  }

  predicate AllKeyed(f: Tables) {
    && Keyed(f.requests) && Keyed(f.tools) && Keyed(f.prompts) && Keyed(f.skills) && Keyed(f.contexts)
    && Keyed(f.agents) && Keyed(f.edits)
  }

  /** No call read shares its key with another writer's row that this very write removes. */
  predicate NoClash(t: Tables, f: Tables) {
    && !Clash(t.requests, f.requests, SUPERSEDED_REQUESTS)
    && !Clash(Promote(t.tools, f.tools), f.tools, SUPERSEDED_TOOLS)
    && !EditClash(t.edits, f.edits)
  }

  lemma UpsertsTwice(t: Table, batch: seq<Row>, p: Policies)
    requires Unique(t) && Keyed(batch)
    ensures Unique(UpsertAll(t, batch, p)) && UpsertAll(UpsertAll(t, batch, p), batch, p) == UpsertAll(t, batch, p)
  {
    hide HasAll, Settled, UpsertAll, HasKey;
    UpsertAllSettles(t, batch, p);
    SettledStays(UpsertAll(t, batch, p), batch, p);
  }

  /**
   Reading the same session files again adds and changes nothing, through promotion, merging, the
   replacement of file edits and the removal of superseded rows: exactly when no call is merged into
   a row that goes. The batch may name the same call any number of times.
   */
  lemma WriteTwice(t: Tables, f: Tables)
    requires AllUnique(t) && AllKeyed(f)
    ensures Write(Write(t, f), f) == Write(t, f) <==> NoClash(t, f)
  {
    hide UpsertAll, WriteRequests, WriteTools, WriteEdits, Promote, Clash, EditClash;
    RequestsTwice(t.requests, f.requests);
    ToolsTwice(t.tools, f.tools);
    UpsertsTwice(t.prompts, f.prompts, FirstPolicy);
    UpsertsTwice(t.skills, f.skills, FirstPolicy);
    UpsertsTwice(t.contexts, f.contexts, FirstPolicy);
    UpsertsTwice(t.agents, f.agents, AgentPolicy);
    EditsTwice(t.edits, f.edits);
  }

  lemma WriteUnique(t: Tables, f: Tables)
    requires AllUnique(t) && AllKeyed(f)
    ensures AllUnique(Write(t, f))
  {
    hide UpsertAll, Drop, Promote, WriteEdits, HasAll, Settled, HasKey, Superseded, Absorb;
    UpsertAllSettles(t.requests, f.requests, RequestPolicy);
    DropUnique(UpsertAll(t.requests, f.requests, RequestPolicy), f.requests, SUPERSEDED_REQUESTS);
    PromoteDone(t.tools, f.tools, "");
    UpsertAllSettles(Promote(t.tools, f.tools), f.tools, ToolPolicy);
    DropUnique(UpsertAll(Promote(t.tools, f.tools), f.tools, ToolPolicy), f.tools, SUPERSEDED_TOOLS);
    UpsertsTwice(t.prompts, f.prompts, FirstPolicy);
    UpsertsTwice(t.skills, f.skills, FirstPolicy);
    UpsertsTwice(t.contexts, f.contexts, FirstPolicy);
    UpsertsTwice(t.agents, f.agents, AgentPolicy);
    assert Settled(t.edits, [], EditPolicy) by { SettledByNothing(t.edits, EditPolicy); }
    EditsSettle(t.edits, [], f.edits);
  }

  /** The other writers' rows after a write: none is left that the calls read cover, and the rest is as it was. */
  lemma SupersededRowsGo(t: Table, batch: seq<Row>)
    requires Unique(t) && Keyed(batch)
    ensures var w := WriteRequests(t, batch);
            && (forall x :: x in w ==> !Superseded(x, batch, SUPERSEDED_REQUESTS))
            && (forall i :: 0 <= i < |t| && !Superseded(t[i], batch, SUPERSEDED_REQUESTS) && !InBatch(batch, t[i].key) ==> t[i] in w)
            && (forall x :: x in w && x.source != TRANSCRIPT && !InBatch(batch, x.key) ==> x in t)
  {
    hide Absorb, Superseded, InBatch, UpsertAll, Drop;
    WhatStays(t, batch, RequestPolicy, SUPERSEDED_REQUESTS);
    OthersAbsorbNothing(t, batch, RequestPolicy);
  }

  lemma OthersAbsorbNothing(t: Table, batch: seq<Row>, p: Policies)
    ensures forall i :: 0 <= i < |t| && !InBatch(batch, t[i].key) ==> Absorb(t[i], batch, p) == t[i]
    ensures forall i :: 0 <= i < |t| ==> Absorb(t[i], batch, p).key == t[i].key
  {
    hide Absorb;
    forall i | 0 <= i < |t|
      ensures !InBatch(batch, t[i].key) ==> Absorb(t[i], batch, p) == t[i]
      ensures Absorb(t[i], batch, p).key == t[i].key
    {
      AbsorbKeeps(t[i], batch, p);
      if !InBatch(batch, t[i].key) {
        NothingToAbsorb(t[i], batch, p);
      }
    }
  }

  /** The same for tool calls: a hook's row may have been promoted under the call's key. */
  lemma SupersededToolsGo(t: Table, batch: seq<Row>)
    requires Unique(t) && Keyed(batch)
    ensures var w, u := WriteTools(t, batch), Promote(t, batch);
            && Promoted(t, u)
            && (forall x :: x in w ==> !Superseded(x, batch, SUPERSEDED_TOOLS))
            && (forall i :: 0 <= i < |u| && !Superseded(u[i], batch, SUPERSEDED_TOOLS) && !InBatch(batch, u[i].key) ==> u[i] in w)
            && (forall x :: x in w && x.source != TRANSCRIPT && !InBatch(batch, x.key) ==> x in t)
  {
    hide Absorb, Superseded, InBatch, UpsertAll, Drop, Promote, SessionDone;
    PromoteDone(t, batch, "");
    var u := Promote(t, batch);
    WhatStays(u, batch, ToolPolicy, SUPERSEDED_TOOLS);
    OthersAbsorbNothing(u, batch, ToolPolicy);
    forall x | x in u && x.source != TRANSCRIPT
      ensures x in t
    {
      var i :| 0 <= i < |u| && u[i] == x;
      assert u[i] == t[i];
    }
  }

  // ----- Flushing requests -----

  const TEAM := "claude-code-jsonl"

  predicate HasTranscript(t: Table, session: string) {
    exists i :: 0 <= i < |t| && t[i].session == session && t[i].source == TRANSCRIPT
  }

  /** `INSERT OR IGNORE` of one row, unless its session is covered by the transcript. */
  function FlushRow(t: Table, covered: set<string>, r: Row): Table {
    if r.source == TEAM && r.session in covered then t
    else if r.key != "" && HasKey(t, r.key) then t
    else t + [r]
  }

  function FlushRows(t: Table, covered: set<string>, rows: seq<Row>): Table {
    if rows == [] then t else FlushRow(FlushRows(t, covered, rows[..|rows| - 1]), covered, rows[|rows| - 1])
  }

  /** The sessions among these rows of the team scan that the transcript covers. */
  function Covered(t: Table, rows: seq<Row>): set<string> {
    set r | r in rows && r.source == TEAM && r.session != "" && HasTranscript(t, r.session) :: r.session
  }

  /** The part of `flush` that writes requests. Each row comes with the key that the flush gives it. */
  function Flush(t: Table, rows: seq<Row>): Table { FlushRows(t, Covered(t, rows), rows) }

  datatype Op = WriteCalls(batch: seq<Row>) | FlushRequests(rows: seq<Row>)

  function Run(t: Table, ops: seq<Op>): Table {
    if ops == [] then t
    else
      var before := Run(t, ops[..|ops| - 1]);
      match ops[|ops| - 1]
      case WriteCalls(batch) => WriteRequests(before, batch)
      case FlushRequests(rows) => Flush(before, rows)
  }

  predicate ProperOp(op: Op) {
    match op
    case WriteCalls(batch) => Keyed(batch)
    case FlushRequests(rows) => Keyed(rows)
  }

  /** A row of the team scan for this session. */
  predicate IsTeamRow(x: Row, session: string) { x.session == session && x.source == TEAM }

  /** Every team row of the session in `u` is one of `t`, whatever was merged into it. */
  predicate NoNewTeamRow(t: Table, u: Table, session: string) {
    forall y :: y in u && IsTeamRow(y, session) ==> exists x :: x in t && IsTeamRow(x, session) && x.key == y.key && x.ts == y.ts
  }

  lemma TeamTrans(t: Table, u: Table, v: Table, session: string)
    requires NoNewTeamRow(t, u, session) && NoNewTeamRow(u, v, session)
    ensures NoNewTeamRow(t, v, session)
  {
  }

  lemma TranscriptRow(t: Table, x: Row)
    requires x in t && x.source == TRANSCRIPT
    ensures HasTranscript(t, x.session)
  {
    var i :| 0 <= i < |t| && t[i] == x;
  }

  lemma WriteKeepsTeam(t: Table, batch: seq<Row>, session: string)
    requires Unique(t) && Keyed(batch) && HasTranscript(t, session)
    ensures var w := WriteRequests(t, batch);
            Unique(w) && HasTranscript(w, session) && NoNewTeamRow(t, w, session)
  {
    hide Absorb, Superseded, InBatch, UpsertAll, Drop;
    var w := WriteRequests(t, batch);
    WhatStays(t, batch, RequestPolicy, SUPERSEDED_REQUESTS);
    var i :| 0 <= i < |t| && t[i].session == session && t[i].source == TRANSCRIPT;
    TranscriptStays(t[i], batch, SUPERSEDED_REQUESTS);
    AbsorbKeeps(t[i], batch, RequestPolicy);
    TranscriptRow(w, Absorb(t[i], batch, RequestPolicy));
    forall y | y in w && IsTeamRow(y, session)
      ensures exists x :: x in t && IsTeamRow(x, session) && x.key == y.key && x.ts == y.ts
    {
      var k :| 0 <= k < |t| && y == Absorb(t[k], batch, RequestPolicy);
      AbsorbKeeps(t[k], batch, RequestPolicy);
      assert t[k] in t;
    }
  }

  lemma {:induction false} FlushRowsKeep(t: Table, covered: set<string>, rows: seq<Row>, session: string)
    requires Unique(t) && Keyed(rows) && HasTranscript(t, session)
    requires forall i :: 0 <= i < |rows| && rows[i].source == TEAM && rows[i].session == session ==> session in covered
    ensures var u := FlushRows(t, covered, rows);
            Unique(u) && HasTranscript(u, session) && NoNewTeamRow(t, u, session)
  {
    hide HasKey;
    if rows != [] {
      var front, r := rows[..|rows| - 1], rows[|rows| - 1];
      FlushRowsKeep(t, covered, front, session);
      var u := FlushRows(t, covered, front);
      var v := FlushRow(u, covered, r);
      if v != u {
        AppendUnique(u, r);
        var i :| 0 <= i < |u| && u[i].session == session && u[i].source == TRANSCRIPT;
        assert v[i] == u[i];
      }
    }
  }

  lemma AppendUnique(t: Table, r: Row)
    requires Unique(t) && !HasKey(t, r.key)
    ensures Unique(t + [r])
  {
  }

  lemma FlushKeepsTeam(t: Table, rows: seq<Row>, session: string)
    requires Unique(t) && Keyed(rows) && session != "" && HasTranscript(t, session)
    ensures Unique(Flush(t, rows)) && HasTranscript(Flush(t, rows), session) && NoNewTeamRow(t, Flush(t, rows), session)
  {
    hide HasTranscript;
    forall i | 0 <= i < |rows| && rows[i].source == TEAM && rows[i].session == session
      ensures session in Covered(t, rows)
    {
      assert rows[i] in rows;
    }
    FlushRowsKeep(t, Covered(t, rows), rows, session);
  }

  /**
   Once a session has a row read from its transcript, it keeps one, and no run of writes and flushes
   brings a row of the team scan back for it.
   */
  lemma {:induction false} TranscriptsKeepTeamRowsOut(t: Table, ops: seq<Op>, session: string)
    requires Unique(t) && session != "" && HasTranscript(t, session) && forall i :: 0 <= i < |ops| ==> ProperOp(ops[i])
    ensures Unique(Run(t, ops)) && HasTranscript(Run(t, ops), session) && NoNewTeamRow(t, Run(t, ops), session)
  {
    hide HasTranscript, NoNewTeamRow, WriteRequests, Flush, Unique;
    if ops == [] {
      assert NoNewTeamRow(t, t, session) by { TeamRefl(t, session); }
    } else {
      var front, op := ops[..|ops| - 1], ops[|ops| - 1];
      assert ProperOp(op);
      TranscriptsKeepTeamRowsOut(t, front, session);
      var u := Run(t, front);
      match op {
        case WriteCalls(batch) => WriteKeepsTeam(u, batch, session);
        case FlushRequests(rows) => FlushKeepsTeam(u, rows, session);
      }
      TeamTrans(t, u, Run(t, ops), session);
    }
  }

  lemma TeamRefl(t: Table, session: string)
    ensures NoNewTeamRow(t, t, session)
  {
  }
}
