/** Writing the calls read from session files, as the statements of one transaction. */
module CallFactsMethods {
  import opened Options
  import opened CallFacts
  import opened CallFactsMerge
  import opened CallFactsTheorems
  import opened CallFactsRuns

  lemma Snoc<T>(s: seq<T>, i: nat)
    requires i < |s|
    ensures s[..i + 1] == s[..i] + [s[i]] && s[..i + 1][..i] == s[..i] && s[..i + 1] != []
  {
  }

  /** A lookup in the unique index. */
  method FindRow(t: Table, key: string) returns (k: nat)
    ensures k == Find(t, key)
  {
    k := 0;
    while k < |t| && t[k].key != key
      invariant k <= |t| && forall j :: 0 <= j < k ==> t[j].key != key
    {
      k := k + 1;
    }
    FindUnique(t, key, k);
  }

  /** `executemany` of one upsert statement. */
  method UpsertMany(t: Table, batch: seq<Row>, p: Policies) returns (u: Table)
    ensures u == UpsertAll(t, batch, p)
  {
    hide Merge, Find;
    u := t;
    for i := 0 to |batch|
      invariant u == UpsertAll(t, batch[..i], p)
    {
      Snoc(batch, i);
      var r := batch[i];
      var k := FindRow(u, r.key);
      u := if k < |u| then u[k := Merge(u[k], r, p)] else u + [AsTranscript(r)];
    }
    assert batch[..|batch|] == batch;
  }

  // ----- Promotion -----

  /** The update of the hook rows of one event. */
  method PromoteEvent(t: Table, session: string, event: string, key: string) returns (u: Table)
    ensures u == PromoteFrom(t, 0, session, event, key)
  {
    u := t;
    for i := 0 to |t|
      invariant |u| == |t| && PromoteFrom(u, i, session, event, key) == PromoteFrom(t, 0, session, event, key)
    {
      if u[i].session == session && u[i].source == HOOK && u[i].eventId == event {
        var free := KeyIsFree(u, i, key);
        if free {
          u := u[i := u[i].(key := key, source := TRANSCRIPT)];
        }
      }
    }
  }

  /** The sessions of the batch that name events, and what they map each event to. */
  method GroupEvents(batch: seq<Row>) returns (sessions: seq<string>, keys: map<string, map<string, string>>)
    ensures sessions == SessionsWithEvents(batch)
    ensures forall s :: s in sessions ==> s in keys && keys[s] == KeysFor(batch, s)
  {
    sessions, keys := [], map[];
    for i := 0 to |batch|
      invariant sessions == SessionsWithEvents(batch[..i])
      invariant forall s :: s in sessions <==> s in keys
      invariant forall s :: s in keys ==> keys[s] == KeysFor(batch[..i], s)
    {
      Snoc(batch, i);
      OtherSessions(batch[..i]);
      var r := batch[i];
      if r.eventId != "" {
        if r.session !in keys {
          sessions := sessions + [r.session];
          keys := keys[r.session := map[]];
        }
        keys := keys[r.session := keys[r.session][r.eventId := r.key]];
      }
    }
    assert batch[..|batch|] == batch;
  }

  lemma OtherSessions(batch: seq<Row>)
    ensures forall s :: s !in SessionsWithEvents(batch) ==> KeysFor(batch, s) == map[]
  {
    forall s | s !in SessionsWithEvents(batch)
      ensures KeysFor(batch, s) == map[]
    {
      OtherSessionsHaveNoKeys(batch, s);
    }
  }

  method SelectHookEvents(t: Table, session: string) returns (events: seq<string>)
    ensures events == HookEvents(t, session)
  {
    events := [];
    for i := 0 to |t|
      invariant events == HookEvents(t[..i], session)
    {
      Snoc(t, i);
      if t[i].session == session && t[i].source == HOOK && t[i].eventId != "" {
        events := events + [t[i].eventId];
      }
    }
    assert t[..|t|] == t;
  }

  /** `_promote_hook_tool_rows` */
  method PromoteHookRows(t: Table, batch: seq<Row>) returns (u: Table)
    ensures u == Promote(t, batch)
  {
    hide KeysFor, HookEvents, PromoteFrom;
    var sessions, keys := GroupEvents(batch);
    u := t;
    assert sessions[0..] == sessions;
    for i := 0 to |sessions|
      invariant PromoteSessions(u, batch, sessions[i..]) == Promote(t, batch)
    {
      var session := sessions[i];
      assert sessions[i..] == [session] + sessions[i + 1..];
      var events := SelectHookEvents(u, session);
      ghost var was := u;
      assert events[0..] == events;
      for j := 0 to |events|
        invariant PromoteEvents(u, session, keys[session], events[j..]) == PromoteEvents(was, session, keys[session], events)
      {
        assert events[j..] == [events[j]] + events[j + 1..];
        if events[j] in keys[session] {
          u := PromoteEvent(u, session, events[j], keys[session][events[j]]);
        }
      }
      assert events[|events|..] == [];
    }
    assert sessions[|sessions|..] == [];
  }

  // ----- File edits -----

  method DeleteOthers(t: Table, r: Row) returns (u: Table)
    ensures u == WithoutOthers(t, r)
  {
    u := [];
    for i := 0 to |t|
      invariant u == WithoutOthers(t[..i], r)
    {
      Snoc(t, i);
      if !(t[i].session == r.session && t[i].eventId == r.eventId && t[i].source != TRANSCRIPT && r.eventId != "") {
        u := u + [t[i]];
      }
    }
    assert t[..|t|] == t;
  }

  /** `_write_transcript_file_edits` */
  method WriteFileEdits(t: Table, batch: seq<Row>) returns (u: Table)
    ensures u == WriteEdits(t, batch)
  {
    hide WithoutOthers, Upsert;
    u := t;
    assert batch[0..] == batch;
    for i := 0 to |batch|
      invariant WriteEdits(u, batch[i..]) == WriteEdits(t, batch)
    {
      var r := batch[i];
      assert batch[i..] == [r] + batch[i + 1..];
      ghost var was := u;
      if r.eventId != "" {
        u := DeleteOthers(u, r);
      } else {
        NoEventNoDelete(u, r);
      }
      ghost var kept := u;
      u := UpsertMany(u, [r], EditPolicy);
      UpsertOne(kept, r, EditPolicy);
    }
    assert batch[|batch|..] == [];
  }

  lemma UpsertOne(t: Table, r: Row, p: Policies)
    ensures UpsertAll(t, [r], p) == Upsert(t, r, p)
  {
    hide Upsert;
    assert [r][..0] == [];
    assert UpsertAll(t, [], p) == t;
  }

  lemma {:induction false} NoEventNoDelete(t: Table, r: Row)
    requires r.eventId == ""
    ensures WithoutOthers(t, r) == t
  {
    if t != [] {
      NoEventNoDelete(t[..|t| - 1], r);
    }
  }

  // ----- Dropping -----

  method NewestCalls(batch: seq<Row>) returns (newest: map<string, real>)
    ensures forall s :: s in newest <==> Newest(batch, s).Some?
    ensures forall s :: s in newest ==> Newest(batch, s) == Some(newest[s])
  {
    newest := map[];
    for i := 0 to |batch|
      invariant forall s :: s in newest <==> Newest(batch[..i], s).Some?
      invariant forall s :: s in newest ==> Newest(batch[..i], s) == Some(newest[s])
    {
      Snoc(batch, i);
      var r := batch[i];
      var base := if r.session in newest then newest[r.session] else 0.0;
      newest := newest[r.session := if r.ts > base then r.ts else base];
    }
    assert batch[..|batch|] == batch;
  }

  predicate GoesFor(x: Row, batch: seq<Row>, sources: set<string>, sessions: set<string>) {
    x.session in sessions && Superseded(x, batch, sources)
  }

  function DropFor(t: Table, batch: seq<Row>, sources: set<string>, sessions: set<string>): Table {
    if t == [] then []
    else DropFor(t[..|t| - 1], batch, sources, sessions) + if GoesFor(t[|t| - 1], batch, sources, sessions) then [] else [t[|t| - 1]]
  }

  lemma DropForStep(t: Table, i: nat, batch: seq<Row>, sources: set<string>, sessions: set<string>)
    requires i < |t|
    ensures DropFor(t[..i + 1], batch, sources, sessions)
            == DropFor(t[..i], batch, sources, sessions) + if GoesFor(t[i], batch, sources, sessions) then [] else [t[i]]
  {
    hide GoesFor;
    Snoc(t, i);
  }

  lemma GoesForOne(x: Row, batch: seq<Row>, sources: set<string>, session: string, ts: real)
    requires Newest(batch, session) == Some(ts)
    ensures GoesFor(x, batch, sources, {session}) <==> x.session == session && x.ts <= ts && x.source in sources
  {
    hide Newest;
  }

  /** The delete for one session. */
  method DeleteSession(t: Table, batch: seq<Row>, sources: set<string>, session: string, ts: real) returns (u: Table)
    requires Newest(batch, session) == Some(ts)
    ensures u == DropFor(t, batch, sources, {session})
  {
    hide Newest, DropFor, GoesFor;
    u := [];
    assert DropFor(t[..0], batch, sources, {session}) == [] by { NothingToDrop(batch, sources, {session}); }
    for i := 0 to |t|
      invariant u == DropFor(t[..i], batch, sources, {session})
    {
      DropForStep(t, i, batch, sources, {session});
      GoesForOne(t[i], batch, sources, session, ts);
      if !(t[i].session == session && t[i].ts <= ts && t[i].source in sources) {
        u := u + [t[i]];
      }
    }
    assert t[..|t|] == t;
  }

  lemma NothingToDrop(batch: seq<Row>, sources: set<string>, sessions: set<string>)
    ensures DropFor([], batch, sources, sessions) == []
  {
  }

  lemma {:induction false} DropMore(t: Table, batch: seq<Row>, sources: set<string>, done: set<string>, session: string)
    ensures DropFor(DropFor(t, batch, sources, done), batch, sources, {session}) == DropFor(t, batch, sources, done + {session})
  {
    hide Superseded;
    if t != [] {
      var front, last := t[..|t| - 1], t[|t| - 1];
      DropMore(front, batch, sources, done, session);
      var d := DropFor(front, batch, sources, done);
      assert (d + [last])[..|d|] == d;
      assert d + [] == d;
    }
  }

  lemma {:induction false} DropForAll(t: Table, batch: seq<Row>, sources: set<string>, sessions: set<string>)
    requires forall s :: Newest(batch, s).Some? ==> s in sessions
    ensures DropFor(t, batch, sources, sessions) == Drop(t, batch, sources)
  {
    hide Newest;
    if t != [] {
      DropForAll(t[..|t| - 1], batch, sources, sessions);
    }
  }

  lemma {:induction false} DropForNone(t: Table, batch: seq<Row>, sources: set<string>)
    ensures DropFor(t, batch, sources, {}) == t
  {
    if t != [] {
      DropForNone(t[..|t| - 1], batch, sources);
    }
  }

  /** `_drop_superseded_rows` on one table */
  method DropSuperseded(t: Table, batch: seq<Row>, sources: set<string>) returns (u: Table)
    ensures u == Drop(t, batch, sources)
  {
    hide DropFor, Newest;
    var newest := NewestCalls(batch);
    u := t;
    var todo: set<string> := newest.Keys;
    ghost var done: set<string> := {};
    DropForNone(t, batch, sources);
    while todo != {}
      invariant todo + done == newest.Keys && u == DropFor(t, batch, sources, done)
      decreases |todo|
    {
      var session := Pick(todo);
      DropMore(t, batch, sources, done, session);
      u := DeleteSession(u, batch, sources, session, newest[session]);
      todo := todo - {session};
      done := done + {session};
    }
    DropForAll(t, batch, sources, done);
  }

  // ----- The transaction -----

  /** The number of the last statement of a write. */
  const COMMIT := 10

  class Database {
    var requests: Table
    var tools: Table
    var prompts: Table
    var skills: Table
    var contexts: Table
    var agents: Table
    var edits: Table

    function View(): Tables
      reads this
    {
      Tables(requests, tools, prompts, skills, contexts, agents, edits)
    }

    method Rollback(before: Tables)
      modifies this
      ensures View() == before
    {
      requests, tools, prompts, skills := before.requests, before.tools, before.prompts, before.skills;
      contexts, agents, edits := before.contexts, before.agents, before.edits;
    }

    /** The part of `flush` that writes requests. */
    method FlushRequestRows(rows: seq<Row>)
      modifies this`requests
      ensures requests == Flush(old(requests), rows)
    {
      hide HasKey;
      var covered := Covered(requests, rows);
      ghost var was := requests;
      for i := 0 to |rows|
        invariant requests == FlushRows(was, covered, rows[..i])
      {
        Snoc(rows, i);
        var r := rows[i];
        if r.source == TEAM && r.session in covered {
          continue;
        }
        if r.key == "" || !HasKey(requests, r.key) {
          requests := requests + [r];
        }
      }
      assert rows[..|rows|] == rows;
    }

    /**
     `write_call_facts`, where statement number `failing` raises, if there is one: the promotion, the six
     upserts, the edits, the deletes in two tables, the commit. Written: how many rows were read.
     */
    method WriteCallFacts(facts: Tables, failing: nat) returns (written: Option<nat>)
      modifies this
      ensures Size(facts) == 0 ==> written == Some(0) && View() == old(View())
      ensures Size(facts) > 0 && failing <= COMMIT ==> written == None && View() == old(View())
      ensures Size(facts) > 0 && failing > COMMIT ==> written == Some(Size(facts)) && View() == Write(old(View()), facts)
    {
      hide UpsertAll, Drop, Promote, WriteEdits;
      if Size(facts) == 0 {
        return Some(0);
      }
      var before := View();
      if failing == 0 {
        return None;
      }
      tools := PromoteHookRows(tools, facts.tools);
      if failing == 1 {
        Rollback(before);
        return None;
      }
      requests := UpsertMany(requests, facts.requests, RequestPolicy);
      if failing == 2 {
        Rollback(before);
        return None;
      }
      tools := UpsertMany(tools, facts.tools, ToolPolicy);
      if failing == 3 {
        Rollback(before);
        return None;
      }
      prompts := UpsertMany(prompts, facts.prompts, FirstPolicy);
      if failing == 4 {
        Rollback(before);
        return None;
      }
      skills := UpsertMany(skills, facts.skills, FirstPolicy);
      if failing == 5 {
        Rollback(before);
        return None;
      }
      contexts := UpsertMany(contexts, facts.contexts, FirstPolicy);
      if failing == 6 {
        Rollback(before);
        return None;
      }
      agents := UpsertMany(agents, facts.agents, AgentPolicy);
      if failing == 7 {
        Rollback(before);
        return None;
      }
      edits := WriteFileEdits(edits, facts.edits);
      if failing == 8 {
        Rollback(before);
        return None;
      }
      requests := DropSuperseded(requests, facts.requests, SUPERSEDED_REQUESTS);
      if failing == 9 {
        Rollback(before);
        return None;
      }
      tools := DropSuperseded(tools, facts.tools, SUPERSEDED_TOOLS);
      if failing == COMMIT {
        Rollback(before);
        return None;
      }
      written := Some(Size(facts));
    }
  }

  function Size(f: Tables): nat {
    |f.requests| + |f.tools| + |f.prompts| + |f.skills| + |f.contexts| + |f.agents| + |f.edits|
  }
}
