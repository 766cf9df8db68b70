/** Evicting the oldest data until the store is under its budget. */
module Budget {
  import opened Options

  const COMPACT_CHUNK_ROWS := 5000
  const EVICT_KEEP := 604_800.0   // seven days, in seconds

  const TEXT_TABLES := [
    "vscode_chat_messages", "cursor_session_messages", "copilot_session_messages", "session_prompts",
    "tool_invocations", "file_history", "agents", "files", "file_blobs"]

  const EVICTION_ORDER := [
    "vscode_chat_messages", "cursor_session_messages", "copilot_session_messages", "metrics", "events",
    "process_snapshots", "system_snapshots", "tool_stats", "file_history",
    "context_events", "session_prompts", "skill_uses", "file_write_events", "tool_invocations", "requests"]

  const EVICT_ONLY_OLDER := {
    "context_events", "session_prompts", "skill_uses", "file_write_events", "tool_invocations", "requests"}

  /** `text` is whether a text column still holds something. */
  datatype Row = Row(id: nat, ts: real, text: bool)

  type Tables = map<string, seq<Row>>

  datatype State = State(tables: Tables, wal: nat, logs: nat, ticks: nat)

  /** The sizes are whatever they are; `clock(n)` is the time at the n-th reading. */
  datatype Env = Env(budget: nat, live: Tables -> nat, walLeft: nat -> nat, logsLeft: nat -> nat, clock: nat -> real)

  function Rows(t: Tables, table: string): seq<Row> { if table in t then t[table] else [] }

  function Target(env: Env): nat { env.budget * 9 / 10 }

  function Evictable(s: State, env: Env): nat { env.live(s.tables) + s.logs }

  function Used(s: State, env: Env): nat { Evictable(s, env) + s.wal }

  // ----- Choosing the oldest rows -----

  datatype Want = WithText | Before(ts: real) | Any

  predicate Wanted(w: Want, r: Row) {
    match w case WithText => r.text case Before(ts) => r.ts < ts case Any => true
  }

  /** The oldest row that is wanted, or the number of rows. */
  function OldestAt(rows: seq<Row>, w: Want): (i: nat)
    ensures i <= |rows|
    ensures i < |rows| ==> Wanted(w, rows[i]) && forall j :: 0 <= j < |rows| && Wanted(w, rows[j]) ==> rows[i].ts <= rows[j].ts
    ensures i == |rows| ==> forall j :: 0 <= j < |rows| ==> !Wanted(w, rows[j])
  {
    if rows == [] then 0
    else
      var n := |rows| - 1;
      var i := OldestAt(rows[..n], w);
      assert forall j :: 0 <= j < n ==> rows[..n][j] == rows[j];
      if i == n then (if Wanted(w, rows[n]) then n else n + 1)
      else if Wanted(w, rows[n]) && rows[n].ts < rows[i].ts then n
      else i
  }

  function WithoutAt(rows: seq<Row>, i: nat): seq<Row>
    requires i < |rows|
  {
    rows[..i] + rows[i + 1..]
  }

  /** The delete of one chunk. */
  function RemoveOldest(rows: seq<Row>, w: Want, n: nat): seq<Row> {
    var i := OldestAt(rows, w);
    if n == 0 || i == |rows| then rows else RemoveOldest(WithoutAt(rows, i), w, n - 1)
  }

  /** The update of one chunk. */
  function BlankOldest(rows: seq<Row>, n: nat): (r: seq<Row>)
    ensures |r| == |rows|
    decreases n
  {
    var i := OldestAt(rows, WithText);
    if n == 0 || i == |rows| then rows else BlankOldest(rows[i := rows[i].(text := false)], n - 1)
  }

  function Texts(rows: seq<Row>): nat {
    if rows == [] then 0 else Texts(rows[..|rows| - 1]) + if rows[|rows| - 1].text then 1 else 0
  }

  lemma {:induction false} TextsUpdate(rows: seq<Row>, i: nat)
    requires i < |rows| && rows[i].text
    ensures Texts(rows[i := rows[i].(text := false)]) == Texts(rows) - 1
  {
    var n := |rows| - 1;
    var r := rows[i := rows[i].(text := false)];
    if i == n {
      assert r[..n] == rows[..n];
    } else {
      assert r[..n] == rows[..n][i := rows[i].(text := false)];
      TextsUpdate(rows[..n], i);
    }
  }

  lemma {:induction false} BlankingHelps(rows: seq<Row>, n: nat)
    requires n > 0
    ensures BlankOldest(rows, n) == rows <==> OldestAt(rows, WithText) == |rows|
    ensures BlankOldest(rows, n) != rows ==> Texts(BlankOldest(rows, n)) < Texts(rows)
    decreases n
  {
    var i := OldestAt(rows, WithText);
    if i < |rows| {
      var r := rows[i := rows[i].(text := false)];
      TextsUpdate(rows, i);
      if n > 1 {
        BlankingHelps(r, n - 1);
      } else {
        assert BlankOldest(r, 0) == r;
      }
      assert Texts(BlankOldest(rows, n)) < Texts(rows);
    }
  }

  lemma {:induction false} RemovingHelps(rows: seq<Row>, w: Want, n: nat)
    requires n > 0
    ensures |RemoveOldest(rows, w, n)| <= |rows|
    ensures |RemoveOldest(rows, w, n)| == |rows| <==> OldestAt(rows, w) == |rows|
    ensures OldestAt(rows, w) == |rows| ==> RemoveOldest(rows, w, n) == rows
    decreases n
  {
    var i := OldestAt(rows, w);
    if i < |rows| && n > 1 {
      RemovingHelps(WithoutAt(rows, i), w, n - 1);
    }
  }

  // ----- The loops -----

  function EvictText(s: State, table: string, env: Env): State
    decreases Texts(Rows(s.tables, table))
  {
    var rows := Rows(s.tables, table);
    var blanked := BlankOldest(rows, COMPACT_CHUNK_ROWS);
    BlankingHelps(rows, COMPACT_CHUNK_ROWS);
    if Evictable(s, env) <= Target(env) || blanked == rows then s
    else EvictText(s.(tables := s.tables[table := blanked]), table, env)
  }

  function WantFrom(table: string, now: real): Want { if table in EVICT_ONLY_OLDER then Before(now - EVICT_KEEP) else Any }

  function EvictOldest(s: State, table: string, env: Env): State
    decreases |Rows(s.tables, table)|
  {
    var rows := Rows(s.tables, table);
    var want := WantFrom(table, env.clock(s.ticks));
    var left := RemoveOldest(rows, want, COMPACT_CHUNK_ROWS);
    RemovingHelps(rows, want, COMPACT_CHUNK_ROWS);
    if Evictable(s, env) <= Target(env) then s
    else if |left| == |rows| then s.(ticks := s.ticks + 1)
    else EvictOldest(s.(tables := s.tables[table := left], ticks := s.ticks + 1), table, env)
  }

  function EvictTexts(s: State, tables: seq<string>, env: Env): State
    decreases |tables|
  {
    if tables == [] || Evictable(s, env) <= Target(env) then s
    else EvictTexts(EvictText(s, tables[0], env), tables[1..], env)
  }

  function EvictRows(s: State, tables: seq<string>, env: Env): State
    decreases |tables|
  {
    if tables == [] || Evictable(s, env) <= Target(env) then s
    else EvictRows(EvictOldest(s, tables[0], env), tables[1..], env)
  }

  function Truncated(s: State, env: Env): State { s.(wal := env.walLeft(s.wal)) }

  /** `enforce_budget` */
  function Enforced(s: State, env: Env): State {
    if Used(s, env) <= env.budget then s
    else
      var s1 := Truncated(s, env);
      if Used(s1, env) <= env.budget then s1
      else
        var s2 := s1.(logs := env.logsLeft(s1.logs));
        Truncated(EvictRows(EvictTexts(s2, TEXT_TABLES, env), EVICTION_ORDER, env), env)
  }

  // ----- Oldest first -----

  function Plain(r: Row): Row { r.(text := false) }

  /** The rows, whatever text they hold. */
  function Bare(rows: seq<Row>): (b: seq<Row>)
    ensures |b| == |rows| && forall i :: 0 <= i < |rows| ==> b[i] == Plain(rows[i])
  {
    seq(|rows|, i requires 0 <= i < |rows| => Plain(rows[i]))
  }

  /** `after` is `before` with some rows gone, all of them at least as old as every row that stays, and wanted by the clock's end. */
  ghost predicate OldestGone(before: seq<Row>, after: seq<Row>, last: Want) {
    && multiset(Bare(after)) <= multiset(Bare(before))
    && forall d :: d in multiset(Bare(before)) - multiset(Bare(after)) ==>
         Wanted(last, d) && forall x :: x in Bare(after) ==> d.ts <= x.ts
  }

  lemma BareWithout(rows: seq<Row>, i: nat)
    requires i < |rows|
    ensures multiset(Bare(rows)) == multiset(Bare(WithoutAt(rows, i))) + multiset{Plain(rows[i])}
  {
    var b := Bare(rows);
    assert b == b[..i] + [b[i]] + b[i + 1..];
    assert Bare(WithoutAt(rows, i)) == b[..i] + b[i + 1..];
  }

  lemma OldestGoneTrans(a: seq<Row>, b: seq<Row>, c: seq<Row>, w: Want)
    requires OldestGone(a, b, w) && OldestGone(b, c, w)
    ensures OldestGone(a, c, w)
  {
    forall d | d in multiset(Bare(a)) - multiset(Bare(c))
      ensures Wanted(w, d) && forall x :: x in Bare(c) ==> d.ts <= x.ts
    {
      assert d in multiset(Bare(a)) - multiset(Bare(b)) || d in multiset(Bare(b)) - multiset(Bare(c));
      forall x | x in Bare(c)
        ensures d.ts <= x.ts
      {
        assert x in multiset(Bare(c));
        assert x in multiset(Bare(b));
        assert x in Bare(b);
      }
    }
  }

  lemma OldestGoneRefl(a: seq<Row>, w: Want)
    ensures OldestGone(a, a, w)
  {
  }

  /** What is wanted at one reading of the clock is wanted at every later one. */
  predicate Weaker(w: Want, later: Want) {
    match w
    case WithText => later.WithText?
    case Any => later.Any?
    case Before(t) => later.Before? && t <= later.ts
  }

  /** The oldest row that is wanted is the oldest row. */
  lemma OldestOfAll(rows: seq<Row>, w: Want)
    requires OldestAt(rows, w) < |rows| && !w.WithText?
    ensures forall j :: 0 <= j < |rows| ==> rows[OldestAt(rows, w)].ts <= rows[j].ts
  {
  }

  lemma BareMembers(rows: seq<Row>, i: nat, ts: real)
    requires i < |rows| && forall j :: 0 <= j < |rows| ==> ts <= rows[j].ts
    ensures forall x :: x in Bare(WithoutAt(rows, i)) ==> ts <= x.ts
  {
    var after := WithoutAt(rows, i);
    forall k | 0 <= k < |after|
      ensures ts <= after[k].ts
    {
      assert after[k] == rows[if k < i then k else k + 1];
    }
  }

  lemma OneGone(before: multiset<Row>, after: multiset<Row>, r: Row)
    requires before == after + multiset{r}
    ensures after <= before && forall d :: d in before - after ==> d == r
  {
  }

  lemma RemoveOneGone(rows: seq<Row>, w: Want, i: nat, later: Want)
    requires i < |rows| && i == OldestAt(rows, w) && !w.WithText? && Weaker(w, later)
    ensures OldestGone(rows, WithoutAt(rows, i), later)
  {
    hide OldestAt, WithoutAt, Bare;
    BareWithout(rows, i);
    OldestOfAll(rows, w);
    BareMembers(rows, i, rows[i].ts);
    OneGone(multiset(Bare(rows)), multiset(Bare(WithoutAt(rows, i))), Plain(rows[i]));
    assert Wanted(later, Plain(rows[i]));
  }

  lemma {:induction false} RemoveGone(rows: seq<Row>, w: Want, n: nat, later: Want)
    requires !w.WithText? && Weaker(w, later)
    ensures OldestGone(rows, RemoveOldest(rows, w, n), later)
    decreases n
  {
    hide OldestGone, WithoutAt;
    var i := OldestAt(rows, w);
    OldestGoneRefl(rows, later);
    if n > 0 && i < |rows| {
      RemoveOneGone(rows, w, i, later);
      RemoveGone(WithoutAt(rows, i), w, n - 1, later);
      OldestGoneTrans(rows, WithoutAt(rows, i), RemoveOldest(rows, w, n), later);
    }
  }

  lemma {:induction false} BlankKeepsRows(rows: seq<Row>, n: nat)
    ensures Bare(BlankOldest(rows, n)) == Bare(rows)
    decreases n
  {
    var i := OldestAt(rows, WithText);
    if n > 0 && i < |rows| {
      var r := rows[i := rows[i].(text := false)];
      assert Bare(r) == Bare(rows);
      BlankKeepsRows(r, n - 1);
    }
  }

  // ----- What the loops leave -----

  predicate NoneWanted(rows: seq<Row>, w: Want) { forall i :: 0 <= i < |rows| ==> !Wanted(w, rows[i]) }

  predicate NoText(t: Tables, tables: seq<string>) { forall k :: 0 <= k < |tables| ==> NoneWanted(Rows(t, tables[k]), WithText) }

  /** Every table but one is as it was. */
  ghost predicate OnlyTable(s: State, u: State, table: string) { forall other :: other != table ==> Rows(u.tables, other) == Rows(s.tables, other) }

  lemma {:induction false} EvictTextDone(s: State, table: string, env: Env)
    ensures var u := EvictText(s, table, env);
            && (Evictable(u, env) <= Target(env) || NoneWanted(Rows(u.tables, table), WithText))
            && OnlyTable(s, u, table) && u.ticks == s.ticks && u.wal == s.wal && u.logs == s.logs
            && Bare(Rows(u.tables, table)) == Bare(Rows(s.tables, table))
    decreases Texts(Rows(s.tables, table))
  {
    hide BlankOldest, Bare;
    var rows := Rows(s.tables, table);
    var blanked := BlankOldest(rows, COMPACT_CHUNK_ROWS);
    BlankingHelps(rows, COMPACT_CHUNK_ROWS);
    BlankKeepsRows(rows, COMPACT_CHUNK_ROWS);
    if !(Evictable(s, env) <= Target(env) || blanked == rows) {
      EvictTextDone(s.(tables := s.tables[table := blanked]), table, env);
    }
  }

  /** The tables hold the same rows, text aside. */
  ghost predicate SameRows(s: State, u: State) { forall table :: Bare(Rows(u.tables, table)) == Bare(Rows(s.tables, table)) }

  predicate DistinctNames(tables: seq<string>) { forall i, j :: 0 <= i < j < |tables| ==> tables[i] != tables[j] }

  ghost predicate SameOutside(s: State, u: State, tables: seq<string>) {
    forall other :: other !in tables ==> Rows(u.tables, other) == Rows(s.tables, other)
  }

  lemma {:induction false} EvictTextsDone(s: State, tables: seq<string>, env: Env)
    requires DistinctNames(tables)
    ensures var u := EvictTexts(s, tables, env);
            && (Evictable(u, env) <= Target(env) || NoText(u.tables, tables))
            && SameRows(s, u) && SameOutside(s, u, tables) && u.ticks == s.ticks
    decreases |tables|
  {
    hide EvictText, Evictable, Bare, NoneWanted;
    if !(tables == [] || Evictable(s, env) <= Target(env)) {
      var rest := tables[1..];
      assert tables == [tables[0]] + rest;
      EvictTextDone(s, tables[0], env);
      var s1 := EvictText(s, tables[0], env);
      EvictTextsDone(s1, rest, env);
      var u := EvictTexts(s1, rest, env);
      assert forall j :: 0 <= j < |rest| ==> tables[j + 1] == rest[j];
      assert tables[0] !in rest;
    }
  }

  /** The clock does not go back. */
  ghost predicate Ticks(env: Env) { forall i, j :: 0 <= i <= j ==> env.clock(i) <= env.clock(j) }

  lemma {:induction false} EvictOldestDone(s: State, table: string, env: Env, start: nat, end: nat)
    requires start <= s.ticks && EvictOldest(s, table, env).ticks <= end && Ticks(env)
    ensures var u := EvictOldest(s, table, env);
            && (Evictable(u, env) <= Target(env) || NoneWanted(Rows(u.tables, table), WantFrom(table, env.clock(start))))
            && OnlyTable(s, u, table) && s.ticks <= u.ticks
            && OldestGone(Rows(s.tables, table), Rows(u.tables, table), WantFrom(table, env.clock(end)))
    decreases |Rows(s.tables, table)|
  {
    hide RemoveOldest, Bare, OldestGone;
    var rows := Rows(s.tables, table);
    var want := WantFrom(table, env.clock(s.ticks));
    var left := RemoveOldest(rows, want, COMPACT_CHUNK_ROWS);
    RemovingHelps(rows, want, COMPACT_CHUNK_ROWS);
    var last := WantFrom(table, env.clock(end));
    OldestGoneRefl(rows, last);
    if !(Evictable(s, env) <= Target(env)) {
      if |left| < |rows| {
        var s1 := s.(tables := s.tables[table := left], ticks := s.ticks + 1);
        ReadsGrow(s1, table, env);
        RemoveGone(rows, want, COMPACT_CHUNK_ROWS, last);
        EvictOldestDone(s1, table, env, start, end);
        OldestGoneTrans(rows, left, Rows(EvictOldest(s, table, env).tables, table), last);
      } else {
        assert env.clock(start) <= env.clock(s.ticks);
      }
    }
  }

  lemma {:induction false} ReadsGrow(s: State, table: string, env: Env)
    ensures s.ticks <= EvictOldest(s, table, env).ticks
    decreases |Rows(s.tables, table)|
  {
    hide RemoveOldest;
    var rows := Rows(s.tables, table);
    var want := WantFrom(table, env.clock(s.ticks));
    var left := RemoveOldest(rows, want, COMPACT_CHUNK_ROWS);
    RemovingHelps(rows, want, COMPACT_CHUNK_ROWS);
    if !(Evictable(s, env) <= Target(env)) && |left| != |rows| {
      ReadsGrow(s.(tables := s.tables[table := left], ticks := s.ticks + 1), table, env);
    }
  }

  lemma {:induction false} AllReadsGrow(s: State, tables: seq<string>, env: Env)
    ensures s.ticks <= EvictRows(s, tables, env).ticks
    decreases |tables|
  {
    hide EvictOldest, Evictable;
    if !(tables == [] || Evictable(s, env) <= Target(env)) {
      ReadsGrow(s, tables[0], env);
      AllReadsGrow(EvictOldest(s, tables[0], env), tables[1..], env);
    }
  }

  /** Table `k` lost its oldest rows; it lost any only when no earlier table had one left to lose. */
  ghost predicate InOrder(s: State, u: State, tables: seq<string>, env: Env, start: nat, end: nat) {
    forall k :: 0 <= k < |tables| ==>
      && OldestGone(Rows(s.tables, tables[k]), Rows(u.tables, tables[k]), WantFrom(tables[k], env.clock(end)))
      && (Rows(u.tables, tables[k]) != Rows(s.tables, tables[k]) ==>
            forall j :: 0 <= j < k ==> NoneWanted(Rows(u.tables, tables[j]), WantFrom(tables[j], env.clock(start))))
  }

  lemma {:induction false} EvictRowsDone(s: State, tables: seq<string>, env: Env, start: nat, end: nat)
    requires DistinctNames(tables) && start <= s.ticks && EvictRows(s, tables, env).ticks <= end && Ticks(env)
    ensures var u := EvictRows(s, tables, env);
            && (Evictable(u, env) <= Target(env)
                || forall k :: 0 <= k < |tables| ==> NoneWanted(Rows(u.tables, tables[k]), WantFrom(tables[k], env.clock(start))))
            && SameOutside(s, u, tables)
            && InOrder(s, u, tables, env, start, end)
    decreases |tables|
  {
    hide EvictOldest, Evictable, Bare, NoneWanted, OldestGone, Ticks, WantFrom;
    forall k | 0 <= k < |tables|
      ensures OldestGone(Rows(s.tables, tables[k]), Rows(s.tables, tables[k]), WantFrom(tables[k], env.clock(end)))
    {
      OldestGoneRefl(Rows(s.tables, tables[k]), WantFrom(tables[k], env.clock(end)));
    }
    if !(tables == [] || Evictable(s, env) <= Target(env)) {
      var first, rest := tables[0], tables[1..];
      var s1 := EvictOldest(s, first, env);
      assert tables == [first] + rest;
      assert first !in rest;
      AllReadsGrow(s1, rest, env);
      ReadsGrow(s, first, env);
      EvictOldestDone(s, first, env, start, end);
      EvictRowsDone(s1, rest, env, start, end);
      var u := EvictRows(s1, rest, env);
      if Evictable(s1, env) <= Target(env) {
        assert u == s1 by { StopsAtOnce(s1, rest, env); }
      }
      forall k | 0 <= k < |tables|
        ensures OldestGone(Rows(s.tables, tables[k]), Rows(u.tables, tables[k]), WantFrom(tables[k], env.clock(end)))
        ensures Rows(u.tables, tables[k]) != Rows(s.tables, tables[k]) ==>
          forall j :: 0 <= j < k ==> NoneWanted(Rows(u.tables, tables[j]), WantFrom(tables[j], env.clock(start)))
      {
        if k > 0 {
          assert tables[k] == rest[k - 1];
          if Rows(u.tables, tables[k]) != Rows(s.tables, tables[k]) {
            forall j | 0 <= j < k
              ensures NoneWanted(Rows(u.tables, tables[j]), WantFrom(tables[j], env.clock(start)))
            {
              if j > 0 {
                assert tables[j] == rest[j - 1];
              }
            }
          }
        }
      }
      forall k | 0 <= k < |tables| && !(Evictable(u, env) <= Target(env))
        ensures NoneWanted(Rows(u.tables, tables[k]), WantFrom(tables[k], env.clock(start)))
      {
        if k > 0 {
          assert tables[k] == rest[k - 1];
        }
      }
    }
  }

  lemma StopsAtOnce(s: State, tables: seq<string>, env: Env)
    requires Evictable(s, env) <= Target(env)
    ensures EvictRows(s, tables, env) == s
  {
  }

  // ----- The theorem -----

  lemma OrderIsDistinct()
    ensures DistinctNames(TEXT_TABLES) && DistinctNames(EVICTION_ORDER)
  {
  }

  /** Rows are only ever evicted over the budget. */
  predicate Evicts(s: State, env: Env) { Used(s, env) > env.budget && Used(Truncated(s, env), env) > env.budget }

  lemma NothingEvicted(s: State, env: Env)
    requires !Evicts(s, env)
    ensures Enforced(s, env).tables == s.tables && Enforced(s, env).logs == s.logs
  {
  }

  /**
   When the store is over budget, eviction ends at or under the target, or has blanked every text and
   deleted every row that may go; a table loses rows only when every text is blanked and no table
   before it has a row left that may go; it loses its oldest rows first; and a usage record goes only
   when it is older than seven days. No other table loses a row.
   */
  lemma EvictionIsOrderly(s: State, env: Env)
    requires Evicts(s, env) && Ticks(env)
    ensures var u, start, end := Enforced(s, env), s.ticks, Enforced(s, env).ticks;
            && (Evictable(u, env) <= Target(env)
                || (NoText(u.tables, TEXT_TABLES)
                    && forall k :: 0 <= k < |EVICTION_ORDER| ==>
                         NoneWanted(Rows(u.tables, EVICTION_ORDER[k]), WantFrom(EVICTION_ORDER[k], env.clock(start)))))
            && (forall k :: 0 <= k < |EVICTION_ORDER| ==>
                  var table := EVICTION_ORDER[k];
                  && OldestGone(Rows(s.tables, table), Rows(u.tables, table), WantFrom(table, env.clock(end)))
                  && (|Rows(u.tables, table)| < |Rows(s.tables, table)| ==>
                        NoText(u.tables, TEXT_TABLES)
                        && forall j :: 0 <= j < k ==>
                             NoneWanted(Rows(u.tables, EVICTION_ORDER[j]), WantFrom(EVICTION_ORDER[j], env.clock(start)))))
            && (forall table :: table !in EVICTION_ORDER ==> Bare(Rows(u.tables, table)) == Bare(Rows(s.tables, table)))
  {
    hide EvictTexts, EvictRows, Bare, NoneWanted, OldestGone, Ticks, WantFrom, Evictable;
    OrderIsDistinct();
    var s1 := Truncated(s, env);
    var s2 := s1.(logs := env.logsLeft(s1.logs));
    var s3 := EvictTexts(s2, TEXT_TABLES, env);
    var s4 := EvictRows(s3, EVICTION_ORDER, env);
    var u := Enforced(s, env);
    assert u.tables == s4.tables && u.ticks == s4.ticks && u == Truncated(s4, env) by { EnforcedIs(s, env); }
    EvictTextsDone(s2, TEXT_TABLES, env);
    EvictRowsDone(s3, EVICTION_ORDER, env, s.ticks, u.ticks);
    assert Evictable(u, env) == Evictable(s4, env) by { WalDoesNotCount(s4, env); }
    if Evictable(s3, env) <= Target(env) {
      StopsAtOnce(s3, EVICTION_ORDER, env);
    } else {
      TextStaysBlank(s3, s4, env, s.ticks, u.ticks);
    }
    forall k | 0 <= k < |EVICTION_ORDER|
      ensures OldestGone(Rows(s.tables, EVICTION_ORDER[k]), Rows(u.tables, EVICTION_ORDER[k]), WantFrom(EVICTION_ORDER[k], env.clock(u.ticks)))
      ensures Bare(Rows(s3.tables, EVICTION_ORDER[k])) == Bare(Rows(s.tables, EVICTION_ORDER[k]))
    {
      SameBareGone(Rows(s.tables, EVICTION_ORDER[k]), Rows(s3.tables, EVICTION_ORDER[k]), Rows(u.tables, EVICTION_ORDER[k]),
                   WantFrom(EVICTION_ORDER[k], env.clock(u.ticks)));
    }
  }

  // ----- Texts, oldest first -----

  /** `after` is `before` with some texts blanked, none of them younger than a text that is left. */
  ghost predicate OldestBlanked(before: seq<Row>, after: seq<Row>) {
    && |after| == |before|
    && (forall i :: 0 <= i < |before| ==> after[i] == before[i] || after[i] == Plain(before[i]))
    && forall i, j :: 0 <= i < |before| && 0 <= j < |before| && before[i].text && !after[i].text && after[j].text ==>
         before[i].ts <= after[j].ts
  }

  lemma OldestBlankedTrans(a: seq<Row>, b: seq<Row>, c: seq<Row>)
    requires OldestBlanked(a, b) && OldestBlanked(b, c)
    ensures OldestBlanked(a, c)
  {
    forall i, j | 0 <= i < |a| && 0 <= j < |a| && a[i].text && !c[i].text && c[j].text
      ensures a[i].ts <= c[j].ts
    {
      assert b[j] == c[j];
      if b[i].text {
        assert b[i] == a[i];
      }
    }
  }

  lemma {:induction false} BlankOldestFirst(rows: seq<Row>, n: nat)
    ensures OldestBlanked(rows, BlankOldest(rows, n))
    decreases n
  {
    var i := OldestAt(rows, WithText);
    if n > 0 && i < |rows| {
      var r := rows[i := rows[i].(text := false)];
      assert OldestBlanked(rows, r);
      BlankOldestFirst(r, n - 1);
      OldestBlankedTrans(rows, r, BlankOldest(rows, n));
    }
  }

  lemma {:induction false} EvictTextOldest(s: State, table: string, env: Env)
    ensures OldestBlanked(Rows(s.tables, table), Rows(EvictText(s, table, env).tables, table))
    decreases Texts(Rows(s.tables, table))
  {
    hide BlankOldest, OldestBlanked;
    var rows := Rows(s.tables, table);
    var blanked := BlankOldest(rows, COMPACT_CHUNK_ROWS);
    BlankingHelps(rows, COMPACT_CHUNK_ROWS);
    BlankOldestFirst(rows, 0);
    BlankOldestFirst(rows, COMPACT_CHUNK_ROWS);
    assert BlankOldest(rows, 0) == rows by { BlankStep(rows, 0); }
    if !(Evictable(s, env) <= Target(env) || blanked == rows) {
      var s1 := s.(tables := s.tables[table := blanked]);
      EvictTextOldest(s1, table, env);
      OldestBlankedTrans(rows, blanked, Rows(EvictText(s1, table, env).tables, table));
    }
  }

  /** The tables' texts go in order: a table's text is not touched while one before it has text left. */
  ghost predicate TextsInOrder(s: State, u: State, tables: seq<string>) {
    && (forall k :: 0 <= k < |tables| ==> OldestBlanked(Rows(s.tables, tables[k]), Rows(u.tables, tables[k])))
    && forall j, k :: 0 <= j < k < |tables| && !NoneWanted(Rows(u.tables, tables[j]), WithText) ==>
         Rows(u.tables, tables[k]) == Rows(s.tables, tables[k])
  }

  lemma {:induction false} EvictTextsInOrder(s: State, tables: seq<string>, env: Env)
    requires DistinctNames(tables)
    ensures TextsInOrder(s, EvictTexts(s, tables, env), tables)
    decreases |tables|
  {
    hide EvictText, Evictable, NoneWanted, OldestBlanked;
    forall k | 0 <= k < |tables|
      ensures OldestBlanked(Rows(s.tables, tables[k]), Rows(s.tables, tables[k]))
    {
      Untouched(Rows(s.tables, tables[k]));
    }
    if !(tables == [] || Evictable(s, env) <= Target(env)) {
      var rest := tables[1..];
      assert tables == [tables[0]] + rest;
      var s1 := EvictText(s, tables[0], env);
      EvictTextDone(s, tables[0], env);
      EvictTextOldest(s, tables[0], env);
      EvictTextsInOrder(s1, rest, env);
      EvictTextsDone(s1, rest, env);
      var u := EvictTexts(s1, rest, env);
      assert forall j :: 0 <= j < |rest| ==> tables[j + 1] == rest[j];
      assert tables[0] !in rest;
      if !NoneWanted(Rows(u.tables, tables[0]), WithText) {
        StopsTexts(s1, rest, env);
      }
      forall j, k | 0 <= j < k < |tables| && !NoneWanted(Rows(u.tables, tables[j]), WithText)
        ensures Rows(u.tables, tables[k]) == Rows(s.tables, tables[k])
      {
        if j > 0 {
          assert tables[j] == rest[j - 1] && tables[k] == rest[k - 1];
        } else {
          assert tables[k] == rest[k - 1];
        }
      }
      forall k | 0 <= k < |tables|
        ensures OldestBlanked(Rows(s.tables, tables[k]), Rows(u.tables, tables[k]))
      {
        if k > 0 {
          assert tables[k] == rest[k - 1];
        }
      }
    }
  }

  lemma Untouched(rows: seq<Row>)
    ensures OldestBlanked(rows, rows)
  {
  }

  lemma StopsTexts(s: State, tables: seq<string>, env: Env)
    requires Evictable(s, env) <= Target(env)
    ensures EvictTexts(s, tables, env) == s
  {
  }

  /**
   Over the whole pass, each table loses its oldest texts first, and only when no table before it has text
   left. While any text is left, no row is gone.
   */
  lemma TextsGoOldestFirst(s: State, env: Env)
    requires Evicts(s, env)
    ensures var u := Enforced(s, env); TextsInOrder(s, u, TEXT_TABLES) || NoText(u.tables, TEXT_TABLES)
  {
    hide EvictTexts, EvictRows, NoneWanted, OldestBlanked, Evictable;
    OrderIsDistinct();
    var s1 := Truncated(s, env);
    var s2 := s1.(logs := env.logsLeft(s1.logs));
    var s3 := EvictTexts(s2, TEXT_TABLES, env);
    var s4 := EvictRows(s3, EVICTION_ORDER, env);
    EnforcedIs(s, env);
    EvictTextsInOrder(s2, TEXT_TABLES, env);
    EvictTextsDone(s2, TEXT_TABLES, env);
    if Evictable(s3, env) <= Target(env) {
      StopsAtOnce(s3, EVICTION_ORDER, env);
    } else {
      TextStaysBlank(s3, s4, env, s.ticks, s4.ticks);
    }
  }

  /** A pass that had nothing to evict, or has met its target with a log that fits beside it, has nothing to do the next time. */
  lemma SecondPassIsIdle(s: State, env: Env)
    requires var u := Enforced(s, env); Evicts(s, env) ==> Evictable(u, env) <= Target(env) && u.wal <= env.budget - Target(env)
    ensures Enforced(Enforced(s, env), env) == Enforced(s, env)
  {
    hide EvictTexts, EvictRows;
  }

  lemma EnforcedIs(s: State, env: Env)
    requires Evicts(s, env)
    ensures var s1 := Truncated(s, env);
            var s2 := s1.(logs := env.logsLeft(s1.logs));
            Enforced(s, env) == Truncated(EvictRows(EvictTexts(s2, TEXT_TABLES, env), EVICTION_ORDER, env), env)
  {
    hide EvictTexts, EvictRows;
  }

  lemma WalDoesNotCount(s: State, env: Env)
    ensures Evictable(Truncated(s, env), env) == Evictable(s, env)
  {
  }

  lemma SameBareGone(a: seq<Row>, b: seq<Row>, c: seq<Row>, w: Want)
    requires Bare(a) == Bare(b) && OldestGone(b, c, w)
    ensures OldestGone(a, c, w)
  {
    hide Bare;
  }

  lemma {:induction false} RemovalBlank(rows: seq<Row>, w: Want, n: nat)
    requires NoneWanted(rows, WithText)
    ensures NoneWanted(RemoveOldest(rows, w, n), WithText)
    decreases n
  {
    var i := OldestAt(rows, w);
    if n > 0 && i < |rows| {
      RemovalBlank(WithoutAt(rows, i), w, n - 1);
    }
  }

  lemma {:induction false} OldestBlank(s: State, table: string, env: Env, of: string)
    requires NoneWanted(Rows(s.tables, of), WithText)
    ensures NoneWanted(Rows(EvictOldest(s, table, env).tables, of), WithText)
    decreases |Rows(s.tables, table)|
  {
    hide RemoveOldest, NoneWanted;
    var rows := Rows(s.tables, table);
    var want := WantFrom(table, env.clock(s.ticks));
    var left := RemoveOldest(rows, want, COMPACT_CHUNK_ROWS);
    RemovingHelps(rows, want, COMPACT_CHUNK_ROWS);
    if !(Evictable(s, env) <= Target(env)) && |left| != |rows| {
      if of == table {
        RemovalBlank(rows, want, COMPACT_CHUNK_ROWS);
      }
      OldestBlank(s.(tables := s.tables[table := left], ticks := s.ticks + 1), table, env, of);
    }
  }

  lemma {:induction false} RowsBlank(s: State, tables: seq<string>, env: Env, of: string)
    requires NoneWanted(Rows(s.tables, of), WithText)
    ensures NoneWanted(Rows(EvictRows(s, tables, env).tables, of), WithText)
    decreases |tables|
  {
    hide EvictOldest, Evictable, NoneWanted;
    if !(tables == [] || Evictable(s, env) <= Target(env)) {
      OldestBlank(s, tables[0], env, of);
      RowsBlank(EvictOldest(s, tables[0], env), tables[1..], env, of);
    }
  }

  lemma TextStaysBlank(s: State, u: State, env: Env, start: nat, end: nat)
    requires u == EvictRows(s, EVICTION_ORDER, env) && NoText(s.tables, TEXT_TABLES)
    ensures NoText(u.tables, TEXT_TABLES)
  {
    hide EvictRows, NoneWanted;
    forall k | 0 <= k < |TEXT_TABLES|
      ensures NoneWanted(Rows(u.tables, TEXT_TABLES[k]), WithText)
    {
      RowsBlank(s, EVICTION_ORDER, env, TEXT_TABLES[k]);
    }
  }

  // ----- The loops on fields -----

  /** Where the oldest row that is wanted stands. */
  method FindOldest(rows: seq<Row>, w: Want) returns (i: nat)
    ensures i == OldestAt(rows, w)
  {
    i := 0;
    var found := false;
    for k := 0 to |rows|
      invariant found ==> i < k && i == OldestAt(rows[..k], w)
      invariant !found ==> OldestAt(rows[..k], w) == k
    {
      assert rows[..k + 1][..k] == rows[..k] && rows[..k + 1][k] == rows[k];
      if Wanted(w, rows[k]) && (!found || rows[k].ts < rows[i].ts) {
        i, found := k, true;
      }
    }
    assert rows[..|rows|] == rows;
    if !found {
      i := |rows|;
    }
  }

  /** The update of one chunk, and how many rows it changed. */
  method BlankChunk(rows: seq<Row>) returns (r: seq<Row>, changed: nat)
    ensures r == BlankOldest(rows, COMPACT_CHUNK_ROWS) && (changed == 0 <==> r == rows)
  {
    hide OldestAt, BlankOldest;
    r, changed := rows, 0;
    BlankingHelps(rows, COMPACT_CHUNK_ROWS);
    while changed < COMPACT_CHUNK_ROWS
      invariant changed <= COMPACT_CHUNK_ROWS && |r| == |rows|
      invariant BlankOldest(r, COMPACT_CHUNK_ROWS - changed) == BlankOldest(rows, COMPACT_CHUNK_ROWS)
      invariant changed > 0 ==> OldestAt(rows, WithText) < |rows|
      invariant changed == 0 ==> r == rows
    {
      var i := FindOldest(r, WithText);
      BlankStep(r, COMPACT_CHUNK_ROWS - changed);
      if i == |r| {
        return;
      }
      r := r[i := r[i].(text := false)];
      changed := changed + 1;
    }
    BlankStep(r, 0);
  }

  lemma BlankStep(rows: seq<Row>, n: nat)
    ensures var i := OldestAt(rows, WithText);
            BlankOldest(rows, n) == if n == 0 || i == |rows| then rows else BlankOldest(rows[i := rows[i].(text := false)], n - 1)
  {
  }

  lemma RemoveStep(rows: seq<Row>, w: Want, n: nat)
    ensures var i := OldestAt(rows, w);
            RemoveOldest(rows, w, n) == if n == 0 || i == |rows| then rows else RemoveOldest(WithoutAt(rows, i), w, n - 1)
  {
  }

  /** The delete of one chunk, and how many rows it took. */
  method RemoveChunk(rows: seq<Row>, w: Want) returns (r: seq<Row>, removed: nat)
    ensures r == RemoveOldest(rows, w, COMPACT_CHUNK_ROWS) && removed == |rows| - |r|
  {
    hide OldestAt, RemoveOldest;
    r, removed := rows, 0;
    while removed < COMPACT_CHUNK_ROWS
      invariant removed <= COMPACT_CHUNK_ROWS && removed == |rows| - |r|
      invariant RemoveOldest(r, w, COMPACT_CHUNK_ROWS - removed) == RemoveOldest(rows, w, COMPACT_CHUNK_ROWS)
    {
      var i := FindOldest(r, w);
      RemoveStep(r, w, COMPACT_CHUNK_ROWS - removed);
      if i == |r| {
        return;
      }
      r := r[..i] + r[i + 1..];
      removed := removed + 1;
    }
    RemoveStep(r, w, 0);
  }

  class History {
    const env: Env
    var tables: Tables
    var wal: nat
    var logs: nat
    var ticks: nat

    function View(): State
      reads this
    {
      State(tables, wal, logs, ticks)
    }

    /** `_evict_text` */
    method TrimText(table: string)
      modifies this`tables
      ensures View() == EvictText(old(View()), table, env)
    {
      hide BlankOldest, Evictable;
      while Evictable(View(), env) > Target(env)
        invariant EvictText(View(), table, env) == EvictText(old(View()), table, env)
        decreases Texts(Rows(tables, table))
      {
        var rows := Rows(tables, table);
        BlankingHelps(rows, COMPACT_CHUNK_ROWS);
        var blanked, changed := BlankChunk(rows);
        if changed == 0 {
          return;
        }
        tables := tables[table := blanked];
      }
    }

    /** `_evict_oldest` */
    method EvictTable(table: string)
      modifies this`tables, this`ticks
      ensures View() == EvictOldest(old(View()), table, env)
    {
      hide RemoveOldest, Evictable;
      while Evictable(View(), env) > Target(env)
        invariant EvictOldest(View(), table, env) == EvictOldest(old(View()), table, env)
        decreases |Rows(tables, table)|
      {
        var rows := Rows(tables, table);
        var now := env.clock(ticks);
        var want := if table in EVICT_ONLY_OLDER then Before(now - EVICT_KEEP) else Any;
        RemovingHelps(rows, want, COMPACT_CHUNK_ROWS);
        var left, removed := RemoveChunk(rows, want);
        if removed == 0 {
          ticks := ticks + 1;
          return;
        }
        tables, ticks := tables[table := left], ticks + 1;
      }
    }

    method TrimTexts()
      modifies this`tables
      ensures View() == EvictTexts(old(View()), TEXT_TABLES, env)
    {
      hide EvictText, Evictable;
      assert TEXT_TABLES[0..] == TEXT_TABLES;
      for k := 0 to |TEXT_TABLES|
        invariant EvictTexts(View(), TEXT_TABLES[k..], env) == EvictTexts(old(View()), TEXT_TABLES, env)
      {
        Peel(TEXT_TABLES, k);
        if Evictable(View(), env) <= Target(env) {
          return;
        }
        TrimText(TEXT_TABLES[k]);
      }
      assert TEXT_TABLES[|TEXT_TABLES|..] == [];
    }

    method EvictAll()
      modifies this`tables, this`ticks
      ensures View() == EvictRows(old(View()), EVICTION_ORDER, env)
    {
      hide EvictOldest, Evictable;
      assert EVICTION_ORDER[0..] == EVICTION_ORDER;
      for k := 0 to |EVICTION_ORDER|
        invariant EvictRows(View(), EVICTION_ORDER[k..], env) == EvictRows(old(View()), EVICTION_ORDER, env)
      {
        Peel(EVICTION_ORDER, k);
        if Evictable(View(), env) <= Target(env) {
          return;
        }
        EvictTable(EVICTION_ORDER[k]);
      }
      assert EVICTION_ORDER[|EVICTION_ORDER|..] == [];
    }

    /** `enforce_budget` */
    method EnforceBudget()
      modifies this
      ensures View() == Enforced(old(View()), env)
    {
      hide EvictTexts, EvictRows, Evictable;
      if Used(View(), env) <= env.budget {
        return;
      }
      wal := env.walLeft(wal);
      if Used(View(), env) <= env.budget {
        return;
      }
      logs := env.logsLeft(logs);
      TrimTexts();
      EvictAll();
      wal := env.walLeft(wal);
    }
  }

  lemma Peel(tables: seq<string>, k: nat)
    requires k < |tables|
    ensures tables[k..] == [tables[k]] + tables[k + 1..] && tables[k..][1..] == tables[k + 1..] && tables[k..] != []
  {
  }
}
