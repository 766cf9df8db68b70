/**
 Merging duplicate session profiles: what the three passes compute.

 A profile dict is a row of the store `s`, and a reference to it is its position; a list of profiles
 is a sequence of positions. Merging changes one row in place and drops a reference to another.
 */
module SessionMerge {
  import opened Options

  datatype Cell = Null | Num(n: int) | Text(t: string)

  /** A profile. `activity` maps a bucket to its count; `usage` holds the keys of `USAGE_KEYS` that are there. */
  datatype Facts = Facts(
    sessionId: string, altIds: seq<string>, tool: string, pid: int, projectPath: string,
    startedAt: real, endedAt: Option<real>, lastSeenAt: Option<real>, active: bool, duration: Option<real>,
    conversations: int, subagents: int,
    filesModified: int, uniqueFiles: int, bytesWritten: int, sourceFiles: int,
    activity: map<int, int>, usage: map<string, Cell>)

  /** What the merge asks of code outside it. */
  datatype Env = Env(
    uuid: string -> Option<string>,      // the UUID inside a session id
    idPid: string -> Option<string>,     // the process id inside `tool:pid:time`
    showPid: int -> string,
    readPid: string -> int,
    projectKey: string -> string,
    round: real -> real)

  const TOKEN_KEYS := ["input_tokens", "output_tokens", "cache_read_tokens", "cache_creation_tokens"]
  const USAGE_KEYS := TOKEN_KEYS
    + ["cost_usd", "tokens_source", "tokens_quality", "tokens_reason", "cost_source", "cost_quality", "cost_reason",
       "unpriced_models", "billing_unit", "billing_amount", "premium_requests", "estimated_list_usd"]

  // ----- Merging two profiles -----

  /** Python's truth of an optional time: 0.0 is false too. */
  predicate Truthy(t: Option<real>) { t.Some? && t.value != 0.0 }

  function Max(a: int, b: int): int { if a >= b then a else b }
  function MaxReal(a: real, b: real): real { if a >= b then a else b }
  function MinReal(a: real, b: real): real { if a <= b then a else b }
  function Abs(x: real): real { if x < 0.0 then -x else x }

  function Rank(usage: map<string, Cell>): nat {
    if "tokens_source" !in usage then 0
    else match usage["tokens_source"]
      case Text(t) => if t == "transcript" then 3 else if t == "otel" then 2 else if t == "hook" then 1 else 0
      case _ => 0
  }

  function Tokens(usage: map<string, Cell>, key: string): int {
    if key in usage && usage[key].Num? then usage[key].n else 0
  }

  /** Counts of the same tokens: the better source's figures whole, or the larger of each. */
  function UsageMerged(p: map<string, Cell>, s: map<string, Cell>): map<string, Cell> {
    if Rank(s) > Rank(p) then p + (map k | k in s && k in USAGE_KEYS :: s[k])
    else if Rank(s) == Rank(p) then
      p + (map k | k in p.Keys + s.Keys && k in TOKEN_KEYS :: Num(Max(Tokens(p, k), Tokens(s, k))))
    else p
  }

  function CountIn(activity: map<int, int>, bucket: int): int { if bucket in activity then activity[bucket] else 0 }

  function ActivityMerged(p: map<int, int>, s: map<int, int>): map<int, int> {
    map b | b in p.Keys + s.Keys :: CountIn(p, b) + CountIn(s, b)
  }

  /** `_merge_session_stats` */
  function StatsMerged(p: Facts, s: Facts): Facts {
    p.(filesModified := p.filesModified + s.filesModified,
       uniqueFiles := p.uniqueFiles + s.uniqueFiles,
       bytesWritten := p.bytesWritten + s.bytesWritten,
       sourceFiles := p.sourceFiles + s.sourceFiles,
       conversations := Max(p.conversations, s.conversations),
       subagents := Max(p.subagents, s.subagents),
       usage := UsageMerged(p.usage, s.usage),
       projectPath := if p.projectPath == "" && s.projectPath != "" then s.projectPath else p.projectPath,
       activity := ActivityMerged(p.activity, s.activity))
  }

  function NonEmpty(ids: seq<string>): (r: seq<string>)
    ensures forall id :: id in r <==> id in ids && id != ""
  {
    if ids == [] then [] else (if ids[0] == "" then [] else [ids[0]]) + NonEmpty(ids[1..])
  }

  /** `_profile_all_ids` */
  function AllIds(f: Facts): seq<string> { NonEmpty([f.sessionId] + f.altIds) }

  function Union(have: seq<string>, more: seq<string>): (r: seq<string>)
    ensures forall id :: id in r <==> id in have || id in more
    ensures have <= r
    decreases |more|
  {
    if more == [] then have
    else Union(if more[0] in have then have else have + [more[0]], more[1..])
  }

  function FirstUuid(ids: seq<string>, otherwise: string, env: Env): (id: string)
    ensures id in ids || id == otherwise
    ensures forall i :: 0 <= i < |ids| && env.uuid(ids[i]).Some? ==> env.uuid(id).Some?
  {
    if ids == [] then otherwise
    else if env.uuid(ids[0]).Some? then ids[0]
    else FirstUuid(ids[1..], otherwise, env)
  }

  function Without(ids: seq<string>, id: string): (r: seq<string>)
    ensures forall x :: x in r <==> x in ids && x != id
  {
    if ids == [] then [] else (if ids[0] == id then [] else [ids[0]]) + Without(ids[1..], id)
  }

  /** `_session_pid` */
  function SessionPid(f: Facts, env: Env): Option<string> {
    if f.pid != 0 then Some(env.showPid(f.pid)) else env.idPid(f.sessionId)
  }

  function SessionUuid(f: Facts, env: Env): Option<string> { env.uuid(f.sessionId) }

  function Canonical(ids: seq<string>, env: Env): string
    requires ids != []
  {
    if env.uuid(ids[0]).Some? then ids[0] else FirstUuid(ids, ids[0], env)
  }

  function KeptPid(keep: Facts, env: Env): int {
    var shown := SessionPid(keep, env);
    if keep.pid == 0 && shown.Some? && shown.value != "" then env.readPid(shown.value) else keep.pid
  }

  /** `_merge_profile_identity` */
  function IdentityMerged(keep: Facts, absorbed: Facts, env: Env): Facts {
    var ids := Union([], AllIds(keep) + AllIds(absorbed));
    if |ids| <= 1 then keep
    else keep.(sessionId := Canonical(ids, env), altIds := Without(ids, Canonical(ids, env)), pid := KeptPid(keep, env))
  }

  function DurationSet(f: Facts, env: Env): Facts {
    f.(duration := if Truthy(f.endedAt) then Some(env.round(f.endedAt.value - f.startedAt)) else None)
  }

  /** The union of the two intervals; a session that is still open wins. */
  function IntervalMerged(c: Facts, o: Facts, env: Env): Facts {
    var ended := if c.endedAt.Some? && o.endedAt.Some? then Some(MaxReal(c.endedAt.value, o.endedAt.value)) else None;
    DurationSet(c.(startedAt := MinReal(c.startedAt, o.startedAt), endedAt := ended), env).(active := ended.None?)
  }

  /** `_absorb_session_profile` */
  function Absorbed(c: Facts, o: Facts, env: Env): Facts {
    IdentityMerged(StatsMerged(IntervalMerged(c, o, env), o), o, env)
  }

  /** `_profiles_look_duplicate` */
  predicate LookDuplicate(a: Facts, b: Facts, env: Env) {
    var wa, wb := env.projectKey(a.projectPath), env.projectKey(b.projectPath);
    && !(wa != "" && wb != "" && wa != wb)
    && Truthy(a.endedAt) && Truthy(b.endedAt)
    && (var da, db := a.endedAt.value - a.startedAt, b.endedAt.value - b.startedAt;
        var shorter, longer := MinReal(da, db), MaxReal(da, db);
        && shorter > 0.0 && longer > 0.0
        && shorter / longer >= 0.8
        && (MinReal(a.endedAt.value, b.endedAt.value) - MaxReal(a.startedAt, b.startedAt)) / shorter >= 0.8)
  }

  // ----- Lists of profiles -----

  type Store = seq<Facts>

  predicate Refer(refs: seq<nat>, s: Store) { forall k :: 0 <= k < |refs| ==> refs[k] < |s| }

  /** Stable insertion by start time. */
  function Insert(s: Store, sorted: seq<nat>, r: nat): (out: seq<nat>)
    requires r < |s| && Refer(sorted, s)
    ensures Refer(out, s) && multiset(out) == multiset(sorted) + multiset{r}
  {
    if sorted == [] || s[sorted[|sorted| - 1]].startedAt <= s[r].startedAt then sorted + [r]
    else
      var last := |sorted| - 1;
      assert sorted == sorted[..last] + [sorted[last]];
      Insert(s, sorted[..last], r) + [sorted[last]]
  }

  /** `refs.sort(key=started_at)` */
  function Sort(s: Store, refs: seq<nat>): (out: seq<nat>)
    requires Refer(refs, s)
    ensures Refer(out, s) && multiset(out) == multiset(refs)
  {
    if refs == [] then []
    else
      assert refs == refs[..|refs| - 1] + [refs[|refs| - 1]];
      Insert(s, Sort(s, refs[..|refs| - 1]), refs[|refs| - 1])
  }

  // ----- Pass 0: the same UUID -----

  function Pass0(s: Store, byUuid: map<string, nat>, refs: seq<nat>, out: seq<nat>, env: Env): (r: (Store, seq<nat>))
    requires Refer(refs, s) && Refer(out, s) && forall u :: u in byUuid ==> byUuid[u] < |s|
    ensures |r.0| == |s| && Refer(r.1, r.0)
    decreases |refs|
  {
    if refs == [] then (s, out)
    else
      var p, rest := refs[0], refs[1..];
      match SessionUuid(s[p], env)
      case None => Pass0(s, byUuid, rest, out + [p], env)
      case Some(u) =>
        if u !in byUuid then Pass0(s, byUuid[u := p], rest, out + [p], env)
        else Pass0(s[byUuid[u] := Absorbed(s[byUuid[u]], s[p], env)], byUuid, rest, out, env)
  }

  // ----- Pass A: close in time -----

  /** Whether the loop goes on past this profile without merging it. */
  predicate PassesOver(p: Facts, q: Facts, env: Env) {
    var pUuid, qUuid := SessionUuid(p, env), SessionUuid(q, env);
    var pPid, qPid := SessionPid(p, env), SessionPid(q, env);
    || (pUuid.Some? && qUuid.Some? && pUuid != qUuid)
    || (pPid.Some? && qPid.Some? && pPid != qPid && Abs(q.startedAt - p.startedAt) > 10.0 && !LookDuplicate(p, q, env))
  }

  /** The later of the two has ended and this one has not: the two change places, and the ended one keeps its row. */
  predicate Swaps(p: Facts, q: Facts) { Truthy(q.endedAt) && !Truthy(p.endedAt) }

  function Joined(a: Facts, b: Facts, env: Env): Facts { IdentityMerged(StatsMerged(a, b), b, env) }

  function InnerA(s: Store, used: set<string>, p: nat, rest: seq<nat>, env: Env): (r: (Store, set<string>, nat))
    requires p < |s| && Refer(rest, s)
    ensures |r.0| == |s| && r.2 < |s|
    decreases |rest|
  {
    if rest == [] then (s, used, p)
    else
      var q, more := rest[0], rest[1..];
      if s[q].sessionId in used || s[q].tool != s[p].tool then InnerA(s, used, p, more, env)
      else if Abs(s[q].startedAt - s[p].startedAt) > 60.0 then (s, used, p)
      else if PassesOver(s[p], s[q], env) then InnerA(s, used, p, more, env)
      else
        var (a, b) := if Swaps(s[p], s[q]) then (q, p) else (p, q);
        InnerA(s[a := Joined(s[a], s[b], env)], used + {s[b].sessionId}, a, more, env)
  }

  function PassA(s: Store, used: set<string>, refs: seq<nat>, out: seq<nat>, env: Env): (r: (Store, seq<nat>))
    requires Refer(refs, s) && Refer(out, s)
    ensures |r.0| == |s| && Refer(r.1, r.0)
    decreases |refs|
  {
    if refs == [] then (s, out)
    else if s[refs[0]].sessionId in used then PassA(s, used, refs[1..], out, env)
    else
      var (s', used', p) := InnerA(s, used, refs[0], refs[1..], env);
      PassA(s', used' + {s'[p].sessionId}, refs[1..], out + [p], env)
  }

  // ----- Pass B: the same process -----

  type Groups = map<(string, string), seq<nat>>

  predicate ReferIn(groups: Groups, s: Store) { forall key :: key in groups ==> Refer(groups[key], s) }

  function GroupOf(groups: Groups, key: (string, string)): seq<nat> { if key in groups then groups[key] else [] }

  function Grouped(s: Store, refs: seq<nat>, env: Env): (g: Groups)
    requires Refer(refs, s)
    ensures ReferIn(g, s)
  {
    if refs == [] then map[]
    else
      var last := refs[|refs| - 1];
      var before := Grouped(s, refs[..|refs| - 1], env);
      match SessionPid(s[last], env)
      case None => before
      case Some(pid) => before[(s[last].tool, pid) := GroupOf(before, (s[last].tool, pid)) + [last]]
  }

  const GAP_ENDED := 600.0
  const GAP_ACTIVE := 7200.0

  /** Too much time between the last sign of `c` and the start of `o`. */
  predicate TooLate(c: Facts, o: Facts) {
    if Truthy(c.endedAt) then o.startedAt - c.endedAt.value > GAP_ENDED
    else o.startedAt - (if Truthy(c.lastSeenAt) then c.lastSeenAt.value else c.startedAt) > GAP_ACTIVE
  }

  function EndMerged(c: Facts, o: Facts): Facts {
    if Truthy(o.endedAt) then
      if c.endedAt.None? || o.endedAt.value > c.endedAt.value then c.(endedAt := o.endedAt) else c
    else c.(endedAt := None)
  }

  function InnerB(s: Store, consumed: set<string>, c: nat, rest: seq<nat>, env: Env): (r: (Store, set<string>))
    requires c < |s| && Refer(rest, s)
    ensures |r.0| == |s|
    decreases |rest|
  {
    if rest == [] then (s, consumed)
    else
      var q, more := rest[0], rest[1..];
      if s[q].sessionId in consumed || TooLate(s[c], s[q]) then InnerB(s, consumed, c, more, env)
      else InnerB(s[c := Joined(EndMerged(s[c], s[q]), s[q], env)], consumed + {s[q].sessionId}, c, more, env)
  }

  /** A group, from the profile that leads it. */
  function LedGroup(s: Store, consumed: set<string>, group: seq<nat>, env: Env): (r: (Store, set<string>))
    requires Refer(group, s) && group != []
    ensures |r.0| == |s|
  {
    var c := group[0];
    var (s1, consumed1) := InnerB(s, consumed, c, group[1..], env);
    var s2 := s1[c := DurationSet(s1[c], env)];
    (s2, consumed1 + {s2[c].sessionId})
  }

  function PassB(s: Store, consumed: set<string>, groups: Groups, refs: seq<nat>, out: seq<nat>, env: Env): (r: (Store, seq<nat>))
    requires Refer(refs, s) && Refer(out, s) && ReferIn(groups, s)
    ensures |r.0| == |s| && Refer(r.1, r.0)
    decreases |refs|
  {
    if refs == [] then (s, out)
    else
      var p, rest := refs[0], refs[1..];
      var id, pid := s[p].sessionId, SessionPid(s[p], env);
      if id in consumed then PassB(s, consumed, groups, rest, out, env)
      else if pid.None? || |GroupOf(groups, (s[p].tool, pid.value))| <= 1 then
        PassB(s, consumed + {id}, groups, rest, out + [p], env)
      else
        var key := (s[p].tool, pid.value);
        var group := Sort(s, groups[key]);
        if id != s[group[0]].sessionId then PassB(s, consumed + {id}, groups[key := group], rest, out + [p], env)
        else
          var (s', consumed') := LedGroup(s, consumed, group, env);
          PassB(s', consumed', groups[key := group], rest, out + [group[0]], env)
  }

  // ----- All three -----

  function Everyone(n: nat): (refs: seq<nat>)
    ensures |refs| == n && forall k :: 0 <= k < n ==> refs[k] == k
  {
    seq(n, k => k)
  }

  function AfterPassA(s: Store, env: Env): (r: (Store, seq<nat>))
    ensures |r.0| == |s| && Refer(r.1, r.0)
  {
    var (s0, out0) := Pass0(s, map[], Sort(s, Everyone(|s|)), [], env);
    PassA(s0, {}, out0, [], env)
  }

  /** `_merge_session_profiles`: the rows afterwards, and which of them are returned. */
  function MergeProfiles(s: Store, env: Env): (r: (Store, seq<nat>))
    ensures |r.0| == |s| && Refer(r.1, r.0)
  {
    var (s1, out1) := AfterPassA(s, env);
    PassB(s1, {}, Grouped(s1, out1, env), out1, [], env)
  }
}
