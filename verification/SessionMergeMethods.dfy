/** The merge as it runs: profile records changed in place, and loops over lists of them. */
module SessionMergeMethods {
  import opened Options
  import opened SessionMerge
  import opened SessionMergeKept
  import opened SessionMergeTheorems

  class Profile {
    var sessionId: string
    var altIds: seq<string>
    var tool: string
    var pid: int
    var projectPath: string
    var startedAt: real
    var endedAt: Option<real>
    var lastSeenAt: Option<real>
    var active: bool
    var duration: Option<real>
    var conversations: int
    var subagents: int
    var filesModified: int
    var uniqueFiles: int
    var bytesWritten: int
    var sourceFiles: int
    var activity: map<int, int>
    var usage: map<string, Cell>

    function View(): Facts
      reads this
    {
      Facts(sessionId, altIds, tool, pid, projectPath, startedAt, endedAt, lastSeenAt, active, duration,
            conversations, subagents, filesModified, uniqueFiles, bytesWritten, sourceFiles, activity, usage)
    }

    method MergeFiles(other: Profile)
      requires other != this
      modifies this`filesModified, this`uniqueFiles, this`bytesWritten, this`sourceFiles
      ensures var p, s := old(View()), other.View();
              View() == p.(filesModified := p.filesModified + s.filesModified,
                           uniqueFiles := p.uniqueFiles + s.uniqueFiles,
                           bytesWritten := p.bytesWritten + s.bytesWritten,
                           sourceFiles := p.sourceFiles + s.sourceFiles)
    {
      filesModified := filesModified + other.filesModified;
      uniqueFiles := uniqueFiles + other.uniqueFiles;
      bytesWritten := bytesWritten + other.bytesWritten;
      sourceFiles := sourceFiles + other.sourceFiles;
    }

    method MergeMaxima(other: Profile)
      requires other != this
      modifies this`conversations, this`subagents
      ensures var p, s := old(View()), other.View();
              View() == p.(conversations := Max(p.conversations, s.conversations), subagents := Max(p.subagents, s.subagents))
    {
      hide Max;
      conversations := Max(conversations, other.conversations);
      subagents := Max(subagents, other.subagents);
    }

    method MergeUsage(other: Profile)
      requires other != this
      modifies this`usage
      ensures View() == old(View()).(usage := UsageMerged(old(View()).usage, other.View().usage))
    {
      hide Rank, Tokens;
      if Rank(other.usage) > Rank(usage) {
        usage := TakeUsage(usage, other.usage);
      } else if Rank(other.usage) == Rank(usage) {
        usage := LargestTokens(usage, other.usage);
      }
    }

    method MergeActivity(other: Profile)
      requires other != this
      modifies this`activity
      ensures View() == old(View()).(activity := ActivityMerged(old(View()).activity, other.View().activity))
    {
      hide ActivityMerged;
      activity := AddActivity(activity, other.activity);
    }

    /** `_merge_session_stats` */
    method MergeStats(other: Profile)
      requires other != this
      modifies this
      ensures View() == StatsMerged(old(View()), other.View())
    {
      hide UsageMerged, ActivityMerged, View;
      MergeFiles(other);
      MergeMaxima(other);
      MergeUsage(other);
      MergePath(other);
      MergeActivity(other);
    }

    method MergePath(other: Profile)
      requires other != this
      modifies this`projectPath
      ensures View() == old(View()).(projectPath :=
        if old(View()).projectPath == "" && other.View().projectPath != "" then other.View().projectPath else old(View()).projectPath)
    {
      if projectPath == "" && other.projectPath != "" {
        projectPath := other.projectPath;
      }
    }

    /** `_merge_profile_identity` */
    method MergeIdentity(other: Profile, env: Env)
      requires other != this
      modifies this
      ensures View() == IdentityMerged(old(View()), other.View(), env)
    {
      hide AllIds, FirstUuid, Without, SessionPid, Union;
      var ids := DistinctOf(AllIds(View()) + AllIds(other.View()));
      if |ids| <= 1 {
        return;
      }
      ghost var keep := View();
      if pid == 0 {
        var shown := SessionPid(View(), env);
        if shown.Some? && shown.value != "" {
          pid := env.readPid(shown.value);
        }
      }
      assert View() == keep.(pid := KeptPid(keep, env));
      var canonical := ids[0];
      if env.uuid(canonical).None? {
        canonical := FirstUuid(ids, canonical, env);
      }
      assert canonical == Canonical(ids, env);
      sessionId := canonical;
      altIds := Without(ids, canonical);
    }

    method SetDuration(env: Env)
      modifies this`duration
      ensures View() == DurationSet(old(View()), env)
    {
      duration := if Truthy(endedAt) then Some(env.round(endedAt.value - startedAt)) else None;
    }

    /** `_absorb_session_profile` */
    method Absorb(other: Profile, env: Env)
      requires other != this
      modifies this
      ensures View() == Absorbed(old(View()), other.View(), env)
    {
      hide StatsMerged, IdentityMerged;
      MergeInterval(other, env);
      MergeStats(other);
      MergeIdentity(other, env);
    }

    method MergeInterval(other: Profile, env: Env)
      requires other != this
      modifies this
      ensures View() == IntervalMerged(old(View()), other.View(), env)
    {
      startedAt := MinReal(startedAt, other.startedAt);
      if endedAt.Some? && other.endedAt.Some? {
        endedAt := Some(MaxReal(endedAt.value, other.endedAt.value));
      } else {
        endedAt := None;
      }
      SetDuration(env);
      active := endedAt.None?;
    }
  }

  // ----- Loops over the collections of one profile -----

  lemma InPrefix(keys: seq<string>, i: nat)
    requires i < |keys|
    ensures forall k :: k in keys[..i + 1] <==> k in keys[..i] || k == keys[i]
  {
    assert keys[..i + 1] == keys[..i] + [keys[i]];
  }

  function Taken(p: map<string, Cell>, s: map<string, Cell>, keys: seq<string>): map<string, Cell> {
    p + (map k | k in s && k in keys :: s[k])
  }

  lemma TakenStep(p: map<string, Cell>, s: map<string, Cell>, keys: seq<string>, i: nat)
    requires i < |keys|
    ensures var now, key := Taken(p, s, keys[..i]), keys[i];
            Taken(p, s, keys[..i + 1]) == if key in s then now[key := s[key]] else now
  {
    InPrefix(keys, i);
  }

  /** The figures of a better source. */
  method TakeUsage(p: map<string, Cell>, s: map<string, Cell>) returns (u: map<string, Cell>)
    ensures u == p + (map k | k in s && k in USAGE_KEYS :: s[k])
  {
    hide Taken;
    u := p;
    assert Taken(p, s, USAGE_KEYS[..0]) == p by { TakenNone(p, s); }
    for i := 0 to |USAGE_KEYS|
      invariant u == Taken(p, s, USAGE_KEYS[..i])
    {
      TakenStep(p, s, USAGE_KEYS, i);
      if USAGE_KEYS[i] in s {
        u := u[USAGE_KEYS[i] := s[USAGE_KEYS[i]]];
      }
    }
    assert USAGE_KEYS[..|USAGE_KEYS|] == USAGE_KEYS;
    assert u == p + (map k | k in s && k in USAGE_KEYS :: s[k]) by { TakenAll(p, s); }
  }

  lemma TakenNone(p: map<string, Cell>, s: map<string, Cell>)
    ensures Taken(p, s, []) == p
  {
  }

  lemma TakenAll(p: map<string, Cell>, s: map<string, Cell>)
    ensures Taken(p, s, USAGE_KEYS) == p + (map k | k in s && k in USAGE_KEYS :: s[k])
  {
  }

  function Best(p: map<string, Cell>, s: map<string, Cell>, key: string): Cell { Num(Max(Tokens(p, key), Tokens(s, key))) }

  function Larger(p: map<string, Cell>, s: map<string, Cell>, keys: seq<string>): map<string, Cell> {
    p + (map k | k in p.Keys + s.Keys && k in keys :: Best(p, s, k))
  }

  predicate DistinctKeys(keys: seq<string>) { forall i, j :: 0 <= i < j < |keys| ==> keys[i] != keys[j] }

  lemma LargerStep(p: map<string, Cell>, s: map<string, Cell>, keys: seq<string>, i: nat)
    requires i < |keys|
    ensures var now, key := Larger(p, s, keys[..i]), keys[i];
            Larger(p, s, keys[..i + 1]) == if key in p || key in s then now[key := Best(p, s, key)] else now
  {
    hide Best;
    InPrefix(keys, i);
  }

  /** Before its turn comes, a key is as it was. */
  lemma LargerLater(p: map<string, Cell>, s: map<string, Cell>, keys: seq<string>, i: nat)
    requires i < |keys| && DistinctKeys(keys)
    ensures var now, key := Larger(p, s, keys[..i]), keys[i];
            && (key in now <==> key in p)
            && Num(Max(Tokens(now, key), Tokens(s, key))) == Best(p, s, key)
  {
    assert keys[i] !in keys[..i];
  }

  /** The larger of two counts of the same tokens. */
  method LargestTokens(p: map<string, Cell>, s: map<string, Cell>) returns (u: map<string, Cell>)
    ensures u == p + (map k | k in p.Keys + s.Keys && k in TOKEN_KEYS :: Num(Max(Tokens(p, k), Tokens(s, k))))
  {
    hide Larger, Tokens, Max, Best;
    u := p;
    assert Larger(p, s, TOKEN_KEYS[..0]) == p by { LargerNone(p, s); }
    for i := 0 to |TOKEN_KEYS|
      invariant u == Larger(p, s, TOKEN_KEYS[..i])
    {
      LargerStep(p, s, TOKEN_KEYS, i);
      LargerLater(p, s, TOKEN_KEYS, i);
      var key := TOKEN_KEYS[i];
      if key in u || key in s {
        u := u[key := Num(Max(Tokens(u, key), Tokens(s, key)))];
      }
    }
    assert TOKEN_KEYS[..|TOKEN_KEYS|] == TOKEN_KEYS;
    LargerAll(p, s);
  }

  lemma LargerNone(p: map<string, Cell>, s: map<string, Cell>)
    ensures Larger(p, s, []) == p
  {
  }

  lemma LargerAll(p: map<string, Cell>, s: map<string, Cell>)
    ensures Larger(p, s, TOKEN_KEYS)
            == p + (map k | k in p.Keys + s.Keys && k in TOKEN_KEYS :: Num(Max(Tokens(p, k), Tokens(s, k))))
  {
    hide Tokens, Max;
  }

  /** The sum so far, while the buckets of `todo` are still to be added. */
  function Partly(p: map<int, int>, s: map<int, int>, todo: set<int>): map<int, int> {
    map b | b in p.Keys + (s.Keys - todo) :: CountIn(p, b) + if b in todo then 0 else CountIn(s, b)
  }

  lemma PartlyStep(p: map<int, int>, s: map<int, int>, todo: set<int>, b: int)
    requires b in todo && todo <= s.Keys
    ensures Partly(p, s, todo - {b}) == Partly(p, s, todo)[b := CountIn(Partly(p, s, todo), b) + s[b]]
  {
  }

  lemma PartlyEnds(p: map<int, int>, s: map<int, int>)
    ensures Partly(p, s, s.Keys) == p && Partly(p, s, {}) == ActivityMerged(p, s)
  {
  }

  /** The activity of another profile, bucket by bucket. */
  method AddActivity(p: map<int, int>, s: map<int, int>) returns (a: map<int, int>)
    ensures a == ActivityMerged(p, s)
  {
    hide Partly, ActivityMerged, CountIn;
    PartlyEnds(p, s);
    a := p;
    var todo := s.Keys;
    while todo != {}
      invariant todo <= s.Keys && a == Partly(p, s, todo)
      decreases |todo|
    {
      var b := Pick(todo);
      PartlyStep(p, s, todo, b);
      a := a[b := CountIn(a, b) + s[b]];
      todo := todo - {b};
    }
  }

  /** Each id once, in the order of its first occurrence. */
  method DistinctOf(all: seq<string>) returns (ids: seq<string>)
    ensures ids == Union([], all)
  {
    ids := [];
    assert all[0..] == all;
    for i := 0 to |all|
      invariant Union(ids, all[i..]) == Union([], all)
    {
      assert all[i..][1..] == all[i + 1..];
      if all[i] !in ids {
        ids := ids + [all[i]];
      }
    }
    assert all[|all|..] == [];
  }

  // ----- Lists of profiles -----

  predicate Separate(ps: seq<Profile>) { forall i, j :: 0 <= i < j < |ps| ==> ps[i] != ps[j] }

  function Views(ps: seq<Profile>): (s: Store)
    reads ps
    ensures |s| == |ps|
  {
    seq(|ps|, i requires 0 <= i < |ps| reads ps => ps[i].View())
  }

  method FoldAbsorb(ps: seq<Profile>, a: nat, b: nat, env: Env)
    requires Separate(ps) && a < |ps| && b < |ps| && a != b
    modifies ps[a]
    ensures var s := old(Views(ps)); Views(ps) == s[a := Absorbed(s[a], s[b], env)]
  {
    hide Absorbed;
    ps[a].Absorb(ps[b], env);
  }

  method FoldJoin(ps: seq<Profile>, a: nat, b: nat, env: Env)
    requires Separate(ps) && a < |ps| && b < |ps| && a != b
    modifies ps[a]
    ensures var s := old(Views(ps)); Views(ps) == s[a := Joined(s[a], s[b], env)]
  {
    hide StatsMerged, IdentityMerged;
    ps[a].MergeStats(ps[b]);
    ps[a].MergeIdentity(ps[b], env);
  }

  method FoldEnd(ps: seq<Profile>, a: nat, b: nat, env: Env)
    requires Separate(ps) && a < |ps| && b < |ps| && a != b
    modifies ps[a]
    ensures var s := old(Views(ps)); Views(ps) == s[a := Joined(EndMerged(s[a], s[b]), s[b], env)]
  {
    hide StatsMerged, IdentityMerged;
    var c, other := ps[a], ps[b];
    if Truthy(other.endedAt) {
      if c.endedAt.None? || other.endedAt.value > c.endedAt.value {
        c.endedAt := other.endedAt;
      }
    } else {
      c.endedAt := None;
    }
    assert c.View() == EndMerged(old(c.View()), other.View());
    c.MergeStats(other);
    c.MergeIdentity(other, env);
  }

  // ----- The passes: references are positions in `ps` -----

  method RunPass0(ps: seq<Profile>, refs: seq<nat>, env: Env) returns (out: seq<nat>)
    requires Separate(ps) && Refer(refs, Views(ps))
    requires forall i, j :: 0 <= i < j < |refs| ==> refs[i] != refs[j]
    modifies ps
    ensures (Views(ps), out) == Pass0(old(Views(ps)), map[], refs, [], env)
  {
    hide Absorbed;
    var byUuid: map<string, nat> := map[];
    out := [];
    ghost var was := Views(ps);
    assert refs[0..] == refs;
    for i := 0 to |refs|
      invariant Refer(out, Views(ps)) && forall u :: u in byUuid ==> byUuid[u] < |ps| && byUuid[u] in refs[..i]
      invariant Pass0(Views(ps), byUuid, refs[i..], out, env) == Pass0(was, map[], refs, [], env)
    {
      var p := refs[i];
      assert refs[i..][1..] == refs[i + 1..];
      assert p !in refs[..i] && refs[..i + 1] == refs[..i] + [p];
      var uuid := env.uuid(ps[p].sessionId);
      if uuid.None? {
        out := out + [p];
      } else if uuid.value !in byUuid {
        byUuid := byUuid[uuid.value := p];
        out := out + [p];
      } else {
        FoldAbsorb(ps, byUuid[uuid.value], p, env);
      }
    }
    assert refs[|refs|..] == [];
  }

  method RunInnerA(ps: seq<Profile>, usedBefore: set<string>, first: nat, rest: seq<nat>, env: Env)
    returns (used: set<string>, p: nat)
    requires Separate(ps) && first < |ps| && Refer(rest, Views(ps))
    requires first !in rest && forall i, j :: 0 <= i < j < |rest| ==> rest[i] != rest[j]
    modifies ps
    ensures (Views(ps), used, p) == InnerA(old(Views(ps)), usedBefore, first, rest, env)
  {
    hide Joined, PassesOver;
    used, p := usedBefore, first;
    ghost var was := Views(ps);
    assert rest[0..] == rest;
    for i := 0 to |rest|
      invariant p < |ps| && p !in rest[i..]
      invariant InnerA(Views(ps), used, p, rest[i..], env) == InnerA(was, usedBefore, first, rest, env)
    {
      var q := rest[i];
      assert rest[i..] == [q] + rest[i + 1..];
      if ps[q].sessionId in used || ps[q].tool != ps[p].tool {
        continue;
      }
      if Abs(ps[q].startedAt - ps[p].startedAt) > 60.0 {
        return;
      }
      if PassesOver(ps[p].View(), ps[q].View(), env) {
        continue;
      }
      var primary, secondary := p, q;
      if Truthy(ps[secondary].endedAt) && !Truthy(ps[primary].endedAt) {
        primary, secondary := secondary, primary;
      }
      used := used + {ps[secondary].sessionId};
      FoldJoin(ps, primary, secondary, env);
      p := primary;
    }
    assert rest[|rest|..] == [];
  }

  method RunPassA(ps: seq<Profile>, refs: seq<nat>, env: Env) returns (merged: seq<nat>)
    requires Separate(ps) && Refer(refs, Views(ps)) && forall i, j :: 0 <= i < j < |refs| ==> refs[i] != refs[j]
    modifies ps
    ensures (Views(ps), merged) == PassA(old(Views(ps)), {}, refs, [], env)
  {
    hide InnerA;
    var used: set<string> := {};
    merged := [];
    ghost var was := Views(ps);
    assert refs[0..] == refs;
    for i := 0 to |refs|
      invariant Refer(merged, Views(ps))
      invariant PassA(Views(ps), used, refs[i..], merged, env) == PassA(was, {}, refs, [], env)
    {
      assert refs[i..] == [refs[i]] + refs[i + 1..];
      if ps[refs[i]].sessionId in used {
        continue;
      }
      var primary;
      used, primary := RunInnerA(ps, used, refs[i], refs[i + 1..], env);
      merged := merged + [primary];
      used := used + {ps[primary].sessionId};
    }
    assert refs[|refs|..] == [];
  }

  method GroupByPid(ps: seq<Profile>, merged: seq<nat>, env: Env) returns (groups: Groups)
    requires Refer(merged, Views(ps))
    ensures groups == Grouped(Views(ps), merged, env)
  {
    hide SessionPid;
    groups := map[];
    assert merged[..0] == [];
    for i := 0 to |merged|
      invariant groups == Grouped(Views(ps), merged[..i], env)
    {
      assert merged[..i + 1] == merged[..i] + [merged[i]];
      assert merged[..i + 1][..i] == merged[..i];
      var p := ps[merged[i]];
      var pid := SessionPid(p.View(), env);
      if pid.Some? {
        var key := (p.tool, pid.value);
        groups := groups[key := GroupOf(groups, key) + [merged[i]]];
      }
    }
    assert merged[..|merged|] == merged;
  }

  method RunInnerB(ps: seq<Profile>, consumedBefore: set<string>, c: nat, rest: seq<nat>, env: Env)
    returns (consumed: set<string>)
    requires Separate(ps) && c < |ps| && Refer(rest, Views(ps)) && c !in rest
    modifies ps
    ensures (Views(ps), consumed) == InnerB(old(Views(ps)), consumedBefore, c, rest, env)
  {
    hide Joined, EndMerged, TooLate;
    consumed := consumedBefore;
    ghost var was := Views(ps);
    assert rest[0..] == rest;
    for i := 0 to |rest|
      invariant InnerB(Views(ps), consumed, c, rest[i..], env) == InnerB(was, consumedBefore, c, rest, env)
    {
      var q := rest[i];
      assert rest[i..] == [q] + rest[i + 1..];
      if ps[q].sessionId in consumed || TooLate(ps[c].View(), ps[q].View()) {
        continue;
      }
      consumed := consumed + {ps[q].sessionId};
      FoldEnd(ps, c, q, env);
    }
    assert rest[|rest|..] == [];
  }

  /** One profile's turn in the last pass, when it leads its group. */
  method RunGroup(ps: seq<Profile>, consumedBefore: set<string>, group: seq<nat>, env: Env) returns (consumed: set<string>)
    requires Separate(ps) && Refer(group, Views(ps)) && group != [] && NoDup(group)
    modifies ps
    ensures (Views(ps), consumed) == LedGroup(old(Views(ps)), consumedBefore, group, env)
  {
    hide InnerB, DurationSet;
    var c := group[0];
    ghost var was := Views(ps);
    consumed := RunInnerB(ps, consumedBefore, c, group[1..], env);
    ghost var s1 := Views(ps);
    ps[c].SetDuration(env);
    assert Views(ps) == s1[c := DurationSet(s1[c], env)];
    consumed := consumed + {ps[c].sessionId};
  }

  method RunPassB(ps: seq<Profile>, groupsBefore: Groups, merged: seq<nat>, env: Env, ghost scope: set<nat>)
    returns (deduped: seq<nat>)
    requires Separate(ps) && Refer(merged, Views(ps)) && ReferIn(groupsBefore, Views(ps)) && GroupsWithin(groupsBefore, scope)
    modifies ps
    ensures (Views(ps), deduped) == PassB(old(Views(ps)), {}, groupsBefore, merged, [], env)
  {
    hide LedGroup, SessionPid, Sort;
    var consumed: set<string>, groups := {}, groupsBefore;
    deduped := [];
    ghost var was := Views(ps);
    assert merged[0..] == merged;
    for i := 0 to |merged|
      invariant Refer(deduped, Views(ps)) && ReferIn(groups, Views(ps)) && GroupsWithin(groups, scope)
      invariant PassB(Views(ps), consumed, groups, merged[i..], deduped, env) == PassB(was, {}, groupsBefore, merged, [], env)
    {
      var p := merged[i];
      assert merged[i..] == [p] + merged[i + 1..];
      var id := ps[p].sessionId;
      if id in consumed {
        continue;
      }
      var pid := SessionPid(ps[p].View(), env);
      if pid.Some? {
        var key := (ps[p].tool, pid.value);
        if |GroupOf(groups, key)| > 1 {
          var group := Sort(Views(ps), groups[key]);
          RegroupedWithin(groups, scope, key, group);
          groups := groups[key := group];
          if id == ps[group[0]].sessionId {
            consumed := RunGroup(ps, consumed, group, env);
            deduped := deduped + [group[0]];
            continue;
          }
        }
      }
      deduped := deduped + [p];
      consumed := consumed + {id};
    }
    assert merged[|merged|..] == [];
  }

  /** `_merge_session_profiles`: the profiles returned, some of them changed. */
  method MergeSessionProfiles(ps: seq<Profile>, env: Env) returns (out: seq<Profile>)
    requires Separate(ps) && DistinctIds(Views(ps))
    modifies ps
    ensures var (s', refs) := MergeProfiles(old(Views(ps)), env);
            Views(ps) == s' && |out| == |refs| && forall k :: 0 <= k < |refs| ==> out[k] == ps[refs[k]]
  {
    hide Pass0, PassA, PassB, Sort, Known, SumAlive, Ids;
    ghost var s := Views(ps);
    var refs := Sort(Views(ps), Everyone(|ps|));
    EveryoneIs(s);
    Reordered(Everyone(|s|), refs);
    Pass0Unique(s, refs, env);
    refs := RunPass0(ps, refs, env);
    AfterPassAKeeps(s, env);
    refs := RunPassA(ps, refs, env);
    var groups := GroupByPid(ps, refs, env);
    GroupedWithin(Views(ps), refs, env);
    refs := RunPassB(ps, groups, refs, env, Elems(refs));
    out := [];
    for i := 0 to |refs|
      invariant |out| == i && forall k :: 0 <= k < i ==> out[k] == ps[refs[k]]
    {
      out := out + [ps[refs[i]]];
    }
  }

  /** Pass 0 keeps the list free of duplicates. */
  lemma Pass0Unique(s: Store, refs: seq<nat>, env: Env)
    requires DistinctIds(s) && refs == Sort(s, Everyone(|s|))
    ensures NoDup(Pass0(s, map[], refs, [], env).1)
  {
    hide Known, SumAlive, Ids, Sort;
    EveryoneIs(s);
    Reordered(Everyone(|s|), refs);
    NoElems();
    assert Elems([]) + Elems(refs) == Whole(s);
    Pass0Keeps(s, map[], refs, [], env);
  }
}
