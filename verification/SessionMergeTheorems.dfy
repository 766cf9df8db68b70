/** The promises of the three passes together. */
module SessionMergeTheorems {
  import opened Options
  import opened SessionMerge
  import opened SessionMergeKept

  // ----- Lists without duplicates -----

  lemma ElemsOfRest(refs: seq<nat>)
    requires refs != [] && NoDup(refs)
    ensures Elems(refs) == {refs[0]} + Elems(refs[1..]) && NoDup(refs[1..]) && refs[0] !in Elems(refs[1..])
  {
    assert refs == [refs[0]] + refs[1..];
  }

  lemma ElemsSnoc(refs: seq<nat>, r: nat)
    requires NoDup(refs) && r !in Elems(refs)
    ensures Elems(refs + [r]) == Elems(refs) + {r} && NoDup(refs + [r])
  {
  }

  lemma CountsAreOne(refs: seq<nat>, x: nat)
    requires NoDup(refs)
    ensures multiset(refs)[x] <= 1
  {
    if x in refs {
      var i :| 0 <= i < |refs| && refs[i] == x;
      assert refs == refs[..i] + [x] + refs[i + 1..];
      assert x !in refs[..i] && x !in refs[i + 1..];
    }
  }

  lemma TwiceIsTwo(refs: seq<nat>, i: nat, j: nat)
    requires i < j < |refs| && refs[i] == refs[j]
    ensures multiset(refs)[refs[i]] >= 2
  {
    assert refs == refs[..j] + [refs[j]] + refs[j + 1..];
    assert refs[i] in refs[..j];
  }

  lemma Reordered(a: seq<nat>, b: seq<nat>)
    requires multiset(a) == multiset(b) && NoDup(a)
    ensures NoDup(b) && Elems(b) == Elems(a) && |b| == |a|
  {
    forall i, j | 0 <= i < j < |b|
      ensures b[i] != b[j]
    {
      if b[i] == b[j] {
        TwiceIsTwo(b, i, j);
        CountsAreOne(a, b[i]);
      }
    }
    assert forall x :: x in a <==> x in multiset(a);
    assert forall x :: x in b <==> x in multiset(b);
    assert |a| == |multiset(a)| && |b| == |multiset(b)|;
  }

  function Whole(s: Store): set<nat> { Elems(Everyone(|s|)) }

  lemma EveryoneIs(s: Store)
    ensures NoDup(Everyone(|s|)) && Refer(Everyone(|s|), s)
    ensures forall i :: i in Whole(s) <==> 0 <= i < |s|
  {
    forall i | 0 <= i < |s|
      ensures i in Everyone(|s|)
    {
      assert Everyone(|s|)[i] == i;
    }
  }

  // ----- The order of the list -----

  predicate ByStart(s: Store, refs: seq<nat>)
    requires Refer(refs, s)
  {
    forall i, j :: 0 <= i < j < |refs| ==> s[refs[i]].startedAt <= s[refs[j]].startedAt
  }

  lemma {:induction false} InsertSorts(s: Store, sorted: seq<nat>, r: nat)
    requires r < |s| && Refer(sorted, s) && ByStart(s, sorted)
    ensures ByStart(s, Insert(s, sorted, r))
  {
    var last := |sorted| - 1;
    if sorted != [] && s[sorted[last]].startedAt > s[r].startedAt {
      var front := sorted[..last];
      InsertSorts(s, front, r);
      var out := Insert(s, front, r);
      forall k | 0 <= k < |out|
        ensures s[out[k]].startedAt <= s[sorted[last]].startedAt
      {
        assert out[k] in multiset(out);
        assert out[k] == r || out[k] in front;
      }
    }
  }

  /** The list the passes go through is ordered by start time, and is a rearrangement of what came in. */
  lemma {:induction false} SortSorts(s: Store, refs: seq<nat>)
    requires Refer(refs, s)
    ensures ByStart(s, Sort(s, refs)) && multiset(Sort(s, refs)) == multiset(refs)
  {
    if refs != [] {
      SortSorts(s, refs[..|refs| - 1]);
      InsertSorts(s, Sort(s, refs[..|refs| - 1]), refs[|refs| - 1]);
    }
  }

  // ----- UUIDs -----

  /** A profile with a UUID among its ids leads with it. */
  predicate Leads(f: Facts, env: Env) {
    forall id :: id in Ids(f) && env.uuid(id).Some? ==> env.uuid(f.sessionId).Some?
  }

  /** All its UUIDs are one, and it leads with it. */
  predicate OneUuid(f: Facts, env: Env) {
    forall id :: id in Ids(f) && env.uuid(id).Some? ==> env.uuid(id) == env.uuid(f.sessionId)
  }

  predicate UuidsLead(s: Store, alive: set<nat>, env: Env) {
    Inside(s, alive) && forall i :: i in alive ==> Leads(s[i], env)
  }

  predicate UuidsApart(s: Store, alive: set<nat>, env: Env) {
    && Inside(s, alive)
    && (forall i :: i in alive ==> OneUuid(s[i], env))
    && forall i, j :: i in alive && j in alive && i != j && env.uuid(s[i].sessionId).Some? ==>
         env.uuid(s[i].sessionId) != env.uuid(s[j].sessionId)
  }

  /** The primary id after a merge is one of the ids, and has a UUID when one of them has. */
  lemma IdentityLeads(k: Facts, a: Facts, env: Env)
    requires k.sessionId != ""
    ensures var f := IdentityMerged(k, a, env);
            && f.sessionId in Ids(k) + Ids(a)
            && ((exists id :: id in Ids(k) + Ids(a) && env.uuid(id).Some?) && |Union([], AllIds(k) + AllIds(a))| > 1 ==>
                  env.uuid(f.sessionId).Some?)
            && (|Union([], AllIds(k) + AllIds(a))| <= 1 || env.uuid(k.sessionId).Some? ==> f.sessionId == k.sessionId)
  {
    hide Without, KeptPid, Canonical;
    var ids := Union([], AllIds(k) + AllIds(a));
    OwnId(k);
    FirstIsOwn(k, a);
    CanonicalIsOne(ids, env);
    CanonicalFirst(ids, env);
    forall id | id in Ids(k) + Ids(a)
      ensures exists i :: 0 <= i < |ids| && ids[i] == id
    {
      assert id in ids;
    }
  }

  lemma CanonicalFirst(ids: seq<string>, env: Env)
    requires ids != []
    ensures env.uuid(ids[0]).Some? ==> Canonical(ids, env) == ids[0]
  {
  }

  lemma FirstIsOwn(k: Facts, a: Facts)
    requires k.sessionId != ""
    ensures var ids := Union([], AllIds(k) + AllIds(a)); ids != [] && ids[0] == k.sessionId
  {
    var all := AllIds(k) + AllIds(a);
    assert AllIds(k)[0] == k.sessionId;
    assert all != [] && all[0] == k.sessionId;
    assert [] + [all[0]] == [all[0]];
    assert [all[0]] <= Union([all[0]], all[1..]);
  }

  lemma OnlyOneId(k: Facts, a: Facts)
    requires k.sessionId != "" && |Union([], AllIds(k) + AllIds(a))| <= 1
    ensures forall id :: id in Ids(k) + Ids(a) ==> id == k.sessionId
  {
    FirstIsOwn(k, a);
    OwnId(k);
    forall id | id in Ids(k) + Ids(a)
      ensures id == k.sessionId
    {
      if id != k.sessionId {
        ManyIds(Union([], AllIds(k) + AllIds(a)), id, k.sessionId);
      }
    }
  }

  lemma IdentityUuid(k: Facts, a: Facts, env: Env)
    requires k.sessionId != "" && a.sessionId != ""
    ensures Leads(IdentityMerged(k, a, env), env)
    ensures OneUuid(k, env) && OneUuid(a, env)
            && (env.uuid(k.sessionId).Some? && env.uuid(a.sessionId).Some? ==> env.uuid(k.sessionId) == env.uuid(a.sessionId)) ==>
              var f := IdentityMerged(k, a, env);
              OneUuid(f, env)
              && env.uuid(f.sessionId) == if env.uuid(k.sessionId).Some? then env.uuid(k.sessionId) else env.uuid(a.sessionId)
  {
    hide Ids, IdentityMerged, Union, AllIds;
    IdentityIds(k, a, env);
    IdentityLeads(k, a, env);
    OwnId(k);
    OwnId(a);
    if |Union([], AllIds(k) + AllIds(a))| <= 1 {
      OnlyOneId(k, a);
    }
  }

  /** A merge of two profiles that do not carry different UUIDs. */
  lemma FoldUuids(s: Store, alive: set<nat>, a: nat, b: nat, f: Facts, env: Env)
    requires UuidsApart(s, alive, env) && a in alive && b in alive && a != b && OneUuid(f, env)
    requires env.uuid(f.sessionId)
             == if env.uuid(s[a].sessionId).Some? then env.uuid(s[a].sessionId) else env.uuid(s[b].sessionId)
    ensures UuidsApart(s[a := f], alive - {b}, env)
  {
    hide OneUuid;
  }

  lemma JoinedUuid(a: Facts, b: Facts, env: Env)
    requires a.sessionId != "" && b.sessionId != "" && OneUuid(a, env) && OneUuid(b, env)
    requires env.uuid(a.sessionId).Some? && env.uuid(b.sessionId).Some? ==> env.uuid(a.sessionId) == env.uuid(b.sessionId)
    ensures var f := Joined(a, b, env);
            OneUuid(f, env)
            && env.uuid(f.sessionId) == if env.uuid(a.sessionId).Some? then env.uuid(a.sessionId) else env.uuid(b.sessionId)
  {
    hide Ids, IdentityMerged, StatsMerged, OneUuid;
    StatsKeepIds(a, b);
    SameIdsSameUuid(a, StatsMerged(a, b), env);
    IdentityUuid(StatsMerged(a, b), b, env);
  }

  lemma SameIdsSameUuid(a: Facts, b: Facts, env: Env)
    requires Ids(a) == Ids(b) && a.sessionId == b.sessionId
    ensures OneUuid(a, env) <==> OneUuid(b, env)
    ensures Leads(a, env) <==> Leads(b, env)
  {
  }

  lemma JoinedUuids(s: Store, alive: set<nat>, p: nat, q: nat, a: nat, b: nat, env: Env)
    requires Apart(s, alive) && p in alive && q in alive && p != q && ((a == p && b == q) || (a == q && b == p))
    requires !PassesOver(s[p], s[q], env)
    ensures UuidsApart(s, alive, env) ==> UuidsApart(s[a := Joined(s[a], s[b], env)], alive - {b}, env)
  {
    hide Ids, Joined, OneUuid, LookDuplicate, SessionPid;
    if UuidsApart(s, alive, env) {
      JoinedUuid(s[a], s[b], env);
      FoldUuids(s, alive, a, b, Joined(s[a], s[b], env), env);
    }
  }

  lemma EndJoinedLeads(s: Store, alive: set<nat>, c: nat, q: nat, env: Env)
    requires Apart(s, alive) && c in alive && q in alive && c != q
    ensures UuidsLead(s, alive, env) ==> UuidsLead(s[c := Joined(EndMerged(s[c], s[q]), s[q], env)], alive - {q}, env)
  {
    hide Ids, IdentityMerged, StatsMerged, Leads, OneUuid;
    var e := EndMerged(s[c], s[q]);
    IdentityUuid(StatsMerged(e, s[q]), s[q], env) by { StatsKeepIds(e, s[q]); }
  }

  lemma RetimedLeads(s: Store, alive: set<nat>, a: nat, f: Facts, env: Env)
    requires a < |s| && f.sessionId == s[a].sessionId && Ids(f) == Ids(s[a])
    ensures UuidsLead(s, alive, env) ==> UuidsLead(s[a := f], alive, env)
  {
    SameIdsSameUuid(s[a], f, env);
    hide Leads;
  }

  /** The index of pass 0 finds the one profile read so far that carries a UUID. */
  predicate Indexed(s: Store, byUuid: map<string, nat>, refs: seq<nat>, out: seq<nat>, env: Env) {
    && Refer(refs, s) && Refer(out, s)
    && (forall k :: 0 <= k < |refs| ==> OneUuid(s[refs[k]], env))
    && (forall k :: 0 <= k < |out| ==> OneUuid(s[out[k]], env))
    && (forall k :: 0 <= k < |out| && env.uuid(s[out[k]].sessionId).Some? ==>
          var u := env.uuid(s[out[k]].sessionId).value; u in byUuid && byUuid[u] == out[k])
    && (forall u :: u in byUuid ==> byUuid[u] < |s| && env.uuid(s[byUuid[u]].sessionId) == Some(u))
  }

  lemma AllIndexed(s: Store, byUuid: map<string, nat>, out: seq<nat>, env: Env)
    ensures Indexed(s, byUuid, [], out, env) ==> UuidsApart(s, Elems(out), env)
  {
    hide OneUuid;
  }

  lemma AbsorbedUuid(c: Facts, p: Facts, env: Env)
    requires c.sessionId != "" && p.sessionId != "" && OneUuid(c, env) && OneUuid(p, env)
    requires env.uuid(c.sessionId).Some? && env.uuid(c.sessionId) == env.uuid(p.sessionId)
    ensures OneUuid(Absorbed(c, p, env), env) && env.uuid(Absorbed(c, p, env).sessionId) == env.uuid(c.sessionId)
  {
    hide Ids, IdentityMerged, StatsMerged, OneUuid;
    var i := IntervalMerged(c, p, env);
    TimesDoNotCount(c, i);
    SameIdsSameUuid(c, i, env);
    JoinedUuid(i, p, env);
  }

  lemma IndexStep(s: Store, byUuid: map<string, nat>, refs: seq<nat>, out: seq<nat>, env: Env)
    requires Refer(refs, s) && Refer(out, s) && refs != [] && NoDup(refs) && NoDup(out) && Elems(refs) !! Elems(out)
    requires IndexedBy(byUuid, Elems(out)) && Apart(s, Elems(out) + Elems(refs))
    requires forall u :: u in byUuid ==> byUuid[u] < |s|
    ensures var p, rest := refs[0], refs[1..];
            Indexed(s, byUuid, refs, out, env) ==>
              match SessionUuid(s[p], env)
              case None => Indexed(s, byUuid, rest, out + [p], env)
              case Some(u) =>
                if u !in byUuid then Indexed(s, byUuid[u := p], rest, out + [p], env)
                else Indexed(s[byUuid[u] := Absorbed(s[byUuid[u]], s[p], env)], byUuid, rest, out, env)
  {
    hide Ids, Absorbed, OneUuid;
    var p, rest := refs[0], refs[1..];
    ElemsOfRest(refs);
    if Indexed(s, byUuid, refs, out, env) && SessionUuid(s[p], env).Some? {
      var u := SessionUuid(s[p], env).value;
      if u in byUuid {
        var c := byUuid[u];
        assert c in Elems(out) && p in Elems(refs);
        var k :| 0 <= k < |out| && out[k] == c;
        assert s[refs[0]] == s[p];
        AbsorbedUuid(s[c], s[p], env);
        forall k | 0 <= k < |rest|
          ensures rest[k] != c
        {
          assert rest[k] in Elems(refs);
        }
      }
    }
  }

  // ----- Pass 0 -----

  predicate IndexedBy(byUuid: map<string, nat>, done: set<nat>) { forall u :: u in byUuid ==> byUuid[u] in done }

  lemma {:induction false} Pass0Keeps(s: Store, byUuid: map<string, nat>, refs: seq<nat>, out: seq<nat>, env: Env)
    requires Refer(refs, s) && Refer(out, s) && NoDup(refs) && NoDup(out) && Elems(refs) !! Elems(out)
    requires IndexedBy(byUuid, Elems(out)) && Apart(s, Elems(out) + Elems(refs))
    requires forall u :: u in byUuid ==> byUuid[u] < |s|
    ensures var (s', out') := Pass0(s, byUuid, refs, out, env);
            NoDup(out') && SameWhole(s, Elems(out) + Elems(refs), s', Elems(out')) && Apart(s', Elems(out'))
            && (Indexed(s, byUuid, refs, out, env) ==> UuidsApart(s', Elems(out'), env))
    decreases |refs|
  {
    hide Known, SumAlive, Ids, SameWhole, Apart, Absorbed, Indexed, UuidsApart;
    var alive := Elems(out) + Elems(refs);
    if refs == [] {
      assert Elems(refs) == {};
      assert alive == Elems(out);
      Nothing(s, alive);
      AllIndexed(s, byUuid, out, env);
    } else {
      var p, rest := refs[0], refs[1..];
      ElemsOfRest(refs);
      ElemsSnoc(out, p);
      assert Elems(out + [p]) + Elems(rest) == alive;
      IndexStep(s, byUuid, refs, out, env);
      var u := SessionUuid(s[p], env);
      if u.None? {
        Pass0Keeps(s, byUuid, rest, out + [p], env);
      } else if u.value !in byUuid {
        Pass0Keeps(s, byUuid[u.value := p], rest, out + [p], env);
      } else {
        var c := byUuid[u.value];
        AliveHasId(s, alive, c);
        AbsorbedFolds(s[c], s[p], env);
        FoldKeeps(s, alive, c, p, Absorbed(s[c], s[p], env));
        var s1 := s[c := Absorbed(s[c], s[p], env)];
        assert alive - {p} == Elems(out) + Elems(rest);
        Pass0Keeps(s1, byUuid, rest, out, env);
        var (s', out') := Pass0(s, byUuid, refs, out, env);
        SameTrans(s, alive, s1, alive - {p}, s', Elems(out'));
      }
    }
  }

  lemma Nothing(s: Store, alive: set<nat>)
    ensures SameWhole(s, alive, s, alive)
  {
  }

  lemma AliveHasId(s: Store, alive: set<nat>, i: nat)
    requires Apart(s, alive) && i in alive
    ensures i < |s| && s[i].sessionId != ""
  {
  }

  // ----- Pass A -----

  lemma {:induction false} InnerAKeeps(s: Store, used: set<string>, p: nat, rest: seq<nat>, env: Env,
      scope: set<nat>, alive: set<nat>, done: set<nat>) returns (alive': set<nat>)
    requires p < |s| && Refer(rest, s) && NoDup(rest) && Elems(rest) <= scope && p !in Elems(rest)
    requires p in alive && p !in done && Apart(s, alive) && Marked(s, scope, alive, done + {p}, done, used)
    ensures var (s', used', p') := InnerA(s, used, p, rest, env);
            && SameWhole(s, alive, s', alive') && Apart(s', alive')
            && p' in alive' && p' !in done && (p in alive' ==> p' == p)
            && Marked(s', scope, alive', done + {p'}, done, used')
            && (UuidsApart(s, alive, env) ==> UuidsApart(s', alive', env))
    decreases |rest|
  {
    hide Known, SumAlive, Ids, SameWhole, Apart, Marked, Joined, PassesOver, UuidsApart;
    if rest == [] {
      alive' := alive;
      Nothing(s, alive);
    } else {
      var q, more := rest[0], rest[1..];
      ElemsOfRest(rest);
      if s[q].sessionId in used || s[q].tool != s[p].tool {
        alive' := InnerAKeeps(s, used, p, more, env, scope, alive, done);
      } else if Abs(s[q].startedAt - s[p].startedAt) > 60.0 {
        alive' := alive;
        Nothing(s, alive);
      } else if PassesOver(s[p], s[q], env) {
        alive' := InnerAKeeps(s, used, p, more, env, scope, alive, done);
      } else {
        var a, b := if Swaps(s[p], s[q]) then q else p, if Swaps(s[p], s[q]) then p else q;
        UnmarkedIsFresh(s, scope, alive, done + {p}, done, used, q);
        AliveHasId(s, alive, a);
        var f := Joined(s[a], s[b], env);
        JoinedFolds(s[a], s[b], env);
        MergeMarks(s, scope, alive, done, used, p, a, b, f);
        JoinedUuids(s, alive, p, q, a, b, env);
        alive' := InnerAKeeps(s[a := f], used + {s[b].sessionId}, a, more, env, scope, alive - {b}, done);
        SameTrans(s, alive, s[a := f], alive - {b}, InnerA(s, used, p, rest, env).0, alive');
        assert alive' <= alive - {b} by { SameShrinks(s[a := f], alive - {b}, InnerA(s, used, p, rest, env).0, alive'); }
      }
    }
  }

  lemma SameShrinks(s: Store, alive: set<nat>, s': Store, alive': set<nat>)
    requires SameWhole(s, alive, s', alive')
    ensures alive' <= alive && |s'| == |s|
  {
  }

  /** A profile that a loop has finished with covers its own id. */
  lemma FinishMarks(s: Store, scope: set<nat>, alive: set<nat>, done: set<nat>, used: set<string>, p: nat)
    requires Marked(s, scope, alive, done + {p}, done, used) && Apart(s, alive) && p in alive
    ensures Marked(s, scope, alive, done + {p}, done + {p}, used + {s[p].sessionId})
  {
    hide Ids;
    OwnId(s[p]);
    assert KnownIn(s, p, s[p].sessionId);
  }

  lemma Covers(s: Store, scope: set<nat>, alive: set<nat>, done: set<nat>, used: set<string>, p: nat)
    requires Marked(s, scope, alive, done, done, used) && p in alive
    ensures Marked(s, scope, alive, done + {p}, done, used)
  {
    hide KnownIn;
  }

  lemma MarkedInside(s: Store, scope: set<nat>, alive: set<nat>, cover: set<nat>, done: set<nat>, used: set<string>)
    requires Marked(s, scope, alive, cover, done, used)
    ensures done <= cover <= alive <= scope && Inside(s, scope)
  {
  }

  lemma {:induction false} PassAKeeps(s: Store, used: set<string>, refs: seq<nat>, out: seq<nat>, env: Env,
      scope: set<nat>, alive: set<nat>)
    requires Refer(refs, s) && Refer(out, s) && NoDup(refs) && NoDup(out)
    requires Elems(refs) <= scope && alive <= Elems(out) + Elems(refs)
    requires Apart(s, alive) && Marked(s, scope, alive, Elems(out), Elems(out), used)
    ensures var (s', out') := PassA(s, used, refs, out, env);
            NoDup(out') && SameWhole(s, alive, s', Elems(out')) && Apart(s', Elems(out'))
            && (UuidsApart(s, alive, env) ==> UuidsApart(s', Elems(out'), env))
    decreases |refs|
  {
    hide Known, SumAlive, Ids, SameWhole, Apart, Marked, InnerA, UuidsApart;
    MarkedInside(s, scope, alive, Elems(out), Elems(out), used);
    if refs == [] {
      assert Elems(refs) == {};
      assert alive == Elems(out);
      Nothing(s, alive);
    } else {
      var p, rest := refs[0], refs[1..];
      ElemsOfRest(refs);
      if s[p].sessionId in used {
        MarkedIsGone(s, scope, alive, Elems(out), Elems(out), used, p);
        PassAKeeps(s, used, rest, out, env, scope, alive);
      } else {
        UnmarkedIsFresh(s, scope, alive, Elems(out), Elems(out), used, p);
        Covers(s, scope, alive, Elems(out), used, p);
        var alive1 := InnerAKeeps(s, used, p, rest, env, scope, alive, Elems(out));
        var (s1, used1, p1) := InnerA(s, used, p, rest, env);
        SameShrinks(s, alive, s1, alive1);
        FinishMarks(s1, scope, alive1, Elems(out), used1, p1);
        ElemsSnoc(out, p1);
        PassAKeeps(s1, used1 + {s1[p1].sessionId}, rest, out + [p1], env, scope, alive1);
        var (s', out') := PassA(s, used, refs, out, env);
        SameTrans(s, alive, s1, alive1, s', Elems(out'));
      }
    }
  }

  lemma StartMarks(s: Store, refs: seq<nat>)
    requires Refer(refs, s)
    ensures Marked(s, Elems(refs), Elems(refs), Elems([]), Elems([]), {})
  {
  }

  // ----- Pass B -----

  lemma {:induction false} InnerBKeeps(s: Store, consumed: set<string>, c: nat, rest: seq<nat>, env: Env,
      scope: set<nat>, alive: set<nat>, done: set<nat>) returns (alive': set<nat>)
    requires c < |s| && Refer(rest, s) && NoDup(rest) && Elems(rest) <= scope && c !in Elems(rest)
    requires c in alive && c !in done && Apart(s, alive) && Marked(s, scope, alive, done + {c}, done, consumed)
    ensures var (s', consumed') := InnerB(s, consumed, c, rest, env);
            && SameWhole(s, alive, s', alive') && Apart(s', alive')
            && c in alive' && Marked(s', scope, alive', done + {c}, done, consumed')
            && (UuidsLead(s, alive, env) ==> UuidsLead(s', alive', env))
    decreases |rest|
  {
    hide UuidsLead, Known, SumAlive, Ids, SameWhole, Apart, Marked, Joined, TooLate, EndMerged;
    if rest == [] {
      alive' := alive;
      Nothing(s, alive);
    } else {
      var q, more := rest[0], rest[1..];
      ElemsOfRest(rest);
      if s[q].sessionId in consumed || TooLate(s[c], s[q]) {
        alive' := InnerBKeeps(s, consumed, c, more, env, scope, alive, done);
      } else {
        UnmarkedIsFresh(s, scope, alive, done + {c}, done, consumed, q);
        AliveHasId(s, alive, c);
        var f := Joined(EndMerged(s[c], s[q]), s[q], env);
        EndJoinedFolds(s[c], s[q], env);
        MergeMarks(s, scope, alive, done, consumed, c, c, q, f);
        EndJoinedLeads(s, alive, c, q, env);
        alive' := InnerBKeeps(s[c := f], consumed + {s[q].sessionId}, c, more, env, scope, alive - {q}, done);
        SameTrans(s, alive, s[c := f], alive - {q}, InnerB(s, consumed, c, rest, env).0, alive');
      }
    }
  }

  lemma RetimedMarks(s: Store, scope: set<nat>, alive: set<nat>, cover: set<nat>, done: set<nat>, used: set<string>, c: nat, f: Facts)
    requires Marked(s, scope, alive, cover, done, used) && c in alive && c < |s| && f.sessionId == s[c].sessionId && Ids(f) == Ids(s[c])
    ensures Marked(s[c := f], scope, alive, cover, done, used)
  {
    hide Ids;
    forall id | id in used
      ensures Known(s[c := f], cover, id)
    {
      var i :| i in cover && KnownIn(s, i, id);
      assert KnownIn(s[c := f], i, id);
    }
  }

  /** The groups list profiles of this pass, none twice. */
  predicate GroupsWithin(groups: Groups, scope: set<nat>) {
    forall key :: key in groups ==> NoDup(groups[key]) && Elems(groups[key]) <= scope
  }

  lemma {:induction false} GroupedWithin(s: Store, refs: seq<nat>, env: Env)
    requires Refer(refs, s) && NoDup(refs)
    ensures GroupsWithin(Grouped(s, refs, env), Elems(refs))
  {
    hide SessionPid;
    if refs != [] {
      var front, last := refs[..|refs| - 1], refs[|refs| - 1];
      assert refs == front + [last];
      GroupedWithin(s, front, env);
      var before := Grouped(s, front, env);
      assert last !in Elems(front);
      forall key | key in before
        ensures NoDup(before[key] + [last]) && Elems(before[key] + [last]) <= Elems(refs)
      {
        ElemsSnoc(before[key], last);
      }
    }
  }

  /** Two profiles with the same primary id are one. */
  lemma SameIdIsSame(s: Store, alive: set<nat>, a: nat, b: nat)
    requires Apart(s, alive) && a in alive && b in alive && s[a].sessionId == s[b].sessionId
    ensures a == b
  {
    hide Ids;
    OwnId(s[a]);
    OwnId(s[b]);
  }

  lemma RegroupedWithin(groups: Groups, scope: set<nat>, key: (string, string), group: seq<nat>)
    requires GroupsWithin(groups, scope) && key in groups && multiset(group) == multiset(groups[key])
    ensures GroupsWithin(groups[key := group], scope) && NoDup(group) && Elems(group) <= scope && |group| == |groups[key]|
  {
    Reordered(groups[key], group);
  }

  /** The loop over one group: the canonical profile is the one at hand. */
  lemma GroupKeeps(s: Store, consumed: set<string>, group: seq<nat>, p: nat, env: Env,
      scope: set<nat>, alive: set<nat>, done: set<nat>) returns (alive': set<nat>)
    requires Refer(group, s) && group != [] && NoDup(group) && Elems(group) <= scope && p in scope && Inside(s, scope)
    requires Apart(s, alive) && Marked(s, scope, alive, done, done, consumed)
    requires s[p].sessionId !in consumed && s[p].sessionId == s[group[0]].sessionId
    ensures p == group[0] && p in alive && p !in done
    ensures var (s2, consumed2) := LedGroup(s, consumed, group, env);
            && SameWhole(s, alive, s2, alive') && Apart(s2, alive') && p in alive'
            && Marked(s2, scope, alive', done + {p}, done + {p}, consumed2)
            && (UuidsLead(s, alive, env) ==> UuidsLead(s2, alive', env))
  {
    hide UuidsLead, Known, SumAlive, Ids, SameWhole, Apart, Marked, InnerB;
    ElemsOfRest(group);
    UnmarkedIsFresh(s, scope, alive, done, done, consumed, p);
    UnmarkedIsFresh(s, scope, alive, done, done, consumed, group[0]);
    SameIdIsSame(s, alive, p, group[0]);
    Covers(s, scope, alive, done, consumed, p);
    alive' := InnerBKeeps(s, consumed, p, group[1..], env, scope, alive, done);
    var (s1, consumed1) := InnerB(s, consumed, p, group[1..], env);
    var f := DurationSet(s1[p], env);
    RetimedKeeps(s1, alive', p, f);
    RetimedMarks(s1, scope, alive', done + {p}, done, consumed1, p, f);
    RetimedLeads(s1, alive', p, f, env);
    FinishMarks(s1[p := f], scope, alive', done, consumed1, p);
    SameTrans(s, alive, s1, alive', s1[p := f], alive');
  }

  lemma {:induction false} PassBKeeps(s: Store, consumed: set<string>, groups: Groups, refs: seq<nat>, out: seq<nat>, env: Env,
      scope: set<nat>, alive: set<nat>)
    requires Refer(refs, s) && Refer(out, s) && ReferIn(groups, s) && NoDup(refs) && NoDup(out) && GroupsWithin(groups, scope)
    requires Elems(refs) <= scope && alive <= Elems(out) + Elems(refs)
    requires Apart(s, alive) && Marked(s, scope, alive, Elems(out), Elems(out), consumed)
    ensures var (s', out') := PassB(s, consumed, groups, refs, out, env);
            NoDup(out') && SameWhole(s, alive, s', Elems(out')) && Apart(s', Elems(out'))
            && (UuidsLead(s, alive, env) ==> UuidsLead(s', Elems(out'), env))
    decreases |refs|
  {
    hide UuidsLead, Known, SumAlive, Ids, SameWhole, Apart, Marked, LedGroup, SessionPid, GroupsWithin, Sort;
    MarkedInside(s, scope, alive, Elems(out), Elems(out), consumed);
    if refs == [] {
      assert Elems(refs) == {};
      assert alive == Elems(out);
      Nothing(s, alive);
    } else {
      var p, rest := refs[0], refs[1..];
      var id, pid := s[p].sessionId, SessionPid(s[p], env);
      ElemsOfRest(refs);
      if id in consumed {
        MarkedIsGone(s, scope, alive, Elems(out), Elems(out), consumed, p);
        PassBKeeps(s, consumed, groups, rest, out, env, scope, alive);
      } else {
        UnmarkedIsFresh(s, scope, alive, Elems(out), Elems(out), consumed, p);
        Covers(s, scope, alive, Elems(out), consumed, p);
        FinishMarks(s, scope, alive, Elems(out), consumed, p);
        ElemsSnoc(out, p);
        if pid.None? || |GroupOf(groups, (s[p].tool, pid.value))| <= 1 {
          PassBKeeps(s, consumed + {id}, groups, rest, out + [p], env, scope, alive);
        } else {
          var key := (s[p].tool, pid.value);
          var group := Sort(s, groups[key]);
          RegroupedWithin(groups, scope, key, group);
          if id != s[group[0]].sessionId {
            PassBKeeps(s, consumed + {id}, groups[key := group], rest, out + [p], env, scope, alive);
          } else {
            var alive1 := GroupKeeps(s, consumed, group, p, env, scope, alive, Elems(out));
            var (s2, consumed2) := LedGroup(s, consumed, group, env);
            SameShrinks(s, alive, s2, alive1);
            PassBKeeps(s2, consumed2, groups[key := group], rest, out + [p], env, scope, alive1);
            var (s', out') := PassB(s, consumed, groups, refs, out, env);
            SameTrans(s, alive, s2, alive1, s', Elems(out'));
          }
        }
      }
    }
  }

  // ----- The theorems -----

  /** What the queries hand in: every profile has an id, and no two share one. */
  predicate DistinctIds(s: Store) {
    && (forall i :: 0 <= i < |s| ==> s[i].sessionId != "")
    && forall i, j :: 0 <= i < j < |s| ==> Ids(s[i]) !! Ids(s[j])
  }

  /** How many of the listed profiles answer to `id`. */
  function Answering(s: Store, refs: seq<nat>, id: string): nat
    requires Refer(refs, s)
  {
    if refs == [] then 0
    else Answering(s, refs[..|refs| - 1], id) + if id in Ids(s[refs[|refs| - 1]]) then 1 else 0
  }

  lemma {:induction false} AnsweringIs(s: Store, refs: seq<nat>, id: string)
    requires Refer(refs, s) && NoDup(refs) && Apart(s, Elems(refs))
    ensures Answering(s, refs, id) == if Known(s, Elems(refs), id) then 1 else 0
  {
    hide Ids;
    if refs != [] {
      var front, r := refs[..|refs| - 1], refs[|refs| - 1];
      assert refs == front + [r];
      assert Elems(refs) == Elems(front) + {r};
      assert r !in Elems(front);
      AnsweringIs(s, front, id);
      if id in Ids(s[r]) {
        assert KnownIn(s, r, id);
        assert !Known(s, Elems(front), id);
      }
      if Known(s, Elems(front), id) {
        var i :| i in Elems(front) && KnownIn(s, i, id);
        assert i in Elems(refs);
      }
    }
  }

  /** Profiles as they are read: each with the UUIDs of one session. */
  predicate SingleUuids(s: Store, env: Env) { forall i :: 0 <= i < |s| ==> OneUuid(s[i], env) }

  lemma StartIndexed(s: Store, refs: seq<nat>, env: Env)
    requires Refer(refs, s)
    ensures SingleUuids(s, env) ==> Indexed(s, map[], refs, [], env)
  {
    hide OneUuid;
  }

  lemma AfterPassAKeeps(s: Store, env: Env)
    requires DistinctIds(s)
    ensures var (s1, out1) := AfterPassA(s, env);
            NoDup(out1) && Refer(out1, s1) && SameWhole(s, Whole(s), s1, Elems(out1)) && Apart(s1, Elems(out1))
            && (SingleUuids(s, env) ==> UuidsApart(s1, Elems(out1), env))
  {
    hide Indexed, OneUuid, UuidsApart, Known, SumAlive, Ids, SameWhole, Pass0, PassA, Marked, Sort, Elems, NoDup;
    var refs := Sort(s, Everyone(|s|));
    EveryoneIs(s);
    Reordered(Everyone(|s|), refs);
    assert Elems([]) == {} && NoDup([]) by { NoElems(); }
    assert Elems([]) + Elems(refs) == Whole(s);
    Pass0Keeps(s, map[], refs, [], env);
    assert SingleUuids(s, env) ==> Indexed(s, map[], refs, [], env) by { StartIndexed(s, refs, env); }
    var (s0, out0) := Pass0(s, map[], refs, [], env);
    StartMarks(s0, out0);
    assert Elems([]) + Elems(out0) == Elems(out0);
    PassAKeeps(s0, {}, out0, [], env, Elems(out0), Elems(out0));
    var (s1, out1) := PassA(s0, {}, out0, [], env);
    SameTrans(s, Whole(s), s0, Elems(out0), s1, Elems(out1));
  }

  lemma NoElems()
    ensures Elems([]) == {} && NoDup([])
  {
  }

  lemma MergeKeeps(s: Store, env: Env)
    requires DistinctIds(s)
    ensures var (s', out) := MergeProfiles(s, env);
            NoDup(out) && Refer(out, s') && SameWhole(s, Whole(s), s', Elems(out)) && Apart(s', Elems(out))
            && (SingleUuids(s, env) ==> UuidsLead(s', Elems(out), env))
  {
    hide SingleUuids, Known, SumAlive, Ids, SameWhole, AfterPassA, PassB, Marked, Elems, NoDup, Grouped;
    AfterPassAKeeps(s, env);
    var (s1, out1) := AfterPassA(s, env);
    var groups := Grouped(s1, out1, env);
    GroupedWithin(s1, out1, env);
    StartMarks(s1, out1);
    NoElems();
    assert Elems([]) + Elems(out1) == Elems(out1);
    PassBKeeps(s1, {}, groups, out1, [], env, Elems(out1), Elems(out1));
    assert UuidsApart(s1, Elems(out1), env) ==> UuidsLead(s1, Elems(out1), env) by { ApartLead(s1, Elems(out1), env); }
    var (s', out) := PassB(s1, {}, groups, out1, [], env);
    SameTrans(s, Whole(s), s1, Elems(out1), s', Elems(out));
  }

  /** Every id that went in answers exactly one profile that comes out, and no other id answers any. */
  lemma EveryIdStaysReachable(s: Store, env: Env, id: string)
    requires DistinctIds(s)
    ensures var (s', out) := MergeProfiles(s, env);
            && NoDup(out)
            && Answering(s', out, id) == if exists i :: 0 <= i < |s| && id in Ids(s[i]) then 1 else 0
  {
    hide SumAlive, Ids, MergeProfiles, Elems, NoDup;
    MergeKeeps(s, env);
    var (s', out) := MergeProfiles(s, env);
    AnsweringIs(s', out, id);
    assert Known(s', Elems(out), id) <==> Known(s, Whole(s), id);
    EveryoneIs(s);
    if i :| 0 <= i < |s| && id in Ids(s[i]) {
      assert i in Whole(s) && KnownIn(s, i, id);
    }
  }

  /** Files, bytes and the activity in every bucket add up to what went in. */
  lemma CountsAreConserved(s: Store, env: Env, m: Measure)
    requires DistinctIds(s)
    ensures var (s', out) := MergeProfiles(s, env);
            SumOver(s', out, m) == SumOver(s, Everyone(|s|), m)
  {
    hide SumAlive, Ids, MergeProfiles, Elems, NoDup, SumOver;
    MergeKeeps(s, env);
    var (s', out) := MergeProfiles(s, env);
    SumOverIsAlive(s', out, m);
    EveryoneIs(s);
    SumOverIsAlive(s, Everyone(|s|), m);
  }

  lemma ApartLead(s: Store, alive: set<nat>, env: Env)
    ensures UuidsApart(s, alive, env) ==> UuidsLead(s, alive, env)
  {
    hide Ids;
  }

  /**
   Up to the pass over processes, no profile mixes two UUIDs, each leads with the one it has, and no
   two profiles lead with the same.
   */
  lemma UuidsStayApart(s: Store, env: Env)
    requires DistinctIds(s) && SingleUuids(s, env)
    ensures var (s1, out1) := AfterPassA(s, env);
            && Refer(out1, s1)
            && (forall k :: 0 <= k < |out1| ==> OneUuid(s1[out1[k]], env))
            && forall k, l :: 0 <= k < l < |out1| && SessionUuid(s1[out1[k]], env).Some? ==>
                 SessionUuid(s1[out1[k]], env) != SessionUuid(s1[out1[l]], env)
  {
    hide AfterPassA, Known, SumAlive, OneUuid, Ids;
    AfterPassAKeeps(s, env);
    var (s1, out1) := AfterPassA(s, env);
    assert forall k :: 0 <= k < |out1| ==> out1[k] in Elems(out1);
  }

  lemma AloneIsSingle(s: Store, env: Env)
    requires forall i :: 0 <= i < |s| ==> s[i].altIds == []
    ensures SingleUuids(s, env)
  {
    forall i | 0 <= i < |s|
      ensures OneUuid(s[i], env)
    {
      IdsAre(s[i]);
    }
  }

  /** After the pass over processes, a profile that answers to an id with a UUID still leads with one. */
  lemma UuidsStillLead(s: Store, env: Env)
    requires DistinctIds(s) && SingleUuids(s, env)
    ensures var (s', out) := MergeProfiles(s, env);
            forall k, id :: 0 <= k < |out| && id in Ids(s'[out[k]]) && env.uuid(id).Some? ==> SessionUuid(s'[out[k]], env).Some?
  {
    hide MergeProfiles, Known, SumAlive, Ids;
    MergeKeeps(s, env);
    var (s', out) := MergeProfiles(s, env);
    forall k, id | 0 <= k < |out| && id in Ids(s'[out[k]]) && env.uuid(id).Some?
      ensures SessionUuid(s'[out[k]], env).Some?
    {
      assert out[k] in Elems(out);
      assert Leads(s'[out[k]], env);
    }
  }
}
