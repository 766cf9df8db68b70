/** No id and no count is lost in a merge, and no UUID is mixed with another before the last pass. */
module SessionMergeKept {
  import opened Options
  import opened SessionMerge

  // ----- Ids -----

  /** The ids a profile answers to. */
  function Ids(f: Facts): set<string> { set id | id in AllIds(f) }

  lemma IdsAre(f: Facts)
    ensures forall id :: id in Ids(f) <==> id != "" && (id == f.sessionId || id in f.altIds)
  {
    assert forall id :: id in [f.sessionId] + f.altIds <==> id == f.sessionId || id in f.altIds;
  }

  lemma ManyIds(ids: seq<string>, a: string, b: string)
    requires a in ids && b in ids && a != b
    ensures |ids| > 1
  {
  }

  lemma IdentityIds(k: Facts, a: Facts, env: Env)
    requires k.sessionId != ""
    ensures var f := IdentityMerged(k, a, env);
            f.sessionId != "" && Ids(f) == Ids(k) + Ids(a)
  {
    hide AllIds, Canonical, Without, KeptPid;
    var ids, f := Union([], AllIds(k) + AllIds(a)), IdentityMerged(k, a, env);
    IdsAre(k);
    IdsAre(a);
    IdsAre(f);
    assert k.sessionId in Ids(k);
    assert forall id :: id in ids <==> id in Ids(k) + Ids(a);
    if |ids| <= 1 {
      forall id | id in Ids(a)
        ensures id in Ids(k)
      {
        if id != k.sessionId {
          ManyIds(ids, id, k.sessionId);
        }
      }
    } else {
      CanonicalIsOne(ids, env);
    }
  }

  lemma CanonicalIsOne(ids: seq<string>, env: Env)
    requires ids != []
    ensures Canonical(ids, env) in ids
    ensures env.uuid(Canonical(ids, env)).Some? <==> exists i :: 0 <= i < |ids| && env.uuid(ids[i]).Some?
  {
    var c := Canonical(ids, env);
    var i :| 0 <= i < |ids| && ids[i] == c;
  }

  // ----- Counts -----

  datatype Measure = FilesModified | UniqueFiles | BytesWritten | SourceFiles | Bucket(start: int)

  function Of(f: Facts, m: Measure): int {
    match m
    case FilesModified => f.filesModified
    case UniqueFiles => f.uniqueFiles
    case BytesWritten => f.bytesWritten
    case SourceFiles => f.sourceFiles
    case Bucket(b) => CountIn(f.activity, b)
  }

  lemma StatsAdd(p: Facts, s: Facts, m: Measure)
    ensures Of(StatsMerged(p, s), m) == Of(p, m) + Of(s, m)
  {
    hide UsageMerged;
  }

  /** Counts of tokens are never added: each is one that a source gave, and of a better source all are. */
  lemma TokensAreNotAdded(p: Facts, s: Facts, key: string)
    requires key in TOKEN_KEYS
    ensures var u := StatsMerged(p, s).usage;
            && (Tokens(u, key) == Tokens(p.usage, key) || Tokens(u, key) == Tokens(s.usage, key))
            && (Rank(s.usage) > Rank(p.usage) && key in s.usage ==> Tokens(u, key) == Tokens(s.usage, key))
            && (Rank(s.usage) < Rank(p.usage) ==> Tokens(u, key) == Tokens(p.usage, key))
            && (Rank(s.usage) == Rank(p.usage) && (key in p.usage || key in s.usage) ==>
                  Tokens(u, key) >= Tokens(p.usage, key) && Tokens(u, key) >= Tokens(s.usage, key))
  {
    hide ActivityMerged, Rank;
    assert key in USAGE_KEYS by { TokenKeysAreUsage(key); }
  }

  lemma TokenKeysAreUsage(key: string)
    requires key in TOKEN_KEYS
    ensures key in USAGE_KEYS
  {
    var i :| 0 <= i < |TOKEN_KEYS| && TOKEN_KEYS[i] == key;
    assert USAGE_KEYS[i] == key;
  }

  /** Looking like a duplicate is mutual. */
  lemma DuplicatesAreMutual(a: Facts, b: Facts, env: Env)
    ensures LookDuplicate(a, b, env) <==> LookDuplicate(b, a, env)
  {
  }

  /** Profiles of different projects, or of which one is still open, never look like duplicates. */
  lemma DuplicatesShareProject(a: Facts, b: Facts, env: Env)
    requires LookDuplicate(a, b, env)
    ensures env.projectKey(a.projectPath) == env.projectKey(b.projectPath) || env.projectKey(a.projectPath) == ""
            || env.projectKey(b.projectPath) == ""
    ensures a.endedAt.Some? && b.endedAt.Some?
    ensures MinReal(a.endedAt.value, b.endedAt.value) - MaxReal(a.startedAt, b.startedAt)
            >= 0.8 * MinReal(a.endedAt.value - a.startedAt, b.endedAt.value - b.startedAt)
    ensures MinReal(a.endedAt.value - a.startedAt, b.endedAt.value - b.startedAt)
            >= 0.8 * MaxReal(a.endedAt.value - a.startedAt, b.endedAt.value - b.startedAt)
  {
    var da, db := a.endedAt.value - a.startedAt, b.endedAt.value - b.startedAt;
    var shorter, longer := MinReal(da, db), MaxReal(da, db);
    Scaled(shorter, longer);
    Scaled(MinReal(a.endedAt.value, b.endedAt.value) - MaxReal(a.startedAt, b.startedAt), shorter);
  }

  lemma Scaled(x: real, y: real)
    requires y > 0.0 && x / y >= 0.8
    ensures x >= 0.8 * y
  {
    assert x == (x / y) * y;
    var q := x / y;
    assert q * y >= 0.8 * y;
  }

  /** `f` is what becomes of `a` when `b` is folded into it. */
  ghost predicate Folded(a: Facts, b: Facts, f: Facts) {
    && f.sessionId != "" && Ids(f) == Ids(a) + Ids(b)
    && forall m: Measure :: Of(f, m) == Of(a, m) + Of(b, m)
  }

  lemma JoinedFolds(a: Facts, b: Facts, env: Env)
    requires a.sessionId != ""
    ensures Folded(a, b, Joined(a, b, env))
  {
    hide IdentityMerged, StatsMerged, AllIds;
    StatsKeepIds(a, b);
    IdentityIds(StatsMerged(a, b), b, env);
    forall m: Measure
      ensures Of(Joined(a, b, env), m) == Of(a, m) + Of(b, m)
    {
      StatsAdd(a, b, m);
      IdentityKeepsCounts(StatsMerged(a, b), b, env, m);
    }
  }

  lemma IdentityKeepsCounts(k: Facts, a: Facts, env: Env, m: Measure)
    ensures Of(IdentityMerged(k, a, env), m) == Of(k, m)
  {
    hide Canonical, Without, KeptPid, AllIds, Union;
  }

  lemma StatsKeepIds(a: Facts, b: Facts)
    ensures StatsMerged(a, b).sessionId == a.sessionId && Ids(StatsMerged(a, b)) == Ids(a)
  {
    hide UsageMerged, ActivityMerged;
  }

  /** The times of a profile are not what makes its ids or its counts. */
  predicate SameButTimes(a: Facts, b: Facts) {
    a.(startedAt := b.startedAt, endedAt := b.endedAt, duration := b.duration, active := b.active) == b
  }

  lemma TimesDoNotCount(a: Facts, b: Facts)
    requires SameButTimes(a, b)
    ensures b.sessionId == a.sessionId && Ids(b) == Ids(a) && forall m: Measure :: Of(b, m) == Of(a, m)
  {
  }

  lemma AbsorbedFolds(a: Facts, b: Facts, env: Env)
    requires a.sessionId != ""
    ensures Folded(a, b, Absorbed(a, b, env))
  {
    hide IdentityMerged, StatsMerged, AllIds;
    var c := IntervalMerged(a, b, env);
    TimesDoNotCount(a, c);
    JoinedFolds(c, b, env);
  }

  lemma EndJoinedFolds(a: Facts, b: Facts, env: Env)
    requires a.sessionId != ""
    ensures Folded(a, b, Joined(EndMerged(a, b), b, env))
  {
    hide IdentityMerged, StatsMerged, AllIds, Joined;
    TimesDoNotCount(a, EndMerged(a, b));
    JoinedFolds(EndMerged(a, b), b, env);
  }

  // ----- Sums over the profiles that are still there -----

  function SumAlive(s: Store, alive: set<nat>, m: Measure): int {
    if s == [] then 0
    else
      var last := |s| - 1;
      SumAlive(s[..last], alive, m) + if last in alive then Of(s[last], m) else 0
  }

  function SumOver(s: Store, refs: seq<nat>, m: Measure): int
    requires Refer(refs, s)
  {
    if refs == [] then 0
    else
      var last := |refs| - 1;
      SumOver(s, refs[..last], m) + Of(s[refs[last]], m)
  }

  lemma {:induction false} SumFrame(s: Store, alive: set<nat>, other: set<nat>, m: Measure)
    requires forall i :: 0 <= i < |s| ==> (i in alive <==> i in other)
    ensures SumAlive(s, alive, m) == SumAlive(s, other, m)
  {
    hide Of;
    if s != [] {
      SumFrame(s[..|s| - 1], alive, other, m);
    }
  }

  lemma {:induction false} SumUpdate(s: Store, alive: set<nat>, i: nat, f: Facts, m: Measure)
    requires i < |s| && i in alive
    ensures SumAlive(s[i := f], alive, m) == SumAlive(s, alive, m) - Of(s[i], m) + Of(f, m)
  {
    hide Of;
    var last := |s| - 1;
    if i == last {
      assert s[i := f][..last] == s[..last];
    } else {
      assert s[i := f][..last] == s[..last][i := f];
      SumUpdate(s[..last], alive, i, f, m);
    }
  }

  lemma {:induction false} SumRemove(s: Store, alive: set<nat>, i: nat, m: Measure)
    requires i < |s| && i in alive
    ensures SumAlive(s, alive - {i}, m) == SumAlive(s, alive, m) - Of(s[i], m)
  {
    hide Of;
    var last := |s| - 1;
    if i == last {
      SumFrame(s[..last], alive, alive - {i}, m);
    } else {
      SumRemove(s[..last], alive, i, m);
    }
  }

  predicate NoDup(refs: seq<nat>) { forall i, j :: 0 <= i < j < |refs| ==> refs[i] != refs[j] }

  function Elems(refs: seq<nat>): set<nat> { set r | r in refs }

  lemma {:induction false} SumNone(s: Store, m: Measure)
    ensures SumAlive(s, {}, m) == 0
  {
    if s != [] {
      SumNone(s[..|s| - 1], m);
    }
  }

  lemma {:induction false} SumOverIsAlive(s: Store, refs: seq<nat>, m: Measure)
    requires Refer(refs, s) && NoDup(refs)
    ensures SumOver(s, refs, m) == SumAlive(s, Elems(refs), m)
  {
    hide Of, SumAlive;
    if refs == [] {
      SumNone(s, m);
      assert Elems([]) == {};
    } else {
      var front, r := refs[..|refs| - 1], refs[|refs| - 1];
      SumOverIsAlive(s, front, m);
      assert Elems(refs) - {r} == Elems(front);
      SumRemove(s, Elems(refs), r, m);
    }
  }

  // ----- One merge -----

  predicate Inside(s: Store, alive: set<nat>) { forall i :: i in alive ==> i < |s| }

  /** Every profile has an id and no two share one. */
  predicate Apart(s: Store, alive: set<nat>) {
    && Inside(s, alive)
    && (forall i :: i in alive ==> s[i].sessionId != "")
    && forall i, j :: i in alive && j in alive && i != j ==> Ids(s[i]) !! Ids(s[j])
  }

  predicate KnownIn(s: Store, i: nat, id: string) { i < |s| && id in Ids(s[i]) }

  predicate Known(s: Store, alive: set<nat>, id: string) { exists i :: i in alive && KnownIn(s, i, id) }

  /** The profiles still there know the same ids and hold the same counts. */
  ghost predicate SameWhole(s: Store, alive: set<nat>, s': Store, alive': set<nat>) {
    && |s'| == |s| && alive' <= alive
    && (forall id :: Known(s', alive', id) <==> Known(s, alive, id))
    && (forall m: Measure :: SumAlive(s', alive', m) == SumAlive(s, alive, m))
  }

  lemma FoldKeeps(s: Store, alive: set<nat>, a: nat, b: nat, f: Facts)
    requires Apart(s, alive) && a in alive && b in alive && a != b && Folded(s[a], s[b], f)
    ensures SameWhole(s, alive, s[a := f], alive - {b}) && Apart(s[a := f], alive - {b})
  {
    hide Ids, Of, SumAlive;
    var s', alive' := s[a := f], alive - {b};
    forall m: Measure
      ensures SumAlive(s', alive', m) == SumAlive(s, alive, m)
    {
      SumUpdate(s, alive, a, f, m);
      SumRemove(s', alive, b, m);
    }
    forall id
      ensures Known(s', alive', id) <==> Known(s, alive, id)
    {
      if Known(s, alive, id) {
        var i :| i in alive && KnownIn(s, i, id);
        assert KnownIn(s', if i == b then a else i, id);
      }
      if Known(s', alive', id) {
        var i :| i in alive' && KnownIn(s', i, id);
        assert KnownIn(s, i, id) || (i == a && KnownIn(s, b, id));
      }
    }
  }

  /** A change of times only. */
  lemma RetimedKeeps(s: Store, alive: set<nat>, a: nat, f: Facts)
    requires Apart(s, alive) && a in alive && SameButTimes(s[a], f)
    ensures SameWhole(s, alive, s[a := f], alive) && Apart(s[a := f], alive)
    ensures f.sessionId == s[a].sessionId && Ids(f) == Ids(s[a])
  {
    hide Ids, Of, SumAlive;
    TimesDoNotCount(s[a], f);
    var s' := s[a := f];
    forall m: Measure
      ensures SumAlive(s', alive, m) == SumAlive(s, alive, m)
    {
      SumUpdate(s, alive, a, f, m);
    }
    assert forall i :: 0 <= i < |s| ==> Ids(s'[i]) == Ids(s[i]);
    assert forall i, id :: KnownIn(s', i, id) <==> KnownIn(s, i, id);
  }

  // ----- Which ids have been dealt with -----

  /**
   The ids in `used` belong to the profiles of `cover`; they include the primary id of every profile
   of the pass that was merged away, and of every one that is `done`.
   */
  predicate Marked(s: Store, scope: set<nat>, alive: set<nat>, cover: set<nat>, done: set<nat>, used: set<string>) {
    && done <= cover <= alive <= scope && Inside(s, scope)
    && (forall id :: id in used ==> Known(s, cover, id))
    && (forall i :: i in scope && i !in alive ==> s[i].sessionId in used)
    && (forall i :: i in done ==> s[i].sessionId in used)
  }

  lemma OwnId(f: Facts)
    requires f.sessionId != ""
    ensures f.sessionId in Ids(f)
  {
    IdsAre(f);
  }

  /** An unmarked profile is there, and not dealt with. */
  lemma UnmarkedIsFresh(s: Store, scope: set<nat>, alive: set<nat>, cover: set<nat>, done: set<nat>, used: set<string>, q: nat)
    requires Marked(s, scope, alive, cover, done, used) && q in scope && s[q].sessionId !in used
    ensures q in alive && q !in done
  {
    hide Known;
  }

  /** A marked profile outside the cover is gone. */
  lemma MarkedIsGone(s: Store, scope: set<nat>, alive: set<nat>, cover: set<nat>, done: set<nat>, used: set<string>, q: nat)
    requires Marked(s, scope, alive, cover, done, used) && Apart(s, alive) && q in scope && s[q].sessionId in used
    ensures q in alive ==> q in cover
  {
    hide Ids;
    if q in alive {
      OwnId(s[q]);
      var i :| i in cover && KnownIn(s, i, s[q].sessionId);
    }
  }

  /** One merge inside a loop: `b` goes, its id is marked, and `a` covers it. */
  lemma MergeMarks(s: Store, scope: set<nat>, alive: set<nat>, done: set<nat>, used: set<string>, p: nat, a: nat, b: nat, f: Facts)
    requires p in alive && p !in done && Marked(s, scope, alive, done + {p}, done, used) && Apart(s, alive)
    requires a in alive - done && b in alive - done && a != b && p in {a, b} && Folded(s[a], s[b], f)
    ensures var s', alive', used' := s[a := f], alive - {b}, used + {s[b].sessionId};
            && SameWhole(s, alive, s', alive') && Apart(s', alive')
            && a in alive' && Marked(s', scope, alive', done + {a}, done, used')
  {
    hide Ids, SumAlive;
    FoldKeeps(s, alive, a, b, f);
    var s', alive', used' := s[a := f], alive - {b}, used + {s[b].sessionId};
    forall id | id in used'
      ensures Known(s', done + {a}, id)
    {
      if id in used {
        var i :| i in done + {p} && KnownIn(s, i, id);
        assert KnownIn(s', if i == p then a else i, id);
      } else {
        OwnId(s[b]);
        assert KnownIn(s', a, id);
      }
    }
  }

  lemma SameTrans(s: Store, a: set<nat>, s1: Store, a1: set<nat>, s2: Store, a2: set<nat>)
    requires SameWhole(s, a, s1, a1) && SameWhole(s1, a1, s2, a2)
    ensures SameWhole(s, a, s2, a2)
  {
    hide Known, SumAlive;
  }
}
