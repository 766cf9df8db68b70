/** Writing the same calls again, what is left of other writers' rows, and what a flush may still add. */
module CallFactsTheorems {
  import opened Options
  import opened CallFacts
  import opened CallFactsMerge

  // ----- Dropping -----

  lemma {:induction false} DropIs(t: Table, batch: seq<Row>, sources: set<string>)
    ensures forall x :: x in Drop(t, batch, sources) <==> x in t && !Superseded(x, batch, sources)
  {
    hide Superseded;
    if t != [] {
      DropIs(t[..|t| - 1], batch, sources);
      assert t == t[..|t| - 1] + [t[|t| - 1]];
    }
  }

  lemma {:induction false} DropUnique(t: Table, batch: seq<Row>, sources: set<string>)
    requires Unique(t)
    ensures Unique(Drop(t, batch, sources))
  {
    hide Superseded;
    if t != [] {
      var front, last := t[..|t| - 1], t[|t| - 1];
      DropUnique(front, batch, sources);
      DropIs(front, batch, sources);
      var d := Drop(front, batch, sources);
      forall i | 0 <= i < |d|
        ensures d[i].key == last.key ==> last.key == ""
      {
        assert d[i] in front;
      }
    }
  }

  lemma {:induction false} NothingDropped(t: Table, batch: seq<Row>, sources: set<string>)
    requires forall i :: 0 <= i < |t| ==> !Superseded(t[i], batch, sources)
    ensures Drop(t, batch, sources) == t
  {
    hide Superseded;
    if t != [] {
      NothingDropped(t[..|t| - 1], batch, sources);
    }
  }

  // ----- Merging a batch and dropping what it covers -----

  function MergeAndDrop(t: Table, batch: seq<Row>, p: Policies, sources: set<string>): Table {
    Drop(UpsertAll(t, batch, p), batch, sources)
  }

  predicate InBatch(batch: seq<Row>, key: string) { exists i :: 0 <= i < |batch| && batch[i].key == key }

  /**
   A row of another writer that shares its key with a call of the batch, and is one the batch covers:
   the call is merged into it, and then it is dropped.
   */
  predicate Clash(t: Table, batch: seq<Row>, sources: set<string>) {
    exists i :: 0 <= i < |t| && Superseded(t[i], batch, sources) && InBatch(batch, t[i].key)
  }

  lemma TranscriptStays(x: Row, batch: seq<Row>, sources: set<string>)
    requires x.source == TRANSCRIPT && TRANSCRIPT !in sources
    ensures !Superseded(x, batch, sources)
  {
  }

  lemma SameWriter(x: Row, batch: seq<Row>, p: Policies, sources: set<string>)
    ensures Absorb(x, batch, p).key == x.key
    ensures Superseded(Absorb(x, batch, p), batch, sources) <==> Superseded(x, batch, sources)
  {
    AbsorbKeeps(x, batch, p);
  }

  lemma KeyOfMember(t: Table, x: Row)
    requires x in t
    ensures HasKey(t, x.key)
  {
    var i :| 0 <= i < |t| && t[i] == x;
    HasKeyAt(t, i);
  }

  /** What a table holds afterwards, row by row. */
  lemma WhatStays(t: Table, batch: seq<Row>, p: Policies, sources: set<string>)
    requires Unique(t) && Keyed(batch) && TRANSCRIPT !in sources
    ensures var w := MergeAndDrop(t, batch, p, sources);
            && Unique(w)
            && (forall x :: x in w ==> !Superseded(x, batch, sources))
            && (forall i :: 0 <= i < |t| && !Superseded(t[i], batch, sources) ==> Absorb(t[i], batch, p) in w)
            && (forall x :: x in w ==>
                  (x.source == TRANSCRIPT && InBatch(batch, x.key)) || exists i :: 0 <= i < |t| && x == Absorb(t[i], batch, p))
  {
    hide Absorb, Superseded, HasKey;
    var u := UpsertAll(t, batch, p);
    UpsertAllRows(t, batch, p);
    UpsertAllSettles(t, batch, p);
    DropIs(u, batch, sources);
    DropUnique(u, batch, sources);
    forall i | 0 <= i < |t| && !Superseded(t[i], batch, sources)
      ensures Absorb(t[i], batch, p) in Drop(u, batch, sources)
    {
      SameWriter(t[i], batch, p, sources);
      assert u[i] in u;
    }
    forall x | x in u
      ensures (x.source == TRANSCRIPT && InBatch(batch, x.key)) || exists i :: 0 <= i < |t| && x == Absorb(t[i], batch, p)
    {
      var k :| 0 <= k < |u| && u[k] == x;
      if k >= |t| {
        OnlyRow(u, k);
        HasKeyAt(u, k);
        if HasKey(t, x.key) {
          OldKeyIsOld(t, u, x.key, batch, p);
        }
      }
    }
  }

  lemma OldKeyIsOld(t: Table, u: Table, key: string, batch: seq<Row>, p: Policies)
    requires HasKey(t, key) && |t| <= |u| && forall i :: 0 <= i < |t| ==> u[i] == Absorb(t[i], batch, p)
    ensures Find(u, key) < |t|
  {
    AbsorbKeeps(t[Find(t, key)], batch, p);
  }

  /** Without a clash, every call of the batch keeps its row. */
  lemma NoClashKeepsAll(t: Table, batch: seq<Row>, p: Policies, sources: set<string>)
    requires Unique(t) && Keyed(batch) && TRANSCRIPT !in sources && !Clash(t, batch, sources)
    ensures HasAll(MergeAndDrop(t, batch, p, sources), batch)
  {
    hide Absorb, Superseded, HasKey;
    var u, w := UpsertAll(t, batch, p), MergeAndDrop(t, batch, p, sources);
    UpsertAllRows(t, batch, p);
    UpsertAllSettles(t, batch, p);
    DropIs(u, batch, sources);
    forall i | 0 <= i < |batch|
      ensures HasKey(w, batch[i].key)
    {
      assert HasKey(u, batch[i].key);
      var k := Find(u, batch[i].key);
      FoundAt(u, batch[i].key);
      if k < |t| {
        SameWriter(t[k], batch, p, sources);
        assert InBatch(batch, t[k].key);
      } else {
        TranscriptStays(u[k], batch, sources);
      }
      assert u[k] in w;
      KeyOfMember(w, u[k]);
    }
  }

  lemma FoundAt(t: Table, key: string)
    requires HasKey(t, key)
    ensures Find(t, key) < |t| && t[Find(t, key)].key == key
  {
  }

  lemma DropSettled(t: Table, batch: seq<Row>, p: Policies, sources: set<string>)
    requires Settled(t, batch, p)
    ensures Settled(Drop(t, batch, sources), batch, p)
  {
    hide Absorb, Superseded;
    DropIs(t, batch, sources);
    var d := Drop(t, batch, sources);
    forall i | 0 <= i < |d|
      ensures Absorb(d[i], batch, p) == d[i]
    {
      assert d[i] in t;
    }
  }

  lemma NoClashIsFixed(t: Table, batch: seq<Row>, p: Policies, sources: set<string>)
    requires Unique(t) && Keyed(batch) && TRANSCRIPT !in sources && !Clash(t, batch, sources)
    ensures var w := MergeAndDrop(t, batch, p, sources); MergeAndDrop(w, batch, p, sources) == w
  {
    hide Absorb, Superseded, HasKey, UpsertAll, Drop;
    var w := MergeAndDrop(t, batch, p, sources);
    UpsertAllSettles(t, batch, p);
    DropSettled(UpsertAll(t, batch, p), batch, p, sources);
    DropUnique(UpsertAll(t, batch, p), batch, sources);
    NoClashKeepsAll(t, batch, p, sources);
    SettledStays(w, batch, p);
    DropIs(UpsertAll(t, batch, p), batch, sources);
    NothingDropped(w, batch, sources);
  }

  /** After a clash the call has no row. */
  lemma ClashLoses(t: Table, batch: seq<Row>, p: Policies, sources: set<string>, i: nat)
    requires Unique(t) && Keyed(batch) && i < |t| && Superseded(t[i], batch, sources) && InBatch(batch, t[i].key)
    ensures !HasKey(MergeAndDrop(t, batch, p, sources), t[i].key)
  {
    hide Absorb, Superseded;
    var u, w := UpsertAll(t, batch, p), MergeAndDrop(t, batch, p, sources);
    UpsertAllRows(t, batch, p);
    UpsertAllSettles(t, batch, p);
    DropIs(u, batch, sources);
    SameWriter(t[i], batch, p, sources);
    forall x | x in w
      ensures x.key != t[i].key
    {
      var k :| 0 <= k < |u| && u[k] == x;
      assert k != i;
    }
    NoRowNoKey(w, t[i].key);
  }

  lemma NoRowNoKey(t: Table, key: string)
    requires forall x :: x in t ==> x.key != key
    ensures !HasKey(t, key)
  {
  }

  /** A call whose only rows are transcripts has a row afterwards. */
  lemma TranscriptKept(t: Table, batch: seq<Row>, p: Policies, sources: set<string>, key: string)
    requires Unique(t) && Keyed(batch) && TRANSCRIPT !in sources && InBatch(batch, key)
    requires forall i :: 0 <= i < |t| && t[i].key == key ==> t[i].source == TRANSCRIPT
    ensures HasKey(MergeAndDrop(t, batch, p, sources), key)
  {
    hide Absorb, Superseded, HasKey;
    var u, w := UpsertAll(t, batch, p), MergeAndDrop(t, batch, p, sources);
    UpsertAllRows(t, batch, p);
    UpsertAllSettles(t, batch, p);
    DropIs(u, batch, sources);
    assert HasKey(u, key);
    FoundAt(u, key);
    var k := Find(u, key);
    if k < |t| {
      AbsorbKeeps(t[k], batch, p);
    }
    TranscriptStays(u[k], batch, sources);
    assert u[k] in w;
    KeyOfMember(w, u[k]);
  }

  /** Writing twice is writing once, exactly when no call shares its key with a row that is dropped. */
  lemma MergeAndDropTwice(t: Table, batch: seq<Row>, p: Policies, sources: set<string>)
    requires Unique(t) && Keyed(batch) && TRANSCRIPT !in sources
    ensures var w := MergeAndDrop(t, batch, p, sources);
            MergeAndDrop(w, batch, p, sources) == w <==> !Clash(t, batch, sources)
  {
    hide Absorb, Superseded, HasKey, UpsertAll, Drop, InBatch;
    var w := MergeAndDrop(t, batch, p, sources);
    if !Clash(t, batch, sources) {
      NoClashIsFixed(t, batch, p, sources);
    } else {
      var i :| 0 <= i < |t| && Superseded(t[i], batch, sources) && InBatch(batch, t[i].key);
      ClashLoses(t, batch, p, sources, i);
      WhatStays(t, batch, p, sources);
      Absent(w, t[i].key);
      TranscriptKept(w, batch, p, sources, t[i].key);
    }
  }

  lemma Absent(t: Table, key: string)
    requires !HasKey(t, key)
    ensures forall i :: 0 <= i < |t| ==> t[i].key != key
  {
  }

  // ----- Promotion -----

  /** Some hook rows became transcript rows under a new key; no other row changed. */
  predicate Promoted(t: Table, u: Table) {
    && |u| == |t|
    && forall i :: 0 <= i < |t| ==> u[i] == t[i] || (t[i].source == HOOK && u[i] == t[i].(key := u[i].key, source := TRANSCRIPT))
  }

  /** Every hook row for this event stands under another key. */
  predicate Done(t: Table, session: string, event: string, key: string) {
    forall i :: 0 <= i < |t| && IsHookFor(t[i], session, event) ==> t[i].key != key
  }

  lemma PromotedTrans(t: Table, u: Table, v: Table)
    requires Promoted(t, u) && Promoted(u, v)
    ensures Promoted(t, v)
  {
  }

  lemma DoneStays(t: Table, u: Table, session: string, event: string, key: string)
    requires Promoted(t, u) && Done(t, session, event, key)
    ensures Done(u, session, event, key)
  {
    forall i | 0 <= i < |u| && IsHookFor(u[i], session, event)
      ensures u[i].key != key
    {
      assert u[i] == t[i];
    }
  }

  lemma {:induction false} PromoteFromDone(t: Table, i: nat, session: string, event: string, key: string)
    requires i <= |t| && Unique(t) && key != ""
    requires forall j :: 0 <= j < i && IsHookFor(t[j], session, event) ==> t[j].key != key
    ensures var u := PromoteFrom(t, i, session, event, key);
            Promoted(t, u) && Unique(u) && Done(u, session, event, key)
    decreases |t| - i
  {
    if i < |t| {
      var t1 := if IsHookFor(t[i], session, event) && KeyIsFree(t, i, key) then t[i := t[i].(key := key, source := TRANSCRIPT)] else t;
      PromoteFromDone(t1, i + 1, session, event, key);
      PromotedTrans(t, t1, PromoteFrom(t, i, session, event, key));
    }
  }

  lemma {:induction false} PromoteEventsDone(t: Table, session: string, keys: map<string, string>, events: seq<string>)
    requires Unique(t) && forall e :: e in keys ==> keys[e] != ""
    ensures var u := PromoteEvents(t, session, keys, events);
            && Promoted(t, u) && Unique(u)
            && forall e :: e in events && e in keys ==> Done(u, session, e, keys[e])
    decreases |events|
  {
    hide PromoteFrom, Done;
    if events == [] {
      Unpromoted(t);
    } else {
      var e := events[0];
      assert forall x :: x in events <==> x == e || x in events[1..];
      if e in keys {
        PromoteFromDone(t, 0, session, e, keys[e]);
        var t1 := PromoteFrom(t, 0, session, e, keys[e]);
        PromoteEventsDone(t1, session, keys, events[1..]);
        var u := PromoteEvents(t1, session, keys, events[1..]);
        PromotedTrans(t, t1, u);
        DoneStays(t1, u, session, e, keys[e]);
      } else {
        PromoteEventsDone(t, session, keys, events[1..]);
      }
    }
  }

  lemma Unpromoted(t: Table)
    ensures Promoted(t, t)
  {
  }

  /** No hook row of the session could still take its key. */
  predicate SessionDone(t: Table, session: string, keys: map<string, string>) {
    forall i :: 0 <= i < |t| && t[i].session == session && t[i].source == HOOK && t[i].eventId in keys ==>
      t[i].key != keys[t[i].eventId]
  }

  lemma {:induction false} HookEventsAre(t: Table, session: string)
    ensures forall i :: 0 <= i < |t| && t[i].session == session && t[i].source == HOOK && t[i].eventId != "" ==>
      t[i].eventId in HookEvents(t, session)
  {
    if t != [] {
      HookEventsAre(t[..|t| - 1], session);
    }
  }

  lemma EventsDoneIsSession(t: Table, u: Table, session: string, keys: map<string, string>)
    requires "" !in keys && Promoted(t, u)
    requires forall e :: e in HookEvents(t, session) && e in keys ==> Done(u, session, e, keys[e])
    ensures SessionDone(u, session, keys)
  {
    HookEventsAre(t, session);
    forall i | 0 <= i < |u| && u[i].session == session && u[i].source == HOOK && u[i].eventId in keys
      ensures u[i].key != keys[u[i].eventId]
    {
      assert u[i] == t[i];
      assert Done(u, session, u[i].eventId, keys[u[i].eventId]);
      assert IsHookFor(u[i], session, u[i].eventId);
    }
  }

  lemma SessionDoneStays(t: Table, u: Table, session: string, keys: map<string, string>)
    requires Promoted(t, u) && SessionDone(t, session, keys)
    ensures SessionDone(u, session, keys)
  {
    forall i | 0 <= i < |u| && u[i].session == session && u[i].source == HOOK && u[i].eventId in keys
      ensures u[i].key != keys[u[i].eventId]
    {
      assert u[i] == t[i];
    }
  }

  lemma {:induction false} KeysAreInBatch(batch: seq<Row>, session: string)
    ensures forall e :: e in KeysFor(batch, session) ==> InBatch(batch, KeysFor(batch, session)[e])
  {
    if batch != [] {
      var front, last := batch[..|batch| - 1], batch[|batch| - 1];
      KeysAreInBatch(front, session);
      forall e | e in KeysFor(batch, session)
        ensures InBatch(batch, KeysFor(batch, session)[e])
      {
        if e in KeysFor(front, session) {
          var i :| 0 <= i < |front| && front[i].key == KeysFor(front, session)[e];
          assert batch[i].key == front[i].key;
        }
      }
    }
  }

  lemma KeysAreKeyed(batch: seq<Row>, session: string)
    requires Keyed(batch)
    ensures forall e :: e in KeysFor(batch, session) ==> KeysFor(batch, session)[e] != ""
  {
    KeysAreInBatch(batch, session);
  }

  lemma {:induction false} PromoteSessionsDone(t: Table, batch: seq<Row>, sessions: seq<string>)
    requires Unique(t) && Keyed(batch)
    ensures var u := PromoteSessions(t, batch, sessions);
            && Promoted(t, u) && Unique(u)
            && forall s :: s in sessions ==> SessionDone(u, s, KeysFor(batch, s))
    decreases |sessions|
  {
    hide PromoteEvents, SessionDone, Promoted, KeysFor, HookEvents;
    if sessions == [] {
      Unpromoted(t);
    } else {
      var s := sessions[0];
      assert forall x :: x in sessions <==> x == s || x in sessions[1..];
      var keys := KeysFor(batch, s);
      KeysAreKeyed(batch, s);
      PromoteEventsDone(t, s, keys, HookEvents(t, s));
      var t1 := PromoteEvents(t, s, keys, HookEvents(t, s));
      EventsDoneIsSession(t, t1, s, keys);
      PromoteSessionsDone(t1, batch, sessions[1..]);
      var u := PromoteSessions(t1, batch, sessions[1..]);
      PromotedTrans(t, t1, u);
      SessionDoneStays(t1, u, s, keys);
    }
  }

  lemma {:induction false} OtherSessionsHaveNoKeys(batch: seq<Row>, session: string)
    ensures session !in SessionsWithEvents(batch) ==> KeysFor(batch, session) == map[]
  {
    if batch != [] {
      OtherSessionsHaveNoKeys(batch[..|batch| - 1], session);
    }
  }

  /** After promotion no hook row could still take the key its event has in the batch. */
  lemma PromoteDone(t: Table, batch: seq<Row>, session: string)
    requires Unique(t) && Keyed(batch)
    ensures Promoted(t, Promote(t, batch)) && Unique(Promote(t, batch))
    ensures SessionDone(Promote(t, batch), session, KeysFor(batch, session))
  {
    PromoteSessionsDone(t, batch, SessionsWithEvents(batch));
    OtherSessionsHaveNoKeys(batch, session);
  }

  // ----- Promoting again -----

  lemma {:induction false} PromoteFromStays(t: Table, i: nat, session: string, event: string, key: string)
    requires i <= |t| && HasKey(t, key) && Done(t, session, event, key)
    ensures PromoteFrom(t, i, session, event, key) == t
    decreases |t| - i
  {
    if i < |t| {
      var k := Find(t, key);
      PromoteFromStays(t, i + 1, session, event, key);
    }
  }

  lemma {:induction false} PromoteEventsStay(t: Table, session: string, keys: map<string, string>, events: seq<string>)
    requires SessionDone(t, session, keys) && forall e :: e in keys ==> HasKey(t, keys[e])
    ensures PromoteEvents(t, session, keys, events) == t
    decreases |events|
  {
    hide HasKey, PromoteFrom;
    if events != [] {
      if events[0] in keys {
        PromoteFromStays(t, 0, session, events[0], keys[events[0]]);
      }
      PromoteEventsStay(t, session, keys, events[1..]);
    }
  }

  lemma {:induction false} PromoteSessionsStay(t: Table, batch: seq<Row>, sessions: seq<string>)
    requires HasAll(t, batch) && forall s :: SessionDone(t, s, KeysFor(batch, s))
    ensures PromoteSessions(t, batch, sessions) == t
    decreases |sessions|
  {
    hide SessionDone, PromoteEvents, HookEvents, KeysFor, HasKey;
    if sessions != [] {
      var s := sessions[0];
      KeysAreInBatch(batch, s);
      forall e | e in KeysFor(batch, s)
        ensures HasKey(t, KeysFor(batch, s)[e])
      {
        BatchKey(t, batch, KeysFor(batch, s)[e]);
      }
      PromoteEventsStay(t, s, KeysFor(batch, s), HookEvents(t, s));
      PromoteSessionsStay(t, batch, sessions[1..]);
    }
  }

  lemma MergedIsDone(t: Table, batch: seq<Row>, p: Policies, sources: set<string>, session: string)
    requires Unique(t) && Keyed(batch) && TRANSCRIPT !in sources && SessionDone(t, session, KeysFor(batch, session))
    ensures SessionDone(MergeAndDrop(t, batch, p, sources), session, KeysFor(batch, session))
  {
    hide Absorb, Superseded, HasKey, KeysFor, MergeAndDrop;
    WhatStays(t, batch, p, sources);
    var w, keys := MergeAndDrop(t, batch, p, sources), KeysFor(batch, session);
    forall i | 0 <= i < |w| && w[i].session == session && w[i].source == HOOK && w[i].eventId in keys
      ensures w[i].key != keys[w[i].eventId]
    {
      assert w[i] in w;
      var k :| 0 <= k < |t| && w[i] == Absorb(t[k], batch, p);
      AbsorbKeeps(t[k], batch, p);
    }
  }

  // ----- The two tables of calls -----

  lemma RequestsTwice(t: Table, batch: seq<Row>)
    requires Unique(t) && Keyed(batch)
    ensures WriteRequests(WriteRequests(t, batch), batch) == WriteRequests(t, batch)
            <==> !Clash(t, batch, SUPERSEDED_REQUESTS)
  {
    hide UpsertAll, Drop, Clash;
    MergeAndDropTwice(t, batch, RequestPolicy, SUPERSEDED_REQUESTS);
  }

  lemma ToolsTwice(t: Table, batch: seq<Row>)
    requires Unique(t) && Keyed(batch)
    ensures WriteTools(WriteTools(t, batch), batch) == WriteTools(t, batch)
            <==> !Clash(Promote(t, batch), batch, SUPERSEDED_TOOLS)
  {
    hide UpsertAll, Drop, Promote, SessionDone, KeysFor, HasKey, Superseded, InBatch;
    var t1 := Promote(t, batch);
    PromoteDone(t, batch, "");
    var w := MergeAndDrop(t1, batch, ToolPolicy, SUPERSEDED_TOOLS);
    assert w == WriteTools(t, batch);
    WhatStays(t1, batch, ToolPolicy, SUPERSEDED_TOOLS);
    if !Clash(t1, batch, SUPERSEDED_TOOLS) {
      NoClashKeepsAll(t1, batch, ToolPolicy, SUPERSEDED_TOOLS);
      forall s
        ensures SessionDone(w, s, KeysFor(batch, s))
      {
        PromoteDone(t, batch, s);
        MergedIsDone(t1, batch, ToolPolicy, SUPERSEDED_TOOLS, s);
      }
      assert Promote(w, batch) == w by { PromoteStays(w, batch); }
      NoClashIsFixed(t1, batch, ToolPolicy, SUPERSEDED_TOOLS);
    } else {
      var i :| 0 <= i < |t1| && Superseded(t1[i], batch, SUPERSEDED_TOOLS) && InBatch(batch, t1[i].key);
      var key := t1[i].key;
      ClashLoses(t1, batch, ToolPolicy, SUPERSEDED_TOOLS, i);
      Absent(w, key);
      PromoteDone(w, batch, "");
      assert forall k :: 0 <= k < |Promote(w, batch)| && Promote(w, batch)[k].key == key ==> Promote(w, batch)[k].source == TRANSCRIPT;
      TranscriptKept(Promote(w, batch), batch, ToolPolicy, SUPERSEDED_TOOLS, key);
    }
  }

  lemma PromoteStays(t: Table, batch: seq<Row>)
    requires HasAll(t, batch) && forall s :: SessionDone(t, s, KeysFor(batch, s))
    ensures Promote(t, batch) == t
  {
    hide HasAll, SessionDone, KeysFor;
    PromoteSessionsStay(t, batch, SessionsWithEvents(batch));
  }
}
