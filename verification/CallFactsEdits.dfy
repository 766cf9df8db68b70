/** The table of file edits: each edit first removes what other writers recorded for it. */
module CallFactsEdits {
  import opened CallFacts
  import opened CallFactsMerge
  import opened CallFactsTheorems

  // ----- Removing -----

  lemma {:induction false} WithoutIs(t: Table, r: Row)
    ensures forall x :: x in WithoutOthers(t, r) <==> x in t && !Deletes(r, x)
  {
    hide Deletes;
    if t != [] {
      WithoutIs(t[..|t| - 1], r);
      assert t == t[..|t| - 1] + [t[|t| - 1]];
    }
  }

  lemma {:induction false} WithoutUnique(t: Table, r: Row)
    requires Unique(t)
    ensures Unique(WithoutOthers(t, r))
  {
    hide Deletes;
    if t != [] {
      var front, last := t[..|t| - 1], t[|t| - 1];
      WithoutUnique(front, r);
      WithoutIs(front, r);
      var d := WithoutOthers(front, r);
      forall i | 0 <= i < |d|
        ensures d[i].key == last.key ==> last.key == ""
      {
        assert d[i] in front;
      }
    }
  }

  lemma {:induction false} NothingRemoved(t: Table, r: Row)
    requires forall i :: 0 <= i < |t| ==> !Deletes(r, t[i])
    ensures WithoutOthers(t, r) == t
  {
    hide Deletes;
    if t != [] {
      NothingRemoved(t[..|t| - 1], r);
    }
  }

  // ----- Rows other writers may still lose -----

  /** The row of a call, and whether a later edit of the batch removes it without the call coming up again. */
  predicate RemovedAt(x: Row, batch: seq<Row>, d: nat) {
    && d < |batch| && Deletes(batch[d], x)
    && (forall j :: 0 <= j < d ==> !Deletes(batch[j], x))
    && (forall j :: d <= j < |batch| ==> batch[j].key != x.key)
  }

  predicate Doomed(x: Row, batch: seq<Row>) { exists d :: 0 <= d < |batch| && RemovedAt(x, batch, d) }

  /**
   Another writer's row with the key of an edit in the batch, which a later edit of the batch removes
   by its event: the edit is merged into the row, and then lost with it.
   */
  predicate EditClash(t: Table, batch: seq<Row>) {
    exists i :: 0 <= i < |t| && InBatch(batch, t[i].key) && Doomed(t[i], batch)
  }

  /** Whether the table has a row for the key after the batch. */
  predicate Survives(t: Table, batch: seq<Row>, key: string) {
    if HasKey(t, key) then !Doomed(t[Find(t, key)], batch) else InBatch(batch, key)
  }

  lemma DoomedShift(x: Row, batch: seq<Row>)
    requires batch != [] && !Deletes(batch[0], x)
    ensures Doomed(x, batch) <==> Doomed(x, batch[1..])
  {
    hide Deletes;
    var rest := batch[1..];
    if d :| 0 <= d < |batch| && RemovedAt(x, batch, d) {
      assert RemovedAt(x, rest, d - 1) by {
        assert forall j :: 0 <= j < d - 1 ==> rest[j] == batch[j + 1];
      }
    }
    if d :| 0 <= d < |rest| && RemovedAt(x, rest, d) {
      assert RemovedAt(x, batch, d + 1) by {
        forall j | 0 <= j < d + 1
          ensures !Deletes(batch[j], x)
        {
          if j > 0 {
            assert batch[j] == rest[j - 1];
          }
        }
        forall j | d + 1 <= j < |batch|
          ensures batch[j].key != x.key
        {
          assert batch[j] == rest[j - 1];
        }
      }
    }
  }

  /** A row that the first edit removes is doomed when its key does not come up. */
  lemma DoomedFirst(x: Row, batch: seq<Row>)
    requires batch != [] && Deletes(batch[0], x)
    ensures Doomed(x, batch) <==> !InBatch(batch, x.key)
  {
    if d :| 0 <= d < |batch| && RemovedAt(x, batch, d) {
      assert d == 0;
    }
    if !InBatch(batch, x.key) {
      assert RemovedAt(x, batch, 0);
    }
  }

  lemma DoomedIsAboutIdentity(x: Row, y: Row, batch: seq<Row>)
    requires x.key == y.key && x.session == y.session && x.eventId == y.eventId && x.source == y.source
    ensures Doomed(x, batch) <==> Doomed(y, batch)
  {
    forall d | 0 <= d < |batch|
      ensures RemovedAt(x, batch, d) <==> RemovedAt(y, batch, d)
    {
    }
  }

  lemma TranscriptsAreSafe(x: Row, batch: seq<Row>)
    requires x.source == TRANSCRIPT
    ensures !Doomed(x, batch)
  {
  }

  lemma InBatchShift(batch: seq<Row>, key: string)
    requires batch != []
    ensures InBatch(batch, key) <==> batch[0].key == key || InBatch(batch[1..], key)
  {
    if i :| 0 <= i < |batch| && batch[i].key == key {
      if i > 0 {
        assert batch[1..][i - 1].key == key;
      }
    }
    if i :| 0 <= i < |batch[1..]| && batch[1..][i].key == key {
      assert batch[i + 1].key == key;
    }
  }

  /** The row for a key after one edit. */
  lemma EditRow(t: Table, r: Row, key: string)
    requires Unique(t) && r.key != "" && key != ""
    ensures var u := WriteEdit(t, r);
            && Unique(u)
            && (HasKey(t, key) && !Deletes(r, t[Find(t, key)]) ==>
                  HasKey(u, key) && (var x, y := t[Find(t, key)], u[Find(u, key)];
                    y.key == x.key && y.session == x.session && y.eventId == x.eventId && y.source == x.source))
            && (!(HasKey(t, key) && !Deletes(r, t[Find(t, key)])) ==>
                  (HasKey(u, key) <==> key == r.key)
                  && (key == r.key ==> u[Find(u, key)].source == TRANSCRIPT))
  {
    hide Deletes, Merge;
    var v, u := WithoutOthers(t, r), WriteEdit(t, r);
    WithoutIs(t, r);
    WithoutUnique(t, r);
    UpsertRow(v, r, EditPolicy);
    MergeIsTranscript(v, r, EditPolicy);
    MergeIdentity(v, r);
    if HasKey(t, key) && !Deletes(r, t[Find(t, key)]) {
      var x := t[Find(t, key)];
      assert x in v;
      var k :| 0 <= k < |v| && v[k] == x;
      OnlyRow(v, k);
      assert u[k].key == key;
      OnlyRow(u, k);
    } else {
      OnlyRows(t);
      forall x | x in v
        ensures x.key != key
      {
        assert x in t;
      }
      NoRowNoKey(v, key);
      if key == r.key {
        assert u[|v|].key == key;
        OnlyRow(u, |v|);
      }
    }
  }

  lemma MergeIdentity(t: Table, r: Row)
    ensures forall i :: 0 <= i < |t| ==>
      var y := Merge(t[i], r, EditPolicy);
      y.key == t[i].key && y.session == t[i].session && y.eventId == t[i].eventId && y.source == t[i].source
  {
  }

  lemma {:induction false} WhoSurvives(t: Table, batch: seq<Row>, key: string)
    requires Unique(t) && Keyed(batch) && key != ""
    ensures Unique(WriteEdits(t, batch))
    ensures HasKey(WriteEdits(t, batch), key) <==> Survives(t, batch, key)
    decreases |batch|
  {
    hide WriteEdit, HasKey, Deletes, Doomed, InBatch;
    if batch == [] {
      NoBatch(t, key);
    } else {
      var r, rest := batch[0], batch[1..];
      EditRow(t, r, key);
      WhoSurvives(WriteEdit(t, r), rest, key);
      InBatchShift(batch, key);
      var u := WriteEdit(t, r);
      if HasKey(t, key) {
        FoundAt(t, key);
        var x := t[Find(t, key)];
        if Deletes(r, x) {
          DoomedFirst(x, batch);
        } else {
          DoomedShift(x, batch);
          FoundAt(u, key);
          DoomedIsAboutIdentity(x, u[Find(u, key)], rest);
        }
      }
      if HasKey(u, key) {
        FoundAt(u, key);
        if u[Find(u, key)].source == TRANSCRIPT {
          TranscriptsAreSafe(u[Find(u, key)], rest);
        }
      }
    }
  }

  lemma NoBatch(t: Table, key: string)
    ensures Survives(t, [], key) <==> HasKey(t, key)
  {
  }

  // ----- Writing again -----

  predicate LeavesNone(t: Table, r: Row) { forall i :: 0 <= i < |t| ==> !Deletes(r, t[i]) }

  lemma EditLeavesNone(t: Table, r: Row)
    ensures LeavesNone(WriteEdit(t, r), r)
    ensures forall q :: LeavesNone(t, q) ==> LeavesNone(WriteEdit(t, r), q)
  {
    var v, u := WithoutOthers(t, r), WriteEdit(t, r);
    WithoutIs(t, r);
    MergeIdentity(v, r);
    forall i | 0 <= i < |u|
      ensures u[i].source == TRANSCRIPT || OneOf(t, r, u[i])
    {
      if i < |v| {
        assert v[i] in v;
        assert SameWriterAs(v[i], u[i]);
      }
    }
  }

  predicate SameWriterAs(x: Row, y: Row) { x.session == y.session && x.eventId == y.eventId && x.source == y.source }

  /** The row comes from one that the edit did not remove. */
  predicate OneOf(t: Table, r: Row, y: Row) { exists x :: x in t && !Deletes(r, x) && SameWriterAs(x, y) }

  /** Stable under everything written so far. */
  lemma {:induction false} EditsSettle(t: Table, done: seq<Row>, batch: seq<Row>)
    requires Unique(t) && Keyed(done) && Keyed(batch) && Settled(t, done, EditPolicy)
    ensures var u := WriteEdits(t, batch);
            && Unique(u) && Settled(u, done + batch, EditPolicy)
            && (forall r :: LeavesNone(t, r) ==> LeavesNone(u, r))
            && forall j :: 0 <= j < |batch| ==> LeavesNone(u, batch[j])
    decreases |batch|
  {
    hide Absorb, WriteEdit, LeavesNone;
    if batch == [] {
      assert done + batch == done;
    } else {
      var r, rest := batch[0], batch[1..];
      assert done + batch == (done + [r]) + rest;
      EditSettles(t, done, r);
      EditLeavesNone(t, r);
      EditsSettle(WriteEdit(t, r), done + [r], rest);
      forall j | 0 <= j < |batch|
        ensures LeavesNone(WriteEdits(t, batch), batch[j])
      {
        if j > 0 {
          assert batch[j] == rest[j - 1];
        }
      }
    }
  }

  /** What an edit writes is what it would write again: every column is kept or taken from it. */
  lemma LastEditWins(x: Row, done: seq<Row>, r: Row)
    requires r.key == x.key
    ensures Absorb(Merge(x, r, EditPolicy), done + [r], EditPolicy) == Merge(x, r, EditPolicy)
  {
    hide Absorb, Fold, Values;
    var y := Merge(x, r, EditPolicy);
    AbsorbKeeps(y, done + [r], EditPolicy);
    forall c | c in y.cells
      ensures Absorb(y, done + [r], EditPolicy).cells[c] == y.cells[c]
    {
      AbsorbColumn(y, done + [r], EditPolicy, c);
      ValuesSnoc(done, r, x.key, c);
      var got := Values(done, x.key, c);
      EditColumn(c, y.cells[c], got, Cell(r, c));
    }
    RowsEqual(Absorb(y, done + [r], EditPolicy), y);
  }

  lemma EditColumn(c: string, have: Value, got: seq<Value>, last: Value)
    ensures EditPolicy(c) == Keep ==> Fold(EditPolicy(c), have, got + [last]) == have
    ensures EditPolicy(c) == Replace ==> Fold(EditPolicy(c), have, got + [last]) == last
    ensures EditPolicy(c) == Keep || EditPolicy(c) == Replace
  {
    KeepFolds(have, got + [last]);
    assert (got + [last])[..|got|] == got;
  }

  lemma EditSettles(t: Table, done: seq<Row>, r: Row)
    requires Unique(t) && r.key != "" && Settled(t, done, EditPolicy)
    ensures Unique(WriteEdit(t, r)) && Settled(WriteEdit(t, r), done + [r], EditPolicy)
  {
    hide Absorb, Merge, Deletes;
    var v, u := WithoutOthers(t, r), WriteEdit(t, r);
    WithoutIs(t, r);
    WithoutUnique(t, r);
    UpsertRow(v, r, EditPolicy);
    OnlyRows(v);
    var i := Find(v, r.key);
    forall k | 0 <= k < |u|
      ensures Absorb(u[k], done + [r], EditPolicy) == u[k]
    {
      if k != i {
        assert v[k] in t;
        AbsorbSnoc(u[k], done, r, EditPolicy);
      } else if i < |v| {
        LastEditWins(v[i], done, r);
      } else {
        MergeSelf(r, EditPolicy);
        LastEditWins(AsTranscript(r), done, r);
      }
    }
  }

  /** With nothing left to remove, the edits are upserts. */
  lemma {:induction false} OnlyUpserts(t: Table, batch: seq<Row>)
    requires Unique(t) && Keyed(batch) && forall j :: 0 <= j < |batch| ==> LeavesNone(t, batch[j])
    ensures WriteEdits(t, batch) == UpsertAll(t, batch, EditPolicy)
    decreases |batch|
  {
    hide LeavesNone, WriteEdit;
    if batch != [] {
      var front, last := batch[..|batch| - 1], batch[|batch| - 1];
      OnlyUpserts(t, front);
      WriteEditsSnoc(t, front, last);
      assert front + [last] == batch;
      UpsertAllLeavesNone(t, front, last);
      EditIsUpsert(UpsertAll(t, front, EditPolicy), last);
    }
  }

  lemma EditIsUpsert(t: Table, r: Row)
    requires LeavesNone(t, r)
    ensures WriteEdit(t, r) == Upsert(t, r, EditPolicy)
  {
    NothingRemoved(t, r);
  }

  lemma {:induction false} WriteEditsSnoc(t: Table, batch: seq<Row>, r: Row)
    ensures WriteEdits(t, batch + [r]) == WriteEdit(WriteEdits(t, batch), r)
    decreases |batch|
  {
    hide WriteEdit;
    if batch == [] {
      assert (batch + [r])[1..] == [];
    } else {
      assert (batch + [r])[1..] == batch[1..] + [r];
      WriteEditsSnoc(WriteEdit(t, batch[0]), batch[1..], r);
    }
  }

  lemma UpsertAllLeavesNone(t: Table, batch: seq<Row>, r: Row)
    requires Unique(t) && Keyed(batch) && LeavesNone(t, r)
    ensures LeavesNone(UpsertAll(t, batch, EditPolicy), r)
  {
    hide Absorb;
    UpsertAllRows(t, batch, EditPolicy);
    var u := UpsertAll(t, batch, EditPolicy);
    forall i | 0 <= i < |u|
      ensures !Deletes(r, u[i])
    {
      if i < |t| {
        AbsorbKeeps(t[i], batch, EditPolicy);
      }
    }
  }

  /** Writing the edits twice is writing them once, exactly when no edit is lost with another writer's row. */
  lemma EditsTwice(t: Table, batch: seq<Row>)
    requires Unique(t) && Keyed(batch)
    ensures WriteEdits(WriteEdits(t, batch), batch) == WriteEdits(t, batch) <==> !EditClash(t, batch)
  {
    hide WriteEdits, LeavesNone, Absorb, Doomed, HasKey, InBatch, UpsertAll;
    var u := WriteEdits(t, batch);
    assert Settled(t, [], EditPolicy) by { SettledByNothing(t, EditPolicy); }
    EditsSettle(t, [], batch);
    assert [] + batch == batch;
    OnlyUpserts(u, batch);
    if !EditClash(t, batch) {
      forall i | 0 <= i < |batch|
        ensures HasKey(u, batch[i].key)
      {
        WhoSurvives(t, batch, batch[i].key);
        BatchHas(batch, i);
        if HasKey(t, batch[i].key) {
          FoundAt(t, batch[i].key);
        }
      }
      SettledStays(u, batch, EditPolicy);
    } else {
      var i :| 0 <= i < |t| && InBatch(batch, t[i].key) && Doomed(t[i], batch);
      NonEmptyKey(batch, t[i].key);
      WhoSurvives(t, batch, t[i].key);
      HasKeyAt(t, i);
      OnlyRow(t, i);
      UpsertAllSettles(u, batch, EditPolicy);
      AllHas(UpsertAll(u, batch, EditPolicy), batch, t[i].key);
    }
  }

  lemma BatchHas(batch: seq<Row>, i: nat)
    requires i < |batch|
    ensures InBatch(batch, batch[i].key)
  {
  }

  lemma NonEmptyKey(batch: seq<Row>, key: string)
    requires Keyed(batch) && InBatch(batch, key)
    ensures key != ""
  {
  }

  lemma AllHas(t: Table, batch: seq<Row>, key: string)
    requires HasAll(t, batch) && InBatch(batch, key)
    ensures HasKey(t, key)
  {
  }
}
