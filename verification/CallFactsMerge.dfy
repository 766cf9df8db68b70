/** Merging the same calls twice changes nothing: column by column, then row by row. */
module CallFactsMerge {
  import opened CallFacts

  // ----- One column -----

  /** A value after all of these were merged into it. */
  function Fold(p: Policy, have: Value, got: seq<Value>): Value {
    if got == [] then have else Combine(p, Fold(p, have, got[..|got| - 1]), got[|got| - 1])
  }

  lemma {:induction false} KeepFolds(have: Value, got: seq<Value>)
    ensures Fold(Keep, have, got) == have
  {
    if got != [] {
      KeepFolds(have, got[..|got| - 1]);
    }
  }

  predicate AtLeast(a: Value, b: Value) { a == Null || (a.Int? && b.Int? && a.i >= b.i) }

  /** A maximum that a list does not change is above all of it, and so is everything above it. */
  lemma LargestFolds(y: Value, z: Value, got: seq<Value>)
    requires Fold(Largest, y, got) == y && (z == y || AtLeast(z, y))
    ensures Fold(Largest, z, got) == z
  {
    if z != y {
      if z != Null {
        LargestAll(y, got);
      }
      LargestAbove(y, z, got);
    }
  }

  lemma {:induction false} LargestAll(y: Value, got: seq<Value>)
    requires y.Int?
    ensures Fold(Largest, y, got) != Null ==>
      Fold(Largest, y, got).Int? && forall k :: 0 <= k < |got| ==> got[k].Int? && got[k].i <= Fold(Largest, y, got).i
  {
    if got != [] {
      LargestAll(y, got[..|got| - 1]);
    }
  }

  lemma {:induction false} LargestAbove(y: Value, z: Value, got: seq<Value>)
    requires AtLeast(z, y) && (z == Null || got == [] || forall k :: 0 <= k < |got| ==> got[k].Int? && got[k].i <= z.i)
    ensures Fold(Largest, z, got) == z
  {
    if got != [] {
      var front := got[..|got| - 1];
      assert z == Null || forall k :: 0 <= k < |front| ==> front[k] == got[k];
      LargestAbove(y, z, front);
    }
  }

  predicate After0(v: Value) { v.Real? && v.r > 0.0 }

  /** An earliest time above zero stays above zero, and at or before every other one. */
  lemma {:induction false} EarliestAll(y: Value, got: seq<Value>)
    ensures After0(y) ==> After0(Fold(Earliest, y, got)) && Fold(Earliest, y, got).r <= y.r
    ensures forall k :: 0 <= k < |got| && After0(got[k]) ==>
      After0(Fold(Earliest, y, got)) && Fold(Earliest, y, got).r <= got[k].r
    ensures After0(Fold(Earliest, y, got)) && !After0(y) ==> exists k :: 0 <= k < |got| && After0(got[k])
  {
    if got != [] {
      var front := got[..|got| - 1];
      EarliestAll(y, front);
      if After0(Fold(Earliest, y, front)) && !After0(y) {
        var k :| 0 <= k < |front| && After0(front[k]);
        assert got[k] == front[k];
      }
    }
  }

  lemma {:induction false} EarliestBelow(z: Value, got: seq<Value>)
    requires After0(z) && forall k :: 0 <= k < |got| && After0(got[k]) ==> z.r <= got[k].r
    ensures Fold(Earliest, z, got) == z
  {
    if got != [] {
      EarliestBelow(z, got[..|got| - 1]);
    }
  }

  /** What merging a list does not change, one more merge settles at once. */
  lemma ColumnSettles(p: Policy, y: Value, got: seq<Value>, r: Value)
    requires Fold(p, y, got) == y
    ensures Fold(p, Combine(p, y, r), got + [r]) == Combine(p, y, r)
  {
    var z := Combine(p, y, r);
    assert (got + [r])[..|got|] == got;
    match p {
      case Keep => KeepFolds(z, got);
      case Replace =>
      case Unless(known) =>
        if r in known {
          assert z == y;
        }
      case IfPositive =>
        if !Positive(r) {
          assert z == y;
        }
      case Largest => LargestFolds(y, z, got);
      case Earliest => EarliestSettles(y, got, r);
    }
  }

  lemma EarliestSettles(y: Value, got: seq<Value>, r: Value)
    requires Fold(Earliest, y, got) == y
    ensures Combine(Earliest, Fold(Earliest, Combine(Earliest, y, r), got), r) == Combine(Earliest, y, r)
  {
    var z := Combine(Earliest, y, r);
    EarliestAll(y, got);
    EarliestAll(z, got);
    if After0(z) {
      EarliestBelow(z, got);
    } else {
      assert z == r;
    }
  }

  // ----- One row -----

  /** The values a batch has for a column of one call. */
  function Values(batch: seq<Row>, key: string, column: string): seq<Value> {
    if batch == [] then []
    else
      var last := batch[|batch| - 1];
      Values(batch[..|batch| - 1], key, column) + if last.key == key then [Cell(last, column)] else []
  }

  /** A stored row after a batch was merged into it. */
  function Absorb(x: Row, batch: seq<Row>, p: Policies): Row {
    if batch == [] then x
    else
      var y, last := Absorb(x, batch[..|batch| - 1], p), batch[|batch| - 1];
      if last.key == x.key then Merge(y, last, p) else y
  }

  lemma {:induction false} AbsorbKeeps(x: Row, batch: seq<Row>, p: Policies)
    ensures var y := Absorb(x, batch, p);
            && y.key == x.key && y.session == x.session && y.ts == x.ts && y.source == x.source && y.eventId == x.eventId
            && y.cells.Keys == x.cells.Keys
  {
    if batch != [] {
      AbsorbKeeps(x, batch[..|batch| - 1], p);
    }
  }

  lemma {:induction false} AbsorbColumn(x: Row, batch: seq<Row>, p: Policies, c: string)
    requires c in x.cells
    ensures c in Absorb(x, batch, p).cells
    ensures Absorb(x, batch, p).cells[c] == Fold(p(c), x.cells[c], Values(batch, x.key, c))
  {
    hide Combine, Cell;
    if batch != [] {
      var front, last := batch[..|batch| - 1], batch[|batch| - 1];
      AbsorbColumn(x, front, p, c);
      AbsorbKeeps(x, front, p);
      if last.key == x.key {
        var got := Values(front, x.key, c);
        assert (got + [Cell(last, c)])[..|got|] == got;
      } else {
        assert Values(front, x.key, c) + [] == Values(front, x.key, c);
      }
    }
  }

  lemma RowsEqual(a: Row, b: Row)
    requires a.key == b.key && a.session == b.session && a.ts == b.ts && a.source == b.source && a.eventId == b.eventId
    requires a.cells.Keys == b.cells.Keys && forall c :: c in a.cells ==> a.cells[c] == b.cells[c]
    ensures a == b
  {
    assert a.cells == b.cells;
  }

  /** A row that a batch does not change, after one more row was merged into it, is not changed by the longer batch. */
  lemma RowSettles(x: Row, batch: seq<Row>, r: Row, p: Policies)
    requires Absorb(x, batch, p) == x && r.key == x.key
    ensures Absorb(Merge(x, r, p), batch + [r], p) == Merge(x, r, p)
  {
    hide Absorb, Combine, Fold, Values;
    var y := Merge(x, r, p);
    var z := Absorb(y, batch + [r], p);
    AbsorbKeeps(y, batch + [r], p);
    forall c | c in y.cells
      ensures z.cells[c] == y.cells[c]
    {
      AbsorbColumn(y, batch + [r], p, c);
      AbsorbColumn(x, batch, p, c);
      ValuesSnoc(batch, r, x.key, c);
      ColumnSettles(p(c), x.cells[c], Values(batch, x.key, c), Cell(r, c));
    }
    RowsEqual(z, y);
  }

  lemma ValuesSnoc(batch: seq<Row>, r: Row, key: string, c: string)
    ensures Values(batch + [r], key, c) == Values(batch, key, c) + if r.key == key then [Cell(r, c)] else []
  {
    assert (batch + [r])[..|batch|] == batch;
  }

  lemma AbsorbSnoc(x: Row, batch: seq<Row>, r: Row, p: Policies)
    ensures Absorb(x, batch + [r], p)
            == if r.key == x.key then Merge(Absorb(x, batch, p), r, p) else Absorb(x, batch, p)
  {
    assert (batch + [r])[..|batch|] == batch;
  }

  lemma {:induction false} NothingToAbsorb(x: Row, batch: seq<Row>, p: Policies)
    requires forall i :: 0 <= i < |batch| ==> batch[i].key != x.key
    ensures Absorb(x, batch, p) == x
  {
    if batch != [] {
      NothingToAbsorb(x, batch[..|batch| - 1], p);
    }
  }

  /** Merging a row into itself. */
  lemma MergeSelf(r: Row, p: Policies)
    ensures Merge(AsTranscript(r), r, p) == AsTranscript(r)
  {
    var y := Merge(AsTranscript(r), r, p);
    forall c | c in y.cells
      ensures y.cells[c] == r.cells[c]
    {
      SelfCombines(p(c), r.cells[c]);
    }
    RowsEqual(y, AsTranscript(r));
  }

  lemma SelfCombines(p: Policy, v: Value)
    ensures Combine(p, v, v) == v
  {
  }

  // ----- A table -----

  lemma FindUnique(t: Table, key: string, i: nat)
    requires i <= |t| && (i < |t| ==> t[i].key == key) && (forall j :: 0 <= j < i ==> t[j].key != key)
    ensures Find(t, key) == i
  {
  }

  lemma HasKeyAt(t: Table, i: nat)
    requires i < |t|
    ensures HasKey(t, t[i].key)
  {
  }

  lemma OnlyRow(t: Table, i: nat)
    requires Unique(t) && i < |t| && t[i].key != ""
    ensures Find(t, t[i].key) == i
  {
    var k := Find(t, t[i].key);
  }

  lemma OnlyRows(t: Table)
    requires Unique(t)
    ensures forall i :: 0 <= i < |t| && t[i].key != "" ==> Find(t, t[i].key) == i
  {
    forall i | 0 <= i < |t| && t[i].key != ""
      ensures Find(t, t[i].key) == i
    {
      OnlyRow(t, i);
    }
  }

  /** No row is changed by merging the batch again. */
  predicate Settled(t: Table, batch: seq<Row>, p: Policies) { forall i :: 0 <= i < |t| ==> Absorb(t[i], batch, p) == t[i] }

  predicate HasAll(t: Table, batch: seq<Row>) { forall i :: 0 <= i < |batch| ==> HasKey(t, batch[i].key) }

  lemma UpsertRow(t: Table, r: Row, p: Policies)
    requires Unique(t) && r.key != ""
    ensures Unique(Upsert(t, r, p)) && HasKey(Upsert(t, r, p), r.key)
    ensures forall key :: HasKey(t, key) ==> HasKey(Upsert(t, r, p), key)
    ensures forall key :: HasKey(Upsert(t, r, p), key) ==> HasKey(t, key) || key == r.key
  {
    hide Merge;
    var u, i := Upsert(t, r, p), Find(t, r.key);
    MergeKeepsKey(t, r, p);
    assert u[i].key == r.key;
    HasKeyAt(u, i);
    forall key | HasKey(t, key)
      ensures HasKey(u, key)
    {
      assert u[Find(t, key)].key == key;
      HasKeyAt(u, Find(t, key));
    }
    forall key | HasKey(u, key)
      ensures HasKey(t, key) || key == r.key
    {
      var k := Find(u, key);
      if key != r.key {
        assert k < |t| && t[k].key == key;
        HasKeyAt(t, k);
      }
    }
  }

  lemma MergeKeepsKey(t: Table, r: Row, p: Policies)
    ensures forall i :: 0 <= i < |t| ==> Merge(t[i], r, p).key == t[i].key
  {
  }

  lemma UpsertSettles(t: Table, batch: seq<Row>, r: Row, p: Policies)
    requires Unique(t) && r.key != "" && HasAll(t, batch) && Settled(t, batch, p)
    ensures Settled(Upsert(t, r, p), batch + [r], p)
  {
    hide Merge, Absorb;
    var u, i := Upsert(t, r, p), Find(t, r.key);
    forall k | 0 <= k < |u|
      ensures Absorb(u[k], batch + [r], p) == u[k]
    {
      if k != i {
        AbsorbSnoc(u[k], batch, r, p);
        if u[k].key == r.key {
          OnlyRow(t, k);
        }
      } else if i < |t| {
        RowSettles(t[i], batch, r, p);
      } else {
        var y := AsTranscript(r);
        forall j | 0 <= j < |batch|
          ensures batch[j].key != y.key
        {
          assert HasKey(t, batch[j].key);
        }
        NothingToAbsorb(y, batch, p);
        AbsorbSnoc(y, batch, r, p);
        MergeSelf(r, p);
      }
    }
  }

  /** After a batch was written, every call of it has a row, and merging it again would change none. */
  lemma {:induction false} UpsertAllSettles(t: Table, batch: seq<Row>, p: Policies)
    requires Unique(t) && Keyed(batch)
    ensures var u := UpsertAll(t, batch, p);
            && Unique(u) && HasAll(u, batch) && Settled(u, batch, p)
            && (forall key :: HasKey(t, key) ==> HasKey(u, key))
            && (forall key :: HasKey(u, key) ==> HasKey(t, key) || exists i :: 0 <= i < |batch| && batch[i].key == key)
  {
    hide Upsert, Absorb, HasKey;
    if batch == [] {
      assert Settled(t, batch, p) by { SettledByNothing(t, p); }
    } else {
      var front, r := batch[..|batch| - 1], batch[|batch| - 1];
      UpsertAllSettles(t, front, p);
      var v := UpsertAll(t, front, p);
      UpsertRow(v, r, p);
      UpsertSettles(v, front, r, p);
      assert front + [r] == batch;
      forall i | 0 <= i < |batch|
        ensures HasKey(Upsert(v, r, p), batch[i].key)
      {
        if i < |front| {
          assert HasKey(v, front[i].key);
        }
      }
      forall key | HasKey(Upsert(v, r, p), key) && !HasKey(t, key)
        ensures exists i :: 0 <= i < |batch| && batch[i].key == key
      {
        if key == r.key {
          assert batch[|batch| - 1].key == key;
        } else {
          var i :| 0 <= i < |front| && front[i].key == key;
          assert batch[i].key == key;
        }
      }
    }
  }

  lemma SettledByNothing(t: Table, p: Policies)
    ensures Settled(t, [], p)
  {
  }

  /** A row at a time: every stored row absorbs what the batch has for it, and the new rows come behind. */
  lemma {:induction false} UpsertAllRows(t: Table, batch: seq<Row>, p: Policies)
    requires Unique(t) && Keyed(batch)
    ensures var u := UpsertAll(t, batch, p);
            && |t| <= |u|
            && (forall i :: 0 <= i < |t| ==> u[i] == Absorb(t[i], batch, p))
            && (forall i :: |t| <= i < |u| ==> u[i].source == TRANSCRIPT && u[i].key != "")
  {
    hide Absorb, Merge;
    if batch == [] {
      forall i | 0 <= i < |t|
        ensures Absorb(t[i], batch, p) == t[i]
      {
        NothingToAbsorb(t[i], batch, p);
      }
    } else {
      var front, r := batch[..|batch| - 1], batch[|batch| - 1];
      assert front + [r] == batch;
      UpsertAllRows(t, front, p);
      UpsertAllSettles(t, front, p);
      var v := UpsertAll(t, front, p);
      var k := Find(v, r.key);
      forall i | 0 <= i < |t|
        ensures Upsert(v, r, p)[i] == Absorb(t[i], batch, p)
      {
        AbsorbSnoc(t[i], front, r, p);
        AbsorbKeeps(t[i], front, p);
        if v[i].key == r.key {
          OnlyRow(v, i);
        }
      }
      MergeIsTranscript(v, r, p);
    }
  }

  lemma MergeIsTranscript(t: Table, r: Row, p: Policies)
    ensures forall i :: 0 <= i < |t| ==> Merge(t[i], r, p).source == t[i].source && Merge(t[i], r, p).key == t[i].key
  {
  }

  /** Where every call has a row and none would change, writing the batch changes nothing. */
  lemma {:induction false} SettledStays(t: Table, batch: seq<Row>, p: Policies)
    requires Unique(t) && Keyed(batch) && HasAll(t, batch) && Settled(t, batch, p)
    ensures UpsertAll(t, batch, p) == t
  {
    hide Absorb, HasKey;
    UpsertAllRows(t, batch, p);
    UpsertAllSettles(t, batch, p);
    var u := UpsertAll(t, batch, p);
    if |u| > |t| {
      OnlyRow(u, |t|);
      HasKeyAt(u, |t|);
      BatchKey(t, batch, u[|t|].key);
      KeyInside(t, u, u[|t|].key);
    }
    assert |u| == |t|;
  }

  lemma BatchKey(t: Table, batch: seq<Row>, key: string)
    requires HasAll(t, batch)
    ensures (exists i :: 0 <= i < |batch| && batch[i].key == key) ==> HasKey(t, key)
  {
  }

  lemma KeyInside(t: Table, u: Table, key: string)
    requires |t| <= |u| && (forall i :: 0 <= i < |t| ==> u[i] == t[i]) && HasKey(t, key)
    ensures Find(u, key) < |t|
  {
  }
}
