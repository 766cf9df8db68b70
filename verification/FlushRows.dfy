/** What a flush writes: numbered events and metrics, and process snapshots that changed. */
module FlushRows {
  import opened Options

  // ----- Numbering -----

  function Count<R, K(==)>(rows: seq<R>, key: R -> K, k: K): nat {
    if rows == [] then 0 else Count(rows[..|rows| - 1], key, k) + if key(rows[|rows| - 1]) == k then 1 else 0
  }

  /** `_assign_seq`: each row with the number of earlier rows with its key. */
  function Numbered<R, K(==)>(rows: seq<R>, key: R -> K): (n: seq<(R, nat)>)
    ensures |n| == |rows|
  {
    if rows == [] then []
    else
      var last := rows[|rows| - 1];
      Numbered(rows[..|rows| - 1], key) + [(last, Count(rows[..|rows| - 1], key, key(last)))]
  }

  lemma NumberedStep<R, K>(rows: seq<R>, key: R -> K, i: nat)
    requires i < |rows|
    ensures Numbered(rows[..i + 1], key) == Numbered(rows[..i], key) + [(rows[i], Count(rows[..i], key, key(rows[i])))]
    ensures forall k :: Count(rows[..i + 1], key, k) == Count(rows[..i], key, k) + if key(rows[i]) == k then 1 else 0
  {
    assert rows[..i + 1] == rows[..i] + [rows[i]] && rows[..i + 1][..i] == rows[..i];
  }

  method AssignSeq<R, K(==)>(rows: seq<R>, key: R -> K) returns (numbered: seq<(R, nat)>)
    ensures numbered == Numbered(rows, key)
  {
    var seen: map<K, nat> := map[];
    numbered := [];
    for i := 0 to |rows|
      invariant numbered == Numbered(rows[..i], key)
      invariant forall k :: Count(rows[..i], key, k) == if k in seen then seen[k] else 0
    {
      NumberedStep(rows, key, i);
      var k := key(rows[i]);
      var n: nat := if k in seen then seen[k] else 0;
      assert n == Count(rows[..i], key, k);
      ghost var before := numbered;
      numbered := numbered + [(rows[i], n)];
      assert numbered == before + [(rows[i], Count(rows[..i], key, key(rows[i])))];
      seen := seen[k := n + 1];
    }
    assert rows[..|rows|] == rows;
  }

  lemma {:induction false} NumberedAt<R, K>(rows: seq<R>, key: R -> K, i: nat)
    requires i < |rows|
    ensures Numbered(rows, key)[i] == (rows[i], Count(rows[..i], key, key(rows[i])))
  {
    if i < |rows| - 1 {
      NumberedAt(rows[..|rows| - 1], key, i);
      assert rows[..|rows| - 1][..i] == rows[..i];
    }
  }

  lemma {:induction false} CountGrows<R, K>(rows: seq<R>, key: R -> K, i: nat, j: nat, k: K)
    requires i < j <= |rows| && key(rows[i]) == k
    ensures Count(rows[..i], key, k) < Count(rows[..j], key, k)
  {
    assert rows[..j][..j - 1] == rows[..j - 1];
    if i < j - 1 {
      CountGrows(rows, key, i, j - 1, k);
    }
  }

  /** Within a batch no two rows get the same key and number. */
  lemma NumbersAreDistinct<R, K>(rows: seq<R>, key: R -> K, i: nat, j: nat)
    requires i < j < |rows|
    ensures var n := Numbered(rows, key); (key(n[i].0), n[i].1) != (key(n[j].0), n[j].1)
  {
    NumberedAt(rows, key, i);
    NumberedAt(rows, key, j);
    if key(rows[i]) == key(rows[j]) {
      CountGrows(rows, key, i, j, key(rows[j]));
    }
  }

  /** Rows that join a batch behind do not change the numbers in it. */
  lemma {:induction false} NumbersStay<R, K>(a: seq<R>, b: seq<R>, key: R -> K)
    ensures Numbered(a + b, key)[..|a|] == Numbered(a, key)
  {
    forall i | 0 <= i < |a|
      ensures Numbered(a + b, key)[i] == Numbered(a, key)[i]
    {
      NumberedAt(a + b, key, i);
      NumberedAt(a, key, i);
      assert (a + b)[..i] == a[..i];
    }
  }

  // ----- Storing -----

  /** `INSERT OR IGNORE` under the primary key. */
  function Stored<R, K(==)>(t: map<(K, nat), R>, numbered: seq<(R, nat)>, key: R -> K): map<(K, nat), R> {
    if numbered == [] then t
    else
      var before, last := Stored(t, numbered[..|numbered| - 1], key), numbered[|numbered| - 1];
      var id := (key(last.0), last.1);
      if id in before then before else before[id := last.0]
  }

  function IdAt<R, K(==)>(rows: seq<R>, key: R -> K, i: nat): (K, nat)
    requires i < |rows|
  {
    (key(rows[i]), Count(rows[..i], key, key(rows[i])))
  }

  /** One row more. */
  lemma StoredStep<R, K>(t: map<(K, nat), R>, rows: seq<R>, key: R -> K)
    requires rows != []
    ensures var n := |rows| - 1;
            var u, id := Stored(t, Numbered(rows[..n], key), key), IdAt(rows, key, n);
            && Stored(t, Numbered(rows, key), key) == (if id in u then u else u[id := rows[n]])
            && (forall i :: 0 <= i < n ==> IdAt(rows, key, i) == IdAt(rows[..n], key, i) && IdAt(rows, key, i) != id)
  {
    var n := |rows| - 1;
    var front := rows[..n];
    assert Numbered(rows, key)[..n] == Numbered(front, key);
    forall i | 0 <= i < n
      ensures IdAt(rows, key, i) == IdAt(front, key, i) && IdAt(rows, key, i) != IdAt(rows, key, n)
    {
      assert rows[..i] == front[..i];
      NumberedAt(rows, key, i);
      NumberedAt(rows, key, n);
      NumbersAreDistinct(rows, key, i, n);
    }
  }

  predicate IsIdOf<R, K(==)>(rows: seq<R>, key: R -> K, id: (K, nat)) {
    exists i :: 0 <= i < |rows| && id == IdAt(rows, key, i)
  }

  /** The last row's number is new to the batch, and the other rows keep theirs. */
  lemma LastIsNew<R, K>(rows: seq<R>, key: R -> K)
    requires rows != []
    ensures var n := |rows| - 1;
            && !IsIdOf(rows[..n], key, IdAt(rows, key, n))
            && forall id :: IsIdOf(rows, key, id) <==> IsIdOf(rows[..n], key, id) || id == IdAt(rows, key, n)
  {
    hide Stored, Numbered, IdAt;
    var n := |rows| - 1;
    StoredStep(map[], rows, key);
    forall id | IsIdOf(rows[..n], key, id)
      ensures IsIdOf(rows, key, id)
    {
      var i :| 0 <= i < n && id == IdAt(rows[..n], key, i);
      assert id == IdAt(rows, key, i);
    }
  }

  predicate KeepsAll<R(==), K(==)>(t: map<(K, nat), R>, u: map<(K, nat), R>) { forall id :: id in t ==> id in u && u[id] == t[id] }

  /** What is there stays, and the rest is the batch's, each row under its key and number. */
  lemma {:induction false} StoredIds<R, K>(t: map<(K, nat), R>, rows: seq<R>, key: R -> K)
    ensures var u := Stored(t, Numbered(rows, key), key);
            KeepsAll(t, u) && forall id :: id in u <==> id in t || IsIdOf(rows, key, id)
  {
    if rows != [] {
      hide Stored, Numbered, IdAt, IsIdOf;
      StoredIds(t, rows[..|rows| - 1], key);
      StoredStep(t, rows, key);
      LastIsNew(rows, key);
    }
  }

  /** A row of the batch whose key and number were free is there. */
  lemma {:induction false} StoredRow<R, K>(t: map<(K, nat), R>, rows: seq<R>, key: R -> K, i: nat)
    requires i < |rows| && IdAt(rows, key, i) !in t
    ensures var u := Stored(t, Numbered(rows, key), key); IdAt(rows, key, i) in u && u[IdAt(rows, key, i)] == rows[i]
  {
    hide Stored, Numbered, IdAt, IsIdOf;
    var n := |rows| - 1;
    StoredStep(t, rows, key);
    LastIsNew(rows, key);
    StoredIds(t, rows[..n], key);
    if i < n {
      StoredRow(t, rows[..n], key, i);
    }
  }

  /** A batch that is written again, after a failure that was none, changes nothing. */
  lemma StoredTwice<R, K>(t: map<(K, nat), R>, rows: seq<R>, key: R -> K)
    ensures var n := Numbered(rows, key); Stored(Stored(t, n, key), n, key) == Stored(t, n, key)
  {
    StoredAgain(t, rows, rows, key);
  }

  /** A batch finds the numbers of its own beginning taken. */
  lemma {:induction false} StoredAgain<R, K>(t: map<(K, nat), R>, rows: seq<R>, front: seq<R>, key: R -> K)
    requires front <= rows
    ensures var u := Stored(t, Numbered(rows, key), key); Stored(u, Numbered(front, key), key) == u
  {
    if front != [] {
      hide Stored, Numbered;
      var n := |front| - 1;
      StoredAgain(t, rows, front[..n], key);
      StoredStep(Stored(t, Numbered(rows, key), key), front, key);
      StoredIds(t, rows, key);
      assert front[..n] == rows[..n] && front[n] == rows[n];
      assert IdAt(front, key, n) == IdAt(rows, key, n);
    }
  }

  /** Rows with a key that an earlier flush has stored are ignored, as many as were stored. */
  lemma LostAcrossFlushes<R, K>(t: map<(K, nat), R>, rows: seq<R>, key: R -> K, i: nat, n: nat)
    requires i < |rows| && Count(rows[..i], key, key(rows[i])) < n
    requires forall m :: 0 <= m < n ==> (key(rows[i]), m) in t
    ensures var u, id := Stored(t, Numbered(rows, key), key), IdAt(rows, key, i);
            id in t && id in u && u[id] == t[id]
  {
    hide Stored, Numbered;
    StoredIds(t, rows, key);
    assert (key(rows[i]), Count(rows[..i], key, key(rows[i]))) in t;
  }

  // ----- Process snapshots -----

  datatype Snapshot = Snapshot(pid: int, tool: string, cpu: real, memory: real)

  type Cache = map<(int, string), (real, real)>

  function Distance(a: real, b: real): real { if a < b then b - a else a - b }

  predicate Changed(cache: Cache, r: Snapshot) {
    (r.pid, r.tool) in cache ==>
      Distance(r.cpu, cache[(r.pid, r.tool)].0) > 1.0 || Distance(r.memory, cache[(r.pid, r.tool)].1) > 1.0
  }

  /** The rows written, and the cache afterwards. */
  function Filtered(cache: Cache, rows: seq<Snapshot>): (Cache, seq<Snapshot>) {
    if rows == [] then (cache, [])
    else
      var (c, kept) := Filtered(cache, rows[..|rows| - 1]);
      var r := rows[|rows| - 1];
      if Changed(c, r) then (c[(r.pid, r.tool) := (r.cpu, r.memory)], kept + [r]) else (c, kept)
  }

  method FilterSnapshots(cache: Cache, rows: seq<Snapshot>) returns (cache': Cache, kept: seq<Snapshot>)
    ensures (cache', kept) == Filtered(cache, rows)
  {
    cache', kept := cache, [];
    for i := 0 to |rows|
      invariant (cache', kept) == Filtered(cache, rows[..i])
    {
      assert rows[..i + 1] == rows[..i] + [rows[i]] && rows[..i + 1][..i] == rows[..i];
      var r := rows[i];
      if (r.pid, r.tool) !in cache' || Distance(r.cpu, cache'[(r.pid, r.tool)].0) > 1.0 || Distance(r.memory, cache'[(r.pid, r.tool)].1) > 1.0 {
        cache' := cache'[(r.pid, r.tool) := (r.cpu, r.memory)];
        kept := kept + [r];
      }
    }
    assert rows[..|rows|] == rows;
  }

  predicate OnePerProcess(rows: seq<Snapshot>) {
    forall i, j :: 0 <= i < j < |rows| ==> (rows[i].pid, rows[i].tool) != (rows[j].pid, rows[j].tool)
  }

  /** A row is near what the cache holds for its process. */
  predicate Near(cache: Cache, r: Snapshot) { !Changed(cache, r) }

  predicate OtherProcess(rows: seq<Snapshot>, r: Snapshot) {
    forall i :: 0 <= i < |rows| ==> (rows[i].pid, rows[i].tool) != (r.pid, r.tool)
  }

  lemma {:induction false} FilteredNear(cache: Cache, rows: seq<Snapshot>)
    requires OnePerProcess(rows)
    ensures forall i :: 0 <= i < |rows| ==> Near(Filtered(cache, rows).0, rows[i])
    ensures forall r :: OtherProcess(rows, r) ==> (Near(Filtered(cache, rows).0, r) <==> Near(cache, r))
  {
    if rows != [] {
      var front, n := rows[..|rows| - 1], |rows| - 1;
      FilteredNear(cache, front);
      forall i | 0 <= i < n
        ensures Near(Filtered(cache, rows).0, rows[i])
      {
        assert front[i] == rows[i];
      }
      forall r | OtherProcess(rows, r)
        ensures Near(Filtered(cache, rows).0, r) <==> Near(cache, r)
      {
        assert forall i :: 0 <= i < |front| ==> front[i] == rows[i];
        assert (rows[n].pid, rows[n].tool) != (r.pid, r.tool);
      }
    }
  }

  lemma {:induction false} NothingNew(cache: Cache, rows: seq<Snapshot>)
    requires forall i :: 0 <= i < |rows| ==> Near(cache, rows[i])
    ensures Filtered(cache, rows) == (cache, [])
  {
    if rows != [] {
      NothingNew(cache, rows[..|rows| - 1]);
    }
  }

  /** One snapshot for each process: given back to the buffer after a failed flush, the batch is filtered away whole. */
  lemma FailedSnapshotsAreLost(cache: Cache, rows: seq<Snapshot>)
    requires OnePerProcess(rows)
    ensures Filtered(Filtered(cache, rows).0, rows).1 == []
  {
    hide Filtered, Near;
    FilteredNear(cache, rows);
    NothingNew(Filtered(cache, rows).0, rows);
  }

  // ----- Any batch, tried again -----

  type Process = (int, string)

  function ProcessOf(r: Snapshot): Process { (r.pid, r.tool) }
  function Reading(r: Snapshot): (real, real) { (r.cpu, r.memory) }

  predicate Differs(r: Snapshot, reading: (real, real)) {
    Distance(r.cpu, reading.0) > 1.0 || Distance(r.memory, reading.1) > 1.0
  }

  /** The first row of the process that differs from what the cache holds, or the number of rows. */
  function FirstChanged(cache: Cache, rows: seq<Snapshot>, p: Process): (n: nat)
    ensures n <= |rows| && (n < |rows| ==> ProcessOf(rows[n]) == p && Changed(cache, rows[n]))
    ensures forall j :: 0 <= j < n && ProcessOf(rows[j]) == p ==> !Changed(cache, rows[j])
  {
    if rows == [] then 0
    else
      var n := |rows| - 1;
      var f := FirstChanged(cache, rows[..n], p);
      assert forall j :: 0 <= j < n ==> rows[..n][j] == rows[j];
      if f < n then f
      else if ProcessOf(rows[n]) == p && Changed(cache, rows[n]) then n
      else n + 1
  }

  function FirstOf(rows: seq<Snapshot>, p: Process): Option<Snapshot> {
    if rows == [] then None
    else
      var before := FirstOf(rows[..|rows| - 1], p);
      if before.None? && ProcessOf(rows[|rows| - 1]) == p then Some(rows[|rows| - 1]) else before
  }

  function LastOf(rows: seq<Snapshot>, p: Process): Option<Snapshot> {
    if rows == [] then None
    else if ProcessOf(rows[|rows| - 1]) == p then Some(rows[|rows| - 1])
    else LastOf(rows[..|rows| - 1], p)
  }

  function Held(cache: Cache, p: Process): Option<(real, real)> { if p in cache then Some(cache[p]) else None }

  /** What is written first for a process, and what the cache holds for it in the end. */
  lemma {:induction false} FilteredOf(cache: Cache, rows: seq<Snapshot>, p: Process)
    ensures var (c, kept) := Filtered(cache, rows);
            var f := FirstChanged(cache, rows, p);
            && FirstOf(kept, p) == (if f < |rows| then Some(rows[f]) else None)
            && (LastOf(kept, p).None? <==> f == |rows|)
            && Held(c, p) == if f < |rows| then Some(Reading(LastOf(kept, p).value)) else Held(cache, p)
  {
    if rows != [] {
      var front, r := rows[..|rows| - 1], rows[|rows| - 1];
      FilteredOf(cache, front, p);
      var (c, kept) := Filtered(cache, front);
      assert (kept + [r])[..|kept|] == kept;
    }
  }

  /**
   A batch is written again as it was when, for every process it writes a row of, the first of them
   differs from the last, and the rows before the first do not.
   */
  predicate WritesAgain(cache: Cache, rows: seq<Snapshot>) {
    forall n :: 0 <= n < |rows| && IsFirst(cache, rows, n) ==> RepeatsAt(cache, rows, n)
  }

  /** Row `n` is the first one written of its process. */
  predicate IsFirst(cache: Cache, rows: seq<Snapshot>, n: nat)
    requires n < |rows|
  {
    Changed(cache, rows[n]) && forall j :: 0 <= j < n && ProcessOf(rows[j]) == ProcessOf(rows[n]) ==> !Changed(cache, rows[j])
  }

  predicate RepeatsAt(cache: Cache, rows: seq<Snapshot>, n: nat)
    requires n < |rows|
  {
    var last := LastOf(Filtered(cache, rows).1, ProcessOf(rows[n]));
    && last.Some? && Differs(rows[n], Reading(last.value))
    && forall j :: 0 <= j < n && ProcessOf(rows[j]) == ProcessOf(rows[n]) ==> !Differs(rows[j], Reading(last.value))
  }

  lemma FirstIs(cache: Cache, rows: seq<Snapshot>, n: nat)
    requires n < |rows|
    ensures IsFirst(cache, rows, n) <==> FirstChanged(cache, rows, ProcessOf(rows[n])) == n
  {
    hide FirstChanged, Changed;
    var f := FirstChanged(cache, rows, ProcessOf(rows[n]));
    if IsFirst(cache, rows, n) {
      assert !(f < n);
      assert !(n < f);
    }
  }

  lemma ChangedIs(cache: Cache, r: Snapshot)
    ensures Changed(cache, r) <==> (Held(cache, ProcessOf(r)).Some? ==> Differs(r, Held(cache, ProcessOf(r)).value))
  {
  }

  lemma FirstUnique(cache: Cache, rows: seq<Snapshot>, p: Process, n: nat)
    requires n < |rows| && ProcessOf(rows[n]) == p && Changed(cache, rows[n])
    requires forall j :: 0 <= j < n && ProcessOf(rows[j]) == p ==> !Changed(cache, rows[j])
    ensures FirstChanged(cache, rows, p) == n
  {
    hide FirstChanged, Changed;
    var f := FirstChanged(cache, rows, p);
    assert !(f < n);
    assert !(n < f);
  }

  /** The condition says that the retry starts with the same row for every process. */
  lemma RepeatsIs(cache: Cache, rows: seq<Snapshot>, n: nat)
    requires n < |rows| && IsFirst(cache, rows, n)
    ensures RepeatsAt(cache, rows, n) <==> FirstChanged(Filtered(cache, rows).0, rows, ProcessOf(rows[n])) == n
  {
    hide FirstChanged, Changed, Filtered, Differs, LastOf;
    var (c, kept) := Filtered(cache, rows);
    var p := ProcessOf(rows[n]);
    FirstIs(cache, rows, n);
    FilteredOf(cache, rows, p);
    var last := Reading(LastOf(kept, p).value);
    forall j | 0 <= j < |rows| && ProcessOf(rows[j]) == p
      ensures Changed(c, rows[j]) <==> Differs(rows[j], last)
    {
      ChangedIs(c, rows[j]);
    }
    if RepeatsAt(cache, rows, n) {
      FirstUnique(c, rows, p, n);
    }
  }

  /** The two passes agree on a process: before the first row written both hold what they began with, after it the same. */
  predicate Aligned(a: Cache, b: Cache, x: Cache, y: Cache, rows: seq<Snapshot>, p: Process) {
    var f := FirstChanged(a, rows, p);
    if f < |rows| then Held(x, p) == Held(y, p) else Held(x, p) == Held(a, p) && Held(y, p) == Held(b, p)
  }

  lemma FirstOfFront(cache: Cache, rows: seq<Snapshot>, m: nat, p: Process)
    requires m <= |rows|
    ensures var f := FirstChanged(cache, rows, p); FirstChanged(cache, rows[..m], p) == if f < m then f else m
  {
    hide FirstChanged, Changed;
    var f, g := FirstChanged(cache, rows, p), FirstChanged(cache, rows[..m], p);
    assert forall j :: 0 <= j < m ==> rows[..m][j] == rows[j];
    if f < m {
      assert !(g < f);
      assert !(f < g);
    } else {
      assert !(g < m);
    }
  }

  /** Starting with the same row for every process, two passes write the same rows. */
  lemma {:induction false} SameRows(a: Cache, b: Cache, rows: seq<Snapshot>, m: nat)
    requires m <= |rows|
    requires forall p :: FirstChanged(a, rows, p) == FirstChanged(b, rows, p)
    ensures Filtered(a, rows[..m]).1 == Filtered(b, rows[..m]).1
    ensures forall p :: Aligned(a, b, Filtered(a, rows[..m]).0, Filtered(b, rows[..m]).0, rows[..m], p)
  {
    hide FirstChanged, Changed, Aligned;
    if m == 0 {
      forall p
        ensures Aligned(a, b, a, b, [], p)
      {
        NothingAligned(a, b, p);
      }
      assert rows[..0] == [];
    } else {
      SameRows(a, b, rows, m - 1);
      var front, r := rows[..m - 1], rows[m - 1];
      assert rows[..m][..m - 1] == front && rows[..m] == front + [r];
      var x, y := Filtered(a, front).0, Filtered(b, front).0;
      FirstOfFront(a, rows, m - 1, ProcessOf(r));
      FirstOfFront(a, rows, m, ProcessOf(r));
      FirstOfFront(b, rows, m - 1, ProcessOf(r));
      FirstOfFront(b, rows, m, ProcessOf(r));
      assert Aligned(a, b, x, y, front, ProcessOf(r));
      AlignedChoice(a, b, x, y, rows, m - 1);
      forall p
        ensures Aligned(a, b, Filtered(a, rows[..m]).0, Filtered(b, rows[..m]).0, rows[..m], p)
      {
        FirstOfFront(a, rows, m - 1, p);
        FirstOfFront(a, rows, m, p);
        assert Aligned(a, b, x, y, front, p);
        AlignedStep(a, b, x, y, rows, m - 1, p);
      }
    }
  }

  lemma NothingAligned(a: Cache, b: Cache, p: Process)
    ensures Aligned(a, b, a, b, [], p)
  {
  }

  lemma AlignedChoice(a: Cache, b: Cache, x: Cache, y: Cache, rows: seq<Snapshot>, m: nat)
    requires m < |rows| && FirstChanged(a, rows, ProcessOf(rows[m])) == FirstChanged(b, rows, ProcessOf(rows[m]))
    requires Aligned(a, b, x, y, rows[..m], ProcessOf(rows[m]))
    ensures Changed(x, rows[m]) <==> Changed(y, rows[m])
    ensures FirstChanged(a, rows, ProcessOf(rows[m])) >= m ==> (Changed(x, rows[m]) <==> FirstChanged(a, rows, ProcessOf(rows[m])) == m)
  {
    hide FirstChanged, Changed, Differs;
    var p, r := ProcessOf(rows[m]), rows[m];
    FirstOfFront(a, rows, m, p);
    ChangedIs(x, r);
    ChangedIs(y, r);
    ChangedIs(a, r);
    ChangedIs(b, r);
  }

  function After(c: Cache, r: Snapshot): Cache { if Changed(c, r) then c[ProcessOf(r) := Reading(r)] else c }

  lemma AlignedStep(a: Cache, b: Cache, x: Cache, y: Cache, rows: seq<Snapshot>, m: nat, p: Process)
    requires m < |rows| && FirstChanged(a, rows, p) == FirstChanged(b, rows, p)
    requires Aligned(a, b, x, y, rows[..m], p)
    ensures Aligned(a, b, After(x, rows[m]), After(y, rows[m]), rows[..m + 1], p)
  {
    hide FirstChanged, Changed;
    FirstOfFront(a, rows, m, p);
    FirstOfFront(a, rows, m + 1, p);
    if ProcessOf(rows[m]) == p {
      AlignedChoice(a, b, x, y, rows, m);
    }
  }

  /** The same values come first for a process only if the same row does. */
  lemma SameFirst(cache: Cache, rows: seq<Snapshot>, p: Process)
    requires Filtered(Filtered(cache, rows).0, rows).1 == Filtered(cache, rows).1
    ensures FirstChanged(Filtered(cache, rows).0, rows, p) == FirstChanged(cache, rows, p)
  {
    hide FirstChanged, Changed, Filtered, FirstOf, LastOf;
    var c := Filtered(cache, rows).0;
    FilteredOf(cache, rows, p);
    FilteredOf(c, rows, p);
    forall j | 0 <= j < |rows|
      ensures Changed(cache, rows[j]) <==> (Held(cache, ProcessOf(rows[j])).Some? ==> Differs(rows[j], Held(cache, ProcessOf(rows[j])).value))
      ensures Changed(c, rows[j]) <==> (Held(c, ProcessOf(rows[j])).Some? ==> Differs(rows[j], Held(c, ProcessOf(rows[j])).value))
    {
      ChangedIs(cache, rows[j]);
      ChangedIs(c, rows[j]);
    }
  }

  /**
   The cache is changed before the commit, so the retry of a failed flush filters the same batch once more,
   against what the batch itself left in the cache. It writes the rows the failed flush would have written
   exactly under the condition above: whatever the batch and whatever the cache.
   */
  lemma RetryWritesSame(cache: Cache, rows: seq<Snapshot>)
    ensures var (c, kept) := Filtered(cache, rows);
            Filtered(c, rows).1 == kept <==> WritesAgain(cache, rows)
  {
    hide FirstChanged, Changed, Filtered, IsFirst, RepeatsAt;
    var (c, kept) := Filtered(cache, rows);
    assert rows[..|rows|] == rows;
    if Filtered(c, rows).1 == kept {
      forall n | 0 <= n < |rows| && IsFirst(cache, rows, n)
        ensures RepeatsAt(cache, rows, n)
      {
        SameFirst(cache, rows, ProcessOf(rows[n]));
        FirstIs(cache, rows, n);
        RepeatsIs(cache, rows, n);
      }
    }
    if WritesAgain(cache, rows) {
      forall p
        ensures FirstChanged(cache, rows, p) == FirstChanged(c, rows, p)
      {
        var f := FirstChanged(cache, rows, p);
        if f < |rows| {
          FirstIs(cache, rows, f);
          RepeatsIs(cache, rows, f);
        } else {
          Unwritten(cache, rows, p);
        }
      }
      SameRows(cache, c, rows, |rows|);
    }
  }

  /** A process that nothing is written of: the cache holds what it held. */
  lemma Unwritten(cache: Cache, rows: seq<Snapshot>, p: Process)
    requires FirstChanged(cache, rows, p) == |rows|
    ensures FirstChanged(Filtered(cache, rows).0, rows, p) == |rows|
  {
    hide FirstChanged, Changed, Filtered;
    var c := Filtered(cache, rows).0;
    FilteredOf(cache, rows, p);
    var g := FirstChanged(c, rows, p);
    if g < |rows| {
      ChangedIs(cache, rows[g]);
      ChangedIs(c, rows[g]);
    }
  }

  /** A process of which one row is written never is written again as it was. */
  lemma OnceIsNotAgain(cache: Cache, rows: seq<Snapshot>, n: nat)
    requires n < |rows| && IsFirst(cache, rows, n)
    requires LastOf(Filtered(cache, rows).1, ProcessOf(rows[n])) == Some(rows[n])
    ensures var (c, kept) := Filtered(cache, rows); Filtered(c, rows).1 != kept
  {
    hide Filtered, LastOf, IsFirst;
    RetryWritesSame(cache, rows);
  }

  // ----- Three batches -----

  const BUSY := [Snapshot(1, "claude", 10.0, 0.0), Snapshot(1, "claude", 50.0, 0.0), Snapshot(1, "claude", 10.0, 0.0)]
  const RISING := [Snapshot(1, "claude", 10.5, 0.0), Snapshot(1, "claude", 50.0, 0.0)]

  function Written(cache: Cache, r: Snapshot): seq<Snapshot> { if Changed(cache, r) then [r] else [] }

  lemma FilteredSnoc(cache: Cache, front: seq<Snapshot>, r: Snapshot)
    ensures var (c, kept) := Filtered(cache, front); Filtered(cache, front + [r]) == (After(c, r), kept + Written(c, r))
  {
    assert (front + [r])[..|front|] == front;
    var (c, kept) := Filtered(cache, front);
    assert kept + [] == kept;
  }

  lemma FilteredThree(cache: Cache, a: Snapshot, b: Snapshot, c: Snapshot)
    ensures var x := After(cache, a);
            var y := After(x, b);
            Filtered(cache, [a, b]) == (y, Written(cache, a) + Written(x, b))
            && Filtered(cache, [a, b, c]) == (After(y, c), Written(cache, a) + Written(x, b) + Written(y, c))
  {
    hide After, Written;
    assert Filtered(cache, []) == (cache, []);
    FilteredSnoc(cache, [], a);
    assert [] + [a] == [a] && [] + Written(cache, a) == Written(cache, a);
    FilteredSnoc(cache, [a], b);
    assert [a] + [b] == [a, b];
    FilteredSnoc(cache, [a, b], c);
    assert [a, b] + [c] == [a, b, c];
  }

  /** 10, 50, 10 percent: the retry loses the first row. */
  lemma RetryLosesOne()
    ensures Filtered(map[], BUSY).1 == BUSY
    ensures Filtered(Filtered(map[], BUSY).0, BUSY).1 == BUSY[1..]
  {
    hide Filtered;
    var cache: Cache := map[(1, "claude") := (10.0, 0.0)];
    FilteredThree(map[], BUSY[0], BUSY[1], BUSY[2]);
    FilteredThree(cache, BUSY[0], BUSY[1], BUSY[2]);
    assert After(map[], BUSY[0]) == cache;
    assert After(cache, BUSY[1]) == map[(1, "claude") := (50.0, 0.0)];
    assert After(After(cache, BUSY[1]), BUSY[2]) == cache;
  }

  /** 10.5 and then 50 percent, after 10: the retry writes a row that the failed flush did not. */
  lemma RetryAddsOne()
    ensures var cache: Cache := map[(1, "claude") := (10.0, 0.0)];
            Filtered(cache, RISING).1 == RISING[1..] && Filtered(Filtered(cache, RISING).0, RISING).1 == RISING
  {
    hide Filtered;
    var cache: Cache := map[(1, "claude") := (10.0, 0.0)];
    var high: Cache := map[(1, "claude") := (50.0, 0.0)];
    FilteredThree(cache, RISING[0], RISING[1], RISING[1]);
    FilteredThree(high, RISING[0], RISING[1], RISING[1]);
    assert After(cache, RISING[0]) == cache;
    assert After(cache, RISING[1]) == high;
    assert After(high, RISING[0]) == map[(1, "claude") := (10.5, 0.0)];
    assert RISING[1..] == [RISING[1]];
  }
}
