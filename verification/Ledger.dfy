/** The mutation ledger: an append-only file of lines, and one older file it rotates into. */
module Ledger {
  import opened Options
  import opened LedgerLines

  const MAX_LEDGER_BYTES := 1_048_576

  /** A mutation, with the bytes of its entry. */
  datatype Mutation = Mutation(op: string, previous: Option<Bytes>, content: Option<Bytes>, entry: Bytes)

  /** A rewrite of identical bytes is no mutation. */
  predicate Counts(m: Mutation) { !(m.op == "modify" && m.previous.Some? && m.previous == m.content) }

  /** `json.dumps` escapes every control character, so an entry holds none. */
  predicate OneLine(entry: Bytes) { entry != [] && NoControls(entry) }

  function Text(entries: seq<Bytes>): Bytes {
    if entries == [] then [] else entries[0] + [NEWLINE] + Text(entries[1..])
  }

  // ----- The files -----

  /** None is a file that is not there. */
  datatype Files = Files(active: Option<Bytes>, rotated: Option<Bytes>)

  /** `kept.find(b"\n") + 1` */
  function AfterNewline(b: Bytes): (n: nat)
    ensures n <= |b|
  {
    if NEWLINE !in b then 0
    else if b[0] == NEWLINE then 1
    else 1 + AfterNewline(b[1..])
  }

  /** The newest cap's worth of whole lines. */
  function Trimmed(b: Bytes): Bytes {
    if |b| > MAX_LEDGER_BYTES then
      var kept := b[|b| - MAX_LEDGER_BYTES..];
      kept[AfterNewline(kept)..]
    else b
  }

  function Rotated(f: Files): Files
    requires f.active.Some?
  {
    Files(None, Some(Trimmed(f.active.value)))
  }

  predicate IsFull(f: Files) { f.active.Some? && |f.active.value| >= MAX_LEDGER_BYTES }

  function Content(file: Option<Bytes>): Bytes { if file.Some? then file.value else [] }

  /** `record` */
  function Recorded(f: Files, m: Mutation): Files {
    if !Counts(m) then f
    else
      var g := if IsFull(f) then Rotated(f) else f;
      g.(active := Some(Content(g.active) + m.entry + [NEWLINE]))
  }

  function Run(f: Files, ms: seq<Mutation>): Files {
    if ms == [] then f else Recorded(Run(f, ms[..|ms| - 1]), ms[|ms| - 1])
  }

  /** The entries that were recorded. */
  function Entries(ms: seq<Mutation>): seq<Bytes> {
    if ms == [] then []
    else Entries(ms[..|ms| - 1]) + if Counts(ms[|ms| - 1]) then [ms[|ms| - 1].entry] else []
  }

  predicate AllOneLine(entries: seq<Bytes>) { forall i :: 0 <= i < |entries| ==> OneLine(entries[i]) }

  // ----- Lines -----

  lemma {:induction false} TextConcat(a: seq<Bytes>, b: seq<Bytes>)
    ensures Text(a + b) == Text(a) + Text(b)
  {
    if a == [] {
      assert a + b == b;
    } else {
      assert (a + b)[1..] == a[1..] + b;
      TextConcat(a[1..], b);
      Associate(a[0], [NEWLINE], Text(a[1..]), Text(b));
    }
  }

  lemma Associate(a: Bytes, b: Bytes, c: Bytes, d: Bytes)
    ensures a + b + (c + d) == (a + b + c) + d
  {
  }

  lemma TextOne(entry: Bytes)
    ensures Text([entry]) == entry + [NEWLINE]
  {
    assert [entry][1..] == [];
    assert Text([]) == [];
  }

  lemma {:induction false} FirstNewline(line: Bytes, rest: Bytes)
    requires NEWLINE !in line
    ensures AfterNewline(line + [NEWLINE] + rest) == |line| + 1
  {
    var b := line + [NEWLINE] + rest;
    assert b[|line|] == NEWLINE;
    if line != [] {
      assert b[0] == line[0] && b[0] in line;
      assert b[1..] == line[1..] + [NEWLINE] + rest;
      FirstNewline(line[1..], rest);
    }
  }

  /** Cutting whole lines anywhere and going on to the next line gives whole lines, and costs part of one line. */
  lemma {:induction false} CutIsWholeLines(entries: seq<Bytes>, p: nat) returns (k: nat)
    requires AllOneLine(entries) && p < |Text(entries)|
    ensures 0 < k <= |entries| && var cut := Text(entries)[p..]; cut[AfterNewline(cut)..] == Text(entries[k..])
    ensures |Text(entries)| - p <= |Text(entries[k..])| + |entries[k - 1]| + 1
    decreases |entries|
  {
    var line, rest := entries[0], Text(entries[1..]);
    assert OneLine(entries[0]);
    if p <= |line| {
      CutInside(line, rest, p);
      FirstNewline(line[p..], rest);
      k := 1;
    } else {
      CutBehind(line, rest, p);
      k := CutIsWholeLines(entries[1..], p - |line| - 1);
      assert entries[1..][k..] == entries[k + 1..];
      k := k + 1;
    }
  }

  lemma CutInside(line: Bytes, rest: Bytes, p: nat)
    requires p <= |line|
    ensures (line + [NEWLINE] + rest)[p..] == line[p..] + [NEWLINE] + rest
    ensures (line[p..] + [NEWLINE] + rest)[|line| - p + 1..] == rest
    ensures NEWLINE !in line ==> NEWLINE !in line[p..]
  {
  }

  lemma CutBehind(line: Bytes, rest: Bytes, p: nat)
    requires |line| < p <= |line| + 1 + |rest|
    ensures (line + [NEWLINE] + rest)[p..] == rest[p - |line| - 1..]
  {
  }

  // ----- What is held -----

  /** The files hold the entries from number `k` on, the older ones in the rotated file, up to number `j`. */
  predicate Holds(f: Files, entries: seq<Bytes>, k: nat, j: nat) {
    && k <= j <= |entries|
    && Content(f.rotated) == Text(entries[k..j]) && Content(f.active) == Text(entries[j..])
  }

  /** When the first `k` entries are gone, what is held fills the cap, but for less than one line. */
  predicate HoldsEnough(f: Files, k: nat, longest: nat) {
    k > 0 ==> |Content(f.rotated)| + longest >= MAX_LEDGER_BYTES
  }

  predicate AllShorter(entries: seq<Bytes>, longest: nat) { forall i :: 0 <= i < |entries| ==> |entries[i]| < longest }

  lemma TrimIsWholeLines(entries: seq<Bytes>, longest: nat) returns (k: nat)
    requires AllOneLine(entries) && AllShorter(entries, longest)
    ensures k <= |entries| && Trimmed(Text(entries)) == Text(entries[k..])
    ensures |Text(entries)| >= MAX_LEDGER_BYTES ==> |Text(entries[k..])| + longest >= MAX_LEDGER_BYTES
  {
    hide Text, AfterNewline, OneLine;
    var t := Text(entries);
    if |t| > MAX_LEDGER_BYTES {
      k := CutIsWholeLines(entries, |t| - MAX_LEDGER_BYTES);
    } else {
      k := 0;
      assert entries[0..] == entries;
    }
  }

  lemma RecordHolds(f: Files, entries: seq<Bytes>, k: nat, j: nat, m: Mutation, longest: nat) returns (k': nat, j': nat)
    requires Holds(f, entries, k, j) && AllOneLine(entries) && OneLine(m.entry) && Counts(m)
    requires AllShorter(entries, longest) && HoldsEnough(f, k, longest)
    ensures Holds(Recorded(f, m), entries + [m.entry], k', j') && k <= k' && HoldsEnough(Recorded(f, m), k', longest)
  {
    hide Text, Trimmed;
    var all := entries + [m.entry];
    TextOne(m.entry);
    if IsFull(f) {
      var i := TrimIsWholeLines(entries[j..], longest);
      k', j' := j + i, |entries|;
      assert entries[j..][i..] == entries[j + i..];
      assert all[k'..j'] == entries[k'..];
      assert all[j'..] == [m.entry];
      assert [] + m.entry + [NEWLINE] == m.entry + [NEWLINE];
    } else {
      k', j' := k, j;
      assert all[k..j] == entries[k..j];
      assert all[j..] == entries[j..] + [m.entry];
      TextConcat(entries[j..], [m.entry]);
      assert Content(f.active) + m.entry + [NEWLINE] == Content(f.active) + (m.entry + [NEWLINE]);
    }
  }

  /**
   The two files together always hold whole entries, and exactly the newest ones, in their order. Once an
   entry is gone, the rotated file alone holds as much as the cap less the longest line.
   */
  lemma {:induction false} NewestAreHeld(ms: seq<Mutation>, longest: nat) returns (k: nat, j: nat)
    requires forall i :: 0 <= i < |ms| ==> OneLine(ms[i].entry) && |ms[i].entry| < longest
    ensures Holds(Run(Files(None, None), ms), Entries(ms), k, j) && AllOneLine(Entries(ms)) && AllShorter(Entries(ms), longest)
    ensures HoldsEnough(Run(Files(None, None), ms), k, longest)
  {
    hide Recorded, Text;
    if ms == [] {
      k, j := 0, 0;
      assert Holds(Files(None, None), [], 0, 0) by { NothingHeld(); }
    } else {
      var front, m := ms[..|ms| - 1], ms[|ms| - 1];
      k, j := NewestAreHeld(front, longest);
      assert Entries(front) + [] == Entries(front);
      if Counts(m) {
        k, j := RecordHolds(Run(Files(None, None), front), Entries(front), k, j, m, longest);
      } else {
        assert Recorded(Run(Files(None, None), front), m) == Run(Files(None, None), front) by { NotRecorded(Run(Files(None, None), front), m); }
      }
    }
  }

  lemma NothingHeld()
    ensures Holds(Files(None, None), [], 0, 0)
  {
  }

  lemma NotRecorded(f: Files, m: Mutation)
    requires !Counts(m)
    ensures Recorded(f, m) == f
  {
  }

  /** From files of any size, one recorded mutation brings both under their bounds, and they stay there. */
  lemma {:induction false} SizesAreBounded(f: Files, ms: seq<Mutation>, longest: nat)
    requires forall i :: 0 <= i < |ms| ==> |ms[i].entry| < longest
    requires |Content(f.rotated)| <= MAX_LEDGER_BYTES
    ensures var g := Run(f, ms);
            && |Content(g.rotated)| <= MAX_LEDGER_BYTES
            && (Entries(ms) != [] || |Content(f.active)| < MAX_LEDGER_BYTES + longest ==>
                  |Content(g.active)| < MAX_LEDGER_BYTES + longest)
  {
    hide Trimmed;
    if ms != [] {
      var front, m := ms[..|ms| - 1], ms[|ms| - 1];
      SizesAreBounded(f, front, longest);
      var g := Run(f, front);
      if IsFull(g) {
        TrimmedIsSmall(g.active.value);
      }
      assert |m.entry| < longest;
    }
  }

  lemma TrimmedIsSmall(b: Bytes)
    ensures |Trimmed(b)| <= MAX_LEDGER_BYTES
  {
  }

  // ----- Reading -----

  /** The lines of the entries, one entry after the other. */
  function Pieces(entries: seq<Bytes>): seq<Bytes> {
    if entries == [] then [] else Lines(entries[0]) + Pieces(entries[1..])
  }

  lemma {:induction false} LinesOfText(entries: seq<Bytes>)
    requires AllOneLine(entries)
    ensures Lines(Text(entries)) == Pieces(entries)
  {
    if entries != [] {
      hide Lines;
      assert OneLine(entries[0]);
      LinesOfText(entries[1..]);
      LinesOfLine(entries[0], Text(entries[1..]));
      assert entries[0] + [NEWLINE] + Text(entries[1..]) == entries[0] + ([NEWLINE] + Text(entries[1..]));
    }
  }

  lemma {:induction false} PiecesConcat(a: seq<Bytes>, b: seq<Bytes>)
    ensures Pieces(a + b) == Pieces(a) + Pieces(b)
  {
    hide Lines;
    if a == [] {
      assert a + b == b;
    } else {
      assert (a + b)[1..] == a[1..] + b;
      PiecesConcat(a[1..], b);
    }
  }

  predicate AllUnbroken(entries: seq<Bytes>) { forall i :: 0 <= i < |entries| ==> Unbroken(entries[i]) }

  lemma {:induction false} PiecesOfUnbroken(entries: seq<Bytes>)
    requires AllOneLine(entries) && AllUnbroken(entries)
    ensures Pieces(entries) == entries
  {
    if entries != [] {
      hide Lines, Unbroken;
      assert OneLine(entries[0]);
      PiecesOfUnbroken(entries[1..]);
      UnbrokenIsOneLine(entries[0]);
      assert [entries[0]] + entries[1..] == entries;
    }
  }

  lemma {:induction false} PiecesAreUnbroken(entries: seq<Bytes>)
    ensures AllUnbroken(Pieces(entries))
  {
    if entries != [] {
      hide Lines, Unbroken;
      LinesAreUnbroken(entries[0]);
      PiecesAreUnbroken(entries[1..]);
    }
  }

  function All(f: Files): seq<Bytes> { Lines(Content(f.rotated)) + Lines(Content(f.active)) }

  /**
   What is read back is the lines of the newest entries: of all of them, or of as many as fill the cap but
   for a line. It is those entries themselves exactly when none of them holds a line separator that
   `json.dumps` does not escape; one that does comes back in pieces, and does no harm to the others.
   */
  lemma ReadIsRecorded(ms: seq<Mutation>, longest: nat) returns (k: nat)
    requires forall i :: 0 <= i < |ms| ==> OneLine(ms[i].entry) && |ms[i].entry| < longest
    ensures k <= |Entries(ms)| && All(Run(Files(None, None), ms)) == Pieces(Entries(ms)[k..])
    ensures All(Run(Files(None, None), ms)) == Entries(ms)[k..] <==> AllUnbroken(Entries(ms)[k..])
    ensures k > 0 ==> |Text(Entries(ms)[k..])| + longest >= MAX_LEDGER_BYTES
  {
    hide Run, Lines, Text, Unbroken;
    var j;
    k, j := NewestAreHeld(ms, longest);
    var e := Entries(ms);
    LinesOfText(e[k..j]);
    LinesOfText(e[j..]);
    assert e[k..j] + e[j..] == e[k..];
    TextConcat(e[k..j], e[j..]);
    PiecesConcat(e[k..j], e[j..]);
    PiecesAreUnbroken(e[k..]);
    if AllUnbroken(e[k..]) {
      PiecesOfUnbroken(e[k..]);
    }
  }

  /** A path with U+2028 in it: the entry is not read back. */
  lemma SeparatorSplits()
    ensures var m := Mutation("create", None, None, [123, 0xE2, 0x80, 0xA8, 125]);
            OneLine(m.entry) && All(Run(Files(None, None), [m])) == [[123], [125]]
  {
    var entry: Bytes := [123, 0xE2, 0x80, 0xA8, 125];
    var m := Mutation("create", None, None, entry);
    assert [m][..0] == [];
    assert Run(Files(None, None), [m]) == Recorded(Files(None, None), m);
    assert [] + entry + [NEWLINE] == entry + ([NEWLINE] + []);
    LinesOfLine(entry, []);
    SplitLines(entry);
  }

  lemma SplitLines(entry: Bytes)
    requires entry == [123, 0xE2, 0x80, 0xA8, 125]
    ensures Lines(entry) == [[123], [125]] && Lines([]) == []
  {
    assert entry[0..] == entry && entry[1..] == [0xE2, 0x80, 0xA8, 125];
    LineLenUnique(entry, 1);
    assert entry[..1] == [123] && entry[4..] == [125];
    var last: Bytes := [125];
    assert last[0..] == last;
    LineLenUnique(last, 1);
    LinesEnd(last);
    assert AfterLine(entry) == last;
  }

  /** Nothing is dropped before a rotation: while everything fits, everything is held. */
  lemma {:induction false} NothingDroppedYet(ms: seq<Mutation>)
    requires forall n :: 0 <= n <= |ms| ==> !IsFull(Run(Files(None, None), ms[..n]))
    ensures Content(Run(Files(None, None), ms).active) == Text(Entries(ms)) && Run(Files(None, None), ms).rotated == None
  {
    hide Text;
    if ms == [] {
      assert Text([]) == [] by { EmptyText(); }
    } else {
      var front, m := ms[..|ms| - 1], ms[|ms| - 1];
      forall n | 0 <= n <= |front|
        ensures !IsFull(Run(Files(None, None), front[..n]))
      {
        assert front[..n] == ms[..n];
      }
      NothingDroppedYet(front);
      assert front[..|front|] == front;
      assert Entries(front) + [] == Entries(front);
      if Counts(m) {
        TextConcat(Entries(front), [m.entry]);
        TextOne(m.entry);
        assert Text(Entries(front)) + m.entry + [NEWLINE] == Text(Entries(front)) + (m.entry + [NEWLINE]);
      }
    }
  }

  lemma EmptyText()
    ensures Text([]) == []
  {
  }

  // ----- The files as fields -----

  class Log {
    var active: Option<Bytes>
    var rotated: Option<Bytes>

    function View(): Files
      reads this
    {
      Files(active, rotated)
    }

    /** `_rotate` */
    method Rotate()
      requires active.Some?
      modifies this
      ensures View() == Rotated(old(View()))
    {
      if |active.value| > MAX_LEDGER_BYTES {
        var kept := active.value[|active.value| - MAX_LEDGER_BYTES..];
        var n := 0;
        var found := false;
        while n < |kept| && !found
          invariant n <= |kept|
          invariant found ==> n == AfterNewline(kept)
          invariant !found ==> NEWLINE !in kept[..n]
          decreases |kept| - n, !found
        {
          if kept[n] == NEWLINE {
            found := true;
            NewlineAt(kept, n);
          } else {
            assert kept[..n + 1] == kept[..n] + [kept[n]];
          }
          n := n + 1;
        }
        if !found {
          assert kept[..|kept|] == kept;
          n := 0;
        }
        rotated := Some(kept[n..]);
      } else {
        rotated := active;
      }
      active := None;
    }

    /** `record` */
    method Record(m: Mutation)
      modifies this
      ensures View() == Recorded(old(View()), m)
    {
      hide Rotated;
      if m.op == "modify" && m.previous.Some? && m.previous == m.content {
        return;
      }
      if active.Some? && |active.value| >= MAX_LEDGER_BYTES {
        Rotate();
      }
      var before := if active.Some? then active.value else [];
      active := Some(before + m.entry + [NEWLINE]);
    }

    /** `_read_all`, before the entries are parsed */
    method ReadAll() returns (entries: seq<Bytes>)
      ensures entries == All(View())
    {
      var older := ReadLines(if rotated.Some? then rotated.value else []);
      var newer := ReadLines(if active.Some? then active.value else []);
      entries := older + newer;
    }
  }

  lemma NewlineAt(b: Bytes, n: nat)
    requires n < |b| && b[n] == NEWLINE && NEWLINE !in b[..n]
    ensures AfterNewline(b) == n + 1
  {
    hide AfterNewline;
    FirstNewline(b[..n], b[n + 1..]);
    assert b == b[..n] + [NEWLINE] + b[n + 1..];
  }
}
