/** What stripping does to every accepted text, and to what the editor writes. */
module JsoncStrictTheorems {
  import opened Options
  import opened Text
  import opened JsoncScanner
  import opened JsoncDoc
  import opened JsonDump
  import opened JsoncStrict
  import opened JsoncStrictFacts
  import opened JsoncStrictDoc
  import opened JsoncEdit
  import opened JsoncSplice
  import opened JsoncSet
  import opened JsoncAppend
  import opened JsoncTheorems

  // ----- Members -----

  predicate ValuesClosed(pairs: seq<(string, string)>) { forall i :: 0 <= i < |pairs| ==> Closed(pairs[i].1) }

  /** An accepted text with no quote left open in a scalar. */
  predicate ClosedText(t: string, loads: KeyReader) {
    && ParseMembers(t, loads).Ok?
    && (ParsedWithin(t, loads); ValuesClosed(Pairs(t, ParseMembers(t, loads).value)))
  }

  /** What is left behind the last value, when that is a scalar, starts with a byte order mark. */
  predicate MarkFollows(t: string, p: Parsed)
    requires Within(t, p)
  {
    p.members != []
    && (var m := p.members[|p.members| - 1];
        assert MemberWithin(m, p.close);
        IsScalar(t[m.valueStart..m.valueEnd]) && Strict(t[m.valueEnd..]).Ok? && StartsWithMark(Strict(t[m.valueEnd..]).value))
  }

  predicate StartsWithMark(s: string) { s != [] && s[0] == BOM }

  lemma EntriesClosed(d: Doc)
    requires Commas(d) && Within(DocText(d), SpansOf(d)) && ValuesClosed(Pairs(DocText(d), SpansOf(d)))
    ensures AllClosed(d.entries)
  {
    hide DocText, SpansOf, Within, Pairs, Closed;
    PairsOf(d);
  }

  /** The text behind the last value. */
  lemma LastText(d: Doc, loads: KeyReader)
    requires WellFormed(d, loads) && d.entries != []
    ensures |SpansOf(d).members| == |d.entries|
    ensures var e, m := d.entries[|d.entries| - 1], SpansOf(d).members[|d.entries| - 1];
            && 0 <= m.valueStart <= m.valueEnd <= |DocText(d)|
            && DocText(d)[m.valueStart..m.valueEnd] == e.value
            && DocText(d)[m.valueEnd..] == TailThen(e, "}" + d.post)
  {
    hide DocText, SpansOf, TailThen, HeadText, Stem, GapAt, WellFormed;
    SpanCount(d);
    TextAroundValue(d, |d.entries| - 1, loads);
    assert d.entries[|d.entries|..] == [];
  }

  lemma MarkBehindIs(d: Doc, loads: KeyReader)
    requires WellFormed(d, loads) && Within(DocText(d), SpansOf(d))
    ensures MarkFollows(DocText(d), SpansOf(d)) <==> MarkBehind(d)
  {
    hide DocText, SpansOf, TailThen, WellFormedEntry, Strict, BareTail;
    SpanCount(d);
    if d.entries != [] {
      var e := d.entries[|d.entries| - 1];
      LastText(d, loads);
      assert WellFormedEntry(e, loads);
      ClosesBody(d.post);
      assert NextToken("}" + d.post);
      StrictTail(e, loads, "}" + d.post);
      assert Strict(TailThen(e, "}" + d.post)) == Ok(BareTail(e) + ("}" + Bare(d.post)));
      FirstOf(BareTail(e), "}" + Bare(d.post));
    }
  }

  lemma FirstOf(a: string, b: string)
    requires b != [] && b[0] != BOM
    ensures StartsWithMark(a + b) <==> a != [] && a[0] == BOM
  {
  }

  lemma LastOfStrict(es: seq<Entry>)
    requires es != []
    ensures StrictEntries(es)[|es| - 1] == StrictLast(es[|es| - 1])
  {
  }

  /** A scalar with a mark behind it is not read as it stands. */
  lemma MarkIsRead(d: Doc, loads: KeyReader)
    requires WellFormed(d, loads) && AllClosed(d.entries) && MarkBehind(d)
    ensures ParseMembers(DocText(StrictDoc(d)), loads) != Ok(SpansOf(StrictDoc(d)))
  {
    hide ParseMembers, DocText, SpansOf, WellFormed, AllClosed, Stem, GapAt, HeadText, Bare, StrictEntries;
    var s := StrictDoc(d);
    var n := |d.entries| - 1;
    var e := d.entries[n];
    LastOfStrict(d.entries);
    ClosedEntry(d, n, loads);
    StrictIsValue(e.value);
    SpanCount(s);
    StrictPlaces(d, loads);
    ValueTextAt(s, n);
    assert s.entries[n + 1..] == [];
    var r := "}" + s.post;
    assert TailThen(StrictLast(e), r) == BareTail(e) + r by { assert "" + r == r; }
    if ParseMembers(DocText(s), loads) == Ok(SpansOf(s)) {
      SwallowedValue(DocText(s), loads, n);
    }
  }

  lemma ClosedEntry(d: Doc, i: nat, loads: KeyReader)
    requires WellFormed(d, loads) && AllClosed(d.entries) && i < |d.entries|
    ensures IsValue(d.entries[i].value) && Closed(d.entries[i].value)
  {
    assert WellFormedEntry(d.entries[i], loads);
  }

  lemma StrictPlaces(d: Doc, loads: KeyReader)
    requires WellFormed(d, loads) && d.entries != []
    ensures Place(StrictDoc(d), |d.entries| - 1)
  {
    if |d.entries| > 1 {
      StrictInside(d.entries, |d.entries| - 2);
    }
  }

  lemma {:induction false} StrictInside(es: seq<Entry>, i: nat)
    requires i + 1 < |es|
    ensures StrictEntries(es)[i] == StrictInner(es[i])
  {
    hide StrictInner, StrictLast;
    if i > 0 {
      StrictInside(es[1..], i - 1);
      assert StrictEntries(es)[i] == StrictEntries(es[1..])[i - 1];
    }
  }

  lemma StrictKeysAndValues(es: seq<Entry>, i: nat)
    requires i < |es|
    ensures StrictEntries(es)[i].key == es[i].key && StrictEntries(es)[i].value == StrictValue(es[i].value)
  {
    if i + 1 < |es| {
      StrictInside(es, i);
    } else {
      LastOfStrict(es);
    }
  }

  /**
   Stripping an accepted text keeps its members: the result is read with the same keys in the same order,
   each with its value stripped, exactly unless a byte order mark comes to stand behind a scalar when the
   comma between them goes. `d` is the text as it is written, `StrictDoc(d)` what is left of it.
   */
  lemma StrictKeepsMembers(t: string, loads: KeyReader) returns (d: Doc)
    requires ClosedText(t, loads)
    ensures Within(t, ParseMembers(t, loads).value) && Strict(t).Ok?
    ensures t == DocText(d) && WellFormed(d, loads) && Strict(t).value == DocText(StrictDoc(d))
    ensures ParseMembers(Strict(t).value, loads) == Ok(SpansOf(StrictDoc(d))) <==> !MarkFollows(t, ParseMembers(t, loads).value)
    ensures !MarkFollows(t, ParseMembers(t, loads).value) ==>
              var o := Strict(t).value;
              var q := ParseMembers(o, loads).value;
              Within(o, q) && Pairs(o, q) == StrictPairs(Pairs(t, ParseMembers(t, loads).value))
  {
    hide ParseMembers, DocText, SpansOf, Within, Pairs, WellFormed, Strict, StrictDoc, MarkFollows, MarkBehind, ValuesClosed, AllClosed;
    ParsedWithin(t, loads);
    d := ReadIsWritten(t, loads);
    CommasOf(d, loads);
    EntriesClosed(d);
    StrictIsWritten(d, loads);
    MarkBehindIs(d, loads);
    if MarkBehind(d) {
      MarkIsRead(d, loads);
    } else {
      WrittenIsRead(StrictDoc(d), loads);
      ParsedWithin(DocText(StrictDoc(d)), loads);
      CommasOf(StrictDoc(d), loads);
      SamePairs(d);
    }
  }

  function StrictPairs(pairs: seq<(string, string)>): (r: seq<(string, string)>)
    ensures |r| == |pairs|
  {
    seq(|pairs|, i requires 0 <= i < |pairs| => (pairs[i].0, StrictValue(pairs[i].1)))
  }

  lemma SamePairs(d: Doc)
    requires Commas(d) && Commas(StrictDoc(d))
    requires Within(DocText(d), SpansOf(d)) && Within(DocText(StrictDoc(d)), SpansOf(StrictDoc(d)))
    ensures Pairs(DocText(StrictDoc(d)), SpansOf(StrictDoc(d))) == StrictPairs(Pairs(DocText(d), SpansOf(d)))
  {
    hide DocText, SpansOf, Within, Pairs, StrictValue, StrictEntries, Bare;
    PairsOf(d);
    PairsOf(StrictDoc(d));
    forall i | 0 <= i < |d.entries|
      ensures StrictEntries(d.entries)[i].key == d.entries[i].key
              && StrictEntries(d.entries)[i].value == StrictValue(d.entries[i].value)
    {
      StrictKeysAndValues(d.entries, i);
    }
  }
}
